/** Composing path-like environment variables for the profiled application. */
module EnvPath {
  import opened Optional

  /** None, a boolean or a string: what the launcher passes as a variable's value. */
  datatype Value = Missing | Bool(b: bool) | Str(s: string) {
    predicate Truthy() {
      match this case Missing => false case Bool(b) => b case Str(s) => s != ""
    }

    /** The default formatter. */
    function Format(): string
      requires !Missing?
    {
      match this case Bool(b) => (if b then "1" else "0") case Str(s) => s
    }
  }

  datatype Options = Options(
    overwrite: bool := true, prepend: bool := false, append: bool := false, joinChar: string := ":",
    overwriteIfTrue: bool := false, overwriteIfFalse: bool := false)

  type Env = map<string, string>

  function Lookup(env: Env, name: string): Option<string> {
    if name in env then Some(env[name]) else None
  }

  // ---------- str.strip(":") ----------

  function StripLeft(s: string): string {
    if s != "" && s[0] == ':' then StripLeft(s[1..]) else s
  }

  function StripRight(s: string): string {
    if s != "" && s[|s| - 1] == ':' then StripRight(s[..|s| - 1]) else s
  }

  function Strip(s: string): string { StripRight(StripLeft(s)) }

  // ---------- update_env ----------

  function Written(env: Env, name: string, val: Value, o: Options): Env
    requires !val.Missing?
  {
    if o.overwriteIfTrue then (if val.Truthy() then env[name := val.Format()] else env)
    else if o.overwriteIfFalse then (if !val.Truthy() then env[name := val.Format()] else env)
    else env[name := val.Format()]
  }

  function Updated(env: Env, name: string, val: Value, o: Options): Env {
    if val.Missing? then env
    else if name !in env then Written(env, name, val, o)
    else if !o.overwrite then env
    else
      var v, curr := val.Format(), env[name];
      if o.prepend then env[name := Strip(if v != "" then v + o.joinChar + curr else curr)]
      else if o.append then env[name := Strip(if v != "" then curr + o.joinChar + v else curr)]
      else Written(env, name, val, o)
  }

  /** What a value other than None is written as. */
  predicate WrittenAs(val: Value, text: string) {
    val == Str(text) || (val == Bool(true) && text == "1") || (val == Bool(false) && text == "0")
  }

  /** A call in which the variable is composed with what it held. */
  predicate Composes(env: Env, name: string, o: Options) {
    name in env && o.overwrite && (o.prepend || o.append)
  }

  /** The effect of a call, case by case. */
  lemma {:induction false} UpdatedExactly(env: Env, name: string, val: Value, o: Options, text: string)
    requires WrittenAs(val, text)
    ensures Updated(env, name, Missing, o) == env
    ensures name in env && !o.overwrite ==> Updated(env, name, val, o) == env
    ensures Composes(env, name, o) && text == "" ==> Updated(env, name, val, o) == env[name := Strip(env[name])]
    ensures Composes(env, name, o) && text != "" && o.prepend ==>
              Updated(env, name, val, o) == env[name := Strip(text + o.joinChar + env[name])]
    ensures Composes(env, name, o) && text != "" && !o.prepend ==>
              Updated(env, name, val, o) == env[name := Strip(env[name] + o.joinChar + text)]
    ensures !Composes(env, name, o) && (name !in env || o.overwrite) ==>
              Updated(env, name, val, o) ==
              if o.overwriteIfTrue && (val == Bool(false) || val == Str("")) then env
              else if !o.overwriteIfTrue && o.overwriteIfFalse && val != Bool(false) && val != Str("") then env
              else env[name := text]
  {
    assert !val.Missing? && val.Format() == text;
    assert val.Truthy() <==> val != Bool(false) && val != Str("");
  }

  class Environment {
    var vars: Env

    constructor (vars: Env)
      ensures this.vars == vars
    {
      this.vars := vars;
    }

    method WriteValue(name: string, val: Value, o: Options)
      requires !val.Missing?
      modifies this
      ensures vars == Written(old(vars), name, val, o)
    {
      if o.overwriteIfTrue {
        if val.Truthy() {
          vars := vars[name := val.Format()];
        }
      } else if o.overwriteIfFalse {
        if !val.Truthy() {
          vars := vars[name := val.Format()];
        }
      } else {
        vars := vars[name := val.Format()];
      }
    }

    method UpdateEnv(name: string, val: Value, o: Options) returns (now: Option<string>)
      modifies this
      ensures vars == Updated(old(vars), name, val, o)
      ensures val == Missing || (name in old(vars) && !o.overwrite) ==> vars == old(vars)
      ensures now == Lookup(vars, name)
      ensures forall other | other != name :: Lookup(vars, other) == Lookup(old(vars), other)
      ensures IsPrepend(o) ==> PiecesOf(vars, name) == Given(val) + PiecesOf(old(vars), name)
      ensures IsAppend(o) ==> PiecesOf(vars, name) == PiecesOf(old(vars), name) + Given(val)
    {
      UpdatedPieces(vars, name, val, o);
      if val.Missing? {
        return Lookup(vars, name);
      }
      var v := val.Format();
      var curr := Lookup(vars, name);
      if curr.Some? {
        if !o.overwrite {
        } else if o.prepend {
          vars := vars[name := Strip(if v != "" then v + o.joinChar + curr.value else curr.value)];
        } else if o.append {
          vars := vars[name := Strip(if v != "" then curr.value + o.joinChar + v else curr.value)];
        } else {
          WriteValue(name, val, o);
        }
      } else {
        WriteValue(name, val, o);
      }
      now := Lookup(vars, name);
    }
  }

  // ---------- the directories a path variable lists ----------

  /** str.split(":") */
  function Split(s: string): (parts: seq<string>)
    ensures parts != []
  {
    if s == "" then [""] else WithChar(Split(s[..|s| - 1]), s[|s| - 1])
  }

  /** The parts of a string that is one character longer. */
  function WithChar(parts: seq<string>, c: char): (parts': seq<string>)
    requires parts != []
    ensures parts' != []
  {
    if c == ':' then parts + [""] else parts[..|parts| - 1] + [parts[|parts| - 1] + [c]]
  }

  function NonEmpty(parts: seq<string>): seq<string> {
    if parts == [] then []
    else NonEmpty(parts[..|parts| - 1]) + if parts[|parts| - 1] == "" then [] else [parts[|parts| - 1]]
  }

  function Pieces(s: string): seq<string> { NonEmpty(Split(s)) }

  function PiecesOf(env: Env, name: string): seq<string> {
    if name in env then Pieces(env[name]) else []
  }

  lemma {:induction false} SplitJoin(a: string, b: string)
    ensures Split(a + ":" + b) == Split(a) + Split(b)
  {
    if b == "" {
      SplitSnoc(a, ':');
      assert a + ":" + b == a + [':'];
      assert Split(b) == [""];
    } else {
      var front, c := b[..|b| - 1], b[|b| - 1];
      var s := a + ":" + front;
      SplitJoin(a, front);
      SplitSnoc(s, c);
      SplitSnoc(front, c);
      WithCharConcat(Split(a), Split(front), c);
      assert b == front + [c];
      Associate(a + ":", front, [c]);
    }
  }

  lemma {:induction false} Associate(a: string, b: string, c: string)
    ensures a + (b + c) == a + b + c
  {
  }

  lemma {:induction false} SplitSnoc(s: string, c: char)
    ensures Split(s + [c]) == WithChar(Split(s), c)
  {
    assert (s + [c])[..|s|] == s;
  }

  lemma {:induction false} WithCharConcat(l: seq<string>, r: seq<string>, c: char)
    requires r != []
    ensures WithChar(l + r, c) == l + WithChar(r, c)
  {
    assert (l + r)[..|l + r| - 1] == l + r[..|r| - 1];
  }

  lemma {:induction false} NonEmptyConcat(p: seq<string>, q: seq<string>)
    ensures NonEmpty(p + q) == NonEmpty(p) + NonEmpty(q)
  {
    if q == [] {
      assert p + q == p;
    } else {
      NonEmptyConcat(p, q[..|q| - 1]);
      assert (p + q)[..|p + q| - 1] == p + q[..|q| - 1];
    }
  }

  lemma {:induction false} PiecesJoin(a: string, b: string)
    ensures Pieces(a + ":" + b) == Pieces(a) + Pieces(b)
  {
    SplitJoin(a, b);
    NonEmptyConcat(Split(a), Split(b));
  }

  lemma {:induction false} PiecesEmpty()
    ensures Pieces("") == []
  {
    assert [""][..0] == [];
  }

  lemma {:induction false} PiecesStripLeft(s: string)
    ensures Pieces(StripLeft(s)) == Pieces(s)
  {
    if s != "" && s[0] == ':' {
      PiecesStripLeft(s[1..]);
      PiecesJoin("", s[1..]);
      PiecesEmpty();
      assert "" + ":" + s[1..] == s;
    }
  }

  lemma {:induction false} PiecesStripRight(s: string)
    ensures Pieces(StripRight(s)) == Pieces(s)
  {
    if s != "" && s[|s| - 1] == ':' {
      PiecesStripRight(s[..|s| - 1]);
      PiecesJoin(s[..|s| - 1], "");
      PiecesEmpty();
      assert s[..|s| - 1] + ":" + "" == s;
    }
  }

  lemma {:induction false} PiecesStrip(s: string)
    ensures Pieces(Strip(s)) == Pieces(s)
  {
    PiecesStripLeft(s);
    PiecesStripRight(StripLeft(s));
  }

  /** A stripped path neither begins nor ends with the separator. */
  lemma {:induction false} StripClean(s: string)
    ensures Strip(s) == "" || (Strip(s)[0] != ':' && Strip(s)[|Strip(s)| - 1] != ':')
  {
    StripLeftClean(s);
    StripRightClean(StripLeft(s));
  }

  lemma {:induction false} StripLeftClean(s: string)
    ensures StripLeft(s) == "" || StripLeft(s)[0] != ':'
  {
    if s != "" && s[0] == ':' {
      StripLeftClean(s[1..]);
    }
  }

  lemma {:induction false} StripRightClean(s: string)
    ensures StripRight(s) <= s
    ensures StripRight(s) == "" || StripRight(s)[|StripRight(s)| - 1] != ':'
  {
    if s != "" && s[|s| - 1] == ':' {
      StripRightClean(s[..|s| - 1]);
    }
  }

  predicate Clean(t: string) {
    t == "" || (t[0] != ':' && t[|t| - 1] != ':')
  }

  function Colons(n: nat): string {
    if n == 0 then "" else ":" + Colons(n - 1)
  }

  /** Stripping removes the separators at both ends and nothing else: t is the stripped path exactly
      when it is clean and the path is t between separators. */
  lemma {:induction false} StripExactly(s: string, t: string)
    ensures Strip(s) == t <==> Clean(t) && exists a: nat, b: nat :: s == Colons(a) + t + Colons(b)
  {
    if Clean(t) {
      if a: nat, b: nat :| s == Colons(a) + t + Colons(b) {
        StripBetween(a, t, b);
      }
    }
    StripClean(s);
    var a := LeftColons(s);
    var b := RightColons(StripLeft(s));
    Associate(Colons(a), StripRight(StripLeft(s)), Colons(b));
    assert s == Colons(a) + Strip(s) + Colons(b);
  }

  lemma {:induction false} LeftColons(s: string) returns (a: nat)
    ensures s == Colons(a) + StripLeft(s)
  {
    if s != "" && s[0] == ':' {
      var n := LeftColons(s[1..]);
      a := n + 1;
      assert s == ":" + s[1..];
      Associate(":", Colons(n), StripLeft(s[1..]));
    } else {
      a := 0;
    }
  }

  lemma {:induction false} RightColons(s: string) returns (b: nat)
    ensures s == StripRight(s) + Colons(b)
  {
    if s != "" && s[|s| - 1] == ':' {
      var n := RightColons(s[..|s| - 1]);
      b := n + 1;
      assert s == s[..|s| - 1] + ":";
      Associate(StripRight(s[..|s| - 1]), Colons(n), ":");
      ColonsSnoc(n);
    } else {
      b := 0;
    }
  }

  lemma {:induction false} ColonsSnoc(n: nat)
    ensures Colons(n + 1) == Colons(n) + ":"
  {
    if n > 0 {
      ColonsSnoc(n - 1);
      Associate(":", Colons(n - 1), ":");
    }
  }

  lemma {:induction false} StripBetween(a: nat, t: string, b: nat)
    requires Clean(t)
    ensures Strip(Colons(a) + t + Colons(b)) == t
  {
    Associate(Colons(a), t, Colons(b));
    StripColonsLeft(a, t + Colons(b));
    if t == "" {
      assert Colons(b) + "" == t + Colons(b);
      StripColonsLeft(b, "");
    } else {
      assert StripLeft(t + Colons(b)) == t + Colons(b);
      StripColonsRight(t, b);
    }
  }

  lemma {:induction false} StripColonsLeft(a: nat, s: string)
    ensures StripLeft(Colons(a) + s) == StripLeft(s)
  {
    if a == 0 {
      assert "" + s == s;
    } else {
      Associate(":", Colons(a - 1), s);
      assert (":" + (Colons(a - 1) + s))[1..] == Colons(a - 1) + s;
      StripColonsLeft(a - 1, s);
    }
  }

  lemma {:induction false} StripColonsRight(s: string, b: nat)
    ensures StripRight(s + Colons(b)) == StripRight(s)
  {
    if b == 0 {
      assert s + "" == s;
    } else {
      ColonsSnoc(b - 1);
      Associate(s, Colons(b - 1), ":");
      assert (s + Colons(b - 1) + ":")[..|s + Colons(b - 1)|] == s + Colons(b - 1);
      StripColonsRight(s, b - 1);
    }
  }

  // ---------- any sequence of calls on one path variable ----------

  /** The options with which the launcher prepends to a path variable, and appends to it. */
  predicate IsPrepend(o: Options) {
    o.overwrite && o.prepend && o.joinChar == ":" && !o.overwriteIfTrue && !o.overwriteIfFalse
  }

  predicate IsAppend(o: Options) {
    o.overwrite && !o.prepend && o.append && o.joinChar == ":" && !o.overwriteIfTrue && !o.overwriteIfFalse
  }

  /** The directories a value lists. */
  function Given(v: Value): seq<string> {
    if v.Missing? then [] else Pieces(v.Format())
  }

  /** The effect of one call on the listed directories, whether or not the variable was set. */
  lemma {:induction false} UpdatedPieces(env: Env, name: string, val: Value, o: Options)
    ensures IsPrepend(o) ==> PiecesOf(Updated(env, name, val, o), name) == Given(val) + PiecesOf(env, name)
    ensures IsAppend(o) ==> PiecesOf(Updated(env, name, val, o), name) == PiecesOf(env, name) + Given(val)
  {
    if !val.Missing? {
      PiecesEmpty();
      if name in env {
        var f, curr := val.Format(), env[name];
        PiecesJoin(f, curr);
        PiecesJoin(curr, f);
        PiecesStrip(f + ":" + curr);
        PiecesStrip(curr + ":" + f);
        PiecesStrip(curr);
      }
    }
  }

  datatype Call = Prepend(val: Value) | Append(val: Value)

  function Apply(env: Env, name: string, call: Call): Env {
    match call
    case Prepend(v) => Updated(env, name, v, Options(prepend := true))
    case Append(v) => Updated(env, name, v, Options(append := true))
  }

  function Run(env: Env, name: string, calls: seq<Call>): Env {
    if calls == [] then env else Apply(Run(env, name, calls[..|calls| - 1]), name, calls[|calls| - 1])
  }

  /** The prepended pieces, latest call first. */
  function InFront(calls: seq<Call>): seq<string> {
    if calls == [] then []
    else
      var last := calls[|calls| - 1];
      (if last.Prepend? then Given(last.val) else []) + InFront(calls[..|calls| - 1])
  }

  /** The appended pieces, in order. */
  function Behind(calls: seq<Call>): seq<string> {
    if calls == [] then []
    else
      var last := calls[|calls| - 1];
      Behind(calls[..|calls| - 1]) + if last.Append? then Given(last.val) else []
  }

  lemma {:induction false} ApplyPieces(env: Env, name: string, call: Call)
    ensures PiecesOf(Apply(env, name, call), name) ==
            match call
            case Prepend(v) => Given(v) + PiecesOf(env, name)
            case Append(v) => PiecesOf(env, name) + Given(v)
  {
    UpdatedPieces(env, name, call.val, if call.Prepend? then Options(prepend := true) else Options(append := true));
  }

  /** After any prepends and appends, empty or missing values and a missing variable included, the
      variable lists the prepended pieces (latest call first), then what it listed at first, then
      the appended pieces in order. */
  lemma {:induction false} RunPieces(env: Env, name: string, calls: seq<Call>)
    ensures PiecesOf(Run(env, name, calls), name) == InFront(calls) + PiecesOf(env, name) + Behind(calls)
  {
    if calls != [] {
      var front, last := calls[..|calls| - 1], calls[|calls| - 1];
      RunPieces(env, name, front);
      ApplyPieces(Run(env, name, front), name, last);
      Regroup(Given(last.val), InFront(front), PiecesOf(env, name), Behind(front));
    }
  }

  lemma {:induction false} Regroup(v: seq<string>, f: seq<string>, p: seq<string>, b: seq<string>)
    ensures v + (f + p + b) == v + f + p + b
    ensures f + p + b + v == f + p + (b + v)
    ensures [] + f == f && b + [] == b
  {
  }

  /** No other variable changes. */
  lemma {:induction false} RunFrame(env: Env, name: string, calls: seq<Call>, other: string)
    requires other != name
    ensures Lookup(Run(env, name, calls), other) == Lookup(env, other)
  {
    if calls != [] {
      RunFrame(env, name, calls[..|calls| - 1], other);
    }
  }

  /** Once a call has met the variable set, its value has no stray separator at either end. */
  lemma {:induction false} ApplyClean(env: Env, name: string, call: Call)
    requires name in env && !call.val.Missing?
    ensures name in Apply(env, name, call)
    ensures var s := Apply(env, name, call)[name]; s == "" || (s[0] != ':' && s[|s| - 1] != ':')
  {
    var f, curr := call.val.Format(), env[name];
    StripClean(f + ":" + curr);
    StripClean(curr + ":" + f);
    StripClean(curr);
  }
}
