/**
 Truncating a demangled symbol to the bare name: a scan from the right that skips spaces and
 bracket groups, then takes the word it stands on. A group is tracked by its own kind of bracket
 only; every other character inside it, other brackets included, is passed over.
 */
module Demangle {

  datatype Bracket = Round | Angle | Square {
    function Opener(): char {
      match this case Round => '(' case Angle => '<' case Square => '['
    }

    function Closer(): char {
      match this case Round => ')' case Angle => '>' case Square => ']'
    }
  }

  predicate IsCloser(c: char) { c == ')' || c == '>' || c == ']' }

  predicate IsSeparator(c: char) { c == ' ' || c == ':' }

  function KindOf(c: char): Bracket
    requires IsCloser(c)
  {
    if c == ')' then Round else if c == '>' then Angle else Square
  }

  function Front(s: string): string
    requires s != ""
  {
    s[..|s| - 1]
  }

  function Last(s: string): char
    requires s != ""
  {
    s[|s| - 1]
  }

  // ---------- the scan as a function ----------

  datatype Mode = Outside | Inside(depth: nat, kind: Bracket)

  /** The part of s left when the scan from the right stops. */
  function Scan(s: string, m: Mode): string {
    if s == "" then ""
    else
      match m
      case Outside =>
        if IsCloser(Last(s)) then Scan(Front(s), Inside(1, KindOf(Last(s))))
        else if Last(s) == ' ' then Scan(Front(s), Outside)
        else s
      case Inside(d, k) =>
        if Last(s) == k.Closer() then Scan(Front(s), Inside(d + 1, k))
        else if Last(s) != k.Opener() then Scan(Front(s), m)
        else if d <= 1 then Scan(Front(s), Outside)
        else Scan(Front(s), Inside(d - 1, k))
  }

  /** The longest suffix without a separator. */
  function LastWord(s: string): string {
    if s == "" || IsSeparator(Last(s)) then "" else LastWord(Front(s)) + [Last(s)]
  }

  function Truncate(name: string): string {
    LastWord(Scan(name, Outside))
  }

  /** The two loops. */
  method TruncateName(name: string) returns (r: string)
    ensures r == Truncate(name)
  {
    var end := SkipTail(name);
    var left := end;
    while left > 0 && name[left - 1] != ' ' && name[left - 1] != ':'
      invariant 0 <= left <= end
      invariant LastWord(name[..end]) == LastWord(name[..left]) + name[left..end]
    {
      assert Last(name[..left]) == name[left - 1] && Front(name[..left]) == name[..left - 1];
      assert [name[left - 1]] + name[left..end] == name[left - 1..end];
      left := left - 1;
    }
    r := name[left..end];
  }

  /** The first loop. `counter` is 32 bits wide in the program; it never exceeds the number of
      characters scanned, so it does not wrap for names shorter than that. */
  method SkipTail(name: string) returns (left: nat)
    ensures left <= |name| && name[..left] == Scan(name, Outside)
  {
    left := |name|;
    var counter: nat := 0;
    var openToken, closeToken := '\0', '\0';
    ghost var kind := Round;
    assert name[..left] == name;
    while left > 0
      invariant left <= |name| && counter <= |name| - left
      invariant counter > 0 ==> openToken == kind.Closer() && closeToken == kind.Opener()
      invariant Scan(name[..left], if counter == 0 then Outside else Inside(counter, kind)) == Scan(name, Outside)
    {
      var c := name[left - 1];
      assert Last(name[..left]) == c && Front(name[..left]) == name[..left - 1];
      if counter == 0 {
        if c == ')' {
          counter, openToken, closeToken, kind := 1, ')', '(', Round;
        } else if c == '>' {
          counter, openToken, closeToken, kind := 1, '>', '<', Angle;
        } else if c == ']' {
          counter, openToken, closeToken, kind := 1, ']', '[', Square;
        } else if c == ' ' {
          left := left - 1;
          continue;
        }
        if counter == 0 {
          break;
        }
      } else {
        if c == openToken {
          counter := counter + 1;
        }
        if c == closeToken {
          counter := counter - 1;
        }
      }
      left := left - 1;
    }
  }

  // ---------- what the scan skips, without mentioning the scan ----------

  function Weight(c: char, k: Bracket): int {
    if c == k.Closer() then 1 else if c == k.Opener() then -1 else 0
  }

  /** Closing brackets minus opening brackets of kind k. */
  function Depth(s: string, k: Bracket): int {
    if s == "" then 0 else Depth(Front(s), k) + Weight(Last(s), k)
  }

  /** A bracket group balanced in its own kind: it closes, and no proper suffix is balanced. */
  ghost predicate IsGroup(g: string, k: Bracket) {
    g != "" && Last(g) == k.Closer() && Closes(Front(g), 1, k)
  }

  /** Read from the right at depth d, g reaches depth 0 with its first character and not before. */
  ghost predicate Closes(g: string, d: nat, k: Bracket) {
    && g != ""
    && d + Depth(g, k) == 0
    && forall i | 0 < i <= |g| :: d + Depth(g[i..], k) > 0
  }

  ghost predicate IsPiece(p: string) {
    p == " " || exists k :: IsGroup(p, k)
  }

  function Join(pieces: seq<string>): string {
    if pieces == [] then "" else Join(pieces[..|pieces| - 1]) + pieces[|pieces| - 1]
  }

  /** name is prefix, then the identifier, then a run of spaces and bracket groups. */
  ghost predicate Decomposes(name: string, prefix: string, id: string, pieces: seq<string>) {
    && name == prefix + id + Join(pieces)
    && (prefix == "" || IsSeparator(Last(prefix)))
    && id != "" && (forall c | c in id :: !IsSeparator(c)) && !IsCloser(Last(id))
    && forall p | p in pieces :: IsPiece(p)
  }

  lemma {:induction false} SkipInside(s: string, g: string, d: nat, k: Bracket)
    requires Closes(g, d, k)
    ensures Scan(s + g, Inside(d, k)) == Scan(s, Outside)
    decreases |g|
  {
    var g', c := Front(g), Last(g);
    assert Last(s + g) == c && Front(s + g) == s + g';
    ClosesFront(g, d, k);
    if g' == "" {
      assert s + g' == s;
    } else {
      SkipInside(s, g', d + Weight(c, k), k);
    }
  }

  /** Reading one more character from the right. */
  lemma {:induction false} ClosesFront(g: string, d: nat, k: Bracket)
    requires Closes(g, d, k)
    ensures var d' := d + Weight(Last(g), k);
            d > 0 && d' >= 0 && (d' == 0 <==> Front(g) == "") && (d' > 0 ==> Closes(Front(g), d', k))
  {
    var g', c := Front(g), Last(g);
    var d' := d + Weight(c, k);
    assert g[|g|..] == "";
    assert g[|g| - 1..] == [c] && Front([c]) == "";
    assert Depth([c], k) == Weight(c, k);
    if g' == "" {
      assert g == [c];
    } else {
      assert d' > 0;
      forall i | 0 < i <= |g'| ensures d' + Depth(g'[i..], k) > 0 {
        assert Front(g[i..]) == g'[i..] && Last(g[i..]) == c;
      }
    }
  }

  /** And back: a group that closes from one character further left. */
  lemma {:induction false} ClosesBack(h: string, c: char, d: nat, k: Bracket)
    requires d > 0 && d + Weight(c, k) >= 0
    requires if h == "" then d + Weight(c, k) == 0 else d + Weight(c, k) > 0 && Closes(h, d + Weight(c, k), k)
    ensures Closes(h + [c], d, k)
  {
    var g := h + [c];
    assert Front(g) == h && Last(g) == c;
    forall i | 0 < i <= |g| ensures d + Depth(g[i..], k) > 0 {
      if i < |g| {
        assert Front(g[i..]) == h[i..] && Last(g[i..]) == c;
      }
    }
  }

  lemma {:induction false} SkipPiece(s: string, p: string)
    requires IsPiece(p)
    ensures Scan(s + p, Outside) == Scan(s, Outside)
  {
    assert p != "" ==> Last(s + p) == Last(p) && Front(s + p) == s + Front(p);
    if p == " " {
      assert s + Front(p) == s;
    } else {
      var k :| IsGroup(p, k);
      SkipInside(s, Front(p), 1, k);
    }
  }

  lemma {:induction false} SkipPieces(s: string, pieces: seq<string>)
    requires forall p | p in pieces :: IsPiece(p)
    ensures Scan(s + Join(pieces), Outside) == Scan(s, Outside)
  {
    if pieces == [] {
      assert s + Join(pieces) == s;
    } else {
      var front, p := pieces[..|pieces| - 1], pieces[|pieces| - 1];
      assert s + Join(pieces) == s + Join(front) + p;
      SkipPiece(s + Join(front), p);
      SkipPieces(s, front);
    }
  }

  lemma {:induction false} WordAfter(prefix: string, id: string)
    requires prefix == "" || IsSeparator(Last(prefix))
    requires forall c | c in id :: !IsSeparator(c)
    ensures LastWord(prefix + id) == id
  {
    if id == "" {
      assert prefix + id == prefix;
    } else {
      assert Last(prefix + id) == Last(id) && Front(prefix + id) == prefix + Front(id);
      assert Last(id) in id;
      WordAfter(prefix, Front(id));
    }
  }

  /** A decomposable name truncates to its identifier. */
  lemma {:induction false} TruncateFinds(name: string, prefix: string, id: string, pieces: seq<string>)
    requires Decomposes(name, prefix, id, pieces)
    ensures Truncate(name) == id
  {
    SkipPieces(prefix + id, pieces);
    assert Last(prefix + id) == Last(id) && Last(id) in id;
    WordAfter(prefix, id);
  }

  // ---------- and nothing else ----------

  /** What a scan that stops at a character has skipped, starting inside a group. */
  lemma {:induction false} SkippedInside(s: string, d: nat, k: Bracket) returns (g: string, pieces: seq<string>)
    requires d > 0 && Scan(s, Inside(d, k)) != ""
    ensures s == Scan(s, Inside(d, k)) + Join(pieces) + g && Closes(g, d, k)
    ensures forall p | p in pieces :: IsPiece(p)
    ensures StopsProperly(Scan(s, Inside(d, k)))
    decreases |s|
  {
    var s', c := Front(s), Last(s);
    var d' := d + Weight(c, k);
    var h;
    if d' == 0 {
      pieces := Skipped(s');
      h := "";
    } else {
      h, pieces := SkippedInside(s', d', k);
    }
    g := h + [c];
    assert s == Scan(s, Inside(d, k)) + Join(pieces) + g;
    ClosesBack(h, c, d, k);
  }

  predicate StopsProperly(s: string) {
    s != "" && !IsCloser(Last(s)) && Last(s) != ' '
  }

  lemma {:induction false} Skipped(s: string) returns (pieces: seq<string>)
    requires Scan(s, Outside) != ""
    ensures s == Scan(s, Outside) + Join(pieces) && forall p | p in pieces :: IsPiece(p)
    ensures StopsProperly(Scan(s, Outside))
    decreases |s|
  {
    var s', c := Front(s), Last(s);
    if IsCloser(c) {
      var g, rest := SkippedInside(s', 1, KindOf(c));
      pieces := rest + [g + [c]];
      assert Front(g + [c]) == g && Last(g + [c]) == c;
      assert IsGroup(g + [c], KindOf(c));
      assert pieces[..|rest|] == rest;
      assert s == Scan(s, Outside) + Join(pieces);
    } else if c == ' ' {
      var rest := Skipped(s');
      pieces := rest + [" "];
      assert pieces[..|rest|] == rest;
      assert s == Scan(s, Outside) + Join(pieces);
    } else {
      pieces := [];
    }
  }

  lemma {:induction false} WordPrefix(s: string) returns (prefix: string)
    ensures s == prefix + LastWord(s) && (prefix == "" || IsSeparator(Last(prefix)))
    ensures forall c | c in LastWord(s) :: !IsSeparator(c)
  {
    if s == "" || IsSeparator(Last(s)) {
      prefix := s;
    } else {
      prefix := WordPrefix(Front(s));
      assert s == Front(s) + [Last(s)];
    }
  }

  /** The function is exactly determined: truncation yields a non-empty identifier if and only if the
      name is a prefix, that identifier and a run of spaces and bracket groups. Every other name
      truncates to the empty string. */
  lemma {:induction false} TruncateExactly(name: string, id: string)
    requires id != ""
    ensures Truncate(name) == id <==> exists prefix, pieces :: Decomposes(name, prefix, id, pieces)
  {
    if Truncate(name) == id {
      var rest := Scan(name, Outside);
      var pieces := Skipped(name);
      var prefix := WordPrefix(rest);
      assert Last(id) == Last(rest);
      assert Decomposes(name, prefix, id, pieces);
    }
    if prefix, pieces :| Decomposes(name, prefix, id, pieces) {
      TruncateFinds(name, prefix, id, pieces);
    }
  }

  lemma {:induction false} TruncateIdempotent(name: string)
    ensures Truncate(Truncate(name)) == Truncate(name)
  {
    var id := Truncate(name);
    if id != "" {
      TruncateExactly(name, id);
      var prefix, pieces :| Decomposes(name, prefix, id, pieces);
      assert "" + id + Join([]) == id;
      TruncateFinds(id, "", id, []);
    }
  }

  /** Spaces and balanced groups at the end of a name do not matter. */
  lemma {:induction false} TruncateIgnoresTail(name: string, piece: string)
    requires IsPiece(piece)
    ensures Truncate(name + piece) == Truncate(name)
  {
    SkipPiece(name, piece);
  }

  /** A word after the parameter list, such as a const qualifier, is taken for the name. */
  lemma {:induction false} TrailingWordWins(prefix: string, word: string)
    requires word != "" && (forall c | c in word :: !IsSeparator(c)) && !IsCloser(Last(word))
    ensures Truncate(prefix + " " + word) == word
  {
    assert prefix + " " + word == (prefix + " ") + word + Join([]);
    TruncateFinds(prefix + " " + word, prefix + " ", word, []);
  }

  // ---------- a structured printer ----------

  /** The inside of a bracket group: characters other than the group's own brackets, and nested
      groups of the same kind. */
  datatype Body = Nil | Char(c: char, rest: Body) | Nest(inner: Body, rest: Body)

  predicate FreeOf(b: Body, k: Bracket) {
    match b
    case Nil => true
    case Char(c, rest) => c != k.Opener() && c != k.Closer() && FreeOf(rest, k)
    case Nest(inner, rest) => FreeOf(inner, k) && FreeOf(rest, k)
  }

  function PrintBody(b: Body, k: Bracket): string
    decreases b, 0
  {
    match b
    case Nil => ""
    case Char(c, rest) => [c] + PrintBody(rest, k)
    case Nest(inner, rest) => PrintGroup(inner, k) + PrintBody(rest, k)
  }

  function PrintGroup(b: Body, k: Bracket): string
    decreases b, 1
  {
    [k.Opener()] + PrintBody(b, k) + [k.Closer()]
  }

  datatype Item = Space | Group(kind: Bracket, body: Body)

  function PrintItem(i: Item): string {
    match i case Space => " " case Group(k, b) => PrintGroup(b, k)
  }

  datatype Name = Name(prefix: string, id: string, tail: seq<Item>)

  function PrintItems(items: seq<Item>): seq<string> {
    seq(|items|, i requires 0 <= i < |items| => PrintItem(items[i]))
  }

  function Print(n: Name): string { n.prefix + n.id + Join(PrintItems(n.tail)) }

  predicate WellFormed(n: Name) {
    && (n.prefix == "" || IsSeparator(Last(n.prefix)))
    && n.id != "" && (forall c | c in n.id :: !IsSeparator(c)) && !IsCloser(Last(n.id))
    && forall i | i in n.tail :: i.Group? ==> FreeOf(i.body, i.kind)
  }

  lemma {:induction false} DepthConcat(a: string, b: string, k: Bracket)
    ensures Depth(a + b, k) == Depth(a, k) + Depth(b, k)
  {
    if b == "" {
      assert a + b == a;
    } else {
      assert Front(a + b) == a + Front(b) && Last(a + b) == Last(b);
      DepthConcat(a, Front(b), k);
    }
  }

  /** A printed body is balanced and no suffix of it has more opening than closing brackets. */
  lemma {:induction false} BodyBalanced(b: Body, k: Bracket)
    requires FreeOf(b, k)
    ensures Depth(PrintBody(b, k), k) == 0
    ensures forall i | 0 <= i <= |PrintBody(b, k)| :: Depth(PrintBody(b, k)[i..], k) >= 0
    decreases b, 0
  {
    var s := PrintBody(b, k);
    match b {
      case Nil =>
      case Char(c, rest) =>
        BodyBalanced(rest, k);
        DepthOne(c, k);
        SuffixDepth([c], PrintBody(rest, k), k);
      case Nest(inner, rest) =>
        BodyBalanced(rest, k);
        GroupBalanced(inner, k);
        SuffixDepth(PrintGroup(inner, k), PrintBody(rest, k), k);
    }
  }

  lemma {:induction false} DepthOne(c: char, k: Bracket)
    ensures Depth([c], k) == Weight(c, k)
  {
    assert Front([c]) == "";
  }

  lemma {:induction false} SuffixDepth(a: string, b: string, k: Bracket)
    requires forall i | 0 <= i <= |a| :: Depth(a[i..], k) >= 0
    requires forall i | 0 <= i <= |b| :: Depth(b[i..], k) >= 0
    requires Depth(a, k) == Depth(b, k) == 0
    ensures Depth(a + b, k) == 0
    ensures forall i | 0 <= i <= |a + b| :: Depth((a + b)[i..], k) >= 0
  {
    DepthConcat(a, b, k);
    forall i | 0 <= i <= |a + b| ensures Depth((a + b)[i..], k) >= 0 {
      if i <= |a| {
        assert (a + b)[i..] == a[i..] + b;
        DepthConcat(a[i..], b, k);
      } else {
        assert (a + b)[i..] == b[i - |a|..];
      }
    }
  }

  lemma {:induction false} GroupBalanced(b: Body, k: Bracket)
    requires FreeOf(b, k)
    ensures IsGroup(PrintGroup(b, k), k)
    ensures Depth(PrintGroup(b, k), k) == 0
    ensures forall i | 0 <= i <= |PrintGroup(b, k)| :: Depth(PrintGroup(b, k)[i..], k) >= 0
    decreases b, 1
  {
    BodyBalanced(b, k);
    var body, g := PrintBody(b, k), PrintGroup(b, k);
    var front := [k.Opener()] + body;
    assert Front(g) == front && Last(g) == k.Closer();
    DepthOne(k.Opener(), k);
    DepthConcat([k.Opener()], body, k);
    forall i | 0 < i <= |front| ensures Depth(front[i..], k) >= 0 {
      assert front[i..] == body[i - 1..];
    }
    forall i | 0 <= i <= |g| ensures Depth(g[i..], k) >= 0 {
      if i < |g| {
        assert Front(g[i..]) == front[i..] && Last(g[i..]) == k.Closer();
        assert front[0..] == front;
      }
    }
  }

  /** Printing a structured name and truncating it gives the identifier back. */
  lemma {:induction false} PrintTruncate(n: Name)
    requires WellFormed(n)
    ensures Truncate(Print(n)) == n.id
  {
    var pieces := PrintItems(n.tail);
    forall p | p in pieces ensures IsPiece(p) {
      var i :| 0 <= i < |n.tail| && p == PrintItem(n.tail[i]);
      if n.tail[i].Group? {
        assert n.tail[i] in n.tail;
        GroupBalanced(n.tail[i].body, n.tail[i].kind);
      }
    }
    TruncateFinds(Print(n), n.prefix, n.id, pieces);
  }
}
