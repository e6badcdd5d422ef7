/**
 The final report of a thread trace: what the finalizer computes from the index, when it can, and
 what its totals say about the events received.
 */
module TraceReport {
  import opened Optional
  import opened Sums
  import opened TraceIndex

  /** The order in which std::map visits its keys. */
  predicate Less(a: Pc, b: Pc) {
    if a.markerId == b.markerId then a.addr < b.addr else a.markerId < b.markerId
  }

  ghost predicate InMapOrder(m: map<Pc, Elem>, order: seq<Pc>) {
    && (forall i, j | 0 <= i < j < |order| :: Less(order[i], order[j]))
    && (forall pc :: pc in m <==> pc in order)
  }

  datatype Class = WaitScalar | WaitVector | Vector | Scalar | Other

  predicate Contains(s: string, sub: string) {
    exists i | 0 <= i <= |s| :: sub <= s[i..]
  }

  function Classify(line: string): Class {
    if "s_waitcnt" <= line then (if Contains(line, "lgkmcnt") then WaitScalar else WaitVector)
    else if "v_" <= line then Vector
    else if "s_" <= line then Scalar
    else Other
  }

  datatype Report = Report(
    vmcLatency: nat, lgkLatency: nat, scalarLatency: nat, vectorLatency: nat, otherLatency: nat,
    scalarExec: nat, vectorExec: nat, otherExec: nat)
  {
    function TotalExec(): nat { FetchAdd(FetchAdd(vectorExec, scalarExec), otherExec) }

    function MemoryLatency(): nat { FetchAdd(vmcLatency, lgkLatency) }

    function TotalLatency(): nat {
      FetchAdd(FetchAdd(FetchAdd(MemoryLatency(), vectorLatency), scalarLatency), otherLatency)
    }
  }

  /** Sum of counter c over the listed entries whose instruction falls in one of the classes. */
  function ClassSum(m: map<Pc, Elem>, order: seq<Pc>, classes: set<Class>, c: Counter): nat
    requires Listed(m, order)
  {
    if order == [] then 0
    else
      var pc := order[|order| - 1];
      ClassSum(m, order[..|order| - 1], classes, c) + if ClassAt(m, pc) in classes then m[pc].Count(c) else 0
  }

  /** The listed entries exist and have their instruction. */
  ghost predicate Listed(m: map<Pc, Elem>, order: seq<Pc>) {
    forall pc | pc in order :: HasLine(m, pc)
  }

  predicate HasLine(m: map<Pc, Elem>, pc: Pc) {
    pc in m && m[pc].line.Some?
  }

  function TextAt(m: map<Pc, Elem>, pc: Pc): string
    requires HasLine(m, pc)
  {
    m[pc].line.value
  }

  function ClassAt(m: map<Pc, Elem>, pc: Pc): Class
    requires HasLine(m, pc)
  {
    Classify(TextAt(m, pc))
  }

  /** Every entry has its instruction. */
  ghost predicate Printable(m: map<Pc, Elem>) {
    forall pc | pc in m :: HasLine(m, pc)
  }

  /** Each class sum modulo the word size. */
  ghost predicate Reports(r: Report, m: map<Pc, Elem>, order: seq<Pc>)
    requires Listed(m, order)
  {
    && r.vmcLatency == ClassSum(m, order, {WaitVector}, Latency) % WORD
    && r.lgkLatency == ClassSum(m, order, {WaitScalar}, Latency) % WORD
    && r.scalarLatency == ClassSum(m, order, {Scalar}, Latency) % WORD
    && r.vectorLatency == ClassSum(m, order, {Vector}, Latency) % WORD
    && r.otherLatency == ClassSum(m, order, {Other}, Latency) % WORD
    && r.scalarExec == ClassSum(m, order, {Scalar}, Hitcount) % WORD
    && r.vectorExec == ClassSum(m, order, {Vector}, Hitcount) % WORD
    && r.otherExec == ClassSum(m, order, {WaitScalar, WaitVector, Other}, Hitcount) % WORD
  }

  // ---------- the figures by the text of the instructions ----------

  /** Sum of counter c over the listed entries whose text is selected. */
  ghost function SumWhere(m: map<Pc, Elem>, order: seq<Pc>, selected: string -> bool, c: Counter): nat
    requires Listed(m, order)
  {
    if order == [] then 0
    else
      var pc := order[|order| - 1];
      SumWhere(m, order[..|order| - 1], selected, c) + if selected(TextAt(m, pc)) then m[pc].Count(c) else 0
  }

  ghost predicate WaitsForLgkm(line: string) {
    "s_waitcnt" <= line && exists i :: 0 <= i <= |line| && "lgkmcnt" <= line[i..]
  }

  ghost predicate WaitsOtherwise(line: string) {
    "s_waitcnt" <= line && forall i :: 0 <= i <= |line| ==> !("lgkmcnt" <= line[i..])
  }

  ghost predicate IsVector(line: string) {
    "v_" <= line
  }

  ghost predicate IsScalar(line: string) {
    "s_" <= line && !("s_waitcnt" <= line)
  }

  ghost predicate IsOther(line: string) {
    !("v_" <= line) && !("s_" <= line)
  }

  ghost predicate WaitsOrOther(line: string) {
    !("v_" <= line) && ("s_" <= line ==> "s_waitcnt" <= line)
  }

  /** Each figure is the sum over the entries with the right text, modulo the word size. */
  ghost predicate Figures(r: Report, m: map<Pc, Elem>, order: seq<Pc>)
    requires Listed(m, order)
  {
    && r.vmcLatency == SumWhere(m, order, WaitsOtherwise, Latency) % WORD
    && r.lgkLatency == SumWhere(m, order, WaitsForLgkm, Latency) % WORD
    && r.scalarLatency == SumWhere(m, order, IsScalar, Latency) % WORD
    && r.vectorLatency == SumWhere(m, order, IsVector, Latency) % WORD
    && r.otherLatency == SumWhere(m, order, IsOther, Latency) % WORD
    && r.scalarExec == SumWhere(m, order, IsScalar, Hitcount) % WORD
    && r.vectorExec == SumWhere(m, order, IsVector, Hitcount) % WORD
    && r.otherExec == SumWhere(m, order, WaitsOrOther, Hitcount) % WORD
  }

  /** Which text belongs to which class. */
  lemma {:induction false} ClassByText(line: string)
    ensures Classify(line) == WaitScalar <==>
            "s_waitcnt" <= line && exists i :: 0 <= i <= |line| && "lgkmcnt" <= line[i..]
    ensures Classify(line) == WaitVector <==>
            "s_waitcnt" <= line && forall i :: 0 <= i <= |line| ==> !("lgkmcnt" <= line[i..])
    ensures Classify(line) == Vector <==> "v_" <= line
    ensures Classify(line) == Scalar <==> "s_" <= line && !("s_waitcnt" <= line)
    ensures Classify(line) == Other <==> !("v_" <= line) && !("s_" <= line)
  {
    assert "s_waitcnt"[..2] == "s_" && "s_waitcnt"[0] == 's' && "v_"[0] == 'v' && "s_"[0] == 's';
    if "s_waitcnt" <= line {
      assert line[..2] == "s_waitcnt"[..2];
    }
    if Contains(line, "lgkmcnt") {
      var i :| 0 <= i <= |line| && "lgkmcnt" <= line[i..];
    }
  }

  lemma {:induction false} ClassSumWhere(m: map<Pc, Elem>, order: seq<Pc>, classes: set<Class>,
                                         selected: string -> bool, c: Counter)
    requires Listed(m, order)
    requires forall line :: selected(line) <==> Classify(line) in classes
    ensures ClassSum(m, order, classes, c) == SumWhere(m, order, selected, c)
  {
    if order != [] {
      ClassSumWhere(m, order[..|order| - 1], classes, selected, c);
    }
  }

  lemma {:induction false} FiguresByText(r: Report, m: map<Pc, Elem>, order: seq<Pc>)
    requires Listed(m, order)
    ensures Reports(r, m, order) <==> Figures(r, m, order)
  {
    forall line
      ensures WaitsOtherwise(line) <==> Classify(line) in {WaitVector}
      ensures WaitsForLgkm(line) <==> Classify(line) in {WaitScalar}
      ensures IsScalar(line) <==> Classify(line) in {Scalar}
      ensures IsVector(line) <==> Classify(line) in {Vector}
      ensures IsOther(line) <==> Classify(line) in {Other}
      ensures WaitsOrOther(line) <==> Classify(line) in {WaitScalar, WaitVector, Other}
    {
      ClassByText(line);
    }
    ClassSumWhere(m, order, {WaitVector}, WaitsOtherwise, Latency);
    ClassSumWhere(m, order, {WaitScalar}, WaitsForLgkm, Latency);
    ClassSumWhere(m, order, {Scalar}, IsScalar, Latency);
    ClassSumWhere(m, order, {Vector}, IsVector, Latency);
    ClassSumWhere(m, order, {Other}, IsOther, Latency);
    ClassSumWhere(m, order, {Scalar}, IsScalar, Hitcount);
    ClassSumWhere(m, order, {Vector}, IsVector, Hitcount);
    ClassSumWhere(m, order, {WaitScalar, WaitVector, Other}, WaitsOrOther, Hitcount);
  }

  /** The first loop: the longest instruction, unless it dereferences a missing one. */
  method LongestLine(m: map<Pc, Elem>, order: seq<Pc>) returns (longest: Option<nat>)
    requires InMapOrder(m, order)
    ensures longest.Some? <==> Printable(m)
    ensures longest.Some? ==> forall pc | pc in m :: |m[pc].line.value| <= longest.value
    ensures longest.Some? && longest.value > 0 ==> exists pc | pc in m :: |m[pc].line.value| == longest.value
  {
    var max: nat := 0;
    for i := 0 to |order|
      invariant forall j | 0 <= j < i :: HasLine(m, order[j]) && |m[order[j]].line.value| <= max
      invariant max > 0 ==> exists j | 0 <= j < i :: |m[order[j]].line.value| == max
    {
      if m[order[i]].line.None? {
        return None;
      }
      if max < |m[order[i]].line.value| {
        max := |m[order[i]].line.value|;
      }
    }
    longest := Some(max);
  }

  /** The report, unless a missing instruction is dereferenced first. */
  method ToolFini(m: map<Pc, Elem>, order: seq<Pc>) returns (report: Option<Report>)
    requires InMapOrder(m, order)
    ensures report.Some? <==> Printable(m)
    ensures report.Some? ==> Reports(report.value, m, order) && Figures(report.value, m, order)
  {
    var longest := LongestLine(m, order);
    if longest.None? {
      return None;
    }
    var r := SumUp(m, order);
    FiguresByText(r, m, order);
    report := Some(r);
  }

  /** The second loop: each entry is added to the figures of its instruction's class. */
  method SumUp(m: map<Pc, Elem>, order: seq<Pc>) returns (r: Report)
    requires Listed(m, order)
    ensures Reports(r, m, order)
  {
    r := Report(0, 0, 0, 0, 0, 0, 0, 0);
    for i := 0 to |order|
      invariant Reports(r, m, order[..i])
    {
      var pc := order[i];
      assert HasLine(m, pc);
      ghost var before := r;
      r := AddEntry(r, m[pc].hitcount, m[pc].latency, m[pc].line.value);
      assert order[..i + 1] == order[..i] + [pc];
      ReportsStep(before, r, m, order[..i], pc);
    }
    assert order[..|order|] == order;
  }

  function Accounted(r: Report, k: Class, h: nat, l: nat): Report {
    match k
    case WaitScalar => r.(otherExec := FetchAdd(r.otherExec, h), lgkLatency := FetchAdd(r.lgkLatency, l))
    case WaitVector => r.(otherExec := FetchAdd(r.otherExec, h), vmcLatency := FetchAdd(r.vmcLatency, l))
    case Vector => r.(vectorExec := FetchAdd(r.vectorExec, h), vectorLatency := FetchAdd(r.vectorLatency, l))
    case Scalar => r.(scalarExec := FetchAdd(r.scalarExec, h), scalarLatency := FetchAdd(r.scalarLatency, l))
    case Other => r.(otherExec := FetchAdd(r.otherExec, h), otherLatency := FetchAdd(r.otherLatency, l))
  }

  /** The body of the loop. */
  method AddEntry(before: Report, hitcount: nat, latency: nat, line: string) returns (r: Report)
    ensures r == Accounted(before, Classify(line), hitcount, latency)
  {
    r := before;
    if "s_waitcnt" <= line {
      r := r.(otherExec := FetchAdd(r.otherExec, hitcount));
      if Contains(line, "lgkmcnt") {
        r := r.(lgkLatency := FetchAdd(r.lgkLatency, latency));
      } else {
        r := r.(vmcLatency := FetchAdd(r.vmcLatency, latency));
      }
    } else if "v_" <= line {
      r := r.(vectorExec := FetchAdd(r.vectorExec, hitcount));
      r := r.(vectorLatency := FetchAdd(r.vectorLatency, latency));
    } else if "s_" <= line {
      r := r.(scalarExec := FetchAdd(r.scalarExec, hitcount));
      r := r.(scalarLatency := FetchAdd(r.scalarLatency, latency));
    } else {
      r := r.(otherExec := FetchAdd(r.otherExec, hitcount));
      r := r.(otherLatency := FetchAdd(r.otherLatency, latency));
    }
  }

  /** Accounting one entry to the classes of its instruction. */
  lemma {:induction false} ReportsStep(r: Report, r': Report, m: map<Pc, Elem>, order: seq<Pc>, pc: Pc)
    requires Listed(m, order) && HasLine(m, pc) && Reports(r, m, order)
    requires r' == Accounted(r, ClassAt(m, pc), m[pc].hitcount, m[pc].latency)
    ensures Listed(m, order + [pc]) && Reports(r', m, order + [pc])
  {
    BucketStep(m, order, pc, {WaitVector}, Latency, r.vmcLatency);
    BucketStep(m, order, pc, {WaitScalar}, Latency, r.lgkLatency);
    BucketStep(m, order, pc, {Scalar}, Latency, r.scalarLatency);
    BucketStep(m, order, pc, {Vector}, Latency, r.vectorLatency);
    BucketStep(m, order, pc, {Other}, Latency, r.otherLatency);
    BucketStep(m, order, pc, {Scalar}, Hitcount, r.scalarExec);
    BucketStep(m, order, pc, {Vector}, Hitcount, r.vectorExec);
    BucketStep(m, order, pc, {WaitScalar, WaitVector, Other}, Hitcount, r.otherExec);
  }

  lemma {:induction false} BucketStep(m: map<Pc, Elem>, order: seq<Pc>, pc: Pc, classes: set<Class>, c: Counter, x: nat)
    requires Listed(m, order) && HasLine(m, pc) && x == ClassSum(m, order, classes, c) % WORD
    ensures Listed(m, order + [pc])
    ensures (if ClassAt(m, pc) in classes then FetchAdd(x, m[pc].Count(c)) else x)
         == ClassSum(m, order + [pc], classes, c) % WORD
  {
    assert (order + [pc])[..|order|] == order;
    WrapAdd(ClassSum(m, order, classes, c), m[pc].Count(c));
  }

  // ---------- the report of a finished run ----------

  lemma {:induction false} ClassSumPartition(m: map<Pc, Elem>, order: seq<Pc>, c: Counter)
    requires Listed(m, order)
    ensures ClassSum(m, order, AllClasses(), c) ==
            ClassSum(m, order, {WaitScalar}, c) + ClassSum(m, order, {WaitVector}, c) + ClassSum(m, order, {Vector}, c)
            + ClassSum(m, order, {Scalar}, c) + ClassSum(m, order, {Other}, c)
  {
    if order != [] {
      ClassSumPartition(m, order[..|order| - 1], c);
    }
  }

  lemma {:induction false} ClassSumWaits(m: map<Pc, Elem>, order: seq<Pc>, c: Counter)
    requires Listed(m, order)
    ensures ClassSum(m, order, {WaitScalar, WaitVector, Other}, c) ==
            ClassSum(m, order, {WaitScalar}, c) + ClassSum(m, order, {WaitVector}, c) + ClassSum(m, order, {Other}, c)
  {
    if order != [] {
      ClassSumWaits(m, order[..|order| - 1], c);
    }
  }

  function AllClasses(): set<Class> { {WaitScalar, WaitVector, Vector, Scalar, Other} }

  function Counts(m: map<Pc, Elem>, c: Counter): map<Pc, nat> {
    map pc | pc in m :: m[pc].Count(c)
  }

  function LogSums(keys: map<Pc, Elem>, log: seq<Event>, c: Counter): map<Pc, nat> {
    map pc | pc in keys :: SumAt(log, pc, c)
  }

  lemma {:induction false} ClassSumLast(m: map<Pc, Elem>, order: seq<Pc>, c: Counter)
    requires Listed(m, order) && order != []
    ensures var last, front := order[|order| - 1], order[..|order| - 1];
      && HasLine(m, last) && Listed(m, front)
      && ClassSum(m, order, AllClasses(), c) == ClassSum(m, front, AllClasses(), c) + m[last].Count(c)
  {
    assert HasLine(m, order[|order| - 1]);
  }

  /** Over all entries, the class sums add up to the sum of the counter over the map. */
  lemma {:induction false} ClassSumTotal(m: map<Pc, Elem>, order: seq<Pc>, c: Counter)
    requires InMapOrder(m, order) && Printable(m)
    ensures ClassSum(m, order, AllClasses(), c) == Total(Counts(m, c))
    decreases |order|
  {
    if order == [] {
      assert Counts(m, c) == map[];
    } else {
      var last, front := order[|order| - 1], order[..|order| - 1];
      var m' := m - {last};
      LastIsNew(m, order);
      PrintableRest(m, last);
      ClassSumTotal(m', front, c);
      ClassSumLast(m, order, c);
      ClassSumFrame(m, m', front, c);
      CountsRemove(m, last, c);
    }
  }

  lemma {:induction false} CountsRemove(m: map<Pc, Elem>, pc: Pc, c: Counter)
    requires pc in m
    ensures Total(Counts(m, c)) == m[pc].Count(c) + Total(Counts(m - {pc}, c))
  {
    TotalRemove(Counts(m, c), pc);
    assert Counts(m, c) - {pc} == Counts(m - {pc}, c);
  }

  lemma {:induction false} PrintableRest(m: map<Pc, Elem>, pc: Pc)
    requires Printable(m)
    ensures Printable(m - {pc})
  {
    forall k | k in m - {pc} ensures HasLine(m - {pc}, k) {
      assert HasLine(m, k);
    }
  }

  lemma {:induction false} LastIsNew(m: map<Pc, Elem>, order: seq<Pc>)
    requires InMapOrder(m, order) && order != []
    ensures InMapOrder(m - {order[|order| - 1]}, order[..|order| - 1])
  {
    var last, front := order[|order| - 1], order[..|order| - 1];
    assert forall i | 0 <= i < |front| :: Less(front[i], last);
    forall pc ensures pc in m - {last} <==> pc in front {
      if pc in m && pc != last {
        var i :| 0 <= i < |order| && order[i] == pc;
        assert front[i] == pc;
      }
    }
  }

  lemma {:induction false} ClassSumFrame(m: map<Pc, Elem>, m': map<Pc, Elem>, order: seq<Pc>, c: Counter)
    requires forall pc | pc in order :: HasLine(m, pc) && HasLine(m', pc) && m[pc] == m'[pc]
    ensures ClassSum(m, order, AllClasses(), c) == ClassSum(m', order, AllClasses(), c)
  {
    if order != [] {
      ClassSumFrame(m, m', order[..|order| - 1], c);
    }
  }

  /** The sums per pc of a log add up to the sum of the log. */
  lemma {:induction false} LogTotal(keys: map<Pc, Elem>, log: seq<Event>, c: Counter)
    requires forall e | e in log :: e.pc in keys
    ensures Total(LogSums(keys, log, c)) == SumAll(log, c)
  {
    if log == [] {
      TotalZero(LogSums(keys, log, c));
    } else {
      var rest, e := log[..|log| - 1], log[|log| - 1];
      LogTotal(keys, rest, c);
      assert LogSums(keys, log, c) == LogSums(keys, rest, c)[e.pc := SumAt(log, e.pc, c)];
      TotalUpdate(LogSums(keys, rest, c), e.pc, SumAt(log, e.pc, c));
    }
  }

  /** Taking every value modulo the word size does not change the sum modulo the word size. */
  lemma {:induction false} TotalWrap<K>(m: map<K, nat>, w: map<K, nat>)
    requires m.Keys == w.Keys && forall k | k in m :: w[k] == m[k] % WORD
    ensures Total(w) % WORD == Total(m) % WORD
    decreases |m|
  {
    if m == map[] {
      assert w == map[];
    } else {
      var k :| k in m;
      TotalWrap(m - {k}, w - {k});
      TotalRemove(m, k);
      TotalRemove(w, k);
      WrapKey(Total(m), Total(w), m[k], Total(m - {k}), Total(w - {k}));
    }
  }

  /** The step for one key, on the sums. */
  lemma {:induction false} WrapKey(total: nat, wrapped: nat, value: nat, rest: nat, wrappedRest: nat)
    requires total == value + rest && wrapped == value % WORD + wrappedRest
    requires wrappedRest % WORD == rest % WORD
    ensures wrapped % WORD == total % WORD
  {
    WrapSum(value, wrappedRest, rest);
  }

  lemma {:induction false} WrapSum(a: nat, b: nat, c: nat)
    requires b % WORD == c % WORD
    ensures (a % WORD + b) % WORD == (a + c) % WORD
  {
    WrapAdd(a, b);
    WrapAdd(b, a);
    WrapAdd(c, a);
  }

  /** The report's totals are the sums over the map: the classes cover every entry once. */
  lemma {:induction false} ReportTotals(m: map<Pc, Elem>, order: seq<Pc>, r: Report)
    requires Listed(m, order) && Reports(r, m, order)
    ensures r.TotalExec() == ClassSum(m, order, AllClasses(), Hitcount) % WORD
    ensures r.TotalLatency() == ClassSum(m, order, AllClasses(), Latency) % WORD
  {
    ExecTotal(m, order, r);
    LatencyTotal(m, order, r);
  }

  lemma {:induction false} ExecTotal(m: map<Pc, Elem>, order: seq<Pc>, r: Report)
    requires Listed(m, order) && Reports(r, m, order)
    ensures r.TotalExec() == ClassSum(m, order, AllClasses(), Hitcount) % WORD
  {
    ClassSumPartition(m, order, Hitcount);
    ClassSumWaits(m, order, Hitcount);
    WrapThree(ClassSum(m, order, {Vector}, Hitcount), ClassSum(m, order, {Scalar}, Hitcount),
              ClassSum(m, order, {WaitScalar, WaitVector, Other}, Hitcount));
  }

  lemma {:induction false} LatencyTotal(m: map<Pc, Elem>, order: seq<Pc>, r: Report)
    requires Listed(m, order) && Reports(r, m, order)
    ensures r.TotalLatency() == ClassSum(m, order, AllClasses(), Latency) % WORD
  {
    ClassSumPartition(m, order, Latency);
    WrapFive(ClassSum(m, order, {WaitVector}, Latency), ClassSum(m, order, {WaitScalar}, Latency),
             ClassSum(m, order, {Vector}, Latency), ClassSum(m, order, {Scalar}, Latency),
             ClassSum(m, order, {Other}, Latency));
  }

  lemma {:induction false} WrapTwo(a: nat, b: nat)
    ensures FetchAdd(a % WORD, b % WORD) == (a + b) % WORD
  {
  }

  lemma {:induction false} WrapThree(a: nat, b: nat, c: nat)
    ensures FetchAdd(FetchAdd(a % WORD, b % WORD), c % WORD) == (a + b + c) % WORD
  {
    WrapTwo(a, b);
    WrapTwo(a + b, c);
  }

  lemma {:induction false} WrapFive(a: nat, b: nat, c: nat, d: nat, e: nat)
    ensures FetchAdd(FetchAdd(FetchAdd(FetchAdd(a % WORD, b % WORD), c % WORD), d % WORD), e % WORD)
         == (a + b + c + d + e) % WORD
  {
    WrapThree(a, b, c);
    WrapTwo(a + b + c, d);
    WrapTwo(a + b + c + d, e);
  }

  lemma {:induction false} CountsWrap(s: State, c: Counter)
    requires Inv(s)
    ensures Total(Counts(s.isaMap, c)) % WORD == Total(LogSums(s.isaMap, s.added.Of(c), c)) % WORD
  {
    forall pc | pc in s.isaMap ensures s.isaMap[pc].Count(c) == SumAt(s.added.Of(c), pc, c) % WORD {
      assert EntryInv(s, pc, c);
    }
    TotalWrap(LogSums(s.isaMap, s.added.Of(c), c), Counts(s.isaMap, c));
  }

  /** No call is in progress. */
  predicate Quiescent(s: State) {
    forall t | t in s.threads :: s.threads[t].Idle?
  }

  /** In a quiescent state the map holds, with or without instructions, the received events that were
      not given up because the decoder threw. */
  lemma {:induction false} MapAccounts(s: State, c: Counter)
    requires Inv(s) && Quiescent(s)
    ensures SumAll(s.dropped, c) <= SumAll(s.received, c)
    ensures Total(Counts(s.isaMap, c)) % WORD == (SumAll(s.received, c) - SumAll(s.dropped, c)) % WORD
  {
    NothingInFlight(s.threads, c);
    LogTotal(s.isaMap, s.added.Of(c), c);
    CountsWrap(s, c);
    assert Conserved(s, c);
  }

  /** When no call is in progress, the report accounts for exactly the events received, less those
      for which the decoder threw: nothing is lost and nothing counted twice. */
  lemma {:induction false} ReportConserves(s: State, order: seq<Pc>, r: Report)
    requires Inv(s) && Quiescent(s) && Printable(s.isaMap)
    requires InMapOrder(s.isaMap, order) && Reports(r, s.isaMap, order)
    ensures r.TotalExec() == (SumAll(s.received, Hitcount) - SumAll(s.dropped, Hitcount)) % WORD
    ensures r.TotalLatency() == (SumAll(s.received, Latency) - SumAll(s.dropped, Latency)) % WORD
  {
    ReportTotals(s.isaMap, order, r);
    ConservedSum(s, order, Hitcount);
    ConservedSum(s, order, Latency);
  }

  lemma {:induction false} ConservedSum(s: State, order: seq<Pc>, c: Counter)
    requires Inv(s) && Quiescent(s) && Printable(s.isaMap) && InMapOrder(s.isaMap, order)
    ensures ClassSum(s.isaMap, order, AllClasses(), c) % WORD == (SumAll(s.received, c) - SumAll(s.dropped, c)) % WORD
  {
    MapAccounts(s, c);
    ClassSumTotal(s.isaMap, order, c);
  }
}
