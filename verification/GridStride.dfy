/** The grid-stride loop of the counter samples: any grid, any block, any length. */
module GridStrideKernel {
  import opened Matrix
  import opened Sums

  datatype Launch = Launch(gridDim: nat, blockDim: nat) {
    predicate Valid() { gridDim > 0 && blockDim > 0 }

    function Stride(): nat { blockDim * gridDim }
  }

  datatype Tid = Tid(block: nat, thread: nat) {
    function Offset(l: Launch): nat { block * l.blockDim + thread }
  }

  predicate IsThread(l: Launch, t: Tid) {
    t.block < l.gridDim && t.thread < l.blockDim
  }

  /** Index i belongs to the loop of thread t. */
  ghost predicate Visits(l: Launch, t: Tid, i: nat)
    requires l.Valid()
  {
    IsThread(l, t) && exists k: nat :: i == IndexAt(l, t, k)
  }

  /** Value of the loop variable of thread t in its iteration k. */
  function IndexAt(l: Launch, t: Tid, k: nat): nat {
    t.Offset(l) + k * l.Stride()
  }

  function Owner(l: Launch, i: nat): (t: Tid)
    requires l.Valid()
  {
    Tid(i % l.Stride() / l.blockDim, i % l.Stride() % l.blockDim)
  }

  lemma {:induction false} StridePositive(l: Launch)
    requires l.Valid()
    ensures l.Stride() > 0
  {
    ScaleMonotone(1, l.gridDim, l.blockDim);
  }

  /** The loops partition the indices: every index belongs to exactly one thread and iteration. */
  lemma {:induction false} Partition(l: Launch, i: nat)
    requires l.Valid()
    ensures Visits(l, Owner(l, i), i)
    ensures forall t | Visits(l, t, i) :: t == Owner(l, i)
    ensures forall t, k: nat, k': nat | IsThread(l, t) && i == IndexAt(l, t, k) == IndexAt(l, t, k') :: k == k'
  {
    StridePositive(l);
    OwnerOffset(l, i);
    assert i == IndexAt(l, Owner(l, i), i / l.Stride());
    forall t, k: nat | IsThread(l, t) && i == IndexAt(l, t, k) ensures t == Owner(l, i) && k == i / l.Stride() {
      FlatInBounds(t.block, t.thread, l.gridDim, l.blockDim);
      BlockSplit(k, t.Offset(l), l.Stride());
      BlockSplit(t.block, t.thread, l.blockDim);
    }
  }

  lemma {:induction false} OwnerOffset(l: Launch, i: nat)
    requires l.Valid() && l.Stride() > 0
    ensures IsThread(l, Owner(l, i)) && Owner(l, i).Offset(l) == i % l.Stride()
  {
    var o := i % l.Stride();
    ModBounds(i, l.Stride());
    assert o == o / l.blockDim * l.blockDim + o % l.blockDim;
    if l.gridDim <= o / l.blockDim {
      ScaleMonotone(l.gridDim, o / l.blockDim, l.blockDim);
    }
  }

  // ---------- the launch ----------

  /** Element i has been written once the loop variable of its owner is past it. */
  ghost predicate Inv<T>(l: Launch, square: T -> T, a: seq<T>, c0: seq<T>, c: seq<T>, at: map<Tid, nat>) {
    && l.Valid() && l.Stride() > 0
    && |a| == |c0| == |c|
    && (forall t :: t in at <==> IsThread(l, t))
    && (forall t | t in at :: at[t] % l.Stride() == t.Offset(l))
    && (forall i | 0 <= i < |a| :: IsThread(l, Owner(l, i)) && Element(l, square, a, c0, c, at, i))
  }

  ghost predicate Element<T>(l: Launch, square: T -> T, a: seq<T>, c0: seq<T>, c: seq<T>, at: map<Tid, nat>, i: nat)
    requires l.Valid() && i < |a| == |c0| == |c| && Owner(l, i) in at
  {
    c[i] == if at[Owner(l, i)] > i then square(a[i]) else c0[i]
  }

  lemma {:induction false} StepInv<T>(l: Launch, square: T -> T, a: seq<T>, c0: seq<T>, c: seq<T>,
                                      at: map<Tid, nat>, t: Tid)
    requires Inv(l, square, a, c0, c, at) && t in at && at[t] < |a|
    ensures Inv(l, square, a, c0, c[at[t] := square(a[at[t]])], at[t := at[t] + l.Stride()])
  {
    var c' := c[at[t] := square(a[at[t]])];
    var at' := at[t := at[t] + l.Stride()];
    StrideStep(at[t], l.Stride());
    forall u | u in at'
      ensures at'[u] % l.Stride() == u.Offset(l)
    {
      assert u != t ==> at'[u] == at[u];
    }
    forall i | 0 <= i < |a| ensures Element(l, square, a, c0, c', at', i) {
      assert Element(l, square, a, c0, c, at, i);
      StepElement(l, at[t], t, i);
    }
  }

  /** A thread at index j owns j, and of the indices it owns passes only j in this iteration. */
  lemma {:induction false} StepElement(l: Launch, j: nat, t: Tid, i: nat)
    requires l.Valid() && l.Stride() > 0 && IsThread(l, t) && j % l.Stride() == t.Offset(l)
    ensures i == j ==> Owner(l, i) == t
    ensures Owner(l, i) == t && i < j + l.Stride() ==> i <= j
  {
    BlockSplit(t.block, t.thread, l.blockDim);
    OwnerOffset(l, i);
    if Owner(l, i) == t && i < j + l.Stride() {
      StrideGap(i, j, l.Stride());
    }
  }

  function Offsets(l: Launch): (at: map<Tid, nat>)
    ensures forall t :: t in at <==> IsThread(l, t)
    ensures forall t | t in at :: at[t] == t.Offset(l)
  {
    var ts := set b, t | 0 <= b < l.gridDim && 0 <= t < l.blockDim :: Tid(b, t);
    assert forall t :: IsThread(l, t) ==> t == Tid(t.block, t.thread);
    map t | t in ts :: t.Offset(l)
  }

  lemma {:induction false} InitInv<T>(l: Launch, square: T -> T, a: seq<T>, c0: seq<T>)
    requires l.Valid() && l.Stride() > 0 && |a| == |c0|
    ensures Inv(l, square, a, c0, c0, Offsets(l))
  {
    var at := Offsets(l);
    forall t | t in at ensures at[t] % l.Stride() == t.Offset(l) {
      StartOffset(l, t);
    }
    forall i | 0 <= i < |a| ensures IsThread(l, Owner(l, i)) && Element(l, square, a, c0, c0, at, i) {
      StartElement(l, i);
    }
  }

  lemma {:induction false} StartOffset(l: Launch, t: Tid)
    requires l.Valid() && l.Stride() > 0 && IsThread(l, t)
    ensures t.Offset(l) % l.Stride() == t.Offset(l)
  {
    FlatInBounds(t.block, t.thread, l.gridDim, l.blockDim);
    BlockSplit(0, t.Offset(l), l.Stride());
  }

  /** No thread starts past an index it owns. */
  lemma {:induction false} StartElement(l: Launch, i: nat)
    requires l.Valid() && l.Stride() > 0
    ensures IsThread(l, Owner(l, i)) && Owner(l, i).Offset(l) <= i
  {
    OwnerOffset(l, i);
    ModBounds(i, l.Stride());
  }

  ghost function Work(n: nat, at: map<Tid, nat>): nat {
    Total(map t | t in at :: Left(n, at[t]))
  }

  function Left(n: nat, i: nat): nat {
    if i < n then n - i else 0
  }

  /** One iteration of thread t, in place. */
  method Iterate<T>(c: array<T>, a: array<T>, l: Launch, square: T -> T, at: map<Tid, nat>, t: Tid)
    returns (at': map<Tid, nat>)
    requires c != a && c.Length == a.Length && t in at && at[t] < a.Length
    modifies c
    ensures c[..] == old(c[..])[at[t] := square(a[at[t]])] && at' == at[t := at[t] + l.Stride()]
  {
    c[at[t]] := square(a[at[t]]);
    at' := at[t := at[t] + l.Stride()];
  }

  /** Launches the kernel. Each step is one iteration of any thread that is still in its loop;
      `square` is the product of the element type, whatever that does on overflow. */
  method KernelC<T>(c: array<T>, a: array<T>, l: Launch, square: T -> T)
    requires l.Valid() && c != a && c.Length == a.Length
    modifies c
    ensures forall i | 0 <= i < c.Length :: c[i] == square(a[i])
  {
    StridePositive(l);
    var at: map<Tid, nat> := Offsets(l);
    var n := a.Length;
    ghost var a0, c0 := a[..], c[..];
    InitInv(l, square, a0, c0);
    while !AllDone(n, at)
      invariant a[..] == a0 && Inv(l, square, a0, c0, c[..], at)
      decreases Work(n, at)
    {
      var t :| t in at && at[t] < n;
      StepInv(l, square, a0, c0, c[..], at, t);
      ghost var before := at;
      at := Iterate(c, a, l, square, at, t);
      StepWork(n, before, at, t);
    }
    DoneSquared(l, square, a0, c0, c[..], at);
  }

  predicate AllDone(n: nat, at: map<Tid, nat>) {
    forall t | t in at :: at[t] >= n
  }

  lemma {:induction false} DoneSquared<T>(l: Launch, square: T -> T, a: seq<T>, c0: seq<T>, c: seq<T>,
                                          at: map<Tid, nat>)
    requires Inv(l, square, a, c0, c, at) && AllDone(|a|, at)
    ensures forall i | 0 <= i < |a| :: c[i] == square(a[i])
  {
    forall i | 0 <= i < |a| ensures c[i] == square(a[i]) {
      assert Element(l, square, a, c0, c, at, i);
    }
  }

  lemma {:induction false} StepWork(n: nat, at: map<Tid, nat>, at': map<Tid, nat>, t: Tid)
    requires t in at && at[t] < n && t in at' && at[t] < at'[t] && at' == at[t := at'[t]]
    ensures Work(n, at') < Work(n, at)
  {
    var next := at'[t];
    var before := map u | u in at :: Left(n, at[u]);
    var after := map u | u in at' :: Left(n, at'[u]);
    assert after == before[t := Left(n, next)];
    TotalUpdate(before, t, Left(n, next));
  }
}
