/** The transpose without a tile: each thread copies a strided part of one input column. */
module NaiveKernel {
  import opened Gpu
  import opened Matrix
  import opened Sums

  /** The only thread state is the loop variable; a thread is over once it leaves the tile. */
  datatype State<T> = State(out: seq<T>, idy: map<Tid, nat>)

  ghost predicate Shape<T>(l: Launch, inp: seq<T>, s: State<T>) {
    && l.Valid()
    && |inp| == |s.out| == l.size * l.size
    && (forall t :: t in s.idy <==> IsThread(l, t))
  }

  /** Offset read at idy, as the kernel computes it. */
  function InIndex(l: Launch, t: Tid, idy: nat): (i: nat)
    requires IsThread(l, t) && idy < TILE_DIM
    ensures i == Flat(t.blockY * TILE_DIM + idy, t.blockX * TILE_DIM + t.tx, l.size) < l.size * l.size
  {
    var idx := t.blockX * TILE_DIM + t.tx;
    var blockPosY := t.blockY * TILE_DIM;
    FlatInBounds(blockPosY + idy, idx, l.size, l.size);
    idx + (blockPosY + idy) * l.size
  }

  /** Offset written at idy: the mirror image of the offset read. */
  function OutIndex(l: Launch, t: Tid, idy: nat): (i: nat)
    requires IsThread(l, t) && idy < TILE_DIM
    ensures i == Flat(t.blockX * TILE_DIM + t.tx, t.blockY * TILE_DIM + idy, l.size) < l.size * l.size
  {
    var idx := t.blockX * TILE_DIM + t.tx;
    var blockPosY := t.blockY * TILE_DIM;
    FlatInBounds(idx, blockPosY + idy, l.size, l.size);
    l.size * idx + blockPosY + idy
  }

  function Step<T>(l: Launch, inp: seq<T>, s: State<T>, t: Tid): State<T>
    requires Shape(l, inp, s) && t in s.idy && s.idy[t] < TILE_DIM
  {
    s.(out := s.out[OutIndex(l, t, s.idy[t]) := inp[InIndex(l, t, s.idy[t])]],
       idy := s.idy[t := s.idy[t] + l.dimY])
  }

  /** The one thread that writes output cell (row, col). */
  function Writer(l: Launch, row: nat, col: nat): Tid
    requires l.Valid()
  {
    Owner(l, Mirror(Source(row, col)))
  }

  predicate Written(l: Launch, idy: map<Tid, nat>, row: nat, col: nat)
    requires l.Valid() && forall t :: t in idy <==> IsThread(l, t)
  {
    IsCell(l, Source(row, col)) && idy[Writer(l, row, col)] > col % TILE_DIM
  }

  ghost predicate OutInv<T>(l: Launch, inp: seq<T>, out0: seq<T>, s: State<T>, row: nat, col: nat)
    requires Shape(l, inp, s) && |out0| == l.size * l.size && row < l.size && col < l.size
  {
    At(s.out, l.size, row, col) ==
    if Written(l, s.idy, row, col) then At(inp, l.size, col, row) else At(out0, l.size, row, col)
  }

  ghost predicate Inv<T>(l: Launch, inp: seq<T>, out0: seq<T>, s: State<T>) {
    && Shape(l, inp, s)
    && |out0| == l.size * l.size
    && (forall t | t in s.idy :: s.idy[t] % l.dimY == t.ty)
    && (forall row, col | 0 <= row < l.size && 0 <= col < l.size :: OutInv(l, inp, out0, s, row, col))
  }

  lemma {:induction false} InitInv<T>(l: Launch, inp: seq<T>, s: State<T>)
    requires Shape(l, inp, s) && forall t | t in s.idy :: s.idy[t] == t.ty
    ensures Inv(l, inp, s.out, s)
  {
    forall t | t in s.idy ensures s.idy[t] % l.dimY == t.ty {
      BlockSplit(0, t.ty, l.dimY);
    }
    forall row, col | 0 <= row < l.size && 0 <= col < l.size ensures OutInv(l, inp, s.out, s, row, col) {
      ModBounds(col % TILE_DIM, l.dimY);
    }
  }

  /** An iteration writes the output cell of its thread and loop variable, and no other; each cell has
      one writer. */
  lemma {:induction false} StoreTarget(l: Launch, t: Tid, idy: nat, row: nat, col: nat)
    requires l.Valid() && IsThread(l, t) && idy < TILE_DIM && row < l.size && col < l.size
    ensures Flat(row, col, l.size) == OutIndex(l, t, idy) <==> Source(row, col) == Here(t, t.tx, idy)
    ensures Flat(row, col, l.size) == OutIndex(l, t, idy) && idy % l.dimY == t.ty ==> t == Writer(l, row, col)
  {
    if Flat(row, col, l.size) == OutIndex(l, t, idy) {
      FlatInjective(row, col, t.blockX * TILE_DIM + t.tx, t.blockY * TILE_DIM + idy, l.size);
    }
  }

  lemma {:induction false} StepOut<T>(l: Launch, inp: seq<T>, out0: seq<T>, s: State<T>, t: Tid, row: nat, col: nat)
    requires Shape(l, inp, s) && |out0| == l.size * l.size && row < l.size && col < l.size
    requires t in s.idy && s.idy[t] < TILE_DIM && s.idy[t] % l.dimY == t.ty
    requires Shape(l, inp, Step(l, inp, s, t)) && OutInv(l, inp, out0, s, row, col)
    ensures OutInv(l, inp, out0, Step(l, inp, s, t), row, col)
  {
    var idy, k := s.idy[t], Source(row, col);
    StoreTarget(l, t, idy, row, col);
    FlatInBounds(row, col, l.size, l.size);
    if k != Here(t, t.tx, idy) && IsCell(l, k) && t == Writer(l, row, col) && k.col < idy + l.dimY {
      StrideGap(k.col, idy, l.dimY);
    }
  }

  lemma {:induction false} StepShape<T>(l: Launch, inp: seq<T>, s: State<T>, t: Tid)
    requires Shape(l, inp, s) && t in s.idy && s.idy[t] < TILE_DIM && s.idy[t] % l.dimY == t.ty
    ensures Shape(l, inp, Step(l, inp, s, t)) && Step(l, inp, s, t).idy[t] % l.dimY == t.ty
  {
    StrideStep(s.idy[t], l.dimY);
  }

  lemma {:induction false} StepInv<T>(l: Launch, inp: seq<T>, out0: seq<T>, s: State<T>, t: Tid)
    requires Inv(l, inp, out0, s) && t in s.idy && s.idy[t] < TILE_DIM
    ensures Inv(l, inp, out0, Step(l, inp, s, t))
  {
    var s' := Step(l, inp, s, t);
    StepShape(l, inp, s, t);
    forall u | u in s'.idy ensures s'.idy[u] % l.dimY == u.ty {
      assert u != t ==> s'.idy[u] == s.idy[u];
    }
    forall row, col | 0 <= row < l.size && 0 <= col < l.size ensures OutInv(l, inp, out0, s', row, col) {
      StepOut(l, inp, out0, s, t, row, col);
    }
  }

  predicate AllDone(idy: map<Tid, nat>) {
    forall t | t in idy :: idy[t] >= TILE_DIM
  }

  lemma {:induction false} DoneTransposed<T>(l: Launch, inp: seq<T>, out0: seq<T>, s: State<T>)
    requires Inv(l, inp, out0, s) && AllDone(s.idy)
    ensures TransposedOver(l.size, inp, out0, s.out)
  {
    forall row, col | 0 <= row < l.size && 0 <= col < l.size
      ensures At(s.out, l.size, row, col) ==
              if Covered(l.size, row, col) then At(inp, l.size, col, row) else At(out0, l.size, row, col)
    {
      assert OutInv(l, inp, out0, s, row, col);
      assert Covered(l.size, row, col) <==> IsCell(l, Source(row, col));
    }
  }

  ghost function Work(idy: map<Tid, nat>): nat {
    Total(map t | t in idy :: Left(idy[t]))
  }

  lemma {:induction false} StepWork(idy: map<Tid, nat>, idy': map<Tid, nat>, t: Tid)
    requires t in idy && idy[t] < TILE_DIM && t in idy' && idy[t] < idy'[t] && idy' == idy[t := idy'[t]]
    ensures Work(idy') < Work(idy)
  {
    var next := idy'[t];
    var before := map u | u in idy :: Left(idy[u]);
    var after := map u | u in idy' :: Left(idy'[u]);
    assert after == before[t := Left(next)];
    TotalUpdate(before, t, Left(next));
  }

  /** One iteration of thread t, in place. */
  method Iterate<T>(odata: array<T>, idata: array<T>, l: Launch, idy: map<Tid, nat>, t: Tid)
    returns (idy': map<Tid, nat>)
    requires odata != idata && Shape(l, idata[..], State(odata[..], idy)) && t in idy && idy[t] < TILE_DIM
    modifies odata
    ensures State(odata[..], idy') == Step(l, idata[..], old(State(odata[..], idy)), t)
  {
    odata[OutIndex(l, t, idy[t])] := idata[InIndex(l, t, idy[t])];
    idy' := idy[t := idy[t] + l.dimY];
  }

  /** Launches the kernel; the scheduler picks any unfinished thread at every step. */
  method TransposeNaive<T>(odata: array<T>, idata: array<T>, l: Launch)
    requires l.Valid() && odata != idata && odata.Length == idata.Length == l.size * l.size
    modifies odata
    ensures TransposedOver(l.size, idata[..], old(odata[..]), odata[..])
  {
    var idy: map<Tid, nat> := map t | t in Threads(l) :: t.ty;
    ghost var inp, out0 := idata[..], odata[..];
    InitInv(l, inp, State(out0, idy));
    while !AllDone(idy)
      invariant idata[..] == inp && Inv(l, inp, out0, State(odata[..], idy))
      decreases Work(idy)
    {
      var t :| t in idy && idy[t] < TILE_DIM;
      StepInv(l, inp, out0, State(odata[..], idy), t);
      ghost var before := idy;
      idy := Iterate(odata, idata, l, idy, t);
      StepWork(before, idy, t);
    }
    DoneTransposed(l, inp, out0, State(odata[..], idy));
  }
}
