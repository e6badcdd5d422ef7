/**
 The rectangular tiled transpose: an N by M matrix (rows of M elements) becomes M by N, on an
 (M / 32, N / 32) grid of 32 by 32 blocks; and the host's sampled check of the result.
 */
module RectKernel {
  import opened Gpu
  import opened Matrix
  import opened Sums

  const DIM: nat := 32

  datatype Local = Begin | AtSync | Loaded | Done {
    function Phase(): nat {
      match this case Begin => 0 case AtSync => 1 case Loaded => 2 case Done => 3
    }
  }

  datatype State<T> = State(tile: map<Cell, T>, out: seq<T>, threads: map<Tid, Local>)

  /** Columns M and rows N of the input. */
  datatype Launch = Launch(M: nat, N: nat)

  predicate IsThread(l: Launch, t: Tid) {
    t.blockX < l.M / DIM && t.blockY < l.N / DIM && t.tx < DIM && t.ty < DIM
  }

  predicate IsCell(l: Launch, k: Cell) {
    k.blockX < l.M / DIM && k.blockY < l.N / DIM && k.row < DIM && k.col < DIM
  }

  ghost predicate Shape<T>(l: Launch, inp: seq<T>, s: State<T>) {
    && |inp| == l.N * l.M && |s.out| == l.M * l.N
    && (forall t :: t in s.threads <==> IsThread(l, t))
    && (forall k :: k in s.tile <==> IsCell(l, k))
  }

  /** Offset read; every partial result is at most this value, which stays below N * M. */
  function InIndex(l: Launch, t: Tid): (i: nat)
    requires IsThread(l, t)
    ensures i == Flat(t.blockY * DIM + t.ty, t.blockX * DIM + t.tx, l.M) < l.N * l.M
  {
    FlatInBounds(t.blockY * DIM + t.ty, t.blockX * DIM + t.tx, l.N, l.M);
    (t.blockY * DIM + t.ty) * l.M + t.blockX * DIM + t.tx
  }

  function OutIndex(l: Launch, t: Tid): (i: nat)
    requires IsThread(l, t)
    ensures i == Flat(t.blockX * DIM + t.ty, t.blockY * DIM + t.tx, l.N) < l.M * l.N
  {
    FlatInBounds(t.blockX * DIM + t.ty, t.blockY * DIM + t.tx, l.M, l.N);
    (t.blockX * DIM + t.ty) * l.N + t.blockY * DIM + t.tx
  }

  predicate Enabled(threads: map<Tid, Local>, t: Tid)
    requires t in threads
  {
    match threads[t]
    case AtSync => forall u | u in threads && SameBlock(t, u) :: threads[u].Phase() >= 1
    case Done => false
    case _ => true
  }

  function Step<T>(l: Launch, inp: seq<T>, s: State<T>, t: Tid): State<T>
    requires Shape(l, inp, s) && t in s.threads && Enabled(s.threads, t)
  {
    match s.threads[t]
    case Begin =>
      s.(tile := s.tile[Here(t, t.ty, t.tx) := inp[InIndex(l, t)]], threads := s.threads[t := AtSync])
    case AtSync => s.(threads := s.threads[t := Loaded])
    case Loaded =>
      s.(out := s.out[OutIndex(l, t) := s.tile[Here(t, t.tx, t.ty)]], threads := s.threads[t := Done])
  }

  /** The one thread that stores output cell (c, r). */
  function Writer(c: nat, r: nat): Tid {
    Tid(c / DIM, r / DIM, r % DIM, c % DIM)
  }

  ghost predicate TileInv<T>(l: Launch, inp: seq<T>, s: State<T>, k: Cell)
    requires Shape(l, inp, s) && IsCell(l, k)
  {
    s.threads[Tid(k.blockX, k.blockY, k.col, k.row)].Phase() >= 1 ==>
      s.tile[k] == Element(inp, l.N, l.M, k.blockY * DIM + k.row, k.blockX * DIM + k.col)
  }

  ghost predicate OutInv<T>(l: Launch, inp: seq<T>, out0: seq<T>, s: State<T>, c: nat, r: nat)
    requires Shape(l, inp, s) && |out0| == l.M * l.N && c < l.M && r < l.N
  {
    Element(s.out, l.M, l.N, c, r) ==
    if IsThread(l, Writer(c, r)) && s.threads[Writer(c, r)].Done?
    then Element(inp, l.N, l.M, r, c) else Element(out0, l.M, l.N, c, r)
  }

  ghost predicate Inv<T>(l: Launch, inp: seq<T>, out0: seq<T>, s: State<T>) {
    && Shape(l, inp, s) && |out0| == l.M * l.N
    && (forall t, u | t in s.threads && u in s.threads && SameBlock(t, u) ::
          s.threads[t].Phase() >= 2 ==> s.threads[u].Phase() >= 1)
    && (forall k | k in s.tile :: TileInv(l, inp, s, k))
    && (forall c, r | 0 <= c < l.M && 0 <= r < l.N :: OutInv(l, inp, out0, s, c, r))
  }

  lemma {:induction false} StepSync<T>(l: Launch, inp: seq<T>, out0: seq<T>, s: State<T>, t: Tid)
    requires Inv(l, inp, out0, s) && t in s.threads && Enabled(s.threads, t)
    ensures var s' := Step(l, inp, s, t);
            && Shape(l, inp, s')
            && forall u, v | u in s'.threads && v in s'.threads && SameBlock(u, v) ::
                 s'.threads[u].Phase() >= 2 ==> s'.threads[v].Phase() >= 1
  {
    assert SameBlock(t, t);
  }

  lemma {:induction false} StepTile<T>(l: Launch, inp: seq<T>, s: State<T>, t: Tid, k: Cell)
    requires Shape(l, inp, s) && t in s.threads && Enabled(s.threads, t) && k in s.tile
    requires TileInv(l, inp, s, k) && Shape(l, inp, Step(l, inp, s, t))
    ensures TileInv(l, inp, Step(l, inp, s, t), k)
  {
  }

  lemma {:induction false} StepOut<T>(l: Launch, inp: seq<T>, out0: seq<T>, s: State<T>, t: Tid, c: nat, r: nat)
    requires Inv(l, inp, out0, s) && t in s.threads && Enabled(s.threads, t)
    requires c < l.M && r < l.N && Shape(l, inp, Step(l, inp, s, t))
    ensures OutInv(l, inp, out0, Step(l, inp, s, t), c, r)
  {
    assert OutInv(l, inp, out0, s, c, r);
    if s.threads[t].Loaded? {
      FlatInBounds(c, r, l.M, l.N);
      StoreTarget(l, t, c, r);
      if t == Writer(c, r) {
        var k := Here(t, t.tx, t.ty);
        assert SameBlock(t, Tid(k.blockX, k.blockY, k.col, k.row));
        assert TileInv(l, inp, s, k);
      }
    }
  }

  lemma {:induction false} StoreTarget(l: Launch, t: Tid, c: nat, r: nat)
    requires IsThread(l, t) && c < l.M && r < l.N
    ensures OutIndex(l, t) == Flat(c, r, l.N) <==> t == Writer(c, r)
  {
    if OutIndex(l, t) == Flat(c, r, l.N) {
      FlatInjective(c, r, t.blockX * DIM + t.ty, t.blockY * DIM + t.tx, l.N);
    }
  }

  lemma {:induction false} StepInv<T>(l: Launch, inp: seq<T>, out0: seq<T>, s: State<T>, t: Tid)
    requires Inv(l, inp, out0, s) && t in s.threads && Enabled(s.threads, t)
    ensures Inv(l, inp, out0, Step(l, inp, s, t))
  {
    var s' := Step(l, inp, s, t);
    StepSync(l, inp, out0, s, t);
    forall k | k in s'.tile ensures TileInv(l, inp, s', k) {
      StepTile(l, inp, s, t, k);
    }
    forall c, r | 0 <= c < l.M && 0 <= r < l.N ensures OutInv(l, inp, out0, s', c, r) {
      StepOut(l, inp, out0, s, t, c, r);
    }
  }

  // ---------- the whole launch ----------

  /** The blocks of the grid cover output cell (c, r). */
  predicate Reached(l: Launch, c: nat, r: nat) {
    c / DIM < l.M / DIM && r / DIM < l.N / DIM
  }

  /** The blocks of the grid are transposed; what the grid does not reach is as it was. */
  ghost predicate TransposedOver<T>(l: Launch, inp: seq<T>, out0: seq<T>, out: seq<T>) {
    && |inp| == l.N * l.M && |out0| == |out| == l.M * l.N
    && forall c, r | 0 <= c < l.M && 0 <= r < l.N ::
         Element(out, l.M, l.N, c, r) ==
         if Reached(l, c, r) then Element(inp, l.N, l.M, r, c) else Element(out0, l.M, l.N, c, r)
  }

  predicate AllDone(threads: map<Tid, Local>) {
    forall t | t in threads :: threads[t].Done?
  }

  lemma {:induction false} Progress<T>(l: Launch, inp: seq<T>, s: State<T>)
    requires Shape(l, inp, s) && !AllDone(s.threads)
    ensures exists t :: t in s.threads && Enabled(s.threads, t)
  {
    var t :| t in s.threads && !s.threads[t].Done?;
    if !Enabled(s.threads, t) {
      var u :| u in s.threads && SameBlock(t, u) && s.threads[u].Phase() < 1;
      assert Enabled(s.threads, u);
    }
  }

  ghost function Work(threads: map<Tid, Local>): nat {
    Total(map t | t in threads :: 3 - threads[t].Phase())
  }

  lemma {:induction false} StepWork<T>(l: Launch, inp: seq<T>, s: State<T>, t: Tid)
    requires Shape(l, inp, s) && t in s.threads && Enabled(s.threads, t)
    ensures Work(Step(l, inp, s, t).threads) < Work(s.threads)
  {
    var x := Step(l, inp, s, t).threads[t];
    assert x.Phase() > s.threads[t].Phase();
    WorkDrops(s.threads, t, x);
  }

  lemma {:induction false} WorkDrops(threads: map<Tid, Local>, t: Tid, x: Local)
    requires t in threads && x.Phase() > threads[t].Phase()
    ensures Work(threads[t := x]) < Work(threads)
  {
    var before := map u | u in threads :: 3 - threads[u].Phase();
    var threads' := threads[t := x];
    var after := map u | u in threads' :: 3 - threads'[u].Phase();
    assert after == before[t := 3 - x.Phase()];
    TotalUpdate(before, t, 3 - x.Phase());
  }

  lemma {:induction false} DoneTransposed<T>(l: Launch, inp: seq<T>, out0: seq<T>, s: State<T>)
    requires Inv(l, inp, out0, s) && AllDone(s.threads)
    ensures TransposedOver(l, inp, out0, s.out)
  {
    forall c, r | 0 <= c < l.M && 0 <= r < l.N
      ensures Element(s.out, l.M, l.N, c, r) ==
              if Reached(l, c, r) then Element(inp, l.N, l.M, r, c) else Element(out0, l.M, l.N, c, r)
    {
      assert OutInv(l, inp, out0, s, c, r);
    }
  }

  /** The blocks of 32 by 32 the grid reaches are transposed, the rest is as it was. */
  lemma {:induction false} TransposedCell<T>(l: Launch, inp: seq<T>, out0: seq<T>, out: seq<T>, c: nat, r: nat)
    requires TransposedOver(l, inp, out0, out) && c < l.M && r < l.N
    ensures c * l.N + r < |out| == |out0| && r * l.M + c < |inp|
    ensures out[c * l.N + r] ==
            if c < l.M - l.M % 32 && r < l.N - l.N % 32 then inp[r * l.M + c] else out0[c * l.N + r]
  {
    FlatInBounds(c, r, l.M, l.N);
    FlatInBounds(r, c, l.N, l.M);
    assert Element(out, l.M, l.N, c, r) == out[c * l.N + r];
    assert Element(inp, l.N, l.M, r, c) == inp[r * l.M + c];
    assert Element(out0, l.M, l.N, c, r) == out0[c * l.N + r];
    BlockBelow(c, l.M, 32);
    BlockBelow(r, l.N, 32);
  }

  /** Launches the kernel under any scheduler. `shared` is the tiles' stale content. */
  method Transpose<T>(inMatrix: array<T>, outMatrix: array<T>, l: Launch, shared: map<Cell, T>)
    requires inMatrix != outMatrix && inMatrix.Length == l.N * l.M && outMatrix.Length == l.M * l.N
    requires forall k :: k in shared <==> IsCell(l, k)
    modifies outMatrix
    ensures TransposedOver(l, inMatrix[..], old(outMatrix[..]), outMatrix[..])
  {
    var tile := shared;
    var threads := map t | t in GridThreads(l.M / DIM, l.N / DIM, DIM, DIM) :: Begin;
    ghost var inp, out0 := inMatrix[..], outMatrix[..];
    while !AllDone(threads)
      invariant inMatrix[..] == inp && Inv(l, inp, out0, State(tile, outMatrix[..], threads))
      decreases Work(threads)
    {
      ghost var s := State(tile, outMatrix[..], threads);
      Progress(l, inp, s);
      var t :| t in threads && Enabled(threads, t);
      StepInv(l, inp, out0, s, t);
      StepWork(l, inp, s, t);
      match threads[t] {
        case Begin =>
          tile := tile[Here(t, t.ty, t.tx) := inMatrix[InIndex(l, t)]];
          threads := threads[t := AtSync];
        case AtSync =>
          threads := threads[t := Loaded];
        case Loaded =>
          outMatrix[OutIndex(l, t)] := tile[Here(t, t.tx, t.ty)];
          threads := threads[t := Done];
      }
      assert State(tile, outMatrix[..], threads) == Step(l, inp, s, t);
    }
    DoneTransposed(l, inp, out0, State(tile, outMatrix[..], threads));
  }

  // ---------- the host's check ----------

  /** The comparison that verify makes for one (row, col) it draws. */
  predicate Agrees(inp: seq<int>, out: seq<int>, l: Launch, row: nat, col: nat)
    requires |inp| == l.N * l.M && |out| == l.M * l.N && row < l.M && col < l.N
  {
    FlatInBounds(row, col, l.M, l.N);
    FlatInBounds(col, row, l.N, l.M);
    inp[row * l.N + col] == out[col * l.M + row]
  }

  /** One comparison. */
  method Compare(inp: array<int>, out: array<int>, l: Launch, row: nat, col: nat) returns (same: bool)
    requires inp.Length == l.N * l.M && out.Length == l.M * l.N && row < l.M && col < l.N
    ensures same == Agrees(inp[..], out[..], l, row, col)
  {
    FlatInBounds(row, col, l.M, l.N);
    FlatInBounds(col, row, l.N, l.M);
    same := inp[row * l.N + col] == out[col * l.M + row];
  }

  /** Draw i of two random numbers, reduced to a row below M and a column below N. */
  predicate DrawAgrees(inp: seq<int>, out: seq<int>, l: Launch, rand: seq<nat>, i: nat)
    requires |inp| == l.N * l.M && |out| == l.M * l.N && l.M > 0 && l.N > 0 && 2 * i + 1 < |rand|
  {
    Agrees(inp, out, l, rand[2 * i] % l.M, rand[2 * i + 1] % l.N)
  }

  /** The draws among the first n that disagree. */
  ghost function Disagreeing(inp: seq<int>, out: seq<int>, l: Launch, rand: seq<nat>, n: nat): set<nat>
    requires |inp| == l.N * l.M && |out| == l.M * l.N && l.M > 0 && l.N > 0 && 2 * n <= |rand|
  {
    set i: nat | i < n && !DrawAgrees(inp, out, l, rand, i)
  }

  lemma {:induction false} DisagreeingStep(inp: seq<int>, out: seq<int>, l: Launch, rand: seq<nat>, n: nat)
    requires |inp| == l.N * l.M && |out| == l.M * l.N && l.M > 0 && l.N > 0 && 2 * n + 2 <= |rand|
    ensures |Disagreeing(inp, out, l, rand, n + 1)| ==
            |Disagreeing(inp, out, l, rand, n)| + if DrawAgrees(inp, out, l, rand, n) then 0 else 1
  {
    var before, after := Disagreeing(inp, out, l, rand, n), Disagreeing(inp, out, l, rand, n + 1);
    assert after == if DrawAgrees(inp, out, l, rand, n) then before else before + {n};
  }

  /** A draw is reported exactly when the input element at the row and column drawn differs from the
      output element that transposition would put it at. */
  lemma {:induction false} DrawReported(inp: seq<int>, out: seq<int>, l: Launch, rand: seq<nat>, i: nat)
    requires |inp| == l.N * l.M && |out| == l.M * l.N && l.M > 0 && l.N > 0 && |rand| == 20 && i < 10
    ensures var row, col := rand[2 * i] % l.M, rand[2 * i + 1] % l.N;
      && row * l.N + col < |inp| && col * l.M + row < |out|
      && (i in Disagreeing(inp, out, l, rand, 10) <==> inp[row * l.N + col] != out[col * l.M + row])
  {
    FlatInBounds(rand[2 * i] % l.M, rand[2 * i + 1] % l.N, l.M, l.N);
    FlatInBounds(rand[2 * i + 1] % l.N, rand[2 * i] % l.M, l.N, l.M);
  }

  /** Ten draws of rand(). */
  method Verify(inp: array<int>, out: array<int>, l: Launch, rand: seq<nat>) returns (mismatches: nat)
    requires inp.Length == l.N * l.M && out.Length == l.M * l.N && l.M > 0 && l.N > 0 && |rand| == 20
    ensures mismatches == |Disagreeing(inp[..], out[..], l, rand, 10)|
  {
    mismatches := 0;
    for i := 0 to 10
      invariant mismatches == |Disagreeing(inp[..], out[..], l, rand, i)|
    {
      var same := Compare(inp, out, l, rand[2 * i] % l.M, rand[2 * i + 1] % l.N);
      DisagreeingStep(inp[..], out[..], l, rand, i);
      if !same {
        mismatches := mismatches + 1;
      }
    }
  }

  /** The output buffer as the host clears it before the launches. */
  function Cleared(l: Launch): seq<int> {
    seq(l.M * l.N, i => 0)
  }

  /** Launching again into the result of a launch changes nothing, so that only the first of the
      repeated launches counts. */
  lemma {:induction false} RelaunchKeeps<T>(l: Launch, inp: seq<T>, out0: seq<T>, out: seq<T>, out': seq<T>)
    requires l.N > 0 && TransposedOver(l, inp, out0, out) && TransposedOver(l, inp, out, out')
    ensures out' == out
  {
    forall i | 0 <= i < |out| ensures out'[i] == out[i] {
      RowBelow(l, i);
      assert i == Flat(i / l.N, i % l.N, l.N);
      assert Element(out', l.M, l.N, i / l.N, i % l.N) == Element(out, l.M, l.N, i / l.N, i % l.N);
    }
  }

  /** verify finds no mismatch after a correct launch into a cleared buffer, whatever it draws. */
  ghost predicate VerifyIsSound(l: Launch) {
    forall inp: seq<int>, out, row: nat, col: nat
      | TransposedOver(l, inp, Cleared(l), out) && row < l.M && col < l.N :: Agrees(inp, out, l, row, col)
  }

  /** That is so exactly when the matrix is square and the grid reaches all of it. */
  lemma {:induction false} VerifyIsSoundExactlyForSquares(l: Launch)
    requires l.M > 0 && l.N > 0
    ensures VerifyIsSound(l) <==> l.M == l.N && l.M % DIM == 0
  {
    if l.M % DIM != 0 || l.N % DIM != 0 {
      UnreachedDisagrees(l);
    } else if l.M == l.N {
      forall inp: seq<int>, out, row: nat, col: nat
        | TransposedOver(l, inp, Cleared(l), out) && row < l.M && col < l.N
        ensures Agrees(inp, out, l, row, col)
      {
        assert Element(out, l.M, l.N, col, row) == Element(inp, l.N, l.M, row, col);
      }
    } else {
      var inp := seq(l.N * l.M, i => i);
      var out := seq(l.M * l.N, i requires 0 <= i < l.M * l.N => MirrorOffset(l, i));
      MirrorTransposes(l, inp, out);
      FlatInBounds(1, 0, l.N, l.M);
      FlatInBounds(0, 1, l.M, l.N);
      NotTheMirror(l);
      assert !Agrees(inp, out, l, 0, 1);
    }
  }

  /** What a launch over ones leaves at output offset i of the cleared buffer. */
  function Mark(l: Launch, i: nat): int
    requires l.N > 0
  {
    if Reached(l, i / l.N, i % l.N) then 1 else 0
  }

  /** A side that is no multiple of 32 leaves the last output cell as it was cleared; over an input
      without zeros the check fails there. */
  lemma {:induction false} UnreachedDisagrees(l: Launch)
    requires l.M > 0 && l.N > 0 && (l.M % DIM != 0 || l.N % DIM != 0)
    ensures !VerifyIsSound(l)
  {
    var inp := seq(l.N * l.M, i => 1);
    var out := seq(l.M * l.N, i requires 0 <= i < l.M * l.N => Mark(l, i));
    MarksTranspose(l, inp, out);
    LastUnreached(l);
    CornerDisagrees(l, inp, out);
  }

  lemma {:induction false} CornerDisagrees(l: Launch, inp: seq<int>, out: seq<int>)
    requires l.M > 0 && l.N > 0 && |inp| == l.N * l.M && |out| == l.M * l.N > 0
    requires (forall i | 0 <= i < |inp| :: inp[i] == 1) && out[l.M * l.N - 1] == 0
    ensures !Agrees(inp, out, l, l.M - 1, l.N - 1)
  {
    LastOffset(l.M, l.N);
    LastOffset(l.N, l.M);
    assert inp[(l.M - 1) * l.N + (l.N - 1)] == 1;
  }

  lemma {:induction false} LastUnreached(l: Launch)
    requires l.M > 0 && l.N > 0 && (l.M % DIM != 0 || l.N % DIM != 0)
    ensures l.M * l.N > 0 && Mark(l, l.M * l.N - 1) == 0
  {
    LastOffset(l.M, l.N);
    BlockSplit(l.M - 1, l.N - 1, l.N);
    FlatInBounds(l.M - 1, l.N - 1, l.M, l.N);
  }

  lemma {:induction false} MarksTranspose(l: Launch, inp: seq<int>, out: seq<int>)
    requires l.N > 0 && |inp| == l.N * l.M && |out| == l.M * l.N
    requires forall i | 0 <= i < |inp| :: inp[i] == 1
    requires forall i | 0 <= i < |out| :: out[i] == Mark(l, i)
    ensures TransposedOver(l, inp, Cleared(l), out)
  {
    forall c, r | 0 <= c < l.M && 0 <= r < l.N
      ensures Element(out, l.M, l.N, c, r) ==
              if Reached(l, c, r) then Element(inp, l.N, l.M, r, c) else Element(Cleared(l), l.M, l.N, c, r)
    {
      FlatInBounds(c, r, l.M, l.N);
      FlatInBounds(r, c, l.N, l.M);
      BlockSplit(c, r, l.N);
    }
  }

  lemma {:induction false} LastOffset(m: nat, n: nat)
    requires m > 0 && n > 0
    ensures (n - 1) * m + (m - 1) == (m - 1) * n + (n - 1) == m * n - 1
  {
  }

  /** Input offset whose element transposition puts at output offset i. */
  function MirrorOffset(l: Launch, i: nat): (j: nat)
    requires l.N > 0 && i < l.M * l.N
    ensures j < l.N * l.M
  {
    RowBelow(l, i);
    FlatInBounds(i % l.N, i / l.N, l.N, l.M);
    i % l.N * l.M + i / l.N
  }

  lemma {:induction false} MirrorTransposes(l: Launch, inp: seq<int>, out: seq<int>)
    requires l.M > 0 && l.N > 0 && l.M % DIM == 0 && l.N % DIM == 0
    requires inp == seq(l.N * l.M, i => i)
    requires |out| == l.M * l.N && forall i | 0 <= i < l.M * l.N :: out[i] == MirrorOffset(l, i)
    ensures TransposedOver(l, inp, Cleared(l), out)
  {
    forall c, r | 0 <= c < l.M && 0 <= r < l.N ensures Element(out, l.M, l.N, c, r) == Element(inp, l.N, l.M, r, c) {
      FlatInBounds(c, r, l.M, l.N);
      FlatInBounds(r, c, l.N, l.M);
      BlockSplit(c, r, l.N);
    }
  }

  lemma {:induction false} RowBelow(l: Launch, i: nat)
    requires l.N > 0 && i < l.M * l.N
    ensures i / l.N < l.M
  {
    if l.M <= i / l.N {
      ScaleMonotone(l.M, i / l.N, l.N);
    }
  }

  /** Input offset 1 is not the one whose value transposition puts at output offset M. */
  lemma {:induction false} NotTheMirror(l: Launch)
    requires l.M > 0 && l.N > 0 && l.M % DIM == 0 && l.N % DIM == 0 && l.M != l.N
    ensures l.M % l.N * l.M + l.M / l.N != 1
  {
    var q, r := l.M / l.N, l.M % l.N;
    assert l.M == q * l.N + r;
    if r > 0 {
      ScaleMonotone(1, r, l.M);
    }
  }
}
