/**
 The tiled transpose without bank conflicts: a block loads its padded tile by rows, waits at one
 barrier, and stores it by columns.
 */
module NoBankConflictsKernel {
  import opened Gpu
  import opened Matrix
  import opened Sums

  datatype Local = Load(y: nat) | AtSync | Store(y: nat) | Done {
    function Phase(): nat {
      match this case Load(_) => 0 case AtSync => 1 case Store(_) => 2 case Done => 3
    }

    /** Loop iterations below the cursor are over. */
    function LoadCursor(): nat { if Load? then y else TILE_DIM }

    function StoreCursor(): nat {
      if Store? then y else if Done? then TILE_DIM else 0
    }
  }

  datatype State<T> = State(tile: map<Cell, T>, out: seq<T>, threads: map<Tid, Local>)

  /** The tile has TILE_DIM rows of TILE_DIM + 1 columns. */
  predicate IsTileCell(l: Launch, k: Cell) {
    k.blockX < l.Blocks() && k.blockY < l.Blocks() && k.row < TILE_DIM && k.col <= TILE_DIM
  }

  ghost predicate Shape<T>(l: Launch, inp: seq<T>, s: State<T>) {
    && l.Valid()
    && |inp| == l.size * l.size
    && |s.out| == l.size * l.size
    && (forall t :: t in s.threads <==> IsThread(l, t))
    && (forall k :: k in s.tile <==> IsTileCell(l, k))
  }

  // ---------- in-bounds accesses ----------

  /** A thread of row ty of its block reaches iteration y of a strided loop. */
  predicate Reaches(l: Launch, ty: nat, y: nat)
    requires l.Valid()
  {
    ty < l.dimY && y < TILE_DIM && y % l.dimY == 0
  }

  /** The loops address tile row ty + y. That stays inside the tile for every thread and
      iteration exactly when the block height divides the tile edge. */
  lemma {:induction false} TileRowsInBounds(l: Launch)
    requires l.Valid()
    ensures (forall ty: nat, y: nat :: Reaches(l, ty, y) ==> ty + y < TILE_DIM) <==> TILE_DIM % l.dimY == 0
  {
    var m := l.dimY;
    if TILE_DIM % m == 0 {
      forall ty: nat, y: nat | Reaches(l, ty, y) ensures ty + y < TILE_DIM {
        RowInTile(l, ty, y);
      }
    } else {
      var y := LastTurn(m);
      assert Reaches(l, m - 1, y);
    }
  }

  /** The last iteration of a stride that does not divide the tile edge overshoots it. */
  lemma {:induction false} LastTurn(m: nat) returns (y: nat)
    requires m > 0 && TILE_DIM % m != 0
    ensures y < TILE_DIM < y + m && y % m == 0
  {
    var q := (TILE_DIM - 1) / m;
    y := q * m;
    BlockSplit(q, 0, m);
    if y + m == TILE_DIM {
      assert TILE_DIM == (q + 1) * m + 0;
      BlockSplit(q + 1, 0, m);
    }
  }

  lemma {:induction false} RowInTile(l: Launch, ty: nat, y: nat)
    requires l.Valid() && TILE_DIM % l.dimY == 0 && Reaches(l, ty, y)
    ensures ty + y < TILE_DIM
    ensures (ty + y) % l.dimY == ty
  {
    var m := l.dimY;
    assert y == y / m * m;
    BlockSplit(y / m, ty, m);
    if TILE_DIM < y + m {
      StrideGap(TILE_DIM, y, m);
    }
  }

  // ---------- the kernel, one step of one thread ----------

  /** Offset read in iteration y, as the kernel computes it. */
  function InIndex(l: Launch, t: Tid, y: nat): nat {
    var idxIn := t.blockX * TILE_DIM + t.tx;
    var idyIn := t.blockY * TILE_DIM + t.ty;
    idxIn + idyIn * l.size + y * l.size
  }

  function OutIndex(l: Launch, t: Tid, y: nat): nat {
    var idxOut := t.blockY * TILE_DIM + t.tx;
    var idyOut := t.blockX * TILE_DIM + t.ty;
    idxOut + idyOut * l.size + y * l.size
  }

  /** The offsets as cells of the two matrices; both stay inside them. */
  lemma {:induction false} Offsets(l: Launch, t: Tid, y: nat)
    requires IsThread(l, t) && t.ty + y < TILE_DIM
    ensures InIndex(l, t, y) ==
            Flat(t.blockY * TILE_DIM + t.ty + y, t.blockX * TILE_DIM + t.tx, l.size) < l.size * l.size
    ensures OutIndex(l, t, y) ==
            Flat(t.blockX * TILE_DIM + t.ty + y, t.blockY * TILE_DIM + t.tx, l.size) < l.size * l.size
  {
    FlatInBounds(t.blockY * TILE_DIM + t.ty + y, t.blockX * TILE_DIM + t.tx, l.size, l.size);
    FlatInBounds(t.blockX * TILE_DIM + t.ty + y, t.blockY * TILE_DIM + t.tx, l.size, l.size);
    Distribute(t.blockY * TILE_DIM + t.ty, y, l.size);
    Distribute(t.blockX * TILE_DIM + t.ty, y, l.size);
  }

  lemma {:induction false} Distribute(a: nat, b: nat, m: nat)
    ensures (a + b) * m == a * m + b * m
  {
  }

  predicate Enabled(threads: map<Tid, Local>, t: Tid)
    requires t in threads
  {
    match threads[t]
    case AtSync => forall u | u in threads && SameBlock(t, u) :: threads[u].Phase() >= 1
    case Done => false
    case _ => true
  }

  /** The accesses of the next step stay inside the tile and the matrices. */
  ghost predicate InRange(l: Launch, t: Tid, x: Local) {
    (x.Load? || x.Store?) && x.y < TILE_DIM ==>
      t.ty + x.y < TILE_DIM && InIndex(l, t, x.y) < l.size * l.size && OutIndex(l, t, x.y) < l.size * l.size
  }

  function Step<T>(l: Launch, inp: seq<T>, s: State<T>, t: Tid): State<T>
    requires Shape(l, inp, s) && t in s.threads && Enabled(s.threads, t) && InRange(l, t, s.threads[t])
  {
    match s.threads[t]
    case Load(y) =>
      if y < TILE_DIM then
        s.(tile := s.tile[Here(t, t.ty + y, t.tx) := inp[InIndex(l, t, y)]],
           threads := s.threads[t := Load(y + l.dimY)])
      else
        s.(threads := s.threads[t := AtSync])
    case AtSync => s.(threads := s.threads[t := Store(0)])
    case Store(y) =>
      if y < TILE_DIM then
        s.(out := s.out[OutIndex(l, t, y) := s.tile[Here(t, t.tx, t.ty + y)]],
           threads := s.threads[t := Store(y + l.dimY)])
      else
        s.(threads := s.threads[t := Done])
  }

  // ---------- the invariant ----------

  /** Iteration in which the owner of a tile row or output row handles it. */
  function Turn(l: Launch, row: nat): (y: nat)
    requires l.Valid()
    ensures y <= row && y % l.dimY == 0 && row % l.dimY + y == row
  {
    ModBounds(row, l.dimY);
    assert row == row / l.dimY * l.dimY + row % l.dimY;
    BlockSplit(row / l.dimY, 0, l.dimY);
    row - row % l.dimY
  }

  ghost predicate LocalInv(l: Launch, t: Tid, x: Local)
    requires l.Valid()
  {
    (x.Load? || x.Store?) ==> x.y % l.dimY == 0
  }

  ghost predicate TileInv<T>(l: Launch, inp: seq<T>, s: State<T>, k: Cell)
    requires Shape(l, inp, s)
  {
    IsCell(l, k) && s.threads[Owner(l, k)].LoadCursor() > Turn(l, k.row) ==> s.tile[k] == Image(l, inp, k)
  }

  ghost predicate SyncInv(threads: map<Tid, Local>) {
    forall t, u | t in threads && u in threads && SameBlock(t, u) ::
      threads[t].Phase() >= 2 ==> threads[u].Phase() >= 1
  }

  predicate Written(l: Launch, threads: map<Tid, Local>, row: nat, col: nat)
    requires l.Valid() && forall t :: t in threads <==> IsThread(l, t)
  {
    var k := Source(row, col);
    IsCell(l, k) && threads[Owner(l, k)].StoreCursor() > Turn(l, k.row)
  }

  ghost predicate OutInv<T>(l: Launch, inp: seq<T>, out0: seq<T>, s: State<T>, row: nat, col: nat)
    requires Shape(l, inp, s) && |out0| == l.size * l.size && row < l.size && col < l.size
  {
    At(s.out, l.size, row, col) ==
    if Written(l, s.threads, row, col) then At(inp, l.size, col, row) else At(out0, l.size, row, col)
  }

  ghost predicate Inv<T>(l: Launch, inp: seq<T>, out0: seq<T>, s: State<T>) {
    && Shape(l, inp, s)
    && TILE_DIM % l.dimY == 0
    && |out0| == l.size * l.size
    && SyncInv(s.threads)
    && (forall t | t in s.threads :: LocalInv(l, t, s.threads[t]))
    && (forall k | k in s.tile :: TileInv(l, inp, s, k))
    && (forall row, col | 0 <= row < l.size && 0 <= col < l.size :: OutInv(l, inp, out0, s, row, col))
  }

  lemma {:induction false} InitInv<T>(l: Launch, inp: seq<T>, out0: seq<T>, s: State<T>)
    requires Shape(l, inp, s) && TILE_DIM % l.dimY == 0 && s.out == out0
    requires forall t | t in s.threads :: s.threads[t] == Load(0)
    ensures Inv(l, inp, out0, s)
  {
    forall row, col | 0 <= row < l.size && 0 <= col < l.size ensures OutInv(l, inp, out0, s, row, col) {
      assert !Written(l, s.threads, row, col);
    }
  }

  lemma {:induction false} InvInRange<T>(l: Launch, inp: seq<T>, out0: seq<T>, s: State<T>, t: Tid)
    requires Inv(l, inp, out0, s) && t in s.threads
    ensures InRange(l, t, s.threads[t])
  {
    var x := s.threads[t];
    assert LocalInv(l, t, x);
    if (x.Load? || x.Store?) && x.y < TILE_DIM {
      RowInTile(l, t.ty, x.y);
      Offsets(l, t, x.y);
    }
  }

  lemma {:induction false} StepSync<T>(l: Launch, inp: seq<T>, s: State<T>, t: Tid)
    requires Shape(l, inp, s) && t in s.threads && Enabled(s.threads, t) && InRange(l, t, s.threads[t])
    requires SyncInv(s.threads) && LocalInv(l, t, s.threads[t])
    ensures Shape(l, inp, Step(l, inp, s, t)) && SyncInv(Step(l, inp, s, t).threads)
    ensures LocalInv(l, t, Step(l, inp, s, t).threads[t])
  {
    var s' := Step(l, inp, s, t);
    var x := s.threads[t];
    if x.Load? || x.Store? {
      StrideStep(x.y, l.dimY);
    }
    assert SameBlock(t, t);
    forall u, v | u in s'.threads && v in s'.threads && SameBlock(u, v)
      ensures s'.threads[u].Phase() >= 2 ==> s'.threads[v].Phase() >= 1
    {
      assert u != t ==> s'.threads[u] == s.threads[u];
      assert v != t ==> s'.threads[v] == s.threads[v];
    }
  }

  lemma {:induction false} StepTile<T>(l: Launch, inp: seq<T>, s: State<T>, t: Tid, k: Cell)
    requires Shape(l, inp, s) && TILE_DIM % l.dimY == 0 && k in s.tile && TileInv(l, inp, s, k)
    requires t in s.threads && Enabled(s.threads, t) && InRange(l, t, s.threads[t]) && LocalInv(l, t, s.threads[t])
    requires Shape(l, inp, Step(l, inp, s, t))
    ensures TileInv(l, inp, Step(l, inp, s, t), k)
  {
    var x := s.threads[t];
    if x.Load? && x.y < TILE_DIM && IsCell(l, k) {
      RowInTile(l, t.ty, x.y);
      Offsets(l, t, x.y);
      if t == Owner(l, k) && Turn(l, k.row) < x.y + l.dimY {
        StrideGap(Turn(l, k.row), x.y, l.dimY);
      }
    }
  }

  lemma {:induction false} StepOut<T>(l: Launch, inp: seq<T>, out0: seq<T>, s: State<T>, t: Tid, row: nat, col: nat)
    requires Inv(l, inp, out0, s) && t in s.threads && Enabled(s.threads, t) && InRange(l, t, s.threads[t])
    requires row < l.size && col < l.size && Shape(l, inp, Step(l, inp, s, t))
    ensures OutInv(l, inp, out0, Step(l, inp, s, t), row, col)
  {
    var x, k := s.threads[t], Source(row, col);
    assert OutInv(l, inp, out0, s, row, col) && LocalInv(l, t, x);
    if x.Store? && x.y < TILE_DIM {
      RowInTile(l, t.ty, x.y);
      StoreTarget(l, t, x.y, row, col);
      if k == Here(t, t.ty + x.y, t.tx) {
        StoredValue(l, inp, out0, s, t, row, col);
        StepOutHere(l, inp, out0, s, t, row, col);
      } else {
        StepOutThere(l, inp, out0, s, t, row, col);
      }
    } else {
      StepOutKept(l, inp, out0, s, t, row, col);
    }
  }

  /** Past the barrier the tile cell a thread stores is loaded. */
  lemma {:induction false} StoredValue<T>(l: Launch, inp: seq<T>, out0: seq<T>, s: State<T>, t: Tid, row: nat, col: nat)
    requires Inv(l, inp, out0, s) && t in s.threads && s.threads[t].Store?
    requires row < l.size && col < l.size && IsCell(l, Source(row, col))
    requires Source(row, col).blockX == t.blockX && Source(row, col).blockY == t.blockY
    ensures s.tile[Mirror(Source(row, col))] == At(inp, l.size, col, row)
  {
    var m := Mirror(Source(row, col));
    assert SameBlock(t, Owner(l, m));
    assert TileInv(l, inp, s, m);
  }

  /** The thread stores this cell. */
  lemma {:induction false} StepOutHere<T>(l: Launch, inp: seq<T>, out0: seq<T>, s: State<T>, t: Tid, row: nat, col: nat)
    requires Shape(l, inp, s) && |out0| == l.size * l.size && row < l.size && col < l.size
    requires t in s.threads && Enabled(s.threads, t) && InRange(l, t, s.threads[t])
    requires Shape(l, inp, Step(l, inp, s, t))
    requires var x, k := s.threads[t], Source(row, col);
      && x.Store? && x.y < TILE_DIM && IsCell(l, k) && k == Here(t, t.ty + x.y, t.tx)
      && OutIndex(l, t, x.y) == Flat(row, col, l.size) && t == Owner(l, k) && x.y == Turn(l, k.row)
      && s.tile[Mirror(k)] == At(inp, l.size, col, row)
    ensures OutInv(l, inp, out0, Step(l, inp, s, t), row, col)
  {
    FlatInBounds(row, col, l.size, l.size);
    assert Step(l, inp, s, t).out[Flat(row, col, l.size)] == s.tile[Here(t, t.tx, t.ty + s.threads[t].y)];
  }

  /** The thread stores another cell. */
  lemma {:induction false} StepOutThere<T>(l: Launch, inp: seq<T>, out0: seq<T>, s: State<T>, t: Tid,
                                           row: nat, col: nat)
    requires Shape(l, inp, s) && |out0| == l.size * l.size && row < l.size && col < l.size
    requires t in s.threads && Enabled(s.threads, t) && InRange(l, t, s.threads[t]) && LocalInv(l, t, s.threads[t])
    requires Shape(l, inp, Step(l, inp, s, t)) && TILE_DIM % l.dimY == 0 && OutInv(l, inp, out0, s, row, col)
    requires var x, k := s.threads[t], Source(row, col);
      && x.Store? && x.y < TILE_DIM && k != Here(t, t.ty + x.y, t.tx)
      && OutIndex(l, t, x.y) != Flat(row, col, l.size)
    ensures OutInv(l, inp, out0, Step(l, inp, s, t), row, col)
  {
    var x, k := s.threads[t], Source(row, col);
    FlatInBounds(row, col, l.size, l.size);
    if IsCell(l, k) && t == Owner(l, k) && Turn(l, k.row) < x.y + l.dimY {
      StrideGap(Turn(l, k.row), x.y, l.dimY);
    }
  }

  /** The thread stores nothing. */
  lemma {:induction false} StepOutKept<T>(l: Launch, inp: seq<T>, out0: seq<T>, s: State<T>, t: Tid, row: nat, col: nat)
    requires Shape(l, inp, s) && |out0| == l.size * l.size && row < l.size && col < l.size
    requires t in s.threads && Enabled(s.threads, t) && InRange(l, t, s.threads[t])
    requires Shape(l, inp, Step(l, inp, s, t)) && OutInv(l, inp, out0, s, row, col)
    requires !(s.threads[t].Store? && s.threads[t].y < TILE_DIM)
    ensures OutInv(l, inp, out0, Step(l, inp, s, t), row, col)
  {
  }

  /** Each tile cell is loaded by one thread in one iteration. */
  lemma {:induction false} LoadTarget(l: Launch, t: Tid, y: nat, u: Tid, y': nat)
    requires l.Valid() && TILE_DIM % l.dimY == 0 && Reaches(l, t.ty, y) && Reaches(l, u.ty, y')
    requires Here(t, t.ty + y, t.tx) == Here(u, u.ty + y', u.tx)
    ensures t == u == Owner(l, Here(t, t.ty + y, t.tx)) && y == y'
  {
    RowInTile(l, t.ty, y);
    RowInTile(l, u.ty, y');
  }

  /** Tile cells that the next step of a thread reads, and those it writes. */
  function Reads(t: Tid, x: Local): set<Cell> {
    if x.Store? && x.y < TILE_DIM then {Here(t, t.tx, t.ty + x.y)} else {}
  }

  function Writes(t: Tid, x: Local): set<Cell> {
    if x.Load? && x.y < TILE_DIM then {Here(t, t.ty + x.y, t.tx)} else {}
  }

  /** No race: on either side of the barrier, at any two moments of any runs, no thread writes a tile
      cell that another one reads or writes. */
  lemma {:induction false} RaceFree<T>(l: Launch, inp: seq<T>, out0: seq<T>, s: State<T>, s': State<T>, t: Tid, u: Tid)
    requires Inv(l, inp, out0, s) && Inv(l, inp, out0, s') && t in s.threads && u in s'.threads && t != u
    requires s.threads[t].Phase() == s'.threads[u].Phase()
    ensures Writes(t, s.threads[t]) !! Reads(u, s'.threads[u]) + Writes(u, s'.threads[u])
  {
    var x, y := s.threads[t], s'.threads[u];
    assert LocalInv(l, t, x) && LocalInv(l, u, y);
    if x.Load? && x.y < TILE_DIM && y.y < TILE_DIM && Here(t, t.ty + x.y, t.tx) == Here(u, u.ty + y.y, u.tx) {
      LoadTarget(l, t, x.y, u, y.y);
    }
  }

  /** Iteration y of thread t stores exactly the output cell of its block at row ty + y, column tx,
      and no other thread or iteration stores that cell. */
  lemma {:induction false} StoreTarget(l: Launch, t: Tid, y: nat, row: nat, col: nat)
    requires l.Valid() && TILE_DIM % l.dimY == 0 && IsThread(l, t) && Reaches(l, t.ty, y) && t.ty + y < TILE_DIM
    requires row < l.size && col < l.size
    ensures OutIndex(l, t, y) == Flat(row, col, l.size) <==> Source(row, col) == Here(t, t.ty + y, t.tx)
    ensures OutIndex(l, t, y) == Flat(row, col, l.size) ==>
              t == Owner(l, Source(row, col)) && y == Turn(l, row % TILE_DIM)
  {
    Offsets(l, t, y);
    if OutIndex(l, t, y) == Flat(row, col, l.size) {
      FlatInjective(row, col, t.blockX * TILE_DIM + t.ty + y, t.blockY * TILE_DIM + t.tx, l.size);
      OwnTurn(l, t, y);
    }
  }

  /** Thread and iteration of a tile row. */
  lemma {:induction false} OwnTurn(l: Launch, t: Tid, y: nat)
    requires l.Valid() && TILE_DIM % l.dimY == 0 && Reaches(l, t.ty, y)
    ensures t == Owner(l, Here(t, t.ty + y, t.tx)) && y == Turn(l, t.ty + y)
  {
    RowInTile(l, t.ty, y);
  }

  lemma {:induction false} StepInv<T>(l: Launch, inp: seq<T>, out0: seq<T>, s: State<T>, t: Tid)
    requires Inv(l, inp, out0, s) && t in s.threads && Enabled(s.threads, t)
    ensures InRange(l, t, s.threads[t]) && Inv(l, inp, out0, Step(l, inp, s, t))
  {
    InvInRange(l, inp, out0, s, t);
    var s' := Step(l, inp, s, t);
    StepSync(l, inp, s, t);
    forall u | u in s'.threads ensures LocalInv(l, u, s'.threads[u]) {
      assert u != t ==> s'.threads[u] == s.threads[u];
    }
    forall k | k in s'.tile ensures TileInv(l, inp, s', k) {
      StepTile(l, inp, s, t, k);
    }
    forall row, col | 0 <= row < l.size && 0 <= col < l.size ensures OutInv(l, inp, out0, s', row, col) {
      StepOut(l, inp, out0, s, t, row, col);
    }
  }

  // ---------- progress and the whole launch ----------

  predicate AllDone(threads: map<Tid, Local>) {
    forall t | t in threads :: threads[t].Done?
  }

  lemma {:induction false} Progress<T>(l: Launch, inp: seq<T>, s: State<T>)
    requires Shape(l, inp, s) && !AllDone(s.threads)
    ensures exists t :: t in s.threads && Enabled(s.threads, t)
  {
    var t :| t in s.threads && !s.threads[t].Done?;
    if !Enabled(s.threads, t) {
      var u :| u in s.threads && SameBlock(t, u) && s.threads[u].Phase() < 1;
      assert Enabled(s.threads, u);
    }
  }

  function Rank(x: Local): nat {
    match x
    case Load(y) => 2000 + Left(y)
    case AtSync => 1500
    case Store(y) => 1000 + Left(y)
    case Done => 0
  }

  ghost function Work(threads: map<Tid, Local>): nat {
    Total(map t | t in threads :: Rank(threads[t]))
  }

  lemma {:induction false} StepWork<T>(l: Launch, inp: seq<T>, s: State<T>, t: Tid)
    requires Shape(l, inp, s) && t in s.threads && Enabled(s.threads, t) && InRange(l, t, s.threads[t])
    ensures Work(Step(l, inp, s, t).threads) < Work(s.threads)
  {
    var x := Step(l, inp, s, t).threads[t];
    assert Rank(x) < Rank(s.threads[t]);
    WorkDrops(s.threads, t, x);
  }

  lemma {:induction false} WorkDrops(threads: map<Tid, Local>, t: Tid, x: Local)
    requires t in threads && Rank(x) < Rank(threads[t])
    ensures Work(threads[t := x]) < Work(threads)
  {
    var threads' := threads[t := x];
    var before := map u | u in threads :: Rank(threads[u]);
    var after := map u | u in threads' :: Rank(threads'[u]);
    assert after == before[t := Rank(x)];
    TotalUpdate(before, t, Rank(x));
  }

  lemma {:induction false} DoneTransposed<T>(l: Launch, inp: seq<T>, out0: seq<T>, s: State<T>)
    requires Inv(l, inp, out0, s) && AllDone(s.threads)
    ensures TransposedOver(l.size, inp, out0, s.out)
  {
    forall row, col | 0 <= row < l.size && 0 <= col < l.size
      ensures At(s.out, l.size, row, col) ==
              if Covered(l.size, row, col) then At(inp, l.size, col, row) else At(out0, l.size, row, col)
    {
      assert OutInv(l, inp, out0, s, row, col);
      assert Covered(l.size, row, col) <==> IsCell(l, Source(row, col));
    }
  }

  /** A launch in progress: the shared tiles, the program counters and the output buffer. */
  class Grid<T> {
    const l: Launch
    const idata: array<T>
    const odata: array<T>
    var tile: map<Cell, T>
    var threads: map<Tid, Local>

    ghost function Snapshot(): State<T>
      reads this, odata
    {
      State(tile, odata[..], threads)
    }

    ghost predicate Good(inp: seq<T>, out0: seq<T>)
      reads this, odata, idata
    {
      idata != odata && idata[..] == inp && Inv(l, inp, out0, Snapshot())
    }

    /** `shared` is the stale content of the uninitialised tiles. The block height must divide
        the tile edge: TileRowsInBounds says that other heights leave the tile. */
    constructor (l: Launch, idata: array<T>, odata: array<T>, shared: map<Cell, T>)
      requires l.Valid() && TILE_DIM % l.dimY == 0
      requires odata != idata && odata.Length == idata.Length == l.size * l.size
      requires forall k :: k in shared <==> IsTileCell(l, k)
      ensures this.l == l && this.idata == idata && this.odata == odata
      ensures Good(idata[..], odata[..])
    {
      this.l, this.idata, this.odata := l, idata, odata;
      tile := shared;
      threads := map t | t in Threads(l) :: Load(0);
      new;
      InitInv(l, idata[..], odata[..], Snapshot());
    }

    /** One step of thread t, in place. */
    method Advance(t: Tid)
      requires idata != odata && Shape(l, idata[..], Snapshot())
      requires t in threads && Enabled(threads, t) && InRange(l, t, threads[t])
      modifies this, odata
      ensures Snapshot() == Step(l, idata[..], old(Snapshot()), t)
    {
      match threads[t] {
        case Load(y) =>
          if y < TILE_DIM {
            tile := tile[Here(t, t.ty + y, t.tx) := idata[InIndex(l, t, y)]];
            threads := threads[t := Load(y + l.dimY)];
          } else {
            threads := threads[t := AtSync];
          }
        case AtSync =>
          threads := threads[t := Store(0)];
        case Store(y) =>
          if y < TILE_DIM {
            odata[OutIndex(l, t, y)] := tile[Here(t, t.tx, t.ty + y)];
            threads := threads[t := Store(y + l.dimY)];
          } else {
            threads := threads[t := Done];
          }
      }
    }

    /** Runs the launch to its end under any scheduler. */
    method TransposeLdsNoBankConflicts(ghost inp: seq<T>, ghost out0: seq<T>)
      requires Good(inp, out0)
      modifies this, odata
      ensures Good(inp, out0) && TransposedOver(l.size, inp, out0, odata[..])
    {
      while !AllDone(threads)
        invariant Good(inp, out0)
        decreases Work(threads)
      {
        Progress(l, inp, Snapshot());
        var t :| t in threads && Enabled(threads, t);
        StepInv(l, inp, out0, Snapshot(), t);
        StepWork(l, inp, Snapshot(), t);
        Advance(t);
      }
      DoneTransposed(l, inp, out0, Snapshot());
    }
  }
}
