/**
 The tiled transpose that swaps its tile in place: every thread of every block is a program
 counter with its loop variable and registers, one step is one shared access, and a block's
 threads wait for each other at the two barriers.
 */
module SwapInplaceKernel {
  import opened Gpu
  import opened Matrix
  import opened Sums

  datatype Local<T> =
    | Load(idy: nat)
    | AtSync1
    | Swap(idy: nat)
    | SwapTemp(idy: nat, temp: T)
    | SwapBoth(idy: nat, temp: T, other: T)
    | SwapHalf(idy: nat, temp: T)
    | AtSync2
    | Store(idy: nat)
    | Done
  {
    function Phase(): nat {
      match this
      case Load(_) => 0
      case AtSync1 => 1
      case Swap(_) => 2
      case SwapTemp(_, _) => 2
      case SwapBoth(_, _, _) => 2
      case SwapHalf(_, _) => 2
      case AtSync2 => 3
      case Store(_) => 4
      case Done => 5
    }

    /** Rows below the cursor have been handled by this thread in the loop named. */
    function LoadCursor(): nat { if Load? then idy else TILE_DIM }

    function SwapCursor(): nat {
      if Phase() < 2 then 0 else if Phase() == 2 then idy else TILE_DIM
    }

    function StoreCursor(): nat {
      if Store? then idy else if Done? then TILE_DIM else 0
    }
  }

  datatype State<T> = State(tile: map<Cell, T>, out: seq<T>, threads: map<Tid, Local<T>>)

  ghost predicate Shape<T>(l: Launch, inp: seq<T>, s: State<T>) {
    && l.Valid()
    && |inp| == l.size * l.size
    && |s.out| == l.size * l.size
    && (forall t :: t in s.threads <==> IsThread(l, t))
    && (forall k :: k in s.tile <==> IsCell(l, k))
  }

  // ---------- the kernel, one step of one thread ----------

  function InIndex(l: Launch, t: Tid, idy: nat): (i: nat)
    requires IsThread(l, t) && idy < TILE_DIM
    ensures i < l.size * l.size
  {
    FlatInBounds(idy + t.blockY * TILE_DIM, t.blockX * TILE_DIM + t.tx, l.size, l.size);
    Flat(idy + t.blockY * TILE_DIM, t.blockX * TILE_DIM + t.tx, l.size)
  }

  function OutIndex(l: Launch, t: Tid, idy: nat): (i: nat)
    requires IsThread(l, t) && idy < TILE_DIM
    ensures i < l.size * l.size
  {
    FlatInBounds(t.blockX * TILE_DIM + idy, t.blockY * TILE_DIM + t.tx, l.size, l.size);
    Flat(t.blockX * TILE_DIM + idy, t.blockY * TILE_DIM + t.tx, l.size)
  }

  /** A thread at a barrier may leave it once no thread of its block is still before it. */
  predicate Enabled<T>(threads: map<Tid, Local<T>>, t: Tid)
    requires t in threads
  {
    match threads[t]
    case AtSync1 => forall u | u in threads && SameBlock(t, u) :: threads[u].Phase() >= 1
    case AtSync2 => forall u | u in threads && SameBlock(t, u) :: threads[u].Phase() >= 3
    case Done => false
    case _ => true
  }

  /** A thread between the barriers that swaps works strictly above the diagonal. */
  ghost predicate InRange<T>(t: Tid, x: Local<T>) {
    x.SwapTemp? || x.SwapBoth? || x.SwapHalf? ==> x.idy < t.tx
  }

  function Step<T>(l: Launch, inp: seq<T>, s: State<T>, t: Tid): State<T>
    requires Shape(l, inp, s) && t in s.threads && Enabled(s.threads, t) && InRange(t, s.threads[t])
  {
    match s.threads[t]
    case Load(idy) =>
      if idy < TILE_DIM then
        s.(tile := s.tile[Here(t, idy, t.tx) := inp[InIndex(l, t, idy)]],
           threads := s.threads[t := Load(idy + l.dimY)])
      else
        s.(threads := s.threads[t := AtSync1])
    case AtSync1 => s.(threads := s.threads[t := Swap(t.ty)])
    case Swap(idy) =>
      if idy >= TILE_DIM then
        s.(threads := s.threads[t := AtSync2])
      else if idy < t.tx then
        s.(threads := s.threads[t := SwapTemp(idy, s.tile[Here(t, idy, t.tx)])])
      else
        s.(threads := s.threads[t := Swap(idy + l.dimY)])
    case SwapTemp(idy, temp) =>
      s.(threads := s.threads[t := SwapBoth(idy, temp, s.tile[Here(t, t.tx, idy)])])
    case SwapBoth(idy, temp, other) =>
      s.(tile := s.tile[Here(t, idy, t.tx) := other],
         threads := s.threads[t := SwapHalf(idy, temp)])
    case SwapHalf(idy, temp) =>
      s.(tile := s.tile[Here(t, t.tx, idy) := temp],
         threads := s.threads[t := Swap(idy + l.dimY)])
    case AtSync2 => s.(threads := s.threads[t := Store(t.ty)])
    case Store(idy) =>
      if idy < TILE_DIM then
        s.(out := s.out[OutIndex(l, t, idy) := s.tile[Here(t, idy, t.tx)]],
           threads := s.threads[t := Store(idy + l.dimY)])
      else
        s.(threads := s.threads[t := Done])
  }

  // ---------- the invariant ----------

  /** The one thread that swaps cell k with its mirror image. */
  function SwapOwner(l: Launch, k: Cell): Tid
    requires l.Valid()
  {
    if k.row < k.col then Owner(l, k) else Owner(l, Mirror(k))
  }

  function Lower(k: Cell): nat {
    if k.row < k.col then k.row else k.col
  }

  predicate Swapped<T>(k: Cell, x: Local<T>) {
    x.SwapCursor() > Lower(k) || (x.SwapHalf? && x.idy == Lower(k) && k.row < k.col)
  }

  ghost predicate LocalInv<T>(l: Launch, inp: seq<T>, t: Tid, x: Local<T>)
    requires l.Valid() && |inp| == l.size * l.size && IsThread(l, t)
  {
    && InRange(t, x)
    && (x.Load? || x.Phase() == 2 || x.Store? ==> x.idy % l.dimY == t.ty)
    && (x.SwapTemp? ==> x.temp == Image(l, inp, Here(t, x.idy, t.tx)))
    && (x.SwapBoth? ==> x.temp == Image(l, inp, Here(t, x.idy, t.tx))
                        && x.other == Image(l, inp, Here(t, t.tx, x.idy)))
    && (x.SwapHalf? ==> x.temp == Image(l, inp, Here(t, x.idy, t.tx)))
  }

  ghost predicate TileInv<T>(l: Launch, inp: seq<T>, s: State<T>, k: Cell)
    requires Shape(l, inp, s) && IsCell(l, k)
  {
    s.threads[Owner(l, k)].LoadCursor() > k.row ==>
      s.tile[k] == if k.row != k.col && Swapped(k, s.threads[SwapOwner(l, k)])
                   then Image(l, inp, Mirror(k)) else Image(l, inp, k)
  }

  ghost predicate SyncInv<T>(s: State<T>) {
    forall t, u | t in s.threads && u in s.threads && SameBlock(t, u) ::
      && (s.threads[t].Phase() >= 2 ==> s.threads[u].Phase() >= 1)
      && (s.threads[t].Phase() >= 4 ==> s.threads[u].Phase() >= 3)
  }

  /** Output cell (row, col) is covered by the launch and its one writer has stored it. */
  predicate Written<T>(l: Launch, threads: map<Tid, Local<T>>, row: nat, col: nat)
    requires l.Valid() && forall t :: t in threads <==> IsThread(l, t)
  {
    IsCell(l, Source(row, col)) && threads[Owner(l, Source(row, col))].StoreCursor() > row % TILE_DIM
  }

  ghost predicate OutInv<T>(l: Launch, inp: seq<T>, out0: seq<T>, s: State<T>, row: nat, col: nat)
    requires Shape(l, inp, s) && |out0| == l.size * l.size && row < l.size && col < l.size
  {
    At(s.out, l.size, row, col) ==
    if Written(l, s.threads, row, col) then At(inp, l.size, col, row) else At(out0, l.size, row, col)
  }

  ghost predicate Inv<T>(l: Launch, inp: seq<T>, out0: seq<T>, s: State<T>) {
    && Shape(l, inp, s)
    && |out0| == l.size * l.size
    && SyncInv(s)
    && (forall t | t in s.threads :: LocalInv(l, inp, t, s.threads[t]))
    && (forall k | k in s.tile :: TileInv(l, inp, s, k))
    && (forall row, col | 0 <= row < l.size && 0 <= col < l.size :: OutInv(l, inp, out0, s, row, col))
  }

  ghost predicate Init<T>(l: Launch, inp: seq<T>, out0: seq<T>, s: State<T>) {
    && Shape(l, inp, s)
    && s.out == out0
    && forall t | t in s.threads :: s.threads[t] == Load(t.ty)
  }

  lemma {:induction false} InitInv<T>(l: Launch, inp: seq<T>, out0: seq<T>, s: State<T>)
    requires Init(l, inp, out0, s)
    ensures Inv(l, inp, out0, s)
  {
    assert SyncInv(s);
    forall t | t in s.threads ensures LocalInv(l, inp, t, s.threads[t]) {
      BlockSplit(0, t.ty, l.dimY);
    }
    forall k | k in s.tile ensures TileInv(l, inp, s, k) {
      ModBounds(k.row, l.dimY);
      assert s.threads[Owner(l, k)] == Load(k.row % l.dimY);
    }
    forall row, col | 0 <= row < l.size && 0 <= col < l.size ensures OutInv(l, inp, out0, s, row, col) {
      assert !Written(l, s.threads, row, col);
    }
  }

  lemma {:induction false} StepSync<T>(l: Launch, inp: seq<T>, s: State<T>, t: Tid)
    requires Shape(l, inp, s) && t in s.threads && Enabled(s.threads, t) && InRange(t, s.threads[t])
    requires SyncInv(s)
    ensures Shape(l, inp, Step(l, inp, s, t)) && SyncInv(Step(l, inp, s, t))
  {
    var s' := Step(l, inp, s, t);
    assert s'.threads[t].Phase() >= s.threads[t].Phase();
    forall u, v | u in s'.threads && v in s'.threads && SameBlock(u, v)
      ensures s'.threads[u].Phase() >= 2 ==> s'.threads[v].Phase() >= 1
      ensures s'.threads[u].Phase() >= 4 ==> s'.threads[v].Phase() >= 3
    {
      assert u != t ==> s'.threads[u] == s.threads[u];
      assert v != t ==> s'.threads[v] == s.threads[v];
      assert SameBlock(t, t);
    }
  }

  lemma {:induction false} StepLocal<T>(l: Launch, inp: seq<T>, out0: seq<T>, s: State<T>, t: Tid)
    requires Inv(l, inp, out0, s) && t in s.threads && Enabled(s.threads, t)
    ensures LocalInv(l, inp, t, Step(l, inp, s, t).threads[t])
  {
    var x := s.threads[t];
    if x.Load? || x.Phase() == 2 || x.Store? {
      StrideStep(x.idy, l.dimY);
    }
    if x.Swap? && x.idy < t.tx {
      Loaded(l, inp, out0, s, t, Here(t, x.idy, t.tx));
    } else if x.SwapTemp? {
      Loaded(l, inp, out0, s, t, Here(t, t.tx, x.idy));
    }
  }

  /** Past the first barrier, every cell of the block obeys the swap half of TileInv. */
  lemma {:induction false} Loaded<T>(l: Launch, inp: seq<T>, out0: seq<T>, s: State<T>, t: Tid, k: Cell)
    requires Inv(l, inp, out0, s) && t in s.threads && s.threads[t].Phase() >= 2
    requires IsCell(l, k) && k.blockX == t.blockX && k.blockY == t.blockY
    ensures s.tile[k] == if k.row != k.col && Swapped(k, s.threads[SwapOwner(l, k)])
                         then Image(l, inp, Mirror(k)) else Image(l, inp, k)
  {
    assert SameBlock(t, Owner(l, k));
    assert TileInv(l, inp, s, k);
  }

  /** What a step of thread t needs to know to keep TileInv of cell k. */
  ghost predicate Ready<T>(l: Launch, inp: seq<T>, s: State<T>, t: Tid, k: Cell) {
    && Shape(l, inp, s) && SyncInv(s)
    && t in s.threads && Enabled(s.threads, t) && LocalInv(l, inp, t, s.threads[t])
    && k in s.tile && TileInv(l, inp, s, k)
    && Shape(l, inp, Step(l, inp, s, t))
  }

  /** A step of a thread that neither loads nor swaps cell k leaves the cell alone. */
  lemma {:induction false} StepTileOther<T>(l: Launch, inp: seq<T>, s: State<T>, t: Tid, k: Cell)
    requires Ready(l, inp, s, t, k)
    requires t != Owner(l, k) && t != SwapOwner(l, k)
    ensures TileInv(l, inp, Step(l, inp, s, t), k)
  {
    assert Step(l, inp, s, t).tile[k] == s.tile[k];
  }

  lemma {:induction false} StepTileLoad<T>(l: Launch, inp: seq<T>, s: State<T>, t: Tid, k: Cell)
    requires Ready(l, inp, s, t, k)
    requires t == Owner(l, k) && s.threads[t].Load?
    ensures TileInv(l, inp, Step(l, inp, s, t), k)
  {
    var p := SwapOwner(l, k);
    var idy := s.threads[t].idy;
    assert SameBlock(p, t) && s.threads[p].Phase() < 2;
    if k.row < idy + l.dimY {
      StrideGap(k.row, idy, l.dimY);
    }
    assert !Swapped(k, Step(l, inp, s, t).threads[p]);
  }

  lemma {:induction false} StepTileSwap<T>(l: Launch, inp: seq<T>, s: State<T>, t: Tid, k: Cell)
    requires Ready(l, inp, s, t, k)
    requires t == SwapOwner(l, k) && s.threads[t].Phase() == 2
    ensures TileInv(l, inp, Step(l, inp, s, t), k)
  {
    var idy := s.threads[t].idy;
    assert SameBlock(t, Owner(l, k));
    if Lower(k) < idy + l.dimY {
      StrideGap(Lower(k), idy, l.dimY);
    }
  }

  lemma {:induction false} StepTile<T>(l: Launch, inp: seq<T>, s: State<T>, t: Tid, k: Cell)
    requires Ready(l, inp, s, t, k)
    ensures TileInv(l, inp, Step(l, inp, s, t), k)
  {
    var x := s.threads[t];
    if t != Owner(l, k) && t != SwapOwner(l, k) {
      StepTileOther(l, inp, s, t, k);
    } else if t == Owner(l, k) && x.Load? {
      StepTileLoad(l, inp, s, t, k);
    } else if t == SwapOwner(l, k) && x.Phase() == 2 {
      StepTileSwap(l, inp, s, t, k);
    } else {
      StepTileKept(l, inp, s, t, k);
    }
  }

  /** Outside the two cases above the cell keeps its value and its reading. */
  lemma {:induction false} StepTileKept<T>(l: Launch, inp: seq<T>, s: State<T>, t: Tid, k: Cell)
    requires Ready(l, inp, s, t, k)
    requires !(t == Owner(l, k) && s.threads[t].Load?) && !(t == SwapOwner(l, k) && s.threads[t].Phase() == 2)
    ensures TileInv(l, inp, Step(l, inp, s, t), k)
  {
    TileKept(l, inp, s, t, k);
    var s' := Step(l, inp, s, t);
    var p := SwapOwner(l, k);
    ModBounds(Lower(k), l.dimY);
    assert Swapped(k, s'.threads[p]) == Swapped(k, s.threads[p]);
  }

  lemma {:induction false} TileKept<T>(l: Launch, inp: seq<T>, s: State<T>, t: Tid, k: Cell)
    requires Ready(l, inp, s, t, k)
    requires !(t == Owner(l, k) && s.threads[t].Load?) && !(t == SwapOwner(l, k) && s.threads[t].Phase() == 2)
    ensures Step(l, inp, s, t).tile[k] == s.tile[k]
  {
  }

  // ---------- output ----------

  /** Storing thread t at row idy writes exactly the output cell whose source is its tile cell; of the
      threads of that column the one whose loop reaches idy is the cell's only writer. */
  lemma {:induction false} StoreTarget(l: Launch, t: Tid, idy: nat, row: nat, col: nat)
    requires l.Valid() && IsThread(l, t) && idy < TILE_DIM && row < l.size && col < l.size
    ensures Flat(row, col, l.size) == OutIndex(l, t, idy) <==> Source(row, col) == Here(t, idy, t.tx)
    ensures Flat(row, col, l.size) == OutIndex(l, t, idy) && idy % l.dimY == t.ty ==> t == Owner(l, Source(row, col))
  {
    if Flat(row, col, l.size) == OutIndex(l, t, idy) {
      FlatInjective(row, col, t.blockX * TILE_DIM + idy, t.blockY * TILE_DIM + t.tx, l.size);
    }
  }

  lemma {:induction false} StoredValue<T>(l: Launch, inp: seq<T>, out0: seq<T>, s: State<T>, t: Tid, row: nat, col: nat)
    requires Inv(l, inp, out0, s) && t in s.threads && s.threads[t].Phase() >= 4
    requires row < l.size && col < l.size
    requires IsCell(l, Source(row, col)) && Source(row, col).blockX == t.blockX && Source(row, col).blockY == t.blockY
    ensures s.tile[Source(row, col)] == At(inp, l.size, col, row)
  {
    var k := Source(row, col);
    Loaded(l, inp, out0, s, t, k);
    assert SameBlock(t, SwapOwner(l, k));
  }

  lemma {:induction false} StepOut<T>(l: Launch, inp: seq<T>, out0: seq<T>, s: State<T>, t: Tid, row: nat, col: nat)
    requires Inv(l, inp, out0, s) && t in s.threads && Enabled(s.threads, t) && row < l.size && col < l.size
    requires Shape(l, inp, Step(l, inp, s, t))
    ensures OutInv(l, inp, out0, Step(l, inp, s, t), row, col)
  {
    var x, k := s.threads[t], Source(row, col);
    assert OutInv(l, inp, out0, s, row, col) && LocalInv(l, inp, t, x);
    if x.Store? && x.idy < TILE_DIM {
      StoreTarget(l, t, x.idy, row, col);
      FlatInBounds(row, col, l.size, l.size);
      if k == Here(t, x.idy, t.tx) {
        StoredValue(l, inp, out0, s, t, row, col);
      } else if IsCell(l, k) && t == Owner(l, k) && k.row < x.idy + l.dimY {
        StrideGap(k.row, x.idy, l.dimY);
      }
    } else if IsCell(l, k) {
      ModBounds(k.row, l.dimY);
    }
  }

  lemma {:induction false} StepInv<T>(l: Launch, inp: seq<T>, out0: seq<T>, s: State<T>, t: Tid)
    requires Inv(l, inp, out0, s) && t in s.threads && Enabled(s.threads, t)
    ensures Inv(l, inp, out0, Step(l, inp, s, t))
  {
    var s' := Step(l, inp, s, t);
    StepSync(l, inp, s, t);
    StepLocal(l, inp, out0, s, t);
    forall u | u in s'.threads ensures LocalInv(l, inp, u, s'.threads[u]) {
      assert u != t ==> s'.threads[u] == s.threads[u];
    }
    forall k | k in s'.tile ensures TileInv(l, inp, s', k) {
      StepTile(l, inp, s, t, k);
    }
    forall row, col | 0 <= row < l.size && 0 <= col < l.size ensures OutInv(l, inp, out0, s', row, col) {
      StepOut(l, inp, out0, s, t, row, col);
    }
  }

  // ---------- race freedom, progress and the whole launch ----------

  /** Each tile cell is loaded by one thread in one iteration. */
  lemma {:induction false} LoadTarget(l: Launch, t: Tid, idy: nat, u: Tid, idy': nat)
    requires l.Valid() && idy % l.dimY == t.ty && idy' % l.dimY == u.ty
    requires Here(t, idy, t.tx) == Here(u, idy', u.tx)
    ensures t == u == Owner(l, Here(t, idy, t.tx)) && idy == idy'
  {
  }

  /** Tile cells that the next step of a thread reads, and those it writes. */
  function Reads<T>(t: Tid, x: Local<T>): set<Cell> {
    if x.Swap? && x.idy < TILE_DIM && x.idy < t.tx then {Here(t, x.idy, t.tx)}
    else if x.SwapTemp? then {Here(t, t.tx, x.idy)}
    else if x.Store? && x.idy < TILE_DIM then {Here(t, x.idy, t.tx)}
    else {}
  }

  function Writes<T>(t: Tid, x: Local<T>): set<Cell> {
    if x.Load? && x.idy < TILE_DIM then {Here(t, x.idy, t.tx)}
    else if x.SwapBoth? then {Here(t, x.idy, t.tx)}
    else if x.SwapHalf? then {Here(t, t.tx, x.idy)}
    else {}
  }

  /** A step leaves the cells it does not write alone, and depends on no cell it does not read. */
  lemma {:induction false} Footprint<T>(l: Launch, inp: seq<T>, s: State<T>, t: Tid, k: Cell, v: T)
    requires Shape(l, inp, s) && t in s.threads && Enabled(s.threads, t) && InRange(t, s.threads[t]) && k in s.tile
    ensures k !in Writes(t, s.threads[t]) ==> Step(l, inp, s, t).tile[k] == s.tile[k]
    ensures
      var s1 := s.(tile := s.tile[k := v]);
      Shape(l, inp, s1) && (k !in Reads(t, s.threads[t]) ==>
        && Step(l, inp, s1, t).threads == Step(l, inp, s, t).threads
        && Step(l, inp, s1, t).out == Step(l, inp, s, t).out)
  {
  }

  /** In the load phase a thread writes cells it owns; between the barriers it touches cells it is to
      swap; after them it writes none. */
  lemma {:induction false} TouchesOwn<T>(l: Launch, inp: seq<T>, t: Tid, x: Local<T>, k: Cell)
    requires l.Valid() && |inp| == l.size * l.size && IsThread(l, t) && LocalInv(l, inp, t, x)
    ensures k in Writes(t, x) ==> x.Phase() == 0 || x.Phase() == 2
    ensures x.Phase() == 0 && k in Writes(t, x) + Reads(t, x) ==> k in Writes(t, x) && t == Owner(l, k)
    ensures x.Phase() == 2 && k in Writes(t, x) + Reads(t, x) ==> t == SwapOwner(l, k)
  {
  }

  /** No race: whatever two different threads do at any two moments between the same barriers of any
      runs, neither writes a tile cell that the other reads or writes. */
  lemma {:induction false} RaceFree<T>(l: Launch, inp: seq<T>, out0: seq<T>, s: State<T>, s': State<T>, t: Tid, u: Tid)
    requires Inv(l, inp, out0, s) && Inv(l, inp, out0, s') && t in s.threads && u in s'.threads && t != u
    requires s.threads[t].Phase() == s'.threads[u].Phase()
    ensures Writes(t, s.threads[t]) !! Reads(u, s'.threads[u]) + Writes(u, s'.threads[u])
  {
    assert LocalInv(l, inp, t, s.threads[t]) && LocalInv(l, inp, u, s'.threads[u]);
    forall k | k in Writes(t, s.threads[t]) ensures k !in Reads(u, s'.threads[u]) + Writes(u, s'.threads[u]) {
      TouchesOwn(l, inp, t, s.threads[t], k);
      TouchesOwn(l, inp, u, s'.threads[u], k);
    }
  }

  predicate AllDone<T>(threads: map<Tid, Local<T>>) {
    forall t | t in threads :: threads[t].Done?
  }

  /** The barriers never deadlock. */
  lemma {:induction false} Progress<T>(l: Launch, inp: seq<T>, out0: seq<T>, s: State<T>)
    requires Inv(l, inp, out0, s) && !AllDone(s.threads)
    ensures exists t :: t in s.threads && Enabled(s.threads, t)
  {
    var t :| t in s.threads && !s.threads[t].Done?;
    if !Enabled(s.threads, t) {
      var u :| u in s.threads && SameBlock(t, u) && s.threads[u].Phase() < (if s.threads[t].AtSync1? then 1 else 3);
      if !Enabled(s.threads, u) {
        var v :| v in s.threads && SameBlock(u, v) && s.threads[v].Phase() < 1;
        assert Enabled(s.threads, v);
      }
    }
  }

  /** Number of steps thread state x can still take, at most. */
  function Rank<T>(x: Local<T>): nat {
    match x
    case Load(idy) => 5000 + Left(idy)
    case AtSync1 => 4000
    case Swap(idy) => 3000 + 4 * Left(idy)
    case SwapTemp(idy, _) => 2999 + 4 * Left(idy)
    case SwapBoth(idy, _, _) => 2998 + 4 * Left(idy)
    case SwapHalf(idy, _) => 2997 + 4 * Left(idy)
    case AtSync2 => 2000
    case Store(idy) => 1000 + Left(idy)
    case Done => 0
  }

  ghost function Work<T>(threads: map<Tid, Local<T>>): nat {
    Total(map t | t in threads :: Rank(threads[t]))
  }

  lemma {:induction false} StepRank<T>(l: Launch, inp: seq<T>, s: State<T>, t: Tid)
    requires Shape(l, inp, s) && t in s.threads && Enabled(s.threads, t) && InRange(t, s.threads[t])
    ensures Rank(Step(l, inp, s, t).threads[t]) < Rank(s.threads[t])
  {
  }

  lemma {:induction false} StepWork<T>(l: Launch, inp: seq<T>, s: State<T>, t: Tid)
    requires Shape(l, inp, s) && t in s.threads && Enabled(s.threads, t) && InRange(t, s.threads[t])
    ensures Work(Step(l, inp, s, t).threads) < Work(s.threads)
  {
    var s' := Step(l, inp, s, t);
    StepRank(l, inp, s, t);
    var before := map u | u in s.threads :: Rank(s.threads[u]);
    var after := map u | u in s'.threads :: Rank(s'.threads[u]);
    assert s'.threads == s.threads[t := s'.threads[t]];
    assert after == before[t := Rank(s'.threads[t])];
    TotalUpdate(before, t, Rank(s'.threads[t]));
  }

  lemma {:induction false} DoneTransposed<T>(l: Launch, inp: seq<T>, out0: seq<T>, s: State<T>)
    requires Inv(l, inp, out0, s) && AllDone(s.threads)
    ensures TransposedOver(l.size, inp, out0, s.out)
  {
    forall row, col | 0 <= row < l.size && 0 <= col < l.size
      ensures At(s.out, l.size, row, col) ==
              if Covered(l.size, row, col) then At(inp, l.size, col, row) else At(out0, l.size, row, col)
    {
      assert OutInv(l, inp, out0, s, row, col);
      assert Covered(l.size, row, col) <==> IsCell(l, Source(row, col));
    }
  }

  /** A launch in progress: the shared tiles, the program counters and the output buffer. */
  class Grid<T> {
    const l: Launch
    const idata: array<T>
    const odata: array<T>
    var tile: map<Cell, T>
    var threads: map<Tid, Local<T>>

    ghost function Snapshot(): State<T>
      reads this, odata
    {
      State(tile, odata[..], threads)
    }

    ghost predicate Good(inp: seq<T>, out0: seq<T>)
      reads this, odata, idata
    {
      idata != odata && idata[..] == inp && Inv(l, inp, out0, Snapshot())
    }

    /** `shared` is the stale content of the uninitialised tiles. */
    constructor (l: Launch, idata: array<T>, odata: array<T>, shared: map<Cell, T>)
      requires l.Valid() && odata != idata && odata.Length == idata.Length == l.size * l.size
      requires forall k :: k in shared <==> IsCell(l, k)
      ensures this.l == l && this.idata == idata && this.odata == odata
      ensures Good(idata[..], odata[..])
    {
      this.l, this.idata, this.odata := l, idata, odata;
      tile := shared;
      threads := map t | t in Threads(l) :: Load(t.ty);
      new;
      InitInv(l, idata[..], odata[..], Snapshot());
    }

    /** One step of thread t, in place. */
    method Advance(t: Tid)
      requires idata != odata && Shape(l, idata[..], Snapshot())
      requires t in threads && Enabled(threads, t) && InRange(t, threads[t])
      modifies this, odata
      ensures Snapshot() == Step(l, idata[..], old(Snapshot()), t)
    {
      match threads[t] {
        case Load(idy) =>
          if idy < TILE_DIM {
            tile := tile[Here(t, idy, t.tx) := idata[InIndex(l, t, idy)]];
            threads := threads[t := Load(idy + l.dimY)];
          } else {
            threads := threads[t := AtSync1];
          }
        case AtSync1 =>
          threads := threads[t := Swap(t.ty)];
        case Swap(idy) =>
          if idy >= TILE_DIM {
            threads := threads[t := AtSync2];
          } else if idy < t.tx {
            threads := threads[t := SwapTemp(idy, tile[Here(t, idy, t.tx)])];
          } else {
            threads := threads[t := Swap(idy + l.dimY)];
          }
        case SwapTemp(idy, temp) =>
          threads := threads[t := SwapBoth(idy, temp, tile[Here(t, t.tx, idy)])];
        case SwapBoth(idy, temp, other) =>
          tile := tile[Here(t, idy, t.tx) := other];
          threads := threads[t := SwapHalf(idy, temp)];
        case SwapHalf(idy, temp) =>
          tile := tile[Here(t, t.tx, idy) := temp];
          threads := threads[t := Swap(idy + l.dimY)];
        case AtSync2 =>
          threads := threads[t := Store(t.ty)];
        case Store(idy) =>
          if idy < TILE_DIM {
            odata[OutIndex(l, t, idy)] := tile[Here(t, idy, t.tx)];
            threads := threads[t := Store(idy + l.dimY)];
          } else {
            threads := threads[t := Done];
          }
      }
    }

    /** Runs the launch to its end. The scheduler may pick any thread that can move, in any
        order: whatever it picks, the launch ends and odata holds the transpose. */
    method TransposeLdsSwapInplace(ghost inp: seq<T>, ghost out0: seq<T>)
      requires Good(inp, out0)
      modifies this, odata
      ensures Good(inp, out0) && TransposedOver(l.size, inp, out0, odata[..])
    {
      while !AllDone(threads)
        invariant Good(inp, out0)
        decreases Work(threads)
      {
        Progress(l, inp, out0, Snapshot());
        var t :| t in threads && Enabled(threads, t);
        assert LocalInv(l, inp, t, threads[t]);
        StepInv(l, inp, out0, Snapshot(), t);
        StepWork(l, inp, Snapshot(), t);
        Advance(t);
      }
      DoneTransposed(l, inp, out0, Snapshot());
    }
  }
}
