/** Launch geometry of the square transpose kernels: blocks of TILE_DIM by dimY threads. */
module Gpu {
  import opened Matrix

  datatype Launch = Launch(size: nat, dimY: nat) {
    predicate Valid() { dimY > 0 }

    /** Blocks along each axis of the launch grid. */
    function Blocks(): nat { size / TILE_DIM }
  }

  datatype Tid = Tid(blockX: nat, blockY: nat, tx: nat, ty: nat)

  /** A cell of the shared tile of one block. */
  datatype Cell = Cell(blockX: nat, blockY: nat, row: nat, col: nat)

  predicate IsThread(l: Launch, t: Tid) {
    t.blockX < l.Blocks() && t.blockY < l.Blocks() && t.tx < TILE_DIM && t.ty < l.dimY
  }

  predicate SameBlock(t: Tid, u: Tid) {
    t.blockX == u.blockX && t.blockY == u.blockY
  }

  /** Cell of the tile of t's own block. */
  function Here(t: Tid, row: nat, col: nat): Cell {
    Cell(t.blockX, t.blockY, row, col)
  }

  /** A cell of a tile that the launch can fill from the matrix. */
  predicate IsCell(l: Launch, k: Cell) {
    k.blockX < l.Blocks() && k.blockY < l.Blocks() && k.row < TILE_DIM && k.col < TILE_DIM
  }

  function Mirror(k: Cell): Cell {
    k.(row := k.col, col := k.row)
  }

  /** Element of the input that the load phase puts into cell k. */
  function Image<T>(l: Launch, inp: seq<T>, k: Cell): T
    requires |inp| == l.size * l.size && IsCell(l, k)
  {
    At(inp, l.size, k.row + k.blockY * TILE_DIM, k.blockX * TILE_DIM + k.col)
  }

  /** The one thread whose strided loops reach row k.row in column k.col of the tile. */
  function Owner(l: Launch, k: Cell): (t: Tid)
    requires l.Valid()
    ensures IsCell(l, k) ==> IsThread(l, t)
  {
    ModBounds(k.row, l.dimY);
    Tid(k.blockX, k.blockY, k.col, k.row % l.dimY)
  }

  /** Block and offset within the block of output cell (row, col). */
  function Source(row: nat, col: nat): Cell {
    Cell(row / TILE_DIM, col / TILE_DIM, row % TILE_DIM, col % TILE_DIM)
  }

  /** The threads of a grid of blocksX by blocksY blocks of dimX by dimY threads. */
  function GridThreads(blocksX: nat, blocksY: nat, dimX: nat, dimY: nat): (ts: set<Tid>)
    ensures forall t: Tid :: t in ts <==> t.blockX < blocksX && t.blockY < blocksY && t.tx < dimX && t.ty < dimY
  {
    var ts := set x, y, tx, ty | 0 <= x < blocksX && 0 <= y < blocksY && 0 <= tx < dimX && 0 <= ty < dimY
                :: Tid(x, y, tx, ty);
    assert forall t: Tid :: t.blockX < blocksX && t.blockY < blocksY && t.tx < dimX && t.ty < dimY ==>
             t == Tid(t.blockX, t.blockY, t.tx, t.ty);
    ts
  }

  function Threads(l: Launch): (ts: set<Tid>)
    ensures forall t :: t in ts <==> IsThread(l, t)
  {
    GridThreads(l.Blocks(), l.Blocks(), TILE_DIM, l.dimY)
  }

  /** Rows a strided loop at index i may still handle. */
  function Left(i: nat): nat {
    if i < TILE_DIM then TILE_DIM - i else 0
  }
}
