/** Cell states, the board's dimensions and the value view of the board. */
module Cells {

  /** The six cell states, in the order of their enumeration: empty, then five colours. */
  datatype Cell = Empty | Red | Green | Blue | Yellow | Purple

  /** The enumeration value of a cell state (csEmpty is 0). */
  function Ordinal(c: Cell): (k: int)
    ensures 0 <= k <= 5
    ensures (k == 0) <==> (c == Empty)
  {
    match c
    case Empty => 0
    case Red => 1
    case Green => 2
    case Blue => 3
    case Yellow => 4
    case Purple => 5
  }

  /** The cast of an integer in the enumeration's range to a cell state. */
  function CellOf(k: int): (c: Cell)
    requires 0 <= k <= 5
    ensures Ordinal(c) == k
    ensures (c == Empty) <==> (k == 0)
  {
    if k == 0 then Empty
    else if k == 1 then Red
    else if k == 2 then Green
    else if k == 3 then Blue
    else if k == 4 then Yellow
    else Purple
  }

  const Width := 15
  const Height := 12

  /** A board coordinate (column, row); row 0 is the top row. */
  type Pos = (int, int)

  predicate InBounds(x: int, y: int)
  {
    0 <= x < Width && 0 <= y < Height
  }

  /** The index of cell (x, y) in the flat, row-major marker arrays of the flood fill. */
  function Idx(x: int, y: int): (k: int)
    requires InBounds(x, y)
    ensures 0 <= k < Width * Height
    ensures k % Width == x && k / Width == y
  {
    y * Width + x
  }

  /** The cell a flat index stands for (i % Width, i / Width). */
  function PosOf(k: int): (p: Pos)
    requires 0 <= k < Width * Height
    ensures InBounds(p.0, p.1) && Idx(p.0, p.1) == k
  {
    (k % Width, k / Width)
  }

  /** A board as a value: a sequence of columns, each a sequence of cells from top to bottom. */
  type Grid = seq<seq<Cell>>

  /** Every column has `h` cells. */
  predicate ColumnsOfHeight(g: Grid, h: int)
  {
    forall i :: 0 <= i < |g| ==> |g[i]| == h
  }

  predicate IsGrid(g: Grid)
  {
    |g| == Width && ColumnsOfHeight(g, Height)
  }

  /** `n` empty cells. */
  function Blanks(n: nat): (s: seq<Cell>)
    ensures |s| == n && forall k :: 0 <= k < n ==> s[k] == Empty
  {
    seq(n, _ => Empty)
  }

  /** Every cell of the board is empty. */
  ghost predicate AllEmpty(g: Grid)
    requires IsGrid(g)
  {
    forall x, y :: InBounds(x, y) ==> g[x][y] == Empty
  }

  /** Every cell of the board holds a colour. */
  ghost predicate AllColoured(g: Grid)
    requires IsGrid(g)
  {
    forall x, y :: InBounds(x, y) ==> g[x][y] != Empty
  }

  /** Two grids with the same cells are the same grid. */
  lemma GridExtensionality(g: Grid, h: Grid)
    requires IsGrid(g) && IsGrid(h)
    requires forall x, y :: InBounds(x, y) ==> g[x][y] == h[x][y]
    ensures g == h
  {
    forall x | 0 <= x < Width
      ensures g[x] == h[x]
    {
      assert forall y :: 0 <= y < Height ==> g[x][y] == h[x][y];
    }
  }
}
