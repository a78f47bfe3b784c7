/**
 * The playing field: a fixed grid of 20 rows by 10 columns whose cells are
 * empty or hold one colour of a five-entry palette. Row 0 is the top row.
 */
module Board {
  import opened Wrappers

  const Width: int := 10
  const Height: int := 20

  /** A colour is an index into the five-entry palette (red, blue, green, yellow, purple). */
  type Color = c: nat | c < 5

  type Cell = Option<Color>

  /** A grid coordinate, (row, column). */
  type Pos = (int, int)

  predicate IsGrid(g: seq<seq<Cell>>) {
    |g| == Height && forall r :: 0 <= r < |g| ==> |g[r]| == Width
  }

  /** Every grid is exactly Height rows of Width cells; no operation can change that. */
  type Grid = g: seq<seq<Cell>> | IsGrid(g) witness seq(20, _ => seq(10, _ => None))

  /** The grid every game starts from. */
  function EmptyGrid(): (g: Grid)
    ensures forall r, c :: 0 <= r < Height && 0 <= c < Width ==> g[r][c] == None
    ensures FilledCells(g) == {}
  {
    seq(Height, _ => seq(Width, _ => None))
  }

  predicate InBounds(p: Pos) {
    0 <= p.0 < Height && 0 <= p.1 < Width
  }

  /** True when (r, c) is on the grid and holds a colour; a coordinate off the grid reads as free. */
  predicate Occupied(g: Grid, r: int, c: int) {
    0 <= r < Height && 0 <= c < Width && g[r][c].Some?
  }

  /** The grid with cell (r, c) replaced by v. */
  function SetCell(g: Grid, r: int, c: int, v: Cell): (h: Grid)
    requires 0 <= r < Height && 0 <= c < Width
  {
    g[r := g[r][c := v]]
  }

  /** Column c read top to bottom. */
  function Column(g: Grid, c: int): (col: seq<Cell>)
    requires 0 <= c < Width
    ensures |col| == Height
    ensures forall r :: 0 <= r < Height ==> col[r] == g[r][c]
  {
    seq(Height, r requires 0 <= r < Height => g[r][c])
  }

  /** The coordinates of every cell holding a colour. */
  ghost function FilledCells(g: Grid): set<Pos> {
    set r, c | 0 <= r < Height && 0 <= c < Width && g[r][c].Some? :: (r, c)
  }

  ghost function FilledCount(g: Grid): nat {
    |FilledCells(g)|
  }

  /** Writing one cell changes that column at one row and no other column. */
  lemma SetCellColumns(g: Grid, r: int, c: int, v: Cell)
    requires 0 <= r < Height && 0 <= c < Width
    ensures Column(SetCell(g, r, c, v), c) == Column(g, c)[r := v]
    ensures forall c' :: 0 <= c' < Width && c' != c ==> Column(SetCell(g, r, c, v), c') == Column(g, c')
  {
  }

  /** Two grids that agree on every cell are equal. */
  lemma GridExt(g: Grid, h: Grid)
    requires forall r, c :: 0 <= r < Height && 0 <= c < Width ==> g[r][c] == h[r][c]
    ensures g == h
  {
    forall r | 0 <= r < Height
      ensures g[r] == h[r]
    {
      assert forall c :: 0 <= c < Width ==> g[r][c] == h[r][c];
    }
  }

  /** Two grids with the same columns are equal. */
  lemma GridFromColumns(g: Grid, h: Grid)
    requires forall c :: 0 <= c < Width ==> Column(g, c) == Column(h, c)
    ensures g == h
  {
    forall r, c | 0 <= r < Height && 0 <= c < Width
      ensures g[r][c] == h[r][c]
    {
      assert Column(g, c)[r] == Column(h, c)[r];
    }
    GridExt(g, h);
  }
}
