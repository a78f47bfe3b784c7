/**
 * The collapse engine: the blast zone is emptied, then every column is
 * compacted so that its coloured cells drop to the bottom, in their order.
 */
module Collapse {
  import opened Wrappers
  import opened Board

  /** The coloured cells of a line, in their order (top to bottom for a column). */
  function Stack(s: seq<Cell>): (t: seq<Cell>)
    ensures |t| <= |s|
  {
    if s == [] then [] else (if s[0].Some? then [s[0]] else []) + Stack(s[1..])
  }

  /** Only coloured cells are stacked. */
  lemma {:induction false} StackColoured(s: seq<Cell>)
    ensures forall i :: 0 <= i < |Stack(s)| ==> Stack(s)[i].Some?
  {
    if s != [] {
      StackColoured(s[1..]);
    }
  }

  function Blanks(n: nat): (t: seq<Cell>)
    ensures |t| == n && forall i :: 0 <= i < n ==> t[i] == None
  {
    seq(n, _ => None)
  }

  /** A column after gravity: its coloured cells, in order, sitting on the floor, with empty cells above them. */
  function Compact(s: seq<Cell>): (t: seq<Cell>)
    ensures |t| == |s|
  {
    Blanks(|s| - |Stack(s)|) + Stack(s)
  }

  /** No empty cell lies below a coloured one. */
  predicate Settled(s: seq<Cell>) {
    forall i, j :: 0 <= i < j < |s| && s[i].Some? ==> s[j].Some?
  }

  lemma {:induction false} StackAppend(a: seq<Cell>, b: seq<Cell>)
    ensures Stack(a + b) == Stack(a) + Stack(b)
    decreases |a|
  {
    if a == [] {
      assert a + b == b;
    } else {
      assert (a + b)[0] == a[0];
      assert (a + b)[1..] == a[1..] + b;
      StackAppend(a[1..], b);
      var head: seq<Cell> := if a[0].Some? then [a[0]] else [];
      assert Stack(a + b) == head + Stack(a[1..] + b);
      assert Stack(a) == head + Stack(a[1..]);
    }
  }

  lemma {:induction false} StackOfColoured(t: seq<Cell>)
    requires forall i :: 0 <= i < |t| ==> t[i].Some?
    ensures Stack(t) == t
    decreases |t|
  {
    if t != [] {
      StackOfColoured(t[1..]);
    }
  }

  lemma {:induction false} StackOfBlanks(n: nat)
    ensures Stack(Blanks(n)) == []
    decreases n
  {
    if n > 0 {
      assert Blanks(n)[1..] == Blanks(n - 1);
      StackOfBlanks(n - 1);
    }
  }

  /**
   * Compaction is what gravity promises: the column is settled, and it holds
   * the same coloured cells in the same order (so the same number of them).
   */
  lemma CompactSettles(s: seq<Cell>)
    ensures Settled(Compact(s))
    ensures Stack(Compact(s)) == Stack(s)
    ensures |Stack(Compact(s))| == |Stack(s)|
  {
    var n := |s| - |Stack(s)|;
    StackAppend(Blanks(n), Stack(s));
    StackOfBlanks(n);
    StackColoured(s);
    StackOfColoured(Stack(s));
    var t := Compact(s);
    forall i, j | 0 <= i < j < |t| && t[i].Some?
      ensures t[j].Some?
    {
      assert i >= n;
      assert t[j] == Stack(s)[j - n];
    }
  }

  /** A settled column is already compact. */
  lemma {:induction false} SettledIsCompact(t: seq<Cell>)
    requires Settled(t)
    ensures Compact(t) == t
    decreases |t|
  {
    if t == [] {
    } else if t[0].Some? {
      StackOfColoured(t);
    } else {
      assert Settled(t[1..]);
      SettledIsCompact(t[1..]);
      assert t == [t[0]] + t[1..];
      assert Blanks(|t| - |Stack(t)|) == [None] + Blanks(|t[1..]| - |Stack(t[1..])|);
    }
  }

  /**
   * Compaction is the only settled arrangement of a column's coloured cells:
   * any settled column of the same height with the same cells in the same
   * order is the compacted one.
   */
  lemma CompactUnique(s: seq<Cell>, t: seq<Cell>)
    requires |t| == |s| && Settled(t) && Stack(t) == Stack(s)
    ensures t == Compact(s)
  {
    SettledIsCompact(t);
  }

  /** Compacting twice is compacting once. */
  lemma CompactIdempotent(s: seq<Cell>)
    ensures Compact(Compact(s)) == Compact(s)
  {
    CompactSettles(s);
    SettledIsCompact(Compact(s));
  }

  /** The grid after gravity: every column compacted on its own. */
  function Fallen(g: Grid): (h: Grid)
  {
    seq(Height, r requires 0 <= r < Height =>
      seq(Width, c requires 0 <= c < Width => Compact(Column(g, c))[r]))
  }

  /** Columns do not interact: each column of the fallen grid is the compacted column. */
  lemma FallenColumns(g: Grid)
    ensures forall c :: 0 <= c < Width ==> Column(Fallen(g), c) == Compact(Column(g, c))
  {
    forall c | 0 <= c < Width
      ensures Column(Fallen(g), c) == Compact(Column(g, c))
    {
      assert forall r :: 0 <= r < Height ==> Column(Fallen(g), c)[r] == Compact(Column(g, c))[r];
    }
  }

  /** An empty cell at the head of a line adds nothing to its stack. */
  lemma StackSkipsBlank(col: seq<Cell>, y: int)
    requires 0 <= y < |col| && col[y] == None
    ensures Stack(col[y..]) == Stack(col[y + 1..])
  {
    assert col[y..][1..] == col[y + 1..];
  }

  lemma SplitAt(s: seq<Cell>, y: int)
    requires 0 <= y < |s|
    ensures s[y..] == [s[y]] + s[y + 1..]
  {
  }

  /** Two lines that agree up to row y agree before it and at it. */
  lemma PrefixStep(a: seq<Cell>, b: seq<Cell>, y: int)
    requires 0 <= y < |a| && y < |b| && a[..y + 1] == b[..y + 1]
    ensures a[..y] == b[..y] && a[y] == b[y]
  {
    assert a[..y] == a[..y + 1][..y];
    assert b[..y] == b[..y + 1][..y];
    assert a[y] == a[..y + 1][y];
    assert b[y] == b[..y + 1][y];
  }

  /** Gravity step over an empty cell: one more empty cell to fall into. */
  lemma FallOverEmpty(colh: seq<Cell>, col: seq<Cell>, y: int, e: nat)
    requires 0 <= y < |col| == |colh|
    requires colh[..y + 1] == col[..y + 1]
    requires colh[y + 1..] == Blanks(e) + Stack(col[y + 1..])
    requires colh[y] == None
    ensures colh[..y] == col[..y]
    ensures colh[y..] == Blanks(e + 1) + Stack(col[y..])
  {
    PrefixStep(colh, col, y);
    StackSkipsBlank(col, y);
    GapGrows(colh, y, e, Stack(col[y + 1..]));
  }

  /** An empty cell on top of e empty cells and a stack makes e + 1 empty cells on that stack. */
  lemma GapGrows(colh: seq<Cell>, y: int, e: nat, rest: seq<Cell>)
    requires 0 <= y < |colh| && colh[y] == None
    requires colh[y + 1..] == Blanks(e) + rest
    ensures colh[y..] == Blanks(e + 1) + rest
  {
    var want := Blanks(e + 1) + rest;
    assert |colh[y..]| == |want|;
    forall i | 0 <= i < |want|
      ensures colh[y..][i] == want[i]
    {
      if i > 0 {
        assert colh[y..][i] == colh[y + 1..][i - 1];
      }
    }
  }

  /** Gravity step over a coloured cell with nothing to fall into. */
  lemma FallStays(colh: seq<Cell>, col: seq<Cell>, y: int)
    requires 0 <= y < |col| == |colh|
    requires colh[..y + 1] == col[..y + 1]
    requires colh[y + 1..] == Blanks(0) + Stack(col[y + 1..])
    requires colh[y].Some?
    ensures colh[..y] == col[..y]
    ensures colh[y..] == Blanks(0) + Stack(col[y..])
  {
    PrefixStep(colh, col, y);
    SplitAt(col, y);
    SplitAt(colh, y);
  }

  /** Gravity step over a coloured cell with e empty cells below it: the cell moves down by e. */
  lemma FallMoves(colh: seq<Cell>, col: seq<Cell>, y: int, e: nat)
    requires 0 <= y && y + e < |col| == |colh| && e > 0
    requires colh[..y + 1] == col[..y + 1]
    requires colh[y + 1..] == Blanks(e) + Stack(col[y + 1..])
    requires colh[y].Some?
    ensures colh[y + e := colh[y]][y := None][..y] == col[..y]
    ensures colh[y + e := colh[y]][y := None][y..] == Blanks(e) + Stack(col[y..])
  {
    var v := colh[y];
    assert v == colh[..y + 1][y] == col[y];
    assert col[y..] == [col[y]] + col[y + 1..];
    var t := colh[y + e := v][y := None];
    assert t[..y] == col[..y] by {
      assert forall i :: 0 <= i < y ==> t[i] == colh[..y + 1][i];
    }
    var want := Blanks(e) + Stack(col[y..]);
    assert Stack(col[y..]) == [v] + Stack(col[y + 1..]);
    forall i | 0 <= i < |t| - y
      ensures t[y..][i] == want[i]
    {
      if i == 0 {
      } else if i < e {
        assert t[y + i] == colh[y + 1..][i - 1];
      } else if i == e {
      } else {
        assert t[y + i] == colh[y + 1..][i - 1];
      }
    }
  }

  /**
   * The gravity loop: each column is walked from the floor up, counting the
   * empty cells seen so far and moving each coloured cell down by that count.
   */
  method ApplyGravity(g: Grid) returns (h: Grid)
    ensures forall c :: 0 <= c < Width ==> Column(h, c) == Compact(Column(g, c))
    ensures h == Fallen(g)
  {
    h := g;
    for x := 0 to Width
      invariant forall c :: 0 <= c < x ==> Column(h, c) == Compact(Column(g, c))
      invariant forall c :: x <= c < Width ==> Column(h, c) == Column(g, c)
    {
      ghost var col := Column(g, x);
      ghost var before := h;
      var emptySpaces := 0;
      var y := Height - 1;
      while y >= 0
        invariant -1 <= y < Height
        invariant Column(h, x)[..y + 1] == col[..y + 1]
        invariant Column(h, x)[y + 1..] == Blanks(emptySpaces) + Stack(col[y + 1..])
        invariant forall c :: 0 <= c < Width && c != x ==> Column(h, c) == Column(before, c)
      {
        ghost var colh := Column(h, x);
        if h[y][x].None? {
          FallOverEmpty(colh, col, y, emptySpaces);
          emptySpaces := emptySpaces + 1;
        } else if emptySpaces > 0 {
          assert |colh[y + 1..]| == Height - 1 - y;
          FallMoves(colh, col, y, emptySpaces);
          var v := h[y][x];
          SetCellColumns(h, y + emptySpaces, x, v);
          h := SetCell(h, y + emptySpaces, x, v);
          SetCellColumns(h, y, x, None);
          h := SetCell(h, y, x, None);
        } else {
          FallStays(colh, col, y);
        }
        y := y - 1;
      }
      assert Column(h, x) == Column(h, x)[0..];
      assert col == col[0..];
    }
    FallenColumns(g);
    GridFromColumns(h, Fallen(g));
  }

  /** The grid with every cell of zone emptied. */
  function Cleared(g: Grid, zone: set<Pos>): Grid {
    seq(Height, r requires 0 <= r < Height =>
      seq(Width, c requires 0 <= c < Width => if (r, c) in zone then None else g[r][c]))
  }

  /** Empties the blast zone one cell at a time. */
  method ClearZone(g: Grid, zone: set<Pos>) returns (h: Grid)
    requires forall p :: p in zone ==> InBounds(p)
    ensures h == Cleared(g, zone)
  {
    h := g;
    var pending := zone;
    while pending != {}
      invariant pending <= zone
      invariant forall r, c :: 0 <= r < Height && 0 <= c < Width ==>
        h[r][c] == if (r, c) in zone - pending then None else g[r][c]
      decreases pending
    {
      var p :| p in pending;
      h := SetCell(h, p.0, p.1, None);
      pending := pending - {p};
    }
    GridExt(h, Cleared(g, zone));
  }

  /** Clearing removes exactly the zone's cells from the coloured ones. */
  lemma ClearedCells(g: Grid, zone: set<Pos>)
    ensures FilledCells(Cleared(g, zone)) == FilledCells(g) - zone
    ensures zone <= FilledCells(g) ==> FilledCount(Cleared(g, zone)) == FilledCount(g) - |zone|
  {
    var before, after := FilledCells(g), FilledCells(Cleared(g, zone));
    forall p
      ensures p in after <==> p in before - zone
    {
      var r, c := p.0, p.1;
      assert p == (r, c);
    }
    if zone <= before {
      assert before == after + zone;
      assert after * zone == {};
    }
  }

  /** The coloured cells of column c from row lo down. */
  ghost function ColumnCells(g: Grid, c: int, lo: int): set<Pos>
    requires 0 <= c < Width && 0 <= lo <= Height
  {
    set r | lo <= r < Height && g[r][c].Some? :: (r, c)
  }

  lemma {:induction false} ColumnCellsCount(g: Grid, c: int, lo: int)
    requires 0 <= c < Width && 0 <= lo <= Height
    ensures |ColumnCells(g, c, lo)| == |Stack(Column(g, c)[lo..])|
    decreases Height - lo
  {
    if lo == Height {
      assert ColumnCells(g, c, lo) == {};
    } else {
      ColumnCellsCount(g, c, lo + 1);
      var col := Column(g, c);
      assert col[lo..][1..] == col[lo + 1..];
      if g[lo][c].Some? {
        assert ColumnCells(g, c, lo) == ColumnCells(g, c, lo + 1) + {(lo, c)};
      } else {
        assert ColumnCells(g, c, lo) == ColumnCells(g, c, lo + 1);
      }
    }
  }

  /** The coloured cells in columns k and to the right of it. */
  ghost function CellsFrom(g: Grid, k: int): set<Pos>
    requires 0 <= k <= Width
  {
    set r, c | 0 <= r < Height && k <= c < Width && g[r][c].Some? :: (r, c)
  }

  /** The number of coloured cells counted column by column, from column k on. */
  function ColumnTotals(g: Grid, k: int): nat
    requires 0 <= k <= Width
    decreases Width - k
  {
    if k == Width then 0 else |Stack(Column(g, k))| + ColumnTotals(g, k + 1)
  }

  lemma {:induction false} CellsFromCount(g: Grid, k: int)
    requires 0 <= k <= Width
    ensures |CellsFrom(g, k)| == ColumnTotals(g, k)
    decreases Width - k
  {
    if k == Width {
      assert CellsFrom(g, k) == {};
    } else {
      CellsFromCount(g, k + 1);
      ColumnCellsCount(g, k, 0);
      assert Column(g, k)[0..] == Column(g, k);
      CellsFromSplit(g, k);
    }
  }

  /** The cells from column k on are column k's cells and, apart from them, those from column k + 1 on. */
  lemma CellsFromSplit(g: Grid, k: int)
    requires 0 <= k < Width
    ensures CellsFrom(g, k) == ColumnCells(g, k, 0) + CellsFrom(g, k + 1)
    ensures ColumnCells(g, k, 0) * CellsFrom(g, k + 1) == {}
  {
    forall p | p in CellsFrom(g, k)
      ensures p in ColumnCells(g, k, 0) + CellsFrom(g, k + 1)
    {
      var r, c := p.0, p.1;
      assert p == (r, c);
    }
    forall p | p in ColumnCells(g, k, 0) + CellsFrom(g, k + 1)
      ensures p in CellsFrom(g, k)
    {
      var r, c := p.0, p.1;
      assert p == (r, c);
    }
  }

  /** The number of coloured cells is the sum of the columns' counts. */
  lemma CountByColumns(g: Grid)
    ensures FilledCount(g) == ColumnTotals(g, 0)
  {
    CellsFromCount(g, 0);
    assert FilledCells(g) == CellsFrom(g, 0);
  }

  lemma {:induction false} FallenTotals(g: Grid, k: int)
    requires 0 <= k <= Width
    ensures ColumnTotals(Fallen(g), k) == ColumnTotals(g, k)
    decreases Width - k
  {
    if k < Width {
      FallenTotals(g, k + 1);
      FallenColumns(g);
      CompactSettles(Column(g, k));
    }
  }

  /** Gravity neither creates nor destroys coloured cells. */
  lemma FallenKeepsCount(g: Grid)
    ensures FilledCount(Fallen(g)) == FilledCount(g)
  {
    CountByColumns(g);
    CountByColumns(Fallen(g));
    FallenTotals(g, 0);
  }
}
