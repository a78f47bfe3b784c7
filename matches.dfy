/**
 * Match detection: the cells in vertical or horizontal runs of three or more
 * equal colours, and the blast zone, which adds every coloured 4-neighbour of
 * such a cell whatever its colour.
 */
module Matches {
  import opened Board
  import opened Runs

  /** Cell (r, c) lies in a vertical or a horizontal run of at least three equal colours. */
  ghost predicate Matched(g: Grid, r: int, c: int) {
    0 <= r < Height && 0 <= c < Width && (InRun(Column(g, c), r) || InRun(g[r], c))
  }

  ghost function MatchedCells(g: Grid): set<Pos> {
    set r, c | 0 <= r < Height && 0 <= c < Width && Matched(g, r, c) :: (r, c)
  }

  /** Scans every column top to bottom for triples and marks each found run to its end. */
  method FindVerticalRuns(g: Grid, acc: set<Pos>) returns (toClear: set<Pos>)
    ensures forall r, c :: (r, c) in toClear <==>
      (r, c) in acc || (0 <= r < Height && 0 <= c < Width && InRun(Column(g, c), r))
  {
    toClear := acc;
    for x := 0 to Width
      invariant forall r, c :: (r, c) in toClear <==>
        (r, c) in acc || (0 <= r < Height && 0 <= c < x && InRun(Column(g, c), r))
    {
      ghost var col := Column(g, x);
      for y := 0 to Height - 2
        invariant forall r, c :: (r, c) in toClear <==>
          (r, c) in acc || (0 <= r < Height && 0 <= c < x && InRun(Column(g, c), r)) ||
          (0 <= r < Height && c == x && Scanned(col, y, r))
      {
        var color := g[y][x];
        if color.Some? && g[y + 1][x] == color && g[y + 2][x] == color {
          var i := y;
          while i < Height && g[i][x] == color
            invariant y <= i <= Height
            invariant forall k :: y <= k < i ==> g[k][x] == color
            invariant forall r, c :: (r, c) in toClear <==>
              (r, c) in acc || (0 <= r < Height && 0 <= c < x && InRun(Column(g, c), r)) ||
              (0 <= r < Height && c == x && (Scanned(col, y, r) || y <= r < i))
          {
            toClear := toClear + {(i, x)};
            i := i + 1;
          }
          ScanHit(col, y, i);
        } else {
          ScanMiss(col, y);
        }
      }
      ScanComplete(col);
    }
  }

  /** Scans every row left to right for triples and marks each found run to its end. */
  method FindHorizontalRuns(g: Grid, acc: set<Pos>) returns (toClear: set<Pos>)
    ensures forall r, c :: (r, c) in toClear <==>
      (r, c) in acc || (0 <= r < Height && 0 <= c < Width && InRun(g[r], c))
  {
    toClear := acc;
    for y := 0 to Height
      invariant forall r, c :: (r, c) in toClear <==>
        (r, c) in acc || (0 <= r < y && 0 <= c < Width && InRun(g[r], c))
    {
      ghost var row := g[y];
      for x := 0 to Width - 2
        invariant forall r, c :: (r, c) in toClear <==>
          (r, c) in acc || (0 <= r < y && 0 <= c < Width && InRun(g[r], c)) ||
          (r == y && 0 <= c < Width && Scanned(row, x, c))
      {
        var color := g[y][x];
        if color.Some? && g[y][x + 1] == color && g[y][x + 2] == color {
          var i := x;
          while i < Width && g[y][i] == color
            invariant x <= i <= Width
            invariant forall k :: x <= k < i ==> g[y][k] == color
            invariant forall r, c :: (r, c) in toClear <==>
              (r, c) in acc || (0 <= r < y && 0 <= c < Width && InRun(g[r], c)) ||
              (r == y && 0 <= c < Width && (Scanned(row, x, c) || x <= c < i))
          {
            toClear := toClear + {(y, i)};
            i := i + 1;
          }
          ScanHit(row, x, i);
        } else {
          ScanMiss(row, x);
        }
      }
      ScanComplete(row);
    }
  }

  /** The run detector: both scans into one set. */
  method FindMatches(g: Grid) returns (toClear: set<Pos>)
    ensures toClear == MatchedCells(g)
  {
    toClear := FindVerticalRuns(g, {});
    toClear := FindHorizontalRuns(g, toClear);
    assert forall p :: p in toClear <==> p in MatchedCells(g) by {
      forall p
        ensures p in toClear <==> p in MatchedCells(g)
      {
        var r, c := p.0, p.1;
        assert p == (r, c);
        if p in toClear {
          assert Matched(g, r, c);
        }
        if p in MatchedCells(g) {
          assert Matched(g, r, c);
        }
      }
    }
  }

  /** One of the four orthogonal neighbours of p is in zone. */
  predicate TouchesAny(p: Pos, zone: set<Pos>) {
    (p.0 - 1, p.1) in zone || (p.0 + 1, p.1) in zone || (p.0, p.1 - 1) in zone || (p.0, p.1 + 1) in zone
  }

  /** The run cells plus every on-grid, coloured 4-neighbour of one of them. */
  ghost function BlastZone(g: Grid, toClear: set<Pos>): set<Pos> {
    toClear + set r, c | 0 <= r < Height && 0 <= c < Width && g[r][c].Some? && TouchesAny((r, c), toClear) :: (r, c)
  }

  /** Grows the run cells by one ring: for each run cell, adds each of its four neighbours that is on the grid and coloured. */
  method ExpandBlast(g: Grid, toClear: set<Pos>) returns (blast: set<Pos>)
    ensures blast == BlastZone(g, toClear)
  {
    blast := toClear;
    var pending := toClear;
    while pending != {}
      invariant pending <= toClear
      invariant forall r, c :: (r, c) in blast <==>
        (r, c) in toClear || (0 <= r < Height && 0 <= c < Width && g[r][c].Some? && TouchesAny((r, c), toClear - pending))
      decreases pending
    {
      var p :| p in pending;
      var y, x := p.0, p.1;
      var around := [(y - 1, x), (y + 1, x), (y, x - 1), (y, x + 1)];
      ghost var before := blast;
      for j := 0 to |around|
        invariant forall r, c :: (r, c) in blast <==>
          (r, c) in before || ((r, c) in around[..j] && 0 <= r < Height && 0 <= c < Width && g[r][c].Some?)
      {
        var r, c := around[j].0, around[j].1;
        assert around[..j + 1] == around[..j] + [(r, c)];
        if 0 <= r < Height && 0 <= c < Width && g[r][c].Some? {
          blast := blast + {(r, c)};
        }
      }
      assert around[..4] == around;
      assert forall r, c :: TouchesAny((r, c), toClear - (pending - {p})) <==>
        TouchesAny((r, c), toClear - pending) || (r, c) in around;
      pending := pending - {p};
    }
    assert forall q :: q in blast <==> q in BlastZone(g, toClear) by {
      forall q
        ensures q in blast <==> q in BlastZone(g, toClear)
      {
        var r, c := q.0, q.1;
        assert q == (r, c);
      }
    }
  }

  /** Every run cell is on the grid and coloured. */
  lemma MatchedAreFilled(g: Grid)
    ensures MatchedCells(g) <= FilledCells(g)
  {
  }

  /** The blast zone holds the run cells, and every blast cell is on the grid and coloured. */
  lemma BlastInFilled(g: Grid)
    ensures MatchedCells(g) <= BlastZone(g, MatchedCells(g)) <= FilledCells(g)
  {
    MatchedAreFilled(g);
  }

  /** A grid with any match has at least three matched cells. */
  lemma AtLeastThreeMatched(g: Grid)
    requires MatchedCells(g) != {}
    ensures |MatchedCells(g)| >= 3
  {
    var p :| p in MatchedCells(g);
    var r, c := p.0, p.1;
    assert Matched(g, r, c);
    var three := ThreeAround(g, r, c);
    SubsetCard(three, MatchedCells(g));
  }

  /** Three distinct matched cells from the run through a matched cell. */
  lemma ThreeAround(g: Grid, r: int, c: int) returns (three: set<Pos>)
    requires Matched(g, r, c)
    ensures |three| == 3 && three <= MatchedCells(g)
  {
    if InRun(Column(g, c), r) {
      three := VerticalThree(g, r, c);
    } else {
      three := HorizontalThree(g, r, c);
    }
  }

  lemma VerticalThree(g: Grid, r: int, c: int) returns (three: set<Pos>)
    requires 0 <= r < Height && 0 <= c < Width && InRun(Column(g, c), r)
    ensures |three| == 3 && three <= MatchedCells(g)
  {
    var col := Column(g, c);
    RunHasThree(col, r);
    var a := RunStart(col, r);
    InMatched(g, a, c);
    InMatched(g, a + 1, c);
    InMatched(g, a + 2, c);
    three := {(a, c), (a + 1, c), (a + 2, c)};
    ThreeDistinct((a, c), (a + 1, c), (a + 2, c));
  }

  lemma HorizontalThree(g: Grid, r: int, c: int) returns (three: set<Pos>)
    requires 0 <= r < Height && 0 <= c < Width && InRun(g[r], c)
    ensures |three| == 3 && three <= MatchedCells(g)
  {
    var row := g[r];
    RunHasThree(row, c);
    var a := RunStart(row, c);
    InMatched(g, r, a);
    InMatched(g, r, a + 1);
    InMatched(g, r, a + 2);
    three := {(r, a), (r, a + 1), (r, a + 2)};
    ThreeDistinct((r, a), (r, a + 1), (r, a + 2));
  }

  lemma InMatched(g: Grid, r: int, c: int)
    requires Matched(g, r, c)
    ensures (r, c) in MatchedCells(g)
  {
  }

  lemma ThreeDistinct(x: Pos, y: Pos, z: Pos)
    requires x != y && y != z && x != z
    ensures |{x, y, z}| == 3
  {
  }

  lemma SubsetCard(a: set<Pos>, b: set<Pos>)
    requires a <= b
    ensures |a| <= |b|
  {
    assert b == a + (b - a);
  }
}
