/**
 * The falling piece: a one-column stack of three colours whose top cell is at
 * (y, x). Every player move builds a candidate piece and keeps it only if
 * the move validator accepts it.
 */
module Pieces {
  import opened Wrappers
  import opened Board

  /** The three colours of a piece, top to bottom. */
  type Colors = s: seq<Color> | |s| == 3 witness [0, 0, 0]

  datatype Piece = Piece(x: int, y: int, colors: Colors)

  /** A fresh piece: the spawn column Width / 2, row 0, with the given colours. */
  function NewBlock(colors: Colors): (p: Piece)
    ensures p.x == Width / 2 && p.y == 0 && p.colors == colors
  {
    Piece(Width / 2, 0, colors)
  }

  /** The same piece moved to another row. */
  function AtRow(p: Piece, row: int): Piece {
    p.(y := row)
  }

  /** The same piece moved dx columns sideways. */
  function Shifted(p: Piece, dx: int): Piece {
    p.(x := p.x + dx)
  }

  /** The rotation: colours [c0, c1, c2] become [c2, c0, c1]; position unchanged. */
  function Rotated(p: Piece): (q: Piece)
    ensures q.x == p.x && q.y == p.y
    ensures multiset(q.colors) == multiset(p.colors)
  {
    assert p.colors == [p.colors[0], p.colors[1], p.colors[2]];
    p.(colors := [p.colors[2], p.colors[0], p.colors[1]])
  }

  /** Slot i of p (row p.y + i, column p.x) is inside the side walls, above the floor and not over a coloured cell. */
  predicate SlotFree(p: Piece, g: Grid, i: int) {
    0 <= p.x < Width && p.y + i < Height && !Occupied(g, p.y + i, p.x)
  }

  /** The position the validator accepts: all three slots free. */
  predicate Fits(p: Piece, g: Grid) {
    forall i :: 0 <= i < 3 ==> SlotFree(p, g, i)
  }

  /**
   * The move validator. An absent piece is never valid; otherwise each slot is
   * checked in turn and the first bad one rejects the move. A row above the
   * grid holds nothing, so it never blocks.
   */
  method IsValidMove(block: Option<Piece>, g: Grid) returns (ok: bool)
    ensures ok <==> block.Some? && Fits(block.value, g)
    ensures ok ==> 0 <= block.value.x < Width && block.value.y + 2 < Height
  {
    if block.None? {
      return false;
    }
    var b := block.value;
    for i := 0 to |b.colors|
      invariant forall k :: 0 <= k < i ==> SlotFree(b, g, k)
    {
      var newY := b.y + i;
      var newX := b.x;
      if newX < 0 || newX >= Width || newY >= Height {
        assert !SlotFree(b, g, i);
        return false;
      }
      if 0 <= newY && g[newY][newX].Some? {
        assert !SlotFree(b, g, i);
        return false;
      }
    }
    assert SlotFree(b, g, 2);
    return true;
  }

  /** Rotation never changes whether a position is valid: only the column and rows matter. */
  lemma RotationKeepsFit(p: Piece, g: Grid)
    ensures Fits(Rotated(p), g) <==> Fits(p, g)
  {
    assert forall i :: SlotFree(Rotated(p), g, i) <==> SlotFree(p, g, i);
  }

  /** Three rotations give the piece back. */
  lemma RotateThrice(p: Piece)
    ensures Rotated(Rotated(Rotated(p))) == p
  {
    assert p.colors == [p.colors[0], p.colors[1], p.colors[2]];
  }

  /** A fresh piece fits on an empty grid. */
  lemma NewBlockFitsEmpty(colors: Colors)
    ensures Fits(NewBlock(colors), EmptyGrid())
  {
  }

  /** The spawn-time collision test: some cell under the three slots of p is coloured. */
  predicate SpawnBlocked(g: Grid, p: Piece) {
    Occupied(g, p.y, p.x) || Occupied(g, p.y + 1, p.x) || Occupied(g, p.y + 2, p.x)
  }

  /** For a piece at the spawn position, the spawn collision test is exactly the rejection by the validator. */
  lemma SpawnCheckIsValidator(g: Grid, p: Piece)
    requires p.x == Width / 2 && p.y == 0
    ensures SpawnBlocked(g, p) <==> !Fits(p, g)
  {
    if !Fits(p, g) {
      var i :| 0 <= i < 3 && !SlotFree(p, g, i);
    } else {
      assert SlotFree(p, g, 0) && SlotFree(p, g, 1) && SlotFree(p, g, 2);
    }
  }

  /** Whether placing p writes cell (r, c). */
  predicate Covers(p: Piece, r: int, c: int) {
    c == p.x && p.y <= r < p.y + 3
  }

  /** The grid with p's colours written into column p.x, rows p.y to p.y + 2; a slot below the floor is dropped. */
  function Placed(g: Grid, p: Piece): Grid
    requires 0 <= p.x < Width && 0 <= p.y
  {
    seq(Height, r requires 0 <= r < Height =>
      seq(Width, c requires 0 <= c < Width =>
        if Covers(p, r, c) then Some(p.colors[r - p.y]) else g[r][c]))
  }

  /** Writes the piece into a copy of the grid, one slot at a time. */
  method PlaceBlockOnGrid(g: Grid, p: Piece) returns (h: Grid)
    requires 0 <= p.x < Width && 0 <= p.y
    ensures forall i :: 0 <= i < 3 && p.y + i < Height ==> h[p.y + i][p.x] == Some(p.colors[i])
    ensures forall r, c :: 0 <= r < Height && 0 <= c < Width && !Covers(p, r, c) ==> h[r][c] == g[r][c]
    ensures h == Placed(g, p)
  {
    h := g;
    for i := 0 to |p.colors|
      invariant forall k :: 0 <= k < i && p.y + k < Height ==> h[p.y + k][p.x] == Some(p.colors[k])
      invariant forall r, c :: 0 <= r < Height && 0 <= c < Width && !(c == p.x && p.y <= r < p.y + i) ==> h[r][c] == g[r][c]
    {
      if p.y + i < Height {
        h := SetCell(h, p.y + i, p.x, Some(p.colors[i]));
      }
    }
    forall r, c | 0 <= r < Height && 0 <= c < Width
      ensures h[r][c] == Placed(g, p)[r][c]
    {
      if Covers(p, r, c) {
        assert h[p.y + (r - p.y)][p.x] == Some(p.colors[r - p.y]);
      }
    }
    GridExt(h, Placed(g, p));
  }

  /** Placing a piece that fits colours exactly three more cells: the three it covers, which were empty. */
  lemma PlacedFilledCells(g: Grid, p: Piece)
    requires 0 <= p.x < Width && 0 <= p.y && Fits(p, g)
    ensures FilledCells(Placed(g, p)) == FilledCells(g) + {(p.y, p.x), (p.y + 1, p.x), (p.y + 2, p.x)}
    ensures FilledCount(Placed(g, p)) == FilledCount(g) + 3
  {
    assert SlotFree(p, g, 0) && SlotFree(p, g, 1) && SlotFree(p, g, 2);
    var added := {(p.y, p.x), (p.y + 1, p.x), (p.y + 2, p.x)};
    var h := Placed(g, p);
    forall q | q in FilledCells(h)
      ensures q in FilledCells(g) + added
    {
      var r, c := q.0, q.1;
      assert q == (r, c);
    }
    forall q | q in FilledCells(g) + added
      ensures q in FilledCells(h)
    {
      var r, c := q.0, q.1;
      assert q == (r, c);
    }
    assert FilledCells(g) * added == {};
    assert |added| == 3;
  }

  /**
   * The row where a hard drop of p stops: while the position one row lower is
   * valid, keep lowering.
   */
  function LandingRow(p: Piece, g: Grid): (row: int)
    ensures row >= p.y
    ensures !Fits(AtRow(p, row + 1), g)
    decreases Height - p.y
  {
    if Fits(AtRow(p, p.y + 1), g) then
      assert SlotFree(AtRow(p, p.y + 1), g, 2);
      var row := LandingRow(AtRow(p, p.y + 1), g);
      assert AtRow(AtRow(p, p.y + 1), row + 1) == AtRow(p, row + 1);
      row
    else
      p.y
  }

  /** Every row the drop passes through on the way down is valid. */
  lemma {:induction false} LandingPath(p: Piece, g: Grid)
    ensures forall k :: p.y < k <= LandingRow(p, g) ==> Fits(AtRow(p, k), g)
    decreases Height - p.y
  {
    if Fits(AtRow(p, p.y + 1), g) {
      var q := AtRow(p, p.y + 1);
      assert SlotFree(q, g, 2);
      LandingPath(q, g);
      forall k | p.y < k <= LandingRow(p, g)
        ensures Fits(AtRow(p, k), g)
      {
        assert AtRow(q, k) == AtRow(p, k);
      }
    }
  }

  /** Below the start and down to the landing row, the next row down is valid exactly before the landing row. */
  lemma LandingIff(p: Piece, g: Grid, y: int)
    requires p.y <= y <= LandingRow(p, g)
    ensures Fits(AtRow(p, y + 1), g) <==> y < LandingRow(p, g)
  {
    LandingPath(p, g);
  }

  /** The hard-drop scan: lower a copy of p row by row while the next row down is valid. */
  method FindLandingRow(p: Piece, g: Grid) returns (finalY: int)
    ensures finalY == LandingRow(p, g)
    ensures finalY >= p.y && !Fits(AtRow(p, finalY + 1), g)
    ensures finalY > p.y || Fits(p, g) ==> Fits(AtRow(p, finalY), g)
  {
    finalY := p.y;
    var ok := IsValidMove(Some(AtRow(p, finalY + 1)), g);
    LandingIff(p, g, finalY);
    while ok
      invariant p.y <= finalY <= LandingRow(p, g)
      invariant ok <==> finalY < LandingRow(p, g)
      decreases LandingRow(p, g) - finalY
    {
      finalY := finalY + 1;
      ok := IsValidMove(Some(AtRow(p, finalY + 1)), g);
      LandingIff(p, g, finalY);
    }
    LandingPath(p, g);
    assert AtRow(p, p.y) == p;
  }

  /** A hard drop from a valid position ends at a valid position. */
  lemma LandingFits(p: Piece, g: Grid)
    requires Fits(p, g)
    ensures Fits(AtRow(p, LandingRow(p, g)), g)
  {
    var row := LandingRow(p, g);
    LandingPath(p, g);
    if row == p.y {
      assert AtRow(p, row) == p;
    }
  }

  /**
   * The grid as drawn: starting from slot i, each slot of the falling piece
   * whose cell lies on the grid is painted over it; slots off the grid are skipped.
   */
  function Painted(g: Grid, p: Piece, i: nat): (d: Grid)
    requires i <= 3
    ensures forall r, c :: 0 <= r < Height && 0 <= c < Width ==>
      d[r][c] == if c == p.x && p.y + i <= r < p.y + 3 then Some(p.colors[r - p.y]) else g[r][c]
    decreases 3 - i
  {
    if i == 3 then g
    else
      var y := p.y + i;
      var next := if 0 <= y < Height && 0 <= p.x < Width then SetCell(g, y, p.x, Some(p.colors[i])) else g;
      var d := Painted(next, p, i + 1);
      assert forall r, c :: 0 <= r < Height && 0 <= c < Width && c == p.x && r == y ==>
        d[r][c] == Some(p.colors[r - p.y]);
      d
  }

  /** The display grid: the whole piece painted over the grid. */
  function Composited(g: Grid, p: Piece): (d: Grid)
    ensures forall r, c :: 0 <= r < Height && 0 <= c < Width && !Covers(p, r, c) ==> d[r][c] == g[r][c]
    ensures forall i :: 0 <= i < 3 && 0 <= p.y + i < Height && 0 <= p.x < Width ==>
      d[p.y + i][p.x] == Some(p.colors[i])
  {
    Painted(g, p, 0)
  }

  /** What the player sees is what placing the piece writes. */
  lemma CompositedIsPlacement(g: Grid, p: Piece)
    requires 0 <= p.x < Width && 0 <= p.y
    ensures Composited(g, p) == Placed(g, p)
  {
    var d, h := Composited(g, p), Placed(g, p);
    forall r, c | 0 <= r < Height && 0 <= c < Width
      ensures d[r][c] == h[r][c]
    {
    }
    GridExt(d, h);
  }
}
