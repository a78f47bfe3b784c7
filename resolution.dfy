/**
 * Match resolution: one pass finds the runs, grows them into the blast zone,
 * scores 10 points per blast cell, empties the zone and lets every column
 * fall; passes repeat (the chain reaction) until a pass finds no run.
 */
module Resolution {
  import opened Board
  import opened Matches
  import opened Collapse

  /** Points scored per cleared cell. */
  const PointsPerCell: nat := 10

  /** The blast zone of a pass over g. */
  ghost function PassZone(g: Grid): set<Pos> {
    BlastZone(g, MatchedCells(g))
  }

  /** The grid after one pass over g: zone emptied, columns fallen. */
  ghost function AfterPass(g: Grid): Grid {
    Fallen(Cleared(g, PassZone(g)))
  }

  /**
   * A pass that finds a match removes exactly its blast zone, which holds at
   * least three coloured cells, so the number of coloured cells strictly falls.
   */
  lemma PassShrinks(g: Grid)
    requires MatchedCells(g) != {}
    ensures |PassZone(g)| >= 3
    ensures FilledCount(AfterPass(g)) == FilledCount(g) - |PassZone(g)|
    ensures FilledCount(AfterPass(g)) <= FilledCount(g) - 3
  {
    BlastInFilled(g);
    AtLeastThreeMatched(g);
    SubsetCard(MatchedCells(g), PassZone(g));
    ClearedCells(g, PassZone(g));
    FallenKeepsCount(Cleared(g, PassZone(g)));
  }

  /**
   * The chain reaction as a whole: the grid it ends on and the points it scores.
   * It ends on a grid without runs, and it scores 10 points for every coloured
   * cell it removed.
   */
  ghost function Resolve(g: Grid): (res: (Grid, nat))
    ensures MatchedCells(res.0) == {}
    ensures FilledCount(res.0) <= FilledCount(g)
    ensures res.1 == PointsPerCell * (FilledCount(g) - FilledCount(res.0))
    decreases FilledCount(g)
  {
    if MatchedCells(g) == {} then
      (g, 0)
    else
      PassShrinks(g);
      var rest := Resolve(AfterPass(g));
      (rest.0, PointsPerCell * |PassZone(g)| + rest.1)
  }

  /** A matching pass followed by the chain on its result is the chain. */
  lemma ResolveUnfold(g: Grid)
    requires MatchedCells(g) != {}
    ensures Resolve(g).0 == Resolve(AfterPass(g)).0
    ensures Resolve(g).1 == PointsPerCell * |PassZone(g)| + Resolve(AfterPass(g)).1
  {
  }

  /** A grid without runs is left as it is and scores nothing. */
  lemma ResolveQuiet(g: Grid)
    requires MatchedCells(g) == {}
    ensures Resolve(g) == (g, 0)
  {
  }

  /** A grid with a run scores at least 30 points in its chain. */
  lemma ResolveScoresOnMatch(g: Grid)
    requires MatchedCells(g) != {}
    ensures Resolve(g).1 >= 3 * PointsPerCell
  {
    PassShrinks(g);
  }

  /**
   * One pass of the match check: reports whether any run exists; when one
   * does, returns the points scored and the grid after clearing and falling.
   */
  method CheckForMatches(g: Grid) returns (matched: bool, gained: nat, h: Grid)
    ensures matched <==> MatchedCells(g) != {}
    ensures !matched ==> gained == 0 && h == g
    ensures matched ==> gained == PointsPerCell * |PassZone(g)| && h == AfterPass(g)
  {
    var toClear := FindMatches(g);
    if |toClear| > 0 {
      var blast := ExpandBlast(g, toClear);
      BlastInFilled(g);
      assert forall p :: p in blast ==> InBounds(p) by {
        forall p | p in blast
          ensures InBounds(p)
        {
          assert p in FilledCells(g);
        }
      }
      gained := |blast| * PointsPerCell;
      h := ClearZone(g, blast);
      h := ApplyGravity(h);
      matched := true;
    } else {
      matched, gained, h := false, 0, g;
    }
  }

  /** Runs passes until one finds no match; the loop ends because every matching pass removes coloured cells. */
  method ResolveChain(g: Grid) returns (h: Grid, gained: nat)
    ensures h == Resolve(g).0 && gained == Resolve(g).1
  {
    h, gained := g, 0;
    ghost var finalGrid, finalPoints := Resolve(g).0, Resolve(g).1;
    var matched, points, next := CheckForMatches(h);
    while matched
      invariant matched <==> MatchedCells(h) != {}
      invariant matched ==> points == PointsPerCell * |PassZone(h)| && next == AfterPass(h)
      invariant finalGrid == Resolve(h).0 && finalPoints == gained + Resolve(h).1
      decreases FilledCount(h)
    {
      ChainStep(h);
      gained := gained + points;
      h := next;
      matched, points, next := CheckForMatches(h);
    }
    ResolveQuiet(h);
  }

  lemma ChainStep(h: Grid)
    requires MatchedCells(h) != {}
    ensures FilledCount(AfterPass(h)) < FilledCount(h)
    ensures Resolve(h).0 == Resolve(AfterPass(h)).0
    ensures Resolve(h).1 == PointsPerCell * |PassZone(h)| + Resolve(AfterPass(h)).1
  {
    PassShrinks(h);
    ResolveUnfold(h);
  }
}
