/**
 * Runs along one line of the grid (a column read top to bottom, or a row read
 * left to right). A cell matches when it is coloured and the maximal block of
 * equal cells around it is at least three long. The detector's scan (look for
 * a triple starting at each position, then extend to the end of the block) is
 * related to this definition by the Scan lemmas.
 */
module Runs {
  import opened Board

  /** First index of the maximal block of cells equal to s[i]. */
  function RunStart(s: seq<Cell>, i: int): (a: int)
    requires 0 <= i < |s|
    ensures 0 <= a <= i
    ensures forall k :: a <= k <= i ==> s[k] == s[i]
    ensures a == 0 || s[a - 1] != s[i]
    decreases i
  {
    if i > 0 && s[i - 1] == s[i] then RunStart(s, i - 1) else i
  }

  /** Last index of the maximal block of cells equal to s[i]. */
  function RunEnd(s: seq<Cell>, i: int): (b: int)
    requires 0 <= i < |s|
    ensures i <= b < |s|
    ensures forall k :: i <= k <= b ==> s[k] == s[i]
    ensures b == |s| - 1 || s[b + 1] != s[i]
    decreases |s| - i
  {
    if i + 1 < |s| && s[i + 1] == s[i] then RunEnd(s, i + 1) else i
  }

  /** Cell i is coloured and lies in a maximal run of three or more equal cells. */
  predicate InRun(s: seq<Cell>, i: int)
    requires 0 <= i < |s|
  {
    s[i].Some? && RunEnd(s, i) - RunStart(s, i) >= 2
  }

  /** The detector's trigger: a coloured cell at y followed by two equal cells. */
  predicate TripleAt(s: seq<Cell>, y: int) {
    0 <= y && y + 2 < |s| && s[y].Some? && s[y + 1] == s[y] && s[y + 2] == s[y]
  }

  /** Cell k is marked once the scan has tried every start position below y. */
  predicate Scanned(s: seq<Cell>, y: int, k: int)
    requires 0 <= k < |s|
  {
    InRun(s, k) && RunStart(s, k) < y
  }

  lemma {:induction false} StartUnique(s: seq<Cell>, a: int, j: int)
    requires 0 <= a <= j < |s|
    requires forall k :: a <= k <= j ==> s[k] == s[j]
    requires a == 0 || s[a - 1] != s[j]
    ensures RunStart(s, j) == a
    decreases j - a
  {
    if j > a {
      StartUnique(s, a, j - 1);
    }
  }

  lemma {:induction false} EndUnique(s: seq<Cell>, j: int, b: int)
    requires 0 <= j <= b < |s|
    requires forall k :: j <= k <= b ==> s[k] == s[j]
    requires b == |s| - 1 || s[b + 1] != s[j]
    ensures RunEnd(s, j) == b
    decreases b - j
  {
    if j < b {
      EndUnique(s, j + 1, b);
    }
  }

  /** Every cell of a maximal block has that same block. */
  lemma SameRun(s: seq<Cell>, i: int, j: int)
    requires 0 <= i < |s|
    requires RunStart(s, i) <= j <= RunEnd(s, i)
    ensures RunStart(s, j) == RunStart(s, i) && RunEnd(s, j) == RunEnd(s, i)
    ensures s[j] == s[i]
  {
    SameStart(s, i, j);
    SameEnd(s, i, j);
  }

  lemma SameStart(s: seq<Cell>, i: int, j: int)
    requires 0 <= i < |s|
    requires RunStart(s, i) <= j <= RunEnd(s, i)
    ensures RunStart(s, j) == RunStart(s, i) && s[j] == s[i]
  {
    var a := RunStart(s, i);
    assert s[j] == s[i];
    assert forall k :: a <= k <= j ==> s[k] == s[j];
    StartUnique(s, a, j);
  }

  lemma SameEnd(s: seq<Cell>, i: int, j: int)
    requires 0 <= i < |s|
    requires RunStart(s, i) <= j <= RunEnd(s, i)
    ensures RunEnd(s, j) == RunEnd(s, i) && s[j] == s[i]
  {
    var b := RunEnd(s, i);
    assert s[j] == s[i];
    assert forall k :: j <= k <= b ==> s[k] == s[j];
    EndUnique(s, j, b);
  }

  lemma {:induction false} StartAtMost(s: seq<Cell>, a: int, k: int)
    requires 0 <= a <= k < |s|
    requires forall j :: a <= j <= k ==> s[j] == s[k]
    ensures RunStart(s, k) <= a
    decreases k - a
  {
    if k > a {
      StartAtMost(s, a, k - 1);
    }
  }

  lemma {:induction false} EndAtLeast(s: seq<Cell>, k: int, b: int)
    requires 0 <= k <= b < |s|
    requires forall j :: k <= j <= b ==> s[j] == s[k]
    ensures RunEnd(s, k) >= b
    decreases b - k
  {
    if k < b {
      EndAtLeast(s, k + 1, b);
    }
  }

  /** Every cell of a block of three or more equal colours matches, however long the block is. */
  lemma WholeRunMatches(s: seq<Cell>, a: int, b: int)
    requires 0 <= a && a + 2 <= b < |s| && s[a].Some?
    requires forall j :: a <= j <= b ==> s[j] == s[a]
    ensures forall k :: a <= k <= b ==> InRun(s, k)
  {
    forall k | a <= k <= b
      ensures InRun(s, k)
    {
      StartAtMost(s, a, k);
      EndAtLeast(s, k, b);
    }
  }

  /** A matching cell brings the two cells after the start of its run with it: a run has at least three cells. */
  lemma RunHasThree(s: seq<Cell>, k: int)
    requires 0 <= k < |s| && InRun(s, k)
    ensures var a := RunStart(s, k);
      a + 2 < |s| && InRun(s, a) && InRun(s, a + 1) && InRun(s, a + 2)
  {
    var a := RunStart(s, k);
    SameRun(s, k, a);
    SameRun(s, k, a + 1);
    SameRun(s, k, a + 2);
  }

  /**
   * A scan step at a triple: extending from y to the first differing cell e
   * marks exactly the cells whose run starts at y.
   */
  lemma ScanHit(s: seq<Cell>, y: int, e: int)
    requires TripleAt(s, y)
    requires y < e <= |s|
    requires forall k :: y <= k < e ==> s[k] == s[y]
    requires e == |s| || s[e] != s[y]
    ensures forall k :: 0 <= k < |s| ==> (Scanned(s, y + 1, k) <==> Scanned(s, y, k) || y <= k < e)
  {
    assert e > y + 2;
    EndUnique(s, y, e - 1);
    forall k | 0 <= k < |s|
      ensures Scanned(s, y + 1, k) <==> Scanned(s, y, k) || y <= k < e
    {
      if y <= k < e {
        SameRun(s, y, k);
      }
      if Scanned(s, y + 1, k) && RunStart(s, k) == y {
        SameRun(s, k, y);
      }
    }
  }

  /** A scan step without a triple marks nothing new. */
  lemma ScanMiss(s: seq<Cell>, y: int)
    requires 0 <= y && !TripleAt(s, y)
    ensures forall k :: 0 <= k < |s| ==> (Scanned(s, y + 1, k) <==> Scanned(s, y, k))
  {
    forall k | 0 <= k < |s| && Scanned(s, y + 1, k)
      ensures RunStart(s, k) < y
    {
      if RunStart(s, k) == y {
        SameRun(s, k, y);
        SameRun(s, k, y + 1);
        SameRun(s, k, y + 2);
      }
    }
  }

  /** Once every start position with room for a triple is tried, exactly the run cells are marked. */
  lemma ScanComplete(s: seq<Cell>)
    requires |s| >= 2
    ensures forall k :: 0 <= k < |s| ==> (Scanned(s, |s| - 2, k) <==> InRun(s, k))
  {
  }
}
