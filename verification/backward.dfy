/** Backward seam search: a top-down dynamic programme in which the cost of a
    cell is its own energy plus the cheapest in-bounds cell above it
    (straight up, up-left or up-right), followed by backtracking from the
    leftmost cheapest cell of the last row. */
module BackwardSearch {
  import opened Grids
  import opened Seams
  import opened CostTables

  /** The predecessor chosen for column x from the previous DP row.  Straight
      up is the first candidate, then left, then right, and a later candidate
      replaces the current one only when strictly cheaper: so straight up wins
      every tie, and left wins a tie against right. */
  function BackPick(prev: seq<real>, x: int): (k: int)
    requires 0 <= x < |prev|
    ensures 0 <= k < |prev| && x - 1 <= k <= x + 1
    ensures prev[k] <= prev[x]
    ensures 0 < x ==> prev[k] <= prev[x - 1]
    ensures x + 1 < |prev| ==> prev[k] <= prev[x + 1]
    ensures k != x ==> prev[k] < prev[x]
    ensures k == x + 1 && 0 < x ==> prev[x + 1] < prev[x - 1]
  {
    var m := if 0 < x && prev[x - 1] < prev[x] then x - 1 else x;
    if x + 1 < |prev| && prev[x + 1] < prev[m] then x + 1 else m
  }

  /** Row y of the cost table. */
  ghost function BackDP(e: seq<seq<real>>, w: nat, y: int): (row: seq<real>)
    requires Rect(e, w) && 0 <= y < |e|
    ensures |row| == w
    decreases y
  {
    if y == 0 then e[0]
    else
      var prev := BackDP(e, w, y - 1);
      seq(w, x requires 0 <= x < w => e[y][x] + prev[BackPick(prev, x)])
  }

  /** The back-pointer of cell (y, x): -1 in row 0, the chosen predecessor below. */
  ghost function BackLink(e: seq<seq<real>>, w: nat, y: int, x: int): (k: int)
    requires Rect(e, w) && 0 <= y < |e| && 0 <= x < w
    ensures y == 0 ==> k == -1
    ensures y > 0 ==> 0 <= k < w && x - 1 <= k <= x + 1
  {
    if y == 0 then -1 else BackPick(BackDP(e, w, y - 1), x)
  }

  /** The back-pointer table. */
  ghost function BackLinks(e: seq<seq<real>>, w: nat): (links: seq<seq<int>>)
    requires Rect(e, w)
    ensures |links| == |e| && ValidLinks(links, w)
  {
    seq(|e|, y requires 0 <= y < |e| => seq(w, x requires 0 <= x < w => BackLink(e, w, y, x)))
  }

  /** Entry (y, x) of the back-pointer table. */
  lemma BackLinksAt(e: seq<seq<real>>, w: nat, y: int, x: int)
    requires Rect(e, w) && 0 <= y < |e| && 0 <= x < w
    ensures BackLinks(e, w)[y][x] == BackLink(e, w, y, x)
  {
  }

  /** The whole cost table. */
  ghost function BackTable(e: seq<seq<real>>, w: nat): (dp: seq<seq<real>>)
    requires Rect(e, w)
    ensures |dp| == |e| && Rect(dp, w)
  {
    seq(|e|, y requires 0 <= y < |e| => BackDP(e, w, y))
  }

  /** A path starts with the energy of its row-0 pixel... */
  ghost function EnergyBase(e: seq<seq<real>>): int -> real {
    x => if 0 < |e| && 0 <= x < |e[0]| then e[0][x] else 0.0
  }

  /** ...and every step down adds the energy of the pixel stepped onto. */
  ghost function EnergyStep(e: seq<seq<real>>): (int, int, int) -> real {
    (y, j, x) => if 0 <= y < |e| && 0 <= x < |e[y]| then e[y][x] else 0.0
  }

  /** Every step within one column is allowed. */
  ghost function AnyStep(): (int, int, int) -> bool {
    (y, j, x) => true
  }

  /** The seam the backward search returns for energy grid e of width w. */
  ghost function BackwardSeam(e: seq<seq<real>>, w: nat): seq<Point>
    requires Rect(e, w) && 1 <= |e| && 1 <= w
  {
    SeamOf(ChosenPath(BackTable(e, w), BackLinks(e, w), w))
  }

  /** The backward seam is a seam of the image. */
  lemma BackwardSeamIsSeam(e: seq<seq<real>>, w: nat)
    requires Rect(e, w) && 1 <= |e| && 1 <= w
    ensures IsSeam(BackwardSeam(e, w), |e|, w)
  {
    SeamOfPath(ChosenPath(BackTable(e, w), BackLinks(e, w), w), w);
  }

  /** Total energy of the pixels of a path, one per row from row 0. */
  ghost function PathCost(e: seq<seq<real>>, w: int, p: seq<int>): real
    requires Rect(e, w) && |p| <= |e| && IsPath(p, w)
    decreases |p|
  {
    if p == [] then 0.0 else PathCost(e, w, p[..|p| - 1]) + e[|p| - 1][p[|p| - 1]]
  }

  /** Below row 0, a cell costs its own energy plus the cost of the cell above
      its back-pointer names. */
  lemma BackRecurrence(e: seq<seq<real>>, w: nat, y: int, x: int)
    requires Rect(e, w) && 0 < y < |e| && 0 <= x < w
    ensures BackDP(e, w, y)[x] == e[y][x] + BackDP(e, w, y - 1)[BackLink(e, w, y, x)]
  {
  }

  /** ...and that predecessor is the cheapest in-bounds cell of the three above. */
  lemma BackIsMinimal(e: seq<seq<real>>, w: nat, y: int, x: int, j: int)
    requires Rect(e, w) && 0 < y < |e| && 0 <= x < w
    requires 0 <= j < w && x - 1 <= j <= x + 1
    ensures BackDP(e, w, y)[x] <= e[y][x] + BackDP(e, w, y - 1)[j]
  {
  }

  /** One cell of the tables satisfies the recurrence with its back-pointer. */
  lemma BackCellLinked(e: seq<seq<real>>, w: nat, y: int, x: int)
    requires Rect(e, w) && 0 < y < |e| && 0 <= x < w
    ensures BackTable(e, w)[y][x] == BackTable(e, w)[y - 1][BackLinks(e, w)[y][x]] + EnergyStep(e)(y, BackLinks(e, w)[y][x], x)
  {
    BackRecurrence(e, w, y, x);
  }

  /** One cell of the tables costs no more than any predecessor would give. */
  lemma BackCellMinimal(e: seq<seq<real>>, w: nat, y: int, x: int, j: int)
    requires Rect(e, w) && 0 < y < |e| && 0 <= x < w
    requires 0 <= j < w && x - 1 <= j <= x + 1
    ensures BackTable(e, w)[y][x] <= BackTable(e, w)[y - 1][j] + EnergyStep(e)(y, j, x)
  {
    BackIsMinimal(e, w, y, x, j);
  }

  /** The tables of the backward search solve the seam recurrence with the
      energy of each pixel as the cost of stepping onto it. */
  lemma BackTableSolved(e: seq<seq<real>>, w: nat)
    requires Rect(e, w)
    ensures Solved(BackTable(e, w), BackLinks(e, w), w, EnergyBase(e), EnergyStep(e), AnyStep())
  {
    var dp, links := BackTable(e, w), BackLinks(e, w);
    forall y, x | 1 <= y < |dp| && 0 <= x < w
      ensures dp[y][x] == dp[y - 1][links[y][x]] + EnergyStep(e)(y, links[y][x], x)
    {
      BackCellLinked(e, w, y, x);
    }
    forall y, x, j | 1 <= y < |dp| && 0 <= x < w && 0 <= j < w && x - 1 <= j <= x + 1
      ensures dp[y][x] <= dp[y - 1][j] + EnergyStep(e)(y, j, x)
    {
      BackCellMinimal(e, w, y, x, j);
    }
  }

  /** The energy of a path is its walk cost under the backward policy. */
  lemma {:induction false} PathCostIsWalkCost(e: seq<seq<real>>, w: int, p: seq<int>)
    requires Rect(e, w) && 1 <= |p| <= |e| && IsPath(p, w)
    ensures PathCost(e, w, p) == WalkCost(EnergyBase(e), EnergyStep(e), p)
    decreases |p|
  {
    if |p| > 1 {
      var q := p[..|p| - 1];
      PathCostIsWalkCost(e, w, q);
      assert q[..|q| - 1] == p[..|p| - 2];
    }
  }

  lemma AnyPathAllowed(p: seq<int>)
    ensures Allowed(AnyStep(), p)
  {
  }

  /** The backward seam is a seam, its energy is the smallest entry of the
      last cost row, and no seam of the image has smaller total energy. */
  lemma BackwardSeamIsOptimal(e: seq<seq<real>>, w: nat, s: seq<Point>)
    requires Rect(e, w) && 1 <= |e| && 1 <= w && IsSeam(s, |e|, w)
    ensures IsSeam(BackwardSeam(e, w), |e|, w)
    ensures PathCost(e, w, Columns(BackwardSeam(e, w))) == BackDP(e, w, |e| - 1)[LeftmostMin(BackDP(e, w, |e| - 1))]
    ensures PathCost(e, w, Columns(BackwardSeam(e, w))) <= PathCost(e, w, Columns(s))
  {
    var dp, links := BackTable(e, w), BackLinks(e, w);
    var p := ChosenPath(dp, links, w);
    SeamOfPath(p, w);
    ColumnsOfSeam(s, |e|, w);
    BackTableSolved(e, w);
    AnyPathAllowed(Columns(s));
    ChosenPathCost(dp, links, w, EnergyBase(e), EnergyStep(e), AnyStep());
    ChosenPathIsCheapest(dp, links, w, EnergyBase(e), EnergyStep(e), AnyStep(), Columns(s));
    PathCostIsWalkCost(e, w, p);
    PathCostIsWalkCost(e, w, Columns(s));
  }

  /** Row y of both tables, once row y - 1 is known: the new cost row and the
      back-pointer row are exactly the ones the specification defines. */
  lemma BackRowIs(e: seq<seq<real>>, w: nat, y: int, row: seq<real>, idx: seq<int>)
    requires Rect(e, w) && 0 < y < |e| && |row| == w && |idx| == w
    requires forall j :: 0 <= j < w ==>
               idx[j] == BackPick(BackDP(e, w, y - 1), j) && row[j] == e[y][j] + BackDP(e, w, y - 1)[idx[j]]
    ensures row == BackTable(e, w)[y] && idx == BackLinks(e, w)[y]
  {
  }

  /** One row of the programme: for each column, straight up is the first
      candidate, then the offsets -1 and +1 in that order, each replacing the
      current choice only when strictly cheaper. */
  method FillBackRow(prev: seq<real>, cur: seq<real>) returns (row: seq<real>, idx: seq<int>)
    requires |prev| == |cur|
    ensures |row| == |cur| && |idx| == |cur|
    ensures forall j :: 0 <= j < |cur| ==> idx[j] == BackPick(prev, j) && row[j] == cur[j] + prev[idx[j]]
  {
    var w := |cur|;
    row, idx := [], [];
    var x := 0;
    while x < w
      invariant 0 <= x <= w && |row| == x && |idx| == x
      invariant forall j :: 0 <= j < x ==> idx[j] == BackPick(prev, j) && row[j] == cur[j] + prev[idx[j]]
    {
      var v := cur[x];
      var minIdx := x;
      var minVal := prev[x] + v;
      var nx := x - 1;
      if 0 <= nx < w {
        var newVal := prev[nx] + v;
        if newVal < minVal {
          minVal, minIdx := newVal, nx;
        }
      }
      nx := x + 1;
      if 0 <= nx < w {
        var newVal := prev[nx] + v;
        if newVal < minVal {
          minVal, minIdx := newVal, nx;
        }
      }
      row := row + [minVal];
      idx := idx + [minIdx];
      x := x + 1;
    }
  }

  /** Row 0 of the cost table is the energy of row 0, and row 0 of the
      back-pointer table points nowhere. */
  lemma BackFirstRows(e: seq<seq<real>>, w: nat)
    requires Rect(e, w) && 1 <= |e| && 1 <= w
    ensures BackTable(e, w)[..1] == [e[0]]
    ensures BackLinks(e, w)[..1] == [seq(w, x => -1)]
  {
    var links := BackLinks(e, w);
    forall x | 0 <= x < w
      ensures links[0][x] == -1
    {
      BackLinksAt(e, w, 0, x);
    }
    assert links[0] == seq(w, x => -1);
  }

  /** Row y of both tables, filled from row y - 1 of the cost table. */
  method NextBackRow(e: seq<seq<real>>, w: nat, y: int, prev: seq<real>) returns (row: seq<real>, idx: seq<int>)
    requires Rect(e, w) && 0 < y < |e| && prev == BackTable(e, w)[y - 1]
    ensures row == BackTable(e, w)[y] && idx == BackLinks(e, w)[y]
  {
    row, idx := FillBackRow(prev, e[y]);
    BackRowIs(e, w, y, row, idx);
  }

  /** The search as the source runs it: fills the cost and back-pointer tables
      row by row, picks the leftmost cheapest end and backtracks. */
  method FindBackwardSeam(energy: seq<seq<real>>, w: nat) returns (seam: seq<Point>)
    requires Rect(energy, w) && 1 <= |energy| && 1 <= w
    ensures seam == BackwardSeam(energy, w)
    ensures IsSeam(seam, |energy|, w)
  {
    var h := |energy|;
    var dp: seq<seq<real>> := [energy[0]];
    var dpIdx: seq<seq<int>> := [seq(w, x => -1)];
    ghost var table, links := BackTable(energy, w), BackLinks(energy, w);
    BackFirstRows(energy, w);
    var y := 1;
    while y < h
      invariant 1 <= y <= h
      invariant dp == table[..y] && dpIdx == links[..y]
    {
      var row, idx := NextBackRow(energy, w, y, dp[y - 1]);
      dp := dp + [row];
      dpIdx := dpIdx + [idx];
      y := y + 1;
    }
    assert dp == table && dpIdx == links;
    var end := LeftmostMinimum(dp[|dp| - 1]);
    seam := Backtrack(dpIdx, w, end);
    ChosenPathFromEnd(dp, dpIdx, w, end);
  }
}
