/** CostTables: what both seam searches compute, stated once.  A search fills
    a cost table `dp` and a back-pointer table `links` so that row 0 holds a
    base cost, and below it every cell holds the cheapest way to reach it
    from an allowed cell at most one column away in the row above, plus the
    cost of that step.  From that alone follow the two facts the searches
    rely on: the path found by following back-pointers costs exactly what the
    table says, and no allowed path costs less. */
module CostTables {
  import opened Grids
  import opened Seams

  /** Cost of path p: the base cost of its first column, plus, for every row
      y >= 1, the cost of stepping from column p[y-1] to column p[y]. */
  ghost function WalkCost(base: int -> real, step: (int, int, int) -> real, p: seq<int>): real
    requires |p| >= 1
    decreases |p|
  {
    if |p| == 1 then base(p[0])
    else WalkCost(base, step, p[..|p| - 1]) + step(|p| - 1, p[|p| - 2], p[|p| - 1])
  }

  /** Every step of path p is one the search may take. */
  ghost predicate Allowed(ok: (int, int, int) -> bool, p: seq<int>) {
    forall i, j :: 0 <= i && j == i + 1 < |p| ==> ok(j, p[i], p[j])
  }

  /** `dp` and `links` solve the recurrence for `base`, `step` and `ok`:
      row 0 costs `base`; below, each cell points to an allowed predecessor
      within one column, costs that predecessor plus the step, and costs no
      more than any other allowed predecessor within one column would give. */
  ghost predicate Solved(dp: seq<seq<real>>, links: seq<seq<int>>, w: int,
                         base: int -> real, step: (int, int, int) -> real, ok: (int, int, int) -> bool)
  {
    && |dp| == |links| && Rect(dp, w) && ValidLinks(links, w)
    && (forall x :: 0 <= x < w && 0 < |dp| ==> dp[0][x] == base(x))
    && (forall y, x {:trigger links[y][x]} :: 1 <= y < |dp| && 0 <= x < w ==>
          ok(y, links[y][x], x) && dp[y][x] == dp[y - 1][links[y][x]] + step(y, links[y][x], x))
    && (forall y, x, j {:trigger step(y, j, x)} :: 1 <= y < |dp| && 0 <= x < w && 0 <= j < w && x - 1 <= j <= x + 1 && ok(y, j, x) ==>
          dp[y][x] <= dp[y - 1][j] + step(y, j, x))
  }

  /** Following back-pointers from a cell gives an allowed path. */
  lemma {:induction false} TraceAllowed(dp: seq<seq<real>>, links: seq<seq<int>>, w: int,
                                        base: int -> real, step: (int, int, int) -> real, ok: (int, int, int) -> bool,
                                        y: int, x: int)
    requires Solved(dp, links, w, base, step, ok) && 0 <= y < |dp| && 0 <= x < w
    ensures Allowed(ok, Trace(links, w, y, x))
    decreases y
  {
    var p := Trace(links, w, y, x);
    if y > 0 {
      var k := links[y][x];
      var q := Trace(links, w, y - 1, k);
      TraceAllowed(dp, links, w, base, step, ok, y - 1, k);
      assert p == q + [x];
      forall i, j | 0 <= i && j == i + 1 < |p|
        ensures ok(j, p[i], p[j])
      {
        if j < y {
          assert p[i] == q[i] && p[j] == q[j];
        }
      }
    }
  }

  /** The path found by following back-pointers from a cell costs exactly the
      cost recorded for the cell. */
  lemma {:induction false} TraceCost(dp: seq<seq<real>>, links: seq<seq<int>>, w: int,
                                     base: int -> real, step: (int, int, int) -> real, ok: (int, int, int) -> bool,
                                     y: int, x: int)
    requires Solved(dp, links, w, base, step, ok) && 0 <= y < |dp| && 0 <= x < w
    ensures WalkCost(base, step, Trace(links, w, y, x)) == dp[y][x]
    decreases y
  {
    var p := Trace(links, w, y, x);
    if y > 0 {
      var k := links[y][x];
      var q := Trace(links, w, y - 1, k);
      TraceCost(dp, links, w, base, step, ok, y - 1, k);
      assert p[..y] == q;
      assert WalkCost(base, step, p) == WalkCost(base, step, q) + step(y, k, x);
    }
  }

  /** No allowed path reaching a cell costs less than the cost recorded for it. */
  lemma {:induction false} LowerBound(dp: seq<seq<real>>, links: seq<seq<int>>, w: int,
                                      base: int -> real, step: (int, int, int) -> real, ok: (int, int, int) -> bool,
                                      p: seq<int>)
    requires Solved(dp, links, w, base, step, ok)
    requires 1 <= |p| <= |dp| && IsPath(p, w) && Allowed(ok, p)
    ensures dp[|p| - 1][p[|p| - 1]] <= WalkCost(base, step, p)
    decreases |p|
  {
    var y := |p| - 1;
    if y > 0 {
      var q := p[..y];
      assert Allowed(ok, q) by {
        forall i, j | 0 <= i && j == i + 1 < |q|
          ensures ok(j, q[i], q[j])
        {
          assert q[i] == p[i] && q[j] == p[j];
        }
      }
      LowerBound(dp, links, w, base, step, ok, q);
      assert ok(y, p[y - 1], p[y]);
      assert -1 <= p[y] - p[y - 1] <= 1;
    }
  }

  /** The path a search returns: back-pointers followed up from the leftmost
      cheapest cell of the last row. */
  ghost function ChosenPath(dp: seq<seq<real>>, links: seq<seq<int>>, w: int): (p: seq<int>)
    requires |dp| == |links| && 1 <= |dp| && 1 <= w && Rect(dp, w) && ValidLinks(links, w)
    ensures |p| == |dp| && IsPath(p, w)
  {
    Trace(links, w, |dp| - 1, LeftmostMin(dp[|dp| - 1]))
  }

  /** Following back-pointers from the leftmost cheapest end of the last row
      is the chosen path. */
  lemma ChosenPathFromEnd(dp: seq<seq<real>>, links: seq<seq<int>>, w: int, end: int)
    requires |dp| == |links| && 1 <= |dp| && 1 <= w && Rect(dp, w) && ValidLinks(links, w)
    requires end == LeftmostMin(dp[|dp| - 1])
    ensures Trace(links, w, |links| - 1, end) == ChosenPath(dp, links, w)
  {
  }

  /** The chosen path takes only allowed steps. */
  lemma ChosenPathAllowed(dp: seq<seq<real>>, links: seq<seq<int>>, w: int,
                          base: int -> real, step: (int, int, int) -> real, ok: (int, int, int) -> bool)
    requires Solved(dp, links, w, base, step, ok) && 1 <= |dp| && 1 <= w
    ensures Allowed(ok, ChosenPath(dp, links, w))
  {
    TraceAllowed(dp, links, w, base, step, ok, |dp| - 1, LeftmostMin(dp[|dp| - 1]));
  }

  /** The chosen path costs the smallest entry of the last row. */
  lemma ChosenPathCost(dp: seq<seq<real>>, links: seq<seq<int>>, w: int,
                       base: int -> real, step: (int, int, int) -> real, ok: (int, int, int) -> bool)
    requires Solved(dp, links, w, base, step, ok) && 1 <= |dp| && 1 <= w
    ensures WalkCost(base, step, ChosenPath(dp, links, w)) == dp[|dp| - 1][LeftmostMin(dp[|dp| - 1])]
  {
    TraceCost(dp, links, w, base, step, ok, |dp| - 1, LeftmostMin(dp[|dp| - 1]));
  }

  /** No allowed path through every row costs less than the chosen path. */
  lemma ChosenPathIsCheapest(dp: seq<seq<real>>, links: seq<seq<int>>, w: int,
                             base: int -> real, step: (int, int, int) -> real, ok: (int, int, int) -> bool,
                             q: seq<int>)
    requires Solved(dp, links, w, base, step, ok) && 1 <= |dp| && 1 <= w
    requires |q| == |dp| && IsPath(q, w) && Allowed(ok, q)
    ensures WalkCost(base, step, ChosenPath(dp, links, w)) <= WalkCost(base, step, q)
  {
    ChosenPathCost(dp, links, w, base, step, ok);
    LowerBound(dp, links, w, base, step, ok, q);
  }
}
