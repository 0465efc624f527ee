/** Forward seam search: a "push" dynamic programme.  Row 0 costs nothing;
    every cell of row y then proposes to the up-to-three cells below it, and
    each cell below keeps the cheapest proposal it receives.  Stepping
    straight down costs the energy of the pixel stepped onto; stepping
    diagonally costs the colour difference between the pixel stepped onto
    and the pixel of the row above on the far side of the proposer (column
    x + 1 for a step from x down-left, x - 1 for a step down-right).  The end of the seam and the
    backtracking are the same as in the backward search.

    Diagonal proposals are made only from interior columns 0 < x < w - 1: at
    the borders the original reads outside the row (both the cost table and
    the pixel row), so those proposals are treated as unavailable here. */
module ForwardSearch {
  import opened Pixels
  import opened Grids
  import opened Seams
  import opened CostTables

  /** Pixel rows and energy rows of the same h-by-w image. */
  ghost predicate Shaped(data: seq<seq<Pixel>>, e: seq<seq<real>>, w: int) {
    Rect(data, w) && Rect(e, w) && |e| == |data|
  }

  /** Column j of the row above may propose to column t of the row below:
      straight down always, diagonally only from an interior column. */
  predicate Available(w: int, j: int, t: int) {
    0 <= t < w && (j == t || (0 < j < w - 1 && (j == t - 1 || j == t + 1)))
  }

  /** The cost of stepping from column j of row y - 1 onto column t of row y. */
  function StepCost(data: seq<seq<Pixel>>, e: seq<seq<real>>, w: int, y: int, j: int, t: int): (c: real)
    requires Shaped(data, e, w) && 0 < y < |data| && Available(w, j, t)
    ensures j == t ==> c == e[y][t]
    ensures j != t ==> 0.0 <= c <= MaxDiff as real
    ensures j == t + 1 ==> (c == 0.0 <==> SameColour(data[y][t], data[y - 1][j + 1]))
    ensures j == t - 1 ==> (c == 0.0 <==> SameColour(data[y][t], data[y - 1][j - 1]))
  {
    if j == t then e[y][t]
    else if j == t + 1 then DiffSquared(data[y][t], data[y - 1][j + 1]) as real
    else DiffSquared(data[y][t], data[y - 1][j - 1]) as real
  }

  /** The columns of the row below that iteration x of the relaxation loop,
      as the original writes it, compares against: the left and right
      comparisons are made in every column, whatever the diagonal cost. */
  function WrittenTableReads(x: int): set<int> {
    {x - 1, x, x + 1}
  }

  /** The pixel columns of the row above that iteration x reads for the two
      diagonal costs, as written: the left cost is guarded by 0 < x alone and
      reads column x + 1; the right cost is guarded by x < w - 1 alone and
      reads column x - 1. */
  function WrittenPixelReads(w: int, x: int): set<int> {
    (if 0 < x then {x + 1} else {}) + (if x < w - 1 then {x - 1} else {})
  }

  /** As written, the border columns read outside the rows: column -1 and
      column w of the cost row below in every image, and, once the image is
      two columns wide, column w and column -1 of the pixel row above. */
  lemma WrittenReadsOutside(w: int)
    requires 1 <= w
    ensures -1 in WrittenTableReads(0) && w in WrittenTableReads(w - 1)
    ensures 2 <= w ==> w in WrittenPixelReads(w, w - 1) && -1 in WrittenPixelReads(w, 0)
  {
  }

  /** With proposals restricted to `Available` steps, every column a step
      reads lies inside the image: the column proposed from, the column
      proposed to, and for a diagonal step the pixel 2j - t of the row above
      (the one beyond the proposer) that the step cost compares the target with. */
  lemma AvailableInBounds(w: int, j: int, t: int)
    requires Available(w, j, t)
    ensures 0 <= j < w && 0 <= t < w
    ensures j != t ==> 0 <= 2 * j - t < w && (j == t + 1 || j == t - 1)
  {
  }

  /** The corrected rule keeps exactly the proposals the original makes whose
      reads all stay inside the image: a proposal from column j to column t
      is available if and only if t is one of the columns the original
      compares against, t is a column of the image, and, for a diagonal
      step, every pixel column the original reads for it exists. */
  lemma AvailableKeepsInRangeReads(w: int, j: int, t: int)
    ensures Available(w, j, t) <==>
              t in WrittenTableReads(j) && 0 <= t < w &&
              (j != t ==> forall c :: c in WrittenPixelReads(w, j) ==> 0 <= c < w)
  {
    var rd := WrittenPixelReads(w, j);
    if 0 < j && j + 1 >= w {
      assert j + 1 in rd;
    }
    if j < w - 1 && j - 1 < 0 {
      assert j - 1 in rd;
    }
  }

  /** A cell of the row being filled: not yet reached (the original's largest
      double with back-pointer -1), or reached at some cost from some column. */
  datatype Slot = Unset | Set(cost: real, from: int)

  /** The slot held by a cost entry and a back-pointer entry. */
  ghost function SlotOf(cost: real, from: int): Slot {
    if from == -1 then Unset else Set(cost, from)
  }

  /** One proposal of cost c from column j: taken when the slot is unset or
      the proposal is strictly cheaper than what the slot holds. */
  function Relax(s: Slot, c: real, j: int): (r: Slot)
    ensures r.Set? && r.cost <= c
    ensures r == s || r == Set(c, j)
    ensures s.Set? ==> r.cost <= s.cost
    ensures s.Set? && s.cost <= c ==> r == s
  {
    if s.Unset? || c < s.cost then Set(c, j) else s
  }

  /** The slot of column t of row y once the columns 0 .. n-1 of the row above
      have made their proposals. */
  ghost function Proposals(prev: seq<real>, data: seq<seq<Pixel>>, e: seq<seq<real>>, w: int,
                           y: int, t: int, n: int): (s: Slot)
    requires Shaped(data, e, w) && 0 < y < |data| && |prev| == w && 0 <= t < w && 0 <= n <= w
    ensures t < n ==> s.Set?
    ensures s.Set? ==> 0 <= s.from < n && Available(w, s.from, t)
    decreases n
  {
    if n == 0 then Unset
    else if !Available(w, n - 1, t) then Proposals(prev, data, e, w, y, t, n - 1)
    else Relax(Proposals(prev, data, e, w, y, t, n - 1), prev[n - 1] + StepCost(data, e, w, y, n - 1, t), n - 1)
  }

  /** A slot stays unset exactly while no column so far could propose to it;
      once set, it holds the cost of the proposal it took, that cost is no
      more than any proposal made so far, and strictly less than every
      proposal from a column left of the one it took: among equal proposals
      the leftmost proposer wins. */
  lemma {:induction false} ProposalsSettle(prev: seq<real>, data: seq<seq<Pixel>>, e: seq<seq<real>>, w: int,
                                           y: int, t: int, n: int)
    requires Shaped(data, e, w) && 0 < y < |data| && |prev| == w && 0 <= t < w && 0 <= n <= w
    ensures Proposals(prev, data, e, w, y, t, n).Unset? <==> forall j :: 0 <= j < n ==> !Available(w, j, t)
    ensures Proposals(prev, data, e, w, y, t, n).Set? ==>
              var s := Proposals(prev, data, e, w, y, t, n);
              && s.cost == prev[s.from] + StepCost(data, e, w, y, s.from, t)
              && (forall j :: 0 <= j < n && Available(w, j, t) ==> s.cost <= prev[j] + StepCost(data, e, w, y, j, t))
              && (forall j :: 0 <= j < s.from && Available(w, j, t) ==> s.cost < prev[j] + StepCost(data, e, w, y, j, t))
    decreases n
  {
    if n > 0 {
      ProposalsSettle(prev, data, e, w, y, t, n - 1);
    }
  }

  /** Row y of the cost table: zero in row 0, the settled slots below. */
  ghost function FwdDP(data: seq<seq<Pixel>>, e: seq<seq<real>>, w: nat, y: int): (row: seq<real>)
    requires Shaped(data, e, w) && 0 <= y < |data|
    ensures |row| == w
    decreases y
  {
    if y == 0 then seq(w, t => 0.0)
    else
      var prev := FwdDP(data, e, w, y - 1);
      seq(w, t requires 0 <= t < w => Proposals(prev, data, e, w, y, t, w).cost)
  }

  /** The back-pointer of cell (y, t): -1 in row 0, the winning proposer below. */
  ghost function FwdLink(data: seq<seq<Pixel>>, e: seq<seq<real>>, w: nat, y: int, t: int): (k: int)
    requires Shaped(data, e, w) && 0 <= y < |data| && 0 <= t < w
    ensures y == 0 ==> k == -1
    ensures y > 0 ==> 0 <= k < w && t - 1 <= k <= t + 1
  {
    if y == 0 then -1 else Proposals(FwdDP(data, e, w, y - 1), data, e, w, y, t, w).from
  }

  /** The back-pointer table. */
  ghost function FwdLinks(data: seq<seq<Pixel>>, e: seq<seq<real>>, w: nat): (links: seq<seq<int>>)
    requires Shaped(data, e, w)
    ensures |links| == |data| && ValidLinks(links, w)
  {
    seq(|data|, y requires 0 <= y < |data| => seq(w, t requires 0 <= t < w => FwdLink(data, e, w, y, t)))
  }

  /** The whole cost table. */
  ghost function FwdTable(data: seq<seq<Pixel>>, e: seq<seq<real>>, w: nat): (dp: seq<seq<real>>)
    requires Shaped(data, e, w)
    ensures |dp| == |data| && Rect(dp, w)
  {
    seq(|data|, y requires 0 <= y < |data| => FwdDP(data, e, w, y))
  }

  /** A path costs nothing for its row-0 pixel... */
  ghost function ZeroBase(): int -> real {
    x => 0.0
  }

  /** ...and every step down costs `StepCost`. */
  ghost function FwdStep(data: seq<seq<Pixel>>, e: seq<seq<real>>, w: int): (int, int, int) -> real {
    (y, j, t) => if Shaped(data, e, w) && 0 < y < |data| && Available(w, j, t) then StepCost(data, e, w, y, j, t) else 0.0
  }

  /** The steps the forward search considers. */
  ghost function FwdOk(w: int): (int, int, int) -> bool {
    (y, j, t) => Available(w, j, t)
  }

  /** The seam the forward search returns. */
  ghost function ForwardSeam(data: seq<seq<Pixel>>, e: seq<seq<real>>, w: nat): seq<Point>
    requires Shaped(data, e, w) && 1 <= |data| && 1 <= w
  {
    SeamOf(ChosenPath(FwdTable(data, e, w), FwdLinks(data, e, w), w))
  }

  /** The forward seam is a seam of the image. */
  lemma ForwardSeamIsSeam(data: seq<seq<Pixel>>, e: seq<seq<real>>, w: nat)
    requires Shaped(data, e, w) && 1 <= |data| && 1 <= w
    ensures IsSeam(ForwardSeam(data, e, w), |data|, w)
  {
    SeamOfPath(ChosenPath(FwdTable(data, e, w), FwdLinks(data, e, w), w), w);
  }

  /** Entry (y, t) of the back-pointer table. */
  lemma FwdLinksAt(data: seq<seq<Pixel>>, e: seq<seq<real>>, w: nat, y: int, t: int)
    requires Shaped(data, e, w) && 0 <= y < |data| && 0 <= t < w
    ensures FwdLinks(data, e, w)[y][t] == FwdLink(data, e, w, y, t)
  {
  }

  /** Every cell of row 0 costs nothing, and every cell below is reached, from
      a column within one of its own, at the cost of that column plus the step. */
  lemma FwdCellLinked(data: seq<seq<Pixel>>, e: seq<seq<real>>, w: nat, y: int, t: int)
    requires Shaped(data, e, w) && 0 < y < |data| && 0 <= t < w
    ensures Available(w, FwdLinks(data, e, w)[y][t], t)
    ensures FwdTable(data, e, w)[y][t] ==
              FwdTable(data, e, w)[y - 1][FwdLinks(data, e, w)[y][t]] + FwdStep(data, e, w)(y, FwdLinks(data, e, w)[y][t], t)
  {
    FwdLinksAt(data, e, w, y, t);
    ProposalsSettle(FwdDP(data, e, w, y - 1), data, e, w, y, t, w);
  }

  /** Each cell costs no more than any proposal it receives. */
  lemma FwdCellMinimal(data: seq<seq<Pixel>>, e: seq<seq<real>>, w: nat, y: int, t: int, j: int)
    requires Shaped(data, e, w) && 0 < y < |data| && 0 <= t < w && 0 <= j < w && Available(w, j, t)
    ensures FwdTable(data, e, w)[y][t] <= FwdTable(data, e, w)[y - 1][j] + FwdStep(data, e, w)(y, j, t)
  {
    var prev := FwdDP(data, e, w, y - 1);
    ProposalsSettle(prev, data, e, w, y, t, w);
    assert FwdTable(data, e, w)[y][t] == Proposals(prev, data, e, w, y, t, w).cost;
  }

  /** Row 0 of the cost table is zero. */
  lemma FwdFirstRowZero(data: seq<seq<Pixel>>, e: seq<seq<real>>, w: nat, t: int)
    requires Shaped(data, e, w) && 1 <= |data| && 0 <= t < w
    ensures FwdTable(data, e, w)[0][t] == 0.0
  {
  }

  /** The tables of the forward search solve the seam recurrence with a zero
      base and `StepCost` as the cost of each step. */
  lemma FwdTableSolved(data: seq<seq<Pixel>>, e: seq<seq<real>>, w: nat)
    requires Shaped(data, e, w)
    ensures Solved(FwdTable(data, e, w), FwdLinks(data, e, w), w, ZeroBase(), FwdStep(data, e, w), FwdOk(w))
  {
    var dp, links := FwdTable(data, e, w), FwdLinks(data, e, w);
    forall t | 0 <= t < w && 0 < |dp|
      ensures dp[0][t] == ZeroBase()(t)
    {
      FwdFirstRowZero(data, e, w, t);
    }
    forall y, t | 1 <= y < |dp| && 0 <= t < w
      ensures FwdOk(w)(y, links[y][t], t) && dp[y][t] == dp[y - 1][links[y][t]] + FwdStep(data, e, w)(y, links[y][t], t)
    {
      FwdCellLinked(data, e, w, y, t);
    }
    forall y, t, j | 1 <= y < |dp| && 0 <= t < w && 0 <= j < w && t - 1 <= j <= t + 1 && FwdOk(w)(y, j, t)
      ensures dp[y][t] <= dp[y - 1][j] + FwdStep(data, e, w)(y, j, t)
    {
      FwdCellMinimal(data, e, w, y, t, j);
    }
  }

  /** The forward seam is a seam; its cost is the smallest entry of the last
      cost row; and no seam taking only available steps costs less. */
  lemma ForwardSeamIsOptimal(data: seq<seq<Pixel>>, e: seq<seq<real>>, w: nat, s: seq<Point>)
    requires Shaped(data, e, w) && 1 <= |data| && 1 <= w
    requires IsSeam(s, |data|, w) && Allowed(FwdOk(w), Columns(s))
    ensures IsSeam(ForwardSeam(data, e, w), |data|, w)
    ensures WalkCost(ZeroBase(), FwdStep(data, e, w), Columns(ForwardSeam(data, e, w))) ==
              FwdDP(data, e, w, |data| - 1)[LeftmostMin(FwdDP(data, e, w, |data| - 1))]
    ensures WalkCost(ZeroBase(), FwdStep(data, e, w), Columns(ForwardSeam(data, e, w))) <=
              WalkCost(ZeroBase(), FwdStep(data, e, w), Columns(s))
  {
    var dp, links := FwdTable(data, e, w), FwdLinks(data, e, w);
    var p := ChosenPath(dp, links, w);
    SeamOfPath(p, w);
    ColumnsOfSeam(s, |data|, w);
    FwdTableSolved(data, e, w);
    ChosenPathCost(dp, links, w, ZeroBase(), FwdStep(data, e, w), FwdOk(w));
    ChosenPathIsCheapest(dp, links, w, ZeroBase(), FwdStep(data, e, w), FwdOk(w), Columns(s));
  }

  /** Row y + 1 of both tables, once row y is known. */
  lemma FwdRowIs(data: seq<seq<Pixel>>, e: seq<seq<real>>, w: nat, y: int, row: seq<real>, idx: seq<int>)
    requires Shaped(data, e, w) && 0 < y < |data| && |row| == w && |idx| == w
    requires forall t :: 0 <= t < w ==>
               Proposals(FwdDP(data, e, w, y - 1), data, e, w, y, t, w) == Set(row[t], idx[t])
    ensures row == FwdTable(data, e, w)[y] && idx == FwdLinks(data, e, w)[y]
  {
  }

  /** Offers cost c from column j to slot t of the row being filled, whose
      costs and back-pointers are `row` and `idx` (-1: not yet reached). */
  method Propose(row: seq<real>, idx: seq<int>, t: int, c: real, j: int) returns (row': seq<real>, idx': seq<int>)
    requires |row| == |idx| && 0 <= t < |row| && j != -1
    ensures |row'| == |row| && |idx'| == |idx|
    ensures forall u :: 0 <= u < |row| && u != t ==> row'[u] == row[u] && idx'[u] == idx[u]
    ensures SlotOf(row'[t], idx'[t]) == Relax(SlotOf(row[t], idx[t]), c, j)
  {
    row', idx' := row, idx;
    if idx[t] == -1 || c < row[t] {
      row', idx' := row[t := c], idx[t := j];
    }
  }

  /** The proposals of one row: for x from left to right, column x of row y
      proposes to x - 1, then x, then x + 1 of row y + 1. */
  method RelaxRow(prev: seq<real>, data: seq<seq<Pixel>>, energy: seq<seq<real>>, w: nat, y: int)
    returns (row: seq<real>, idx: seq<int>)
    requires Shaped(data, energy, w) && 0 <= y < |data| - 1 && |prev| == w
    ensures |row| == w && |idx| == w
    ensures forall t :: 0 <= t < w ==> Proposals(prev, data, energy, w, y + 1, t, w) == Set(row[t], idx[t])
  {
    row := seq(w, t => 0.0);
    idx := seq(w, t => -1);
    for x := 0 to w
      invariant |row| == w && |idx| == w
      invariant forall t :: 0 <= t < w ==> SlotOf(row[t], idx[t]) == Proposals(prev, data, energy, w, y + 1, t, x)
    {
      ghost var row0, idx0 := row, idx;
      if 0 < x < w - 1 {
        var leftEnergy := DiffSquared(data[y + 1][x - 1], data[y][x + 1]) as real;
        row, idx := Propose(row, idx, x - 1, prev[x] + leftEnergy, x);
      }
      ghost var row1, idx1 := row, idx;
      var currentEnergy := energy[y + 1][x];
      row, idx := Propose(row, idx, x, prev[x] + currentEnergy, x);
      ghost var row2, idx2 := row, idx;
      if 0 < x < w - 1 {
        var rightEnergy := DiffSquared(data[y + 1][x + 1], data[y][x - 1]) as real;
        row, idx := Propose(row, idx, x + 1, prev[x] + rightEnergy, x);
      }
      forall t | 0 <= t < w
        ensures SlotOf(row[t], idx[t]) == Proposals(prev, data, energy, w, y + 1, t, x + 1)
      {
        if t == x - 1 && 0 < x < w - 1 {
          assert row[t] == row1[t] && idx[t] == idx1[t];
        } else if t == x {
          assert row[t] == row2[t] && idx[t] == idx2[t];
          assert row1[t] == row0[t] && idx1[t] == idx0[t];
        } else if t == x + 1 && 0 < x < w - 1 {
          assert row2[t] == row0[t] && idx2[t] == idx0[t];
        } else {
          assert row[t] == row0[t] && idx[t] == idx0[t];
        }
      }
    }
  }

  /** The search as the source runs it: row 0 costs nothing, every later row
      is filled by the proposals of the row above, then the leftmost cheapest
      end of the last row is backtracked. */
  method FindForwardSeam(data: seq<seq<Pixel>>, energy: seq<seq<real>>, w: nat) returns (seam: seq<Point>)
    requires Shaped(data, energy, w) && 1 <= |data| && 1 <= w
    ensures seam == ForwardSeam(data, energy, w)
    ensures IsSeam(seam, |data|, w)
  {
    var h := |data|;
    var dp: seq<seq<real>> := [seq(w, x => 0.0)];
    var dpIdx: seq<seq<int>> := [seq(w, x => -1)];
    ghost var table, links := FwdTable(data, energy, w), FwdLinks(data, energy, w);
    assert links[0] == dpIdx[0] by {
      forall x | 0 <= x < w
        ensures links[0][x] == -1
      {
        FwdLinksAt(data, energy, w, 0, x);
      }
    }
    assert dp == table[..1] && dpIdx == links[..1];
    var y := 0;
    while y < h - 1
      invariant 0 <= y <= h - 1
      invariant dp == table[..y + 1] && dpIdx == links[..y + 1]
    {
      var row, idx := RelaxRow(dp[y], data, energy, w, y);
      FwdRowIs(data, energy, w, y + 1, row, idx);
      dp := dp + [row];
      dpIdx := dpIdx + [idx];
      y := y + 1;
    }
    assert dp == table && dpIdx == links;
    var end := LeftmostMinimum(dp[|dp| - 1]);
    seam := Backtrack(dpIdx, w, end);
    ChosenPathFromEnd(dp, dpIdx, w, end);
  }
}
