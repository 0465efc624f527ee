/** Seams: connected top-to-bottom paths, back-pointer tables, and the two
    steps both seam searches share: choosing the leftmost cheapest end of the
    last row, and following back-pointers up from it. */
module Seams {
  import opened Grids

  /** One seam entry: the row and the column removed from it. */
  datatype Point = Point(y: int, x: int)

  /** A path given by one column per row: every column inside [0, w) and
      consecutive columns at most one apart. */
  ghost predicate IsPath(p: seq<int>, w: int) {
    && (forall i :: 0 <= i < |p| ==> 0 <= p[i] < w)
    && (forall i, j :: 0 <= i < |p| && j == i + 1 < |p| ==> -1 <= p[j] - p[i] <= 1)
  }

  /** A seam of an h-by-w image: entry y names row y, its column lies in
      [0, w), and the columns of consecutive rows differ by at most one. */
  ghost predicate IsSeam(s: seq<Point>, h: int, w: int) {
    && |s| == h
    && (forall y :: 0 <= y < h ==> s[y].y == y && 0 <= s[y].x < w)
    && (forall y, z :: 0 <= y < h && z == y + 1 < h ==> -1 <= s[z].x - s[y].x <= 1)
  }

  /** The seam that removes column p[y] from row y. */
  ghost function SeamOf(p: seq<int>): seq<Point> {
    seq(|p|, y requires 0 <= y < |p| => Point(y, p[y]))
  }

  /** The columns of a seam, one per row. */
  ghost function Columns(s: seq<Point>): seq<int> {
    seq(|s|, y requires 0 <= y < |s| => s[y].x)
  }

  /** A back-pointer table of width w: below row 0, every entry names a
      column of the row above that lies within one column of its own. */
  ghost predicate ValidLinks(links: seq<seq<int>>, w: int) {
    && Rect(links, w)
    && (forall y, x :: 1 <= y < |links| && 0 <= x < w ==>
          0 <= links[y][x] < w && x - 1 <= links[y][x] <= x + 1)
  }

  /** The path that ends at column x of row y and reaches row 0 by following
      the back-pointers. */
  ghost function Trace(links: seq<seq<int>>, w: int, y: int, x: int): (p: seq<int>)
    requires ValidLinks(links, w) && 0 <= y < |links| && 0 <= x < w
    ensures |p| == y + 1 && p[y] == x && IsPath(p, w)
    decreases y
  {
    if y == 0 then [x] else Trace(links, w, y - 1, links[y][x]) + [x]
  }

  /** Along a traced path, each row's column is the back-pointer stored for
      the column of the row below it. */
  lemma {:induction false} TraceFollowsLinks(links: seq<seq<int>>, w: int, y: int, x: int, k: int)
    requires ValidLinks(links, w) && 0 <= y < |links| && 0 <= x < w && 1 <= k <= y
    ensures Trace(links, w, y, x)[k - 1] == links[k][Trace(links, w, y, x)[k]]
    decreases y
  {
    if k < y {
      TraceFollowsLinks(links, w, y - 1, links[y][x], k);
    }
  }

  lemma SeamOfPath(p: seq<int>, w: int)
    requires IsPath(p, w)
    ensures IsSeam(SeamOf(p), |p|, w) && Columns(SeamOf(p)) == p
  {
  }

  lemma ColumnsOfSeam(s: seq<Point>, h: int, w: int)
    requires IsSeam(s, h, w)
    ensures |Columns(s)| == h && IsPath(Columns(s), w)
  {
    var c := Columns(s);
    forall i, j | 0 <= i < |c| && j == i + 1 < |c|
      ensures -1 <= c[j] - c[i] <= 1
    {
      assert c[j] == s[j].x && c[i] == s[i].x;
    }
  }

  /** The leftmost position of a minimum among the first n entries of a row. */
  ghost function LeftmostMinOf(row: seq<real>, n: int): (k: int)
    requires 1 <= n <= |row|
    ensures 0 <= k < n
    ensures forall j :: 0 <= j < n ==> row[k] <= row[j]
    ensures forall j :: 0 <= j < k ==> row[k] < row[j]
    decreases n
  {
    if n == 1 then 0
    else
      var k := LeftmostMinOf(row, n - 1);
      if row[n - 1] < row[k] then n - 1 else k
  }

  /** The leftmost position of a minimum of a non-empty row. */
  ghost function LeftmostMin(row: seq<real>): (k: int)
    requires |row| > 0
    ensures 0 <= k < |row|
    ensures forall j :: 0 <= j < |row| ==> row[k] <= row[j]
    ensures forall j :: 0 <= j < k ==> row[k] < row[j]
  {
    LeftmostMinOf(row, |row|)
  }

  /** Scans the last DP row left to right and keeps the first strictly smaller
      cost.  The source starts from the largest double and the index -1; here
      the index -1 alone marks "nothing seen yet". */
  method LeftmostMinimum(row: seq<real>) returns (k: int)
    requires |row| > 0
    ensures k == LeftmostMin(row)
  {
    var minCost := 0.0;
    k := -1;
    for x := 0 to |row|
      invariant -1 <= k < x
      invariant x == 0 <==> k == -1
      invariant x > 0 ==> k == LeftmostMinOf(row, x) && minCost == row[k]
    {
      if k == -1 || row[x] < minCost {
        minCost := row[x];
        k := x;
      }
    }
  }

  /** Rebuilds the seam bottom-up: row y takes the current column, then the
      column moves to the back-pointer stored for it. */
  method Backtrack(links: seq<seq<int>>, w: int, end: int) returns (seam: seq<Point>)
    requires ValidLinks(links, w) && 1 <= |links| && 0 <= end < w
    ensures seam == SeamOf(Trace(links, w, |links| - 1, end))
    ensures IsSeam(seam, |links|, w) && seam[|links| - 1].x == end
  {
    var h := |links|;
    ghost var p := Trace(links, w, h - 1, end);
    seam := seq(h, _ => Point(0, 0));
    var x := end;
    var y := h - 1;
    while y >= 0
      invariant -1 <= y < h && |seam| == h
      invariant y >= 0 ==> x == p[y]
      invariant forall k :: y < k < h ==> seam[k] == Point(k, p[k])
    {
      seam := seam[y := Point(y, x)];
      if y > 0 {
        TraceFollowsLinks(links, w, h - 1, end, y);
      }
      x := links[y][x];
      y := y - 1;
    }
    SeamOfPath(p, w);
  }
}
