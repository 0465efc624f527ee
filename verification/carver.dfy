/** Carving: cutting seams out of an image, and the carver object that loads
    an image from a flat RGBA buffer, computes its energy once, cuts a number
    of seams with the backward or the forward search, and writes the result
    back to a flat buffer. */
module Carving {
  import opened Pixels
  import opened Grids
  import opened Energy
  import opened Seams
  import opened BackwardSearch
  import opened ForwardSearch
  import opened Layout

  /** Every row of `rows` with the column the seam names for it erased (see
      `RemoveAt`).  A row the seam does not reach, or names no column of, is
      left as it is. */
  function CutSeam<T>(rows: seq<seq<T>>, seam: seq<Point>): (r: seq<seq<T>>)
    ensures |r| == |rows|
  {
    seq(|rows|, y requires 0 <= y < |rows| =>
      if y < |seam| && 0 <= seam[y].x < |rows[y]| then RemoveAt(rows[y], seam[y].x) else rows[y])
  }

  /** Cutting a seam of a w-wide image leaves every row w - 1 wide. */
  lemma CutSeamNarrows<T>(rows: seq<seq<T>>, seam: seq<Point>, w: int)
    requires Rect(rows, w) && IsSeam(seam, |rows|, w)
    ensures Rect(CutSeam(rows, seam), w - 1)
  {
  }

  /** The rows left after cutting the seams one after the other. */
  ghost function CutSeams<T>(rows: seq<seq<T>>, seams: seq<seq<Point>>): (r: seq<seq<T>>)
    ensures |r| == |rows|
    decreases |seams|
  {
    if seams == [] then rows else CutSeams(CutSeam(rows, seams[0]), seams[1..])
  }

  /** Cutting a first seam, then a list of seams. */
  lemma CutSeamsCons<T>(rows: seq<seq<T>>, s: seq<Point>, seams: seq<seq<Point>>)
    ensures CutSeams(rows, [s] + seams) == CutSeams(CutSeam(rows, s), seams)
  {
    assert ([s] + seams)[1..] == seams;
  }

  /** Cutting one more seam after a list of seams. */
  lemma {:induction false} CutSeamsSnoc<T>(rows: seq<seq<T>>, seams: seq<seq<Point>>, s: seq<Point>)
    ensures CutSeams(rows, seams + [s]) == CutSeam(CutSeams(rows, seams), s)
    decreases |seams|
  {
    if seams == [] {
      assert ([] + [s])[1..] == [];
    } else {
      assert (seams + [s])[0] == seams[0] && (seams + [s])[1..] == seams[1..] + [s];
      CutSeamsSnoc(CutSeam(rows, seams[0]), seams[1..], s);
    }
  }

  /** Seam i of the list is a seam of an h-row image that is i columns
      narrower than w. */
  ghost predicate SeamsFit(seams: seq<seq<Point>>, h: int, w: int) {
    |seams| <= w && forall i :: 0 <= i < |seams| ==> IsSeam(seams[i], h, w - i)
  }

  /** Cutting seams that fit a w-wide image leaves every row one column
      narrower per seam. */
  lemma {:induction false} CutSeamsNarrow<T>(rows: seq<seq<T>>, seams: seq<seq<Point>>, w: int)
    requires Rect(rows, w) && SeamsFit(seams, |rows|, w)
    ensures Rect(CutSeams(rows, seams), w - |seams|)
    decreases |seams|
  {
    if seams != [] {
      assert IsSeam(seams[0], |rows|, w);
      CutSeamNarrows(rows, seams[0], w);
      assert SeamsFit(seams[1..], |rows|, w - 1) by {
        assert forall i :: 0 <= i < |seams| - 1 ==> seams[1..][i] == seams[i + 1];
      }
      CutSeamsNarrow(CutSeam(rows, seams[0]), seams[1..], w - 1);
    }
  }

  /** Cutting seams only removes entries: every row keeps, counted with
      multiplicity, entries of the original row. */
  lemma {:induction false} CutSeamsRemovesOnly<T>(rows: seq<seq<T>>, seams: seq<seq<Point>>, y: int)
    requires 0 <= y < |rows|
    ensures multiset(CutSeams(rows, seams)[y]) <= multiset(rows[y])
    decreases |seams|
  {
    if seams != [] {
      var s := seams[0];
      var cut := CutSeam(rows, s);
      CutSeamsRemovesOnly(cut, seams[1..], y);
      if y < |s| && 0 <= s[y].x < |rows[y]| {
        RemoveAtMultiset(rows[y], s[y].x);
      }
    }
  }

  /** Each pixel of a row paired with its energy, as far as both rows reach. */
  ghost function ZipRow(a: seq<Pixel>, b: seq<real>): (z: seq<(Pixel, real)>)
    ensures |z| == if |a| < |b| then |a| else |b|
  {
    seq(if |a| < |b| then |a| else |b|, x requires 0 <= x < |a| && x < |b| => (a[x], b[x]))
  }

  /** Each pixel paired with its energy, as far as both grids reach. */
  ghost function Zip(data: seq<seq<Pixel>>, e: seq<seq<real>>): (z: seq<seq<(Pixel, real)>>)
    ensures |z| == if |data| < |e| then |data| else |e|
  {
    seq(if |data| < |e| then |data| else |e|, y requires 0 <= y < |data| && y < |e| => ZipRow(data[y], e[y]))
  }

  /** Two grids with the same number of rows and rows of the same lengths. */
  ghost predicate SameShape<A, B>(a: seq<seq<A>>, b: seq<seq<B>>) {
    |a| == |b| && forall y :: 0 <= y < |a| ==> |a[y]| == |b[y]|
  }

  /** Erasing the same column of a pixel row and of its energy row keeps the
      remaining pixels paired with their own energies. */
  lemma ZipRowRemoveAt(a: seq<Pixel>, b: seq<real>, k: int)
    requires |a| == |b| && 0 <= k < |a|
    ensures ZipRow(RemoveAt(a, k), RemoveAt(b, k)) == RemoveAt(ZipRow(a, b), k)
  {
    var l, r := ZipRow(RemoveAt(a, k), RemoveAt(b, k)), RemoveAt(ZipRow(a, b), k);
    RemoveAtShifts(a, k);
    RemoveAtShifts(b, k);
    RemoveAtShifts(ZipRow(a, b), k);
    forall x | 0 <= x < |l|
      ensures l[x] == r[x]
    {
      if x >= k {
        assert ZipRow(a, b)[x + 1] == (a[x + 1], b[x + 1]);
      }
    }
  }

  /** Cutting the same seam from the pixels and from the energy keeps every
      pixel next to its own energy. */
  lemma ZipCutSeam(data: seq<seq<Pixel>>, e: seq<seq<real>>, s: seq<Point>)
    requires SameShape(data, e)
    ensures SameShape(CutSeam(data, s), CutSeam(e, s))
    ensures Zip(CutSeam(data, s), CutSeam(e, s)) == CutSeam(Zip(data, e), s)
  {
    var l, r := Zip(CutSeam(data, s), CutSeam(e, s)), CutSeam(Zip(data, e), s);
    forall y | 0 <= y < |data|
      ensures l[y] == r[y]
    {
      if y < |s| && 0 <= s[y].x < |data[y]| {
        ZipRowRemoveAt(data[y], e[y], s[y].x);
      }
    }
  }

  /** Cutting the same seams from the pixels and from the energy keeps every
      remaining pixel next to the energy computed for it at the start. */
  lemma {:induction false} ZipCutSeams(data: seq<seq<Pixel>>, e: seq<seq<real>>, seams: seq<seq<Point>>)
    requires SameShape(data, e)
    ensures Zip(CutSeams(data, seams), CutSeams(e, seams)) == CutSeams(Zip(data, e), seams)
    decreases |seams|
  {
    if seams != [] {
      var s := seams[0];
      ZipCutSeam(data, e, s);
      ZipCutSeams(CutSeam(data, s), CutSeam(e, s), seams[1..]);
    }
  }

  /** A way of choosing the next seam from the pixels, the energy and the width. */
  type Chooser = (seq<seq<Pixel>>, seq<seq<real>>, nat) -> seq<Point>

  /** The seam `choose` picks for the given pixels, energy and width. */
  ghost function Pick(choose: Chooser, data: seq<seq<Pixel>>, e: seq<seq<real>>, w: nat): seq<Point> {
    choose(data, e, w)
  }

  /** The chooser picks a seam of every image of at least one row and one column. */
  ghost predicate PicksSeams(choose: Chooser) {
    forall data, e, w {:trigger Pick(choose, data, e, w)} ::
      Shaped(data, e, w) && 1 <= |data| && 1 <= w ==> IsSeam(Pick(choose, data, e, w), |data|, w)
  }

  /** The carver's chooser: the backward or the forward seam search. */
  ghost function SearchChooser(backward: bool): Chooser {
    (data, e, w) =>
      if Shaped(data, e, w) && 1 <= |data| && 1 <= w then
        (if backward then BackwardSeam(e, w) else ForwardSeam(data, e, w))
      else []
  }

  /** Both searches pick seams. */
  lemma SearchChooserPicksSeams(backward: bool)
    ensures PicksSeams(SearchChooser(backward))
  {
    var choose := SearchChooser(backward);
    forall data, e, w | Shaped(data, e, w) && 1 <= |data| && 1 <= w
      ensures IsSeam(Pick(choose, data, e, w), |data|, w)
    {
      if backward {
        BackwardSeamIsSeam(e, w);
      } else {
        ForwardSeamIsSeam(data, e, w);
      }
    }
  }

  /** After the first i seams of a carving have been cut, the chooser picks
      seam i next. */
  lemma NextSeam(data0: seq<seq<Pixel>>, e0: seq<seq<real>>, w0: nat, n: int, choose: Chooser, i: int,
                 seams: seq<seq<Point>>, data: seq<seq<Pixel>>, e: seq<seq<real>>, w: nat)
    requires PicksSeams(choose) && Shaped(data0, e0, w0) && (n <= 0 || (1 <= |data0| && n <= w0))
    requires 0 <= i < SeamCount(n) && seams == CarveSeams(data0, e0, w0, n, choose)[..i]
    requires data == CutSeams(data0, seams) && e == CutSeams(e0, seams) && w == w0 - i
    ensures CarveSeams(data0, e0, w0, n, choose)[..i + 1] == seams + [Pick(choose, data, e, w)]
  {
    var plan := CarveSeams(data0, e0, w0, n, choose);
    CarveSeamsAreChosen(data0, e0, w0, n, choose, i);
    assert plan[..i + 1] == plan[..i] + [plan[i]];
  }

  /** The carver's chooser picks the seam of the search it names. */
  lemma SearchPick(backward: bool, data: seq<seq<Pixel>>, e: seq<seq<real>>, w: nat)
    requires Shaped(data, e, w) && 1 <= |data| && 1 <= w
    ensures Pick(SearchChooser(backward), data, e, w) == if backward then BackwardSeam(e, w) else ForwardSeam(data, e, w)
  {
  }

  /** Number of seams cut for a requested count: none for a negative one. */
  function SeamCount(n: int): nat {
    if n < 0 then 0 else n
  }

  /** The seams carving cuts: n rounds of choosing a seam of the current pixels
      and energy, then cutting it out of both.  The energy is the one given,
      cut along; it is never computed again.  Seam i fits the image i columns
      narrower than the original. */
  ghost function CarveSeams(data: seq<seq<Pixel>>, e: seq<seq<real>>, w: nat, n: int, choose: Chooser): (seams: seq<seq<Point>>)
    requires PicksSeams(choose) && Shaped(data, e, w) && (n <= 0 || (1 <= |data| && n <= w))
    ensures |seams| == SeamCount(n)
    decreases n
  {
    if n <= 0 then []
    else
      var s := choose(data, e, w);
      assert IsSeam(Pick(choose, data, e, w), |data|, w);
      CutSeamNarrows(data, s, w);
      CutSeamNarrows(e, s, w);
      [s] + CarveSeams(CutSeam(data, s), CutSeam(e, s), w - 1, n - 1, choose)
  }

  /** Seam i of a carving is a seam of the image i columns narrower than the
      original. */
  lemma {:induction false} CarveSeamsFit(data: seq<seq<Pixel>>, e: seq<seq<real>>, w: nat, n: int, choose: Chooser)
    requires PicksSeams(choose) && Shaped(data, e, w) && (n <= 0 || (1 <= |data| && n <= w))
    ensures SeamsFit(CarveSeams(data, e, w, n, choose), |data|, w)
    decreases n
  {
    if n > 0 {
      var s := choose(data, e, w);
      assert IsSeam(Pick(choose, data, e, w), |data|, w);
      CutSeamNarrows(data, s, w);
      CutSeamNarrows(e, s, w);
      var rest := CarveSeams(CutSeam(data, s), CutSeam(e, s), w - 1, n - 1, choose);
      CarveSeamsFit(CutSeam(data, s), CutSeam(e, s), w - 1, n - 1, choose);
      assert forall i :: 1 <= i < 1 + |rest| ==> ([s] + rest)[i] == rest[i - 1];
    }
  }

  /** Seam i of a carving is the seam the chooser picks in the pixels and the
      energy left after cutting the seams before it: carving is greedy. */
  lemma {:induction false} CarveSeamsAreChosen(data: seq<seq<Pixel>>, e: seq<seq<real>>, w: nat, n: int, choose: Chooser, i: int)
    requires PicksSeams(choose) && Shaped(data, e, w) && (n <= 0 || (1 <= |data| && n <= w))
    requires 0 <= i < SeamCount(n)
    ensures CarveSeams(data, e, w, n, choose)[i] ==
              choose(CutSeams(data, CarveSeams(data, e, w, n, choose)[..i]),
                     CutSeams(e, CarveSeams(data, e, w, n, choose)[..i]), w - i)
    decreases n
  {
    var seams := CarveSeams(data, e, w, n, choose);
    var s := choose(data, e, w);
    assert IsSeam(Pick(choose, data, e, w), |data|, w);
    CutSeamNarrows(data, s, w);
    CutSeamNarrows(e, s, w);
    var d', e' := CutSeam(data, s), CutSeam(e, s);
    var rest := CarveSeams(d', e', w - 1, n - 1, choose);
    assert seams == [s] + rest;
    var before := seams[..i];
    if i == 0 {
      assert before == [];
    } else {
      CarveSeamsAreChosen(d', e', w - 1, n - 1, choose, i - 1);
      assert before == [s] + rest[..i - 1];
      CutSeamsCons(data, s, rest[..i - 1]);
      CutSeamsCons(e, s, rest[..i - 1]);
      assert seams[i] == rest[i - 1];
    }
  }

  /** Writes the four bytes of a pixel at index idx of a buffer. */
  method PutPixel(buf: array<byte>, idx: int, p: Pixel)
    requires 0 <= idx && idx + 4 <= buf.Length
    modifies buf
    ensures buf[..idx + 4] == old(buf[..idx]) + Bytes(p)
    ensures buf[idx + 4..] == old(buf[idx + 4..])
  {
    buf[idx] := p.r;
    buf[idx + 1] := p.g;
    buf[idx + 2] := p.b;
    buf[idx + 3] := p.a;
  }

  /** Writes row x of a w-wide image into a buffer, pixel y at index
      (x·w + y)·4. */
  method WriteRow(buf: array<byte>, row: seq<Pixel>, x: int, w: int)
    requires 0 <= w * x && |row| == w && 4 * (w * x + w) <= buf.Length
    modifies buf
    ensures buf[..4 * (w * x + w)] == old(buf[..4 * (w * x)]) + RowBytes(row)
    ensures buf[4 * (w * x + w)..] == old(buf[4 * (w * x + w)..])
  {
    for y := 0 to |row|
      invariant buf[..4 * (w * x + y)] == old(buf[..4 * (w * x)]) + RowBytes(row[..y])
      invariant buf[4 * (w * x + w)..] == old(buf[4 * (w * x + w)..])
    {
      var idx := (x * w + y) * 4;
      PutPixel(buf, idx, row[y]);
      assert row[..y + 1][..y] == row[..y];
    }
    assert row[..w] == row;
  }

  /** The seam carver: the pixel rows, the energy rows and the size of the
      image being carved. */
  class SeamCarver {
    var data: seq<seq<Pixel>>
    var energy: seq<seq<real>>
    var width: int
    var height: int

    /** `height` rows of `width` pixels each. */
    ghost predicate Valid()
      reads this
    {
      0 <= width && 0 <= height && |data| == height && Rect(data, width)
    }

    /** Valid, and the energy grid has the shape of the image. */
    ghost predicate EnergyReady()
      reads this
    {
      Valid() && Shaped(data, energy, width)
    }

    /** Reads a w-by-h image from a flat RGBA buffer: the pixel of row x and
        column y is made of the four bytes from index (w·x + y)·4 on.  No
        energy has been computed yet. */
    constructor (buf: seq<byte>, w: nat, h: nat)
      requires |buf| == 4 * (w * h)
      ensures Valid() && width == w && height == h
      ensures data == Unflatten(buf, w, h) && energy == []
    {
      ghost var image := Unflatten(buf, w, h);
      var rows: seq<seq<Pixel>> := seq(h, _ => []);
      // as in the original, x counts rows and y columns here
      for x := 0 to h
        invariant |rows| == h
        invariant forall k :: 0 <= k < x ==> rows[k] == image[k]
        invariant forall k :: x <= k < h ==> rows[k] == []
      {
        for y := 0 to w
          invariant |rows| == h
          invariant forall k :: 0 <= k < x ==> rows[k] == image[k]
          invariant forall k :: x < k < h ==> rows[k] == []
          invariant rows[x] == image[x][..y]
        {
          CellIndex(w, h, x, y);
          var idx := (w * x + y) * 4;
          var p := Pixel(buf[idx], buf[idx + 1], buf[idx + 2], buf[idx + 3]);
          assert p == PixelAt(buf, w * x + y);
          rows := rows[x := rows[x] + [p]];
        }
      }
      data := rows;
      energy := [];
      width := w;
      height := h;
    }

    /** Computes the energy of every pixel: the square root, taken by `root`,
        of the horizontal term plus the vertical term. */
    method ComputeEnergy(root: nat -> real)
      requires Valid()
      modifies this
      ensures EnergyReady() && data == old(data) && width == old(width) && height == old(height)
      ensures energy == EnergyGrid(data, width, root)
    {
      ghost var grid := EnergyGrid(data, width, root);
      var rows: seq<seq<real>> := seq(height, _ => []);
      for y := 0 to height
        invariant |rows| == height
        invariant forall k :: 0 <= k < y ==> rows[k] == grid[k]
        invariant forall k :: y <= k < height ==> rows[k] == []
      {
        for x := 0 to width
          invariant |rows| == height
          invariant forall k :: 0 <= k < y ==> rows[k] == grid[k]
          invariant forall k :: y < k < height ==> rows[k] == []
          invariant rows[y] == grid[y][..x]
        {
          var dx := 0;
          if 0 < x < width - 1 {
            dx := DiffSquared(data[y][x + 1], data[y][x - 1]);
          }
          var dy := 0;
          if 0 < y < height - 1 {
            dy := dy + DiffSquared(data[y + 1][x], data[y - 1][x]);
          }
          assert dx + dy == Radicand(data, width, y, x);
          rows := rows[y := rows[y] + [root(dx + dy)]];
        }
      }
      energy := rows;
    }

    /** Cuts the column `seam[y].x` out of row y of both the pixels and the
        energy, then narrows the image by one column.  The row entries of the
        seam are not looked at. */
    method RemoveSeam(seam: seq<Point>)
      requires EnergyReady() && 1 <= width
      requires |seam| == height && forall y :: 0 <= y < height ==> 0 <= seam[y].x < width
      modifies this
      ensures EnergyReady() && width == old(width) - 1 && height == old(height)
      ensures data == CutSeam(old(data), seam) && energy == CutSeam(old(energy), seam)
    {
      var newWidth := width - 1;
      ghost var data0, energy0 := data, energy;
      for y := 0 to height
        invariant |data| == |energy| == height == |data0| == |energy0| && width == newWidth + 1
        invariant forall k :: 0 <= k < y ==> data[k] == RemoveAt(data0[k], seam[k].x) && energy[k] == RemoveAt(energy0[k], seam[k].x)
        invariant forall k :: y <= k < height ==> data[k] == data0[k] && energy[k] == energy0[k]
      {
        var seamX := seam[y].x;
        energy := energy[y := RemoveAt(energy[y], seamX)];
        data := data[y := RemoveAt(data[y], seamX)];
      }
      width := newWidth;
    }

    /** One round of carving: finds a seam with the backward or the forward
        search and removes it. */
    method CutNextSeam(backward: bool) returns (seam: seq<Point>)
      requires EnergyReady() && 1 <= height && 1 <= width
      modifies this
      ensures EnergyReady() && height == old(height) && width == old(width) - 1
      ensures seam == Pick(SearchChooser(backward), old(data), old(energy), old(width))
      ensures data == CutSeam(old(data), seam) && energy == CutSeam(old(energy), seam)
    {
      if backward {
        seam := FindBackwardSeam(energy, width);
      } else {
        seam := FindForwardSeam(data, energy, width);
      }
      SearchPick(backward, data, energy, width);
      RemoveSeam(seam);
    }

    /** Computes the energy once, then `numSeams` times finds a seam with the
        backward or the forward search and removes it.  Returns the seams cut,
        in order. */
    method Carve(numSeams: int, backward: bool, root: nat -> real) returns (ghost seams: seq<seq<Point>>)
      requires Valid() && (numSeams <= 0 || (1 <= height && numSeams <= width))
      modifies this
      ensures EnergyReady() && height == old(height) && width == old(width) - SeamCount(numSeams)
      ensures PicksSeams(SearchChooser(backward)) && Shaped(old(data), EnergyGrid(old(data), old(width), root), old(width))
      ensures seams == CarveSeams(old(data), EnergyGrid(old(data), old(width), root), old(width), numSeams, SearchChooser(backward))
      ensures data == CutSeams(old(data), seams)
      ensures energy == CutSeams(EnergyGrid(old(data), old(width), root), seams)
    {
      ComputeEnergy(root);
      SearchChooserPicksSeams(backward);
      ghost var choose := SearchChooser(backward);
      ghost var data0, energy0, width0 := data, energy, width;
      ghost var plan := CarveSeams(data, energy, width, numSeams, choose);
      seams := [];
      var i := 0;
      while i < numSeams
        invariant 0 <= i <= |plan| && seams == plan[..i]
        invariant EnergyReady() && height == old(height) && width == width0 - i
        invariant data == CutSeams(data0, seams) && energy == CutSeams(energy0, seams)
      {
        NextSeam(data0, energy0, width0, numSeams, choose, i, seams, data, energy, width);
        var seam := CutNextSeam(backward);
        CutSeamsSnoc(data0, seams, seam);
        CutSeamsSnoc(energy0, seams, seam);
        seams := seams + [seam];
        i := i + 1;
      }
      assert seams == plan;
    }

    /** The carved image as a flat RGBA buffer, row after row: the pixel of
        row x and column y at index (x·width + y)·4. */
    method SaveCarvedImage() returns (buf: array<byte>)
      requires Valid()
      ensures fresh(buf) && buf[..] == Flatten(data)
    {
      FlattenLength(data, width);
      buf := new byte[width * height * 4];
      for x := 0 to height
        invariant buf.Length == 4 * (width * height) && 0 <= width * x <= width * height
        invariant buf[..4 * (width * x)] == Flatten(data[..x])
      {
        RowEnd(width, height, x);
        WriteRow(buf, data[x], x, width);
        assert data[..x + 1][..x] == data[..x];
      }
      assert data[..height] == data;
    }
  }
}
