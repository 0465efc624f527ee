/** Layout: the flat RGBA buffer an image file decodes to (row after row,
    four bytes per pixel: red, green, blue, alpha) and the per-row pixel
    lists the carver works on. */
module Layout {
  import opened Pixels
  import opened Grids

  /** The four bytes of a pixel, in buffer order. */
  function Bytes(p: Pixel): seq<byte> {
    [p.r, p.g, p.b, p.a]
  }

  /** The k-th pixel of a flat buffer: bytes 4k .. 4k+3. */
  function PixelAt(buf: seq<byte>, k: int): (p: Pixel)
    requires 0 <= k && 4 * k + 4 <= |buf|
    ensures Bytes(p) == buf[4 * k .. 4 * k + 4]
  {
    Pixel(buf[4 * k], buf[4 * k + 1], buf[4 * k + 2], buf[4 * k + 3])
  }

  /** The bytes of one row of pixels. */
  function RowBytes(row: seq<Pixel>): (b: seq<byte>)
    ensures |b| == 4 * |row|
    decreases |row|
  {
    if row == [] then [] else RowBytes(row[..|row| - 1]) + Bytes(row[|row| - 1])
  }

  /** The bytes of all rows, top row first. */
  function Flatten(rows: seq<seq<Pixel>>): (b: seq<byte>)
    decreases |rows|
  {
    if rows == [] then [] else Flatten(rows[..|rows| - 1]) + RowBytes(rows[|rows| - 1])
  }

  /** Pixel y of row x sits at pixel index w·x + y of an image of width w. */
  lemma CellIndex(w: int, h: int, x: int, y: int)
    requires 0 <= x < h && 0 <= y < w
    ensures 0 <= w * x + y < w * h
    ensures w * x + w <= w * h
  {
    RowEnd(w, h, x);
  }

  /** Row x of a w-wide image of h rows ends at pixel index w·x + w, within the image. */
  lemma RowEnd(w: int, h: int, x: int)
    requires 0 <= w && 0 <= x < h
    ensures 0 <= w * x && w * x + w <= w * h && w * (x + 1) == w * x + w
  {
    assert w * x + w == w * (x + 1);
    assert w * h - w * (x + 1) == w * (h - x - 1);
    ProductNonNegative(w, x);
    ProductNonNegative(w, h - x - 1);
  }

  /** Every pixel index below w·h is w·x + y for the row x = k / w < h and
      the column y = k % w < w. */
  lemma IndexCell(w: int, h: int, k: int)
    requires 0 < w && 0 <= k < w * h
    ensures 0 <= k / w < h && 0 <= k % w < w && k == w * (k / w) + k % w
  {
  }

  /** ...and by no other row and column: a pixel index determines its cell. */
  lemma IndexCellUnique(w: int, k: int, x: int, y: int)
    requires 0 < w && 0 <= y < w && k == w * x + y
    ensures x == k / w && y == k % w
  {
    var q := k / w;
    if x < q {
      RowsApart(w, x, q);
    } else if x > q {
      RowsApart(w, q, x);
    }
  }

  /** A later row starts at least a whole row after an earlier one ends. */
  lemma RowsApart(w: int, a: int, b: int)
    requires 0 < w && a < b
    ensures w * a + w <= w * b
  {
    ProductNonNegative(w, b - a - 1);
    assert w * b == w * a + w + w * (b - a - 1);
  }

  /** The rows of a w-by-h image read from a flat buffer: pixel y of row x is
      the pixel at index w·x + y. */
  function Unflatten(buf: seq<byte>, w: nat, h: nat): (rows: seq<seq<Pixel>>)
    requires |buf| == 4 * (w * h)
    ensures |rows| == h && Rect(rows, w)
  {
    seq(h, x requires 0 <= x < h =>
      seq(w, y requires 0 <= y < w => CellIndex(w, h, x, y); PixelAt(buf, w * x + y)))
  }

  /** A prefix of a row has the bytes of the prefix. */
  lemma {:induction false} RowBytesAt(row: seq<Pixel>, y: int, c: int)
    requires 0 <= y < |row| && 0 <= c < 4
    ensures RowBytes(row)[4 * y + c] == Bytes(row[y])[c]
    decreases |row|
  {
    if y < |row| - 1 {
      RowBytesAt(row[..|row| - 1], y, c);
    }
  }

  /** A w-wide image flattens to 4·w·h bytes. */
  lemma {:induction false} FlattenLength(rows: seq<seq<Pixel>>, w: int)
    requires Rect(rows, w)
    ensures |Flatten(rows)| == 4 * (w * |rows|)
    decreases |rows|
  {
    if rows != [] {
      var n := |rows|;
      FlattenLength(rows[..n - 1], w);
      assert w * (n - 1) + w == w * n;
    }
  }

  /** Byte c of pixel y of row x lands at index 4·(w·x + y) + c. */
  lemma {:induction false} FlattenAt(rows: seq<seq<Pixel>>, w: int, x: int, y: int, c: int)
    requires Rect(rows, w) && 0 <= x < |rows| && 0 <= y < w && 0 <= c < 4
    ensures 0 <= 4 * (w * x + y) + c < |Flatten(rows)|
    ensures Flatten(rows)[4 * (w * x + y) + c] == Bytes(rows[x][y])[c]
    decreases |rows|
  {
    var n := |rows|;
    var front := rows[..n - 1];
    FlattenLength(front, w);
    FlattenLength(rows, w);
    CellIndex(w, n, x, y);
    if x < n - 1 {
      FlattenAt(front, w, x, y, c);
    } else {
      RowBytesAt(rows[n - 1], y, c);
    }
  }

  /** The pixel read back from index w·x + y of the bytes of an image is
      pixel y of row x. */
  lemma PixelAtFlatten(rows: seq<seq<Pixel>>, w: nat, x: int, y: int)
    requires Rect(rows, w) && 0 <= x < |rows| && 0 <= y < w
    ensures 4 * (w * x + y) + 4 <= |Flatten(rows)|
    ensures PixelAt(Flatten(rows), w * x + y) == rows[x][y]
  {
    FlattenAt(rows, w, x, y, 0);
    FlattenAt(rows, w, x, y, 1);
    FlattenAt(rows, w, x, y, 2);
    FlattenAt(rows, w, x, y, 3);
  }

  /** Reading rows out of the bytes of an image gives the image back. */
  lemma UnflattenFlatten(rows: seq<seq<Pixel>>, w: nat)
    requires Rect(rows, w)
    ensures |Flatten(rows)| == 4 * (w * |rows|)
    ensures Unflatten(Flatten(rows), w, |rows|) == rows
  {
    FlattenLength(rows, w);
    var back := Unflatten(Flatten(rows), w, |rows|);
    forall x | 0 <= x < |rows|
      ensures back[x] == rows[x]
    {
      forall y | 0 <= y < w
        ensures back[x][y] == rows[x][y]
      {
        PixelAtFlatten(rows, w, x, y);
      }
    }
  }

  /** Writing out the rows read from a buffer gives the buffer back. */
  lemma FlattenUnflatten(buf: seq<byte>, w: nat, h: nat)
    requires |buf| == 4 * (w * h)
    ensures Flatten(Unflatten(buf, w, h)) == buf
  {
    var rows := Unflatten(buf, w, h);
    var flat := Flatten(rows);
    FlattenLength(rows, w);
    forall i | 0 <= i < |buf|
      ensures flat[i] == buf[i]
    {
      var k, c := i / 4, i % 4;
      IndexCell(w, h, k);
      var x, y := k / w, k % w;
      FlattenAt(rows, w, x, y, c);
      assert i == 4 * (w * x + y) + c;
    }
  }
}
