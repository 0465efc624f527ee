/** Pixels: 8-bit RGBA pixels and the squared colour difference used by both
    the energy grid and the forward seam search. */
module Pixels {

  /** One 8-bit channel value. */
  newtype byte = x: int | 0 <= x < 256

  /** An RGBA pixel, one byte per channel. */
  datatype Pixel = Pixel(r: byte, g: byte, b: byte, a: byte)

  /** Largest possible squared difference: every colour channel differs by 255. */
  const MaxDiff: nat := 3 * 255 * 255

  /** Two pixels agree on red, green and blue (alpha is not compared). */
  predicate SameColour(p: Pixel, q: Pixel) {
    p.r == q.r && p.g == q.g && p.b == q.b
  }

  lemma ProductNonNegative(a: int, b: int)
    requires 0 <= a && 0 <= b
    ensures 0 <= a * b
  {
  }

  lemma SquareBounds(d: int)
    requires -255 <= d <= 255
    ensures 0 <= d * d <= 255 * 255
    ensures d * d == 0 <==> d == 0
  {
    var m := if d < 0 then -d else d;
    assert d * d == m * m;
    ProductNonNegative(m, m);
    ProductNonNegative(255 - m, m);
    ProductNonNegative(255 - m, 255);
    assert (255 - m) * m == 255 * m - m * m;
    assert (255 - m) * 255 == 255 * 255 - 255 * m;
    if m != 0 {
      ProductNonNegative(m - 1, m);
      assert (m - 1) * m == m * m - m;
    }
  }

  /** Sum of the squared differences of the R, G and B channels.  Exact: the
      value never exceeds 3·255², so the doubles of the original lose nothing. */
  function DiffSquared(p: Pixel, q: Pixel): (d: nat)
    ensures d <= MaxDiff
    ensures d == 0 <==> SameColour(p, q)
  {
    var dr := p.r as int - q.r as int;
    var dg := p.g as int - q.g as int;
    var db := p.b as int - q.b as int;
    SquareBounds(dr);
    SquareBounds(dg);
    SquareBounds(db);
    dr * dr + dg * dg + db * db
  }

  /** The difference does not depend on the order of its arguments. */
  lemma DiffSymmetric(p: Pixel, q: Pixel)
    ensures DiffSquared(p, q) == DiffSquared(q, p)
  {
    var dr, dg, db := p.r as int - q.r as int, p.g as int - q.g as int, p.b as int - q.b as int;
    assert (-dr) * (-dr) == dr * dr;
    assert (-dg) * (-dg) == dg * dg;
    assert (-db) * (-db) == db * db;
  }

  /** Alpha takes no part in the difference. */
  lemma DiffIgnoresAlpha(p: Pixel, q: Pixel, a1: byte, a2: byte)
    ensures DiffSquared(p.(a := a1), q.(a := a2)) == DiffSquared(p, q)
  {
  }
}
