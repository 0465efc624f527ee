/** Energy: the gradient energy of a pixel.  The energy of (y, x) is the square
    root of a horizontal term (right neighbour against left neighbour) plus a
    vertical term (pixel below against pixel above); each term is present only
    where both neighbours exist.  The radicand is modelled exactly; the square
    root itself is a parameter `root`, standing for the floating-point `sqrt`. */
module Energy {
  import opened Pixels
  import opened Grids

  /** Horizontal gradient: taken only for interior columns. */
  function HorizontalTerm(data: seq<seq<Pixel>>, w: int, y: int, x: int): (d: nat)
    requires Rect(data, w) && 0 <= y < |data| && 0 <= x < w
    ensures d <= MaxDiff
    ensures d == 0 <==> x == 0 || x == w - 1 || SameColour(data[y][x + 1], data[y][x - 1])
  {
    if 0 < x < w - 1 then DiffSquared(data[y][x + 1], data[y][x - 1]) else 0
  }

  /** Vertical gradient: taken only for interior rows. */
  function VerticalTerm(data: seq<seq<Pixel>>, w: int, y: int, x: int): (d: nat)
    requires Rect(data, w) && 0 <= y < |data| && 0 <= x < w
    ensures d <= MaxDiff
    ensures d == 0 <==> y == 0 || y == |data| - 1 || SameColour(data[y + 1][x], data[y - 1][x])
  {
    if 0 < y < |data| - 1 then DiffSquared(data[y + 1][x], data[y - 1][x]) else 0
  }

  /** The quantity whose square root is the energy of (y, x). */
  function Radicand(data: seq<seq<Pixel>>, w: int, y: int, x: int): (d: nat)
    requires Rect(data, w) && 0 <= y < |data| && 0 <= x < w
    ensures d <= 2 * MaxDiff
    ensures d == 0 <==> HorizontalTerm(data, w, y, x) == 0 && VerticalTerm(data, w, y, x) == 0
  {
    HorizontalTerm(data, w, y, x) + VerticalTerm(data, w, y, x)
  }

  /** The energy grid of an image of width `w`. */
  function EnergyGrid(data: seq<seq<Pixel>>, w: nat, root: nat -> real): (e: seq<seq<real>>)
    requires Rect(data, w)
    ensures |e| == |data| && Rect(e, w)
  {
    seq(|data|, y requires 0 <= y < |data| =>
      seq(w, x requires 0 <= x < w => root(Radicand(data, w, y, x))))
  }

  /** On the left and right borders the horizontal term is absent, on the top
      and bottom borders the vertical one. */
  lemma BorderTermsVanish(data: seq<seq<Pixel>>, w: int, y: int, x: int)
    requires Rect(data, w) && 0 <= y < |data| && 0 <= x < w
    ensures (x == 0 || x == w - 1) ==> HorizontalTerm(data, w, y, x) == 0
    ensures (y == 0 || y == |data| - 1) ==> VerticalTerm(data, w, y, x) == 0
  {
  }

  /** An interior pixel whose left and right neighbours agree in colour, and
      whose upper and lower neighbours agree in colour, has the energy of a
      zero radicand; conversely a zero radicand at an interior pixel means
      both neighbour pairs agree. */
  lemma FlatNeighbourhoodHasZeroEnergy(data: seq<seq<Pixel>>, w: nat, root: nat -> real, y: int, x: int)
    requires Rect(data, w) && 0 < y < |data| - 1 && 0 < x < w - 1
    ensures Radicand(data, w, y, x) == 0 <==>
              SameColour(data[y][x + 1], data[y][x - 1]) && SameColour(data[y + 1][x], data[y - 1][x])
    ensures Radicand(data, w, y, x) == 0 ==> EnergyGrid(data, w, root)[y][x] == root(0)
  {
  }

  /** With a non-negative square root the whole grid is non-negative. */
  lemma EnergyNonNegative(data: seq<seq<Pixel>>, w: nat, root: nat -> real)
    requires Rect(data, w)
    requires forall n: nat :: 0.0 <= root(n)
    ensures forall y, x :: 0 <= y < |data| && 0 <= x < w ==> 0.0 <= EnergyGrid(data, w, root)[y][x]
  {
    forall y, x | 0 <= y < |data| && 0 <= x < w
      ensures 0.0 <= EnergyGrid(data, w, root)[y][x]
    {
      assert EnergyGrid(data, w, root)[y][x] == root(Radicand(data, w, y, x));
    }
  }
}
