/** Grids: row-major grids as sequences of rows, and deleting one element of a row. */
module Grids {

  /** Every row of `g` has exactly `w` entries. */
  ghost predicate Rect<T>(g: seq<seq<T>>, w: int) {
    forall y :: 0 <= y < |g| ==> |g[y]| == w
  }

  /** `s` with the element at index `i` erased, as `std::list::erase` leaves a row. */
  function RemoveAt<T>(s: seq<T>, i: int): (r: seq<T>)
    requires 0 <= i < |s|
    ensures |r| == |s| - 1
  {
    s[..i] + s[i + 1..]
  }

  /** Erasing keeps the entries before index i in place and moves the ones
      after it one place left. */
  lemma RemoveAtShifts<T>(s: seq<T>, i: int)
    requires 0 <= i < |s|
    ensures forall j :: 0 <= j < i ==> RemoveAt(s, i)[j] == s[j]
    ensures forall j :: i <= j < |s| - 1 ==> RemoveAt(s, i)[j] == s[j + 1]
  {
  }

  /** Erasing removes exactly the one entry at index i. */
  lemma RemoveAtMultiset<T>(s: seq<T>, i: int)
    requires 0 <= i < |s|
    ensures multiset(RemoveAt(s, i)) + multiset{s[i]} == multiset(s)
  {
    assert s == s[..i] + [s[i]] + s[i + 1..];
  }
}
