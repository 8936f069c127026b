/** `clamped(_:_:)` (Comparable.swift), on integers: `min(max(self, x), y)`. */
module Clamp {

  function Clamped(v: int, x: int, y: int): (r: int)
    ensures r <= y
    ensures x <= y ==> x <= r
    ensures x <= v <= y ==> r == v
    ensures v < x ==> r == (if x <= y then x else y)
    ensures y < v ==> r == y
  {
    var lower := if v < x then x else v;
    if y < lower then y else lower
  }

  /** With the bounds reversed the result is always the upper argument `y`. */
  lemma ReversedBoundsGiveUpper(v: int, x: int, y: int)
    requires y < x
    ensures Clamped(v, x, y) == y
  {
  }

  /** Clamping twice to the same bounds is the same as once. */
  lemma ClampIsIdempotent(v: int, x: int, y: int)
    ensures Clamped(Clamped(v, x, y), x, y) == Clamped(v, x, y)
  {
  }

  /** Clamping is monotonic in the value. */
  lemma ClampIsMonotonic(v: int, w: int, x: int, y: int)
    requires v <= w
    ensures Clamped(v, x, y) <= Clamped(w, x, y)
  {
  }
}
