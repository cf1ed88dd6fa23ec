/** The arithmetic of the program's uniform sampler (class RandomGenerator).
    The generator itself is not modelled: every uniform draw of its
    distribution over [0, 1) is a value the caller supplies. */
module Sampling {

  /** A draw of the underlying uniform distribution: a value in [0, 1). */
  predicate InUnit(u: real) {
    0.0 <= u < 1.0
  }

  /** C++'s conversion of a floating-point value to `int`: truncation toward zero. */
  function Trunc(x: real): (r: int)
    ensures 0.0 <= x ==> 0 <= r && r as real <= x < r as real + 1.0
    ensures x < 0.0 ==> r <= 0 && r as real - 1.0 < x <= r as real
  {
    if x >= 0.0 then x.Floor else -((-x).Floor)
  }

  /** `r(min, max)` with an integer type: `(int)(u * (max - min))`. The
      offset `min` is never added back, so the result lies in
      [0, max - min) rather than in [min, max). */
  function SampleInt(u: real, min: int, max: int): (r: int)
    requires InUnit(u)
    ensures min < max ==> 0 <= r < max - min
    ensures min == max ==> r == 0
    ensures max < min ==> max - min < r <= 0
  {
    var scaled := SampleReal(u, min as real, max as real);
    TruncBelow(scaled, max - min);
    Trunc(scaled)
  }

  /** `r(min, max)` with a floating-point type: `u * (max - min)`, again
      without the offset `min`. */
  function SampleReal(u: real, min: real, max: real): (r: real)
    requires InUnit(u)
    ensures min <= max ==> 0.0 <= r <= max - min
    ensures min < max ==> r < max - min
    ensures max < min ==> max - min < r <= 0.0
  {
    var span := max - min;
    ScaleBelow(u, span);
    u * span
  }

  /** `r.chance(p)`: the event fires when the draw is at most the
      probability. A negative probability never fires, one of 1 or more
      always does, and in between the draws that fire are exactly [0, p]. */
  function Chance(u: real, probability: real): (fires: bool)
    requires InUnit(u)
    ensures probability < 0.0 ==> !fires
    ensures 1.0 <= probability ==> fires
    ensures 0.0 <= probability < 1.0 ==> (fires <==> u <= probability)
  {
    u <= probability
  }

  /** Scaling a span by a draw in [0, 1) moves it toward zero and never past
      zero. */
  lemma ScaleBelow(u: real, span: real)
    requires InUnit(u)
    ensures 0.0 < span ==> 0.0 <= u * span < span
    ensures span == 0.0 ==> u * span == 0.0
    ensures span < 0.0 ==> span < u * span <= 0.0
  {
    if 0.0 < span {
      PositiveProduct(1.0 - u, span);
      NonNegativeProduct(u, span);
      assert span - u * span == (1.0 - u) * span;
    } else if span < 0.0 {
      var flipped := -span;
      PositiveProduct(1.0 - u, flipped);
      NonNegativeProduct(u, flipped);
      assert flipped - u * flipped == (1.0 - u) * flipped;
      assert u * span == -(u * flipped);
    }
  }

  lemma PositiveProduct(a: real, b: real)
    requires 0.0 < a && 0.0 < b
    ensures 0.0 < a * b
  {
  }

  lemma NonNegativeProduct(a: real, b: real)
    requires 0.0 <= a && 0.0 <= b
    ensures 0.0 <= a * b
  {
  }

  /** Truncating a value that lies strictly between zero and an integer
      bound stays strictly inside that bound. */
  lemma TruncBelow(v: real, bound: int)
    requires 0 < bound ==> 0.0 <= v < bound as real
    requires bound == 0 ==> v == 0.0
    requires bound < 0 ==> bound as real < v <= 0.0
    ensures 0 < bound ==> 0 <= Trunc(v) < bound
    ensures bound == 0 ==> Trunc(v) == 0
    ensures bound < 0 ==> bound < Trunc(v) <= 0
  {
  }
}
