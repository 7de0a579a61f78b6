/** The exponential as a parameter.
    Every evaluator of the engine calls `exp` on real arguments; what the model needs of it is the list
    below. Each law is a named predicate, so that a proof instantiates it by asserting the one instance
    it uses. */
module Exponential {

  ghost predicate SumLaw(e: real -> real, a: real, b: real) {
    e(a + b) == e(a) * e(b)
  }

  ghost predicate Positive(e: real -> real, a: real) {
    e(a) > 0.0
  }

  ghost predicate Increasing(e: real -> real, a: real, b: real) {
    a < b ==> e(a) < e(b)
  }

  ghost predicate IsExp(e: real -> real) {
    && e(0.0) == 1.0
    && (forall a, b :: SumLaw(e, a, b))
    && (forall a :: Positive(e, a))
    && (forall a, b :: Increasing(e, a, b))
  }

  /** `ln` is the right inverse of `e` on the positive reals. */
  ghost predicate InverseAt(e: real -> real, ln: real -> real, y: real) {
    y > 0.0 ==> e(ln(y)) == y
  }

  ghost predicate IsLn(e: real -> real, ln: real -> real) {
    forall y :: InverseAt(e, ln, y)
  }

  /** A score re-based from anchor `a` to anchor `b`: the two factors of the max-shift multiply. */
  lemma {:induction false} RebaseFactor(e: real -> real, s: real, a: real, b: real, t: real)
    requires IsExp(e) && t > 0.0
    ensures e((s - b) / t) == e((a - b) / t) * e((s - a) / t)
  {
    assert (s - b) / t == (a - b) / t + (s - a) / t;
    assert SumLaw(e, (a - b) / t, (s - a) / t);
  }

  lemma {:induction false} Monotone(e: real -> real, a: real, b: real)
    requires IsExp(e) && a <= b
    ensures 0.0 < e(a) <= e(b)
  {
    assert Positive(e, a) && Increasing(e, a, b);
  }

  lemma {:induction false} DivideMonotone(a: real, b: real, t: real)
    requires a <= b && t > 0.0
    ensures a / t <= b / t
  {
    assert (b - a) / t >= 0.0;
  }

  lemma {:induction false} Reciprocal(e: real -> real, a: real)
    requires IsExp(e)
    ensures e(-a) * e(a) == 1.0
  {
    assert SumLaw(e, -a, a);
  }
}
