/** Facts about products of reals that the solver is asked to use one at a time. */
module Arith {

  lemma ProductNonNegative(x: real, y: real)
    requires x >= 0.0 && y >= 0.0
    ensures x * y >= 0.0
  {
  }

  lemma MulMonotone(x: real, y: real, k: real)
    requires x <= y && k >= 0.0
    ensures x * k <= y * k
  {
    ProductNonNegative(y - x, k);
  }

  lemma MulStrict(x: real, y: real, k: real)
    requires x < y && k > 0.0
    ensures x * k < y * k
  {
    assert (y - x) * k > 0.0;
  }

  lemma Cancel(x: real, y: real, k: real)
    requires x * k <= y * k && k > 0.0
    ensures x <= y
  {
  }

  lemma QuotientTimes(x: real, k: real)
    requires k != 0.0
    ensures x / k * k == x
  {
  }

  /** `x / a <= y / b` exactly when the cross products are ordered. */
  lemma QuotientOrder(x: real, a: real, y: real, b: real)
    requires a > 0.0 && b > 0.0
    ensures x / a <= y / b <==> x * b <= y * a
  {
    var u, v := x / a, y / b;
    QuotientTimes(x, a);
    QuotientTimes(y, b);
    CrossProducts(u, v, a, b);
  }

  lemma CrossProducts(u: real, v: real, a: real, b: real)
    requires a > 0.0 && b > 0.0
    ensures u <= v <==> (u * a) * b <= (v * b) * a
  {
    assert (u * a) * b == u * (a * b);
    assert (v * b) * a == v * (a * b);
    assert a * b > 0.0;
    if u <= v {
      MulMonotone(u, v, a * b);
    } else {
      MulStrict(v, u, a * b);
    }
  }

  lemma QuotientCap(x: real, k: real, cap: real)
    requires k > 0.0
    ensures x / k <= cap <==> x <= cap * k
  {
    QuotientTimes(x, k);
    TimesOrder(x / k, cap, k);
  }

  lemma TimesOrder(u: real, v: real, k: real)
    requires k > 0.0
    ensures u <= v <==> u * k <= v * k
  {
    if u <= v {
      MulMonotone(u, v, k);
    } else {
      MulStrict(v, u, k);
    }
  }

  lemma NegatedQuotient(x: real, k: real)
    requires k > 0.0
    ensures (-x) / k == -(x / k)
  {
    QuotientTimes(x, k);
    QuotientTimes(-x, k);
    assert ((-x) / k + x / k) * k == 0.0;
  }
}
