/** Sign and root facts about real products that the solver needs to be told. */
module RealFacts {
  lemma NonnegProduct(a: real, b: real)
    requires a >= 0.0 && b >= 0.0
    ensures a * b >= 0.0
  {}

  lemma PositiveProduct(a: real, b: real)
    requires a > 0.0 && b > 0.0
    ensures a * b > 0.0
  {}

  lemma NonnegFactor(a: real, b: real)
    requires b > 0.0 && a * b >= 0.0
    ensures a >= 0.0
  {}

  lemma Distribute(a: real, b: real, c: real)
    ensures a * (b + c) == a * b + a * c
  {}

  lemma QuotientTimes(a: real, d: real)
    requires d > 0.0
    ensures (a / d) * d == a
  {}

  lemma SameOrderTimes(x: real, y: real, d: real)
    requires d > 0.0
    ensures x <= y <==> x * d <= y * d
  {
    assert y * d - x * d == (y - x) * d;
    if x <= y {
      NonnegProduct(y - x, d);
    } else {
      PositiveProduct(x - y, d);
      assert (y - x) * d == -((x - y) * d);
    }
  }

  /** Dividing by one positive number keeps the order. */
  lemma QuotientOrder(a: real, b: real, d: real)
    requires d > 0.0
    ensures a <= b <==> a / d <= b / d
    ensures a == b <==> a / d == b / d
  {
    QuotientTimes(a, d);
    QuotientTimes(b, d);
    SameOrderTimes(a / d, b / d, d);
    SameOrderTimes(b / d, a / d, d);
  }

  lemma SquareSign(r: real)
    ensures r * r >= 0.0
    ensures r * r == 0.0 ==> r == 0.0
  {
    if r != 0.0 {
      assert r * r / r == r;
    }
  }

  lemma StrictSquares(u: real, r: real)
    requires u > r >= 0.0
    ensures u * u > r * r
  {
    PositiveProduct(u - r, u + r);
    assert u * u - r * r == (u - r) * (u + r);
  }

  /** r is the non-negative square root of a: what the source's `sqrt` stands for. */
  ghost predicate IsRoot(r: real, a: real) { r >= 0.0 && r * r == a }

  lemma UniqueRoot(r: real, s: real, a: real)
    requires IsRoot(r, a) && IsRoot(s, a)
    ensures r == s
  {
    if r > s {
      StrictSquares(r, s);
    } else if s > r {
      StrictSquares(s, r);
    }
  }
}
