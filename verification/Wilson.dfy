/** The Wilson score interval in exact arithmetic, with the square root as a witness. */
module Wilson {
  import opened RealFacts

  datatype Interval = Interval(lo: real, hi: real)

  function Radicand(p: real, n: real, z: real): real
    requires n > 0.0
  {
    p * (1.0 - p) / n + z * z / (4.0 * n * n)
  }

  function Denominator(n: real, z: real): real
    requires n > 0.0
  {
    1.0 + z * z / n
  }

  lemma DenominatorPositive(n: real, z: real)
    requires n > 0.0
    ensures Denominator(n, z) >= 1.0
  {
    SquareSign(z);
    RatioNonneg(z * z, n);
  }

  lemma RatioNonneg(a: real, d: real)
    requires a >= 0.0 && d > 0.0
    ensures a / d >= 0.0
  {}

  /** Centre and margin before clamping; root is the square root of the radicand. */
  function Centre(p: real, n: real, z: real): real
    requires n > 0.0
  {
    DenominatorPositive(n, z);
    (p + z * z / (2.0 * n)) / Denominator(n, z)
  }

  function Margin(n: real, z: real, root: real): real
    requires n > 0.0
  {
    DenominatorPositive(n, z);
    z * root / Denominator(n, z)
  }

  function Rate(k: nat, n: nat): real
    requires n > 0
  {
    k as real / n as real
  }

  /** The source's interval for k successes in n trials, clamped to [0, 1]. */
  function WilsonInterval(k: nat, n: nat, z: real, root: real): Interval {
    if n == 0 then Interval(0.0, 1.0)
    else
      var p := Rate(k, n);
      var lo := Centre(p, n as real, z) - Margin(n as real, z, root);
      var hi := Centre(p, n as real, z) + Margin(n as real, z, root);
      Interval(if lo > 0.0 then lo else 0.0, if hi < 1.0 then hi else 1.0)
  }

  // -------------------------------------------------------- the score equation

  lemma Cancel(d: real, x: real, y: real)
    requires d > 0.0 && d * x == d * y
    ensures x == y
  {
    assert d * x / d == x && d * y / d == y;
  }

  /** The two numbers that centre and margin are built from, over w = z^2 / n. */
  lemma Ingredients(p: real, n: real, z: real, root: real)
    requires n > 0.0 && IsRoot(root, Radicand(p, n, z))
    ensures var w, d, c, m := z * z / n, Denominator(n, z), Centre(p, n, z), Margin(n, z, root);
            && w >= 0.0 && d == 1.0 + w
            && c * d == p + w / 2.0
            && m * d == z * root
            && (z * root) * (z * root) == w * (p * (1.0 - p)) + w * w / 4.0
  {
    var w := z * z / n;
    SquareSign(z);
    RatioNonneg(z * z, n);
    HalfRatio(z * z, n);
    RootSquare(p, n, z, root, w);
  }

  lemma HalfRatio(a: real, n: real)
    requires n > 0.0
    ensures a / (2.0 * n) == a / n / 2.0
  {
    var w := a / n;
    assert w * n == a;
    assert w / 2.0 * (2.0 * n) == a;
  }

  lemma RootSquare(p: real, n: real, z: real, root: real, w: real)
    requires n > 0.0 && w == z * z / n && root * root == Radicand(p, n, z)
    ensures (z * root) * (z * root) == w * (p * (1.0 - p)) + w * w / 4.0
  {
    var v := p * (1.0 - p);
    var a, b := v / n, z * z / (4.0 * n * n);
    assert w * n == z * z;
    ScaleFirst(z * z, v, n, w);
    ScaleSecond(z * z, n, w);
    assert (z * root) * (z * root) == z * z * (root * root);
    assert z * z * (a + b) == z * z * a + z * z * b;
  }

  lemma ScaleFirst(s: real, v: real, n: real, w: real)
    requires n > 0.0 && w * n == s
    ensures s * (v / n) == w * v
  {
    var a := v / n;
    assert a * n == v;
    assert s * a == w * (a * n);
  }

  lemma ScaleSecond(s: real, n: real, w: real)
    requires n > 0.0 && w * n == s
    ensures s * (s / (4.0 * n * n)) == w * w / 4.0
  {
    PositiveProduct(n, n);
    var b := s / (4.0 * n * n);
    assert b * (4.0 * n * n) == s;
    assert n * (4.0 * (b * n)) == n * w;
    Cancel(n, 4.0 * (b * n), w);
    assert s * b == w * (b * n);
  }

  lemma ProductOfEnds(p: real, w: real, d: real, c: real, m: real)
    requires w >= 0.0 && d == 1.0 + w && c * d == p + w / 2.0
    requires (m * d) * (m * d) == w * (p * (1.0 - p)) + w * w / 4.0
    ensures d * (c * c - m * m) == p * p
  {
    assert d * (d * (c * c - m * m)) == (c * d) * (c * d) - (m * d) * (m * d);
    assert (c * d) * (c * d) == p * p + p * w + w * w / 4.0;
    assert d * (d * (c * c - m * m)) == d * (p * p);
    Cancel(d, d * (c * c - m * m), p * p);
  }

  /** q solves the score equation of the binomial proportion p. */
  ghost predicate Score(p: real, w: real, q: real) {
    (p - q) * (p - q) == w * (q * (1.0 - q))
  }

  lemma EndScores(p: real, w: real, d: real, c: real, m: real, q: real)
    requires d == 1.0 + w && c * d == p + w / 2.0 && d * (c * c - m * m) == p * p
    requires q == c + m || q == c - m
    ensures Score(p, w, q)
  {
    assert (p - q) * (p - q) - w * (q * (1.0 - q)) == d * (q * q) - 2.0 * (c * d) * q + p * p;
    assert q * q == 2.0 * (c * q) - (c * c - m * m);
    assert d * (q * q) == 2.0 * (c * d) * q - d * (c * c - m * m);
  }

  lemma ScoreInUnit(p: real, w: real, q: real)
    requires w >= 0.0 && 0.0 <= p <= 1.0 && Score(p, w, q)
    ensures 0.0 <= q <= 1.0
  {
    SquareSign(p - q);
    if w == 0.0 {
      SquareSign(p - q);
    } else if q < 0.0 {
      PositiveProduct(-q, 1.0 - q);
      PositiveProduct(w, (-q) * (1.0 - q));
    } else if q > 1.0 {
      PositiveProduct(q, q - 1.0);
      PositiveProduct(w, q * (q - 1.0));
    }
  }

  /** The estimate lies between the ends exactly when the margin is not negative. */
  lemma Between(p: real, w: real, d: real, c: real, m: real)
    requires w >= 0.0 && d == 1.0 + w && 0.0 <= p <= 1.0
    requires c * d == p + w / 2.0 && d * (c * c - m * m) == p * p
    ensures c - m <= p <= c + m <==> m >= 0.0
  {
    NonnegProduct(p, 1.0 - p);
    NonnegProduct(w, p * (1.0 - p));
    var x, y := p - (c - m), (c + m) - p;
    assert d * (x * y) == -(d * (p * p) - 2.0 * (c * d) * p + d * (c * c - m * m));
    assert d * (x * y) == w * (p * (1.0 - p));
    if m >= 0.0 {
      if x < 0.0 && y > 0.0 {
        PositiveProduct(-x, y);
        PositiveProduct(d, (-x) * y);
      } else if x > 0.0 && y < 0.0 {
        PositiveProduct(x, -y);
        PositiveProduct(d, x * (-y));
      }
    }
  }

  // ------------------------------------------------------------ main results

  lemma Proportion(k: nat, n: nat)
    requires k <= n && n > 0
    ensures 0.0 <= Rate(k, n) <= 1.0
    ensures Rate(n - k, n) == 1.0 - Rate(k, n)
  {
    Complement(k as real, n as real);
    assert (n - k) as real == n as real - k as real;
  }

  lemma Complement(a: real, d: real)
    requires d > 0.0
    ensures (d - a) / d == 1.0 - a / d
  {
    assert d * ((d - a) / d) == d - a && d * (a / d) == a;
    assert d * (1.0 - a / d) == d - a;
    Cancel(d, (d - a) / d, 1.0 - a / d);
  }

  /** Both ends solve the score equation, and they lie in [0, 1] before any clamping. */
  lemma EndsSolveScore(k: nat, n: nat, z: real, root: real)
    requires k <= n && n > 0 && IsRoot(root, Radicand(Rate(k, n), n as real, z))
    ensures var p, w := Rate(k, n), z * z / n as real;
            var c, m := Centre(p, n as real, z), Margin(n as real, z, root);
            && Score(p, w, c - m) && Score(p, w, c + m)
            && 0.0 <= c - m <= 1.0 && 0.0 <= c + m <= 1.0
            && WilsonInterval(k, n, z, root) == Interval(c - m, c + m)
  {
    hide Radicand, Centre, Margin, Score, Rate;
    Proportion(k, n);
    ScalarEnds(Rate(k, n), n as real, z, root);
  }

  lemma ScalarEnds(p: real, n: real, z: real, root: real)
    requires n > 0.0 && 0.0 <= p <= 1.0 && IsRoot(root, Radicand(p, n, z))
    ensures var w, c, m := z * z / n, Centre(p, n, z), Margin(n, z, root);
            && Score(p, w, c - m) && Score(p, w, c + m)
            && 0.0 <= c - m <= 1.0 && 0.0 <= c + m <= 1.0
  {
    hide Radicand, Centre, Margin, Score;
    var w, c, m, d := z * z / n, Centre(p, n, z), Margin(n, z, root), Denominator(n, z);
    Ingredients(p, n, z, root);
    ProductOfEnds(p, w, d, c, m);
    EndScores(p, w, d, c, m, c - m);
    EndScores(p, w, d, c, m, c + m);
    ScoreInUnit(p, w, c - m);
    ScoreInUnit(p, w, c + m);
  }

  /** Without trials nothing is excluded. */
  lemma NoTrials(k: nat, z: real, root: real)
    ensures WilsonInterval(k, 0, z, root) == Interval(0.0, 1.0)
  {}

  /** The interval contains the observed proportion exactly when z is not negative. */
  lemma CoversEstimate(k: nat, n: nat, z: real, root: real)
    requires k <= n && n > 0 && IsRoot(root, Radicand(Rate(k, n), n as real, z))
    ensures var i, p := WilsonInterval(k, n, z, root), Rate(k, n);
            i.lo <= p <= i.hi <==> z >= 0.0
  {
    hide Radicand, WilsonInterval, Centre, Margin, Score, Rate;
    Proportion(k, n);
    EndsSolveScore(k, n, z, root);
    CoversScalar(Rate(k, n), n as real, z, root);
  }

  lemma CoversScalar(p: real, n: real, z: real, root: real)
    requires n > 0.0 && 0.0 <= p <= 1.0 && IsRoot(root, Radicand(p, n, z))
    ensures Centre(p, n, z) - Margin(n, z, root) <= p <= Centre(p, n, z) + Margin(n, z, root) <==> z >= 0.0
  {
    hide Radicand, Centre, Margin;
    var c, m, d, w := Centre(p, n, z), Margin(n, z, root), Denominator(n, z), z * z / n;
    Ingredients(p, n, z, root);
    ProductOfEnds(p, w, d, c, m);
    Between(p, w, d, c, m);
    MarginSign(p, n, z, root, m, d, w);
  }

  lemma MarginSign(p: real, n: real, z: real, root: real, m: real, d: real, w: real)
    requires n > 0.0 && 0.0 <= p <= 1.0 && root >= 0.0 && d == 1.0 + w && w == z * z / n >= 0.0
    requires m * d == z * root && (z * root) * (z * root) == w * (p * (1.0 - p)) + w * w / 4.0
    ensures m >= 0.0 <==> z >= 0.0
  {
    NonnegProduct(p, 1.0 - p);
    NonnegProduct(w, p * (1.0 - p));
    if z >= 0.0 {
      NonnegProduct(z, root);
      if m < 0.0 {
        PositiveProduct(-m, d);
      }
    } else {
      SquareSign(z);
      assert w * n == z * z;
      PositiveFactor(w, n);
      PositiveProduct(w, w);
      assert w * (p * (1.0 - p)) + w * w / 4.0 > 0.0;
      NonzeroSquare(z * root);
      NonnegProduct(-z, root);
      if m >= 0.0 {
        NonnegProduct(m, d);
      }
    }
  }

  lemma PositiveFactor(w: real, n: real)
    requires n > 0.0 && w >= 0.0 && w * n > 0.0
    ensures w > 0.0
  {}

  lemma NonzeroSquare(x: real)
    requires x * x > 0.0
    ensures x != 0.0
  {}

  /** e solves the score equation of k successes in n trials, cleared of fractions. */
  ghost predicate Solves(k: real, n: real, z: real, e: real) {
    (k - n * e) * (k - n * e) == z * z * (n * (e * (1.0 - e)))
  }

  lemma ScoreCleared(p: real, w: real, q: real, n: real, k: real, z: real)
    requires p * n == k && w * n == z * z && Score(p, w, q)
    ensures Solves(k, n, z, q)
  {
    var d, v := p - q, q * (1.0 - q);
    assert k - n * q == n * d;
    assert (n * d) * (n * d) == n * n * (d * d);
    assert n * n * (w * v) == (w * n) * (n * v);
  }

  /** k / n lies in the interval. */
  ghost predicate Covers(i: Interval, k: real, n: real) { i.lo * n <= k <= i.hi * n }

  /** The source's square root, cleared of fractions. */
  ghost predicate RootOf(root: real, k: real, n: real, z: real) {
    root >= 0.0 && n * ((n * root) * (n * root)) == k * (n - k) + n * (z * z / 4.0)
  }

  lemma Quarter(s: real, n: real, m: real)
    requires n > 0.0 && m > 0.0
    ensures n * m * (s / (4.0 * n * m)) == s / 4.0
  {
    PositiveProduct(n, m);
    var c := 4.0 * n * m;
    QuotientTimes(s, c);
    assert n * m * (s / c) == c * (s / c) / 4.0;
  }

  /** The two factors that are n each are kept apart, which the solver finds easier. */
  lemma RadicandCleared(v: real, s: real, n: real, m: real, r: real, rad: real)
    requires n > 0.0 && m > 0.0 && rad == v / n + s / (4.0 * n * m)
    requires n * (n * m * r) == n * m * v + n * (s / 4.0)
    ensures r == rad
  {
    PositiveProduct(n, m);
    PositiveProduct(n, n * m);
    QuotientTimes(v, n);
    Quarter(s, n, m);
    var a, b := v / n, s / (4.0 * n * m);
    assert n * (n * m) * (a + b) == n * m * (a * n) + n * (n * m * b);
    assert n * (n * m) * r == n * (n * m * r);
    Cancel(n * (n * m), r, a + b);
  }

  lemma RootCleared(p: real, n: real, k: real, z: real, root: real)
    requires n > 0.0 && p * n == k && RootOf(root, k, n, z)
    ensures IsRoot(root, Radicand(p, n, z))
  {
    SpreadCleared(p, n, k);
    assert n * (n * n * (root * root)) == n * ((n * root) * (n * root));
    RadicandCleared(p * (1.0 - p), z * z, n, n, root * root, Radicand(p, n, z));
  }

  lemma SpreadCleared(p: real, n: real, k: real)
    requires p * n == k
    ensures n * n * (p * (1.0 - p)) == k * (n - k)
  {
    assert n * n * (p * (1.0 - p)) == (p * n) * (n - p * n);
  }

  lemma RateTimes(k: nat, n: nat)
    requires n > 0
    ensures Rate(k, n) * n as real == k as real
  {
    QuotientTimes(k as real, n as real);
  }

  lemma RootForRate(k: nat, n: nat, z: real, root: real)
    requires n > 0 && RootOf(root, k as real, n as real, z)
    ensures IsRoot(root, Radicand(Rate(k, n), n as real, z))
  {
    hide Rate, Radicand, RootOf;
    RateTimes(k, n);
    RootCleared(Rate(k, n), n as real, k as real, z, root);
  }

  ghost predicate InUnit(i: Interval) { 0.0 <= i.lo <= 1.0 && 0.0 <= i.hi <= 1.0 }

  ghost predicate EndsScore(i: Interval, p: real, w: real) { Score(p, w, i.lo) && Score(p, w, i.hi) && InUnit(i) }

  lemma IntervalScores(k: nat, n: nat, z: real, root: real) returns (w: real)
    requires k <= n && n > 0 && IsRoot(root, Radicand(Rate(k, n), n as real, z))
    ensures w * n as real == z * z && EndsScore(WilsonInterval(k, n, z, root), Rate(k, n), w)
  {
    w := z * z / n as real;
    QuotientTimes(z * z, n as real);
    hide Rate, Radicand, Centre, Margin, Score, WilsonInterval, IsRoot;
    EndsSolveScore(k, n, z, root);
  }

  lemma IntervalCleared(i: Interval, p: real, w: real, k: real, n: real, z: real)
    requires p * n == k && w * n == z * z && EndsScore(i, p, w)
    ensures Solves(k, n, z, i.lo) && Solves(k, n, z, i.hi) && InUnit(i)
  {
    hide Solves, Score, InUnit;
    ScoreCleared(p, w, i.lo, n, k, z);
    ScoreCleared(p, w, i.hi, n, k, z);
  }

  lemma BetweenCleared(i: Interval, p: real, k: real, n: real)
    requires n > 0.0 && p * n == k
    ensures Covers(i, k, n) <==> i.lo <= p <= i.hi
  {
    SameOrderTimes(i.lo, p, n);
    SameOrderTimes(p, i.hi, n);
  }

  /** In terms of the counts, with root the source's square root: both ends solve the score equation. */
  lemma EndsExact(k: nat, n: nat, z: real, root: real)
    requires k <= n && n > 0 && RootOf(root, k as real, n as real, z)
    ensures var i := WilsonInterval(k, n, z, root);
            Solves(k as real, n as real, z, i.lo) && Solves(k as real, n as real, z, i.hi) && InUnit(i)
  {
    hide Rate, Radicand, Solves, RootOf, WilsonInterval, IsRoot, EndsScore, InUnit;
    RateTimes(k, n);
    RootForRate(k, n, z, root);
    var w := IntervalScores(k, n, z, root);
    IntervalCleared(WilsonInterval(k, n, z, root), Rate(k, n), w, k as real, n as real, z);
  }

  /** And k / n lies between them if and only if z is not negative. */
  lemma CoversExact(k: nat, n: nat, z: real, root: real)
    requires k <= n && n > 0 && RootOf(root, k as real, n as real, z)
    ensures Covers(WilsonInterval(k, n, z, root), k as real, n as real) <==> z >= 0.0
  {
    hide Rate, Radicand, RootOf, WilsonInterval, IsRoot, Covers;
    RateTimes(k, n);
    RootForRate(k, n, z, root);
    CoversEstimate(k, n, z, root);
    BetweenCleared(WilsonInterval(k, n, z, root), Rate(k, n), k as real, n as real);
  }

  /** Counting failures instead of successes mirrors the interval. */
  lemma Mirror(k: nat, n: nat, z: real, root: real, root': real)
    requires k <= n && n > 0
    requires IsRoot(root, Radicand(Rate(k, n), n as real, z))
    requires IsRoot(root', Radicand(Rate(n - k, n), n as real, z))
    ensures WilsonInterval(n - k, n, z, root').lo == 1.0 - WilsonInterval(k, n, z, root).hi
    ensures WilsonInterval(n - k, n, z, root').hi == 1.0 - WilsonInterval(k, n, z, root).lo
  {
    var p := Rate(k, n);
    Proportion(k, n);
    SameRadicand(p, n as real, z);
    UniqueRoot(root, root', Radicand(p, n as real, z));
    MirrorCentre(p, n as real, z);
    EndsSolveScore(k, n, z, root);
    EndsSolveScore(n - k, n, z, root');
  }

  lemma SameRadicand(p: real, n: real, z: real)
    requires n > 0.0
    ensures Radicand(1.0 - p, n, z) == Radicand(p, n, z)
  {
    assert (1.0 - p) * (1.0 - (1.0 - p)) == p * (1.0 - p);
  }

  lemma MirrorCentre(p: real, n: real, z: real)
    requires n > 0.0
    ensures Centre(1.0 - p, n, z) == 1.0 - Centre(p, n, z)
  {
    var d := Denominator(n, z);
    DenominatorPositive(n, z);
    HalfRatio(z * z, n);
    var w := z * z / n;
    assert (1.0 - p + w / 2.0) / d + (p + w / 2.0) / d == (1.0 + w) / d == 1.0;
  }
}
