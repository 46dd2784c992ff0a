/** Binomial coefficients and exact binomial tails. */
module Binomial {
  import opened RealFacts

  // ------------------------------------------------------------ coefficients

  /** `math.comb`, by Pascal's rule. */
  function Comb(n: nat, k: nat): nat {
    if k == 0 then 1 else if n == 0 then 0 else Comb(n - 1, k - 1) + Comb(n - 1, k)
  }

  function Factorial(n: nat): nat { if n == 0 then 1 else n * Factorial(n - 1) }

  lemma {:induction false} CombBeyond(n: nat, k: nat)
    requires k > n
    ensures Comb(n, k) == 0
  {
    if n > 0 {
      CombBeyond(n - 1, k - 1);
      CombBeyond(n - 1, k);
    }
  }

  /** Pascal's rule computes n! / (k! (n-k)!). */
  lemma {:induction false} CombFactorial(n: nat, k: nat)
    requires k <= n
    ensures Comb(n, k) * (Factorial(k) * Factorial(n - k)) == Factorial(n)
  {
    if k == 0 {
      assert Factorial(0) == 1;
    } else {
      var a, b := Comb(n - 1, k - 1), Comb(n - 1, k);
      CombFactorial(n - 1, k - 1);
      if k < n {
        CombFactorial(n - 1, k);
        assert Factorial(n - k) == (n - k) * Factorial(n - 1 - k);
      } else {
        CombBeyond(n - 1, k);
      }
      FactorialStep(n, k, a, b, Factorial(k - 1), Factorial(n - k),
                    if k < n then Factorial(n - 1 - k) else 0, Factorial(n - 1));
    }
  }

  lemma FactorialStep(n: nat, k: nat, a: nat, b: nat, fk: nat, fm: nat, fm': nat, fn: nat)
    requires 0 < k <= n && a * (fk * fm) == fn
    requires if k < n then fm == (n - k) * fm' && b * ((k * fk) * fm') == fn else b == 0
    ensures (a + b) * ((k * fk) * fm) == n * fn
  {
    assert a * ((k * fk) * fm) == k * (a * (fk * fm)) == k * fn;
    if k < n {
      assert b * ((k * fk) * ((n - k) * fm')) == (n - k) * (b * ((k * fk) * fm'));
      assert k * fn + (n - k) * fn == n * fn;
    }
    assert (a + b) * ((k * fk) * fm) == a * ((k * fk) * fm) + b * ((k * fk) * fm);
  }

  // ------------------------------------------------------------------- tails

  function Pow(p: real, k: nat): real { if k == 0 then 1.0 else p * Pow(p, k - 1) }

  function Product(a: real, x: real, y: real): real { a * x * y }

  /** The probability of exactly i successes in n trials. */
  function Mass(n: nat, p: real, i: nat): real {
    if i > n then 0.0 else Product(Comb(n, i) as real, Pow(p, i), Pow(1.0 - p, n - i))
  }

  /** The sum of the masses from k up to but not including m. */
  function MassBetween(n: nat, p: real, k: nat, m: nat): real {
    if m <= k then 0.0 else MassBetween(n, p, k, m - 1) + Mass(n, p, m - 1)
  }

  function Tail(k: nat, n: nat, p: real): real { MassBetween(n, p, k, n + 1) }

  /** P(X >= k), summed term by term. */
  method BinomTailGeq(k: nat, n: nat, p: real) returns (total: real)
    ensures total == Tail(k, n, p)
  {
    hide Comb, Pow;
    total := 0.0;
    var i := k;
    while i < n + 1
      invariant k <= i && (i <= n + 1 || i == k)
      invariant total == MassBetween(n, p, k, i)
    {
      total := total + Comb(n, i) as real * Pow(p, i) * Pow(1.0 - p, n - i);
      i := i + 1;
    }
  }

  /** Condition on the last trial. */
  lemma MassPascal(n: nat, p: real, i: nat)
    requires i > 0
    ensures Mass(n + 1, p, i) == p * Mass(n, p, i - 1) + (1.0 - p) * Mass(n, p, i)
  {
    hide Mass, Comb, Pow, Product;
    if i <= n {
      MassPascalInside(n, p, i, 1.0 - p);
    } else {
      NoMass(n, p, i);
      if i == n + 1 {
        MassPascalTop(n, p, 1.0 - p);
      } else {
        NoMass(n + 1, p, i);
        NoMass(n, p, i - 1);
      }
    }
  }

  lemma NoMass(n: nat, p: real, i: nat)
    requires i > n
    ensures Mass(n, p, i) == 0.0 && p * Mass(n, p, i) == 0.0 && (1.0 - p) * Mass(n, p, i) == 0.0
  {}

  lemma MassPascalInside(n: nat, p: real, i: nat, q: real)
    requires 0 < i <= n && q == 1.0 - p
    ensures Mass(n + 1, p, i) == p * Mass(n, p, i - 1) + q * Mass(n, p, i)
  {
    hide Pow, Comb, Product;
    CombStep(n, i);
    PowStep(p, i);
    PowStep(q, n + 1 - i);
    var a, b, x, y := Comb(n, i - 1) as real, Comb(n, i) as real, Pow(p, i - 1), Pow(q, n - i);
    var u, v := Pow(p, i), Pow(q, n + 1 - i);
    assert Mass(n + 1, p, i) == Product(a + b, u, v);
    assert Mass(n, p, i - 1) == Product(a, x, v);
    assert Mass(n, p, i) == Product(b, u, y);
    PascalArithmetic(a, b, x, y, p, q, u, v);
  }

  lemma MassPascalTop(n: nat, p: real, q: real)
    requires q == 1.0 - p
    ensures Mass(n + 1, p, n + 1) == p * Mass(n, p, n)
  {
    CombBeyond(n, n + 1);
    assert Comb(n + 1, n + 1) == Comb(n, n);
    PowStep(p, n + 1);
    hide Pow, Comb, Product;
    Reorder(Comb(n, n) as real, Pow(p, n), p, Pow(q, 0));
  }

  lemma CombStep(n: nat, i: nat)
    requires i > 0
    ensures Comb(n + 1, i) == Comb(n, i - 1) + Comb(n, i)
  {}

  lemma PowStep(p: real, k: nat)
    requires k > 0
    ensures Pow(p, k) == p * Pow(p, k - 1)
  {}

  lemma PascalArithmetic(a: real, b: real, x: real, y: real, p: real, q: real, u: real, v: real)
    requires u == p * x && v == q * y
    ensures Product(a + b, u, v) == p * Product(a, x, v) + q * Product(b, u, y)
  {
    assert a * u * v == p * (a * x * v);
    assert b * u * v == q * (b * u * y);
  }

  lemma Reorder(a: real, x: real, p: real, one: real)
    ensures Product(a, p * x, one) == p * Product(a, x, one)
  {}

  lemma BetweenStep(n: nat, p: real, k: nat, i: nat)
    requires k <= i
    ensures MassBetween(n, p, k, i + 1) == MassBetween(n, p, k, i) + Mass(n, p, i)
  {}

  lemma BetweenNone(n: nat, p: real, k: nat)
    ensures MassBetween(n, p, k, k) == 0.0
  {}

  lemma {:induction false} BetweenPascal(n: nat, p: real, k: nat, m: nat)
    requires 0 < k <= m
    ensures MassBetween(n + 1, p, k, m) == p * MassBetween(n, p, k - 1, m - 1) + (1.0 - p) * MassBetween(n, p, k, m)
    decreases m - k, 1
  {
    hide Mass, MassBetween;
    if m > k {
      BetweenPascalStep(n, p, k, m - 1);
    } else {
      BetweenNone(n + 1, p, k);
      BetweenNone(n, p, k - 1);
      BetweenNone(n, p, k);
      assert p * 0.0 + (1.0 - p) * 0.0 == 0.0;
    }
  }

  lemma {:induction false} BetweenPascalStep(n: nat, p: real, k: nat, i: nat)
    requires 0 < k <= i
    ensures MassBetween(n + 1, p, k, i + 1) == p * MassBetween(n, p, k - 1, i) + (1.0 - p) * MassBetween(n, p, k, i + 1)
    decreases i + 1 - k, 0
  {
    hide Mass, MassBetween;
    BetweenPascal(n, p, k, i);
    MassPascal(n, p, i);
    BetweenStep(n + 1, p, k, i);
    BetweenStep(n, p, k - 1, i - 1);
    BetweenStep(n, p, k, i);
    Combine(p, MassBetween(n, p, k - 1, i - 1), Mass(n, p, i - 1), MassBetween(n, p, k, i), Mass(n, p, i),
            MassBetween(n, p, k - 1, i), MassBetween(n, p, k, i + 1),
            MassBetween(n + 1, p, k, i), Mass(n + 1, p, i));
  }

  lemma Combine(p: real, a: real, b: real, c: real, d: real, x: real, y: real, u: real, v: real)
    requires x == a + b && y == c + d
    requires u == p * a + (1.0 - p) * c && v == p * b + (1.0 - p) * d
    ensures u + v == p * x + (1.0 - p) * y
  {}

  lemma NoMassBeyond(n: nat, p: real, k: nat)
    requires k <= n + 1
    ensures MassBetween(n, p, k, n + 2) == MassBetween(n, p, k, n + 1)
  {
    assert Mass(n, p, n + 1) == 0.0;
  }

  lemma TailPascal(k: nat, n: nat, p: real)
    requires 0 < k <= n + 1
    ensures Tail(k, n + 1, p) == p * Tail(k - 1, n, p) + (1.0 - p) * Tail(k, n, p)
  {
    hide Pow, Comb, Mass, MassBetween;
    BetweenPascal(n, p, k, n + 2);
    NoMassBeyond(n, p, k);
  }

  /** No more successes than trials. */
  lemma TailBeyond(k: nat, n: nat, p: real)
    requires k > n
    ensures Tail(k, n, p) == 0.0
  {}

  lemma {:induction false} FirstTerm(n: nat, p: real, k: nat, m: nat)
    requires k < m
    ensures MassBetween(n, p, k, m) == Mass(n, p, k) + MassBetween(n, p, k + 1, m)
    decreases m
  {
    if m > k + 1 {
      FirstTerm(n, p, k, m - 1);
    }
  }

  /** The masses of all outcomes add up to one. */
  lemma {:induction false} TailAll(n: nat, p: real)
    ensures Tail(0, n, p) == 1.0
  {
    if n == 0 {
      TailOfNothing(p);
    } else {
      TailAll(n - 1, p);
      TailAllStep(n - 1, p);
    }
  }

  lemma TailAllStep(m: nat, p: real)
    requires Tail(0, m, p) == 1.0
    ensures Tail(0, m + 1, p) == 1.0
  {
    hide Comb, Mass, MassBetween, Tail;
    TailOne(m, p);
    TailFirst(m + 1, p);
    TailFirst(m, p);
    NoSuccess(m, p);
    TotalArithmetic(p, Mass(m, p, 0), Tail(1, m, p), Tail(0, m, p), Mass(m + 1, p, 0), Tail(1, m + 1, p));
  }

  lemma TailFirst(n: nat, p: real)
    ensures Tail(0, n, p) == Mass(n, p, 0) + Tail(1, n, p)
  {
    hide Mass, MassBetween;
    FirstTerm(n, p, 0, n + 1);
  }

  lemma TailOne(n: nat, p: real)
    ensures Tail(1, n + 1, p) == p * Tail(0, n, p) + (1.0 - p) * Tail(1, n, p)
  {
    TailPascal(1, n, p);
  }

  lemma TailOfNothing(p: real)
    ensures Tail(0, 0, p) == 1.0
  {
    assert Pow(p, 0) == 1.0 && Pow(1.0 - p, 0) == 1.0;
    assert MassBetween(0, p, 0, 0) == 0.0;
  }

  lemma NoSuccess(n: nat, p: real)
    ensures Mass(n + 1, p, 0) == (1.0 - p) * Mass(n, p, 0)
  {
    assert Pow(p, 0) == 1.0;
  }

  lemma TotalArithmetic(p: real, m: real, t: real, all: real, m': real, t': real)
    requires all == 1.0 && all == m + t && m' == (1.0 - p) * m && t' == p * all + (1.0 - p) * t
    ensures m' + t' == 1.0
  {
    Distribute(1.0 - p, m, t);
  }

  lemma {:induction false} PowNonneg(p: real, k: nat)
    requires p >= 0.0
    ensures Pow(p, k) >= 0.0
  {
    if k > 0 {
      PowNonneg(p, k - 1);
    }
  }

  lemma MassNonneg(n: nat, p: real, i: nat)
    requires 0.0 <= p <= 1.0
    ensures Mass(n, p, i) >= 0.0
  {
    if i <= n {
      PowNonneg(p, i);
      PowNonneg(1.0 - p, n - i);
      Nonneg3(Comb(n, i) as real, Pow(p, i), Pow(1.0 - p, n - i));
    }
  }

  lemma Nonneg3(a: real, b: real, c: real)
    requires a >= 0.0 && b >= 0.0 && c >= 0.0
    ensures a * b * c >= 0.0
  {
    assert a * b >= 0.0;
  }

  lemma {:induction false} BetweenNonneg(n: nat, p: real, k: nat, m: nat)
    requires 0.0 <= p <= 1.0
    ensures MassBetween(n, p, k, m) >= 0.0
    decreases m
  {
    if m > k {
      BetweenNonneg(n, p, k, m - 1);
      MassNonneg(n, p, m - 1);
    }
  }

  /** A higher threshold is met less often; every tail is a probability. */
  lemma TailAntitone(k: nat, k': nat, n: nat, p: real)
    requires 0.0 <= p <= 1.0 && k <= k'
    ensures 0.0 <= Tail(k', n, p) <= Tail(k, n, p) <= 1.0
  {
    BetweenNonneg(n, p, k', n + 1);
    TailDrop(k, k', n, p);
    TailDrop(0, k, n, p);
    TailAll(n, p);
  }

  lemma {:induction false} TailDrop(k: nat, k': nat, n: nat, p: real)
    requires 0.0 <= p <= 1.0 && k <= k'
    ensures Tail(k', n, p) <= Tail(k, n, p)
    decreases k' - k
  {
    if k < k' {
      if k <= n {
        FirstTerm(n, p, k, n + 1);
        MassNonneg(n, p, k);
      }
      TailDrop(k + 1, k', n, p);
    }
  }

  /** A one-sided p-value grows with the null rate. */
  lemma {:induction false} TailMonotone(k: nat, n: nat, p: real, p': real)
    requires 0.0 <= p <= p' <= 1.0
    ensures Tail(k, n, p) <= Tail(k, n, p')
    decreases n
  {
    hide Comb, Mass, Pow;
    if k == 0 {
      TailAll(n, p);
      TailAll(n, p');
    } else if n > 0 && k <= n {
      hide MassBetween, Tail;
      TailMonotone(k - 1, n - 1, p, p');
      TailMonotone(k, n - 1, p, p');
      TailMonotoneStep(k, n - 1, p, p');
    }
  }

  lemma TailMonotoneStep(k: nat, m: nat, p: real, p': real)
    requires 0.0 <= p <= p' <= 1.0 && 0 < k <= m + 1
    requires Tail(k - 1, m, p) <= Tail(k - 1, m, p') && Tail(k, m, p) <= Tail(k, m, p')
    ensures Tail(k, m + 1, p) <= Tail(k, m + 1, p')
  {
    hide Tail;
    TailPascal(k, m, p);
    TailPascal(k, m, p');
    TailAntitone(k - 1, k, m, p);
    Interpolate(p, p', Tail(k - 1, m, p), Tail(k, m, p), Tail(k - 1, m, p'), Tail(k, m, p'));
  }

  lemma Interpolate(p: real, p': real, hi: real, lo: real, hi': real, lo': real)
    requires 0.0 <= p <= p' <= 1.0 && lo <= hi && hi <= hi' && lo <= lo'
    ensures p * hi + (1.0 - p) * lo <= p' * hi' + (1.0 - p') * lo'
  {
    NonnegProduct(p' - p, hi - lo);
    NonnegProduct(p', hi' - hi);
    NonnegProduct(1.0 - p', lo' - lo);
    assert p' * hi' + (1.0 - p') * lo' - (p * hi + (1.0 - p) * lo)
           == p' * (hi' - hi) + (1.0 - p') * (lo' - lo) + (p' - p) * (hi - lo);
  }
}
