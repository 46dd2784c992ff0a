/** The exact two-sided McNemar test on discordant pairs, before its final rounding. */
module McNemar {
  import opened Binomial
  import opened RealFacts

  datatype Report = Report(aOnly: nat, bOnly: nat, p: real)

  /** Positions, up to the shorter list, where the first is right and the second is not. */
  function OnlyFirst(a: seq<bool>, b: seq<bool>): nat { OnlyFirstUpTo(a, b, Smaller(|a|, |b|)) }

  function OnlyFirstUpTo(a: seq<bool>, b: seq<bool>, n: nat): nat
    requires n <= |a| && n <= |b|
  {
    if n == 0 then 0 else OnlyFirstUpTo(a, b, n - 1) + if a[n - 1] && !b[n - 1] then 1 else 0
  }

  function TwoTo(n: nat): nat { if n == 0 then 1 else 2 * TwoTo(n - 1) }

  /** The sum of the binomial coefficients up to k. */
  function Low(n: nat, k: int): nat
    decreases k + 1
  {
    if k < 0 then 0 else Low(n, k - 1) + Comb(n, k)
  }

  function Smaller(a: nat, b: nat): nat { if a <= b then a else b }

  /** Twice the smaller tail, not yet clamped. */
  function Doubled(aOnly: nat, bOnly: nat): real {
    TwoToPositive(aOnly + bOnly);
    2.0 * (Low(aOnly + bOnly, Smaller(aOnly, bOnly)) as real / TwoTo(aOnly + bOnly) as real)
  }

  function PTwoSided(aOnly: nat, bOnly: nat): real {
    if aOnly + bOnly == 0 then 1.0
    else if Doubled(aOnly, bOnly) <= 1.0 then Doubled(aOnly, bOnly) else 1.0
  }

  function Test(a: seq<bool>, b: seq<bool>): Report {
    var bOnly, aOnly := OnlyFirst(b, a), OnlyFirst(a, b);
    Report(aOnly, bOnly, PTwoSided(aOnly, bOnly))
  }

  lemma {:induction false} TwoToPositive(n: nat)
    ensures TwoTo(n) > 0
  {
    if n > 0 {
      TwoToPositive(n - 1);
    }
  }

  lemma {:induction false} LowPascal(n: nat, k: int)
    ensures Low(n + 1, k) == Low(n, k) + Low(n, k - 1)
    decreases k + 1
  {
    if k >= 0 {
      LowPascal(n, k - 1);
      assert k > 0 ==> Comb(n + 1, k) == Comb(n, k - 1) + Comb(n, k);
    }
  }

  lemma {:induction false} LowOfNone(k: int)
    ensures Low(0, k) == if k < 0 then 0 else 1
    decreases k + 1
  {
    if k >= 0 {
      LowOfNone(k - 1);
    }
  }

  /** The two ends of a row of Pascal's triangle make up the whole row. */
  lemma {:induction false} LowReflect(n: nat, k: int)
    ensures Low(n, k) + Low(n, n - 1 - k) == TwoTo(n)
    decreases n
  {
    hide Comb, Low;
    if n == 0 {
      LowOfNone(k);
      LowOfNone(-1 - k);
    } else {
      LowPascal(n - 1, k);
      LowPascal(n - 1, n - 1 - k);
      LowReflect(n - 1, k);
      LowReflect(n - 1, k - 1);
    }
  }

  lemma {:induction false} LowMono(n: nat, j: int, k: int)
    requires j <= k
    ensures Low(n, j) <= Low(n, k)
    decreases k - j
  {
    if j < k {
      LowMono(n, j, k - 1);
    }
  }

  lemma {:induction false} CombPositive(n: nat, k: nat)
    requires k <= n
    ensures Comb(n, k) > 0
  {
    if 0 < k {
      CombPositive(n - 1, k - 1);
    }
  }

  lemma LowPositive(n: nat, k: nat)
    ensures Low(n, k) > 0
  {
    LowMono(n, 0, k);
    assert Low(n, 0) == Low(n, -1) + 1;
  }

  /** At most half the row lies strictly left of the middle; at a tie, more than half. */
  lemma HalfRow(aOnly: nat, bOnly: nat)
    requires aOnly + bOnly > 0
    ensures var n, k := aOnly + bOnly, Smaller(aOnly, bOnly);
            aOnly == bOnly ==> 2 * Low(n, k) == TwoTo(n) + Comb(n, k)
    ensures var n, k := aOnly + bOnly, Smaller(aOnly, bOnly);
            aOnly == bOnly <==> 2 * Low(n, k) > TwoTo(n)
  {
    var n, k := aOnly + bOnly, Smaller(aOnly, bOnly);
    LowReflect(n, k);
    if aOnly == bOnly {
      CombPositive(n, k);
    } else {
      LowMono(n, k, n - 1 - k);
    }
  }

  lemma RatioOrder(low: nat, all: nat)
    requires all > 0
    ensures 2.0 * (low as real / all as real) <= 1.0 <==> 2 * low <= all
    ensures low > 0 ==> 2.0 * (low as real / all as real) > 0.0
  {
    HalfOrder(low as real, all as real);
    if low > 0 {
      PositiveRatio(low as real, all as real);
    }
  }

  lemma HalfOrder(l: real, t: real)
    requires t > 0.0
    ensures 2.0 * (l / t) <= 1.0 <==> 2.0 * l <= t
  {
    var q := l / t;
    assert q * t == l;
    if q <= 0.5 {
      NonnegProduct(0.5 - q, t);
    } else {
      PositiveProduct(q - 0.5, t);
    }
  }

  lemma PositiveRatio(l: real, t: real)
    requires l > 0.0 && t > 0.0
    ensures l / t > 0.0
  {}

  /** The clamp changes the value exactly when the discordant counts tie. */
  lemma ClampExactlyAtTies(aOnly: nat, bOnly: nat)
    requires aOnly + bOnly > 0
    ensures PTwoSided(aOnly, bOnly) != Doubled(aOnly, bOnly) <==> aOnly == bOnly
    ensures aOnly == bOnly ==> PTwoSided(aOnly, bOnly) == 1.0
  {
    var n := aOnly + bOnly;
    TwoToPositive(n);
    HalfRow(aOnly, bOnly);
    RatioOrder(Low(n, Smaller(aOnly, bOnly)), TwoTo(n));
  }

  /** The p-value is a positive probability and does not depend on which method comes first. */
  lemma PValueLaws(a: seq<bool>, b: seq<bool>)
    ensures 0.0 < Test(a, b).p <= 1.0
    ensures Test(b, a) == Report(Test(a, b).bOnly, Test(a, b).aOnly, Test(a, b).p)
  {
    var aOnly, bOnly := OnlyFirst(a, b), OnlyFirst(b, a);
    assert Smaller(aOnly, bOnly) == Smaller(bOnly, aOnly) && aOnly + bOnly == bOnly + aOnly;
    if aOnly + bOnly > 0 {
      TwoToPositive(aOnly + bOnly);
      LowPositive(aOnly + bOnly, Smaller(aOnly, bOnly));
      RatioOrder(Low(aOnly + bOnly, Smaller(aOnly, bOnly)), TwoTo(aOnly + bOnly));
    }
  }

  // -------------------------------------------------- what is counted and summed

  lemma {:induction false} OnlyFirstSet(a: seq<bool>, b: seq<bool>, n: nat)
    requires n <= |a| && n <= |b|
    ensures OnlyFirstUpTo(a, b, n) == |set i | 0 <= i < n && a[i] && !b[i]|
  {
    var all := set i | 0 <= i < n && a[i] && !b[i];
    if n > 0 {
      OnlyFirstSet(a, b, n - 1);
      var before := set i | 0 <= i < n - 1 && a[i] && !b[i];
      assert all == if a[n - 1] && !b[n - 1] then before + {n - 1} else before;
    } else {
      assert all == {};
    }
  }

  /** The two counts are the items, within the shorter list, that one method gets right and the other wrong. */
  lemma CountsExact(a: seq<bool>, b: seq<bool>)
    ensures var n := if |a| <= |b| then |a| else |b|;
            && Test(a, b).aOnly == |set i | 0 <= i < n && a[i] && !b[i]|
            && Test(a, b).bOnly == |set i | 0 <= i < n && b[i] && !a[i]|
  {
    var n := if |a| <= |b| then |a| else |b|;
    OnlyFirstSet(a, b, n);
    OnlyFirstSet(b, a, n);
  }

  lemma {:induction false} PowAdd(p: real, i: nat, j: nat)
    ensures Pow(p, i) * Pow(p, j) == Pow(p, i + j)
  {
    if i > 0 {
      PowAdd(p, i - 1, j);
      TimesAssoc(p, Pow(p, i - 1), Pow(p, j));
    }
  }

  lemma TimesAssoc(a: real, b: real, c: real)
    ensures (a * b) * c == a * (b * c)
  {}

  lemma {:induction false} HalfPower(n: nat)
    ensures TwoTo(n) as real * Pow(0.5, n) == 1.0
  {
    if n > 0 {
      HalfPower(n - 1);
      HalfStep(TwoTo(n - 1) as real, Pow(0.5, n - 1));
      assert TwoTo(n) as real == 2.0 * TwoTo(n - 1) as real;
    }
  }

  lemma HalfStep(t: real, h: real)
    requires t * h == 1.0
    ensures (2.0 * t) * (0.5 * h) == 1.0
  {}

  function Scale(a: real, t: real): real { a * t }

  /** At one half every outcome has its binomial coefficient's share of 2^n. */
  lemma HalfMass(n: nat, i: nat)
    ensures Scale(Mass(n, 0.5, i), TwoTo(n) as real) == Comb(n, i) as real
  {
    hide Mass, Comb, TwoTo, Scale;
    if i <= n {
      HalfMassWithin(n, i);
    } else {
      NoMass(n, i);
      ScaleNothing(TwoTo(n) as real);
    }
  }

  lemma ScaleNothing(t: real)
    ensures Scale(0.0, t) == 0.0
  {}

  lemma HalfMassWithin(n: nat, i: nat)
    requires i <= n
    ensures Scale(Mass(n, 0.5, i), TwoTo(n) as real) == Comb(n, i) as real
  {
    hide Mass, Pow, Comb, TwoTo, Product, Scale;
    PowAdd(0.5, i, n - i);
    HalfPower(n);
    MassAtHalf(n, i);
    HalfProduct(Comb(n, i) as real, Pow(0.5, i), Pow(0.5, n - i), Pow(0.5, n), TwoTo(n) as real);
  }

  lemma NoMass(n: nat, i: nat)
    requires i > n
    ensures Mass(n, 0.5, i) == 0.0 && Comb(n, i) == 0
  {
    CombBeyond(n, i);
    hide Pow, Comb;
  }

  lemma MassAtHalf(n: nat, i: nat)
    requires i <= n
    ensures Mass(n, 0.5, i) == Product(Comb(n, i) as real, Pow(0.5, i), Pow(0.5, n - i))
  {
    hide Pow, Comb, Product;
  }

  lemma HalfProduct(c: real, x: real, y: real, h: real, t: real)
    requires x * y == h && t * h == 1.0
    ensures Scale(Product(c, x, y), t) == c
  {
    TimesAssoc(c, x, y);
    TimesAssoc(c, h, t);
  }

  lemma {:induction false} HalfBetween(n: nat, k: nat, m: nat)
    requires k <= m
    ensures Scale(MassBetween(n, 0.5, k, m), TwoTo(n) as real) == Low(n, m - 1) as real - Low(n, k - 1) as real
    decreases m - k
  {
    hide Mass, TwoTo, Comb, Scale;
    NothingScaled(TwoTo(n) as real);
    if k < m {
      HalfBetween(n, k, m - 1);
      HalfMass(n, m - 1);
      SumTimes(MassBetween(n, 0.5, k, m - 1), Mass(n, 0.5, m - 1), TwoTo(n) as real);
    }
  }

  lemma SumTimes(a: real, b: real, t: real)
    ensures Scale(a + b, t) == Scale(a, t) + Scale(b, t)
  {}

  lemma NothingScaled(t: real)
    ensures Scale(0.0, t) == 0.0
  {}

  /** The chance of at most k successes. */
  function LowerTail(k: nat, n: nat, p: real): real { MassBetween(n, p, 0, k + 1) }

  function Larger(a: nat, b: nat): nat { if a <= b then b else a }

  /** Each tail at one half is the smaller count's share of the row. */
  lemma TailsAtHalf(aOnly: nat, bOnly: nat)
    ensures var n, k := aOnly + bOnly, Smaller(aOnly, bOnly);
            && Scale(LowerTail(k, n, 0.5), TwoTo(n) as real) == Low(n, k) as real
            && Scale(Tail(Larger(aOnly, bOnly), n, 0.5), TwoTo(n) as real) == Low(n, k) as real
  {
    var n, k, m := aOnly + bOnly, Smaller(aOnly, bOnly), Larger(aOnly, bOnly);
    hide TwoTo, MassBetween, Comb, Scale;
    HalfBetween(n, 0, k + 1);
    HalfBetween(n, m, n + 1);
    LowReflect(n, k);
    LowReflect(n, n);
    EmptyLow(n);
    assert k + m == n;
    hide Low;
  }

  lemma EmptyLow(n: nat)
    ensures Low(n, -1) == 0
  {}

  /**
   The p-value is the chance, at one half, of a count at least as large as the
   larger one plus that of a count at most as small as the smaller one, and 1
   where that sum exceeds 1.
   */
  lemma PValueExact(aOnly: nat, bOnly: nat)
    ensures var n := aOnly + bOnly;
            var both := Tail(Larger(aOnly, bOnly), n, 0.5) + LowerTail(Smaller(aOnly, bOnly), n, 0.5);
            && PTwoSided(aOnly, bOnly) == (if both <= 1.0 then both else 1.0)
            && (aOnly != bOnly ==> PTwoSided(aOnly, bOnly) == both)
  {
    var n, k := aOnly + bOnly, Smaller(aOnly, bOnly);
    var up, low := Tail(Larger(aOnly, bOnly), n, 0.5), LowerTail(k, n, 0.5);
    TailsAtHalf(aOnly, bOnly);
    TwoToPositive(n);
    hide Tail, LowerTail, Low, TwoTo, Scale;
    EqualShares(up, low, Low(n, k) as real, TwoTo(n) as real);
    assert up + low == Doubled(aOnly, bOnly);
    hide Doubled;
    if n > 0 {
      ClampExactlyAtTies(aOnly, bOnly);
    } else {
      NothingDiscordant();
    }
  }

  lemma NothingDiscordant()
    ensures Doubled(0, 0) == 2.0
  {
    assert Low(0, 0) == 1 && TwoTo(0) == 1;
  }

  lemma EqualShares(up: real, low: real, c: real, t: real)
    requires t > 0.0 && Scale(up, t) == c && Scale(low, t) == c
    ensures up + low == 2.0 * (c / t)
  {
    assert up == c / t && low == c / t;
  }
}
