/** Area under the risk-coverage curve: bounds, exchanges, and its extreme orderings. */
module Aurc {
  import opened RealFacts

  /** Wrong answers among the first i. */
  function Errors(ranked: seq<bool>, i: nat): (e: nat)
    requires i <= |ranked|
    ensures e <= i
  {
    if i == 0 then 0 else Errors(ranked, i - 1) + if ranked[i - 1] then 0 else 1
  }

  /** The sum of the error rates at coverages 1 to i. */
  function Area(ranked: seq<bool>, i: nat): real
    requires i <= |ranked|
  {
    if i == 0 then 0.0 else Area(ranked, i - 1) + Errors(ranked, i) as real / i as real
  }

  function AurcOf(ranked: seq<bool>): real
    requires |ranked| > 0
  {
    Area(ranked, |ranked|) / |ranked| as real
  }

  datatype Outcome = Value(area: real) | DivisionByZero

  /** The source's loop; an empty ranking divides by zero. */
  method ComputeAurc(ranked: seq<bool>) returns (r: Outcome)
    ensures r == if |ranked| == 0 then DivisionByZero else Value(AurcOf(ranked))
  {
    var n := |ranked|;
    var errs := 0;
    var area := 0.0;
    for i := 1 to n + 1
      invariant errs == Errors(ranked, i - 1)
      invariant area == Area(ranked, i - 1)
    {
      errs := errs + if ranked[i - 1] then 0 else 1;
      area := area + errs as real / i as real;
    }
    if n == 0 {
      return DivisionByZero;
    }
    return Value(area / n as real);
  }

  // ------------------------------------------------------------- comparison

  /** Fewer errors at every coverage means less area, and equal area means equal errors throughout. */
  lemma {:induction false} AreaCompare(r: seq<bool>, s: seq<bool>, n: nat)
    requires n <= |r| && n <= |s|
    requires forall i | 0 <= i <= n :: Errors(r, i) <= Errors(s, i)
    ensures Area(r, n) <= Area(s, n)
    ensures Area(r, n) == Area(s, n) ==> forall i | 0 <= i <= n :: Errors(r, i) == Errors(s, i)
  {
    if n > 0 {
      AreaCompare(r, s, n - 1);
      QuotientOrder(Errors(r, n) as real, Errors(s, n) as real, n as real);
    }
  }

  lemma {:induction false} ErrorsDetermine(r: seq<bool>, s: seq<bool>)
    requires |r| == |s| && forall i | 0 <= i <= |r| :: Errors(r, i) == Errors(s, i)
    ensures r == s
  {
    forall i | 0 <= i < |r| ensures r[i] == s[i] {
      assert Errors(r, i + 1) == Errors(s, i + 1) && Errors(r, i) == Errors(s, i);
    }
  }

  /** Right answers first, then the e wrong ones. */
  function Best(n: nat, e: nat): seq<bool>
    requires e <= n
  {
    seq(n, i => i < n - e)
  }

  /** The e wrong answers first. */
  function Worst(n: nat, e: nat): seq<bool>
    requires e <= n
  {
    seq(n, i => i >= e)
  }

  lemma {:induction false} BestErrors(n: nat, e: nat, i: nat)
    requires e <= n && i <= n
    ensures Errors(Best(n, e), i) == if i <= n - e then 0 else i - (n - e)
  {
    if i > 0 {
      BestErrors(n, e, i - 1);
    }
  }

  lemma {:induction false} WorstErrors(n: nat, e: nat, i: nat)
    requires e <= n && i <= n
    ensures Errors(Worst(n, e), i) == if i <= e then i else e
  {
    if i > 0 {
      WorstErrors(n, e, i - 1);
    }
  }

  lemma {:induction false} ErrorsStep(r: seq<bool>, i: nat, j: nat)
    requires i <= j <= |r|
    ensures Errors(r, i) <= Errors(r, j) <= Errors(r, i) + (j - i)
    decreases j - i
  {
    if i < j {
      ErrorsStep(r, i, j - 1);
    }
  }

  lemma ExtremeErrors(r: seq<bool>, i: nat)
    requires i <= |r|
    ensures var n, e := |r|, Errors(r, |r|);
            Errors(Best(n, e), i) <= Errors(r, i) <= Errors(Worst(n, e), i)
  {
    ErrorsStep(r, i, |r|);
    BestErrors(|r|, Errors(r, |r|), i);
    WorstErrors(|r|, Errors(r, |r|), i);
  }

  /**
   Among all rankings with the same number of errors, right-first is the one and
   only minimum and wrong-first the one and only maximum.
   */
  lemma ExtremeOrderings(r: seq<bool>)
    requires |r| > 0
    ensures var n, e := |r|, Errors(r, |r|);
            && AurcOf(Best(n, e)) <= AurcOf(r) <= AurcOf(Worst(n, e))
            && (AurcOf(r) == AurcOf(Best(n, e)) <==> r == Best(n, e))
            && (AurcOf(r) == AurcOf(Worst(n, e)) <==> r == Worst(n, e))
  {
    hide Errors, Area;
    var n, e := |r|, Errors(r, |r|);
    forall i | 0 <= i <= n ensures Errors(Best(n, e), i) <= Errors(r, i) <= Errors(Worst(n, e), i) {
      ExtremeErrors(r, i);
    }
    AreaCompare(Best(n, e), r, n);
    AreaCompare(r, Worst(n, e), n);
    QuotientOrder(Area(Best(n, e), n), Area(r, n), n as real);
    QuotientOrder(Area(r, n), Area(Worst(n, e), n), n as real);
    if Area(r, n) == Area(Best(n, e), n) {
      ErrorsDetermine(r, Best(n, e));
    }
    if Area(r, n) == Area(Worst(n, e), n) {
      ErrorsDetermine(r, Worst(n, e));
    }
  }

  lemma {:induction false} AreaBounds(r: seq<bool>, i: nat)
    requires i <= |r|
    ensures 0.0 <= Area(r, i) <= i as real
  {
    if i > 0 {
      AreaBounds(r, i - 1);
      UnitRatio(Errors(r, i) as real, i as real);
    }
  }

  lemma UnitRatio(a: real, d: real)
    requires 0.0 <= a <= d && d > 0.0
    ensures 0.0 <= a / d <= 1.0
  {}

  lemma AurcRange(r: seq<bool>)
    requires |r| > 0
    ensures 0.0 <= AurcOf(r) <= 1.0
  {
    AreaBounds(r, |r|);
    UnitRatio(Area(r, |r|), |r| as real);
  }

  // --------------------------------------------------------------- exchanges

  lemma {:induction false} PrefixArea(r: seq<bool>, s: seq<bool>, i: nat)
    requires i <= |r| && i <= |s| && r[..i] == s[..i]
    ensures Errors(r, i) == Errors(s, i) && Area(r, i) == Area(s, i)
  {
    if i > 0 {
      assert r[..i][..i - 1] == s[..i][..i - 1];
      assert r[..i][i - 1] == s[..i][i - 1];
      PrefixArea(r, s, i - 1);
    }
  }

  lemma {:induction false} SuffixArea(r: seq<bool>, s: seq<bool>, i: nat, j: nat)
    requires |r| == |s| && i <= j <= |r| && r[i..] == s[i..] && Errors(r, i) == Errors(s, i)
    ensures Errors(r, j) == Errors(s, j) && Area(r, j) - Area(s, j) == Area(r, i) - Area(s, i)
    decreases j
  {
    if i < j {
      assert r[i..][j - 1 - i] == s[i..][j - 1 - i];
      SuffixArea(r, s, i, j - 1);
    }
  }

  /** r and s agree except at k and k + 1, where r is wrong then right and s right then wrong. */
  ghost predicate Exchanged(r: seq<bool>, s: seq<bool>, k: nat) {
    && |r| == |s| && k + 2 <= |r|
    && r[..k] == s[..k] && r[k + 2..] == s[k + 2..]
    && !r[k] && r[k + 1] && s[k] && !s[k + 1]
  }

  lemma ExchangeShape(u: seq<bool>, v: seq<bool>)
    ensures Exchanged(u + [false, true] + v, u + [true, false] + v, |u|)
  {
    var r, s, k := u + [false, true] + v, u + [true, false] + v, |u|;
    assert r[..k] == u == s[..k];
    assert r[k + 2..] == v == s[k + 2..];
  }

  lemma ExchangeErrors(r: seq<bool>, s: seq<bool>, k: nat)
    requires Exchanged(r, s, k)
    ensures Area(r, k) == Area(s, k)
    ensures Errors(r, k + 1) == Errors(s, k + 1) + 1
    ensures Errors(r, k + 2) == Errors(s, k + 2)
  {
    PrefixArea(r, s, k);
  }

  /** Moving a right answer ahead of the wrong one before it, at 1-based position i, saves exactly 1/(i n). */
  lemma AdjacentExchange(u: seq<bool>, v: seq<bool>)
    ensures var wrongFirst, rightFirst, i := u + [false, true] + v, u + [true, false] + v, |u| + 1;
            AurcOf(wrongFirst) - AurcOf(rightFirst) == 1.0 / (i as real * |wrongFirst| as real)
  {
    hide Errors, Area;
    var r, s, k := u + [false, true] + v, u + [true, false] + v, |u|;
    ExchangeShape(u, v);
    ExchangeErrors(r, s, k);
    OneOver(Errors(s, k + 1), k + 1);
    TwoSteps(r, s, k);
    SuffixArea(r, s, k + 2, |r|);
    Divide(Area(r, |r|), Area(s, |s|), (k + 1) as real, |r| as real);
  }

  lemma TwoSteps(r: seq<bool>, s: seq<bool>, k: nat)
    requires |r| == |s| && k + 2 <= |r| && Area(r, k) == Area(s, k)
    requires Errors(r, k + 2) == Errors(s, k + 2)
    ensures Area(r, k + 2) - Area(s, k + 2)
            == Errors(r, k + 1) as real / (k + 1) as real - Errors(s, k + 1) as real / (k + 1) as real
  {
    assert Area(r, k + 1) == Area(r, k) + Errors(r, k + 1) as real / (k + 1) as real;
    assert Area(s, k + 1) == Area(s, k) + Errors(s, k + 1) as real / (k + 1) as real;
  }

  lemma OneOver(e: nat, i: nat)
    requires i > 0
    ensures (e + 1) as real / i as real - e as real / i as real == 1.0 / i as real
  {}

  lemma Divide(a: real, b: real, i: real, n: real)
    requires i > 0.0 && n > 0.0 && a - b == 1.0 / i
    ensures a / n - b / n == 1.0 / (i * n)
  {
    assert a / n - b / n == (a - b) / n;
    assert (1.0 / i) / n == 1.0 / (i * n);
  }

  // ------------------------------------------------- what each wrong answer costs

  /** 1/j + 1/(j+1) + ... + 1/n. */
  function Reciprocals(j: nat, n: nat): real
    requires j > 0
    decreases n
  {
    if n < j then 0.0 else Reciprocals(j, n - 1) + 1.0 / n as real
  }

  /** The cost of the wrong answers among the first m, up to coverage n. */
  function Costs(r: seq<bool>, m: nat, n: nat): real
    requires m <= |r|
  {
    if m == 0 then 0.0 else Costs(r, m - 1, n) + if r[m - 1] then 0.0 else Reciprocals(m, n)
  }

  lemma {:induction false} CostsStep(r: seq<bool>, m: nat, n: nat)
    requires m < n && m <= |r|
    ensures Costs(r, m, n) == Costs(r, m, n - 1) + Errors(r, m) as real / n as real
  {
    if m > 0 {
      CostsStep(r, m - 1, n);
      OneOver(Errors(r, m - 1), n);
    }
  }

  /** A wrong answer at position j costs its share of every coverage from j on. */
  lemma {:induction false} AreaIsCosts(r: seq<bool>, n: nat)
    requires n <= |r|
    ensures Area(r, n) == Costs(r, n, n)
  {
    if n > 0 {
      AreaIsCosts(r, n - 1);
      CostsStep(r, n - 1, n);
      OneOver(Errors(r, n - 1), n);
      assert Reciprocals(n, n - 1) == 0.0;
    }
  }

  lemma AurcExact(r: seq<bool>)
    requires |r| > 0
    ensures AurcOf(r) * |r| as real == Costs(r, |r|, |r|)
  {
    AreaIsCosts(r, |r|);
    QuotientTimes(Area(r, |r|), |r| as real);
  }

  lemma SelfRatio(d: real)
    requires d > 0.0
    ensures d / d == 1.0 && 0.0 / d == 0.0
  {}

  lemma {:induction false} AllRight(r: seq<bool>, i: nat)
    requires i <= |r| && forall k | 0 <= k < i :: r[k]
    ensures Errors(r, i) == 0 && Area(r, i) == 0.0
  {
    if i > 0 {
      AllRight(r, i - 1);
      SelfRatio(i as real);
    }
  }

  lemma {:induction false} AllWrong(r: seq<bool>, i: nat)
    requires i <= |r| && forall k | 0 <= k < i :: !r[k]
    ensures Errors(r, i) == i && Area(r, i) == i as real
  {
    if i > 0 {
      AllWrong(r, i - 1);
      SelfRatio(i as real);
    }
  }

  /** All wrong is 1 and all right is 0. */
  lemma AurcEnds(r: seq<bool>)
    requires |r| > 0
    ensures (forall k | 0 <= k < |r| :: r[k]) ==> AurcOf(r) == 0.0
    ensures (forall k | 0 <= k < |r| :: !r[k]) ==> AurcOf(r) == 1.0
  {
    SelfRatio(|r| as real);
    hide Errors, Area;
    if forall k | 0 <= k < |r| :: r[k] {
      AllRight(r, |r|);
    }
    if forall k | 0 <= k < |r| :: !r[k] {
      AllWrong(r, |r|);
    }
  }
}
