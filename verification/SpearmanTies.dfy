/** When the two formulas for Spearman's coefficient are the same number, with or without ties. */
module SpearmanTies {
  import opened Midranks
  import opened Ranks
  import opened RealFacts
  import opened Spearman
  import opened Sums
  import opened Wrappers

  /** With or without ties, the d-squared formula is made of the two spreads and the covariance of the ranks. */
  lemma DSquaredLaw(xs: seq<real>, ys: seq<real>)
    requires |xs| == |ys| >= 3
    ensures var z, n := RankPairs(xs, ys), |xs| as real;
            && n * (n * n - 1.0) > 0.0
            && DSquared(xs, ys) == Some(DSquaredOf(n, DenX(z) + DenY(z) - 2.0 * Num(z)))
  {
    hide DenX, DenY, Num, DSquaredOf;
    CubePositive(|xs| as real);
    MeanRanks(xs, ys);
    GapsFromMoments(RankPairs(xs, ys));
  }

  ghost predicate Roots(sqrt: real -> real) {
    forall a | a >= 0.0 :: IsRoot(Root(sqrt, a), a)
  }

  lemma SquareProduct(z: seq<Pt>, a: real)
    requires |z| > 0 && DenX(z) == a && DenY(z) == a
    ensures DenProduct(z) == a * a
  {
    hide DenX, DenY;
  }

  lemma RootOfSquare(r: real, a: real, p: real)
    requires a > 0.0 && p == a * a && IsRoot(r, p)
    ensures r == a
  {
    if r > a {
      StrictSquares(r, a);
    } else if a > r {
      StrictSquares(a, r);
    }
  }

  lemma AgreeArithmetic(n: real, v: real, dx: real, dy: real, num: real, s: real)
    requires n * (n * n - 1.0) > 0.0 && v == FullSpread(n) && s > 0.0
    ensures v > 0.0
    ensures DSquaredOf(n, dx + dy - 2.0 * num) == Quotient(num, s) <==> (2.0 * v - dx - dy) * s == 2.0 * num * (v - s)
  {
    var d, g := n * (n * n - 1.0), dx + dy - 2.0 * num;
    assert d == 12.0 * v;
    var a, b := DSquaredOf(n, g), Quotient(num, s);
    QuotientTimes(6.0 * g, d);
    QuotientTimes(num, s);
    assert (1.0 - a) * d == 6.0 * g;
    ScaledGap(a, b, v, s, g, num);
    assert (2.0 * v - g) * s - 2.0 * v * num == (2.0 * v - dx - dy) * s - 2.0 * num * (v - s);
    SameProduct(a - b, 2.0 * v * s);
  }

  lemma ScaledGap(a: real, b: real, v: real, s: real, g: real, num: real)
    requires (1.0 - a) * (12.0 * v) == 6.0 * g && b * s == num
    ensures (a - b) * (2.0 * v * s) == (2.0 * v - g) * s - 2.0 * v * num
  {
    assert a * (2.0 * v) == 2.0 * v - g;
    assert (a - b) * (2.0 * v * s) == (a * (2.0 * v)) * s - 2.0 * v * (b * s);
  }

  lemma SameProduct(x: real, w: real)
    requires w != 0.0
    ensures x * w == 0.0 <==> x == 0.0
  {}

  /**
   For all data the two formulas agree exactly when neither list is constant
   and the spreads, their root and the covariance satisfy one equation.
   */
  lemma FormulasAgreeExactly(xs: seq<real>, ys: seq<real>, sqrt: real -> real)
    requires |xs| == |ys| >= 3 && Roots(sqrt)
    ensures var v, z := FullSpread(|xs| as real), RankPairs(xs, ys);
            var s := Root(sqrt, DenProduct(z));
            DSquared(xs, ys) == Pearson(xs, ys, sqrt) <==>
              !Constant(xs) && !Constant(ys) && (2.0 * v - DenX(z) - DenY(z)) * s == 2.0 * Num(z) * (v - s)
  {
    hide SumOf, Midrank, MeanOf, Constant, DenX, DenY, Num, Root, RankPairs, Pearson, Quotient, DSquaredOf, FullSpread;
    RankPairsLength(xs, ys);
    var z, n := RankPairs(xs, ys), |xs| as real;
    var s := Root(sqrt, DenProduct(z));
    DSquaredLaw(xs, ys);
    PearsonUnfold(xs, ys, sqrt);
    PearsonRange(xs, ys, sqrt);
    PearsonSchwarz(z);
    ProductSign(DenX(z), DenY(z));
    assert IsRoot(s, DenProduct(z));
    if s != 0.0 {
      AgreeArithmetic(n, FullSpread(n), DenX(z), DenY(z), Num(z), s);
    }
  }

  /** The two lists put their entries in the same order, ties included. */
  ghost predicate SameOrder(xs: seq<real>, ys: seq<real>)
    requires |xs| == |ys|
  {
    forall i, j | 0 <= i < |xs| && 0 <= j < |xs| :: xs[i] < xs[j] <==> ys[i] < ys[j]
  }

  lemma SameOrderSameRanks(xs: seq<real>, ys: seq<real>)
    requires |xs| == |ys|
    ensures SameOrder(xs, ys) <==> forall i | 0 <= i < |xs| :: Midrank(xs, xs[i]) == Midrank(ys, ys[i])
  {
    hide CountOf, Midrank;
    if SameOrder(xs, ys) {
      forall i | 0 <= i < |xs| ensures Midrank(xs, xs[i]) == Midrank(ys, ys[i]) {
        SameOrderRank(xs, ys, i);
      }
    }
    if forall i | 0 <= i < |xs| :: Midrank(xs, xs[i]) == Midrank(ys, ys[i]) {
      forall i, j | 0 <= i < |xs| && 0 <= j < |xs| ensures xs[i] < xs[j] <==> ys[i] < ys[j] {
        RanksOrder(xs, i, j);
        RanksOrder(ys, i, j);
      }
    }
  }

  lemma SameOrderRank(xs: seq<real>, ys: seq<real>, i: nat)
    requires |xs| == |ys| && i < |xs| && SameOrder(xs, ys)
    ensures Midrank(xs, xs[i]) == Midrank(ys, ys[i])
  {
    hide CountOf;
    forall j | 0 <= j < |xs| ensures xs[j] == xs[i] <==> ys[j] == ys[i] {
      assert xs[j] < xs[i] <==> ys[j] < ys[i];
      assert xs[i] < xs[j] <==> ys[i] < ys[j];
    }
    CountImage(xs, ys, Below(xs[i]), Below(ys[i]));
    CountImage(xs, ys, Same(xs[i]), Same(ys[i]));
  }

  lemma RanksOrder(vals: seq<real>, i: nat, j: nat)
    requires i < |vals| && j < |vals|
    ensures vals[i] < vals[j] <==> Midrank(vals, vals[i]) < Midrank(vals, vals[j])
  {
    hide Midrank;
    if vals[i] < vals[j] {
      RankMonotone(vals, vals[i], vals[j]);
    } else if vals[j] < vals[i] {
      RankMonotone(vals, vals[j], vals[i]);
    }
  }

  /** There is no gap between the ranks exactly when the lists are in the same order. */
  lemma NoGaps(xs: seq<real>, ys: seq<real>)
    requires |xs| == |ys| > 0
    ensures var z := RankPairs(xs, ys); DenX(z) + DenY(z) - 2.0 * Num(z) >= 0.0
    ensures var z := RankPairs(xs, ys); DenX(z) + DenY(z) - 2.0 * Num(z) == 0.0 <==> SameOrder(xs, ys)
  {
    hide SumOf, Midrank, MeanOf, DenX, DenY, Num, SameOrder;
    var z := RankPairs(xs, ys);
    MeanRanks(xs, ys);
    GapsFromMoments(z);
    SameOrderSameRanks(xs, ys);
    forall p | p in z ensures GapSq()(p) >= 0.0 && (GapSq()(p) == 0.0 <==> p.0 == p.1) {
      SquareSign(p.0 - p.1);
    }
    SumOfZero(z, GapSq());
    if SumOf(z, GapSq()) == 0.0 {
      forall i | 0 <= i < |xs| ensures Midrank(xs, xs[i]) == Midrank(ys, ys[i]) {
        assert z[i] in z && GapSq()(z[i]) == 0.0;
      }
    }
    if forall i | 0 <= i < |xs| :: Midrank(xs, xs[i]) == Midrank(ys, ys[i]) {
      SumOfConst(z, GapSq(), 0.0);
    }
  }

  /**
   Lists of the same spread: the formulas agree exactly when neither list is
   constant and either nothing ties or the lists are in the same order.
   */
  lemma EqualSpreadsAgree(xs: seq<real>, ys: seq<real>, sqrt: real -> real)
    requires |xs| == |ys| >= 3 && Roots(sqrt)
    requires DenX(RankPairs(xs, ys)) == DenY(RankPairs(xs, ys))
    ensures DSquared(xs, ys) == Pearson(xs, ys, sqrt) <==>
              !Constant(xs) && !Constant(ys) && ((TieFree(xs) && TieFree(ys)) || SameOrder(xs, ys))
  {
    hide SumOf, Midrank, MeanOf, Constant, DenX, DenY, Num, Root, RankPairs;
    hide Pearson, FullSpread, TieFree, SameOrder, DSquared;
    RankPairsLength(xs, ys);
    var z, v := RankPairs(xs, ys), FullSpread(|xs| as real);
    var d, s := DenX(z), Root(sqrt, DenProduct(z));
    FormulasAgreeExactly(xs, ys, sqrt);
    SpreadX(xs, ys);
    SpreadY(xs, ys);
    PearsonSchwarz(z);
    if d != 0.0 {
      SquareProduct(z, d);
      RootOfSquare(s, d, DenProduct(z));
      SpreadBound(xs, ys);
      NoGaps(xs, ys);
      EqualArithmetic(v, d, Num(z));
    }
  }

  lemma EqualArithmetic(v: real, d: real, num: real)
    ensures (2.0 * v - d - d) * d == 2.0 * num * (v - d) <==> v == d || num == d
  {
    assert (2.0 * v - d - d) * d - 2.0 * num * (v - d) == (v - d) * (2.0 * (d - num));
    if v != d {
      SameProduct(2.0 * (d - num), v - d);
    }
  }

  /** On data without ties the two coefficients are the same number. */
  lemma FormulasAgree(xs: seq<real>, ys: seq<real>, sqrt: real -> real)
    requires |xs| == |ys| >= 3 && TieFree(xs) && TieFree(ys) && Roots(sqrt)
    ensures Pearson(xs, ys, sqrt).Some? && DSquared(xs, ys) == Pearson(xs, ys, sqrt)
  {
    assert !Constant(xs) && !Constant(ys) by {
      assert xs[0] in xs && xs[1] in xs && xs[0] != xs[1];
      assert ys[0] in ys && ys[1] in ys && ys[0] != ys[1];
    }
    hide TieFree, Constant, Pearson, DSquared, DenX, DenY, RankPairs, SameOrder;
    SpreadBound(xs, ys);
    EqualSpreadsAgree(xs, ys, sqrt);
    PearsonRange(xs, ys, sqrt);
  }

  /** On lists in the same order both coefficients are 1, whatever ties they hold, unless a list is constant. */
  lemma SameOrderAgrees(xs: seq<real>, ys: seq<real>, sqrt: real -> real)
    requires |xs| == |ys| >= 3 && SameOrder(xs, ys) && !Constant(xs) && Roots(sqrt)
    ensures DSquared(xs, ys) == Pearson(xs, ys, sqrt) == Some(1.0)
  {
    hide SumOf, Midrank, MeanOf, DenX, DenY, Num, RankPairs, Pearson, SameOrder, DSquared;
    DSquaredLaw(xs, ys);
    NoGaps(xs, ys);
    EqualSpreads(xs, ys);
    OrderConstant(xs, ys);
    hide Constant, DSquaredOf;
    EqualSpreadsAgree(xs, ys, sqrt);
    NoGapOne(|xs| as real);
  }

  lemma NoGapOne(n: real)
    requires n * (n * n - 1.0) > 0.0
    ensures DSquaredOf(n, 0.0) == 1.0
  {
    assert 0.0 / (n * (n * n - 1.0)) == 0.0;
  }

  lemma OrderConstant(xs: seq<real>, ys: seq<real>)
    requires |xs| == |ys| && SameOrder(xs, ys) && !Constant(xs)
    ensures !Constant(ys)
  {
    var v, w :| v in xs && w in xs && v != w;
    var i :| 0 <= i < |xs| && xs[i] == v;
    var j :| 0 <= j < |xs| && xs[j] == w;
    assert ys[i] in ys && ys[j] in ys;
    assert ys[i] != ys[j];
  }

  lemma EqualSpreads(xs: seq<real>, ys: seq<real>)
    requires |xs| == |ys| > 0 && SameOrder(xs, ys)
    ensures DenX(RankPairs(xs, ys)) == DenY(RankPairs(xs, ys))
  {
    hide SumOf, Midrank, MeanOf, SameOrder;
    var z := RankPairs(xs, ys);
    MeanRanks(xs, ys);
    SameOrderSameRanks(xs, ys);
    SumOfCong(z, Times(DevX(z), DevX(z)), Times(DevY(z), DevY(z)));
  }

  /** The d-squared formula, too, stays within [-1, 1] on all data. */
  lemma DSquaredRange(xs: seq<real>, ys: seq<real>)
    requires |xs| == |ys| >= 3
    ensures DSquared(xs, ys).Some? && -1.0 <= DSquared(xs, ys).value <= 1.0
  {
    hide DenX, DenY, Num, RankPairs, SameOrder, TieFree, DSquared, DSquaredOf, FullSpread;
    var z, n := RankPairs(xs, ys), |xs| as real;
    RankPairsLength(xs, ys);
    DSquaredLaw(xs, ys);
    NoGaps(xs, ys);
    SpreadBound(xs, ys);
    PearsonSchwarz(z);
    CovarianceBound(DenX(z), DenY(z), Num(z));
    GapRange(n, FullSpread(n), DenX(z) + DenY(z) - 2.0 * Num(z));
  }

  lemma CovarianceBound(a: real, b: real, num: real)
    requires a >= 0.0 && b >= 0.0 && num * num <= a * b
    ensures -2.0 * num <= a + b
  {
    SquareSign(a - b);
    assert (a + b) * (a + b) == (a - b) * (a - b) + 4.0 * (a * b);
    assert (-2.0 * num) * (-2.0 * num) == 4.0 * (num * num);
    if a + b < -2.0 * num {
      StrictSquares(-2.0 * num, a + b);
    }
  }

  lemma GapRange(n: real, v: real, g: real)
    requires n * (n * n - 1.0) > 0.0 && v == FullSpread(n) && 0.0 <= g <= 4.0 * v
    ensures -1.0 <= DSquaredOf(n, g) <= 1.0
  {
    var d := n * (n * n - 1.0);
    assert d == 12.0 * v;
    RatioBetween(6.0 * g, d);
  }

  lemma RatioBetween(u: real, d: real)
    requires d > 0.0 && 0.0 <= u <= 2.0 * d
    ensures 0.0 <= u / d <= 2.0
  {}

  // ---------------------------------------------------- ties that make a difference

  function AsReal(b: bool): real { if b then 1.0 else 0.0 }

  lemma CountOfThree(vals: seq<real>, p: real -> bool)
    requires |vals| == 3
    ensures CountOf(vals, p) as real == AsReal(p(vals[0])) + AsReal(p(vals[1])) + AsReal(p(vals[2]))
  {
    assert vals[..3] == vals;
    CountOfPrefix(vals, 0, p);
    CountOfPrefix(vals, 1, p);
    CountOfPrefix(vals, 2, p);
  }

  lemma ThreeRanks(vals: seq<real>)
    requires |vals| == 3
    ensures forall v ::
              CountOf(vals, Below(v)) as real == AsReal(vals[0] < v) + AsReal(vals[1] < v) + AsReal(vals[2] < v)
    ensures forall v ::
              CountOf(vals, Same(v)) as real == AsReal(vals[0] == v) + AsReal(vals[1] == v) + AsReal(vals[2] == v)
  {
    hide CountOf;
    forall v
      ensures CountOf(vals, Below(v)) as real == AsReal(vals[0] < v) + AsReal(vals[1] < v) + AsReal(vals[2] < v)
      ensures CountOf(vals, Same(v)) as real == AsReal(vals[0] == v) + AsReal(vals[1] == v) + AsReal(vals[2] == v)
    {
      CountOfThree(vals, Below(v));
      CountOfThree(vals, Same(v));
    }
  }

  lemma SumOfThree(z: seq<Pt>, f: Pt -> real)
    requires |z| == 3
    ensures SumOf(z, f) == f(z[0]) + f(z[1]) + f(z[2])
  {
    assert z[..3] == z;
    SumOfPrefix(z, 0, f);
    SumOfPrefix(z, 1, f);
    SumOfPrefix(z, 2, f);
  }

  lemma TiedRanks()
    ensures RankPairs([1.0, 1.0, 2.0], [1.0, 2.0, 2.0]) == [(1.5, 1.0), (1.5, 2.5), (3.0, 2.5)]
  {
    hide CountOf;
    ThreeRanks([1.0, 1.0, 2.0]);
    ThreeRanks([1.0, 2.0, 2.0]);
  }

  lemma TiedMoments(z: seq<Pt>)
    requires z == [(1.5, 1.0), (1.5, 2.5), (3.0, 2.5)] && MeanOf(z, First()) == MeanOf(z, Second()) == 2.0
    ensures DenX(z) == 1.5 && DenY(z) == 1.5 && Num(z) == 0.75
  {
    hide SumOf, MeanOf;
    SumOfThree(z, Times(DevX(z), DevX(z)));
    SumOfThree(z, Times(DevY(z), DevY(z)));
    SumOfThree(z, Times(DevX(z), DevY(z)));
  }

  /** On 1, 1, 2 against 1, 2, 2 Pearson's formula gives 1/2 and the d-squared formula 5/8. */
  lemma TiesSeparate(sqrt: real -> real)
    requires Roots(sqrt)
    ensures Pearson([1.0, 1.0, 2.0], [1.0, 2.0, 2.0], sqrt) == Some(0.5)
    ensures DSquared([1.0, 1.0, 2.0], [1.0, 2.0, 2.0]) == Some(0.625)
  {
    var xs, ys := [1.0, 1.0, 2.0], [1.0, 2.0, 2.0];
    var z := RankPairs(xs, ys);
    TiedRanks();
    MeanRanks(xs, ys);
    hide RankPairs, MeanOf;
    TiedMoments(z);
    DSquaredLaw(xs, ys);
    hide DenX, DenY, Num, DevX, DevY;
    assert DenProduct(z) == 1.5 * 1.5;
    RootOfSquare(Root(sqrt, DenProduct(z)), 1.5, DenProduct(z));
    PearsonUnfold(xs, ys, sqrt);
  }
}
