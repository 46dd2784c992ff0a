/** Spearman's coefficient: Pearson's formula on midranks, and the d-squared formula. */
module Spearman {
  import opened Sums
  import opened Ranks
  import opened Midranks
  import opened RealFacts
  import opened Wrappers

  type Pt = (real, real)

  function Times<T>(f: T -> real, g: T -> real): T -> real { (t: T) => f(t) * g(t) }

  // --------------------------------------------------------- Cauchy-Schwarz

  function Combo<T>(a: real, g: T -> real, b: real, f: T -> real): T -> real {
    (t: T) => a * g(t) - b * f(t)
  }

  function Partial<T>(a: real, b: real, f: T -> real, g: T -> real): T -> real {
    (t: T) => a * a * (g(t) * g(t)) + -2.0 * a * b * (f(t) * g(t))
  }

  lemma ComboSquare(a: real, b: real, x: real, y: real)
    ensures (a * y - b * x) * (a * y - b * x)
            == (a * a * (y * y) + -2.0 * a * b * (x * y)) + b * b * (x * x)
  {}

  lemma ComboAt<T>(t: T, f: T -> real, g: T -> real, a: real, b: real)
    ensures Times(Combo(a, g, b, f), Combo(a, g, b, f))(t) == Partial(a, b, f, g)(t) + b * b * Times(f, f)(t)
  {
    var x, y := f(t), g(t);
    ComboSquare(a, b, x, y);
    assert Combo(a, g, b, f)(t) == a * y - b * x;
    assert Partial(a, b, f, g)(t) == a * a * (y * y) + -2.0 * a * b * (x * y);
    assert Times(f, f)(t) == x * x;
  }

  lemma ComboSum<T>(s: seq<T>, f: T -> real, g: T -> real, a: real, b: real)
    ensures SumOf(s, Times(Combo(a, g, b, f), Combo(a, g, b, f)))
            == a * a * SumOf(s, Times(g, g)) + -2.0 * a * b * SumOf(s, Times(f, g)) + b * b * SumOf(s, Times(f, f))
  {
    hide SumOf;
    var sq := Times(Combo(a, g, b, f), Combo(a, g, b, f));
    forall t | t in s ensures sq(t) == Partial(a, b, f, g)(t) + b * b * Times(f, f)(t) {
      ComboAt(t, f, g, a, b);
    }
    SumOfLinear(s, sq, Partial(a, b, f, g), b * b, Times(f, f));
    forall t | t in s
      ensures Partial(a, b, f, g)(t) == Scaled(a * a, Times(g, g))(t) + (-2.0 * a * b) * Times(f, g)(t)
    {}
    SumOfLinear(s, Partial(a, b, f, g), Scaled(a * a, Times(g, g)), -2.0 * a * b, Times(f, g));
    SumOfScaled(s, a * a, Times(g, g));
  }

  function Scaled<T>(c: real, f: T -> real): T -> real { (t: T) => c * f(t) }

  lemma SumOfScaled<T>(s: seq<T>, c: real, f: T -> real)
    ensures SumOf(s, Scaled(c, f)) == c * SumOf(s, f)
  {
    hide SumOf;
    SumOfLinear(s, Scaled(c, f), Zero(), c, f);
    SumOfConst(s, Zero(), 0.0);
  }

  lemma SquaresNonneg<T>(s: seq<T>, f: T -> real)
    ensures SumOf(s, Times(f, f)) >= 0.0
    ensures SumOf(s, Times(f, f)) == 0.0 ==> forall t | t in s :: f(t) == 0.0
  {
    hide SumOf;
    forall t | t in s ensures Times(f, f)(t) >= 0.0 && (Times(f, f)(t) == 0.0 ==> f(t) == 0.0) {
      SquareSign(f(t));
    }
    SumOfZero(s, Times(f, f));
  }

  /** (sum f g)^2 <= (sum f^2)(sum g^2). */
  lemma CauchySchwarz<T>(s: seq<T>, f: T -> real, g: T -> real)
    ensures SumOf(s, Times(f, g)) * SumOf(s, Times(f, g)) <= SumOf(s, Times(f, f)) * SumOf(s, Times(g, g))
  {
    hide SumOf, Times, Combo;
    var a, b, c := SumOf(s, Times(f, f)), SumOf(s, Times(f, g)), SumOf(s, Times(g, g));
    SquaresNonneg(s, f);
    if a == 0.0 {
      ZeroTimes(s, f, g);
      assert b * b == 0.0 && a * c == 0.0;
    } else {
      SquaresNonneg(s, Combo(a, g, b, f));
      ComboSum(s, f, g, a, b);
      Discriminant(a, b, c);
    }
  }

  lemma ZeroTimes<T>(s: seq<T>, f: T -> real, g: T -> real)
    requires forall t | t in s :: f(t) == 0.0
    ensures SumOf(s, Times(f, g)) == 0.0
  {
    SumOfConst(s, Times(f, g), 0.0);
  }

  lemma Discriminant(a: real, b: real, c: real)
    requires a > 0.0 && a * a * c + -2.0 * a * b * b + b * b * a >= 0.0
    ensures b * b <= a * c
  {
    var d := a * c - b * b;
    assert a * d == a * a * c + -2.0 * a * b * b + b * b * a;
    if d < 0.0 {
      NegativeProduct(a, d);
    }
  }

  lemma NegativeProduct(a: real, d: real)
    requires a > 0.0 && d < 0.0
    ensures a * d < 0.0
  {}

  // --------------------------------------------------------------- the data

  /** The pairs of ranks that every formula works on. */
  function RankPairs(xs: seq<real>, ys: seq<real>): seq<Pt>
    requires |xs| == |ys|
  {
    seq(|xs|, i requires 0 <= i < |xs| => (Midrank(xs, xs[i]), Midrank(ys, ys[i])))
  }

  function First(): Pt -> real { (p: Pt) => p.0 }
  function Second(): Pt -> real { (p: Pt) => p.1 }

  /** Deviation of a coordinate from m. */
  function Dev(f: Pt -> real, m: real): Pt -> real { (p: Pt) => f(p) - m }

  function MeanOf(z: seq<Pt>, f: Pt -> real): real
    requires |z| > 0
  {
    Quotient(SumOf(z, f), |z| as real)
  }

  function DevX(z: seq<Pt>): Pt -> real
    requires |z| > 0
  {
    Dev(First(), MeanOf(z, First()))
  }

  function DevY(z: seq<Pt>): Pt -> real
    requires |z| > 0
  {
    Dev(Second(), MeanOf(z, Second()))
  }

  function DenProduct(z: seq<Pt>): real requires |z| > 0 { DenX(z) * DenY(z) }
  function Num(z: seq<Pt>): real requires |z| > 0 { SumOf(z, Times(DevX(z), DevY(z))) }
  function DenX(z: seq<Pt>): real requires |z| > 0 { SumOf(z, Times(DevX(z), DevX(z))) }
  function DenY(z: seq<Pt>): real requires |z| > 0 { SumOf(z, Times(DevY(z), DevY(z))) }

  function Quotient(u: real, d: real): real
    requires d != 0.0
  {
    u / d
  }

  function Root(sqrt: real -> real, a: real): real { sqrt(a) }

  /** Pearson's correlation of the ranks; no value below three points or without spread. */
  function Pearson(xs: seq<real>, ys: seq<real>, sqrt: real -> real): Option<real>
    requires |xs| == |ys|
  {
    if |xs| < 3 then None
    else
      var z := RankPairs(xs, ys);
      var den := Root(sqrt, DenProduct(z));
      if den == 0.0 then None else Some(Quotient(Num(z), den))
  }

  function GapSq(): Pt -> real { (p: Pt) => (p.0 - p.1) * (p.0 - p.1) }

  function DSquaredOf(n: real, gaps: real): real
    requires n * (n * n - 1.0) != 0.0
  {
    1.0 - 6.0 * gaps / (n * (n * n - 1.0))
  }

  /** The d-squared formula. */
  function DSquared(xs: seq<real>, ys: seq<real>): Option<real>
    requires |xs| == |ys|
  {
    if |xs| < 3 then None
    else
      CubePositive(|xs| as real);
      Some(DSquaredOf(|xs| as real, SumOf(RankPairs(xs, ys), GapSq())))
  }

  lemma CubePositive(n: real)
    requires n >= 3.0
    ensures n * (n * n - 1.0) > 0.0
    ensures n * (n * n - 1.0) / 12.0 > 0.0
  {
    PositiveProduct(n - 1.0, n + 1.0);
    PositiveProduct(n, n * n - 1.0);
  }

  // ----------------------------------------------------------------- bounds

  lemma RootBound(num: real, a: real, r: real)
    requires IsRoot(r, a) && num * num <= a
    ensures -r <= num <= r
  {
    if num > r {
      StrictSquares(num, r);
    } else if -num > r {
      StrictSquares(-num, r);
    }
  }

  /** The correlation lies in [-1, 1], and is missing exactly when a list is constant. */
  lemma PearsonRange(xs: seq<real>, ys: seq<real>, sqrt: real -> real)
    requires |xs| == |ys| >= 3
    requires forall a | a >= 0.0 :: IsRoot(Root(sqrt, a), a)
    ensures Pearson(xs, ys, sqrt).Some? ==> -1.0 <= Pearson(xs, ys, sqrt).value <= 1.0
    ensures Pearson(xs, ys, sqrt) == None <==> Constant(xs) || Constant(ys)
  {
    hide Quotient, Root, SumOf, RankPairs, Midrank, Times, DevX, DevY, DenX, DenY, Num, Constant;
    var z := RankPairs(xs, ys);
    RankPairsLength(xs, ys);
    SpreadX(xs, ys);
    SpreadY(xs, ys);
    PearsonSchwarz(z);
    var a := DenProduct(z);
    ProductSign(DenX(z), DenY(z));
    var r := Root(sqrt, a);
    assert IsRoot(r, a);
    RootBound(Num(z), a, r);
    RootZero(r, a);
    PearsonUnfold(xs, ys, sqrt);
    assert Pearson(xs, ys, sqrt) == if r == 0.0 then None else Some(Quotient(Num(z), r));
    if r != 0.0 {
      QuotientBound(Num(z), r);
    }
  }

  /** Fewer than three points have no coefficient, by either formula. */
  lemma ShortLists(xs: seq<real>, ys: seq<real>, sqrt: real -> real)
    requires |xs| == |ys|
    ensures DSquared(xs, ys) == None <==> |xs| < 3
    ensures |xs| < 3 ==> Pearson(xs, ys, sqrt) == None
  {}

  lemma PearsonUnfold(xs: seq<real>, ys: seq<real>, sqrt: real -> real)
    requires |xs| == |ys| >= 3
    ensures var z := RankPairs(xs, ys);
            |z| > 0 &&
            var den := Root(sqrt, DenProduct(z));
            Pearson(xs, ys, sqrt) == if den == 0.0 then None else Some(Quotient(Num(z), den))
  {
    hide Root, DenProduct, Num, Midrank;
  }

  ghost predicate Constant(xs: seq<real>) {
    forall v, w | v in xs && w in xs :: v == w
  }

  lemma RankPairsLength(xs: seq<real>, ys: seq<real>)
    requires |xs| == |ys|
    ensures |RankPairs(xs, ys)| == |xs|
  {}

  lemma PearsonSchwarz(z: seq<Pt>)
    requires |z| > 0
    ensures Num(z) * Num(z) <= DenX(z) * DenY(z)
    ensures DenX(z) >= 0.0 && DenY(z) >= 0.0
  {
    hide SumOf, Times;
    CauchySchwarz(z, DevX(z), DevY(z));
    SquaresNonneg(z, DevX(z));
    SquaresNonneg(z, DevY(z));
  }

  lemma ProductSign(a: real, b: real)
    requires a >= 0.0 && b >= 0.0
    ensures a * b >= 0.0
    ensures a * b == 0.0 <==> a == 0.0 || b == 0.0
  {}

  lemma RootZero(r: real, a: real)
    requires IsRoot(r, a)
    ensures r == 0.0 <==> a == 0.0
  {
    SquareSign(r);
  }

  lemma QuotientBound(u: real, r: real)
    requires r > 0.0 && -r <= u <= r
    ensures -1.0 <= Quotient(u, r) <= 1.0
  {}

  lemma SpreadZero(z: seq<Pt>, f: Pt -> real)
    requires |z| > 0
    ensures SumOf(z, Times(Dev(f, MeanOf(z, f)), Dev(f, MeanOf(z, f)))) == 0.0
            <==> forall p, q | p in z && q in z :: f(p) == f(q)
  {
    hide SumOf;
    var d := Dev(f, MeanOf(z, f));
    SquaresNonneg(z, d);
    if SumOf(z, Times(d, d)) == 0.0 {
      forall p, q | p in z && q in z ensures f(p) == f(q) {
        assert d(p) == 0.0 && d(q) == 0.0;
      }
    }
    if forall p, q | p in z && q in z :: f(p) == f(q) {
      SumOfConst(z, f, f(z[0]));
      assert MeanOf(z, f) == f(z[0]);
      SumOfConst(z, Times(d, d), 0.0);
    }
  }

  lemma RanksConstant(vals: seq<real>)
    ensures Constant(vals) <==> forall v, w | v in vals && w in vals :: Midrank(vals, v) == Midrank(vals, w)
  {
    hide CountOf, Midrank;
    forall v, w | v in vals && w in vals && Midrank(vals, v) == Midrank(vals, w) ensures v == w {
      if v < w {
        RankMonotone(vals, v, w);
      } else if w < v {
        RankMonotone(vals, w, v);
      }
    }
  }

  lemma SpreadX(xs: seq<real>, ys: seq<real>)
    requires |xs| == |ys| > 0
    ensures DenX(RankPairs(xs, ys)) == 0.0 <==> Constant(xs)
  {
    hide SumOf, Midrank, Constant;
    var z := RankPairs(xs, ys);
    SpreadZero(z, First());
    RanksConstant(xs);
    forall i | 0 <= i < |xs| ensures z[i] in z && z[i].0 == Midrank(xs, xs[i]) {}
  }

  lemma SpreadY(xs: seq<real>, ys: seq<real>)
    requires |xs| == |ys| > 0
    ensures DenY(RankPairs(xs, ys)) == 0.0 <==> Constant(ys)
  {
    hide SumOf, Midrank, Constant;
    var z := RankPairs(xs, ys);
    SpreadZero(z, Second());
    RanksConstant(ys);
    forall i | 0 <= i < |ys| ensures z[i] in z && z[i].1 == Midrank(ys, ys[i]) {}
  }

  // ------------------------------------------------------ the two formulas

  lemma ShiftedAt(p: Pt, f: Pt -> real, m: real)
    ensures Times(Dev(f, m), Dev(f, m))(p) == Shifted(f, m)(p) + -2.0 * m * f(p)
  {
    var x := f(p);
    SquareDev(x, m);
    assert Dev(f, m)(p) == x - m;
    assert Times(f, f)(p) == x * x;
  }

  lemma MeanTimes(u: real, n: real)
    requires n > 0.0
    ensures u == n * Quotient(u, n)
  {}

  lemma SecondMoment(z: seq<Pt>, f: Pt -> real)
    requires |z| > 0
    ensures var m := MeanOf(z, f);
            SumOf(z, Times(Dev(f, m), Dev(f, m))) == SumOf(z, Times(f, f)) - |z| as real * m * m
  {
    hide SumOf;
    var m, n := MeanOf(z, f), |z| as real;
    var sq := Times(Dev(f, m), Dev(f, m));
    forall p | p in z ensures sq(p) == Shifted(f, m)(p) + -2.0 * m * f(p) {
      ShiftedAt(p, f, m);
    }
    SumOfLinear(z, sq, Shifted(f, m), -2.0 * m, f);
    SumOfLinear(z, Shifted(f, m), Times(f, f), m * m, One());
    SumOfConst(z, One(), 1.0);
    MeanTimes(SumOf(z, f), n);
    MomentArithmetic(m, n);
  }

  function Shifted(f: Pt -> real, m: real): Pt -> real { (p: Pt) => Times(f, f)(p) + m * m * 1.0 }

  lemma SquareDev(x: real, m: real)
    ensures (x - m) * (x - m) == (x * x + m * m * 1.0) + -2.0 * m * x
  {}

  lemma MomentArithmetic(m: real, n: real)
    ensures m * m * (n * 1.0) + -2.0 * m * (n * m) == -(n * m * m)
  {}

  lemma GapAt(p: Pt, m: real)
    ensures var u, v := Dev(First(), m), Dev(Second(), m);
            GapSq()(p) == Squares(u, v)(p) + -2.0 * Times(u, v)(p)
  {
    var u, v := Dev(First(), m), Dev(Second(), m);
    var a, b := p.0 - m, p.1 - m;
    GapSquare(a, b);
    assert u(p) == a && v(p) == b;
    assert Times(u, u)(p) == a * a && Times(v, v)(p) == b * b && Times(u, v)(p) == a * b;
    assert GapSq()(p) == (a - b) * (a - b);
  }

  /** With equal means, the squared rank gaps are the two spreads less twice the covariance. */
  lemma GapsFromMoments(z: seq<Pt>)
    requires |z| > 0 && MeanOf(z, First()) == MeanOf(z, Second())
    ensures SumOf(z, GapSq()) == DenX(z) + DenY(z) - 2.0 * Num(z)
  {
    hide SumOf, MeanOf;
    var u, v := DevX(z), DevY(z);
    forall p | p in z ensures GapSq()(p) == Squares(u, v)(p) + -2.0 * Times(u, v)(p) {
      GapAt(p, MeanOf(z, First()));
    }
    SumOfLinear(z, GapSq(), Squares(u, v), -2.0, Times(u, v));
    SumOfLinear(z, Squares(u, v), Times(u, u), 1.0, Times(v, v));
  }

  function Squares(u: Pt -> real, v: Pt -> real): Pt -> real { (p: Pt) => Times(u, u)(p) + Times(v, v)(p) }

  lemma GapSquare(a: real, b: real)
    ensures (a - b) * (a - b) == (a * a + b * b) + -2.0 * (a * b)
  {}

  /** The mean rank is (n+1)/2 on both axes. */
  lemma MeanRanks(xs: seq<real>, ys: seq<real>)
    requires |xs| == |ys| > 0
    ensures MeanOf(RankPairs(xs, ys), First()) == (|xs| as real + 1.0) / 2.0
    ensures MeanOf(RankPairs(xs, ys), Second()) == (|xs| as real + 1.0) / 2.0
  {
    hide SumOf, Midrank, Quotient;
    var z := RankPairs(xs, ys);
    RankTotal(xs);
    RankTotal(ys);
    SumOfImage(z, RanksOf(xs), First(), Identity());
    SumOfImage(z, RanksOf(ys), Second(), Identity());
    HalfQuotient(SumOf(z, First()), |xs| as real);
    HalfQuotient(SumOf(z, Second()), |xs| as real);
  }

  lemma HalfQuotient(u: real, n: real)
    requires n > 0.0 && u == n * (n + 1.0) / 2.0
    ensures Quotient(u, n) == (n + 1.0) / 2.0
  {
    Cancel(u, (n + 1.0) / 2.0, n);
  }

  lemma Cancel(u: real, v: real, d: real)
    requires d != 0.0 && u == v * d
    ensures Quotient(u, d) == v
  {}

  ghost predicate TieFree(vals: seq<real>) { Distinct(vals) }

  function Squared(): real -> real { (r: real) => r * r }

  function RankSquared(vals: seq<real>): real -> real { (v: real) => Midrank(vals, v) * Midrank(vals, v) }

  function Pyramid(n: real): real { n * (n + 1.0) * (2.0 * n + 1.0) / 6.0 }

  ghost predicate StrictUpTo(s: seq<real>, i: nat)
    requires i <= |s|
  {
    forall k | 0 < k < i :: s[k - 1] < s[k]
  }

  lemma GroupBegin(s: seq<real>, i: nat) returns (h: nat)
    requires NonDecreasing(s) && 0 < i <= |s| && GroupStart(s, i)
    ensures h < i && TieGroup(s, h, i) && GroupStart(s, h)
  {
    h := i - 1;
    while h > 0 && s[h - 1] == s[i - 1]
      invariant h < i && forall k | h <= k < i :: s[k] == s[i - 1]
    {
      h := h - 1;
    }
    assert h > 0 ==> s[h - 1] <= s[h];
  }

  /** The squared mean position of the group [h, i), once for each member. */
  function Plateau(t: real, r: real): real { t * (r * r) }

  function Cube(t: real): real { t * t * t }

  /** A tie group of size t falls short of the positions it covers by (t^3 - t) / 12. */
  lemma GroupShortfall(h: real, i: real, t: real, r: real)
    requires i == h + t && r == (h + i + 1.0) / 2.0
    ensures Pyramid(i) - Pyramid(h) - Plateau(t, r) == (Cube(t) - t) / 12.0
  {
    assert r == h + (t + 1.0) / 2.0;
  }

  lemma CubeExcess(t: nat)
    requires t > 0
    ensures Cube(t as real) >= t as real && (Cube(t as real) == t as real <==> t == 1)
  {
    var c := t as real;
    var d := c * c - 1.0;
    assert d == (c - 1.0) * (c + 1.0);
    assert Cube(c) - c == c * d;
    NonnegProduct(c - 1.0, c + 1.0);
    NonnegProduct(c, d);
    if t > 1 {
      PositiveProduct(c - 1.0, c + 1.0);
      PositiveProduct(c, d);
    }
  }

  lemma GroupSquares(vals: seq<real>, h: nat, i: nat)
    requires TieGroup(SortedValues(vals), h, i)
    ensures var s, r := SortedValues(vals), (h as real + i as real + 1.0) / 2.0;
            SumOf(s[..i], RankSquared(vals)) == SumOf(s[..h], RankSquared(vals)) + Plateau((i - h) as real, r)
  {
    hide SumOf, Midrank, SortedValues;
    var s, r := SortedValues(vals), (h as real + i as real + 1.0) / 2.0;
    GroupRank(vals, h, i);
    assert Midrank(vals, s[h]) == r;
    assert s[..i] == s[..h] + s[h..i];
    SumOfAppend(s[..h], s[h..i], RankSquared(vals));
    assert |s[h..i]| as real == (i - h) as real;
    hide Plateau;
    PlateauSum(s[h..i], RankSquared(vals), r, r * r);
  }

  lemma PlateauSum<T>(s: seq<T>, f: T -> real, r: real, c: real)
    requires c == r * r && forall v | v in s :: f(v) == c
    ensures SumOf(s, f) == Plateau(|s| as real, r)
  {
    hide SumOf;
    SumOfConst(s, f, c);
  }

  /** The squared ranks of the first i sorted values: at most 1^2 + ... + i^2, and that only without ties. */
  lemma {:induction false} PrefixSquares(vals: seq<real>, i: nat)
    requires i <= |SortedValues(vals)| && NonDecreasing(SortedValues(vals)) && GroupStart(SortedValues(vals), i)
    ensures SumOf(SortedValues(vals)[..i], RankSquared(vals)) <= Pyramid(i as real)
    ensures SumOf(SortedValues(vals)[..i], RankSquared(vals)) == Pyramid(i as real)
            <==> StrictUpTo(SortedValues(vals), i)
    decreases i
  {
    hide SortedValues, RankSquared;
    var s := SortedValues(vals);
    if i == 0 {
      assert s[..0] == [];
    } else {
      hide SumOf, Pyramid;
      var h := GroupBegin(s, i);
      PrefixSquares(vals, h);
      GroupSquares(vals, h, i);
      GroupStrict(s, h, i);
      hide StrictUpTo, TieGroup, GroupStart, NonDecreasing;
      GroupStep(h, i, SumOf(s[..h], RankSquared(vals)), SumOf(s[..i], RankSquared(vals)));
    }
  }

  lemma GroupStep(h: nat, i: nat, before: real, after: real)
    requires h < i && before <= Pyramid(h as real)
    requires after == before + Plateau((i - h) as real, (h as real + i as real + 1.0) / 2.0)
    ensures after <= Pyramid(i as real)
    ensures after == Pyramid(i as real) <==> before == Pyramid(h as real) && i == h + 1
  {
    hide Pyramid, Plateau, Cube;
    var t, r := (i - h) as real, (h as real + i as real + 1.0) / 2.0;
    assert i as real == h as real + t;
    GroupShortfall(h as real, i as real, t, r);
    CubeExcess(i - h);
  }

  lemma GroupStrict(s: seq<real>, h: nat, i: nat)
    requires TieGroup(s, h, i)
    ensures StrictUpTo(s, i) <==> StrictUpTo(s, h) && i == h + 1
  {
    if i > h + 1 {
      assert s[h + 1] == s[h];
    }
  }

  lemma SortedStrict(vals: seq<real>)
    ensures StrictUpTo(SortedValues(vals), |SortedValues(vals)|) <==> TieFree(vals)
  {
    hide SortedValues;
    var s := SortedValues(vals);
    SortedValuesOf(vals);
    DistinctSpread(s);
    DistinctSpread(vals);
    if StrictUpTo(s, |s|) {
      forall p, q | 0 <= p < q < |s| ensures s[p] != s[q] {
        assert s[p] <= s[q - 1] < s[q];
      }
    }
    if Distinct(s) {
      forall k | 0 < k < |s| ensures s[k - 1] < s[k] {
        assert s[k - 1] <= s[k];
      }
    }
  }

  /** The squares of all ranks add up to at most 1^2 + ... + n^2, with equality exactly when nothing ties. */
  lemma SecondMomentBound(vals: seq<real>)
    ensures SumOf(RanksOf(vals), Squared()) <= Pyramid(|vals| as real)
    ensures SumOf(RanksOf(vals), Squared()) == Pyramid(|vals| as real) <==> TieFree(vals)
  {
    hide SumOf, Midrank, SortedValues, TieFree, Pyramid, StrictUpTo;
    var s := SortedValues(vals);
    SortedValuesOf(vals);
    SumOfImage(RanksOf(vals), vals, Squared(), RankSquared(vals));
    SumOfPerm(s, vals, RankSquared(vals));
    PrefixSquares(vals, |s|);
    assert s[..|s|] == s;
    SortedStrict(vals);
  }

  /** What a list of n ranks without ties spreads. */
  function FullSpread(n: real): real { n * (n * n - 1.0) / 12.0 }

  /** Ties take spread away: both spreads are at most n(n^2-1)/12, and equal it exactly without ties. */
  lemma SpreadBound(xs: seq<real>, ys: seq<real>)
    requires |xs| == |ys| > 0
    ensures var v, z := FullSpread(|xs| as real), RankPairs(xs, ys);
            && DenX(z) <= v && (DenX(z) == v <==> TieFree(xs))
            && DenY(z) <= v && (DenY(z) == v <==> TieFree(ys))
  {
    hide SumOf, Midrank, MeanOf, TieFree, Pyramid, FullSpread;
    var z, n := RankPairs(xs, ys), |xs| as real;
    MeanRanks(xs, ys);
    SecondMoment(z, First());
    SecondMoment(z, Second());
    SumOfImage(z, RanksOf(xs), Times(First(), First()), Squared());
    SumOfImage(z, RanksOf(ys), Times(Second(), Second()), Squared());
    SecondMomentBound(xs);
    SecondMomentBound(ys);
    SpreadArithmetic(n);
  }

  lemma SpreadArithmetic(n: real)
    ensures Pyramid(n) - n * ((n + 1.0) / 2.0) * ((n + 1.0) / 2.0) == FullSpread(n)
  {}
}
