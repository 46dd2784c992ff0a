/**
 Isotonic calibration by pool-adjacent-violators. `Segments` is the abstract
 result: a partition of the distinct x values into runs. `PavFit` is the source's
 loop over (sum, count, upper bound) blocks, proved to compute exactly that, and
 `Fit` is the step function that prediction makes of it.
 */
module Pav {
  import opened Orders
  import opened RealFacts
  import opened Sums

  datatype Pair = Pair(x: real, y: real)
  datatype Point = Point(x: real, s: real, c: real)
  datatype Block = Block(sum: real, count: real, upper: real)
  datatype FitResult = Fitted(grid: seq<real>, vals: seq<real>) | BadInput

  type Seg = seq<Point>

  // ---------------------------------------------------------------- points

  function Zip(xs: seq<real>, ys: seq<real>): seq<Pair>
    requires |xs| == |ys|
  {
    seq(|xs|, i requires 0 <= i < |xs| => Pair(xs[i], ys[i]))
  }

  function Y(): Pair -> real { (p: Pair) => p.y }

  function X(): Pair -> real { (p: Pair) => p.x }

  /** The value of rho at the pairs whose x is k, and 0 elsewhere. */
  function At(rho: Pair -> real, k: real): Pair -> real { AtKey(X(), rho, k) }

  function Xs(data: seq<Pair>): set<real> { set p | p in data :: p.x }

  predicate Increasing(s: seq<real>) {
    forall i, j | 0 <= i < j < |s| :: s[i] < s[j]
  }

  /** One point per distinct x: the sum of its y values and how many there are. */
  function PointAt(data: seq<Pair>, x: real): Point {
    Point(x, SumOf(data, At(Y(), x)), SumOf(data, At(One(), x)))
  }

  function Points(data: seq<Pair>): seq<Point> {
    var ks := SortedReals(Xs(data));
    seq(|ks|, i requires 0 <= i < |ks| => PointAt(data, ks[i]))
  }

  ghost predicate IncreasingPoints(ps: seq<Point>) {
    && (forall i, j | 0 <= i < j < |ps| :: ps[i].x < ps[j].x)
    && (forall p | p in ps :: p.c > 0.0)
  }

  lemma {:induction false} CountPositive(data: seq<Pair>, x: real)
    ensures SumOf(data, At(One(), x)) >= 0.0
    ensures x in Xs(data) ==> SumOf(data, At(One(), x)) >= 1.0
  {
    if |data| > 0 {
      var m := |data| - 1;
      assert data == data[..m] + [data[m]];
      CountPositive(data[..m], x);
    }
  }

  lemma PointsIncreasing(data: seq<Pair>)
    ensures IncreasingPoints(Points(data))
  {
    forall p | p in Points(data) ensures p.c > 0.0 {
      CountPositive(data, p.x);
    }
  }

  // ------------------------------------------------- the abstract algorithm

  function S(): Point -> real { (p: Point) => p.s }
  function C(): Point -> real { (p: Point) => p.c }

  /** How far the run lies above the level v: sum of y minus v times count. */
  function Above(v: real): Point -> real { (p: Point) => p.s - v * p.c }

  ghost predicate Weighted(seg: Seg) {
    |seg| > 0 && forall p | p in seg :: p.c > 0.0
  }

  lemma WeightPositive(seg: Seg)
    requires Weighted(seg)
    ensures SumOf(seg, C()) > 0.0
  {
    SumOfZero(seg, C());
    assert seg[0] in seg;
  }

  function Mean(seg: Seg): real {
    if SumOf(seg, C()) == 0.0 then 0.0 else SumOf(seg, S()) / SumOf(seg, C())
  }

  lemma AboveSplit(seg: Seg, v: real)
    ensures SumOf(seg, Above(v)) == SumOf(seg, S()) - v * SumOf(seg, C())
  {
    SumOfLinear(seg, Above(v), S(), -v, C());
  }

  lemma AboveMean(seg: Seg)
    requires Weighted(seg)
    ensures SumOf(seg, Above(Mean(seg))) == 0.0
  {
    WeightPositive(seg);
    AboveSplit(seg, Mean(seg));
  }

  /** Every prefix of the run has a mean of at least the run's own mean. */
  ghost predicate Heavy(seg: Seg) {
    NeverBelow(seg, Mean(seg))
  }

  ghost predicate NeverBelow(seg: Seg, v: real) {
    forall j | 0 <= j <= |seg| :: PrefixAbove(seg, j, v) >= 0.0
  }

  ghost function PrefixAbove(seg: Seg, j: nat, v: real): real
    requires j <= |seg|
  {
    SumOf(seg[..j], Above(v))
  }

  function Pool(segs: seq<Seg>, seg: Seg): seq<Seg>
    decreases |segs|
  {
    if |segs| > 0 && Mean(segs[|segs| - 1]) >= Mean(seg)
    then Pool(segs[..|segs| - 1], segs[|segs| - 1] + seg)
    else segs + [seg]
  }

  function Segments(ps: seq<Point>): seq<Seg> {
    if |ps| == 0 then []
    else Pool(Segments(ps[..|ps| - 1]), [ps[|ps| - 1]])
  }

  function Flatten(segs: seq<Seg>): seq<Point> {
    if |segs| == 0 then [] else Flatten(segs[..|segs| - 1]) + segs[|segs| - 1]
  }

  function Means(segs: seq<Seg>): seq<real> {
    seq(|segs|, b requires 0 <= b < |segs| => Mean(segs[b]))
  }

  ghost predicate WellPooled(segs: seq<Seg>) {
    && (forall seg | seg in segs :: Weighted(seg) && Heavy(seg))
    && Increasing(Means(segs))
  }

  // ------------------------------------------------------- pooling is sound

  lemma MergedMean(a: Seg, b: Seg)
    requires Weighted(a) && Weighted(b)
    requires Mean(a) >= Mean(b)
    ensures Weighted(a + b)
    ensures Mean(b) <= Mean(a + b) <= Mean(a)
  {
    WeightPositive(a); WeightPositive(b);
    SumOfAppend(a, b, S()); SumOfAppend(a, b, C());
    var ca, cb := SumOf(a, C()), SumOf(b, C());
    var ma, mb, m := Mean(a), Mean(b), Mean(a + b);
    WeightedAverage(ma, mb, ca, cb, m);
  }

  lemma WeightedAverage(ma: real, mb: real, ca: real, cb: real, m: real)
    requires ma >= mb && ca > 0.0 && cb > 0.0
    requires m * (ca + cb) == ma * ca + mb * cb
    ensures mb <= m <= ma
  {
    NonnegProduct(ma - mb, ca);
    NonnegProduct(ma - mb, cb);
    assert (m - mb) * (ca + cb) == (ma - mb) * ca;
    assert (ma - m) * (ca + cb) == (ma - mb) * cb;
    NonnegFactor(m - mb, ca + cb);
    NonnegFactor(ma - m, ca + cb);
  }

  /** Raising the reference level lowers the excess. */
  lemma AboveMono(seg: Seg, v: real, w: real)
    requires v <= w && forall p | p in seg :: p.c > 0.0
    ensures SumOf(seg, Above(w)) <= SumOf(seg, Above(v))
  {
    hide SumOf;
    forall p | p in seg ensures Above(w)(p) <= Above(v)(p) {
      NonnegProduct(w - v, p.c);
      assert w * p.c == v * p.c + (w - v) * p.c;
    }
    SumOfMono(seg, Above(w), Above(v));
  }

  lemma MergedHeavy(a: Seg, b: Seg)
    requires Weighted(a) && Weighted(b) && Heavy(a) && Heavy(b)
    requires Mean(a) >= Mean(b)
    ensures Heavy(a + b)
  {
    hide SumOf, Above, Mean;
    MergedMean(a, b);
    var m := Mean(a + b);
    AboveMean(a + b);
    forall j | 0 <= j <= |a + b| ensures PrefixAbove(a + b, j, m) >= 0.0 {
      if j <= |a| {
        assert (a + b)[..j] == a[..j];
        HeadAbove(a, j, m);
      } else {
        assert (a + b)[..j] == a + b[..j - |a|];
        TailAbove(a, b, j - |a|, m);
      }
    }
  }

  lemma HeadAbove(a: Seg, j: nat, m: real)
    requires Weighted(a) && Heavy(a) && j <= |a| && m <= Mean(a)
    ensures SumOf(a[..j], Above(m)) >= 0.0
  {
    hide SumOf, Above, Mean;
    assert PrefixAbove(a, j, Mean(a)) >= 0.0;
    AboveMono(a[..j], m, Mean(a));
  }

  /** The part of b after k lies below b's mean, so what comes before it lies above m. */
  lemma TailAbove(a: Seg, b: Seg, k: nat, m: real)
    requires Weighted(b) && Heavy(b) && k <= |b| && Mean(b) <= m
    requires SumOf(a + b, Above(m)) == 0.0
    ensures SumOf(a + b[..k], Above(m)) >= 0.0
  {
    hide SumOf, Above, Mean;
    var v := Mean(b);
    assert PrefixAbove(b, k, v) >= 0.0;
    AboveMean(b);
    assert b == b[..k] + b[k..] && a + b == a + b[..k] + b[k..];
    SumOfAppend(b[..k], b[k..], Above(v));
    SumOfAppend(a + b[..k], b[k..], Above(m));
    AboveMono(b[k..], v, m);
  }

  lemma {:induction false} PoolSound(segs: seq<Seg>, seg: Seg)
    requires WellPooled(segs) && Weighted(seg) && Heavy(seg)
    ensures WellPooled(Pool(segs, seg))
    ensures Flatten(Pool(segs, seg)) == Flatten(segs) + seg
    ensures 1 <= |Pool(segs, seg)| <= |segs| + 1
    decreases |segs|
  {
    hide SumOf, Mean, Heavy;
    if |segs| > 0 && Mean(segs[|segs| - 1]) >= Mean(seg) {
      var a := segs[|segs| - 1];
      PopSound(segs);
      MergedMean(a, seg);
      MergedHeavy(a, seg);
      PoolSound(segs[..|segs| - 1], a + seg);
      assert Flatten(segs[..|segs| - 1]) + (a + seg) == Flatten(segs) + seg;
    } else {
      PushSound(segs, seg);
    }
  }

  lemma PushSound(segs: seq<Seg>, seg: Seg)
    requires WellPooled(segs) && Weighted(seg) && Heavy(seg)
    requires |segs| > 0 ==> Mean(segs[|segs| - 1]) < Mean(seg)
    ensures WellPooled(segs + [seg])
    ensures Flatten(segs + [seg]) == Flatten(segs) + seg
  {
    hide SumOf, Mean, Heavy, Weighted, Increasing;
    MeansSnoc(segs, seg);
    IncreasingSnoc(Means(segs), Mean(seg));
    assert (segs + [seg])[..|segs|] == segs;
  }

  lemma MeansSnoc(segs: seq<Seg>, seg: Seg)
    ensures Means(segs + [seg]) == Means(segs) + [Mean(seg)]
  {
    hide Mean;
  }

  lemma IncreasingSnoc(s: seq<real>, v: real)
    requires Increasing(s)
    requires |s| > 0 ==> s[|s| - 1] < v
    ensures Increasing(s + [v])
  {}

  lemma PopSound(segs: seq<Seg>)
    requires WellPooled(segs) && |segs| > 0
    ensures WellPooled(segs[..|segs| - 1])
    ensures Weighted(segs[|segs| - 1]) && Heavy(segs[|segs| - 1])
  {
    hide Mean, Heavy, Weighted;
    var r := segs[..|segs| - 1];
    assert Means(r) == Means(segs)[..|segs| - 1];
    assert segs[|segs| - 1] in segs;
  }

  lemma {:induction false} SegmentsSound(ps: seq<Point>)
    requires forall p | p in ps :: p.c > 0.0
    ensures WellPooled(Segments(ps))
    ensures Flatten(Segments(ps)) == ps
    ensures |Segments(ps)| <= |ps|
    ensures |ps| > 0 ==> |Segments(ps)| > 0
  {
    hide WellPooled, Pool, Flatten;
    if |ps| > 0 {
      var m := |ps| - 1;
      assert ps == ps[..m] + [ps[m]] && ps[m] in ps;
      SegmentsSound(ps[..m]);
      SinglePoint(ps[m]);
      PoolSound(Segments(ps[..m]), [ps[m]]);
    } else {
      NothingPooled();
    }
  }

  lemma NothingPooled()
    ensures WellPooled([]) && Flatten([]) == []
  {}

  lemma SinglePoint(p: Point)
    requires p.c > 0.0
    ensures Weighted([p]) && Heavy([p])
  {
    assert [p][..0] == [] && [p][..1] == [p];
    AboveMean([p]);
    hide Mean, Above;
    assert SumOf([], Above(Mean([p]))) == 0.0;
  }

  // ------------------------------------------------------------ prediction

  /** Python's `bisect_left` on an increasing list. */
  function BisectLeft(grid: seq<real>, x: real): (r: nat)
    ensures r <= |grid|
    ensures forall i | 0 <= i < r :: grid[i] < x
    ensures r < |grid| ==> x <= grid[r]
  {
    if |grid| == 0 || x <= grid[0] then 0 else 1 + BisectLeft(grid[1..], x)
  }

  function Predict(grid: seq<real>, vals: seq<real>, x: real): real
    requires |grid| == |vals| > 0
  {
    var idx := BisectLeft(grid, x);
    if idx >= |vals| then vals[|vals| - 1] else vals[idx]
  }

  function StepFunction(grid: seq<real>, vals: seq<real>): real -> real
    requires |grid| == |vals| > 0
  {
    x => Predict(grid, vals, x)
  }

  function Grid(segs: seq<Seg>): seq<real>
    requires NonEmptyRuns(segs)
  {
    seq(|segs|, b requires 0 <= b < |segs| => segs[b][|segs[b]| - 1].x)
  }

  lemma BisectUnique(grid: seq<real>, x: real, b: nat)
    requires b < |grid| && x <= grid[b]
    requires forall a | 0 <= a < b :: grid[a] < x
    ensures BisectLeft(grid, x) == b
  {
    assert b < BisectLeft(grid, x) || BisectLeft(grid, x) <= b;
  }

  ghost predicate NonEmptyRuns(segs: seq<Seg>) {
    forall seg | seg in segs :: |seg| > 0
  }

  lemma {:induction false} InFlatten(segs: seq<Seg>, b: nat, p: Point)
    requires b < |segs| && p in segs[b]
    ensures p in Flatten(segs)
  {
    if b < |segs| - 1 {
      InFlatten(segs[..|segs| - 1], b, p);
    }
  }

  lemma BeforeLastRun(segs: seq<Seg>, q: Point, p: Point)
    requires |segs| > 0 && IncreasingPoints(Flatten(segs))
    requires q in Flatten(segs[..|segs| - 1]) && p in segs[|segs| - 1]
    ensures q.x < p.x
  {
    var front, last := Flatten(segs[..|segs| - 1]), segs[|segs| - 1];
    var i :| 0 <= i < |front| && front[i] == q;
    var j :| 0 <= j < |last| && last[j] == p;
    assert (front + last)[i] == q && (front + last)[|front| + j] == p;
  }

  lemma PointsPrefix(ps: seq<Point>, n: nat)
    requires IncreasingPoints(ps) && n <= |ps|
    ensures IncreasingPoints(ps[..n])
  {}

  lemma LastOfRun(segs: seq<Seg>, p: Point)
    requires |segs| > 0 && IncreasingPoints(Flatten(segs)) && p in segs[|segs| - 1]
    ensures p.x <= segs[|segs| - 1][|segs[|segs| - 1]| - 1].x
  {
    var front, last := Flatten(segs[..|segs| - 1]), segs[|segs| - 1];
    var j :| 0 <= j < |last| && last[j] == p;
    assert (front + last)[|front| + j] == p;
    assert (front + last)[|front| + |last| - 1] == last[|last| - 1];
  }

  /** A point of run b lies in the half-open interval that the grid assigns to b. */
  lemma {:induction false} Locate(segs: seq<Seg>, b: nat, p: Point)
    requires NonEmptyRuns(segs)
    requires IncreasingPoints(Flatten(segs))
    requires b < |segs| && p in segs[b]
    ensures p.x <= Grid(segs)[b]
    ensures forall a | 0 <= a < b :: Grid(segs)[a] < p.x
  {
    var m := |segs| - 1;
    var init := segs[..m];
    assert Flatten(segs)[..|Flatten(init)|] == Flatten(init);
    if b < m {
      PointsPrefix(Flatten(segs), |Flatten(init)|);
      Locate(init, b, p);
      assert Grid(init) == Grid(segs)[..m];
    } else {
      LastOfRun(segs, p);
      forall a | 0 <= a < m ensures Grid(segs)[a] < p.x {
        var q := segs[a][|segs[a]| - 1];
        assert init[a] == segs[a] && q in init[a];
        InFlatten(init, a, q);
        BeforeLastRun(segs, q, p);
      }
    }
  }

  lemma PredictInRun(segs: seq<Seg>, b: nat, p: Point)
    requires NonEmptyRuns(segs)
    requires IncreasingPoints(Flatten(segs))
    requires b < |segs| && p in segs[b]
    ensures Predict(Grid(segs), Means(segs), p.x) == Mean(segs[b])
  {
    Locate(segs, b, p);
    BisectUnique(Grid(segs), p.x, b);
  }

  lemma {:induction false} RunOf(segs: seq<Seg>, p: Point) returns (b: nat)
    requires p in Flatten(segs)
    ensures b < |segs| && p in segs[b]
  {
    var m := |segs| - 1;
    if p in segs[m] {
      b := m;
    } else {
      b := RunOf(segs[..m], p);
    }
  }

  lemma PredictMonotone(grid: seq<real>, vals: seq<real>, x: real, x': real)
    requires |grid| == |vals| > 0 && Increasing(vals) && x <= x'
    ensures Predict(grid, vals, x) <= Predict(grid, vals, x')
  {
    var i, j := BisectLeft(grid, x), BisectLeft(grid, x');
    assert j < |grid| ==> x' <= grid[j];
  }

  // ------------------------------------------------------------ optimality

  function Sq(r: real): real { r * r }

  function SqErr(g: real -> real): Pair -> real { (p: Pair) => Sq(p.y - g(p.x)) }
  function Gap(f: real -> real, g: real -> real): Pair -> real { (p: Pair) => Sq(f(p.x) - g(p.x)) }
  function Resid(f: real -> real): Pair -> real { (p: Pair) => p.y - f(p.x) }
  function Diff(f: real -> real, g: real -> real): real -> real { (x: real) => f(x) - g(x) }
  function Weigh(w: real -> real, rho: Pair -> real): Pair -> real { (p: Pair) => w(p.x) * rho(p) }
  function Both(f: real -> real, g: real -> real): Pair -> real {
    (p: Pair) => SqErr(f)(p) + Gap(f, g)(p)
  }

  lemma SquareSplit(y: real, u: real, v: real)
    ensures Sq(y - v) == Sq(y - u) + Sq(u - v) + 2.0 * ((u - v) * (y - u))
  {}

  lemma ErrorSplitAt(p: Pair, f: real -> real, g: real -> real)
    ensures SqErr(g)(p) == Both(f, g)(p) + 2.0 * Weigh(Diff(f, g), Resid(f))(p)
  {
    var u, v := f(p.x), g(p.x);
    SquareSplit(p.y, u, v);
    assert SqErr(g)(p) == Sq(p.y - v);
    assert SqErr(f)(p) == Sq(p.y - u);
    assert Gap(f, g)(p) == Sq(u - v);
    assert Both(f, g)(p) == SqErr(f)(p) + Gap(f, g)(p);
    assert Diff(f, g)(p.x) == u - v;
    assert Resid(f)(p) == p.y - u;
    assert Weigh(Diff(f, g), Resid(f))(p) == Diff(f,g)(p.x) * Resid(f)(p);
    assert Weigh(Diff(f, g), Resid(f))(p) == (u - v) * (p.y - u);
  }

  lemma ErrorSplit(data: seq<Pair>, f: real -> real, g: real -> real)
    ensures SumOf(data, SqErr(g)) == SumOf(data, SqErr(f)) + SumOf(data, Gap(f, g))
                                     + 2.0 * SumOf(data, Weigh(Diff(f, g), Resid(f)))
  {
    hide SumOf, Weigh, SqErr, Gap;
    forall p | p in data ensures SqErr(g)(p) == Both(f, g)(p) + 2.0 * Weigh(Diff(f, g), Resid(f))(p) {
      ErrorSplitAt(p, f, g);
    }
    SumOfLinear(data, SqErr(g), Both(f, g), 2.0, Weigh(Diff(f, g), Resid(f)));
    SumOfLinear(data, Both(f, g), SqErr(f), 1.0, Gap(f, g));
  }

  /** The total of h over the data, key by key. */
  lemma DataGroups(data: seq<Pair>, h: Pair -> real)
    ensures SumOf(data, h) == SumOf(SortedReals(Xs(data)), PerKey(data, X(), h))
  {
    hide SumOf;
    GroupSum(data, SortedReals(Xs(data)), X(), h);
  }

  function Cross(f: real -> real, g: real -> real): Point -> real {
    (p: Point) => (f(p.x) - g(p.x)) * (p.s - f(p.x) * p.c)
  }

  lemma WeighAt(data: seq<Pair>, k: real, w: real -> real, rho: Pair -> real)
    ensures SumOf(data, At(Weigh(w, rho), k)) == w(k) * SumOf(data, At(rho, k))
  {
    hide SumOf;
    forall p | p in data ensures At(Weigh(w, rho), k)(p) == Zero()(p) + w(k) * At(rho, k)(p) {
      assert p.x == k ==> Weigh(w, rho)(p) == w(k) * rho(p);
    }
    SumOfLinear(data, At(Weigh(w, rho), k), Zero(), w(k), At(rho, k));
    SumOfConst(data, Zero(), 0.0);
  }

  lemma ResidAt(data: seq<Pair>, k: real, f: real -> real)
    ensures SumOf(data, At(Resid(f), k)) == SumOf(data, At(Y(), k)) - f(k) * SumOf(data, At(One(), k))
  {
    hide SumOf;
    forall p | p in data ensures At(Resid(f), k)(p) == At(Y(), k)(p) + -f(k) * At(One(), k)(p) {
      assert p.x == k ==> Resid(f)(p) == Y()(p) - f(k) && One()(p) == 1.0;
    }
    SumOfLinear(data, At(Resid(f), k), At(Y(), k), -f(k), At(One(), k));
  }

  lemma CrossAt(data: seq<Pair>, k: real, f: real -> real, g: real -> real)
    ensures PerKey(data, X(), Weigh(Diff(f, g), Resid(f)))(k) == Cross(f, g)(PointAt(data, k))
  {
    WeighAt(data, k, Diff(f, g), Resid(f));
    ResidAt(data, k, f);
    assert Diff(f, g)(k) == f(k) - g(k);
  }

  lemma CrossGroups(data: seq<Pair>, f: real -> real, g: real -> real)
    ensures SumOf(data, Weigh(Diff(f, g), Resid(f))) == SumOf(Points(data), Cross(f, g))
  {
    hide SumOf, SortedReals;
    var ks := SortedReals(Xs(data));
    var h := Weigh(Diff(f, g), Resid(f));
    DataGroups(data, h);
    forall i | 0 <= i < |ks| ensures PerKey(data, X(), h)(ks[i]) == Cross(f, g)(Points(data)[i]) {
      CrossAt(data, ks[i], f, g);
    }
    SumOfImage(ks, Points(data), PerKey(data, X(), h), Cross(f, g));
  }

  /** Summation by parts: prefixes above the level, weighted by a non-decreasing g. */
  function Tilt(v: real, g: real -> real): Point -> real { (p: Point) => g(p.x) * (p.s - v * p.c) }

  lemma {:induction false} Abel(seg: Seg, v: real, g: real -> real)
    requires |seg| > 0
    requires NeverBelow(seg, v)
    requires NonDecreasingAlong(seg, g)
    ensures SumOf(seg, Tilt(v, g)) <= g(seg[|seg| - 1].x) * SumOf(seg, Above(v))
  {
    var m := |seg| - 1;
    var init, last := seg[..m], seg[m];
    assert seg == init + [last];
    hide SumOf, Above, Tilt, NeverBelow, NonDecreasingAlong, PrefixAbove;
    if m > 0 {
      NeverBelowPrefix(seg, v, m);
      AlongPrefix(seg, g, m);
      Abel(init, v, g);
      AbelSnoc(init, last, v, g);
    } else {
      assert seg == [last];
      AbelOne(last, v, g);
    }
  }

  lemma AbelOne(p: Point, v: real, g: real -> real)
    ensures SumOf([p], Tilt(v, g)) == g(p.x) * SumOf([p], Above(v))
  {
    hide SumOf;
    SumOfOne(p, Tilt(v, g));
    SumOfOne(p, Above(v));
  }

  lemma AbelSnoc(init: Seg, last: Point, v: real, g: real -> real)
    requires |init| > 0 && SumOf(init, Above(v)) >= 0.0 && g(init[|init| - 1].x) <= g(last.x)
    requires SumOf(init, Tilt(v, g)) <= g(init[|init| - 1].x) * SumOf(init, Above(v))
    ensures SumOf(init + [last], Tilt(v, g)) <= g(last.x) * SumOf(init + [last], Above(v))
  {
    hide SumOf, Above, Tilt;
    TiltSnoc(init, last, v, g);
    AbelStep(g(init[|init| - 1].x), g(last.x), SumOf(init, Above(v)), Above(v)(last), SumOf(init, Tilt(v, g)));
  }

  lemma TiltSnoc(init: Seg, last: Point, v: real, g: real -> real)
    ensures SumOf(init + [last], Tilt(v, g)) == SumOf(init, Tilt(v, g)) + g(last.x) * Above(v)(last)
    ensures SumOf(init + [last], Above(v)) == SumOf(init, Above(v)) + Above(v)(last)
  {
    hide SumOf;
    SumOfAppend(init, [last], Tilt(v, g));
    SumOfAppend(init, [last], Above(v));
    SumOfOne(last, Tilt(v, g));
    SumOfOne(last, Above(v));
  }

  lemma NeverBelowPrefix(seg: Seg, v: real, m: nat)
    requires NeverBelow(seg, v) && m <= |seg|
    ensures NeverBelow(seg[..m], v) && SumOf(seg[..m], Above(v)) >= 0.0
  {
    hide SumOf, Above;
    assert PrefixAbove(seg, m, v) >= 0.0;
    forall j | 0 <= j <= m ensures PrefixAbove(seg[..m], j, v) >= 0.0 {
      assert seg[..m][..j] == seg[..j];
      assert PrefixAbove(seg, j, v) >= 0.0;
    }
  }

  ghost predicate NonDecreasingAlong(seg: Seg, g: real -> real) {
    forall i, j | 0 <= i <= j < |seg| :: g(seg[i].x) <= g(seg[j].x)
  }

  lemma AlongPrefix(seg: Seg, g: real -> real, m: nat)
    requires NonDecreasingAlong(seg, g) && 0 < m < |seg|
    ensures NonDecreasingAlong(seg[..m], g) && g(seg[m - 1].x) <= g(seg[m].x)
  {}

  lemma AbelStep(g0: real, g1: real, acc: real, d: real, t: real)
    requires g0 <= g1 && acc >= 0.0 && t <= g0 * acc
    ensures t + g1 * d <= g1 * (acc + d)
  {
    NonnegProduct(g1 - g0, acc);
  }

  lemma RunCross(seg: Seg, f: real -> real, g: real -> real)
    requires Weighted(seg) && Heavy(seg)
    requires forall p | p in seg :: f(p.x) == Mean(seg)
    requires NonDecreasingAlong(seg, g)
    ensures SumOf(seg, Cross(f, g)) >= 0.0
  {
    AboveMean(seg);
    LevelCross(seg, Mean(seg), f, g);
  }

  lemma LevelCross(seg: Seg, v: real, f: real -> real, g: real -> real)
    requires |seg| > 0 && SumOf(seg, Above(v)) == 0.0
    requires NeverBelow(seg, v)
    requires forall p | p in seg :: f(p.x) == v
    requires NonDecreasingAlong(seg, g)
    ensures SumOf(seg, Cross(f, g)) >= 0.0
  {
    hide SumOf, Cross, Tilt, Above, PrefixAbove;
    Abel(seg, v, g);
    CrossSum(seg, v, f, g);
  }

  function CrossPlusTilt(v: real, f: real -> real, g: real -> real): Point -> real {
    (p: Point) => Cross(f, g)(p) + Tilt(v, g)(p)
  }

  lemma CrossAtPoint(p: Point, v: real, f: real -> real, g: real -> real)
    requires f(p.x) == v
    ensures CrossPlusTilt(v, f, g)(p) == v * Above(v)(p)
  {
    var w, d := g(p.x), p.s - v * p.c;
    assert Above(v)(p) == d;
    assert Tilt(v, g)(p) == w * d;
    assert Cross(f, g)(p) == (v - w) * d;
    Distribute(d, v - w, w);
  }

  lemma CrossSum(seg: Seg, v: real, f: real -> real, g: real -> real)
    requires forall p | p in seg :: f(p.x) == v
    ensures SumOf(seg, Cross(f, g)) + SumOf(seg, Tilt(v, g)) == v * SumOf(seg, Above(v))
  {
    hide SumOf, Cross, Tilt, Above;
    forall p | p in seg ensures CrossPlusTilt(v, f, g)(p) == Zero()(p) + v * Above(v)(p) {
      CrossAtPoint(p, v, f, g);
    }
    SumOfLinear(seg, CrossPlusTilt(v, f, g), Zero(), v, Above(v));
    SumOfConst(seg, Zero(), 0.0);
    SumOfLinear(seg, CrossPlusTilt(v, f, g), Cross(f, g), 1.0, Tilt(v, g));
  }

  lemma {:induction false} FlattenNonneg(segs: seq<Seg>, h: Point -> real)
    requires forall seg | seg in segs :: SumOf(seg, h) >= 0.0
    ensures SumOf(Flatten(segs), h) >= 0.0
  {
    if |segs| > 0 {
      var m := |segs| - 1;
      assert segs[m] in segs;
      FlattenNonneg(segs[..m], h);
      SumOfAppend(Flatten(segs[..m]), segs[m], h);
    }
  }

  // ----------------------------------------------------------- main results

  /** The fit as a function of the data; `PavFit` below computes it. */
  function Calibrate(xs: seq<real>, ys: seq<real>): FitResult {
    if |xs| != |ys| || |xs| == 0 then BadInput
    else
      var segs := FitRuns(Zip(xs, ys));
      Fitted(Grid(segs), Means(segs))
  }

  function FitRuns(data: seq<Pair>): (segs: seq<Seg>)
    ensures NonEmptyRuns(segs) && WellPooled(segs) && Flatten(segs) == Points(data)
    ensures |data| > 0 ==> |segs| > 0
  {
    PointsIncreasing(data);
    SegmentsSound(Points(data));
    assert |data| > 0 ==> data[0].x in Xs(data);
    Segments(Points(data))
  }

  /** The fitted step function. */
  function Fit(data: seq<Pair>): real -> real
    requires |data| > 0
  {
    var segs := FitRuns(data);
    StepFunction(Grid(segs), Means(segs))
  }

  ghost predicate NonDecreasingOn(g: real -> real, ks: set<real>) {
    forall a, b | a in ks && b in ks && a <= b :: g(a) <= g(b)
  }

  lemma FitMonotone(data: seq<Pair>)
    requires |data| > 0
    ensures forall a, b | a <= b :: Fit(data)(a) <= Fit(data)(b)
  {
    var segs := FitRuns(data);
    forall a, b | a <= b ensures Fit(data)(a) <= Fit(data)(b) {
      PredictMonotone(Grid(segs), Means(segs), a, b);
    }
  }

  lemma FitOnRun(data: seq<Pair>, b: nat, p: Point)
    requires |data| > 0 && b < |FitRuns(data)| && p in FitRuns(data)[b]
    ensures Fit(data)(p.x) == Mean(FitRuns(data)[b])
  {
    PointsIncreasing(data);
    PredictInRun(FitRuns(data), b, p);
  }

  /** A run is a slice of the points. */
  lemma {:induction false} RunSlice(segs: seq<Seg>, b: nat) returns (lo: nat)
    requires b < |segs|
    ensures lo + |segs[b]| <= |Flatten(segs)| && Flatten(segs)[lo..lo + |segs[b]|] == segs[b]
  {
    var front := segs[..|segs| - 1];
    if b < |segs| - 1 {
      lo := RunSlice(front, b);
    } else {
      lo := |Flatten(front)|;
    }
  }

  lemma RunInPoints(segs: seq<Seg>, b: nat)
    requires b < |segs| && IncreasingPoints(Flatten(segs))
    ensures forall i, j | 0 <= i <= j < |segs[b]| :: segs[b][i].x <= segs[b][j].x
    ensures forall p | p in segs[b] :: p in Flatten(segs)
  {
    hide Flatten;
    var lo := RunSlice(segs, b);
    forall i | 0 <= i < |segs[b]| ensures segs[b][i] == Flatten(segs)[lo + i] {}
  }

  lemma CrossNonneg(data: seq<Pair>, g: real -> real)
    requires |data| > 0 && NonDecreasingOn(g, Xs(data))
    ensures SumOf(Points(data), Cross(Fit(data), g)) >= 0.0
  {
    hide SumOf, Mean, Cross, Heavy, Flatten, IncreasingPoints, Segments;
    var segs := FitRuns(data);
    PointsIncreasing(data);
    forall seg | seg in segs ensures SumOf(seg, Cross(Fit(data), g)) >= 0.0 {
      var b :| 0 <= b < |segs| && segs[b] == seg;
      RunInPoints(segs, b);
      forall p | p in seg ensures Fit(data)(p.x) == Mean(seg) && p.x in Xs(data) {
        FitOnRun(data, b, p);
      }
      RunCross(seg, Fit(data), g);
    }
    FlattenNonneg(segs, Cross(Fit(data), g));
  }

  /**
   Least squares: any function that is non-decreasing on the observed x values
   has a squared error larger than the fit's by at least its squared distance
   from the fit.
   */
  lemma FitOptimal(data: seq<Pair>, g: real -> real)
    requires |data| > 0 && NonDecreasingOn(g, Xs(data))
    ensures SumOf(data, SqErr(Fit(data))) + SumOf(data, Gap(Fit(data), g)) <= SumOf(data, SqErr(g))
  {
    hide SumOf, FitRuns, Fit;
    ErrorSplit(data, Fit(data), g);
    CrossGroups(data, Fit(data), g);
    CrossNonneg(data, g);
  }

  lemma GapSign(f: real -> real, g: real -> real, p: Pair)
    ensures Gap(f, g)(p) >= 0.0
    ensures Gap(f, g)(p) == 0.0 <==> g(p.x) == f(p.x)
  {
    SquareSign(f(p.x) - g(p.x));
    assert Gap(f, g)(p) == Sq(f(p.x) - g(p.x));
  }

  lemma GapZero(data: seq<Pair>, f: real -> real, g: real -> real)
    requires SumOf(data, Gap(f, g)) <= 0.0
    ensures forall x | x in Xs(data) :: g(x) == f(x)
  {
    forall p ensures Gap(f, g)(p) >= 0.0 && (Gap(f, g)(p) == 0.0 <==> g(p.x) == f(p.x)) {
      GapSign(f, g, p);
    }
    hide SumOf, Gap, Sq;
    SumOfZero(data, Gap(f, g));
  }

  /** Whoever does as well as the fit agrees with it at every observed x. */
  lemma FitUnique(data: seq<Pair>, g: real -> real)
    requires |data| > 0 && NonDecreasingOn(g, Xs(data))
    requires SumOf(data, SqErr(g)) <= SumOf(data, SqErr(Fit(data)))
    ensures forall x | x in Xs(data) :: g(x) == Fit(data)(x)
  {
    FitOptimal(data, g);
    GapZero(data, Fit(data), g);
  }

  /** The result does not depend on the order in which the pairs arrive. */
  lemma CalibrateOrderFree(xs: seq<real>, ys: seq<real>, xs': seq<real>, ys': seq<real>)
    requires |xs| == |ys| && |xs'| == |ys'|
    requires multiset(Zip(xs, ys)) == multiset(Zip(xs', ys'))
    ensures Calibrate(xs, ys) == Calibrate(xs', ys')
  {
    var a, b := Zip(xs, ys), Zip(xs', ys');
    assert |a| == |multiset(a)| == |multiset(b)| == |b|;
    forall p ensures p in a <==> p in b {
      assert p in a <==> p in multiset(a);
      assert p in b <==> p in multiset(b);
    }
    assert Xs(a) == Xs(b);
    forall i | 0 <= i < |Points(a)| ensures Points(a)[i] == Points(b)[i] {
      var k := SortedReals(Xs(a))[i];
      SumOfPerm(a, b, At(Y(), k));
      SumOfPerm(a, b, At(One(), k));
    }
    assert Points(a) == Points(b);
  }

  function RunSum(): Seg -> real { (seg: Seg) => SumOf(seg, S()) }
  function RunCount(): Seg -> real { (seg: Seg) => SumOf(seg, C()) }

  lemma {:induction false} FlattenTotals(segs: seq<Seg>)
    ensures SumOf(Flatten(segs), S()) == SumOf(segs, RunSum())
    ensures SumOf(Flatten(segs), C()) == SumOf(segs, RunCount())
  {
    if |segs| > 0 {
      var m := |segs| - 1;
      FlattenTotals(segs[..m]);
      SumOfAppend(Flatten(segs[..m]), segs[m], S());
      SumOfAppend(Flatten(segs[..m]), segs[m], C());
    }
  }

  lemma PointTotals(data: seq<Pair>)
    ensures SumOf(Points(data), S()) == SumOf(data, Y())
    ensures SumOf(Points(data), C()) == |data| as real
  {
    hide SumOf, SortedReals;
    var ks := SortedReals(Xs(data));
    DataGroups(data, Y());
    DataGroups(data, One());
    SumOfConst(data, One(), 1.0);
    forall i | 0 <= i < |ks| ensures PerKey(data, X(), Y())(ks[i]) == S()(Points(data)[i]) {}
    SumOfImage(ks, Points(data), PerKey(data, X(), Y()), S());
    forall i | 0 <= i < |ks| ensures PerKey(data, X(), One())(ks[i]) == C()(Points(data)[i]) {}
    SumOfImage(ks, Points(data), PerKey(data, X(), One()), C());
  }

  /** Pooling moves weight between blocks but creates and loses none. */
  lemma Conservation(data: seq<Pair>)
    ensures SumOf(FitRuns(data), RunSum()) == SumOf(data, Y())
    ensures SumOf(FitRuns(data), RunCount()) == |data| as real
  {
    hide SumOf;
    FlattenTotals(FitRuns(data));
    PointTotals(data);
  }

  lemma LevelAt(data: seq<Pair>, k: real, v: real)
    ensures SumOf(data, At(AboveY(v), k)) == Above(v)(PointAt(data, k))
  {
    forall p | p in data ensures At(AboveY(v), k)(p) == At(Y(), k)(p) + -v * At(One(), k)(p) {
      assert p.x == k ==> AboveY(v)(p) == Y()(p) - v && One()(p) == 1.0;
    }
    SumOfLinear(data, At(AboveY(v), k), At(Y(), k), -v, At(One(), k));
  }

  lemma PointRange(data: seq<Pair>, k: real, lo: real, hi: real)
    requires forall p | p in data :: lo <= p.y <= hi
    ensures var q := PointAt(data, k); Above(lo)(q) >= 0.0 && Above(hi)(q) <= 0.0
  {
    hide SumOf;
    LevelAt(data, k, lo);
    LevelAt(data, k, hi);
    SumOfMono(data, Zero(), At(AboveY(lo), k));
    SumOfMono(data, At(AboveY(hi), k), Zero());
    SumOfConst(data, Zero(), 0.0);
  }

  function AboveY(v: real): Pair -> real { (p: Pair) => p.y - v }

  lemma MeanRange(seg: Seg, lo: real, hi: real)
    requires Weighted(seg)
    requires forall p | p in seg :: Above(lo)(p) >= 0.0 && Above(hi)(p) <= 0.0
    ensures lo <= Mean(seg) <= hi
  {
    hide SumOf;
    SumOfMono(seg, Zero(), Above(lo));
    SumOfMono(seg, Above(hi), Zero());
    SumOfConst(seg, Zero(), 0.0);
    AboveSplit(seg, lo);
    AboveSplit(seg, hi);
    WeightPositive(seg);
    QuotientRange(SumOf(seg, S()), SumOf(seg, C()), lo, hi);
  }

  lemma QuotientRange(s: real, w: real, lo: real, hi: real)
    requires w > 0.0 && lo * w <= s <= hi * w
    ensures lo <= s / w <= hi
  {
    var m := s / w;
    assert m * w == s;
    assert (m - lo) * w == m * w - lo * w && (hi - m) * w == hi * w - m * w;
    NonnegFactor(m - lo, w);
    NonnegFactor(hi - m, w);
  }

  /** Calibrated values never leave the range of the observed y values. */
  lemma FitRange(data: seq<Pair>, lo: real, hi: real, x: real)
    requires |data| > 0 && forall p | p in data :: lo <= p.y <= hi
    ensures lo <= Fit(data)(x) <= hi
  {
    hide SumOf, Mean, Above, Heavy, Flatten, FitRuns;
    var segs := FitRuns(data);
    forall b | 0 <= b < |segs| ensures lo <= Means(segs)[b] <= hi {
      PointsIncreasing(data);
      RunInPoints(segs, b);
      assert segs[b] in segs;
      forall p | p in segs[b] ensures Above(lo)(p) >= 0.0 && Above(hi)(p) <= 0.0 {
        PointRange(data, p.x, lo, hi);
      }
      MeanRange(segs[b], lo, hi);
    }
  }

  /** At a training x the prediction is the mean of the block that holds x. */
  lemma FitAtTraining(data: seq<Pair>, x: real) returns (b: nat)
    requires x in Xs(data)
    ensures |data| > 0 && b < |FitRuns(data)|
    ensures PointAt(data, x) in FitRuns(data)[b]
    ensures Fit(data)(x) == Mean(FitRuns(data)[b])
  {
    var ks := SortedReals(Xs(data));
    var i :| 0 <= i < |ks| && ks[i] == x;
    assert Points(data)[i] == PointAt(data, x);
    b := RunOf(FitRuns(data), PointAt(data, x));
    FitOnRun(data, b, PointAt(data, x));
  }

  lemma GridIncreasing(data: seq<Pair>)
    requires |data| > 0
    ensures Increasing(Grid(FitRuns(data))) && Increasing(Means(FitRuns(data)))
  {
    var segs := FitRuns(data);
    PointsIncreasing(data);
    forall a, b | 0 <= a < b < |segs| ensures Grid(segs)[a] < Grid(segs)[b] {
      assert segs[b] in segs;
      Locate(segs, b, segs[b][|segs[b]| - 1]);
    }
  }

  // ------------------------------------------------- in terms of the inputs

  /** The total squared error of f on the pairs (xs[i], ys[i]). */
  function SquaredError(xs: seq<real>, ys: seq<real>, f: real -> real): real
    requires |xs| == |ys|
  {
    if |xs| == 0 then 0.0
    else
      var m := |xs| - 1;
      var d := ys[m] - f(xs[m]);
      SquaredError(xs[..m], ys[..m], f) + d * d
  }

  lemma {:induction false} ErrorOfZip(xs: seq<real>, ys: seq<real>, f: real -> real)
    requires |xs| == |ys|
    ensures SumOf(Zip(xs, ys), SqErr(f)) == SquaredError(xs, ys, f)
  {
    if |xs| > 0 {
      var m := |xs| - 1;
      assert Zip(xs, ys)[..m] == Zip(xs[..m], ys[..m]);
      ErrorOfZip(xs[..m], ys[..m], f);
      assert Zip(xs, ys)[m] == Pair(xs[m], ys[m]);
      assert SqErr(f)(Pair(xs[m], ys[m])) == Sq(ys[m] - f(xs[m]));
    }
  }

  ghost predicate NonDecreasingAt(g: real -> real, xs: seq<real>) {
    forall i, j | 0 <= i < |xs| && 0 <= j < |xs| && xs[i] <= xs[j] :: g(xs[i]) <= g(xs[j])
  }

  lemma XsOfZip(xs: seq<real>, ys: seq<real>)
    requires |xs| == |ys|
    ensures forall i | 0 <= i < |xs| :: xs[i] in Xs(Zip(xs, ys))
    ensures forall x | x in Xs(Zip(xs, ys)) :: x in xs
  {
    forall i | 0 <= i < |xs| ensures xs[i] in Xs(Zip(xs, ys)) {
      assert Zip(xs, ys)[i] in Zip(xs, ys);
    }
  }

  lemma NonDecreasingBridge(xs: seq<real>, ys: seq<real>, g: real -> real)
    requires |xs| == |ys| && NonDecreasingAt(g, xs)
    ensures NonDecreasingOn(g, Xs(Zip(xs, ys)))
  {
    XsOfZip(xs, ys);
    hide Zip;
    var ks := Xs(Zip(xs, ys));
    forall a, b | a in ks && b in ks && a <= b ensures g(a) <= g(b) {
      var i :| 0 <= i < |xs| && xs[i] == a;
      var j :| 0 <= j < |xs| && xs[j] == b;
    }
  }

  lemma GapNonneg(data: seq<Pair>, f: real -> real, g: real -> real)
    ensures SumOf(data, Gap(f, g)) >= 0.0
  {
    forall p | p in data ensures Gap(f, g)(p) >= 0.0 {
      GapSign(f, g, p);
    }
    hide SumOf, Gap;
    SumOfMono(data, Zero(), Gap(f, g));
    SumOfConst(data, Zero(), 0.0);
  }

  lemma FitErrors(xs: seq<real>, ys: seq<real>, g: real -> real)
    requires |xs| == |ys| > 0 && NonDecreasingAt(g, xs)
    ensures SquaredError(xs, ys, Fit(Zip(xs, ys))) <= SquaredError(xs, ys, g)
    ensures SquaredError(xs, ys, Fit(Zip(xs, ys))) == SquaredError(xs, ys, g)
            ==> forall i | 0 <= i < |xs| :: g(xs[i]) == Fit(Zip(xs, ys))(xs[i])
  {
    XsOfZip(xs, ys);
    hide SumOf, Fit, SquaredError, Gap, SqErr, NonDecreasingAt, NonDecreasingOn, Xs;
    var data := Zip(xs, ys);
    NonDecreasingBridge(xs, ys, g);
    FitOptimal(data, g);
    ErrorOfZip(xs, ys, g);
    ErrorOfZip(xs, ys, Fit(data));
    GapNonneg(data, Fit(data), g);
    if SquaredError(xs, ys, Fit(data)) == SquaredError(xs, ys, g) {
      FitUnique(data, g);
    }
  }

  /**
   The calibration of two lists of one positive length is a least-squares fit
   among the functions that never fall on the given x values, and the only one.
   */
  lemma CalibrateOptimal(xs: seq<real>, ys: seq<real>, g: real -> real)
    requires |xs| == |ys| > 0 && NonDecreasingAt(g, xs)
    ensures var r := Calibrate(xs, ys);
            && r.Fitted? && |r.grid| == |r.vals| > 0
            && var f := StepFunction(r.grid, r.vals);
            && (forall a, b | a <= b :: f(a) <= f(b))
            && SquaredError(xs, ys, f) <= SquaredError(xs, ys, g)
            && (SquaredError(xs, ys, f) == SquaredError(xs, ys, g) ==> forall i | 0 <= i < |xs| :: g(xs[i]) == f(xs[i]))
  {
    FitErrors(xs, ys, g);
    FitMonotone(Zip(xs, ys));
    hide SquaredError, StepFunction, NonDecreasingAt, Zip, WellPooled, Flatten, Points;
  }

  /** Only empty lists and lists of different lengths are refused; every grid point is an x of the data. */
  lemma CalibrateExact(xs: seq<real>, ys: seq<real>)
    ensures var r := Calibrate(xs, ys);
            && (r.BadInput? <==> |xs| != |ys| || |xs| == 0)
            && (r.Fitted? ==> |r.grid| == |r.vals| > 0 && Increasing(r.grid) && Increasing(r.vals)
                              && forall b | 0 <= b < |r.grid| :: r.grid[b] in xs)
  {
    if |xs| == |ys| > 0 {
      hide SumOf, Mean, Flatten, IncreasingPoints, Segments, SortedReals, Heavy;
      var data := Zip(xs, ys);
      var segs := FitRuns(data);
      PointsIncreasing(data);
      GridIncreasing(data);
      XsOfZip(xs, ys);
      forall b | 0 <= b < |segs| ensures Grid(segs)[b] in xs {
        RunInPoints(segs, b);
        assert segs[b] in segs;
        var q := segs[b][|segs[b]| - 1];
        assert q in Points(data);
      }
    }
  }

  /** An x is predicted by the first grid point that it does not exceed, or by the last one when it exceeds them all. */
  lemma PredictExact(grid: seq<real>, vals: seq<real>, x: real, b: nat)
    requires |grid| == |vals| > b && Increasing(grid)
    ensures (b > 0 ==> grid[b - 1] < x) && x <= grid[b] ==> Predict(grid, vals, x) == vals[b]
    ensures grid[|grid| - 1] < x ==> Predict(grid, vals, x) == vals[|vals| - 1]
  {
    if (b > 0 ==> grid[b - 1] < x) && x <= grid[b] {
      BisectUnique(grid, x, b);
    }
  }

  // ------------------------------------------------------------ the program

  type Agg = map<real, (real, real)>

  ghost predicate Aggregates(agg: Agg, data: seq<Pair>) {
    && agg.Keys == Xs(data)
    && forall k | k in agg :: agg[k] == (SumOf(data, At(Y(), k)), SumOf(data, At(One(), k)))
  }

  ghost predicate AggregatesFirst(agg: Agg, data: seq<Pair>, n: nat) {
    n <= |data| && Aggregates(agg, data[..n])
  }

  lemma TotalsStep(data: seq<Pair>, n: nat, k: real)
    requires n < |data|
    ensures SumOf(data[..n + 1], At(Y(), k)) == SumOf(data[..n], At(Y(), k)) + if data[n].x == k then data[n].y else 0.0
    ensures SumOf(data[..n + 1], At(One(), k)) == SumOf(data[..n], At(One(), k)) + if data[n].x == k then 1.0 else 0.0
  {
    hide SumOf;
    SumOfPrefix(data, n, At(Y(), k));
    SumOfPrefix(data, n, At(One(), k));
  }

  lemma UnseenTotals(data: seq<Pair>, k: real)
    requires k !in Xs(data)
    ensures SumOf(data, At(Y(), k)) == SumOf(data, At(One(), k)) == 0.0
  {
    hide SumOf;
    SumOfConst(data, At(Y(), k), 0.0);
    SumOfConst(data, At(One(), k), 0.0);
  }

  lemma AggregateStep(agg: Agg, data: seq<Pair>, n: nat, s: (real, real))
    requires n < |data| && AggregatesFirst(agg, data, n)
    requires s == if data[n].x in agg then agg[data[n].x] else (0.0, 0.0)
    ensures AggregatesFirst(agg[data[n].x := (s.0 + data[n].y, s.1 + 1.0)], data, n + 1)
  {
    hide SumOf, At;
    var p := data[n];
    assert data[..n + 1] == data[..n] + [p];
    forall k
      ensures SumOf(data[..n + 1], At(Y(), k)) == SumOf(data[..n], At(Y(), k)) + if p.x == k then p.y else 0.0
      ensures SumOf(data[..n + 1], At(One(), k)) == SumOf(data[..n], At(One(), k)) + if p.x == k then 1.0 else 0.0
    {
      TotalsStep(data, n, k);
    }
    if p.x !in agg {
      UnseenTotals(data[..n], p.x);
    }
  }

  lemma NothingAggregated(data: seq<Pair>)
    ensures AggregatesFirst(map[], data, 0)
  {}

  lemma AllAggregated(agg: Agg, data: seq<Pair>)
    requires AggregatesFirst(agg, data, |data|)
    ensures Aggregates(agg, data)
  {
    assert data[..|data|] == data;
  }

  ghost predicate Represents(blocks: seq<Block>, segs: seq<Seg>) {
    && |blocks| == |segs|
    && forall b | 0 <= b < |segs| ::
         && Weighted(segs[b]) && blocks[b].count > 0.0
         && blocks[b] == Block(SumOf(segs[b], S()), SumOf(segs[b], C()), segs[b][|segs[b]| - 1].x)
  }

  lemma RepresentsMean(blocks: seq<Block>, segs: seq<Seg>, b: nat)
    requires Represents(blocks, segs) && b < |segs|
    ensures blocks[b].sum / blocks[b].count == Mean(segs[b])
  {}

  lemma RepresentsPush(blocks: seq<Block>, segs: seq<Seg>, p: Point)
    requires Represents(blocks, segs) && p.c > 0.0
    ensures Represents(blocks + [Block(p.s, p.c, p.x)], segs + [[p]])
  {
    hide SumOf;
    SumOfOne(p, S());
    SumOfOne(p, C());
  }

  lemma RepresentsMerge(blocks: seq<Block>, segs: seq<Seg>)
    requires Represents(blocks, segs) && |segs| > 1
    ensures var m := |segs| - 2;
            var top := blocks[m + 1];
            Represents(blocks[..m] + [Block(blocks[m].sum + top.sum, blocks[m].count + top.count, top.upper)],
                       segs[..m] + [segs[m] + segs[m + 1]])
  {
    var m := |segs| - 2;
    SumOfAppend(segs[m], segs[m + 1], S());
    SumOfAppend(segs[m], segs[m + 1], C());
  }

  /** The first loop: per-key totals, in a dictionary. */
  method AggregateTies(xs: seq<real>, ys: seq<real>) returns (agg: Agg)
    requires |xs| == |ys|
    ensures Aggregates(agg, Zip(xs, ys))
  {
    ghost var data := Zip(xs, ys);
    agg := map[];
    NothingAggregated(data);
    hide SumOf, At, AggregatesFirst, Zip, Xs;
    for i := 0 to |xs|
      invariant AggregatesFirst(agg, data, i)
    {
      var s := if xs[i] in agg then agg[xs[i]] else (0.0, 0.0);
      AggregateStep(agg, data, i, s);
      ZipAt(xs, ys, i);
      agg := agg[xs[i] := (s.0 + ys[i], s.1 + 1.0)];
    }
    AllAggregated(agg, data);
  }

  lemma ZipAt(xs: seq<real>, ys: seq<real>, i: nat)
    requires i < |xs| == |ys|
    ensures |Zip(xs, ys)| == |xs| && Zip(xs, ys)[i] == Pair(xs[i], ys[i])
  {}

  lemma RepresentsShape(blocks: seq<Block>, segs: seq<Seg>)
    requires Represents(blocks, segs)
    ensures |blocks| == |segs| && forall b | 0 <= b < |blocks| :: blocks[b].count > 0.0
  {}

  /** One turn of the second loop: push a block, then merge while the one below is not lower. */
  method PushBlock(before: seq<Block>, s: real, c: real, x: real, ghost segs: seq<Seg>)
    returns (blocks: seq<Block>, ghost merges: nat)
    requires Represents(before, segs) && c > 0.0
    ensures Represents(blocks, Pool(segs, [Point(x, s, c)]))
    ensures merges + |blocks| == |before| + 1
  {
    hide SumOf, Mean, Represents;
    RepresentsShape(before, segs);
    RepresentsPush(before, segs, Point(x, s, c));
    blocks, merges := before + [Block(s, c, x)], 0;
    ghost var front, top := segs, [Point(x, s, c)];
    while |blocks| > 1 && blocks[|blocks| - 2].sum / blocks[|blocks| - 2].count
                          >= blocks[|blocks| - 1].sum / blocks[|blocks| - 1].count
      invariant Represents(blocks, front + [top]) && |blocks| == |front| + 1
      invariant forall b | 0 <= b < |blocks| :: blocks[b].count > 0.0
      invariant Pool(front, top) == Pool(segs, [Point(x, s, c)])
      invariant merges + |blocks| == |before| + 1
      invariant |blocks| > 0 && blocks[|blocks| - 1].upper == x
    {
      var m := |blocks| - 2;
      RepresentsMean(blocks, front + [top], m);
      RepresentsMean(blocks, front + [top], m + 1);
      RepresentsMerge(blocks, front + [top]);
      blocks := blocks[..m] + [Block(blocks[m].sum + blocks[m + 1].sum, blocks[m].count + blocks[m + 1].count, x)];
      assert (front + [top])[..m] == front[..m];
      front, top := front[..m], front[m] + top;
      merges := merges + 1;
    }
    if |blocks| > 1 {
      RepresentsMean(blocks, front + [top], |blocks| - 2);
      RepresentsMean(blocks, front + [top], |blocks| - 1);
    }
  }

  /**
   The source's fit: aggregate ties in a dictionary, then push each key as a
   block and merge while the block below has a mean at least as large.
   */
  method PavFit(xs: seq<real>, ys: seq<real>) returns (r: FitResult, ghost merges: nat)
    ensures r == Calibrate(xs, ys)
    ensures r.BadInput? <==> |xs| != |ys| || |xs| == 0
    ensures r.Fitted? ==> merges + |r.grid| == |Xs(Zip(xs, ys))|
  {
    merges := 0;
    if |xs| != |ys| || |xs| == 0 {
      return BadInput, 0;
    }
    var agg := AggregateTies(xs, ys);
    var keys := SortedReals(agg.Keys);
    PointsOfAgg(agg, Zip(xs, ys));
    var blocks;
    blocks, merges := PoolBlocks(keys, agg, Points(Zip(xs, ys)));
    CalibrateReadout(xs, ys, blocks);
    r := Fitted(Uppers(blocks), BlockMeans(blocks));
  }

  function Uppers(blocks: seq<Block>): seq<real> {
    seq(|blocks|, b requires 0 <= b < |blocks| => blocks[b].upper)
  }

  function BlockMeans(blocks: seq<Block>): seq<real>
    requires forall b | 0 <= b < |blocks| :: blocks[b].count > 0.0
  {
    seq(|blocks|, b requires 0 <= b < |blocks| => blocks[b].sum / blocks[b].count)
  }

  lemma Readout(blocks: seq<Block>, segs: seq<Seg>)
    requires Represents(blocks, segs)
    ensures NonEmptyRuns(segs) && Uppers(blocks) == Grid(segs)
    ensures BlockMeans(blocks) == Means(segs)
  {
    forall b | 0 <= b < |segs| ensures blocks[b].sum / blocks[b].count == Mean(segs[b]) {
      RepresentsMean(blocks, segs, b);
    }
  }

  lemma CalibrateReadout(xs: seq<real>, ys: seq<real>, blocks: seq<Block>)
    requires |xs| == |ys| > 0
    requires Represents(blocks, Segments(Points(Zip(xs, ys))))
    ensures Calibrate(xs, ys) == Fitted(Uppers(blocks), BlockMeans(blocks))
  {
    Readout(blocks, FitRuns(Zip(xs, ys)));
  }

  lemma PointsOfAgg(agg: Agg, data: seq<Pair>)
    requires Aggregates(agg, data)
    ensures var keys, ps := SortedReals(agg.Keys), Points(data);
            && |ps| == |keys|
            && forall i | 0 <= i < |keys| ::
                 keys[i] in agg && ps[i] == Point(keys[i], agg[keys[i]].0, agg[keys[i]].1) && ps[i].c > 0.0
  {
    hide SumOf, SortedReals, At;
    var keys, ps := SortedReals(agg.Keys), Points(data);
    forall i | 0 <= i < |keys|
      ensures keys[i] in agg && ps[i] == Point(keys[i], agg[keys[i]].0, agg[keys[i]].1) && ps[i].c > 0.0
    {
      assert keys[i] in agg;
      CountPositive(data, keys[i]);
    }
  }

  /** The second loop, over the sorted keys. */
  method PoolBlocks(keys: seq<real>, agg: Agg, ghost ps: seq<Point>) returns (blocks: seq<Block>, ghost merges: nat)
    requires |ps| == |keys| && forall i | 0 <= i < |keys| :: keys[i] in agg
    requires forall i | 0 <= i < |keys| :: ps[i] == Point(keys[i], agg[keys[i]].0, agg[keys[i]].1) && ps[i].c > 0.0
    ensures Represents(blocks, Segments(ps))
    ensures merges + |blocks| == |keys|
  {
    hide SumOf, Mean;
    blocks, merges := [], 0;
    for i := 0 to |keys|
      invariant Represents(blocks, Segments(ps[..i]))
      invariant merges + |blocks| == i
    {
      var (s, c) := agg[keys[i]];
      assert ps[i] == Point(keys[i], s, c);
      assert ps[..i + 1][..i] == ps[..i];
      ghost var m;
      blocks, m := PushBlock(blocks, s, c, keys[i], Segments(ps[..i]));
      merges := merges + m;
    }
    assert ps[..|keys|] == ps;
  }
}
