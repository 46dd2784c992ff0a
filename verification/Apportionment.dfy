/**
 Sharing out synthetic items over domains: round each domain's share to the
 nearest integer (ties to even), then correct the total one domain at a time.
 The random fields of the items are not modelled, only how many there are.
 */
module Apportionment {
  import opened Sums

  function Total(s: seq<int>): int { if |s| == 0 then 0 else Total(s[..|s| - 1]) + s[|s| - 1] }

  lemma {:induction false} TotalPrefix(s: seq<int>, n: nat)
    requires n < |s|
    ensures Total(s[..n + 1]) == Total(s[..n]) + s[n]
  {
    assert s[..n + 1][..n] == s[..n];
  }

  // ----------------------------------------------------------------- domains

  function IsDomain(d: string): string -> bool { (e: string) => e == d }

  /** The keys of the statistics dictionary: domains in order of first appearance. */
  function Domains(existing: seq<string>): (ds: seq<string>)
    ensures forall d :: d in ds <==> d in existing
    ensures Distinct(ds)
  {
    if |existing| == 0 then []
    else
      var front, d := existing[..|existing| - 1], existing[|existing| - 1];
      assert existing == front + [d];
      if d in front then Domains(front) else Domains(front) + [d]
  }

  /** Of two domains the one listed first is also the one that appears first. */
  lemma {:induction false} DomainsInOrder(existing: seq<string>, i: nat, j: nat) returns (p: nat)
    requires i < j < |Domains(existing)|
    ensures p < |existing| && existing[p] == Domains(existing)[i] && Domains(existing)[j] !in existing[..p + 1]
  {
    var m := |existing| - 1;
    var front, ds := existing[..m], Domains(existing);
    assert existing == front + [existing[m]];
    if j < |Domains(front)| {
      p := DomainsInOrder(front, i, j);
      assert existing[..p + 1] == front[..p + 1];
    } else {
      assert ds[i] == Domains(front)[i] && ds[i] in front && ds[j] !in front;
      p :| 0 <= p < m && front[p] == ds[i];
      assert existing[..p + 1] == front[..p + 1];
    }
  }

  function Sizes(ds: seq<string>, existing: seq<string>): seq<int> {
    seq(|ds|, j requires 0 <= j < |ds| => CountOf(existing, IsDomain(ds[j])))
  }

  lemma SizesSnoc(ds: seq<string>, front: seq<string>, d: string)
    requires Distinct(ds)
    ensures Total(Sizes(ds, front + [d])) == Total(Sizes(ds, front)) + if d in ds then 1 else 0
  {
    SizesSnocUpTo(ds, front, d, |ds|);
    assert ds[..|ds|] == ds;
  }

  lemma {:induction false} SizesSnocUpTo(ds: seq<string>, front: seq<string>, d: string, n: nat)
    requires Distinct(ds) && n <= |ds|
    ensures Total(Sizes(ds[..n], front + [d])) == Total(Sizes(ds[..n], front)) + if d in ds[..n] then 1 else 0
  {
    if n > 0 {
      SizesSnocUpTo(ds, front, d, n - 1);
      var a, b := Sizes(ds[..n], front + [d]), Sizes(ds[..n], front);
      assert a[..n - 1] == Sizes(ds[..n - 1], front + [d]) && b[..n - 1] == Sizes(ds[..n - 1], front);
      assert (front + [d])[..|front|] == front;
      assert ds[..n] == ds[..n - 1] + [ds[n - 1]];
    }
  }

  /** The domain sizes add up to the number of existing items. */
  lemma {:induction false} SizesTotal(ds: seq<string>, existing: seq<string>)
    requires Distinct(ds) && forall e | e in existing :: e in ds
    ensures Total(Sizes(ds, existing)) == |existing|
  {
    if |existing| == 0 {
      ZeroTotal(Sizes(ds, existing));
    } else {
      var front, d := existing[..|existing| - 1], existing[|existing| - 1];
      assert existing == front + [d];
      SizesTotal(ds, front);
      SizesSnoc(ds, front, d);
    }
  }

  lemma {:induction false} ZeroTotal(s: seq<int>)
    requires forall j | 0 <= j < |s| :: s[j] == 0
    ensures Total(s) == 0
  {
    if |s| > 0 {
      ZeroTotal(s[..|s| - 1]);
    }
  }

  // ---------------------------------------------------------------- rounding

  /** Python's `round` of a/b: nearest, ties to even. */
  function Round(a: int, b: int): (q: int)
    requires b > 0
    ensures -b <= 2 * (q * b - a) <= b
    ensures 2 * (q * b - a) == b || 2 * (q * b - a) == -b ==> q % 2 == 0
  {
    var q, r := a / b, a % b;
    assert a == q * b + r;
    if 2 * r < b then q
    else if 2 * r > b then q + 1
    else if q % 2 == 0 then q
    else q + 1
  }

  function Rounded(target: int, sizes: seq<int>, all: nat): seq<int>
    requires all > 0
  {
    seq(|sizes|, j requires 0 <= j < |sizes| => Round(target * sizes[j], all))
  }

  lemma ErrorStep(r: int, s: int, q: int, z: int, target: int, m: int, all: int)
    requires -(m * all) <= 2 * (r * all - target * s) <= m * all
    requires -all <= 2 * (q * all - target * z) <= all
    ensures -((m + 1) * all) <= 2 * ((r + q) * all - target * (s + z)) <= (m + 1) * all
  {
    assert (r + q) * all - target * (s + z) == (r * all - target * s) + (q * all - target * z);
    assert (m + 1) * all == m * all + all;
  }

  /** The rounding errors add up to at most half a unit for each domain. */
  lemma {:induction false} RoundedTotal(target: int, sizes: seq<int>, all: nat, n: nat)
    requires all > 0 && n <= |sizes|
    ensures -(n * all) <= 2 * (Total(Rounded(target, sizes, all)[..n]) * all - target * Total(sizes[..n])) <= n * all
  {
    hide Round;
    if n > 0 {
      var m, rounded := n - 1, Rounded(target, sizes, all);
      RoundedTotal(target, sizes, all, m);
      TotalPrefix(sizes, m);
      TotalPrefix(rounded, m);
      hide Rounded, Total;
      ErrorStep(Total(rounded[..m]), Total(sizes[..m]), rounded[m], sizes[m], target, m, all);
    }
  }

  lemma Scale(x: int, m: int, b: int)
    requires b > 0 && -(m * b) <= x * b <= m * b
    ensures -m <= x <= m
  {
    assert x > m ==> (x - m) * b >= b;
    assert x < -m ==> (-m - x) * b >= b;
  }

  lemma ScaledDifference(total: int, target: int, m: int, all: int)
    requires all > 0 && -(m * all) <= 2 * (total * all - target * all) <= m * all
    ensures -m <= 2 * (target - total) <= m
  {
    assert 2 * (total * all - target * all) == 2 * (total - target) * all;
    Scale(2 * (total - target), m, all);
  }

  /** Hence the total is off by at most half the number of domains. */
  lemma SmallDifference(target: int, sizes: seq<int>, all: nat)
    requires all > 0 && Total(sizes) == all
    ensures -|sizes| <= 2 * (target - Total(Rounded(target, sizes, all))) <= |sizes|
  {
    hide Total, Round;
    var rounded := Rounded(target, sizes, all);
    RoundedTotal(target, sizes, all, |sizes|);
    assert rounded[..|sizes|] == rounded && sizes[..|sizes|] == sizes;
    ScaledDifference(Total(rounded), target, |sizes|, all);
  }

  // -------------------------------------------------------------- correction

  function Magnitude(d: int): nat { if d < 0 then -d else d }
  function Sign(d: int): int { if d > 0 then 1 else -1 }

  /** The counts after the first k rounds of the correction loop, for k up to the number of domains. */
  function CorrectedBy(counts: seq<int>, diff: int, k: nat): seq<int> {
    seq(|counts|, j requires 0 <= j < |counts| => counts[j] + if j < k then Sign(diff) else 0)
  }

  lemma {:induction false} CorrectedTotal(counts: seq<int>, diff: int, k: nat, n: nat)
    requires k <= |counts| && n <= |counts|
    ensures Total(CorrectedBy(counts, diff, k)[..n]) == Total(counts[..n]) + Sign(diff) * (if n < k then n else k)
  {
    if n > 0 {
      CorrectedTotal(counts, diff, k, n - 1);
      TotalPrefix(counts, n - 1);
      TotalPrefix(CorrectedBy(counts, diff, k), n - 1);
    }
  }

  /** The rounded share of each domain and how far their total is from the target. */
  function RoundedShares(target: int, existing: seq<string>): seq<int>
    requires |existing| > 0
  {
    Rounded(target, Sizes(Domains(existing), existing), |existing|)
  }

  function Gap(target: int, existing: seq<string>): int
    requires |existing| > 0
  {
    target - Total(RoundedShares(target, existing))
  }

  /** The final number of items for each domain. */
  function Shares(target: int, existing: seq<string>): (r: seq<int>)
    requires |existing| > 0
  {
    var diff := Gap(target, existing);
    CorrectedBy(RoundedShares(target, existing), diff, Magnitude(diff))
  }

  /** The correction loop never comes back to a domain it has already corrected. */
  lemma FewCorrections(target: int, existing: seq<string>)
    requires |existing| > 0
    ensures 2 * Magnitude(Gap(target, existing)) <= |Domains(existing)| == |RoundedShares(target, existing)|
  {
    hide Total, CountOf, Domains;
    var sizes := Sizes(Domains(existing), existing);
    SizesTotal(Domains(existing), existing);
    SmallDifference(target, sizes, |existing|);
  }

  // ------------------------------------------------------- the loops themselves

  /** The rounding loop. */
  method RoundShares(target: int, existing: seq<string>, ds: seq<string>) returns (counts: array<int>)
    requires |existing| > 0 && ds == Domains(existing)
    ensures fresh(counts) && counts[..] == RoundedShares(target, existing)
  {
    hide CountOf, Domains, Round;
    counts := new int[|ds|];
    for j := 0 to |ds|
      invariant forall k | 0 <= k < j :: counts[k] == Round(target * CountOf(existing, IsDomain(ds[k])), |existing|)
    {
      counts[j] := Round(target * CountOf(existing, IsDomain(ds[j])), |existing|);
    }
    assert counts[..] == RoundedShares(target, existing);
  }

  lemma SmallModulus(i: nat, m: nat)
    requires i < m
    ensures i % m == i
  {}

  /** The correction loop: one unit for each domain in turn, wrapping round if it ever had to. */
  method Correct(counts: array<int>, diff: int)
    requires Magnitude(diff) <= counts.Length
    modifies counts
    ensures counts[..] == CorrectedBy(old(counts[..]), diff, Magnitude(diff))
  {
    ghost var was := counts[..];
    for i := 0 to Magnitude(diff)
      invariant forall k | 0 <= k < counts.Length :: counts[k] == was[k] + if k < i then Sign(diff) else 0
    {
      SmallModulus(i, counts.Length);
      var d := i % counts.Length;
      assert d == i;
      counts[d] := counts[d] + if diff > 0 then 1 else -1;
    }
    assert counts[..] == CorrectedBy(was, diff, Magnitude(diff));
  }

  function AtLeastZero(c: int): nat { if c < 0 then 0 else c }

  /** How many items the generation loop makes of these counts: a negative count makes none. */
  function Generated(counts: seq<int>): nat {
    if |counts| == 0 then 0 else Generated(counts[..|counts| - 1]) + AtLeastZero(counts[|counts| - 1])
  }

  /** Items stand by the order of their domains and, within one, by number. */
  ghost predicate InOrder(ds: seq<string>, items: seq<(string, int)>) {
    forall a, b, j, k | 0 <= a < b < |items| && 0 <= j < |ds| && 0 <= k < |ds|
                        && ds[j] == items[a].0 && ds[k] == items[b].0 ::
      j < k || (j == k && items[a].1 < items[b].1)
  }

  lemma AppendInOrder(ds: seq<string>, items: seq<(string, int)>, j: nat, i: int)
    requires j < |ds| && Distinct(ds) && InOrder(ds, items)
    requires forall x | x in items :: x.0 in ds[..j + 1] && (x.0 == ds[j] ==> x.1 < i)
    ensures InOrder(ds, items + [(ds[j], i)])
  {
    var longer := items + [(ds[j], i)];
    forall a, b, l, k | 0 <= a < b < |longer| && 0 <= l < |ds| && 0 <= k < |ds|
                        && ds[l] == longer[a].0 && ds[k] == longer[b].0
      ensures l < k || (l == k && longer[a].1 < longer[b].1)
    {
      assert longer[a] == items[a] && items[a] in items;
      if b < |items| {
        assert longer[b] == items[b];
      } else {
        assert k == j;
        var l' :| 0 <= l' <= j && ds[l'] == ds[l];
      }
    }
  }

  lemma NothingOutOfOrder(ds: seq<string>)
    ensures InOrder(ds, [])
  {}

  /** The generation loop; an item is known by its domain and its number within it. */
  method MakeItems(ds: seq<string>, counts: seq<int>) returns (items: seq<(string, int)>)
    requires |ds| == |counts| && Distinct(ds)
    ensures |items| == Generated(counts)
    ensures forall j, i | 0 <= j < |ds| :: (ds[j], i) in items <==> 0 <= i < counts[j]
    ensures InOrder(ds, items)
  {
    hide InOrder;
    items := [];
    NothingOutOfOrder(ds);
    for j := 0 to |ds|
      invariant |items| == Generated(counts[..j])
      invariant forall x | x in items :: x.0 in ds[..j]
      invariant forall k, i | 0 <= k < j :: (ds[k], i) in items <==> 0 <= i < counts[k]
      invariant InOrder(ds, items)
    {
      var i := 0;
      assert ds[j] !in ds[..j];
      assert counts[..j + 1][..j] == counts[..j];
      while i < counts[j]
        invariant 0 <= i && (i <= counts[j] || i == 0)
        invariant |items| == Generated(counts[..j]) + i
        invariant forall x | x in items :: x.0 in ds[..j + 1]
        invariant forall k, i' | 0 <= k < j :: (ds[k], i') in items <==> 0 <= i' < counts[k]
        invariant forall i' :: (ds[j], i') in items <==> 0 <= i' < i
        invariant InOrder(ds, items)
      {
        AppendInOrder(ds, items, j, i);
        items := items + [(ds[j], i)];
        i := i + 1;
      }
    }
    assert counts[..|ds|] == counts;
  }

  /** The whole generator: an empty base divides by zero unless nothing is asked for. */
  method GenerateItems(target: int, existing: seq<string>) returns (ok: bool, items: seq<(string, int)>)
    ensures ok <==> |existing| > 0 || target == 0
    ensures ok && |existing| == 0 ==> items == []
    ensures ok && |existing| > 0 ==>
              var ds, shares := Domains(existing), Shares(target, existing);
              && |items| == Generated(shares)
              && (forall j, i | 0 <= j < |ds| :: (ds[j], i) in items <==> 0 <= i < shares[j])
              && InOrder(ds, items)
  {
    hide CountOf, Domains, Round, Total, Generated, InOrder;
    if |existing| == 0 {
      return target == 0, [];
    }
    var ds := Domains(existing);
    FewCorrections(target, existing);
    var counts := RoundShares(target, existing, ds);
    Correct(counts, target - Total(counts[..]));
    items := MakeItems(ds, counts[..]);
    return true, items;
  }

  // ------------------------------------------------------------ main results

  /** What the final number of a domain adds to its rounded share. */
  ghost function Correction(target: int, existing: seq<string>, j: nat): int
    requires |existing| > 0 && j < |Shares(target, existing)| && |Shares(target, existing)| == |Domains(existing)|
  {
    Shares(target, existing)[j] - Round(target * CountOf(existing, IsDomain(Domains(existing)[j])), |existing|)
  }

  /**
   The shares add up to the target; each is the rounded share corrected by at
   most one, so it is within 3/2 of the exact share. The domains corrected come
   first, and all are corrected the same way.
   */
  lemma SharesExact(target: int, existing: seq<string>)
    requires |existing| > 0
    ensures Total(Shares(target, existing)) == target
    ensures |Shares(target, existing)| == |Domains(existing)|
    ensures var r, n := Shares(target, existing), |existing|;
            forall j | 0 <= j < |r| ::
              var exact := target * CountOf(existing, IsDomain(Domains(existing)[j]));
              -1 <= r[j] - Round(exact, n) <= 1 && -3 * n <= 2 * (r[j] * n - exact) <= 3 * n
    ensures forall i, j | 0 <= i < j < |Shares(target, existing)| ::
              Correction(target, existing, j) in {0, Correction(target, existing, i)}
  {
    hide CountOf, Domains, Total, Round;
    var ds, n := Domains(existing), |existing|;
    var rounded, diff := RoundedShares(target, existing), Gap(target, existing);
    FewCorrections(target, existing);
    CorrectedTotal(rounded, diff, Magnitude(diff), |rounded|);
    var r := Shares(target, existing);
    assert r[..|rounded|] == r && rounded[..|rounded|] == rounded;
    forall j | 0 <= j < |r|
      ensures var exact := target * CountOf(existing, IsDomain(ds[j]));
              -1 <= r[j] - Round(exact, n) <= 1 && -3 * n <= 2 * (r[j] * n - exact) <= 3 * n
    {
      StepError(r[j], rounded[j], n, target * CountOf(existing, IsDomain(ds[j])));
    }
  }

  lemma StepError(c: int, q: int, n: int, a: int)
    requires -1 <= c - q <= 1 && -n <= 2 * (q * n - a) <= n
    ensures -3 * n <= 2 * (c * n - a) <= 3 * n
  {
    if c == q + 1 {
      assert c * n == q * n + n;
    } else if c == q - 1 {
      assert c * n == q * n - n;
    }
  }

  /** Counts make as many items as they add up to exactly when none is negative. */
  lemma {:induction false} GeneratedTotal(counts: seq<int>)
    ensures Generated(counts) >= Total(counts)
    ensures Generated(counts) == Total(counts) <==> forall j | 0 <= j < |counts| :: counts[j] >= 0
  {
    if |counts| > 0 {
      var last := |counts| - 1;
      GeneratedTotal(counts[..last]);
      assert forall j | 0 <= j < last :: counts[..last][j] == counts[j];
    }
  }

  /**
   Exactly the target number of items is generated if and only if the target is
   not negative and no domain that loses an item to the correction has rounded to nothing.
   */
  lemma ExactlyTarget(target: int, existing: seq<string>)
    requires |existing| > 0
    ensures Generated(Shares(target, existing)) == target <==>
            && target >= 0
            && forall j | 0 <= j < |Domains(existing)| && j < -Gap(target, existing) ::
                 RoundedShares(target, existing)[j] >= 1
  {
    hide CountOf, Domains, Total, Round, Generated;
    var ds, rounded := Domains(existing), RoundedShares(target, existing);
    var diff, r := Gap(target, existing), Shares(target, existing);
    SharesExact(target, existing);
    GeneratedTotal(r);
    FewCorrections(target, existing);
    if target >= 0 {
      forall j | 0 <= j < |ds| ensures rounded[j] >= 0 && (r[j] >= 0 <==> (j < -diff ==> rounded[j] >= 1)) {
        NotNegative(target, CountOf(existing, IsDomain(ds[j])), |existing|);
        assert rounded[j] == Round(target * CountOf(existing, IsDomain(ds[j])), |existing|);
        assert r[j] == rounded[j] + if j < Magnitude(diff) then Sign(diff) else 0;
      }
    }
  }

  lemma NotNegative(target: int, size: nat, n: nat)
    requires target >= 0 && n > 0
    ensures Round(target * size, n) >= 0
  {
    ProductNonneg(target, size);
    RoundNonneg(target * size, n);
  }

  lemma ProductNonneg(target: int, size: int)
    requires target >= 0 && size >= 0
    ensures target * size >= 0
  {}

  lemma RoundNonneg(a: int, n: nat)
    requires a >= 0 && n > 0
    ensures Round(a, n) >= 0
  {
    var q := Round(a, n);
    hide Round;
    assert q < 0 ==> (q + 1) * n <= 0;
  }

  /** A base smaller than twice the target leaves no domain empty, as the size assertion needs. */
  lemma EnoughAsked(target: int, existing: seq<string>)
    requires |existing| > 0 && 2 * target > |existing|
    ensures forall j | 0 <= j < |RoundedShares(target, existing)| :: RoundedShares(target, existing)[j] >= 1
    ensures forall j | 0 <= j < |Shares(target, existing)| :: Shares(target, existing)[j] >= 0
    ensures Generated(Shares(target, existing)) == target
  {
    hide CountOf, Domains, Total, Round, Generated;
    var ds, rounded := Domains(existing), RoundedShares(target, existing);
    forall j | 0 <= j < |ds| ensures rounded[j] >= 1 {
      Present(existing, ds[j]);
      AtLeastOne(target, CountOf(existing, IsDomain(ds[j])), |existing|);
    }
    ExactlyTarget(target, existing);
    SharesExact(target, existing);
    GeneratedTotal(Shares(target, existing));
  }

  lemma {:induction false} Present(existing: seq<string>, d: string)
    requires d in existing
    ensures CountOf(existing, IsDomain(d)) >= 1
  {
    var front, last := existing[..|existing| - 1], existing[|existing| - 1];
    assert existing == front + [last];
    if last != d {
      Present(front, d);
    }
  }

  lemma AtLeastOne(target: int, size: int, n: nat)
    requires n > 0 && 2 * target > n && size >= 1
    ensures Round(target * size, n) >= 1
  {
    ProductAtLeast(target, size);
    RoundAtLeastOne(target * size, n);
  }

  lemma ProductAtLeast(target: int, size: int)
    requires target >= 0 && size >= 1
    ensures target * size >= target
  {}

  lemma RoundAtLeastOne(a: int, n: nat)
    requires n > 0 && 2 * a > n
    ensures Round(a, n) >= 1
  {
    var q := Round(a, n);
    hide Round;
    assert q <= 0 ==> q * n <= 0;
  }

  /** Seven items: one of the first domain, two of each of the others. */
  function SmallBase(a: string, b: string, c: string, d: string): seq<string> {
    [] + [a] + [b, b] + [c, c] + [d, d]
  }

  /** Asked for two items from such a base, the loops make three: the first domain's count becomes -1. */
  lemma TooManyItems(a: string, b: string, c: string, d: string)
    requires Distinct([a, b, c, d])
    ensures Shares(2, SmallBase(a, b, c, d)) == [-1, 1, 1, 1]
    ensures Generated(Shares(2, SmallBase(a, b, c, d))) == 3
  {
    var existing := SmallBase(a, b, c, d);
    SmallTally(a, b, c, d);
    hide Domains, CountOf, Sizes;
    assert RoundedShares(2, existing) == [0, 1, 1, 1];
    TotalOfFour(0, 1, 1, 1);
    TotalOfFour(-1, 1, 1, 1);
    FirstLosesOne([0, 1, 1, 1], Gap(2, existing));
  }

  lemma SmallTally(a: string, b: string, c: string, d: string)
    requires Distinct([a, b, c, d])
    ensures Tally(SmallBase(a, b, c, d), [a, b, c, d], [1, 2, 2, 2])
  {
    var ds := [a, b, c, d];
    assert ds[0] != ds[1] && ds[0] != ds[2] && ds[0] != ds[3] && ds[1] != ds[2] && ds[1] != ds[3] && ds[2] != ds[3];
    FreshItem([], [], [], a);
    hide Tally, Distinct;
    FreshPair([] + [a], [] + [a], [] + [1], b);
    FreshPair([] + [a] + [b, b], [] + [a] + [b], [] + [1] + [2], c);
    FreshPair([] + [a] + [b, b] + [c, c], [] + [a] + [b] + [c], [] + [1] + [2] + [2], d);
    assert [] + [a] + [b] + [c] + [d] == ds;
    assert [] + [1] + [2] + [2] + [2] == [1, 2, 2, 2];
  }

  predicate Tally(front: seq<string>, ds: seq<string>, sizes: seq<int>) {
    Domains(front) == ds && Sizes(ds, front) == sizes && |sizes| == |ds|
  }

  lemma FreshItem(front: seq<string>, ds: seq<string>, sizes: seq<int>, d: string)
    requires Tally(front, ds, sizes) && d !in ds
    ensures Tally(front + [d], ds + [d], sizes + [1])
  {
    assert (front + [d])[..|front|] == front;
    CountAbsent(front, d);
    assert forall e :: CountOf(front + [d], IsDomain(e)) == CountOf(front, IsDomain(e)) + if d == e then 1 else 0;
  }

  lemma {:induction false} CountAbsent(front: seq<string>, d: string)
    requires d !in front
    ensures CountOf(front, IsDomain(d)) == 0
  {
    if |front| > 0 {
      CountAbsent(front[..|front| - 1], d);
    }
  }

  lemma FreshPair(front: seq<string>, ds: seq<string>, sizes: seq<int>, d: string)
    requires Tally(front, ds, sizes) && d !in ds
    ensures Tally(front + [d, d], ds + [d], sizes + [2])
  {
    FreshItem(front, ds, sizes, d);
    PairUp(front, ds, sizes, d);
    hide Tally;
    KnownItem(front + [d], ds + [d], sizes + [1], |ds|);
  }

  lemma PairUp(front: seq<string>, ds: seq<string>, sizes: seq<int>, d: string)
    requires Tally(front + [d], ds + [d], sizes + [1]) && |sizes| == |ds|
    ensures |ds + [d]| == |sizes + [1]| == |ds| + 1
    ensures front + [d] + [(ds + [d])[|ds|]] == front + [d, d]
    ensures (sizes + [1])[|ds| := 2] == sizes + [2]
  {
    hide Tally;
  }

  lemma KnownItem(front: seq<string>, ds: seq<string>, sizes: seq<int>, j: nat)
    requires Tally(front, ds, sizes) && j < |ds|
    ensures Tally(front + [ds[j]], ds, sizes[j := sizes[j] + 1])
  {
    assert (front + [ds[j]])[..|front|] == front;
    assert forall e ::
        CountOf(front + [ds[j]], IsDomain(e)) == CountOf(front, IsDomain(e)) + if ds[j] == e then 1 else 0;
  }

  lemma FirstLosesOne(counts: seq<int>, diff: int)
    requires |counts| == 4 && diff == -1
    ensures CorrectedBy(counts, diff, Magnitude(diff)) == [counts[0] - 1, counts[1], counts[2], counts[3]]
  {
    var r := CorrectedBy(counts, diff, Magnitude(diff));
    assert Magnitude(diff) == 1 && Sign(diff) == -1;
    assert forall j | 0 <= j < 4 :: r[j] == counts[j] + if j < 1 then -1 else 0;
    assert |r| == 4 && r[0] == counts[0] - 1 && r[1] == counts[1] && r[2] == counts[2] && r[3] == counts[3];
  }

  lemma TotalOfFour(a: int, b: int, c: int, d: int)
    ensures Total([a, b, c, d]) == a + b + c + d
    ensures Generated([a, b, c, d]) == AtLeastZero(a) + AtLeastZero(b) + AtLeastZero(c) + AtLeastZero(d)
  {
    assert [a, b, c, d][..3] == [a, b, c] && [a, b, c][..2] == [a, b] && [a, b][..1] == [a];
    assert Total([a]) == a && Generated([a]) == AtLeastZero(a);
    assert Total([a, b]) == a + b && Generated([a, b]) == AtLeastZero(a) + AtLeastZero(b);
    assert Total([a, b, c]) == a + b + c && Generated([a, b, c]) == AtLeastZero(a) + AtLeastZero(b) + AtLeastZero(c);
  }
}
