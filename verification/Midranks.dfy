/** The tie-group loops that turn values into midranks, and what the ranks add up to. */
module Midranks {
  import opened Sums
  import opened Ranks

  // --------------------------------------------------------- stable arg-sort

  predicate Within(order: seq<nat>, n: nat) {
    forall p | 0 <= p < |order| :: order[p] < n
  }

  function Keyed(vals: seq<real>, order: seq<nat>): seq<real>
    requires Within(order, |vals|)
  {
    seq(|order|, p requires 0 <= p < |order| => vals[order[p]])
  }

  ghost predicate NonDecreasing(s: seq<real>) {
    forall p, q | 0 <= p <= q < |s| :: s[p] <= s[q]
  }

  /** Insert index i behind every index whose value is not larger. */
  function Insert(vals: seq<real>, order: seq<nat>, i: nat): (r: seq<nat>)
    requires i < |vals| && Within(order, |vals|)
    ensures |r| == |order| + 1 && Within(r, |vals|)
    ensures i in r && forall j | j in order :: j in r
  {
    var m := |order| - 1;
    if |order| == 0 then [i]
    else
      assert order == order[..m] + [order[m]];
      if vals[order[m]] <= vals[i] then order + [i]
      else Insert(vals, order[..m], i) + [order[m]]
  }

  /** Python's `sorted(range(n), key=...)`: stable, by value. */
  function SortedIndices(vals: seq<real>, n: nat): (r: seq<nat>)
    requires n <= |vals|
    ensures |r| == n && Within(r, |vals|)
    ensures forall j | 0 <= j < n :: j in r
  {
    if n == 0 then [] else Insert(vals, SortedIndices(vals, n - 1), n - 1)
  }

  lemma KeyedSnoc(vals: seq<real>, order: seq<nat>, i: nat)
    requires i < |vals| && Within(order, |vals|)
    ensures Keyed(vals, order + [i]) == Keyed(vals, order) + [vals[i]]
  {}

  lemma SortedSnoc(s: seq<real>, v: real)
    requires NonDecreasing(s) && forall u | u in s :: u <= v
    ensures NonDecreasing(s + [v])
  {
    var t := s + [v];
    forall p, q | 0 <= p <= q < |t| ensures t[p] <= t[q] {
      if q == |s| && p < |s| {
        assert s[p] in s;
      }
    }
  }

  lemma SortedInit(s: seq<real>, v: real)
    requires NonDecreasing(s + [v])
    ensures NonDecreasing(s) && forall u | u in s :: u <= v
  {
    forall p | 0 <= p < |s| ensures s[p] <= v {
      assert (s + [v])[p] <= (s + [v])[|s|];
    }
    forall p, q | 0 <= p <= q < |s| ensures s[p] <= s[q] {
      assert (s + [v])[p] <= (s + [v])[q];
    }
  }

  lemma {:induction false} InsertSorts(vals: seq<real>, order: seq<nat>, i: nat)
    requires i < |vals| && Within(order, |vals|) && NonDecreasing(Keyed(vals, order))
    ensures var r := Insert(vals, order, i);
            && NonDecreasing(Keyed(vals, r))
            && multiset(Keyed(vals, r)) == multiset(Keyed(vals, order)) + multiset{vals[i]}
  {
    var m := |order| - 1;
    if |order| == 0 {
      assert Keyed(vals, [i]) == [vals[i]];
    } else {
      var front, last := order[..m], order[m];
      assert order == front + [last];
      KeyedSnoc(vals, front, last);
      SortedInit(Keyed(vals, front), vals[last]);
      if vals[last] <= vals[i] {
        KeyedSnoc(vals, order, i);
        SortedSnoc(Keyed(vals, order), vals[i]);
      } else {
        InsertSorts(vals, front, i);
        var inner := Insert(vals, front, i);
        KeyedSnoc(vals, inner, last);
        forall u | u in Keyed(vals, inner) ensures u <= vals[last] {
          assert u in multiset(Keyed(vals, inner));
          assert u == vals[i] || u in Keyed(vals, front);
        }
        SortedSnoc(Keyed(vals, inner), vals[last]);
      }
    }
  }

  lemma {:induction false} SortedIndicesSort(vals: seq<real>, n: nat)
    requires n <= |vals|
    ensures var s := Keyed(vals, SortedIndices(vals, n));
            NonDecreasing(s) && multiset(s) == multiset(vals[..n])
  {
    hide Insert, Keyed;
    if n > 0 {
      SortedIndicesSort(vals, n - 1);
      InsertSorts(vals, SortedIndices(vals, n - 1), n - 1);
      assert vals[..n] == vals[..n - 1] + [vals[n - 1]];
    } else {
      EmptyKeyed(vals);
    }
  }

  lemma EmptyKeyed(vals: seq<real>)
    ensures Keyed(vals, []) == []
  {}

  function Order(vals: seq<real>): (r: seq<nat>)
    ensures |r| == |vals| && Within(r, |vals|)
    ensures forall j | 0 <= j < |vals| :: j in r
  {
    SortedIndices(vals, |vals|)
  }

  function SortedValues(vals: seq<real>): seq<real> { Keyed(vals, Order(vals)) }

  lemma SortedValuesOf(vals: seq<real>)
    ensures NonDecreasing(SortedValues(vals)) && multiset(SortedValues(vals)) == multiset(vals)
    ensures |SortedValues(vals)| == |vals|
    ensures forall p | 0 <= p < |vals| :: SortedValues(vals)[p] == vals[Order(vals)[p]]
  {
    SortedIndicesSort(vals, |vals|);
    assert vals[..|vals|] == vals;
  }

  // -------------------------------------------------------------- tie groups

  lemma {:induction false} CountOfAppend(a: seq<real>, b: seq<real>, p: real -> bool)
    ensures CountOf(a + b, p) == CountOf(a, p) + CountOf(b, p)
  {
    CountOfSum(a, p);
    CountOfSum(b, p);
    CountOfSum(a + b, p);
    SumOfAppend(a, b, Indicator(p));
  }

  lemma CountBlocks(lo: seq<real>, mid: seq<real>, hi: seq<real>, v: real)
    requires forall u | u in lo :: u < v
    requires forall u | u in mid :: u == v
    requires forall u | u in hi :: u > v
    ensures CountOf(lo + mid + hi, Below(v)) == |lo| && CountOf(lo + mid + hi, Same(v)) == |mid|
  {
    hide CountOf;
    CountOfAppend(lo + mid, hi, Below(v));
    CountOfAppend(lo, mid, Below(v));
    CountOfAppend(lo + mid, hi, Same(v));
    CountOfAppend(lo, mid, Same(v));
    CountOfBound(lo, Below(v)); CountOfBound(mid, Below(v)); CountOfBound(hi, Below(v));
    CountOfBound(lo, Same(v)); CountOfBound(mid, Same(v)); CountOfBound(hi, Same(v));
  }

  /** Positions i..j of the sorted values hold one value, and no other position does. */
  ghost predicate TieGroup(s: seq<real>, i: nat, j: nat) {
    && i < j <= |s|
    && (forall k | i <= k < j :: s[k] == s[i])
    && (i > 0 ==> s[i - 1] < s[i])
    && (j < |s| ==> s[i] < s[j])
  }

  lemma GroupCounts(s: seq<real>, i: nat, j: nat)
    requires NonDecreasing(s) && TieGroup(s, i, j)
    ensures CountOf(s, Below(s[i])) == i && CountOf(s, Same(s[i])) == j - i
  {
    hide CountOf;
    var v := s[i];
    forall k | 0 <= k < i ensures s[k] < v { assert s[k] <= s[i - 1]; }
    forall k | j <= k < |s| ensures s[k] > v { assert s[j] <= s[k]; }
    assert s == s[..i] + s[i..j] + s[j..];
    CountBlocks(s[..i], s[i..j], s[j..], v);
  }

  /** The mean of the positions in a tie group is the midrank of its value. */
  lemma GroupRank(vals: seq<real>, i: nat, j: nat)
    requires TieGroup(SortedValues(vals), i, j)
    ensures Midrank(vals, SortedValues(vals)[i]) == (i + j - 1) as real / 2.0 + 1.0
  {
    hide CountOf, SortedValues;
    var s := SortedValues(vals);
    SortedValuesOf(vals);
    GroupCounts(s, i, j);
    CountOfPerm(s, vals, Below(s[i]));
    CountOfPerm(s, vals, Same(s[i]));
  }

  /** The ranks, index by index. */
  function RanksOf(vals: seq<real>): seq<real> {
    seq(|vals|, i requires 0 <= i < |vals| => Midrank(vals, vals[i]))
  }

  ghost predicate RankedUpTo(vals: seq<real>, ranks: seq<real>, n: nat, base: real)
    requires |ranks| == |vals| && n <= |vals|
  {
    forall p | 0 <= p < n :: ranks[Order(vals)[p]] == Midrank(vals, SortedValues(vals)[p]) - base
  }

  lemma AllRanked(vals: seq<real>, ranks: seq<real>, base: real)
    requires |ranks| == |vals| && RankedUpTo(vals, ranks, |vals|, base)
    ensures forall i | 0 <= i < |vals| :: ranks[i] == RanksOf(vals)[i] - base
  {
    forall i | 0 <= i < |vals| ensures ranks[i] == RanksOf(vals)[i] - base {
      assert i in Order(vals);
      var p :| 0 <= p < |vals| && Order(vals)[p] == i;
      assert SortedValues(vals)[p] == vals[i];
    }
  }

  ghost predicate GroupStart(s: seq<real>, i: nat) {
    i <= |s| && (0 < i < |s| ==> s[i - 1] < s[i])
  }

  lemma GroupEnds(s: seq<real>, i: nat, j: nat)
    requires NonDecreasing(s) && GroupStart(s, i) && i < j <= |s|
    requires forall k | i <= k < j :: s[k] == s[i]
    requires j < |s| ==> s[j] != s[i]
    ensures TieGroup(s, i, j) && GroupStart(s, j)
  {
    assert j < |s| ==> s[i] <= s[j];
  }

  lemma RankedStep(vals: seq<real>, ranks: seq<real>, k: nat, base: real, rank: real)
    requires |ranks| == |vals| && k < |vals| && RankedUpTo(vals, ranks, k, base)
    requires rank == Midrank(vals, vals[Order(vals)[k]]) - base
    ensures RankedUpTo(vals, ranks[Order(vals)[k] := rank], k + 1, base)
  {
    hide Midrank, Order;
    SortedValuesOf(vals);
  }

  lemma RankedNone(vals: seq<real>, ranks: seq<real>, base: real)
    requires |ranks| == |vals|
    ensures RankedUpTo(vals, ranks, 0, base)
  {}

  /** Write one value to the indices at sorted positions i..j. */
  method FillGroup(ranks: array<real>, order: seq<nat>, i: nat, j: nat, rank: real,
                   ghost vals: seq<real>, ghost base: real)
    requires ranks.Length == |vals| && order == Order(vals) && i <= j <= |vals|
    requires RankedUpTo(vals, ranks[..], i, base)
    requires forall k | i <= k < j :: rank == Midrank(vals, vals[order[k]]) - base
    modifies ranks
    ensures RankedUpTo(vals, ranks[..], j, base)
  {
    hide Order, Midrank, RankedUpTo;
    for k := i to j
      invariant RankedUpTo(vals, ranks[..], k, base)
    {
      RankedStep(vals, ranks[..], k, base, rank);
      ranks[order[k]] := rank;
    }
  }

  /** One-based ranks: the loop extends j while the next value is equal. */
  method RankLoop(vals: seq<real>) returns (r: seq<real>)
    ensures r == RanksOf(vals)
  {
    hide Order, SortedValues, Midrank, RankedUpTo, NonDecreasing, TieGroup;
    var n := |vals|;
    var order := Order(vals);
    ghost var s := SortedValues(vals);
    SortedValuesOf(vals);
    var ranks := new real[n](_ => 0.0);
    RankedNone(vals, ranks[..], 0.0);
    var i := 0;
    while i < n
      invariant GroupStart(s, i)
      invariant RankedUpTo(vals, ranks[..], i, 0.0)
    {
      var j := i;
      while j + 1 < n && vals[order[j + 1]] == vals[order[i]]
        invariant i <= j < n
        invariant forall k | i <= k < j + 1 :: s[k] == s[i]
      {
        j := j + 1;
      }
      GroupEnds(s, i, j + 1);
      GroupRank(vals, i, j + 1);
      var avg := (i + j) as real / 2.0 + 1.0;
      FillGroup(ranks, order, i, j + 1, avg, vals, 0.0);
      i := j + 1;
    }
    AllRanked(vals, ranks[..], 0.0);
    r := ranks[..];
  }

  /** Zero-based ranks: the loop stops j at the first different value. */
  method ZeroRankLoop(vals: seq<real>) returns (r: seq<real>)
    ensures |r| == |vals| && forall i | 0 <= i < |vals| :: r[i] == ZeroRank(vals)(vals[i])
  {
    hide Order, SortedValues, Midrank, RankedUpTo, NonDecreasing, TieGroup;
    var n := |vals|;
    var order := Order(vals);
    ghost var s := SortedValues(vals);
    SortedValuesOf(vals);
    var ranks := new real[n](_ => 0.0);
    RankedNone(vals, ranks[..], 1.0);
    var i := 0;
    while i < n
      invariant GroupStart(s, i)
      invariant RankedUpTo(vals, ranks[..], i, 1.0)
    {
      var j := i;
      while j < n && vals[order[j]] == vals[order[i]]
        invariant i <= j <= n
        invariant forall k | i <= k < j :: s[k] == s[i]
        decreases n - j
      {
        j := j + 1;
      }
      GroupEnds(s, i, j);
      GroupRank(vals, i, j);
      var mean := (i + j - 1) as real / 2.0;
      FillGroup(ranks, order, i, j, mean, vals, 1.0);
      i := j;
    }
    AllRanked(vals, ranks[..], 1.0);
    r := ranks[..];
  }

  // ------------------------------------------------------------------ totals

  function MidrankIn(vals: seq<real>): real -> real { (v: real) => Midrank(vals, v) }

  /** Midranks always add up to n(n+1)/2, whatever the ties. */
  lemma RankTotal(vals: seq<real>)
    ensures SumOf(RanksOf(vals), Identity()) == |vals| as real * (|vals| as real + 1.0) / 2.0
  {
    hide SumOf, Midrank;
    forall v | v in vals ensures MidrankIn(vals)(v) == Wins(vals)(v) + 0.5 * One()(v) {
      MidrankWins(vals, v);
    }
    SumOfImage(RanksOf(vals), vals, Identity(), MidrankIn(vals));
    SumOfLinear(vals, MidrankIn(vals), Wins(vals), 0.5, One());
    SumOfConst(vals, One(), 1.0);
    PairPoints(vals, vals);
  }

  function Identity(): real -> real { (r: real) => r }

  /** Ranks order the values: a smaller value has a strictly smaller rank. */
  lemma RankMonotone(vals: seq<real>, v: real, w: real)
    requires v in vals && w in vals && v < w
    ensures Midrank(vals, v) < Midrank(vals, w)
  {
    CountOfMono(vals, AtMost(v), Below(w));
    CountsAtMost(vals, v);
    CountOfBound(vals, Same(w));
    CountOfBound(vals, Same(v));
  }

  function AtMost(v: real): real -> bool { (u: real) => u <= v }

  lemma {:induction false} CountsAtMost(s: seq<real>, v: real)
    ensures CountOf(s, AtMost(v)) == CountOf(s, Below(v)) + CountOf(s, Same(v))
  {
    if |s| > 0 {
      CountsAtMost(s[..|s| - 1], v);
    }
  }
}
