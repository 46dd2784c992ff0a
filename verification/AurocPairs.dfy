/** AUROC on the labelled scores themselves, index by index. */
module AurocPairs {
  import opened RealFacts
  import opened Ranks
  import opened Sums

  /** How many of the first n labels are of this kind. */
  function Labelled(labels: seq<int>, kind: int, n: nat): (c: nat)
    requires n <= |labels|
    ensures c > 0 <==> exists i :: 0 <= i < n && labels[i] == kind
  {
    if n == 0 then 0 else Labelled(labels, kind, n - 1) + if labels[n - 1] == kind then 1 else 0
  }

  /** One for a higher score, one half for an equal one. */
  function Point(x: real, y: real): real { if x > y then 1.0 else if x == y then 0.5 else 0.0 }

  /** What the score x earns against every score labelled 0 among the first n. */
  function Row(scores: seq<real>, labels: seq<int>, x: real, n: nat): real
    requires n <= |scores| && n <= |labels|
  {
    if n == 0 then 0.0
    else Row(scores, labels, x, n - 1) + if labels[n - 1] == 0 then Point(x, scores[n - 1]) else 0.0
  }

  /** What the scores labelled 1 among the first m earn against those labelled 0 among the first n. */
  function Points(scores: seq<real>, labels: seq<int>, m: nat, n: nat): real
    requires m <= |scores| && m <= |labels| && n <= |scores| && n <= |labels|
  {
    if m == 0 then 0.0
    else
      Points(scores, labels, m - 1, n) + if labels[m - 1] == 1 then Row(scores, labels, scores[m - 1], n) else 0.0
  }

  lemma SumSnoc(s: seq<real>, v: real, f: real -> real)
    ensures SumOf(s + [v], f) == SumOf(s, f) + f(v)
  {
    assert (s + [v])[..|s|] == s;
  }

  lemma {:induction false} SelectCount(scores: seq<real>, labels: seq<int>, kind: int, n: nat)
    requires n <= |scores| && n <= |labels|
    ensures |Select(scores, labels, kind, n)| == Labelled(labels, kind, n)
  {
    if n > 0 {
      SelectCount(scores, labels, kind, n - 1);
    }
  }

  lemma {:induction false} RowIsWins(scores: seq<real>, labels: seq<int>, x: real, n: nat)
    requires n <= |scores| && n <= |labels|
    ensures Row(scores, labels, x, n) == SumOf(Select(scores, labels, 0, n), Win(x))
  {
    if n > 0 {
      RowIsWins(scores, labels, x, n - 1);
      hide SumOf;
      if labels[n - 1] == 0 {
        SumSnoc(Select(scores, labels, 0, n - 1), scores[n - 1], Win(x));
      } else {
        assert Select(scores, labels, 0, n) == Select(scores, labels, 0, n - 1);
      }
    }
  }

  lemma {:induction false} PointsAreWins(scores: seq<real>, labels: seq<int>, m: nat, n: nat)
    requires m <= |scores| && m <= |labels| && n <= |scores| && n <= |labels|
    ensures Points(scores, labels, m, n)
            == SumOf(Select(scores, labels, 1, m), Wins(Select(scores, labels, 0, n)))
  {
    if m > 0 {
      PointsAreWins(scores, labels, m - 1, n);
      RowIsWins(scores, labels, scores[m - 1], n);
      var neg := Select(scores, labels, 0, n);
      WinsIs(neg, scores[m - 1]);
      hide SumOf, Wins, Row;
      if labels[m - 1] == 1 {
        SumSnoc(Select(scores, labels, 1, m - 1), scores[m - 1], Wins(neg));
      } else {
        assert Select(scores, labels, 1, m) == Select(scores, labels, 1, m - 1);
      }
    }
  }

  function AurocValue(scores: seq<real>, labels: seq<int>): real {
    AurocOf(Positives(scores, labels), Negatives(scores, labels))
  }

  /** r is the share that the points are of all p times q pairs, and one half when there is no pair. */
  ghost predicate IsShare(r: real, points: real, p: nat, q: nat) {
    if p == 0 || q == 0 then r == 0.5 else r * (p * q) as real == points
  }

  /**
   The value is the share of the pairs of a score labelled 1 and one labelled 0
   that the former wins, ties counting half, and one half when a label is missing.
   Only the scores and labels up to the shorter list count.
   */
  lemma AurocExact(scores: seq<real>, labels: seq<int>)
    ensures var n := if |scores| <= |labels| then |scores| else |labels|;
            IsShare(AurocValue(scores, labels), Points(scores, labels, n, n),
                    Labelled(labels, 1, n), Labelled(labels, 0, n))
  {
    var n := Shorter(|scores|, |labels|);
    SelectCount(scores, labels, 1, n);
    SelectCount(scores, labels, 0, n);
    PointsAreWins(scores, labels, n, n);
    hide SumOf, Wins, Select, Labelled, Points, AurocOf, IsShare;
    AurocIsShare(Positives(scores, labels), Negatives(scores, labels));
  }

  lemma AurocIsShare(pos: seq<real>, neg: seq<real>)
    ensures IsShare(AurocOf(pos, neg), SumOf(pos, Wins(neg)), |pos|, |neg|)
  {
    hide SumOf, Wins;
    if |pos| > 0 && |neg| > 0 {
      assert |pos| * |neg| > 0;
      QuotientTimes(SumOf(pos, Wins(neg)), (|pos| * |neg|) as real);
    }
  }

  lemma {:induction false} RowBound(scores: seq<real>, labels: seq<int>, x: real, n: nat)
    requires n <= |scores| && n <= |labels|
    ensures Row(scores, labels, x, n) <= Labelled(labels, 0, n) as real
    ensures Row(scores, labels, x, n) == Labelled(labels, 0, n) as real
            <==> forall j | 0 <= j < n && labels[j] == 0 :: x > scores[j]
  {
    if n > 0 {
      RowBound(scores, labels, x, n - 1);
    }
  }

  ghost predicate Separated(scores: seq<real>, labels: seq<int>, m: nat, n: nat)
    requires m <= |scores| && m <= |labels| && n <= |scores| && n <= |labels|
  {
    forall i, j | 0 <= i < m && labels[i] == 1 && 0 <= j < n && labels[j] == 0 :: scores[i] > scores[j]
  }

  function AllPairs(p: nat, q: nat): real { (p * q) as real }

  lemma {:induction false} PointsBound(scores: seq<real>, labels: seq<int>, m: nat, n: nat)
    requires m <= |scores| && m <= |labels| && n <= |scores| && n <= |labels|
    ensures Points(scores, labels, m, n) <= AllPairs(Labelled(labels, 1, m), Labelled(labels, 0, n))
    ensures Points(scores, labels, m, n) == AllPairs(Labelled(labels, 1, m), Labelled(labels, 0, n))
            <==> Separated(scores, labels, m, n)
  {
    if m > 0 {
      PointsBound(scores, labels, m - 1, n);
      RowBound(scores, labels, scores[m - 1], n);
      var before, q := Labelled(labels, 1, m - 1), Labelled(labels, 0, n);
      assert (before + 1) * q == before * q + q;
      assert AllPairs(before + 1, q) == AllPairs(before, q) + q as real;
      assert Separated(scores, labels, m, n) <==>
        Separated(scores, labels, m - 1, n)
        && (labels[m - 1] == 1 ==> forall j | 0 <= j < n && labels[j] == 0 :: scores[m - 1] > scores[j]);
      hide Row, Separated;
    }
  }

  /** The value is 1 exactly when every score labelled 1 exceeds every score labelled 0, and there are both. */
  lemma PerfectAuroc(scores: seq<real>, labels: seq<int>)
    ensures var n := if |scores| <= |labels| then |scores| else |labels|;
            AurocValue(scores, labels) == 1.0 <==>
              && (exists i :: 0 <= i < n && labels[i] == 1)
              && (exists i :: 0 <= i < n && labels[i] == 0)
              && Separated(scores, labels, n, n)
  {
    AurocExact(scores, labels);
    var n := if |scores| <= |labels| then |scores| else |labels|;
    PointsBound(scores, labels, n, n);
    var p, q := Labelled(labels, 1, n), Labelled(labels, 0, n);
    assert p > 0 <==> exists i :: 0 <= i < n && labels[i] == 1;
    assert q > 0 <==> exists i :: 0 <= i < n && labels[i] == 0;
    hide AurocValue, Labelled, Points, Separated, IsShare, AllPairs;
    FullShare(AurocValue(scores, labels), Points(scores, labels, n, n), p, q);
  }

  lemma FullShare(r: real, points: real, p: nat, q: nat)
    requires IsShare(r, points, p, q)
    ensures r == 1.0 <==> p > 0 && q > 0 && points == AllPairs(p, q)
  {
    if p > 0 && q > 0 {
      assert p * q > 0;
      WholeShare(r, points, (p * q) as real);
    }
  }

  lemma WholeShare(r: real, points: real, d: real)
    requires d > 0.0 && r * d == points
    ensures r == 1.0 <==> points == d
  {}
}
