/** Midranks as a function, and AUROC as a double loop, as a comprehension and by ranks. */
module Ranks {
  import opened Sums
  import opened Wrappers

  // ------------------------------------------------------------------- wins

  /** What v scores against u: a win counts one, a tie one half. */
  function Win(v: real): real -> real {
    (u: real) => if v > u then 1.0 else if v == u then 0.5 else 0.0
  }

  /** The score of v against every element of s. */
  function Wins(s: seq<real>): real -> real { (v: real) => SumOf(s, Win(v)) }

  function Below(v: real): real -> bool { (u: real) => u < v }
  function Same(v: real): real -> bool { (u: real) => u == v }

  /** The 1-based midrank of the value v among s. */
  function Midrank(s: seq<real>, v: real): real {
    CountOf(s, Below(v)) as real + (CountOf(s, Same(v)) as real + 1.0) / 2.0
  }

  lemma {:induction false} WinsCounts(s: seq<real>, v: real)
    ensures Wins(s)(v) == CountOf(s, Below(v)) as real + CountOf(s, Same(v)) as real / 2.0
  {
    if |s| > 0 {
      WinsCounts(s[..|s| - 1], v);
    }
  }

  lemma MidrankWins(s: seq<real>, v: real)
    ensures Midrank(s, v) == Wins(s)(v) + 0.5
  {
    WinsCounts(s, v);
  }

  function Against(x: real): real -> real { (u: real) => Win(u)(x) }

  lemma OnePoint(x: real, s: seq<real>)
    ensures SumOf(s, Win(x)) + SumOf(s, Against(x)) == |s| as real
  {
    hide SumOf;
    forall u | u in s ensures One()(u) == Win(x)(u) + 1.0 * Against(x)(u) {
      assert Against(x)(u) == Win(u)(x);
    }
    SumOfLinear(s, One(), Win(x), 1.0, Against(x));
    SumOfConst(s, One(), 1.0);
  }

  lemma WinsSnoc(a: seq<real>, x: real, b: seq<real>)
    ensures SumOf(b, Wins(a + [x])) == SumOf(b, Wins(a)) + SumOf(b, Against(x))
  {
    forall u | u in b ensures Wins(a + [x])(u) == Wins(a)(u) + 1.0 * Against(x)(u) {
      SumOfAppend(a, [x], Win(u));
      SumOfOne(x, Win(u));
    }
    hide SumOf;
    SumOfLinear(b, Wins(a + [x]), Wins(a), 1.0, Against(x));
  }

  /** Every pair of one element from a and one from b shares out exactly one point. */
  lemma {:induction false} PairPoints(a: seq<real>, b: seq<real>)
    ensures SumOf(a, Wins(b)) + SumOf(b, Wins(a)) == |a| as real * |b| as real
  {
    if |a| == 0 {
      SumOfConst(b, Wins(a), 0.0);
    } else {
      var m := |a| - 1;
      assert a[..m] + [a[m]] == a == a[..m + 1];
      SumOfPrefix(a, m, Wins(b));
      hide SumOf, Wins;
      PairPoints(a[..m], b);
      WinsSnoc(a[..m], a[m], b);
      OnePoint(a[m], b);
      WinsIs(b, a[m]);
      OneMore(m as real, |b| as real);
    }
  }

  lemma WinsIs(s: seq<real>, v: real)
    ensures Wins(s)(v) == SumOf(s, Win(v))
  {}

  lemma OneMore(m: real, n: real)
    ensures m * n + n == (m + 1.0) * n
  {}

  // ------------------------------------------------------------------ AUROC

  /** U / (n_pos * n_neg), and one half when a class is empty. */
  function AurocOf(pos: seq<real>, neg: seq<real>): real {
    if |pos| == 0 || |neg| == 0 then 0.5
    else SumOf(pos, Wins(neg)) / (|pos| * |neg|) as real
  }

  function Select(scores: seq<real>, labels: seq<int>, kind: int, n: nat): seq<real>
    requires n <= |scores| && n <= |labels|
  {
    if n == 0 then []
    else Select(scores, labels, kind, n - 1) + if labels[n - 1] == kind then [scores[n - 1]] else []
  }

  function Shorter(a: nat, b: nat): nat { if a <= b then a else b }

  function Positives(scores: seq<real>, labels: seq<int>): seq<real> {
    Select(scores, labels, 1, Shorter(|scores|, |labels|))
  }

  function Negatives(scores: seq<real>, labels: seq<int>): seq<real> {
    Select(scores, labels, 0, Shorter(|scores|, |labels|))
  }

  /** The source's double loop. */
  method Auroc(scores: seq<real>, labels: seq<int>) returns (r: real)
    ensures r == AurocOf(Positives(scores, labels), Negatives(scores, labels))
  {
    var n := Shorter(|scores|, |labels|);
    var pos, neg: seq<real> := [], [];
    for i := 0 to n
      invariant pos == Select(scores, labels, 1, i) && neg == Select(scores, labels, 0, i)
    {
      if labels[i] == 1 {
        pos := pos + [scores[i]];
      }
      if labels[i] == 0 {
        neg := neg + [scores[i]];
      }
    }
    if |pos| == 0 || |neg| == 0 {
      return 0.5;
    }
    var u := 0.0;
    for i := 0 to |pos|
      invariant u == SumOf(pos[..i], Wins(neg))
    {
      ghost var before := u;
      for j := 0 to |neg|
        invariant u == before + SumOf(neg[..j], Win(pos[i]))
      {
        if pos[i] > neg[j] {
          u := u + 1.0;
        } else if pos[i] == neg[j] {
          u := u + 0.5;
        }
        SumOfPrefix(neg, j, Win(pos[i]));
      }
      assert neg[..|neg|] == neg;
      SumOfPrefix(pos, i, Wins(neg));
    }
    assert pos[..|pos|] == pos;
    r := u / (|pos| * |neg|) as real;
  }

  function ZeroRank(s: seq<real>): real -> real { (v: real) => Midrank(s, v) - 1.0 }

  lemma CountOfPerm(a: seq<real>, b: seq<real>, p: real -> bool)
    requires multiset(a) == multiset(b)
    ensures CountOf(a, p) == CountOf(b, p)
  {
    CountOfSum(a, p);
    CountOfSum(b, p);
    SumOfPerm(a, b, Indicator(p));
  }

  lemma {:induction false} SelectPartition(scores: seq<real>, labels: seq<int>, n: nat)
    requires n <= |scores| && n <= |labels| && forall l | l in labels :: l == 0 || l == 1
    ensures multiset(scores[..n]) == multiset(Select(scores, labels, 1, n)) + multiset(Select(scores, labels, 0, n))
  {
    if n > 0 {
      SelectPartition(scores, labels, n - 1);
      assert scores[..n] == scores[..n - 1] + [scores[n - 1]];
      assert labels[n - 1] in labels;
      var p, q := Select(scores, labels, 1, n - 1), Select(scores, labels, 0, n - 1);
      if labels[n - 1] == 1 {
        assert Select(scores, labels, 0, n) == q;
        assert Select(scores, labels, 1, n) == p + [scores[n - 1]];
      } else {
        assert Select(scores, labels, 1, n) == p;
        assert Select(scores, labels, 0, n) == q + [scores[n - 1]];
      }
    }
  }

  /** The U statistic from midranks over the pooled scores, ties and all. */
  lemma RankSum(all: seq<real>, pos: seq<real>, neg: seq<real>)
    requires multiset(all) == multiset(pos) + multiset(neg)
    ensures SumOf(pos, Wins(neg))
            == SumOf(pos, ZeroRank(all)) - |pos| as real * (|pos| as real - 1.0) / 2.0
  {
    hide SumOf, Midrank, Win;
    forall p | p in pos ensures Wins(pos + neg)(p) == ZeroRank(all)(p) + 0.5 * One()(p) {
      MidrankWins(all, p);
      SumOfPerm(all, pos + neg, Win(p));
    }
    SumOfLinear(pos, Wins(pos + neg), ZeroRank(all), 0.5, One());
    SumOfConst(pos, One(), 1.0);
    forall p | p in pos ensures Wins(pos + neg)(p) == Wins(pos)(p) + 1.0 * Wins(neg)(p) {
      SumOfAppend(pos, neg, Win(p));
    }
    SumOfLinear(pos, Wins(pos + neg), Wins(pos), 1.0, Wins(neg));
    PairPoints(pos, pos);
  }

  /** AUROC from the same file's 0-based midranks, for 0/1 labels. */
  lemma AurocByRanks(scores: seq<real>, labels: seq<int>)
    requires |scores| == |labels| && forall l | l in labels :: l == 0 || l == 1
    requires |Positives(scores, labels)| > 0 && |Negatives(scores, labels)| > 0
    ensures var pos, neg := Positives(scores, labels), Negatives(scores, labels);
            AurocOf(pos, neg)
            == (SumOf(pos, ZeroRank(scores)) - |pos| as real * (|pos| as real - 1.0) / 2.0) / (|pos| * |neg|) as real
  {
    hide SumOf, Midrank, Win, Wins, ZeroRank, Select;
    SelectPartition(scores, labels, |scores|);
    assert scores[..|scores|] == scores;
    RankSum(scores, Positives(scores, labels), Negatives(scores, labels));
  }

  lemma RealProduct(a: nat, b: nat)
    ensures (a * b) as real == a as real * b as real
  {}

  /** Swapping the classes turns the area into its complement; it always lies in [0, 1]. */
  lemma AurocComplement(pos: seq<real>, neg: seq<real>)
    ensures AurocOf(pos, neg) + AurocOf(neg, pos) == 1.0
    ensures 0.0 <= AurocOf(pos, neg) <= 1.0
  {
    hide SumOf, Wins;
    PairPoints(pos, neg);
    if |pos| > 0 && |neg| > 0 {
      RealProduct(|pos|, |neg|);
      RealProduct(|neg|, |pos|);
      WinsNonneg(pos, neg);
      WinsNonneg(neg, pos);
      Shares(SumOf(pos, Wins(neg)), SumOf(neg, Wins(pos)), (|pos| * |neg|) as real);
    }
  }

  lemma Shares(u: real, w: real, d: real)
    requires u >= 0.0 && w >= 0.0 && u + w == d > 0.0
    ensures u / d + w / d == 1.0 && 0.0 <= u / d <= 1.0
  {}

  lemma WinsNonneg(a: seq<real>, b: seq<real>)
    ensures SumOf(a, Wins(b)) >= 0.0
  {
    forall v | v in a ensures Wins(b)(v) >= 0.0 {
      SumOfZero(b, Win(v));
    }
    SumOfZero(a, Wins(b));
  }

  function Pairs(pos: seq<real>, neg: seq<real>): seq<(real, real)> {
    if |pos| == 0 then []
    else Pairs(pos[..|pos| - 1], neg) + seq(|neg|, j requires 0 <= j < |neg| => (pos[|pos| - 1], neg[j]))
  }

  function PairScore(): ((real, real)) -> real {
    (p: (real, real)) => (if p.0 > p.1 then 1.0 else 0.0) + 0.5 * (if p.0 == p.1 then 1.0 else 0.0)
  }

  /** The comprehension form, before its rounding. */
  function AurocComprehension(pos: seq<real>, neg: seq<real>): Option<real> {
    if |pos| == 0 || |neg| == 0 then None
    else Some(SumOf(Pairs(pos, neg), PairScore()) / (|pos| * |neg|) as real)
  }

  lemma {:induction false} PairsSum(pos: seq<real>, neg: seq<real>)
    ensures SumOf(Pairs(pos, neg), PairScore()) == SumOf(pos, Wins(neg))
  {
    if |pos| > 0 {
      var m := |pos| - 1;
      var row := seq(|neg|, j requires 0 <= j < |neg| => (pos[m], neg[j]));
      PairsSum(pos[..m], neg);
      SumOfAppend(Pairs(pos[..m], neg), row, PairScore());
      SumOfImage(neg, row, Win(pos[m]), PairScore());
    }
  }

  lemma ComprehensionAgrees(pos: seq<real>, neg: seq<real>)
    ensures AurocComprehension(pos, neg)
            == if |pos| == 0 || |neg| == 0 then None else Some(AurocOf(pos, neg))
  {
    PairsSum(pos, neg);
  }
}
