/** Finite sums and counts over sequences, shared by every numeric module. */
module Sums {
  /** The sum of f over the elements of s. */
  function SumOf<T>(s: seq<T>, f: T -> real): real {
    if |s| == 0 then 0.0 else SumOf(s[..|s| - 1], f) + f(s[|s| - 1])
  }

  /** The number of elements of s that satisfy p. */
  function CountOf<T>(s: seq<T>, p: T -> bool): nat {
    if |s| == 0 then 0
    else CountOf(s[..|s| - 1], p) + if p(s[|s| - 1]) then 1 else 0
  }

  function Zero<T>(): T -> real { (t: T) => 0.0 }
  function One<T>(): T -> real { (t: T) => 1.0 }

  lemma SumOfOne<T>(t: T, f: T -> real)
    ensures SumOf([t], f) == f(t)
  {
    assert [t][..0] == [];
  }

  lemma SumOfPrefix<T>(s: seq<T>, n: nat, f: T -> real)
    requires n < |s|
    ensures SumOf(s[..n + 1], f) == SumOf(s[..n], f) + f(s[n])
  {
    assert s[..n + 1][..n] == s[..n];
  }

  lemma {:induction false} SumOfAppend<T>(a: seq<T>, b: seq<T>, f: T -> real)
    ensures SumOf(a + b, f) == SumOf(a, f) + SumOf(b, f)
    decreases |b|
  {
    if |b| == 0 {
      assert a + b == a;
    } else {
      assert (a + b)[..|a + b| - 1] == a + b[..|b| - 1];
      SumOfAppend(a, b[..|b| - 1], f);
    }
  }

  /** h = f + c * g pointwise carries over to the sums. */
  lemma {:induction false} SumOfLinear<T>(s: seq<T>, h: T -> real, f: T -> real, c: real, g: T -> real)
    requires forall t | t in s :: h(t) == f(t) + c * g(t)
    ensures SumOf(s, h) == SumOf(s, f) + c * SumOf(s, g)
  {
    if |s| > 0 {
      assert s[|s| - 1] in s;
      SumOfLinear(s[..|s| - 1], h, f, c, g);
    }
  }

  lemma {:induction false} SumOfMono<T>(s: seq<T>, f: T -> real, g: T -> real)
    requires forall t | t in s :: f(t) <= g(t)
    ensures SumOf(s, f) <= SumOf(s, g)
  {
    if |s| > 0 {
      assert s[|s| - 1] in s;
      SumOfMono(s[..|s| - 1], f, g);
    }
  }

  lemma SumOfCong<T>(s: seq<T>, f: T -> real, g: T -> real)
    requires forall t | t in s :: f(t) == g(t)
    ensures SumOf(s, f) == SumOf(s, g)
  {
    SumOfMono(s, f, g);
    SumOfMono(s, g, f);
  }

  lemma {:induction false} SumOfConst<T>(s: seq<T>, f: T -> real, c: real)
    requires forall t | t in s :: f(t) == c
    ensures SumOf(s, f) == |s| as real * c
  {
    if |s| > 0 {
      assert s[|s| - 1] in s;
      SumOfConst(s[..|s| - 1], f, c);
    }
  }

  /** A sum of non-negative terms vanishes only when every term does. */
  lemma {:induction false} SumOfZero<T>(s: seq<T>, f: T -> real)
    requires forall t | t in s :: f(t) >= 0.0
    ensures SumOf(s, f) >= 0.0
    ensures SumOf(s, f) == 0.0 ==> forall t | t in s :: f(t) == 0.0
  {
    if |s| > 0 {
      var m := |s| - 1;
      assert s[m] in s && s == s[..m] + [s[m]];
      SumOfZero(s[..m], f);
    }
  }

  lemma SumOfRemove<T>(s: seq<T>, j: nat, f: T -> real)
    requires j < |s|
    ensures SumOf(s, f) == SumOf(s[..j] + s[j + 1..], f) + f(s[j])
  {
    hide SumOf;
    assert s == s[..j] + [s[j]] + s[j + 1..];
    SumOfOne(s[j], f);
    SumOfAppend(s[..j] + [s[j]], s[j + 1..], f);
    SumOfAppend(s[..j], [s[j]], f);
    SumOfAppend(s[..j], s[j + 1..], f);
  }

  lemma MultisetSplit<T>(s: seq<T>, j: nat)
    requires j < |s|
    ensures multiset(s) == multiset(s[..j] + s[j + 1..]) + multiset{s[j]}
  {
    assert s == s[..j] + [s[j]] + s[j + 1..];
  }

  lemma MatchLast<T>(a: seq<T>, b: seq<T>) returns (j: nat)
    requires multiset(a) == multiset(b) && |a| > 0
    ensures j < |b| && b[j] == a[|a| - 1]
    ensures multiset(a[..|a| - 1]) == multiset(b[..j] + b[j + 1..])
  {
    var m := |a| - 1;
    assert a[m] in multiset(b);
    j :| 0 <= j < |b| && b[j] == a[m];
    MultisetSplit(a, m);
    MultisetSplit(b, j);
    assert a[..m] + a[m + 1..] == a[..m];
    assert multiset(a[..m]) == multiset(a) - multiset{a[m]};
  }

  /** A sum depends only on the multiset of its elements. */
  lemma {:induction false} SumOfPerm<T>(a: seq<T>, b: seq<T>, f: T -> real)
    requires multiset(a) == multiset(b)
    ensures SumOf(a, f) == SumOf(b, f)
    decreases |a|
  {
    assert |a| == |multiset(a)| == |multiset(b)| == |b|;
    if |a| > 0 {
      var j := MatchLast(a, b);
      SumOfPerm(a[..|a| - 1], b[..j] + b[j + 1..], f);
      SumOfRemove(b, j, f);
    }
  }

  lemma {:induction false} SumOfImage<T, U>(s: seq<T>, t: seq<U>, f: T -> real, g: U -> real)
    requires |s| == |t| && forall i | 0 <= i < |s| :: f(s[i]) == g(t[i])
    ensures SumOf(s, f) == SumOf(t, g)
  {
    if |s| > 0 {
      SumOfImage(s[..|s| - 1], t[..|t| - 1], f, g);
    }
  }

  function Indicator<T>(p: T -> bool): T -> real {
    t => if p(t) then 1.0 else 0.0
  }

  lemma {:induction false} CountOfSum<T>(s: seq<T>, p: T -> bool)
    ensures CountOf(s, p) as real == SumOf(s, Indicator(p))
  {
    if |s| > 0 {
      CountOfSum(s[..|s| - 1], p);
    }
  }

  ghost function Positions<T>(s: seq<T>, p: T -> bool): set<int> { set i | 0 <= i < |s| && p(s[i]) }

  lemma PositionsSnoc<T>(s: seq<T>, t: T, p: T -> bool)
    ensures Positions(s + [t], p) == Positions(s, p) + (if p(t) then {|s|} else {})
    ensures |s| !in Positions(s, p)
  {
    var all := s + [t];
    forall i ensures i in Positions(all, p) <==> i in Positions(s, p) || (p(t) && i == |s|) {
      if 0 <= i < |s| {
        assert all[i] == s[i];
      }
    }
  }

  /** A count is the number of positions at which the predicate holds. */
  lemma {:induction false} CountOfPositions<T>(s: seq<T>, p: T -> bool)
    ensures CountOf(s, p) == |set i | 0 <= i < |s| && p(s[i])|
  {
    assert Positions(s, p) == set i | 0 <= i < |s| && p(s[i]);
    if |s| == 0 {
      assert Positions(s, p) == {};
    } else {
      var m := |s| - 1;
      CountOfPositions(s[..m], p);
      PositionsSnoc(s[..m], s[m], p);
      hide Positions;
      assert s[..m] + [s[m]] == s;
    }
  }

  lemma CountOfPrefix<T>(s: seq<T>, n: nat, p: T -> bool)
    requires n < |s|
    ensures CountOf(s[..n + 1], p) == CountOf(s[..n], p) + if p(s[n]) then 1 else 0
  {
    assert s[..n + 1][..n] == s[..n];
  }

  lemma {:induction false} CountOfBound<T>(s: seq<T>, p: T -> bool)
    ensures CountOf(s, p) <= |s|
    ensures CountOf(s, p) == |s| <==> forall t | t in s :: p(t)
    ensures CountOf(s, p) == 0 <==> forall t | t in s :: !p(t)
  {
    if |s| > 0 {
      assert s == s[..|s| - 1] + [s[|s| - 1]];
      CountOfBound(s[..|s| - 1], p);
    }
  }

  lemma {:induction false} CountOfMono<T>(s: seq<T>, p: T -> bool, q: T -> bool)
    requires forall t | t in s :: p(t) ==> q(t)
    ensures CountOf(s, p) <= CountOf(s, q)
  {
    if |s| > 0 {
      assert s[|s| - 1] in s;
      CountOfMono(s[..|s| - 1], p, q);
    }
  }

  lemma {:induction false} CountImage<S, T>(s: seq<S>, t: seq<T>, p: S -> bool, q: T -> bool)
    requires |s| == |t| && forall i | 0 <= i < |s| :: p(s[i]) == q(t[i])
    ensures CountOf(s, p) == CountOf(t, q)
  {
    if |s| > 0 {
      CountImage(s[..|s| - 1], t[..|t| - 1], p, q);
    }
  }

  // ------------------------------------------------------------ grouped sums

  /** f at the elements whose key is k, and 0 elsewhere. */
  function AtKey<T, K(==)>(key: T -> K, f: T -> real, k: K): T -> real {
    (t: T) => if key(t) == k then f(t) else 0.0
  }

  /** The part of the sum of f that belongs to the key k. */
  function PerKey<T, K(==)>(s: seq<T>, key: T -> K, f: T -> real): K -> real {
    (k: K) => SumOf(s, AtKey(key, f, k))
  }

  function Hit<K(==)>(x: K, v: real): K -> real {
    (k: K) => if k == x then v else 0.0
  }

  ghost predicate Distinct<K>(ks: seq<K>) {
    forall i, j | 0 <= i < j < |ks| :: ks[i] != ks[j]
  }

  /** Distinct elements are those that occur at most once. */
  lemma {:induction false} DistinctSpread<K>(ks: seq<K>)
    ensures Distinct(ks) <==> forall k :: multiset(ks)[k] <= 1
  {
    if |ks| > 0 {
      var m := |ks| - 1;
      assert ks == ks[..m] + [ks[m]];
      DistinctSpread(ks[..m]);
      assert ks[m] in ks[..m] <==> ks[m] in multiset(ks[..m]);
      forall k ensures multiset(ks)[k] == multiset(ks[..m])[k] + if k == ks[m] then 1 else 0 {}
    }
  }

  /** Two lists without repetitions and with the same members count the same. */
  lemma SameMembersSameCount<K>(a: seq<K>, b: seq<K>, p: K -> bool)
    requires Distinct(a) && Distinct(b) && forall k :: k in a <==> k in b
    ensures CountOf(a, p) == CountOf(b, p)
  {
    DistinctSpread(a);
    DistinctSpread(b);
    forall k ensures multiset(a)[k] == multiset(b)[k] {
      assert k in multiset(a) <==> k in a;
      assert k in multiset(b) <==> k in b;
    }
    assert multiset(a) == multiset(b);
    CountOfSum(a, p);
    CountOfSum(b, p);
    SumOfPerm(a, b, Indicator(p));
  }

  lemma {:induction false} SingleHit<K>(ks: seq<K>, x: K, v: real)
    requires Distinct(ks)
    ensures SumOf(ks, Hit(x, v)) == if x in ks then v else 0.0
  {
    if |ks| > 0 {
      var m := |ks| - 1;
      assert ks == ks[..m] + [ks[m]];
      SingleHit(ks[..m], x, v);
    }
  }

  lemma PerKeyStep<T, K>(s: seq<T>, t: T, ks: seq<K>, key: T -> K, f: T -> real)
    ensures SumOf(ks, PerKey(s + [t], key, f)) == SumOf(ks, PerKey(s, key, f)) + SumOf(ks, Hit(key(t), f(t)))
  {
    hide SumOf;
    forall k | k in ks ensures PerKey(s + [t], key, f)(k) == PerKey(s, key, f)(k) + 1.0 * Hit(key(t), f(t))(k) {
      SumOfAppend(s, [t], AtKey(key, f, k));
      SumOfOne(t, AtKey(key, f, k));
    }
    SumOfLinear(ks, PerKey(s + [t], key, f), PerKey(s, key, f), 1.0, Hit(key(t), f(t)));
  }

  /** A sum is the sum over its distinct keys of the per-key sums. */
  lemma {:induction false} GroupSum<T, K>(s: seq<T>, ks: seq<K>, key: T -> K, f: T -> real)
    requires Distinct(ks) && forall t | t in s :: key(t) in ks
    ensures SumOf(s, f) == SumOf(ks, PerKey(s, key, f))
  {
    if |s| == 0 {
      SumOfConst(ks, PerKey(s, key, f), 0.0);
    } else {
      var m := |s| - 1;
      assert s == s[..m] + [s[m]];
      GroupSum(s[..m], ks, key, f);
      PerKeyStep(s[..m], s[m], ks, key, f);
      SingleHit(ks, key(s[m]), f(s[m]));
    }
  }
}
