/** Total orders, and Python's `sorted` on a set of keys. */
module Orders {
  ghost predicate Total<T(!new)>(le: (T, T) -> bool) {
    && (forall a :: le(a, a))
    && (forall a, b :: le(a, b) || le(b, a))
    && (forall a, b :: le(a, b) && le(b, a) ==> a == b)
    && (forall a, b, c :: le(a, b) && le(b, c) ==> le(a, c))
  }

  lemma Pick<T>(s: set<T>) returns (t: T)
    requires s != {}
    ensures t in s
  {
    t :| t in s;
  }

  lemma {:induction false} LeastExists<T(!new)>(ks: set<T>, le: (T, T) -> bool)
    requires Total(le) && ks != {}
    ensures exists m :: m in ks && forall k | k in ks :: le(m, k)
  {
    var k := Pick(ks);
    var rest := ks - {k};
    if rest == {} {
      assert ks == {k};
      assert le(k, k);
      assert k in ks && forall j | j in ks :: le(k, j);
    } else {
      LeastExists(rest, le);
      var m :| m in rest && forall j | j in rest :: le(m, j);
      LeastStep(ks, le, k, m);
    }
  }

  lemma LeastStep<T(!new)>(ks: set<T>, le: (T, T) -> bool, k: T, m: T)
    requires Total(le) && k in ks && m in ks
    requires forall j | j in ks && j != k :: le(m, j)
    ensures exists r :: r in ks && forall j | j in ks :: le(r, j)
  {
    var r := if le(m, k) then m else k;
    forall j | j in ks ensures le(r, j) {
      assert j == k || le(m, j);
      assert le(k, k) && (le(m, k) || le(k, m));
    }
    assert r in ks;
  }

  function Least<T(!new)>(ks: set<T>, le: (T, T) -> bool): (m: T)
    requires Total(le) && ks != {}
    ensures m in ks && forall k | k in ks :: le(m, k)
  {
    LeastExists(ks, le);
    var m :| m in ks && forall k | k in ks :: le(m, k);
    m
  }

  /** The keys in order: each exactly once, and nothing else. */
  function Sorted<T(!new)>(ks: set<T>, le: (T, T) -> bool): (s: seq<T>)
    requires Total(le)
    ensures forall i, j | 0 <= i < j < |s| :: le(s[i], s[j]) && s[i] != s[j]
    ensures forall k :: k in s <==> k in ks
    ensures |s| == |ks|
    decreases |ks|
  {
    if ks == {} then []
    else
      var m := Least(ks, le);
      var rest := Sorted(ks - {m}, le);
      assert forall k | k in rest :: le(m, k) && m != k;
      [m] + rest
  }

  function RealLe(): (real, real) -> bool { (a: real, b: real) => a <= b }

  lemma RealLeTotal()
    ensures Total(RealLe())
  {}

  /** Python's ordering of strings, by code point. */
  predicate StringLe(a: string, b: string) {
    |a| == 0 || (|b| > 0 && (a[0] < b[0] || (a[0] == b[0] && StringLe(a[1..], b[1..]))))
  }

  function TextLe(): (string, string) -> bool { (a: string, b: string) => StringLe(a, b) }

  lemma {:induction false} StringLeTotal(a: string, b: string)
    ensures StringLe(a, b) || StringLe(b, a)
    ensures StringLe(a, b) && StringLe(b, a) ==> a == b
  {
    if |a| > 0 && |b| > 0 && a[0] == b[0] {
      StringLeTotal(a[1..], b[1..]);
      assert a == [a[0]] + a[1..] && b == [b[0]] + b[1..];
    }
  }

  lemma {:induction false} StringLeTransitive(a: string, b: string, c: string)
    requires StringLe(a, b) && StringLe(b, c)
    ensures StringLe(a, c)
  {
    if |a| > 0 && a[0] == b[0] == c[0] {
      StringLeTransitive(a[1..], b[1..], c[1..]);
    }
  }

  lemma TextLeTotal()
    ensures Total(TextLe())
  {
    forall a, b ensures (TextLe()(a, b) || TextLe()(b, a)) && (TextLe()(a, b) && TextLe()(b, a) ==> a == b) {
      StringLeTotal(a, b);
    }
    forall a, b, c | TextLe()(a, b) && TextLe()(b, c) ensures TextLe()(a, c) {
      StringLeTransitive(a, b, c);
    }
  }

  function SortedReals(ks: set<real>): (s: seq<real>)
    ensures forall i, j | 0 <= i < j < |s| :: s[i] < s[j]
    ensures forall k :: k in s <==> k in ks
    ensures |s| == |ks|
  {
    RealLeTotal();
    var s := Sorted(ks, RealLe());
    assert forall i, j | 0 <= i < j < |s| :: RealLe()(s[i], s[j]);
    s
  }

  function SortedTexts(ks: set<string>): (s: seq<string>)
    ensures forall i, j | 0 <= i < j < |s| :: StringLe(s[i], s[j]) && s[i] != s[j]
    ensures forall k :: k in s <==> k in ks
    ensures |s| == |ks|
  {
    TextLeTotal();
    var s := Sorted(ks, TextLe());
    assert forall i, j | 0 <= i < j < |s| :: TextLe()(s[i], s[j]);
    s
  }
}
