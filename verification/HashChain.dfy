/**
 The audit chain of the quickstart demo: each entry's hash covers the previous
 hash, the question and the action, joined by colons. The hash is a parameter;
 all that is known of it is that its hexadecimal form has 64 characters.
 */
module HashChain {
  const WIDTH: nat := 64

  datatype Entry = Entry(question: string, action: string)

  /** Action values are single words of the policy's vocabulary. */
  predicate ColonFree(s: string) { ':' !in s }

  predicate Wellformed(entries: seq<Entry>) { forall e | e in entries :: ColonFree(e.action) }

  function Genesis(): (z: string)
    ensures |z| == 64 && forall c | c in z :: c == '0'
  {
    seq(WIDTH, _ => '0')
  }

  function Raw(prev: string, e: Entry): string { prev + ":" + e.question + ":" + e.action }

  /** The last hash after these entries. */
  function Head(hash: string -> string, entries: seq<Entry>): string {
    if |entries| == 0 then Genesis() else hash(Raw(Head(hash, entries[..|entries| - 1]), entries[|entries| - 1]))
  }

  /** Two different strings that the hash cannot tell apart. */
  predicate Collision(hash: string -> string, a: string, b: string) { a != b && hash(a) == hash(b) }

  /** The texts hashed for entry k of two chains are such a pair. */
  predicate CollisionAt(hash: string -> string, a: seq<Entry>, b: seq<Entry>, k: nat)
    requires k < |a| && k < |b|
  {
    Collision(hash, Raw(Head(hash, a[..k]), a[k]), Raw(Head(hash, b[..k]), b[k]))
  }

  /** The loop of the demo, keeping every entry's hash. */
  method BuildChain(hash: string -> string, entries: seq<Entry>) returns (hashes: seq<string>, prev: string)
    ensures prev == Head(hash, entries)
    ensures |hashes| == |entries|
    ensures forall i | 0 <= i < |entries| :: hashes[i] == Head(hash, entries[..i + 1])
    ensures forall i | 0 <= i < |entries| ::
              var previous := if i == 0 then Genesis() else hashes[i - 1];
              hashes[i] == hash(previous + ":" + entries[i].question + ":" + entries[i].action)
    ensures prev == if |entries| == 0 then Genesis() else hashes[|entries| - 1]
  {
    prev, hashes := Genesis(), [];
    hide Genesis;
    for i := 0 to |entries|
      invariant prev == Head(hash, entries[..i])
      invariant |hashes| == i && forall k | 0 <= k < i :: hashes[k] == Head(hash, entries[..k + 1])
      invariant prev == if i == 0 then Genesis() else hashes[i - 1]
      invariant forall k | 0 <= k < i ::
                  var previous := if k == 0 then Genesis() else hashes[k - 1];
                  hashes[k] == hash(previous + ":" + entries[k].question + ":" + entries[k].action)
    {
      assert entries[..i + 1][..i] == entries[..i];
      prev := hash(Raw(prev, entries[i]));
      hashes := hashes + [prev];
    }
    assert entries[..|entries|] == entries;
  }

  // -------------------------------------------------------- unique readability

  lemma LastColon(p: string, a: string, i: nat)
    requires ColonFree(a) && |p| <= i < |p| + 1 + |a|
    ensures (p + ":" + a)[i] == ':' <==> i == |p|
  {
    if i > |p| {
      assert (p + ":" + a)[i] == a[i - |p| - 1];
    }
  }

  /** A colon-free word after the last colon can be read back. */
  lemma LastField(p: string, a: string, q: string, b: string)
    requires ColonFree(a) && ColonFree(b) && p + ":" + a == q + ":" + b
    ensures p == q && a == b
  {
    var s, t := p + ":" + a, q + ":" + b;
    LastColon(q, b, |q|);
    LastColon(p, a, if |p| < |q| then |q| else |p|);
    LastColon(q, b, if |p| < |q| then |q| else |p|);
    assert |p| == |q|;
    assert s[..|p|] == p && t[..|q|] == q;
    assert s[|p| + 1..] == a && t[|q| + 1..] == b;
  }

  /** What is hashed determines the previous hash, the question and the action, whatever colons the question holds. */
  lemma RawInjective(p: string, d: Entry, q: string, e: Entry)
    requires |p| == |q| && ColonFree(d.action) && ColonFree(e.action)
    ensures Raw(p, d) == Raw(q, e) <==> p == q && d == e
  {
    if Raw(p, d) == Raw(q, e) {
      LastField(p + ":" + d.question, d.action, q + ":" + e.question, e.action);
      var s, t := p + ":" + d.question, q + ":" + e.question;
      assert s[..|p|] == p && t[..|q|] == q;
      assert s[|p| + 1..] == d.question && t[|q| + 1..] == e.question;
    }
  }

  /** Without the restriction on actions the same text can be read in two ways. */
  lemma ColonsInActionsAmbiguous(p: string)
    ensures Entry("a", "b:c") != Entry("a:b", "c") && Raw(p, Entry("a", "b:c")) == Raw(p, Entry("a:b", "c"))
  {
    var d, e := Entry("a", "b:c"), Entry("a:b", "c");
    assert Raw(p, d) == p + ":" + "a:b:c" == Raw(p, e);
    assert |d.question| != |e.question|;
  }

  // -------------------------------------------------------------- main results

  lemma HeadWidth(hash: string -> string, entries: seq<Entry>)
    requires forall s :: |hash(s)| == WIDTH
    ensures |Head(hash, entries)| == WIDTH
  {}

  lemma CollisionInPrefix(hash: string -> string, a: seq<Entry>, b: seq<Entry>, k: nat, n: nat)
    requires k < n <= |a| && n <= |b|
    ensures CollisionAt(hash, a[..n], b[..n], k) <==> CollisionAt(hash, a, b, k)
  {
    hide Collision, Head, Raw;
    assert a[..n][..k] == a[..k] && b[..n][..k] == b[..k];
  }

  /** Equal heads: the last texts hashed collide, or the entries and the heads before them are equal. */
  lemma HeadBindsLast(hash: string -> string, a: seq<Entry>, b: seq<Entry>, n: nat)
    requires forall s :: |hash(s)| == WIDTH
    requires |a| == |b| == n + 1 && Wellformed(a) && Wellformed(b)
    requires Head(hash, a) == Head(hash, b)
    ensures CollisionAt(hash, a, b, n) || (a[n] == b[n] && Head(hash, a[..n]) == Head(hash, b[..n]))
  {
    var p, q := Head(hash, a[..n]), Head(hash, b[..n]);
    HeadWidth(hash, a[..n]);
    HeadWidth(hash, b[..n]);
    assert Head(hash, a) == hash(Raw(p, a[n])) && Head(hash, b) == hash(Raw(q, b[n]));
    hide Head, Raw;
    if Raw(p, a[n]) == Raw(q, b[n]) {
      RawInjective(p, a[n], q, b[n]);
    }
  }

  /**
   Two chains of the same length with the same last hash hold the same entries
   throughout, unless one of the texts hashed along the way collides.
   */
  lemma {:induction false} HeadBindsHistory(hash: string -> string, a: seq<Entry>, b: seq<Entry>)
    requires forall s :: |hash(s)| == WIDTH
    requires |a| == |b| && Wellformed(a) && Wellformed(b)
    requires Head(hash, a) == Head(hash, b)
    ensures a == b || exists k | 0 <= k < |a| :: CollisionAt(hash, a, b, k)
  {
    hide Head, Raw, Collision, CollisionAt;
    if |a| > 0 {
      var n := |a| - 1;
      HeadBindsLast(hash, a, b, n);
      if !CollisionAt(hash, a, b, n) {
        HeadBindsHistory(hash, a[..n], b[..n]);
        forall k | 0 <= k < n ensures CollisionAt(hash, a[..n], b[..n], k) ==> CollisionAt(hash, a, b, k) {
          CollisionInPrefix(hash, a, b, k, n);
        }
        assert a == a[..n] + [a[n]] && b == b[..n] + [b[n]];
      }
    }
  }

  /** Two chains that first differ at entry i differ in every later hash, or collide at or after it. */
  lemma TamperingShows(hash: string -> string, a: seq<Entry>, b: seq<Entry>, i: nat, n: nat)
    requires forall s :: |hash(s)| == WIDTH
    requires Wellformed(a) && Wellformed(b) && i < n <= |a| && n <= |b|
    requires a[..i] == b[..i] && a[i] != b[i]
    ensures Head(hash, a[..n]) != Head(hash, b[..n]) || exists k | i <= k < n :: CollisionAt(hash, a, b, k)
  {
    assert a[..n][i] != b[..n][i];
    forall k | 0 <= k < i ensures !CollisionAt(hash, a, b, k) {
      assert a[..k] == a[..i][..k] == b[..k] && a[k] == a[..i][k] == b[k];
    }
    hide Head, Raw, Collision, CollisionAt;
    if Head(hash, a[..n]) == Head(hash, b[..n]) {
      HeadBindsHistory(hash, a[..n], b[..n]);
      forall k | 0 <= k < n ensures CollisionAt(hash, a[..n], b[..n], k) ==> CollisionAt(hash, a, b, k) {
        CollisionInPrefix(hash, a, b, k, n);
      }
    }
  }
}
