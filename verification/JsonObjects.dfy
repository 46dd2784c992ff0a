/** The decoder's hook: a dictionary from a list of members, refused when a key repeats. */
module JsonObjects {
  import opened Json
  import opened JsonGrammar
  import opened Wrappers

  /** m holds the given members and nothing else. */
  ghost predicate HoldsExactly(m: map<string, Json>, pairs: Pairs) {
    && (forall i | 0 <= i < |pairs| :: pairs[i].0 in m && m[pairs[i].0] == pairs[i].1)
    && (forall k | k in m :: HasKey(pairs, k))
  }

  lemma UniqueStep(pairs: Pairs, p: (string, Json), m: map<string, Json>)
    requires DistinctKeys(pairs) && HoldsExactly(m, pairs)
    ensures p.0 in m <==> !DistinctKeys(pairs + [p])
    ensures p.0 !in m ==> HoldsExactly(m[p.0 := p.1], pairs + [p])
  {
    var ps := pairs + [p];
    if p.0 in m {
      assert HasKey(pairs, p.0);
      var i :| 0 <= i < |pairs| && pairs[i].0 == p.0;
      assert ps[i].0 == ps[|pairs|].0;
    } else {
      forall k | k in m[p.0 := p.1] ensures HasKey(ps, k) {
        if k == p.0 {
          assert ps[|pairs|].0 == k;
        } else {
          assert HasKey(pairs, k);
          var i :| 0 <= i < |pairs| && pairs[i].0 == k;
          assert ps[i].0 == k;
        }
      }
    }
  }

  /** The hook accepts a list of members exactly when no key repeats, and then keeps every member. */
  lemma {:induction false} UniqueObjectExact(pairs: Pairs)
    ensures UniqueObject(pairs).Some? <==> DistinctKeys(pairs)
    ensures UniqueObject(pairs).Some? ==> HoldsExactly(UniqueObject(pairs).value, pairs)
  {
    if |pairs| > 0 {
      var init, p := pairs[..|pairs| - 1], pairs[|pairs| - 1];
      UniqueObjectExact(init);
      assert pairs == init + [p];
      if UniqueObject(init).Some? {
        UniqueStep(init, p, UniqueObject(init).value);
      }
    }
  }

  /** The source's hook: fill a dictionary, and fail on the first repeated key. */
  method BuildObject(pairs: Pairs) returns (r: Option<map<string, Json>>)
    ensures r == UniqueObject(pairs)
  {
    var result: map<string, Json> := map[];
    for i := 0 to |pairs|
      invariant UniqueObject(pairs[..i]) == Some(result)
    {
      var (k, v) := pairs[i];
      assert pairs[..i + 1][..i] == pairs[..i];
      if k in result {
        DuplicateStays(pairs, i + 1);
        return None;
      }
      result := result[k := v];
    }
    assert pairs[..|pairs|] == pairs;
    return Some(result);
  }

  lemma {:induction false} DuplicateStays(pairs: Pairs, n: nat)
    requires n <= |pairs| && UniqueObject(pairs[..n]) == None
    ensures UniqueObject(pairs) == None
    decreases |pairs| - n
  {
    if n < |pairs| {
      assert pairs[..n + 1][..n] == pairs[..n];
      DuplicateStays(pairs, n + 1);
    } else {
      assert pairs[..n] == pairs;
    }
  }

  /** The hook builds the object of the grammar. */
  lemma UniqueIsCollect(pairs: Pairs)
    ensures UniqueObject(pairs) == if DistinctKeys(pairs) then Some(Collect(pairs)) else None
  {
    UniqueObjectExact(pairs);
    if DistinctKeys(pairs) {
      hide UniqueObject;
      SameObject(pairs, UniqueObject(pairs).value);
    }
  }

  lemma SameObject(pairs: Pairs, m: map<string, Json>)
    requires DistinctKeys(pairs) && HoldsExactly(m, pairs)
    ensures m == Collect(pairs)
  {
    var c := Collect(pairs);
    forall k ensures k in c <==> HasKey(pairs, k) {}
    forall k | HasKey(pairs, k) ensures k in m && m[k] == ValueAt(pairs, k) {
      var i :| 0 <= i < |pairs| && pairs[i].0 == k && ValueAt(pairs, k) == pairs[i].1;
    }
    forall k | k in m ensures HasKey(pairs, k) {}
    hide HasKey, ValueAt, HoldsExactly, Collect;
    assert m.Keys == c.Keys;
  }
}
