/** Cardinality facts used by the counting arguments. */
module Cards {

  lemma SingletonIs<T>(S: set<T>, x: T)
    requires |S| == 1 && x in S
    ensures S == {x}
  {
    assert |S - {x}| == 0;
  }

  /** An injective map has as many values as keys. */
  lemma {:induction false} InjectiveCard<K, V>(m: map<K, V>)
    requires forall a, b :: a in m && b in m && m[a] == m[b] ==> a == b
    ensures |m.Values| == |m.Keys|
    decreases |m|
  {
    if m.Keys == {} {
      assert m.Values == {};
    } else {
      var k :| k in m;
      var r := m - {k};
      assert r.Keys == m.Keys - {k};
      InjectiveCard(r);
      forall v | v in m.Values ensures v in r.Values || v == m[k] {
        var a :| a in m && m[a] == v;
        assert a == k || (a in r && r[a] == v);
      }
      assert m[k] in m.Values && m.Values == r.Values + {m[k]};
    }
  }

  /** Two maps that undo each other have equally many keys. */
  lemma BijectionCard<K, V>(m: map<K, V>, inv: map<V, K>)
    requires forall k :: k in m ==> m[k] in inv && inv[m[k]] == k
    requires forall v :: v in inv ==> inv[v] in m && m[inv[v]] == v
    ensures |m.Keys| == |inv.Keys|
  {
    InjectiveCard(m);
    forall v | v in inv.Keys ensures v in m.Values { assert inv[v] in m; }
    assert m.Values == inv.Keys;
  }

  lemma SubsetCard<T>(A: set<T>, B: set<T>)
    requires A <= B
    ensures |A| <= |B|
  {
    assert B == A + (B - A);
  }

  lemma ProperSubsetCard<T>(A: set<T>, B: set<T>, x: T)
    requires A <= B && x in B && x !in A
    ensures |A| < |B|
  {
    assert B == A + (B - A);
    assert x in B - A;
  }

  /** The integers in [lo, hi). */
  ghost function Range(lo: int, hi: int): (r: set<int>)
    requires lo <= hi
    ensures forall x :: x in r <==> lo <= x < hi
    ensures |r| == hi - lo
    decreases hi - lo
  {
    if lo == hi then {} else Range(lo, hi - 1) + {hi - 1}
  }
}
