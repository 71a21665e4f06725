/** Listings of a map in the order Go happens to visit it. */
module Listings {
  import opened Seqs

  /** `keys` lists each key of `m` once. */
  ghost predicate Enumerates<K(!new), V>(keys: seq<K>, m: map<K, V>) {
    && (forall id :: id in m <==> id in keys)
    && (forall i, j :: 0 <= i < j < |keys| ==> keys[i] != keys[j])
  }

  /** `values` holds the values of `m`, each key once, in the order `keys`. */
  ghost predicate ListsBy<K(!new), V>(values: seq<V>, m: map<K, V>, keys: seq<K>) {
    Enumerates(keys, m) && |values| == |keys| && forall i :: 0 <= i < |keys| ==> values[i] == m[keys[i]]
  }

  /** `values` holds the values of `m` in some order, as Go's iteration over a map visits it. */
  ghost predicate Lists<K(!new), V>(values: seq<V>, m: map<K, V>) {
    exists keys :: ListsBy(values, m, keys)
  }

  lemma ListingsAgree<K(!new), V>(a: seq<V>, b: seq<V>, m: map<K, V>)
    requires Lists(a, m) && Lists(b, m)
    ensures multiset(a) == multiset(b)
  {
    var ka :| ListsBy(a, m, ka);
    var kb :| ListsBy(b, m, kb);
    ListingsAgreeBy(a, ka, b, kb, m);
  }

  lemma {:induction false} ListingsAgreeBy<K(!new), V>(
    a: seq<V>, ka: seq<K>, b: seq<V>, kb: seq<K>, m: map<K, V>)
    requires ListsBy(a, m, ka) && ListsBy(b, m, kb)
    ensures multiset(a) == multiset(b)
    decreases |a|
  {
    if a == [] {
      if b != [] {
        FirstIsMember(kb);
        assert false;
      }
    } else {
      var i := SameKey(a, ka, b, kb, m);
      WithoutOne(a, m, ka, 0);
      WithoutOne(b, m, kb, i);
      hide ListsBy, Without;
      ListingsAgreeBy(Without(a, 0), Without(ka, 0), Without(b, i), Without(kb, i), m - {ka[0]});
      MultisetWithout(a, 0);
      MultisetWithout(b, i);
    }
  }

  lemma SameKey<K(!new), V>(a: seq<V>, ka: seq<K>, b: seq<V>, kb: seq<K>, m: map<K, V>) returns (i: nat)
    requires ListsBy(a, m, ka) && ListsBy(b, m, kb) && a != []
    ensures i < |b| && |a| == |ka| && |b| == |kb| && kb[i] == ka[0] && b[i] == a[0]
  {
    assert ka[0] in m;
    i :| 0 <= i < |kb| && kb[i] == ka[0];
  }

  lemma WithoutOne<K(!new), V>(a: seq<V>, m: map<K, V>, keys: seq<K>, i: nat)
    requires ListsBy(a, m, keys) && i < |keys|
    ensures ListsBy(Without(a, i), m - {keys[i]}, Without(keys, i))
    ensures a[i] == m[keys[i]]
  {
    var rest := Without(keys, i);
    forall id ensures id in m - {keys[i]} <==> id in rest {
      if id in m - {keys[i]} {
        var k :| 0 <= k < |keys| && keys[k] == id;
        assert rest[if k < i then k else k - 1] == id;
      }
    }
  }
}
