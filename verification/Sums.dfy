/** Sums over sequences: their order does not matter, and grouping by a key conserves them. */
module Sums {
  import opened Seqs

  function SumBy<T>(s: seq<T>, f: T -> int): int {
    if s == [] then 0 else SumBy(s[..|s| - 1], f) + f(s[|s| - 1])
  }

  lemma SumSnoc<T>(s: seq<T>, f: T -> int)
    requires s != []
    ensures SumBy(s, f) == SumBy(s[..|s| - 1], f) + f(s[|s| - 1])
  {
  }

  lemma {:induction false} SumWithout<T>(s: seq<T>, i: nat, f: T -> int)
    requires i < |s|
    ensures SumBy(s, f) == SumBy(Without(s, i), f) + f(s[i])
    decreases |s|
  {
    var n, rest := |s| - 1, Without(s, i);
    if i == n {
      assert rest == s[..n];
    } else {
      SumWithout(s[..n], i, f);
      assert rest[..n - 1] == Without(s[..n], i) && rest[n - 1] == s[n];
    }
  }

  /** Permuting the elements does not change the sum. */
  lemma {:induction false} SumUnordered<T>(a: seq<T>, b: seq<T>, f: T -> int)
    requires multiset(a) == multiset(b)
    ensures SumBy(a, f) == SumBy(b, f)
    decreases |a|
  {
    hide SumBy, Without;
    if a == [] {
      assert |multiset(b)| == 0 && b == [];
    } else {
      var k := Elsewhere(a, b, 0);
      SumWithout(a, 0, f);
      SumWithout(b, k, f);
      MultisetWithout(a, 0);
      MultisetWithout(b, k);
      SumUnordered(Without(a, 0), Without(b, k), f);
    }
  }

  /** `f` on the elements whose key is `k`, zero on the others. */
  function Restrict<T, K(==)>(key: T -> K, k: K, f: T -> int): T -> int {
    x => if key(x) == k then f(x) else 0
  }

  /** The sum over the elements of each key. */
  function GroupSum<T, K(==)>(items: seq<T>, key: T -> K, f: T -> int): K -> int {
    k => SumBy(items, Restrict(key, k, f))
  }

  function Occurrences<K(==)>(keys: seq<K>, k: K): nat {
    if keys == [] then 0 else Occurrences(keys[..|keys| - 1], k) + (if keys[|keys| - 1] == k then 1 else 0)
  }

  lemma {:induction false} OneMoreItem<T, K>(items: seq<T>, x: T, keys: seq<K>, key: T -> K, f: T -> int)
    ensures SumBy(keys, GroupSum(items + [x], key, f))
         == SumBy(keys, GroupSum(items, key, f)) + Occurrences(keys, key(x)) * f(x)
    decreases |keys|
  {
    if keys == [] {
    } else {
      var init, k := keys[..|keys| - 1], keys[|keys| - 1];
      OneMoreItem(items, x, init, key, f);
      assert (items + [x])[..|items|] == items;
      var n := Occurrences(init, key(x));
      assert (n + 1) * f(x) == n * f(x) + f(x);
    }
  }

  lemma {:induction false} NoItems<T, K>(keys: seq<K>, key: T -> K, f: T -> int)
    ensures SumBy(keys, GroupSum([], key, f)) == 0
  {
    if keys == [] {
    } else {
      NoItems<T, K>(keys[..|keys| - 1], key, f);
    }
  }

  /** Over keys that name each item's key once, the groups' sums add up to the sum of all items. */
  lemma {:induction false} GroupsConserve<T, K>(items: seq<T>, keys: seq<K>, key: T -> K, f: T -> int)
    requires forall i :: 0 <= i < |items| ==> Occurrences(keys, key(items[i])) == 1
    ensures SumBy(keys, GroupSum(items, key, f)) == SumBy(items, f)
    decreases |items|
  {
    if items == [] {
      NoItems<T, K>(keys, key, f);
    } else {
      var init, x := items[..|items| - 1], items[|items| - 1];
      GroupsConserve(init, keys, key, f);
      OneMoreItem(init, x, keys, key, f);
      assert items == init + [x] && 1 * f(x) == f(x);
    }
  }
}
