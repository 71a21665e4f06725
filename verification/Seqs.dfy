/** Sequences and the multisets they hold. */
module Seqs {
  function Without<T>(s: seq<T>, i: nat): (r: seq<T>)
    requires i < |s|
    ensures |r| == |s| - 1
  {
    s[..i] + s[i + 1..]
  }

  lemma MultisetWithout<T>(s: seq<T>, i: nat)
    requires i < |s|
    ensures multiset(s) == multiset(Without(s, i)) + multiset{s[i]}
    ensures multiset(Without(s, i)) == multiset(s) - multiset{s[i]}
  {
    assert s == s[..i] + [s[i]] + s[i + 1..];
  }

  /** An element of one sequence stands somewhere in a permutation of it. */
  lemma Elsewhere<T>(a: seq<T>, b: seq<T>, i: nat) returns (k: nat)
    requires multiset(a) == multiset(b) && i < |a|
    ensures k < |b| && b[k] == a[i]
  {
    assert a[i] in multiset(a) && a[i] in multiset(b);
    k :| 0 <= k < |b| && b[k] == a[i];
  }

  lemma FirstIsMember<T>(s: seq<T>)
    requires s != []
    ensures s[0] in s
  {
  }

  function Images<T, U>(s: seq<T>, f: T -> U): (r: seq<U>)
    ensures |r| == |s| && forall i :: 0 <= i < |r| ==> r[i] == f(s[i])
  {
    seq(|s|, i requires 0 <= i < |s| => f(s[i]))
  }

  lemma ImagesWithout<T, U>(s: seq<T>, i: nat, f: T -> U)
    requires i < |s|
    ensures Without(Images(s, f), i) == Images(Without(s, i), f)
  {
  }

  /** The images of a permuted sequence are permuted. */
  lemma {:induction false} ImagesUnordered<T, U>(a: seq<T>, b: seq<T>, f: T -> U)
    requires multiset(a) == multiset(b)
    ensures multiset(Images(a, f)) == multiset(Images(b, f))
    decreases |a|
  {
    if a == [] {
      assert |multiset(b)| == |b|;
    } else {
      var i := |a| - 1;
      var k := Elsewhere(a, b, i);
      hide Without;
      MultisetWithout(a, i);
      MultisetWithout(b, k);
      ImagesUnordered(Without(a, i), Without(b, k), f);
      ImagesWithout(a, i, f);
      ImagesWithout(b, k, f);
      MultisetWithout(Images(a, f), i);
      MultisetWithout(Images(b, f), k);
    }
  }

  predicate Distinct<T(==)>(s: seq<T>) {
    forall i, j :: 0 <= i < j < |s| ==> s[i] != s[j]
  }

  lemma OthersDiffer<T>(s: seq<T>, i: nat, k: nat)
    requires Distinct(s) && i < |s| && k < |s| - 1
    ensures Without(s, i)[k] != s[i]
  {
  }

  lemma WithoutAt<T>(s: seq<T>, i: nat, j: nat)
    requires i < j < |s|
    ensures Without(s, i)[j - 1] == s[j]
  {
  }

  lemma OthersPermuted<T>(a: seq<T>, b: seq<T>, i: nat, k: nat)
    requires multiset(a) == multiset(b) && i < |a| && k < |b| && a[i] == b[k]
    ensures multiset(Without(a, i)) == multiset(Without(b, k))
  {
    hide Without;
    MultisetWithout(a, i);
    MultisetWithout(b, k);
  }

  /** Two elements of a permutation of a sequence without repetitions differ. */
  lemma PairDiffers<T>(a: seq<T>, b: seq<T>, i: nat, j: nat)
    requires multiset(a) == multiset(b) && Distinct(a) && i < j < |b|
    ensures b[i] != b[j]
  {
    hide *;
    var k := Elsewhere(b, a, i);
    OthersPermuted(b, a, i, k);
    WithoutAt(b, i, j);
    var m := Elsewhere(Without(b, i), Without(a, k), j - 1);
    OthersDiffer(a, k, m);
  }

  lemma DistinctUnordered<T>(a: seq<T>, b: seq<T>)
    requires multiset(a) == multiset(b) && Distinct(a)
    ensures Distinct(b)
  {
    forall i, j | 0 <= i < j < |b| ensures b[i] != b[j] {
      PairDiffers(a, b, i, j);
    }
  }
}
