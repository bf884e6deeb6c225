/**
  Python's `sorted(items, key=key, reverse=descending)[:n]`: a stable sort by a
  numeric key, ascending or descending, followed by a slice. Python keeps the
  original order of items with equal keys in both directions.
 */
module Ranking {

  /** `a` may come before `b` in the sorted output. */
  predicate InOrder<T>(key: T -> real, descending: bool, a: T, b: T) {
    if descending then key(a) >= key(b) else key(a) <= key(b)
  }

  /** `a` must come before `b` in the sorted output. */
  predicate StrictlyBefore<T>(key: T -> real, descending: bool, a: T, b: T) {
    if descending then key(a) > key(b) else key(a) < key(b)
  }

  predicate Ordered<T>(key: T -> real, descending: bool, s: seq<T>) {
    forall i, j :: 0 <= i < j < |s| ==> InOrder(key, descending, s[i], s[j])
  }

  /** The items of `s` whose key is `k`, in their order in `s`. */
  function WithKey<T>(key: T -> real, k: real, s: seq<T>): seq<T> {
    if s == [] then []
    else (if key(s[0]) == k then [s[0]] else []) + WithKey(key, k, s[1..])
  }

  /** Places `x` before the first item of `s` that need not precede it. */
  function Insert<T>(key: T -> real, descending: bool, x: T, s: seq<T>): seq<T> {
    if s == [] || !StrictlyBefore(key, descending, s[0], x) then [x] + s
    else [s[0]] + Insert(key, descending, x, s[1..])
  }

  /** Insertion sort, inserting the head of `s` into the sorted tail. */
  function Sort<T>(key: T -> real, descending: bool, s: seq<T>): seq<T> {
    if s == [] then [] else Insert(key, descending, s[0], Sort(key, descending, s[1..]))
  }

  lemma {:induction false} InsertPermutes<T>(key: T -> real, descending: bool, x: T, s: seq<T>)
    ensures multiset(Insert(key, descending, x, s)) == multiset(s) + multiset{x}
    ensures |Insert(key, descending, x, s)| == |s| + 1
  {
    if s != [] && StrictlyBefore(key, descending, s[0], x) {
      InsertPermutes(key, descending, x, s[1..]);
      assert s == [s[0]] + s[1..];
    }
  }

  lemma {:induction false} InsertOrdered<T>(key: T -> real, descending: bool, x: T, s: seq<T>)
    requires Ordered(key, descending, s)
    ensures Ordered(key, descending, Insert(key, descending, x, s))
  {
    if s != [] && StrictlyBefore(key, descending, s[0], x) {
      var t := s[1..];
      InsertOrdered(key, descending, x, t);
      var r := Insert(key, descending, x, t);
      InsertPermutes(key, descending, x, t);
      forall j | 0 <= j < |r|
        ensures InOrder(key, descending, s[0], r[j])
      {
        assert r[j] in multiset(r);
        assert r[j] in multiset(t) || r[j] == x;
        if r[j] != x {
          var k :| 0 <= k < |t| && t[k] == r[j];
          assert s[k + 1] == r[j];
        }
      }
    }
  }

  lemma {:induction false} WithKeyConcat<T>(key: T -> real, k: real, a: seq<T>, b: seq<T>)
    ensures WithKey(key, k, a + b) == WithKey(key, k, a) + WithKey(key, k, b)
  {
    if a != [] {
      assert (a + b)[0] == a[0];
      assert (a + b)[1..] == a[1..] + b;
      WithKeyConcat(key, k, a[1..], b);
      var h := if key(a[0]) == k then [a[0]] else [];
      assert WithKey(key, k, a + b) == h + WithKey(key, k, a[1..] + b);
      assert WithKey(key, k, a) == h + WithKey(key, k, a[1..]);
    } else {
      assert a + b == b;
    }
  }

  lemma {:induction false} InsertWithKey<T>(key: T -> real, descending: bool, k: real, x: T, s: seq<T>)
    ensures WithKey(key, k, Insert(key, descending, x, s))
         == (if key(x) == k then [x] else []) + WithKey(key, k, s)
  {
    if s == [] || !StrictlyBefore(key, descending, s[0], x) {
      WithKeyConcat(key, k, [x], s);
    } else {
      var t := Insert(key, descending, x, s[1..]);
      var u := Insert(key, descending, x, s);
      assert u == [s[0]] + t;
      assert u[0] == s[0] && u[1..] == t;
      var h := if key(s[0]) == k then [s[0]] else [];
      assert WithKey(key, k, u) == h + WithKey(key, k, t);
      assert WithKey(key, k, s) == h + WithKey(key, k, s[1..]);
      InsertWithKey(key, descending, k, x, s[1..]);
      // s[0] is ranked strictly before x, so its key differs from x's
      assert key(s[0]) != key(x);
      if key(x) == k {
        assert h == [];
      }
    }
  }

  /** `Sort` is a stable sort: ordered, a permutation, and order-preserving on ties. */
  lemma {:induction false} SortCorrect<T>(key: T -> real, descending: bool, s: seq<T>)
    ensures |Sort(key, descending, s)| == |s|
    ensures Ordered(key, descending, Sort(key, descending, s))
    ensures multiset(Sort(key, descending, s)) == multiset(s)
    ensures forall k :: WithKey(key, k, Sort(key, descending, s)) == WithKey(key, k, s)
  {
    if s != [] {
      var t := Sort(key, descending, s[1..]);
      SortCorrect(key, descending, s[1..]);
      InsertOrdered(key, descending, s[0], t);
      InsertPermutes(key, descending, s[0], t);
      assert s == [s[0]] + s[1..];
      forall k ensures WithKey(key, k, Sort(key, descending, s)) == WithKey(key, k, s) {
        InsertWithKey(key, descending, k, s[0], t);
      }
    }
  }

  /** Filtering a prefix gives a prefix of the filtered sequence. */
  lemma {:induction false} WithKeyPrefix<T>(key: T -> real, k: real, s: seq<T>, n: nat)
    requires n <= |s|
    ensures WithKey(key, k, s[..n]) <= WithKey(key, k, s)
  {
    if n > 0 {
      WithKeyPrefix(key, k, s[1..], n - 1);
      assert s[..n][1..] == s[1..][..n - 1];
    }
  }

  function Min(a: nat, b: nat): nat {
    if a < b then a else b
  }

  /** The first `m` items of a stable sort of `s`, and what that prefix keeps of `s`. */
  lemma SortedPrefix<T>(key: T -> real, descending: bool, s: seq<T>, m: nat)
    requires m <= |s|
    ensures |Sort(key, descending, s)| == |s|
    ensures Ordered(key, descending, Sort(key, descending, s)[..m])
    ensures multiset(Sort(key, descending, s)[..m]) <= multiset(s)
    ensures forall k :: WithKey(key, k, Sort(key, descending, s)[..m]) <= WithKey(key, k, s)
    ensures forall i, y :: 0 <= i < m && y in multiset(s) - multiset(Sort(key, descending, s)[..m])
              ==> InOrder(key, descending, Sort(key, descending, s)[i], y)
  {
    var sorted := Sort(key, descending, s);
    SortCorrect(key, descending, s);
    assert sorted == sorted[..m] + sorted[m..];
    assert multiset(sorted) == multiset(sorted[..m]) + multiset(sorted[m..]);
    forall k ensures WithKey(key, k, sorted[..m]) <= WithKey(key, k, s) {
      WithKeyPrefix(key, k, sorted, m);
    }
    PrefixRanksFirst(key, descending, sorted, m);
  }

  /** In an ordered sequence, every item of a prefix ranks no lower than every item after it. */
  lemma PrefixRanksFirst<T>(key: T -> real, descending: bool, sorted: seq<T>, m: nat)
    requires m <= |sorted| && Ordered(key, descending, sorted)
    ensures forall i, y :: 0 <= i < m && y in multiset(sorted) - multiset(sorted[..m])
              ==> InOrder(key, descending, sorted[i], y)
  {
    assert sorted == sorted[..m] + sorted[m..];
    assert multiset(sorted) == multiset(sorted[..m]) + multiset(sorted[m..]);
    forall i, y | 0 <= i < m && y in multiset(sorted) - multiset(sorted[..m])
      ensures InOrder(key, descending, sorted[i], y)
    {
      assert y in multiset(sorted[m..]);
      var j :| m <= j < |sorted| && sorted[j] == y;
    }
  }

  /**
    `sorted(s, key=key, reverse=descending)[:n]`: the first `n` items in sorted
    order. Ties among the kept items are in their original order, and every
    item left out is ranked no higher than every item kept.
   */
  function TopN<T(==)>(key: T -> real, descending: bool, s: seq<T>, n: nat): (r: seq<T>)
    ensures |r| == Min(n, |s|)
    ensures Ordered(key, descending, r)
    ensures multiset(r) <= multiset(s)
    ensures forall k :: WithKey(key, k, r) <= WithKey(key, k, s)
    ensures forall i, y :: 0 <= i < |r| && y in multiset(s) - multiset(r) ==> InOrder(key, descending, r[i], y)
  {
    SortCorrect(key, descending, s);
    SortedPrefix(key, descending, s, Min(n, |s|));
    Sort(key, descending, s)[..Min(n, |s|)]
  }
}
