/** Python's `list.sort(key=...)` and `sorted(..., key=...)` for integer
    keys: a stable sort, modelled as insertion sort. */
module Sorting {

  predicate SortedBy<T>(s: seq<T>, key: T -> int) {
    forall i, j :: 0 <= i < j < |s| ==> key(s[i]) <= key(s[j])
  }

  /** Places x in front of the first element whose key is not smaller. */
  function InsertBy<T>(x: T, s: seq<T>, key: T -> int): seq<T> {
    if s == [] || key(x) <= key(s[0]) then [x] + s
    else [s[0]] + InsertBy(x, s[1..], key)
  }

  function SortBy<T>(s: seq<T>, key: T -> int): seq<T> {
    if s == [] then [] else InsertBy(s[0], SortBy(s[1..], key), key)
  }

  /** The elements whose key is k, in their order in s. */
  function WithKey<T>(s: seq<T>, key: T -> int, k: int): seq<T> {
    if s == [] then []
    else (if key(s[0]) == k then [s[0]] else []) + WithKey(s[1..], key, k)
  }

  lemma {:induction false} InsertByContents<T>(x: T, s: seq<T>, key: T -> int)
    ensures multiset(InsertBy(x, s, key)) == multiset([x] + s)
    ensures |InsertBy(x, s, key)| == |s| + 1
  {
    if s != [] && key(x) > key(s[0]) {
      InsertByContents(x, s[1..], key);
      assert s == [s[0]] + s[1..];
    }
  }

  /** A bound below x and below every element of s bounds the result. */
  lemma {:induction false} InsertByLowerBound<T>(x: T, s: seq<T>, key: T -> int, b: int)
    requires b <= key(x)
    requires forall i :: 0 <= i < |s| ==> b <= key(s[i])
    ensures forall i :: 0 <= i < |InsertBy(x, s, key)| ==> b <= key(InsertBy(x, s, key)[i])
  {
    if s != [] && key(x) > key(s[0]) {
      InsertByLowerBound(x, s[1..], key, b);
      var t := InsertBy(x, s[1..], key);
      assert InsertBy(x, s, key) == [s[0]] + t;
    }
  }

  lemma {:induction false} InsertBySorted<T>(x: T, s: seq<T>, key: T -> int)
    requires SortedBy(s, key)
    ensures SortedBy(InsertBy(x, s, key), key)
  {
    if s != [] && key(x) > key(s[0]) {
      InsertBySorted(x, s[1..], key);
      InsertByLowerBound(x, s[1..], key, key(s[0]));
      var t := InsertBy(x, s[1..], key);
      assert InsertBy(x, s, key) == [s[0]] + t;
    }
  }

  /** Inserting x before the first element with a key that is not smaller
      keeps every group of equal keys in order, with x at the front. */
  lemma {:induction false} InsertByWithKey<T>(x: T, s: seq<T>, key: T -> int, k: int)
    ensures WithKey(InsertBy(x, s, key), key, k) == (if key(x) == k then [x] else []) + WithKey(s, key, k)
  {
    var t := InsertBy(x, s, key);
    if s == [] || key(x) <= key(s[0]) {
      assert t[0] == x && t[1..] == s;
      assert WithKey(t, key, k) == (if key(x) == k then [x] else []) + WithKey(s, key, k);
    } else {
      var t' := InsertBy(x, s[1..], key);
      InsertByWithKey(x, s[1..], key, k);
      assert t[0] == s[0] && t[1..] == t';
      assert WithKey(t, key, k) == (if key(s[0]) == k then [s[0]] else []) + WithKey(t', key, k);
      assert WithKey(s, key, k) == (if key(s[0]) == k then [s[0]] else []) + WithKey(s[1..], key, k);
    }
  }

  lemma {:induction false} SortByCorrect<T>(s: seq<T>, key: T -> int)
    ensures SortedBy(SortBy(s, key), key)
    ensures multiset(SortBy(s, key)) == multiset(s)
    ensures |SortBy(s, key)| == |s|
  {
    if s != [] {
      SortByCorrect(s[1..], key);
      InsertBySorted(s[0], SortBy(s[1..], key), key);
      InsertByContents(s[0], SortBy(s[1..], key), key);
      assert s == [s[0]] + s[1..];
    }
  }

  /** Stability: elements with equal keys keep their relative order. */
  lemma {:induction false} SortByStable<T>(s: seq<T>, key: T -> int, k: int)
    ensures WithKey(SortBy(s, key), key, k) == WithKey(s, key, k)
  {
    if s != [] {
      SortByStable(s[1..], key, k);
      InsertByWithKey(s[0], SortBy(s[1..], key), key, k);
    }
  }

  /** The elements of the first n with key k are a prefix of those of s. */
  lemma {:induction false} WithKeyPrefix<T>(s: seq<T>, key: T -> int, k: int, n: nat)
    requires n <= |s|
    ensures WithKey(s, key, k) == WithKey(s[..n], key, k) + WithKey(s[n..], key, k)
  {
    if n > 0 {
      WithKeyPrefix(s[1..], key, k, n - 1);
      assert s[..n][0] == s[0] && s[..n][1..] == s[1..][..n - 1];
      assert s[1..][n - 1..] == s[n..];
    }
  }

  /** `s[:n]` */
  function Take<T>(s: seq<T>, n: nat): (r: seq<T>)
    ensures |r| == if |s| <= n then |s| else n
    ensures r == s[..|r|]
  {
    if |s| <= n then s else s[..n]
  }

  /** The first n of a stable sort: sorted, drawn from s, nothing left out
      has a smaller key, and equal keys keep their order in s. */
  lemma SortedFront<T>(s: seq<T>, key: T -> int, n: nat)
    ensures |Take(SortBy(s, key), n)| == if |s| <= n then |s| else n
    ensures SortedBy(Take(SortBy(s, key), n), key)
    ensures multiset(Take(SortBy(s, key), n)) <= multiset(s)
    ensures forall u, v ::
      (u in Take(SortBy(s, key), n) && v in s && v !in Take(SortBy(s, key), n)) ==> key(u) <= key(v)
    ensures forall k :: WithKey(Take(SortBy(s, key), n), key, k) <= WithKey(s, key, k)
  {
    var p := SortBy(s, key);
    var r := Take(p, n);
    SortByCorrect(s, key);
    FrontOfSorted(p, key, |r|);
    forall u, v | u in r && v in s && v !in r ensures key(u) <= key(v) {
      assert v in multiset(p);
      FrontBeforeRest(p, key, |r|, u, v);
    }
    forall k ensures WithKey(r, key, k) <= WithKey(s, key, k) {
      SortByStable(s, key, k);
      WithKeyPrefix(p, key, k, |r|);
    }
  }

  lemma FrontOfSorted<T>(p: seq<T>, key: T -> int, n: nat)
    requires SortedBy(p, key) && n <= |p|
    ensures SortedBy(p[..n], key)
    ensures multiset(p[..n]) <= multiset(p)
  {
    assert p == p[..n] + p[n..];
    assert multiset(p) == multiset(p[..n]) + multiset(p[n..]);
  }

  lemma FrontBeforeRest<T>(p: seq<T>, key: T -> int, n: nat, u: T, v: T)
    requires SortedBy(p, key) && n <= |p|
    requires u in p[..n] && v in p && v !in p[..n]
    ensures key(u) <= key(v)
  {
    var i :| 0 <= i < n && p[..n][i] == u;
    var j :| 0 <= j < |p| && p[j] == v;
    assert p[i] == u;
  }
}
