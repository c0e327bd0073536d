/** std::stable_sort by an integer key: the contract of the library call, and what it determines. */
module StableSort {
  /** x goes behind every element whose key is not larger. */
  function Insert<T>(key: T -> int, x: T, s: seq<T>): (r: seq<T>)
    ensures |r| == |s| + 1
  {
    if s == [] || key(s[|s| - 1]) <= key(x) then s + [x] else Insert(key, x, s[..|s| - 1]) + [s[|s| - 1]]
  }

  function Sort<T>(key: T -> int, s: seq<T>): (r: seq<T>)
    ensures |r| == |s|
  {
    if s == [] then [] else Insert(key, s[|s| - 1], Sort(key, s[..|s| - 1]))
  }

  predicate Sorted<T>(key: T -> int, s: seq<T>) {
    forall i, j :: 0 <= i < j < |s| ==> key(s[i]) <= key(s[j])
  }

  /** The elements with key k, in their order. */
  function Bucket<T>(key: T -> int, s: seq<T>, k: int): seq<T> {
    if s == [] then []
    else Bucket(key, s[..|s| - 1], k) + if key(s[|s| - 1]) == k then [s[|s| - 1]] else []
  }

  lemma BucketSnoc<T>(key: T -> int, s: seq<T>, x: T, k: int)
    ensures Bucket(key, s + [x], k) == Bucket(key, s, k) + if key(x) == k then [x] else []
  {
    assert (s + [x])[..|s|] == s;
  }

  lemma {:induction false} InsertSorted<T>(key: T -> int, x: T, s: seq<T>)
    requires Sorted(key, s)
    ensures Sorted(key, Insert(key, x, s))
    ensures forall y :: y in Insert(key, x, s) ==> y == x || y in s
  {
    if s != [] && key(s[|s| - 1]) > key(x) {
      var t := s[..|s| - 1];
      InsertSorted(key, x, t);
      var r := Insert(key, x, t);
      forall i | 0 <= i < |r|
        ensures key(r[i]) <= key(s[|s| - 1])
      {
        assert r[i] in r;
      }
    }
  }

  lemma {:induction false} InsertBucket<T>(key: T -> int, x: T, s: seq<T>, k: int)
    requires Sorted(key, s)
    ensures Bucket(key, Insert(key, x, s), k) == Bucket(key, s + [x], k)
  {
    hide Bucket;
    if s != [] && key(s[|s| - 1]) > key(x) {
      var t, y := s[..|s| - 1], s[|s| - 1];
      assert s == t + [y];
      InsertBucket(key, x, t, k);
      BucketSnoc(key, Insert(key, x, t), y, k);
      BucketSnoc(key, t, x, k);
      BucketSnoc(key, t, y, k);
      BucketSnoc(key, s, x, k);
      assert key(x) != k || key(y) != k;
    }
  }

  /** The result is sorted, and elements with equal keys keep their order. */
  lemma {:induction false} SortMeaning<T>(key: T -> int, s: seq<T>)
    ensures Sorted(key, Sort(key, s))
    ensures forall k :: Bucket(key, Sort(key, s), k) == Bucket(key, s, k)
  {
    if s != [] {
      var t, x := s[..|s| - 1], s[|s| - 1];
      SortMeaning(key, t);
      InsertSorted(key, x, Sort(key, t));
      assert s == t + [x];
      forall k
        ensures Bucket(key, Sort(key, s), k) == Bucket(key, s, k)
      {
        InsertBucket(key, x, Sort(key, t), k);
        BucketSnoc(key, Sort(key, t), x, k);
        BucketSnoc(key, t, x, k);
      }
    }
  }

  lemma {:induction false} BucketMember<T>(key: T -> int, s: seq<T>, k: int, x: T)
    ensures x in Bucket(key, s, k) <==> x in s && key(x) == k
  {
    if s != [] {
      BucketMember(key, s[..|s| - 1], k, x);
      assert s == s[..|s| - 1] + [s[|s| - 1]];
    }
  }

  lemma LastKeys<T>(key: T -> int, xs: seq<T>, ys: seq<T>)
    requires Sorted(key, xs) && Sorted(key, ys) && xs != []
    requires forall k :: Bucket(key, xs, k) == Bucket(key, ys, k)
    ensures ys != [] && key(xs[|xs| - 1]) <= key(ys[|ys| - 1])
  {
    var x := xs[|xs| - 1];
    BucketMember(key, xs, key(x), x);
    BucketMember(key, ys, key(x), x);
    assert x in ys;
  }

  /** Two sorted sequences with the same buckets are equal. */
  lemma {:induction false} SortedDetermined<T>(key: T -> int, xs: seq<T>, ys: seq<T>)
    requires Sorted(key, xs) && Sorted(key, ys)
    requires forall k :: Bucket(key, xs, k) == Bucket(key, ys, k)
    ensures xs == ys
  {
    if xs != [] {
      LastKeys(key, xs, ys);
      LastKeys(key, ys, xs);
      var xt, x, yt, y := xs[..|xs| - 1], xs[|xs| - 1], ys[..|ys| - 1], ys[|ys| - 1];
      assert xs == xt + [x] && ys == yt + [y];
      forall k
        ensures Bucket(key, xt, k) == Bucket(key, yt, k) && x == y
      {
        BucketSnoc(key, xt, x, k);
        BucketSnoc(key, yt, y, k);
        BucketSnoc(key, xt, x, key(x));
        BucketSnoc(key, yt, y, key(x));
        assert (Bucket(key, xt, key(x)) + [x])[|Bucket(key, xs, key(x))| - 1] == x;
        assert (Bucket(key, yt, key(x)) + [y])[|Bucket(key, ys, key(x))| - 1] == y;
        SameInit(Bucket(key, xt, k), Bucket(key, yt, k), x, key(x) == k);
      }
      SortedDetermined(key, xt, yt);
    } else if ys != [] {
      LastKeys(key, ys, xs);
    }
  }

  lemma SameInit<T>(a: seq<T>, b: seq<T>, x: T, last: bool)
    requires a + (if last then [x] else []) == b + (if last then [x] else [])
    ensures a == b
  {
    if !last {
      assert a + [] == a && b + [] == b;
    } else {
      assert a == (a + [x])[..|a|] && b == (b + [x])[..|b|];
    }
  }

  ghost predicate SameBuckets<T>(key: T -> int, xs: seq<T>, ys: seq<T>) {
    forall k :: Bucket(key, xs, k) == Bucket(key, ys, k)
  }

  /** Sorting two lists gives the same result exactly when they have the same buckets. */
  lemma SortEqual<T>(key: T -> int, xs: seq<T>, ys: seq<T>)
    ensures Sort(key, xs) == Sort(key, ys) <==> SameBuckets(key, xs, ys)
  {
    SortMeaning(key, xs);
    SortMeaning(key, ys);
    hide Sort, Sorted, Bucket;
    if Sort(key, xs) == Sort(key, ys) {
      forall k
        ensures Bucket(key, xs, k) == Bucket(key, ys, k)
      {
        assert Bucket(key, Sort(key, xs), k) == Bucket(key, xs, k);
        assert Bucket(key, Sort(key, ys), k) == Bucket(key, ys, k);
      }
    } else if SameBuckets(key, xs, ys) {
      forall k
        ensures Bucket(key, Sort(key, xs), k) == Bucket(key, Sort(key, ys), k)
      {
        assert Bucket(key, xs, k) == Bucket(key, ys, k);
      }
      SortedDetermined(key, Sort(key, xs), Sort(key, ys));
    }
  }

  predicate DistinctKeys<T>(key: T -> int, s: seq<T>) {
    forall i, j :: 0 <= i < j < |s| ==> key(s[i]) != key(s[j])
  }

  /** With distinct keys, a bucket is empty or holds the one element with that key. */
  lemma {:induction false} BucketOfDistinct<T>(key: T -> int, s: seq<T>, k: int)
    requires DistinctKeys(key, s)
    ensures |Bucket(key, s, k)| <= 1
  {
    if s != [] {
      var t := s[..|s| - 1];
      BucketOfDistinct(key, t, k);
      var b := Bucket(key, t, k);
      if b != [] {
        BucketMember(key, t, k, b[0]);
        var i :| 0 <= i < |t| && t[i] == b[0];
        assert s[i] == t[i];
      }
    }
  }

  /** With distinct keys, only the elements matter, not their order. */
  lemma SortOfDistinct<T>(key: T -> int, xs: seq<T>, ys: seq<T>)
    requires DistinctKeys(key, xs) && DistinctKeys(key, ys)
    requires forall x :: x in xs <==> x in ys
    ensures Sort(key, xs) == Sort(key, ys)
  {
    forall k
      ensures Bucket(key, xs, k) == Bucket(key, ys, k)
    {
      var b, c := Bucket(key, xs, k), Bucket(key, ys, k);
      BucketOfDistinct(key, xs, k);
      BucketOfDistinct(key, ys, k);
      if b != [] {
        BucketMember(key, xs, k, b[0]);
        BucketMember(key, ys, k, b[0]);
      }
      if c != [] {
        BucketMember(key, xs, k, c[0]);
        BucketMember(key, ys, k, c[0]);
      }
    }
    SortEqual(key, xs, ys);
  }

  function Map<S, T>(f: S -> T, s: seq<S>): (r: seq<T>)
    ensures |r| == |s|
  {
    seq(|s|, i requires 0 <= i < |s| => f(s[i]))
  }

  lemma {:induction false} InsertMap<S, T>(key: S -> int, key': T -> int, f: S -> T, x: S, s: seq<S>)
    requires forall y :: key'(f(y)) == key(y)
    ensures Map(f, Insert(key, x, s)) == Insert(key', f(x), Map(f, s))
  {
    if s != [] {
      var t := s[..|s| - 1];
      assert Map(f, s)[..|s| - 1] == Map(f, t);
      if key(s[|s| - 1]) > key(x) {
        InsertMap(key, key', f, x, t);
      }
    }
  }

  /** Sorting commutes with a map that keeps the keys. */
  lemma {:induction false} SortMap<S, T>(key: S -> int, key': T -> int, f: S -> T, s: seq<S>)
    requires forall y :: key'(f(y)) == key(y)
    ensures Map(f, Sort(key, s)) == Sort(key', Map(f, s))
  {
    if s != [] {
      var t := s[..|s| - 1];
      assert Map(f, s)[..|s| - 1] == Map(f, t);
      SortMap(key, key', f, t);
      InsertMap(key, key', f, s[|s| - 1], Sort(key, t));
    }
  }

  lemma MapFive<S, T>(f: S -> T, xs: seq<S>, a: S, ys: seq<S>, b: S, zs: seq<S>)
    ensures Map(f, xs + [a] + ys + [b] + zs) == Map(f, xs) + [f(a)] + Map(f, ys) + [f(b)] + Map(f, zs)
  {
  }

  lemma {:induction false} BucketConcat<T>(key: T -> int, s: seq<T>, t: seq<T>, k: int)
    ensures Bucket(key, s + t, k) == Bucket(key, s, k) + Bucket(key, t, k)
  {
    if t == [] {
      assert s + t == s;
    } else {
      var u, x := t[..|t| - 1], t[|t| - 1];
      assert s + t == (s + u) + [x] && t == u + [x];
      BucketConcat(key, s, u, k);
      BucketSnoc(key, s + u, x, k);
      BucketSnoc(key, u, x, k);
    }
  }

  /** Two elements with key k keep their places between the others with that key. */
  lemma BucketFive<T>(key: T -> int, xs: seq<T>, a: T, ys: seq<T>, b: T, zs: seq<T>, k: int)
    requires key(a) == key(b) == k
    ensures Bucket(key, xs + [a] + ys + [b] + zs, k)
         == Bucket(key, xs, k) + [a] + Bucket(key, ys, k) + [b] + Bucket(key, zs, k)
  {
    hide Bucket;
    BucketConcat(key, xs + [a] + ys + [b], zs, k);
    BucketSnoc(key, xs + [a] + ys, b, k);
    BucketConcat(key, xs + [a], ys, k);
    BucketSnoc(key, xs, a, k);
  }
}
