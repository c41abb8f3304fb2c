/**
 The stable sort of Rust's standard library, by a byte-string key. Only what it returns matters
 here, so it is an insertion sort.
 */
module Sorting {
  import opened Bytes
  import opened Orders

  function Insert<T>(key: T -> Bytes, x: T, s: seq<T>): seq<T> {
    if s == [] || Compare(key(x), key(s[0])) != Greater then [x] + s else [s[0]] + Insert(key, x, s[1..])
  }

  function SortBy<T>(key: T -> Bytes, xs: seq<T>): seq<T> {
    if xs == [] then [] else Insert(key, xs[0], SortBy(key, xs[1..]))
  }

  ghost predicate Sorted<T>(key: T -> Bytes, s: seq<T>) {
    forall i, j :: 0 <= i < j < |s| ==> Compare(key(s[i]), key(s[j])) != Greater
  }

  lemma {:induction false} InsertSorted<T>(key: T -> Bytes, x: T, s: seq<T>)
    requires Sorted(key, s)
    ensures Sorted(key, Insert(key, x, s))
    ensures multiset(Insert(key, x, s)) == multiset{x} + multiset(s)
  {
    if s == [] {
    } else if Compare(key(x), key(s[0])) != Greater {
      forall j | 0 <= j < |s|
        ensures Compare(key(x), key(s[j])) != Greater
      {
        if j > 0 {
          CompareTransitive(key(x), key(s[0]), key(s[j]));
        }
      }
    } else {
      InsertSorted(key, x, s[1..]);
      var t := Insert(key, x, s[1..]);
      assert s == [s[0]] + s[1..];
      CompareReverse(key(x), key(s[0]));
      forall j | 0 <= j < |t|
        ensures Compare(key(s[0]), key(t[j])) != Greater
      {
        assert t[j] in multiset(t);
        if t[j] != x {
          assert t[j] in s[1..];
        }
      }
    }
  }

  /** The result is sorted by the key and a permutation of the argument. */
  lemma {:induction false} SortBySorts<T>(key: T -> Bytes, xs: seq<T>)
    ensures Sorted(key, SortBy(key, xs))
    ensures multiset(SortBy(key, xs)) == multiset(xs)
  {
    if xs != [] {
      SortBySorts(key, xs[1..]);
      InsertSorted(key, xs[0], SortBy(key, xs[1..]));
      assert xs == [xs[0]] + xs[1..];
    }
  }

  /** Where the key tells the elements apart, a multiset has one sorted arrangement. */
  lemma {:induction false} SortedUnique<T>(key: T -> Bytes, a: seq<T>, b: seq<T>)
    requires Sorted(key, a) && Sorted(key, b) && multiset(a) == multiset(b)
    requires forall x, y :: x in a && y in a && key(x) == key(y) ==> x == y
    ensures a == b
  {
    if a == [] {
      assert multiset(b) == multiset{};
      assert b == [];
    } else {
      assert |b| == |multiset(b)| == |multiset(a)| == |a|;
      HeadsAgree(key, a, b);
      TailMultiset(a);
      TailMultiset(b);
      SortedUnique(key, a[1..], b[1..]);
    }
  }

  lemma TailMultiset<T>(a: seq<T>)
    requires a != []
    ensures a == [a[0]] + a[1..] && multiset(a[1..]) == multiset(a) - multiset{a[0]}
  {
    assert a == [a[0]] + a[1..];
  }

  lemma HeadsAgree<T>(key: T -> Bytes, a: seq<T>, b: seq<T>)
    requires Sorted(key, a) && Sorted(key, b) && multiset(a) == multiset(b) && a != [] && b != []
    requires forall x, y :: x in a && y in a && key(x) == key(y) ==> x == y
    ensures a[0] == b[0]
  {
    assert a[0] in multiset(b) && b[0] in multiset(a);
    var i :| 0 <= i < |b| && b[i] == a[0];
    var j :| 0 <= j < |a| && a[j] == b[0];
    CompareEqual(key(a[0]), key(b[0]));
    CompareReverse(key(a[0]), key(b[0]));
  }

  /** Permuted arguments sort alike where the key tells their elements apart. */
  lemma SortAlike<T>(key: T -> Bytes, xs: seq<T>, ys: seq<T>)
    requires multiset(xs) == multiset(ys)
    requires forall x, y :: x in xs && y in xs && key(x) == key(y) ==> x == y
    ensures SortBy(key, xs) == SortBy(key, ys)
  {
    SortBySorts(key, xs);
    SortBySorts(key, ys);
    var s := SortBy(key, xs);
    forall x | x in s
      ensures x in xs
    {
      assert x in multiset(s);
    }
    SortedUnique(key, s, SortBy(key, ys));
  }

  /** Sorting leaves a sorted list as it is. */
  lemma {:induction false} SortByFixes<T>(key: T -> Bytes, s: seq<T>)
    requires Sorted(key, s)
    ensures SortBy(key, s) == s
  {
    if s != [] {
      SortByFixes(key, s[1..]);
      assert s == [s[0]] + s[1..];
    }
  }

  /** The elements with one key, in their order. */
  function WithKey<T>(key: T -> Bytes, k: Bytes, xs: seq<T>): seq<T> {
    if xs == [] then [] else (if key(xs[0]) == k then [xs[0]] else []) + WithKey(key, k, xs[1..])
  }

  lemma WithKeyCons<T>(key: T -> Bytes, k: Bytes, x: T, s: seq<T>)
    ensures WithKey(key, k, [x] + s) == if key(x) == k then [x] + WithKey(key, k, s) else WithKey(key, k, s)
  {
    assert ([x] + s)[1..] == s;
  }

  lemma {:induction false} InsertStable<T>(key: T -> Bytes, k: Bytes, x: T, s: seq<T>)
    ensures WithKey(key, k, Insert(key, x, s))
         == if key(x) == k then [x] + WithKey(key, k, s) else WithKey(key, k, s)
  {
    if s == [] || Compare(key(x), key(s[0])) != Greater {
      WithKeyCons(key, k, x, s);
    } else {
      CompareEqual(key(x), key(s[0]));
      InsertStable(key, k, x, s[1..]);
      WithKeyCons(key, k, s[0], Insert(key, x, s[1..]));
      WithKeyCons(key, k, s[0], s[1..]);
      assert s == [s[0]] + s[1..];
    }
  }

  /** Elements with equal keys keep their order. */
  lemma {:induction false} SortByStable<T>(key: T -> Bytes, k: Bytes, xs: seq<T>)
    ensures WithKey(key, k, SortBy(key, xs)) == WithKey(key, k, xs)
  {
    if xs != [] {
      SortByStable(key, k, xs[1..]);
      WithKeyCons(key, k, xs[0], xs[1..]);
      assert xs == [xs[0]] + xs[1..];
      InsertStable(key, k, xs[0], SortBy(key, xs[1..]));
    }
  }

  lemma {:induction false} WithKeyFinds<T>(key: T -> Bytes, k: Bytes, s: seq<T>)
    ensures WithKey(key, k, s) != [] <==> exists i :: 0 <= i < |s| && key(s[i]) == k
  {
    if s != [] {
      WithKeyFinds(key, k, s[1..]);
      if WithKey(key, k, s[1..]) != [] {
        var i :| 0 <= i < |s[1..]| && key(s[1..][i]) == k;
        assert key(s[i + 1]) == k;
      } else if exists i :: 0 <= i < |s| && key(s[i]) == k {
        var i :| 0 <= i < |s| && key(s[i]) == k;
        assert i > 0 ==> key(s[1..][i - 1]) == k;
      }
    }
  }

  lemma WithKeyTail<T>(key: T -> Bytes, k: Bytes, s: seq<T>)
    requires s != []
    ensures WithKey(key, k, s[1..]) == if key(s[0]) == k then WithKey(key, k, s)[1..] else WithKey(key, k, s)
  {
  }

  /** Both lists have the same elements with each key, in the same order. */
  ghost predicate SameClasses<T(!new)>(key: T -> Bytes, xs: seq<T>, ys: seq<T>) {
    forall k :: WithKey(key, k, xs) == WithKey(key, k, ys)
  }

  lemma SmallestKeys<T>(key: T -> Bytes, a: seq<T>, b: seq<T>)
    requires Sorted(key, b) && a != [] && b != []
    requires WithKey(key, key(a[0]), a) == WithKey(key, key(a[0]), b)
    ensures Compare(key(b[0]), key(a[0])) != Greater
  {
    WithKeyFinds(key, key(a[0]), b);
    var j :| 0 <= j < |b| && key(b[j]) == key(a[0]);
    CompareEqual(key(b[0]), key(b[j]));
  }

  lemma OneEmpty<T(!new)>(key: T -> Bytes, a: seq<T>, b: seq<T>)
    requires SameClasses(key, a, b)
    ensures a != [] ==> b != []
  {
    if a != [] {
      assert WithKey(key, key(a[0]), a) == WithKey(key, key(a[0]), b);
    }
  }

  /** A sorted list is determined by its elements with each key. */
  lemma {:induction false} ClassesDetermine<T(!new)>(key: T -> Bytes, a: seq<T>, b: seq<T>)
    requires Sorted(key, a) && Sorted(key, b) && SameClasses(key, a, b)
    ensures a == b
  {
    OneEmpty(key, a, b);
    OneEmpty(key, b, a);
    if a != [] {
      assert WithKey(key, key(a[0]), a) == WithKey(key, key(a[0]), b);
      assert WithKey(key, key(b[0]), a) == WithKey(key, key(b[0]), b);
      SmallestKeys(key, a, b);
      SmallestKeys(key, b, a);
      CompareReverse(key(a[0]), key(b[0]));
      CompareEqual(key(a[0]), key(b[0]));
      var k := key(a[0]);
      assert key(b[0]) == k;
      assert WithKey(key, k, a) == [a[0]] + WithKey(key, k, a[1..]);
      assert WithKey(key, k, b) == [b[0]] + WithKey(key, k, b[1..]);
      assert a[0] == WithKey(key, k, a)[0] == b[0];
      forall l
        ensures WithKey(key, l, a[1..]) == WithKey(key, l, b[1..])
      {
        assert WithKey(key, l, a) == WithKey(key, l, b);
        WithKeyTail(key, l, a);
        WithKeyTail(key, l, b);
      }
      ClassesDetermine(key, a[1..], b[1..]);
      assert a == [a[0]] + a[1..] && b == [b[0]] + b[1..];
    }
  }

  /** Two lists sort alike exactly if they have the same elements with each key, in the same order. */
  lemma SortAlikeIff<T(!new)>(key: T -> Bytes, xs: seq<T>, ys: seq<T>)
    ensures SortBy(key, xs) == SortBy(key, ys) <==> SameClasses(key, xs, ys)
  {
    var a, b := SortBy(key, xs), SortBy(key, ys);
    forall k
      ensures WithKey(key, k, a) == WithKey(key, k, xs) && WithKey(key, k, b) == WithKey(key, k, ys)
    {
      SortByStable(key, k, xs);
      SortByStable(key, k, ys);
    }
    if SameClasses(key, xs, ys) {
      SortBySorts(key, xs);
      SortBySorts(key, ys);
      forall k
        ensures WithKey(key, k, a) == WithKey(key, k, b)
      {
        assert WithKey(key, k, xs) == WithKey(key, k, ys);
      }
      ClassesDetermine(key, a, b);
    } else {
      var k :| WithKey(key, k, xs) != WithKey(key, k, ys);
      assert WithKey(key, k, a) != WithKey(key, k, b);
    }
  }
}
