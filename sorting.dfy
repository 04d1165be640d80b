/**
 * The stable sort that `Stream.sorted(comparator)` performs, for comparators
 * that compare one integer key. Java sorts object streams with a stable merge
 * sort, so elements with equal keys keep their encounter order; the model
 * sorts by insertion, which produces the same sequence.
 */
module Sorting {

  /** Keys never decrease from left to right. */
  ghost predicate SortedBy<T>(s: seq<T>, key: T -> int) {
    forall i, j :: 0 <= i < j < |s| ==> key(s[i]) <= key(s[j])
  }

  /** The elements of `s` whose key is `v`, in their order in `s`. */
  function WithKey<T>(s: seq<T>, key: T -> int, v: int): (r: seq<T>)
    ensures |r| <= |s|
  {
    if s == [] then []
    else (if key(s[0]) == v then [s[0]] else []) + WithKey(s[1..], key, v)
  }

  /** `x` placed in front of the first element of `s` whose key is not smaller. */
  function Insert<T>(x: T, s: seq<T>, key: T -> int): (r: seq<T>)
    ensures multiset(r) == multiset(s) + multiset{x}
    ensures SortedBy(s, key) ==> SortedBy(r, key)
  {
    if s == [] then [x]
    else if key(x) <= key(s[0]) then [x] + s
    else
      var rest := Insert(x, s[1..], key);
      assert s == [s[0]] + s[1..];
      SortedCons(s[0], x, s[1..], rest, key);
      [s[0]] + rest
  }

  /** Putting back the head of a sorted sequence in front of the insertion into its tail keeps it sorted. */
  lemma SortedCons<T>(h: T, x: T, t: seq<T>, rest: seq<T>, key: T -> int)
    requires multiset(rest) == multiset(t) + multiset{x}
    requires key(h) < key(x)
    requires SortedBy(t, key) ==> SortedBy(rest, key)
    ensures SortedBy([h] + t, key) ==> SortedBy([h] + rest, key)
  {
    if SortedBy([h] + t, key) {
      assert SortedBy(t, key) by {
        forall i, j | 0 <= i < j < |t| ensures key(t[i]) <= key(t[j]) {
          assert t[i] == ([h] + t)[i + 1] && t[j] == ([h] + t)[j + 1];
        }
      }
      forall j | 0 <= j < |rest| ensures key(h) <= key(rest[j]) {
        assert rest[j] in multiset(rest);
        if rest[j] != x {
          assert rest[j] in multiset(t);
          var k :| 0 <= k < |t| && t[k] == rest[j];
          assert ([h] + t)[0] == h && ([h] + t)[k + 1] == rest[j];
        }
      }
      forall i, j | 0 <= i < j < |rest| + 1
        ensures key(([h] + rest)[i]) <= key(([h] + rest)[j])
      {
        assert ([h] + rest)[j] == rest[j - 1];
        if i > 0 {
          assert ([h] + rest)[i] == rest[i - 1];
        }
      }
    }
  }

  /** Sorts `s` by ascending key, keeping equal keys in encounter order. */
  function SortByKey<T>(s: seq<T>, key: T -> int): (r: seq<T>)
    ensures multiset(r) == multiset(s)
    ensures |r| == |s|
    ensures SortedBy(r, key)
  {
    if s == [] then []
    else
      assert s == [s[0]] + s[1..];
      Insert(s[0], SortByKey(s[1..], key), key)
  }

  lemma {:induction false} InsertStable<T>(x: T, s: seq<T>, key: T -> int, v: int)
    ensures WithKey(Insert(x, s, key), key, v)
         == (if key(x) == v then [x] else []) + WithKey(s, key, v)
  {
    if s == [] {
    } else if key(x) <= key(s[0]) {
      assert ([x] + s)[1..] == s;
    } else {
      var rest := Insert(x, s[1..], key);
      assert ([s[0]] + rest)[1..] == rest;
      InsertStable(x, s[1..], key, v);
      if key(x) == v {
        assert key(s[0]) != v;
      }
    }
  }

  /**
   * Sorting is stable: for every key value, the elements carrying it appear in
   * the output in the same order as in the input.
   */
  lemma {:induction false} SortStable<T>(s: seq<T>, key: T -> int, v: int)
    ensures WithKey(SortByKey(s, key), key, v) == WithKey(s, key, v)
  {
    if s != [] {
      SortStable(s[1..], key, v);
      InsertStable(s[0], SortByKey(s[1..], key), key, v);
    }
  }

  /** In a sorted sequence no element after position `k` has a smaller key than one before it. */
  lemma PrefixKeysBelowSuffix<T>(s: seq<T>, key: T -> int, k: nat)
    requires SortedBy(s, key) && k <= |s|
    ensures forall x, y :: x in s[..k] && y in s[k..] ==> key(x) <= key(y)
  {
    forall x, y | x in s[..k] && y in s[k..] ensures key(x) <= key(y) {
      var i :| 0 <= i < k && s[..k][i] == x;
      var j :| 0 <= j < |s| - k && s[k..][j] == y;
      assert s[i] == x && s[k + j] == y;
    }
  }
}
