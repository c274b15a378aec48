/**
 * Stable ascending sort by an integer key: the behaviour ECMAScript 2019 and later
 * require of `Array.prototype.sort` with a consistent comparator `(a, b) => key(a) - key(b)`.
 */
module Sorting {

  /** Keys never decrease from left to right. */
  ghost predicate SortedBy<T>(s: seq<T>, key: T -> int) {
    forall i, j :: 0 <= i < j < |s| ==> key(s[i]) <= key(s[j])
  }

  /** The elements of `s` whose key is `k`, in their order in `s`. */
  function KeyClass<T>(s: seq<T>, key: T -> int, k: int): seq<T>
    decreases |s|
  {
    if |s| == 0 then []
    else if key(s[0]) == k then [s[0]] + KeyClass(s[1..], key, k)
    else KeyClass(s[1..], key, k)
  }

  /**
   * A sort is stable when every group of equal-key elements keeps its original order,
   * i.e. each key class is the same sequence before and after.
   */
  ghost predicate StablePermutation<T>(r: seq<T>, xs: seq<T>, key: T -> int) {
    && multiset(r) == multiset(xs)
    && forall k :: KeyClass(r, key, k) == KeyClass(xs, key, k)
  }

  lemma {:induction false} KeyClassSnoc<T>(s: seq<T>, x: T, key: T -> int, k: int)
    ensures KeyClass(s + [x], key, k) == KeyClass(s, key, k) + (if key(x) == k then [x] else [])
    decreases |s|
  {
    if |s| > 0 {
      assert (s + [x])[1..] == s[1..] + [x];
      KeyClassSnoc(s[1..], x, key, k);
    } else {
      assert s + [x] == [x];
    }
  }

  /** Inserts `x` before the first element whose key is larger than its own. */
  function Insert<T>(s: seq<T>, x: T, key: T -> int): (r: seq<T>)
    ensures multiset(r) == multiset(s) + multiset{x}
    decreases |s|
  {
    if |s| == 0 then [x]
    else if key(x) < key(s[0]) then [x] + s
    else
      assert s == [s[0]] + s[1..];
      [s[0]] + Insert(s[1..], x, key)
  }

  /** Insertion into a sorted sequence keeps it sorted. */
  lemma {:induction false} InsertSorted<T>(s: seq<T>, x: T, key: T -> int)
    requires SortedBy(s, key)
    ensures SortedBy(Insert(s, x, key), key)
    decreases |s|
  {
    if |s| > 0 && key(x) >= key(s[0]) {
      var rest := Insert(s[1..], x, key);
      InsertSorted(s[1..], x, key);
      InsertBound(s[1..], x, key, key(s[0]));
      assert Insert(s, x, key) == [s[0]] + rest;
    }
  }

  /** A lower bound on every key survives the insertion of an element that also meets it. */
  lemma {:induction false} InsertBound<T>(s: seq<T>, x: T, key: T -> int, b: int)
    requires forall i :: 0 <= i < |s| ==> b <= key(s[i])
    requires b <= key(x)
    ensures forall i :: 0 <= i < |Insert(s, x, key)| ==> b <= key(Insert(s, x, key)[i])
    decreases |s|
  {
    if |s| > 0 && key(x) >= key(s[0]) {
      InsertBound(s[1..], x, key, b);
      assert Insert(s, x, key) == [s[0]] + Insert(s[1..], x, key);
    }
  }

  /** Insertion into a sorted sequence puts `x` last among the elements sharing its key. */
  lemma {:induction false} InsertKeyClass<T>(s: seq<T>, x: T, key: T -> int, k: int)
    requires SortedBy(s, key)
    ensures KeyClass(Insert(s, x, key), key, k) == KeyClass(s, key, k) + (if key(x) == k then [x] else [])
    decreases |s|
  {
    if |s| > 0 {
      var r := Insert(s, x, key);
      if key(x) < key(s[0]) {
        assert r[1..] == s;
        if key(x) == k {
          NoneBelowHead(s, key, k);
        }
      } else {
        InsertKeyClass(s[1..], x, key, k);
        assert r[0] == s[0] && r[1..] == Insert(s[1..], x, key);
      }
    }
  }

  /** The head of a sorted sequence has the least key of any of its elements. */
  lemma HeadKeyLeast<T>(s: seq<T>, key: T -> int, x: T)
    requires SortedBy(s, key) && x in s
    ensures key(s[0]) <= key(x)
  {
    var j :| 0 <= j < |s| && s[j] == x;
    if j > 0 {
      assert key(s[0]) <= key(s[j]);
    }
  }

  /** In a sorted sequence whose head key exceeds `k`, nothing has key `k`. */
  lemma {:induction false} NoneBelowHead<T>(s: seq<T>, key: T -> int, k: int)
    requires SortedBy(s, key)
    requires |s| > 0 && k < key(s[0])
    ensures KeyClass(s, key, k) == []
    decreases |s|
  {
    if |s| > 1 {
      NoneBelowHead(s[1..], key, k);
    }
  }

  /** Insertion sort: processes the elements left to right, so later equal-key elements land later. */
  function SortByKey<T>(xs: seq<T>, key: T -> int): (r: seq<T>)
    ensures SortedBy(r, key)
    ensures StablePermutation(r, xs, key)
    decreases |xs|
  {
    if |xs| == 0 then []
    else
      var init := xs[..|xs| - 1];
      var last := xs[|xs| - 1];
      assert xs == init + [last];
      var sorted := SortByKey(init, key);
      var r := Insert(sorted, last, key);
      InsertSorted(sorted, last, key);
      assert forall k :: KeyClass(r, key, k) == KeyClass(xs, key, k) by {
        forall k ensures KeyClass(r, key, k) == KeyClass(xs, key, k) {
          InsertKeyClass(sorted, last, key, k);
          KeyClassSnoc(init, last, key, k);
        }
      }
      r
  }
}
