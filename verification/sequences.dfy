/** Order-preserving filters, maps and searches over sequences, and the subsequence relation filters produce. */
module Sequences {
  import opened Wrappers

  /** `a` can be obtained from `b` by deleting elements (order is kept). */
  ghost predicate IsSubsequence<T>(a: seq<T>, b: seq<T>)
    decreases |b|
  {
    |a| == 0 || (|b| > 0 && ((a[0] == b[0] && IsSubsequence(a[1..], b[1..])) || IsSubsequence(a, b[1..])))
  }

  /** `Array.prototype.filter`: the elements of `xs` that satisfy `p`, in their original order. */
  function Filter<T(!new)>(xs: seq<T>, p: T -> bool): (r: seq<T>)
    ensures |r| <= |xs|
    ensures forall x :: x in r <==> x in xs && p(x)
    ensures forall x :: multiset(r)[x] == if p(x) then multiset(xs)[x] else 0
    ensures IsSubsequence(r, xs)
    decreases |xs|
  {
    if |xs| == 0 then []
    else
      var rest := Filter(xs[1..], p);
      assert xs == [xs[0]] + xs[1..];
      assert multiset(xs) == multiset{xs[0]} + multiset(xs[1..]);
      if p(xs[0]) then
        var r := [xs[0]] + rest;
        assert r[1..] == rest;
        r
      else rest
  }

  /** Every element satisfies the predicate exactly when the filter keeps everything. */
  lemma FilterKeepsAll<T(!new)>(xs: seq<T>, p: T -> bool)
    ensures (forall i :: 0 <= i < |xs| ==> p(xs[i])) <==> Filter(xs, p) == xs
  {
    if Filter(xs, p) == xs {
      forall i | 0 <= i < |xs| ensures p(xs[i]) {
        assert xs[i] in Filter(xs, p);
      }
    }
    if forall i :: 0 <= i < |xs| ==> p(xs[i]) {
      FilterAll(xs, p);
    }
  }

  lemma {:induction false} FilterAll<T(!new)>(xs: seq<T>, p: T -> bool)
    requires forall i :: 0 <= i < |xs| ==> p(xs[i])
    ensures Filter(xs, p) == xs
    decreases |xs|
  {
    if |xs| > 0 {
      assert forall i :: 0 <= i < |xs[1..]| ==> p(xs[1..][i]) by {
        forall i | 0 <= i < |xs[1..]| ensures p(xs[1..][i]) { assert xs[1..][i] == xs[i + 1]; }
      }
      FilterAll(xs[1..], p);
      assert xs == [xs[0]] + xs[1..];
    }
  }

  /** Filtering twice by the same predicate is filtering once. */
  lemma {:induction false} FilterIdempotent<T(!new)>(xs: seq<T>, p: T -> bool)
    ensures Filter(Filter(xs, p), p) == Filter(xs, p)
  {
    var r := Filter(xs, p);
    FilterKeepsAll(r, p);
    forall i | 0 <= i < |r| ensures p(r[i]) { assert r[i] in r; }
  }

  /** Two predicates that agree on every element of `xs` filter it identically. */
  lemma {:induction false} FilterCongruent<T(!new)>(xs: seq<T>, p: T -> bool, q: T -> bool)
    requires forall i :: 0 <= i < |xs| ==> p(xs[i]) == q(xs[i])
    ensures Filter(xs, p) == Filter(xs, q)
    decreases |xs|
  {
    if |xs| > 0 {
      assert p(xs[0]) == q(xs[0]);
      assert forall i :: 0 <= i < |xs[1..]| ==> p(xs[1..][i]) == q(xs[1..][i]) by {
        forall i | 0 <= i < |xs[1..]| ensures p(xs[1..][i]) == q(xs[1..][i]) { assert xs[1..][i] == xs[i + 1]; }
      }
      FilterCongruent(xs[1..], p, q);
    }
  }

  /** The elements kept and the elements dropped together account for the whole sequence. */
  lemma {:induction false} FilterPartition<T(!new)>(xs: seq<T>, p: T -> bool, q: T -> bool)
    requires forall i :: 0 <= i < |xs| ==> q(xs[i]) == !p(xs[i])
    ensures |Filter(xs, p)| + |Filter(xs, q)| == |xs|
    decreases |xs|
  {
    if |xs| > 0 {
      assert forall i :: 0 <= i < |xs[1..]| ==> xs[1..][i] == xs[i + 1];
      FilterPartition(xs[1..], p, q);
    }
  }

  /** A filter that drops nothing kept every element because each satisfies the predicate. */
  lemma {:induction false} FilterFullLength<T(!new)>(xs: seq<T>, p: T -> bool)
    requires |Filter(xs, p)| == |xs|
    ensures forall i :: 0 <= i < |xs| ==> p(xs[i])
    decreases |xs|
  {
    if |xs| > 0 {
      FilterFullLength(xs[1..], p);
      forall i | 0 <= i < |xs| ensures p(xs[i]) {
        if i > 0 { assert xs[i] == xs[1..][i - 1]; }
      }
    }
  }

  /** Filtering by `p` and then by `q` is filtering once by their conjunction. */
  lemma {:induction false} FilterThenFilter<T(!new)>(xs: seq<T>, p: T -> bool, q: T -> bool, both: T -> bool)
    requires forall i :: 0 <= i < |xs| ==> both(xs[i]) == (p(xs[i]) && q(xs[i]))
    ensures Filter(Filter(xs, p), q) == Filter(xs, both)
    decreases |xs|
  {
    if |xs| > 0 {
      assert forall i :: 0 <= i < |xs[1..]| ==> xs[1..][i] == xs[i + 1];
      FilterThenFilter(xs[1..], p, q, both);
    }
  }

  /** A filter that no element satisfies keeps nothing. */
  lemma FilterKeepsNone<T(!new)>(xs: seq<T>, p: T -> bool)
    requires forall i :: 0 <= i < |xs| ==> !p(xs[i])
    ensures Filter(xs, p) == []
  {
  }

  /** `Array.prototype.map`. */
  function Map<T, U>(xs: seq<T>, f: T -> U): (r: seq<U>)
    ensures |r| == |xs|
    ensures forall i :: 0 <= i < |xs| ==> r[i] == f(xs[i])
  {
    if |xs| == 0 then [] else [f(xs[0])] + Map(xs[1..], f)
  }

  /** Filtering after a map is mapping after the filter, when the map does not change the predicate's answer. */
  lemma {:induction false} FilterMapCommute<T(!new), U(!new)>(xs: seq<T>, f: T -> U, p: U -> bool, q: T -> bool)
    requires forall i :: 0 <= i < |xs| ==> p(f(xs[i])) == q(xs[i])
    ensures Filter(Map(xs, f), p) == Map(Filter(xs, q), f)
    decreases |xs|
  {
    if |xs| > 0 {
      assert Map(xs, f)[1..] == Map(xs[1..], f);
      assert forall i :: 0 <= i < |xs[1..]| ==> p(f(xs[1..][i])) == q(xs[1..][i]) by {
        forall i | 0 <= i < |xs[1..]| ensures p(f(xs[1..][i])) == q(xs[1..][i]) { assert xs[1..][i] == xs[i + 1]; }
      }
      FilterMapCommute(xs[1..], f, p, q);
    }
  }

  /** Two filters may be applied in either order. */
  lemma {:induction false} FilterFilterCommute<T(!new)>(xs: seq<T>, p: T -> bool, q: T -> bool)
    ensures Filter(Filter(xs, p), q) == Filter(Filter(xs, q), p)
    decreases |xs|
  {
    if |xs| > 0 {
      FilterFilterCommute(xs[1..], p, q);
    }
  }

  /** Filtering distributes over concatenation. */
  lemma {:induction false} FilterAppend<T(!new)>(xs: seq<T>, ys: seq<T>, p: T -> bool)
    ensures Filter(xs + ys, p) == Filter(xs, p) + Filter(ys, p)
    decreases |xs|
  {
    if |xs| == 0 {
      assert xs + ys == ys;
    } else {
      assert (xs + ys)[1..] == xs[1..] + ys;
      FilterAppend(xs[1..], ys, p);
    }
  }

  /** The positions below `n` whose element satisfies `p`. */
  ghost function MatchingIndices<T>(xs: seq<T>, p: T -> bool, n: nat): set<nat>
    requires n <= |xs|
  {
    set k: nat | k < n && p(xs[k])
  }

  lemma MatchingIndicesStep<T>(xs: seq<T>, p: T -> bool, n: nat)
    requires 0 < n <= |xs|
    ensures MatchingIndices(xs, p, n) == MatchingIndices(xs, p, n - 1) + (if p(xs[n - 1]) then {n - 1} else {})
  {
  }

  /** How many of the first `n` elements satisfy `p`, counted from the back. */
  ghost function CountUpTo<T>(xs: seq<T>, p: T -> bool, n: nat): nat
    requires n <= |xs|
  {
    if n == 0 then 0 else CountUpTo(xs, p, n - 1) + if p(xs[n - 1]) then 1 else 0
  }

  /** The positions counted are the matching positions. */
  lemma {:induction false} MatchingIndicesCount<T>(xs: seq<T>, p: T -> bool, n: nat)
    requires n <= |xs|
    ensures |MatchingIndices(xs, p, n)| == CountUpTo(xs, p, n)
    decreases n
  {
    if n == 0 {
      assert MatchingIndices(xs, p, n) == {};
    } else {
      MatchingIndicesCount(xs, p, n - 1);
      MatchingIndicesStep(xs, p, n);
      assert n - 1 !in MatchingIndices(xs, p, n - 1);
    }
  }

  /** Counting the first `n + 1` elements is counting the head and then the first `n` of the tail. */
  lemma {:induction false} CountUpToHead<T>(xs: seq<T>, p: T -> bool, n: nat)
    requires n < |xs|
    ensures CountUpTo(xs, p, n + 1) == (if p(xs[0]) then 1 else 0) + CountUpTo(xs[1..], p, n)
    decreases n
  {
    if n > 0 {
      CountUpToHead(xs, p, n - 1);
      assert xs[1..][n - 1] == xs[n];
    }
  }

  /** A filter keeps as many elements as it counts. */
  lemma {:induction false} FilterLengthIsCount<T(!new)>(xs: seq<T>, p: T -> bool)
    ensures |Filter(xs, p)| == CountUpTo(xs, p, |xs|)
    decreases |xs|
  {
    if |xs| > 0 {
      FilterLengthIsCount(xs[1..], p);
      CountUpToHead(xs, p, |xs| - 1);
      FilterHeadLength(xs, p);
    }
  }

  lemma FilterHeadLength<T(!new)>(xs: seq<T>, p: T -> bool)
    requires |xs| > 0
    ensures |Filter(xs, p)| == (if p(xs[0]) then 1 else 0) + |Filter(xs[1..], p)|
  {
  }

  /** A filter keeps as many elements as there are positions whose element satisfies the predicate. */
  lemma FilterLengthCountsIndices<T(!new)>(xs: seq<T>, p: T -> bool)
    ensures |Filter(xs, p)| == |MatchingIndices(xs, p, |xs|)|
  {
    FilterLengthIsCount(xs, p);
    MatchingIndicesCount(xs, p, |xs|);
  }

  /** A one-element set is the singleton of any of its members. */
  lemma SingletonOfSizeOne(s: set<nat>, k: nat)
    requires k in s && |s| == 1
    ensures s == {k}
  {
    assert |s - {k}| == 0;
  }

  /** Position `k` is the only one whose element satisfies `p`. */
  predicate OnlyMatchAt<T>(xs: seq<T>, p: T -> bool, k: int) {
    0 <= k < |xs| && p(xs[k]) && forall j :: 0 <= j < |xs| && p(xs[j]) ==> j == k
  }

  /** A filter that keeps one element keeps the element of the only matching position. */
  lemma FilterOfOneHasOnlyMatch<T(!new)>(xs: seq<T>, p: T -> bool)
    requires |Filter(xs, p)| == 1
    ensures exists k :: OnlyMatchAt(xs, p, k) && Filter(xs, p) == [xs[k]]
  {
    var c := Filter(xs, p)[0];
    FilterOfOneElement(xs, p);
    InHasIndex(xs, c);
    var k :| 0 <= k < |xs| && xs[k] == c;
    var hits := MatchingIndices(xs, p, |xs|);
    FilterLengthCountsIndices(xs, p);
    SingletonOfSizeOne(hits, k);
    assert OnlyMatchAt(xs, p, k);
  }

  /** The one element a filter keeps is an element of the sequence that satisfies the predicate. */
  lemma FilterOfOneElement<T(!new)>(xs: seq<T>, p: T -> bool)
    requires |Filter(xs, p)| == 1
    ensures Filter(xs, p)[0] in xs && p(Filter(xs, p)[0])
    ensures Filter(xs, p) == [Filter(xs, p)[0]]
  {
    assert Filter(xs, p)[0] in Filter(xs, p);
  }

  lemma InHasIndex<T>(xs: seq<T>, x: T)
    requires x in xs
    ensures exists k :: 0 <= k < |xs| && xs[k] == x
  {
  }

  /** When exactly one position matches, the filter keeps one element. */
  lemma OnlyMatchFiltersOne<T(!new)>(xs: seq<T>, p: T -> bool, k: int)
    requires OnlyMatchAt(xs, p, k)
    ensures |Filter(xs, p)| == 1
  {
    FilterLengthCountsIndices(xs, p);
    assert MatchingIndices(xs, p, |xs|) == {k};
  }

  /** A filter keeps exactly one element when exactly one position satisfies the predicate; it is that position's element. */
  lemma FilterSingleMatch<T(!new)>(xs: seq<T>, p: T -> bool)
    ensures |Filter(xs, p)| == 1 <==> exists k :: OnlyMatchAt(xs, p, k)
    ensures |Filter(xs, p)| == 1 ==> forall k :: OnlyMatchAt(xs, p, k) ==> Filter(xs, p) == [xs[k]]
  {
    if |Filter(xs, p)| == 1 {
      FilterOfOneHasOnlyMatch(xs, p);
    }
    if exists k :: OnlyMatchAt(xs, p, k) {
      var k :| OnlyMatchAt(xs, p, k);
      OnlyMatchFiltersOne(xs, p, k);
    }
  }

  /** Mapping distributes over concatenation. */
  lemma MapAppend<T, U>(xs: seq<T>, ys: seq<T>, f: T -> U)
    ensures Map(xs + ys, f) == Map(xs, f) + Map(ys, f)
  {
    assert forall i :: 0 <= i < |xs + ys| ==> Map(xs + ys, f)[i] == (Map(xs, f) + Map(ys, f))[i] by {
      forall i | 0 <= i < |xs + ys| ensures Map(xs + ys, f)[i] == (Map(xs, f) + Map(ys, f))[i] {
        if i < |xs| { assert (xs + ys)[i] == xs[i]; } else { assert (xs + ys)[i] == ys[i - |xs|]; }
      }
    }
  }

  /** `xs.find(p)`: the first element satisfying `p`, if any. */
  function FindFirst<T>(xs: seq<T>, p: T -> bool): (r: Option<T>)
    ensures r.None? <==> forall i :: 0 <= i < |xs| ==> !p(xs[i])
    ensures r.Some? ==> exists k :: 0 <= k < |xs| && xs[k] == r.value && p(xs[k]) && forall j :: 0 <= j < k ==> !p(xs[j])
    decreases |xs|
  {
    if |xs| == 0 then None
    else if p(xs[0]) then Some(xs[0])
    else
      var r := FindFirst(xs[1..], p);
      assert r.None? ==> forall i :: 0 <= i < |xs| ==> !p(xs[i]) by {
        if r.None? {
          forall i | 0 <= i < |xs| ensures !p(xs[i]) {
            if i > 0 { assert xs[i] == xs[1..][i - 1]; }
          }
        }
      }
      assert r.Some? ==> exists k :: 0 <= k < |xs| && xs[k] == r.value && p(xs[k]) && forall j :: 0 <= j < k ==> !p(xs[j]) by {
        if r.Some? {
          var k :| 0 <= k < |xs[1..]| && xs[1..][k] == r.value && p(xs[1..][k]) && forall j :: 0 <= j < k ==> !p(xs[1..][j]);
          assert xs[k + 1] == r.value;
          forall j | 0 <= j < k + 1 ensures !p(xs[j]) {
            if j > 0 { assert xs[j] == xs[1..][j - 1]; }
          }
        }
      }
      r
  }
}
