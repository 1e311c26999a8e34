/** Ordering and truncation shared by the ranking endpoints:
    `arr.sort((a, b) => key(b) - key(a)).slice(0, n)`. */
module Ranking {

  /** Keys never increase along `s`. */
  predicate SortedDesc<T>(s: seq<T>, key: T -> int) {
    forall i, j :: 0 <= i < j < |s| ==> key(s[i]) >= key(s[j])
  }

  /** Every key in `s` is at most `b`. */
  predicate KeysAtMost<T>(s: seq<T>, key: T -> int, b: int) {
    forall i :: 0 <= i < |s| ==> key(s[i]) <= b
  }

  /** A bound on the keys of `s` and on `key(x)` bounds every rearrangement of `s + [x]`. */
  lemma BoundByMultiset<T>(r: seq<T>, s: seq<T>, x: T, key: T -> int, b: int)
    requires KeysAtMost(s, key, b) && key(x) <= b
    requires multiset(r) == multiset(s) + multiset{x}
    ensures KeysAtMost(r, key, b)
  {
    forall i | 0 <= i < |r| ensures key(r[i]) <= b {
      assert r[i] in multiset(r);
      if r[i] != x {
        assert r[i] in multiset(s);
        var k :| 0 <= k < |s| && s[k] == r[i];
      }
    }
  }

  /** Putting an element in front of a sorted sequence whose keys it bounds keeps it sorted. */
  lemma SortedCons<T>(x: T, s: seq<T>, key: T -> int)
    requires SortedDesc(s, key) && KeysAtMost(s, key, key(x))
    ensures SortedDesc([x] + s, key)
  {
    var r := [x] + s;
    forall i, j | 0 <= i < j < |r| ensures key(r[i]) >= key(r[j]) {
      assert r[j] == s[j - 1];
      if i > 0 {
        assert r[i] == s[i - 1];
      }
    }
  }

  /** The step of `InsertDesc` that keeps the head: `x` went into the tail. */
  lemma KeepHead<T>(x: T, s: seq<T>, rest: seq<T>, key: T -> int)
    requires SortedDesc(s, key) && s != [] && key(s[0]) > key(x)
    requires SortedDesc(rest, key) && multiset(rest) == multiset(s[1..]) + multiset{x}
    ensures SortedDesc([s[0]] + rest, key)
    ensures multiset([s[0]] + rest) == multiset(s) + multiset{x}
  {
    var tail := s[1..];
    assert s == [s[0]] + tail;
    assert KeysAtMost(tail, key, key(s[0])) by {
      forall i | 0 <= i < |tail| ensures key(tail[i]) <= key(s[0]) {
        assert tail[i] == s[i + 1];
      }
    }
    BoundByMultiset(rest, tail, x, key, key(s[0]));
    SortedCons(s[0], rest, key);
  }

  /** The step of `InsertDesc` that puts `x` in front. */
  lemma PutFirst<T>(x: T, s: seq<T>, key: T -> int)
    requires SortedDesc(s, key) && (s == [] || key(s[0]) <= key(x))
    ensures SortedDesc([x] + s, key)
  {
    assert KeysAtMost(s, key, key(x)) by {
      forall i | 0 <= i < |s| ensures key(s[i]) <= key(x) {
        assert key(s[0]) >= key(s[i]);
      }
    }
    SortedCons(x, s, key);
  }

  /** Places `x` after every element with a greater key and before the others, so
      that `x`, which came first in the input, stays ahead of equal keys. */
  function InsertDesc<T>(x: T, s: seq<T>, key: T -> int): (r: seq<T>)
    requires SortedDesc(s, key)
    ensures SortedDesc(r, key)
    ensures multiset(r) == multiset(s) + multiset{x}
  {
    if s == [] || key(s[0]) <= key(x) then
      PutFirst(x, s, key);
      [x] + s
    else
      var rest := InsertDesc(x, s[1..], key);
      KeepHead(x, s, rest, key);
      [s[0]] + rest
  }

  /** JavaScript's (stable) `sort` with the comparator `(a, b) => key(b) - key(a)`. */
  function SortDesc<T>(s: seq<T>, key: T -> int): (r: seq<T>)
    ensures SortedDesc(r, key)
    ensures multiset(r) == multiset(s)
  {
    if s == [] then []
    else
      assert s == [s[0]] + s[1..];
      InsertDesc(s[0], SortDesc(s[1..], key), key)
  }

  /** `s.slice(0, n)`. */
  function Take<T>(s: seq<T>, n: nat): (r: seq<T>)
    ensures |r| == (if |s| < n then |s| else n)
    ensures r == s[..|r|]
  {
    if |s| <= n then s else s[..n]
  }

  /** In a sorted sequence, every element of the first `k` has a key at least that
      of every element after them. */
  lemma PrefixDominates<T>(sorted: seq<T>, key: T -> int, k: nat, x: T, y: T)
    requires SortedDesc(sorted, key) && k <= |sorted|
    requires x in sorted[k..] && y in sorted[..k]
    ensures key(y) >= key(x)
  {
    var j :| k <= j < |sorted| && sorted[j] == x by {
      var j' :| 0 <= j' < |sorted| - k && sorted[k..][j'] == x;
      assert sorted[k + j'] == x;
    }
    var i :| 0 <= i < k && sorted[i] == y;
  }

  /** A prefix of a sorted sequence is sorted. */
  lemma SortedPrefix<T>(s: seq<T>, key: T -> int, k: nat)
    requires SortedDesc(s, key) && k <= |s|
    ensures SortedDesc(s[..k], key)
  {
    forall i, j | 0 <= i < j < k ensures key(s[..k][i]) >= key(s[..k][j]) {
      assert s[..k][i] == s[i] && s[..k][j] == s[j];
    }
  }

  /** A sequence splits into its first `k` elements and the rest, as multisets too. */
  lemma SplitMultiset<T>(s: seq<T>, k: nat)
    requires k <= |s|
    ensures multiset(s) == multiset(s[..k]) + multiset(s[k..])
  {
    assert s == s[..k] + s[k..];
  }

  /** An element of a sub-multiset is an element of the whole. */
  lemma DrawnFrom<T>(top: seq<T>, s: seq<T>, x: T)
    requires multiset(top) <= multiset(s) && x in top
    ensures x in s
  {
    assert x in multiset(top);
  }

  /** The first `n` of the sorted elements come in non-increasing key order, are
      taken from `s` and number min(n, |s|). */
  lemma {:induction false} TopIsSorted<T>(s: seq<T>, key: T -> int, n: nat)
    ensures SortedDesc(Take(SortDesc(s, key), n), key)
    ensures multiset(Take(SortDesc(s, key), n)) <= multiset(s)
    ensures |Take(SortDesc(s, key), n)| == (if |s| < n then |s| else n)
  {
    var sorted := SortDesc(s, key);
    var k := |Take(sorted, n)|;
    assert |sorted| == |s| by {
      assert |sorted| == |multiset(sorted)| == |multiset(s)| == |s|;
    }
    SortedPrefix(sorted, key, k);
    SplitMultiset(sorted, k);
  }

  /** The first `n` of the sorted elements are the best `n`: no copy left out has a
      greater key than any element kept, even when an equal copy was kept. */
  lemma {:induction false} TopIsBest<T>(s: seq<T>, key: T -> int, n: nat)
    ensures forall x, y :: multiset(s)[x] > multiset(Take(SortDesc(s, key), n))[x]
              && y in Take(SortDesc(s, key), n)
              ==> key(y) >= key(x)
    ensures forall x, y :: x in s && x !in Take(SortDesc(s, key), n) && y in Take(SortDesc(s, key), n)
              ==> key(y) >= key(x)
  {
    var sorted := SortDesc(s, key);
    var top := Take(sorted, n);
    var k := |top|;
    SplitMultiset(sorted, k);
    forall x, y | multiset(s)[x] > multiset(top)[x] && y in top
      ensures key(y) >= key(x)
    {
      assert multiset(sorted[k..])[x] > 0;
      assert x in sorted[k..];
      PrefixDominates(sorted, key, k, x, y);
    }
    forall x, y | x in s && x !in top && y in top
      ensures key(y) >= key(x)
    {
      assert multiset(s)[x] > 0 == multiset(top)[x];
    }
  }
}
