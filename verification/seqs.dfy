/** Searching, filtering and sorting sequences the way `Array.prototype.find`,
    `findIndex`, `filter`, `sort` and `slice` do. */
module Seqs {
  import opened Wrappers

  /** `i` is the position `findIndex(p)` reports: the first element satisfying `p`. */
  ghost predicate IsFirst<T>(s: seq<T>, p: T -> bool, i: int) {
    0 <= i < |s| && p(s[i]) && forall j :: 0 <= j < i ==> !p(s[j])
  }

  /** No element satisfies `p`. */
  ghost predicate NoneMatch<T>(s: seq<T>, p: T -> bool) {
    forall j :: 0 <= j < |s| ==> !p(s[j])
  }

  /** Only one position can be the first match. */
  lemma FirstIsUnique<T>(s: seq<T>, p: T -> bool, i: int, k: int)
    requires IsFirst(s, p, i) && IsFirst(s, p, k)
    ensures i == k
  {
  }

  /** `findIndex`: the first position satisfying `p`, None for JavaScript's -1. */
  function FindIndex<T>(s: seq<T>, p: T -> bool): (r: Option<nat>)
    ensures r.Some? ==> IsFirst(s, p, r.value)
    ensures r.None? ==> NoneMatch(s, p)
    decreases |s|
  {
    if |s| == 0 then None
    else if p(s[0]) then Some(0)
    else match FindIndex(s[1..], p)
      case None => None
      case Some(i) => Some(i + 1)
  }

  /** `find`: the first element satisfying `p`, None for `undefined`. */
  function Find<T>(s: seq<T>, p: T -> bool): (r: Option<T>)
    ensures r.None? <==> NoneMatch(s, p)
    ensures r.Some? ==> exists i :: IsFirst(s, p, i) && r.value == s[i]
  {
    match FindIndex(s, p)
    case None => None
    case Some(i) => Some(s[i])
  }

  /** `r` can be obtained from `s` by deleting elements (order is kept). */
  ghost predicate Subsequence<T>(r: seq<T>, s: seq<T>)
    decreases |s|
  {
    if |r| == 0 then true
    else if |s| == 0 then false
    else (r[0] == s[0] && Subsequence(r[1..], s[1..])) || Subsequence(r, s[1..])
  }

  /** `filter`: every occurrence of an element satisfying `p`, in the original order. */
  function Filter<T(!new)>(s: seq<T>, p: T -> bool): (r: seq<T>)
    ensures forall x :: multiset(r)[x] == if p(x) then multiset(s)[x] else 0
    ensures forall x :: x in r <==> x in s && p(x)
    decreases |s|
  {
    if |s| == 0 then []
    else
      var rest := Filter(s[1..], p);
      assert s == [s[0]] + s[1..];
      if p(s[0]) then [s[0]] + rest else rest
  }

  /** `filter` keeps the relative order of the elements it keeps. */
  lemma {:induction false} FilterKeepsOrder<T(!new)>(s: seq<T>, p: T -> bool)
    ensures Subsequence(Filter(s, p), s)
    decreases |s|
  {
    if |s| > 0 {
      FilterKeepsOrder(s[1..], p);
      var r := Filter(s, p);
      if p(s[0]) {
        assert r[0] == s[0] && r[1..] == Filter(s[1..], p);
      } else {
        assert r == Filter(s[1..], p);
      }
    }
  }

  /** Ascending order of `key`. */
  ghost predicate SortedBy<T>(s: seq<T>, key: T -> int) {
    forall i, j :: 0 <= i < j < |s| ==> key(s[i]) <= key(s[j])
  }

  /** Inserts `x` after the leading elements whose key is equal or smaller. */
  function Insert<T>(x: T, s: seq<T>, key: T -> int): (r: seq<T>)
    ensures multiset(r) == multiset(s) + multiset{x}
    decreases |s|
  {
    if |s| == 0 then [x]
    else if key(x) < key(s[0]) then [x] + s
    else
      assert s == [s[0]] + s[1..];
      [s[0]] + Insert(x, s[1..], key)
  }

  /** Inserting into a sorted sequence keeps it sorted. */
  lemma {:induction false} InsertSorted<T>(x: T, s: seq<T>, key: T -> int)
    requires SortedBy(s, key)
    ensures SortedBy(Insert(x, s, key), key)
    decreases |s|
  {
    if |s| > 0 && key(s[0]) <= key(x) {
      var rest := Insert(x, s[1..], key);
      InsertSorted(x, s[1..], key);
      forall k | 0 <= k < |rest| ensures key(s[0]) <= key(rest[k]) {
        assert rest[k] in multiset(rest);
        if rest[k] != x {
          assert rest[k] in multiset(s[1..]);
          var j :| 0 <= j < |s[1..]| && s[1..][j] == rest[k];
          assert s[j + 1] == rest[k];
        }
      }
      var r := [s[0]] + rest;
      forall i, j | 0 <= i < j < |r| ensures key(r[i]) <= key(r[j]) {
        assert r[j] == rest[j - 1];
        if i > 0 { assert r[i] == rest[i - 1]; }
      }
    } else if |s| > 0 {
      var r := [x] + s;
      forall i, j | 0 <= i < j < |r| ensures key(r[i]) <= key(r[j]) {
        assert r[j] == s[j - 1];
        if i > 0 { assert r[i] == s[i - 1]; } else { assert key(s[0]) <= key(s[j - 1]); }
      }
    }
  }

  /** A stable sort by an integer key (`sort((a, b) => key(a) - key(b))`, stable since ES2019). */
  function SortBy<T>(s: seq<T>, key: T -> int): (r: seq<T>)
    ensures SortedBy(r, key)
    ensures multiset(r) == multiset(s)
    decreases |s|
  {
    if |s| == 0 then []
    else
      assert s == s[..|s| - 1] + [s[|s| - 1]];
      var sorted := SortBy(s[..|s| - 1], key);
      InsertSorted(s[|s| - 1], sorted, key);
      Insert(s[|s| - 1], sorted, key)
  }

  /** The elements whose key is `k`, in the order they occur in `s`. */
  function KeyRun<T>(s: seq<T>, key: T -> int, k: int): (r: seq<T>)
    ensures |r| <= |s|
    decreases |s|
  {
    if |s| == 0 then []
    else (if key(s[0]) == k then [s[0]] else []) + KeyRun(s[1..], key, k)
  }

  /** A sequence without the key `k` has an empty run. */
  lemma {:induction false} KeyRunAbsent<T>(s: seq<T>, key: T -> int, k: int)
    requires forall i :: 0 <= i < |s| ==> key(s[i]) != k
    ensures KeyRun(s, key, k) == []
    decreases |s|
  {
    if |s| > 0 {
      KeyRunAbsent(s[1..], key, k);
    }
  }

  /** The run of a concatenation is the runs of its parts, in turn. */
  lemma {:induction false} KeyRunAppend<T>(a: seq<T>, b: seq<T>, key: T -> int, k: int)
    ensures KeyRun(a + b, key, k) == KeyRun(a, key, k) + KeyRun(b, key, k)
    decreases |a|
  {
    if |a| == 0 {
      assert a + b == b;
    } else {
      var h := if key(a[0]) == k then [a[0]] else [];
      assert (a + b)[0] == a[0] && (a + b)[1..] == a[1..] + b;
      assert KeyRun(a + b, key, k) == h + KeyRun(a[1..] + b, key, k);
      KeyRunAppend(a[1..], b, key, k);
      assert KeyRun(a, key, k) == h + KeyRun(a[1..], key, k);
    }
  }

  /** Filtering with a test every element of key `k` passes keeps that run whole. */
  lemma {:induction false} FilterKeyRun<T(!new)>(s: seq<T>, p: T -> bool, key: T -> int, k: int)
    requires forall i :: 0 <= i < |s| && key(s[i]) == k ==> p(s[i])
    ensures KeyRun(Filter(s, p), key, k) == KeyRun(s, key, k)
    decreases |s|
  {
    if |s| > 0 {
      FilterKeyRun(s[1..], p, key, k);
      var rest := Filter(s[1..], p);
      if p(s[0]) {
        assert ([s[0]] + rest)[1..] == rest;
      } else {
        assert KeyRun(s, key, k) == KeyRun(s[1..], key, k);
      }
    }
  }

  /** Concatenation is associative. */
  lemma ConcatAssoc<T>(a: seq<T>, b: seq<T>, c: seq<T>)
    ensures a + (b + c) == (a + b) + c
  {
  }

  /** Inserting into a sorted sequence puts `x` after every element with
      the same key, so `x` joins the end of its run. */
  lemma {:induction false} InsertKeyRun<T>(x: T, s: seq<T>, key: T -> int, k: int)
    requires SortedBy(s, key)
    ensures KeyRun(Insert(x, s, key), key, k) == KeyRun(s, key, k) + (if key(x) == k then [x] else [])
    decreases |s|
  {
    if |s| == 0 {
      assert Insert(x, s, key) == [x];
      assert KeyRun([x], key, k) == (if key(x) == k then [x] else []) + KeyRun([x][1..], key, k);
      assert [x][1..] == [];
    } else if key(x) < key(s[0]) {
      InsertBeforeKeyRun(x, s, key, k);
    } else {
      assert SortedBy(s[1..], key) by {
        forall i, j | 0 <= i < j < |s[1..]| ensures key(s[1..][i]) <= key(s[1..][j]) {
          assert s[1..][i] == s[i + 1] && s[1..][j] == s[j + 1];
        }
      }
      InsertKeyRun(x, s[1..], key, k);
      InsertAfterKeyRun(x, s, key, k);
    }
  }

  /** `x` goes in front of a sorted sequence whose keys all exceed its own. */
  lemma InsertBeforeKeyRun<T>(x: T, s: seq<T>, key: T -> int, k: int)
    requires SortedBy(s, key) && |s| > 0 && key(x) < key(s[0])
    ensures KeyRun(Insert(x, s, key), key, k) == KeyRun(s, key, k) + (if key(x) == k then [x] else [])
  {
    var r := [x] + s;
    assert Insert(x, s, key) == r;
    assert r[0] == x && r[1..] == s;
    assert KeyRun(r, key, k) == (if key(x) == k then [x] else []) + KeyRun(s, key, k);
    if key(x) == k {
      assert forall i :: 0 <= i < |s| ==> key(s[0]) <= key(s[i]);
      KeyRunAbsent(s, key, k);
    }
  }

  /** `x` goes past the head: the head's part of the run comes first. */
  lemma InsertAfterKeyRun<T>(x: T, s: seq<T>, key: T -> int, k: int)
    requires |s| > 0 && key(s[0]) <= key(x)
    requires KeyRun(Insert(x, s[1..], key), key, k) == KeyRun(s[1..], key, k) + (if key(x) == k then [x] else [])
    ensures KeyRun(Insert(x, s, key), key, k) == KeyRun(s, key, k) + (if key(x) == k then [x] else [])
  {
    var h, own := if key(s[0]) == k then [s[0]] else [], if key(x) == k then [x] else [];
    var rest := Insert(x, s[1..], key);
    calc {
      KeyRun(Insert(x, s, key), key, k);
    == { assert Insert(x, s, key) == [s[0]] + rest; assert ([s[0]] + rest)[1..] == rest; }
      h + KeyRun(rest, key, k);
    ==
      h + (KeyRun(s[1..], key, k) + own);
    == { ConcatAssoc(h, KeyRun(s[1..], key, k), own); }
      (h + KeyRun(s[1..], key, k)) + own;
    ==
      KeyRun(s, key, k) + own;
    }
  }

  /** `sort` is stable: elements with equal keys keep their relative order. */
  lemma {:induction false} SortByStable<T>(s: seq<T>, key: T -> int, k: int)
    ensures KeyRun(SortBy(s, key), key, k) == KeyRun(s, key, k)
    decreases |s|
  {
    if |s| > 0 {
      var init, last := s[..|s| - 1], s[|s| - 1];
      var sorted := SortBy(init, key);
      var own := if key(last) == k then [last] else [];
      calc {
        KeyRun(SortBy(s, key), key, k);
      ==
        KeyRun(Insert(last, sorted, key), key, k);
      == { InsertKeyRun(last, sorted, key, k); }
        KeyRun(sorted, key, k) + own;
      == { SortByStable(init, key, k); }
        KeyRun(init, key, k) + own;
      == { assert [last][1..] == []; }
        KeyRun(init, key, k) + KeyRun([last], key, k);
      == { KeyRunAppend(init, [last], key, k); }
        KeyRun(init + [last], key, k);
      == { assert s == init + [last]; }
        KeyRun(s, key, k);
      }
    }
  }

  /** `slice(0, n)`. */
  function Take<T>(s: seq<T>, n: nat): (r: seq<T>)
    ensures |r| <= n && |r| <= |s|
    ensures |r| == n || |r| == |s|
    ensures r == s[..|r|]
  {
    if |s| <= n then s else s[..n]
  }

  /** `splice(i, 1)`: the sequence without position `i`. */
  function RemoveAt<T>(s: seq<T>, i: nat): (r: seq<T>)
    requires i < |s|
    ensures |r| == |s| - 1
    ensures forall j :: 0 <= j < i ==> r[j] == s[j]
    ensures forall j :: i <= j < |r| ==> r[j] == s[j + 1]
    ensures multiset(r) + multiset{s[i]} == multiset(s)
  {
    assert s == s[..i] + [s[i]] + s[i + 1..];
    s[..i] + s[i + 1..]
  }
}
