/** Sequence facts the catalog model leans on: filters and order-preserving subsequences. */
module Seqs {

  /** The set of elements of a sequence. */
  function Elems<T>(s: seq<T>): (r: set<T>)
    ensures forall i :: 0 <= i < |s| ==> s[i] in r
    ensures forall x | x in r :: x in s
  {
    set x | x in s
  }

  /** Appending one element adds exactly that element to the set. */
  lemma ElemsAppend<T>(s: seq<T>, x: T)
    ensures Elems(s + [x]) == Elems(s) + {x}
  {
    var l, r := Elems(s + [x]), Elems(s) + {x};
    forall y | y in l ensures y in r {
      var i :| 0 <= i < |s + [x]| && (s + [x])[i] == y;
      if i < |s| { assert s[i] == y; }
    }
  }

  /** No element occurs twice. */
  predicate Distinct<T(==)>(s: seq<T>) {
    forall i, j :: 0 <= i < j < |s| ==> s[i] != s[j]
  }

  /** The position of the first element that satisfies p, or |s| when there is none (Array.prototype.findIndex). */
  function FirstIndex<T>(p: T -> bool, s: seq<T>): (i: nat)
    ensures i <= |s|
    ensures i < |s| ==> p(s[i])
    ensures forall j :: 0 <= j < i ==> !p(s[j])
  {
    if s == [] then 0
    else if p(s[0]) then 0
    else 1 + FirstIndex(p, s[1..])
  }

  /** a is obtained from b by deleting elements, keeping the order of the rest. */
  predicate IsSubsequence<T(==)>(a: seq<T>, b: seq<T>)
    decreases |b|
  {
    if a == [] then true
    else if b == [] then false
    else if a[|a| - 1] == b[|b| - 1] then IsSubsequence(a[..|a| - 1], b[..|b| - 1])
    else IsSubsequence(a, b[..|b| - 1])
  }

  /** Deleting the last element of a subsequence leaves a subsequence. */
  lemma {:induction false} SubsequenceDropLast<T>(a: seq<T>, b: seq<T>)
    requires a != [] && IsSubsequence(a, b)
    ensures IsSubsequence(a[..|a| - 1], b)
    decreases |b|
  {
    var a', b' := a[..|a| - 1], b[..|b| - 1];
    if a' != [] {
      if a[|a| - 1] == b[|b| - 1] {
        if a'[|a'| - 1] == b[|b| - 1] {
          SubsequenceDropLast(a', b');
        }
      } else {
        SubsequenceDropLast(a, b');
        if a'[|a'| - 1] == b[|b| - 1] {
          SubsequenceDropLast(a', b');
        }
      }
    }
  }

  /** A subsequence of b is still one of b extended at the end. */
  lemma {:induction false} SubsequenceExtend<T>(a: seq<T>, b: seq<T>, x: T)
    requires IsSubsequence(a, b)
    ensures IsSubsequence(a, b + [x])
  {
    var b' := b + [x];
    assert b'[..|b'| - 1] == b;
    if a != [] && a[|a| - 1] == x {
      SubsequenceDropLast(a, b);
    }
  }

  /** A subsequence is no longer than the sequence it is taken from. */
  lemma {:induction false} SubsequenceLength<T>(a: seq<T>, b: seq<T>)
    requires IsSubsequence(a, b)
    ensures |a| <= |b|
    decreases |b|
  {
    if a != [] {
      if a[|a| - 1] == b[|b| - 1] {
        SubsequenceLength(a[..|a| - 1], b[..|b| - 1]);
      } else {
        SubsequenceLength(a, b[..|b| - 1]);
      }
    }
  }

  /** Every sequence is a subsequence of itself. */
  lemma {:induction false} SubsequenceRefl<T>(s: seq<T>)
    ensures IsSubsequence(s, s)
    decreases |s|
  {
    if s != [] {
      SubsequenceRefl(s[..|s| - 1]);
    }
  }

  /** The elements of s that satisfy p, in the order of s (Array.prototype.filter). */
  function Filter<T>(p: T -> bool, s: seq<T>): (r: seq<T>)
    ensures |r| <= |s|
    ensures forall i :: 0 <= i < |r| ==> r[i] in s && p(r[i])
    ensures forall i :: 0 <= i < |s| && p(s[i]) ==> s[i] in r
    ensures IsSubsequence(r, s)
  {
    if s == [] then []
    else
      var init, last := s[..|s| - 1], s[|s| - 1];
      assert s == init + [last];
      var r0 := Filter(p, init);
      if p(last) then
        var r := r0 + [last];
        assert r[..|r| - 1] == r0;
        r
      else
        SubsequenceExtend(r0, init, last);
        r0
  }

  /** Filtering distributes over concatenation. */
  lemma {:induction false} FilterAppend<T>(p: T -> bool, a: seq<T>, b: seq<T>)
    ensures Filter(p, a + b) == Filter(p, a) + Filter(p, b)
    decreases |b|
  {
    if b == [] {
      assert a + b == a;
    } else {
      var b', last := b[..|b| - 1], b[|b| - 1];
      assert (a + b)[..|a + b| - 1] == a + b';
      FilterAppend(p, a, b');
    }
  }

  /** The filter of a one-element sequence. */
  lemma FilterSingleton<T>(p: T -> bool, x: T)
    ensures Filter(p, [x]) == if p(x) then [x] else []
  {
    assert [x][..0] == [];
  }

  /** Filtering the result of a filter again changes nothing. */
  lemma {:induction false} FilterIdempotent<T>(p: T -> bool, s: seq<T>)
    ensures Filter(p, Filter(p, s)) == Filter(p, s)
    decreases |s|
  {
    if s != [] {
      var init, last := s[..|s| - 1], s[|s| - 1];
      FilterIdempotent(p, init);
      if p(last) {
        FilterAppend(p, Filter(p, init), [last]);
        FilterSingleton(p, last);
      }
    }
  }

  /** If every element passes, the filter is the identity. */
  lemma {:induction false} FilterAll<T>(p: T -> bool, s: seq<T>)
    requires forall i :: 0 <= i < |s| ==> p(s[i])
    ensures Filter(p, s) == s
    decreases |s|
  {
    if s != [] {
      var init := s[..|s| - 1];
      FilterAll(p, init);
      assert init + [s[|s| - 1]] == s;
    }
  }

  // ---------------------------------------------------------------------------
  // Stable sorting by a numeric key. A stable sort by a key has exactly one
  // result (see StableSortIsUnique); insertion sort computes it.

  predicate SortedBy<T>(key: T -> nat, s: seq<T>) {
    forall i, j :: 0 <= i < j < |s| ==> key(s[i]) <= key(s[j])
  }

  /** Puts x in front of the first element whose key is at least x's. */
  function InsertBy<T>(key: T -> nat, x: T, s: seq<T>): (r: seq<T>)
    ensures multiset(r) == multiset(s) + multiset{x}
    ensures forall j :: 0 <= j < |r| ==> r[j] == x || r[j] in s
  {
    if s == [] || key(x) <= key(s[0]) then [x] + s
    else
      assert s == [s[0]] + s[1..];
      [s[0]] + InsertBy(key, x, s[1..])
  }

  lemma {:induction false} InsertSorted<T>(key: T -> nat, x: T, s: seq<T>)
    requires SortedBy(key, s)
    ensures SortedBy(key, InsertBy(key, x, s))
    decreases |s|
  {
    if s != [] && key(x) > key(s[0]) {
      var t := InsertBy(key, x, s[1..]);
      InsertSorted(key, x, s[1..]);
      forall j | 0 <= j < |t| ensures key(s[0]) <= key(t[j]) {
        if t[j] != x {
          var m :| 0 <= m < |s[1..]| && s[1..][m] == t[j];
          assert key(s[0]) <= key(s[m + 1]);
        }
      }
    }
  }

  /** Insertion sort by key: a sorted permutation of s. */
  function SortBy<T>(key: T -> nat, s: seq<T>): (r: seq<T>)
    ensures multiset(r) == multiset(s)
    ensures SortedBy(key, r)
  {
    if s == [] then []
    else
      assert s == [s[0]] + s[1..];
      InsertSorted(key, s[0], SortBy(key, s[1..]));
      InsertBy(key, s[0], SortBy(key, s[1..]))
  }

  /** The elements of s whose key is k, in the order of s. */
  function WithKey<T>(key: T -> nat, k: nat, s: seq<T>): (r: seq<T>)
    ensures forall i :: 0 <= i < |r| ==> r[i] in s && key(r[i]) == k
    ensures forall i :: 0 <= i < |s| && key(s[i]) == k ==> s[i] in r
  {
    if s == [] then []
    else (if key(s[0]) == k then [s[0]] else []) + WithKey(key, k, s[1..])
  }

  lemma WithKeyPrepend<T>(key: T -> nat, k: nat, x: T, s: seq<T>)
    ensures WithKey(key, k, [x] + s) == (if key(x) == k then [x] else []) + WithKey(key, k, s)
  {
    assert ([x] + s)[1..] == s;
  }

  lemma {:induction false} InsertKeepsKeyOrder<T>(key: T -> nat, k: nat, x: T, s: seq<T>)
    ensures WithKey(key, k, InsertBy(key, x, s)) ==
            (if key(x) == k then [x] else []) + WithKey(key, k, s)
    decreases |s|
  {
    if s == [] || key(x) <= key(s[0]) {
      WithKeyPrepend(key, k, x, s);
    } else {
      var t := InsertBy(key, x, s[1..]);
      assert s == [s[0]] + s[1..];
      assert InsertBy(key, x, s) == [s[0]] + t;
      InsertKeepsKeyOrder(key, k, x, s[1..]);
      WithKeyPrepend(key, k, s[0], t);
      WithKeyPrepend(key, k, s[0], s[1..]);
      // key(s[0]) < key(x), so at most one of the two can have key k.
      var w := WithKey(key, k, s[1..]);
      if key(x) == k {
        assert WithKey(key, k, s) == w;
      } else {
        assert WithKey(key, k, t) == w;
      }
    }
  }

  /** Stability: the elements with any one key come out in the order they went in. */
  lemma {:induction false} SortIsStable<T>(key: T -> nat, k: nat, s: seq<T>)
    ensures WithKey(key, k, SortBy(key, s)) == WithKey(key, k, s)
    decreases |s|
  {
    if s != [] {
      assert s == [s[0]] + s[1..];
      SortIsStable(key, k, s[1..]);
      InsertKeepsKeyOrder(key, k, s[0], SortBy(key, s[1..]));
      WithKeyPrepend(key, k, s[0], s[1..]);
    }
  }

  /**
   * Two sequences sorted by the same key that agree on every key's elements
   * (in order) are equal: there is one stable sort, whatever algorithm runs it.
   */
  lemma {:induction false} SortedSameKeysEqual<T>(key: T -> nat, u: seq<T>, v: seq<T>)
    requires SortedBy(key, u) && SortedBy(key, v)
    requires forall k: nat :: WithKey(key, k, u) == WithKey(key, k, v)
    ensures u == v
    decreases |u|
  {
    if u != [] || v != [] {
      if u == [] {
        HeadInOther(key, v, u);
      } else if v == [] {
        HeadInOther(key, u, v);
      } else {
        HeadsEqual(key, u, v);
        TailsAgree(key, u, v);
        assert SortedBy(key, u[1..]) && SortedBy(key, v[1..]);
        SortedSameKeysEqual(key, u[1..], v[1..]);
        assert u == [u[0]] + u[1..] && v == [v[0]] + v[1..];
      }
    }
  }

  lemma HeadsEqual<T>(key: T -> nat, u: seq<T>, v: seq<T>)
    requires u != [] && v != [] && SortedBy(key, u) && SortedBy(key, v)
    requires forall k: nat :: WithKey(key, k, u) == WithKey(key, k, v)
    ensures u[0] == v[0]
  {
    HeadInOther(key, u, v);
    HeadInOther(key, v, u);
    WithKeyHead(key, u);
    WithKeyHead(key, v);
    assert WithKey(key, key(u[0]), u) == WithKey(key, key(u[0]), v);
  }

  lemma TailsAgree<T>(key: T -> nat, u: seq<T>, v: seq<T>)
    requires u != [] && v != [] && u[0] == v[0]
    requires forall k: nat :: WithKey(key, k, u) == WithKey(key, k, v)
    ensures forall k: nat :: WithKey(key, k, u[1..]) == WithKey(key, k, v[1..])
  {
    forall k: nat ensures WithKey(key, k, u[1..]) == WithKey(key, k, v[1..]) {
      var head := if key(u[0]) == k then [u[0]] else [];
      var wu, wv := WithKey(key, k, u), WithKey(key, k, v);
      assert wu == head + WithKey(key, k, u[1..]);
      assert wv == head + WithKey(key, k, v[1..]);
      assert WithKey(key, k, u[1..]) == wu[|head|..];
      assert WithKey(key, k, v[1..]) == wv[|head|..];
    }
  }

  /** The head of u also occurs in v, and v starts with a key no larger. */
  lemma HeadInOther<T>(key: T -> nat, u: seq<T>, v: seq<T>)
    requires u != [] && SortedBy(key, v)
    requires WithKey(key, key(u[0]), u) == WithKey(key, key(u[0]), v)
    ensures v != [] && key(v[0]) <= key(u[0])
  {
    WithKeyHead(key, u);
    var w := WithKey(key, key(u[0]), v);
    assert w[0] == u[0] && w[0] in v;
    OccursInSorted(key, v, u[0]);
  }

  /** The first element with u's first key is u's head. */
  lemma WithKeyHead<T>(key: T -> nat, u: seq<T>)
    requires u != []
    ensures |WithKey(key, key(u[0]), u)| > 0 && WithKey(key, key(u[0]), u)[0] == u[0]
  {
    assert u == [u[0]] + u[1..];
    WithKeyPrepend(key, key(u[0]), u[0], u[1..]);
  }

  /** A sorted sequence holding x starts with a key no larger than x's. */
  lemma OccursInSorted<T>(key: T -> nat, v: seq<T>, x: T)
    requires SortedBy(key, v) && x in v
    ensures v != [] && key(v[0]) <= key(x)
  {
    var j :| 0 <= j < |v| && v[j] == x;
    if j > 0 {
      assert key(v[0]) <= key(v[j]);
    }
  }

  /** A sequence whose elements all have one key is sorted by it. */
  lemma EqualKeysSorted<T>(key: T -> nat, s: seq<T>, k: nat)
    requires forall i :: 0 <= i < |s| ==> key(s[i]) == k
    ensures SortedBy(key, s)
  {
  }

  /** Sorting a sorted sequence changes nothing. */
  lemma SortedIsFixed<T>(key: T -> nat, s: seq<T>)
    requires SortedBy(key, s)
    ensures SortBy(key, s) == s
  {
    StableSortIsUnique(key, s, s);
  }

  /** Any stable sort of s by key is SortBy(key, s). */
  lemma StableSortIsUnique<T>(key: T -> nat, s: seq<T>, r: seq<T>)
    requires SortedBy(key, r)
    requires forall k: nat :: WithKey(key, k, r) == WithKey(key, k, s)
    ensures r == SortBy(key, s)
  {
    forall k: nat ensures WithKey(key, k, r) == WithKey(key, k, SortBy(key, s)) {
      SortIsStable(key, k, s);
    }
    SortedSameKeysEqual(key, r, SortBy(key, s));
  }
}
