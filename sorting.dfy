/** Ordering helpers behind the store's `ORDER BY` queries: a stable insertion
    sort by a caller-supplied comparison and an order-preserving filter. */
module Sorting {

  /** `le` is a total preorder: any two elements compare, and comparison chains. */
  ghost predicate TotalPreorder<T(!new)>(le: (T, T) -> bool)
  {
    (forall a, b :: le(a, b) || le(b, a)) &&
    (forall a, b, c :: le(a, b) && le(b, c) ==> le(a, c))
  }

  /** Every earlier element is `le` every later one. */
  ghost predicate SortedBy<T>(s: seq<T>, le: (T, T) -> bool)
  {
    forall i, j :: 0 <= i < j < |s| ==> le(s[i], s[j])
  }

  /** No two positions carry the same key. */
  ghost predicate DistinctBy<T, K>(s: seq<T>, key: T -> K)
  {
    forall i, j :: 0 <= i < j < |s| ==> key(s[i]) != key(s[j])
  }

  /** Places `x` before the first element it is `le`. */
  function Insert<T>(x: T, s: seq<T>, le: (T, T) -> bool): (r: seq<T>)
    ensures multiset(r) == multiset(s) + multiset{x}
  {
    if s == [] then [x]
    else if le(x, s[0]) then [x] + s
    else
      assert s == [s[0]] + s[1..];
      [s[0]] + Insert(x, s[1..], le)
  }

  /** Insertion sort: a permutation of `s`, sorted whenever `le` is a total preorder. */
  function Sort<T>(s: seq<T>, le: (T, T) -> bool): (r: seq<T>)
    ensures multiset(r) == multiset(s)
    ensures |r| == |s|
  {
    if s == [] then []
    else
      assert s == [s[0]] + s[1..];
      Insert(s[0], Sort(s[1..], le), le)
  }

  lemma {:induction false} InsertSorted<T(!new)>(x: T, s: seq<T>, le: (T, T) -> bool)
    requires TotalPreorder(le) && SortedBy(s, le)
    ensures SortedBy(Insert(x, s, le), le)
  {
    if s == [] {
    } else if le(x, s[0]) {
      var r := [x] + s;
      forall i, j | 0 <= i < j < |r| ensures le(r[i], r[j]) {
        if i == 0 && j > 1 {
          assert le(s[0], s[j - 1]);
        }
      }
    } else {
      var tail := s[1..];
      assert SortedBy(tail, le) by {
        forall i, j | 0 <= i < j < |tail| ensures le(tail[i], tail[j]) {
          assert tail[i] == s[i + 1] && tail[j] == s[j + 1];
        }
      }
      InsertSorted(x, tail, le);
      var rest := Insert(x, tail, le);
      var r := [s[0]] + rest;
      assert le(s[0], x);
      forall i, j | 0 <= i < j < |r| ensures le(r[i], r[j]) {
        if i == 0 {
          var y := rest[j - 1];
          assert y in multiset(rest);
          if y != x {
            assert y in multiset(tail);
            var k :| 0 <= k < |tail| && tail[k] == y;
            assert s[k + 1] == y;
          }
        } else {
          assert r[i] == rest[i - 1] && r[j] == rest[j - 1];
        }
      }
    }
  }

  /** The tail of a sorted sequence is sorted. */
  lemma SortedTail<T>(s: seq<T>, le: (T, T) -> bool)
    requires s != [] && SortedBy(s, le)
    ensures SortedBy(s[1..], le)
  {
    forall i, j | 0 <= i < j < |s[1..]| ensures le(s[1..][i], s[1..][j]) {
      assert s[1..][i] == s[i + 1] && s[1..][j] == s[j + 1];
    }
  }

  lemma {:induction false} SortSorted<T(!new)>(s: seq<T>, le: (T, T) -> bool)
    requires TotalPreorder(le)
    ensures SortedBy(Sort(s, le), le)
  {
    if s != [] {
      SortSorted(s[1..], le);
      InsertSorted(s[0], Sort(s[1..], le), le);
    }
  }

  /** A sequence has distinct keys iff its tail does and its head's key is not in the tail. */
  lemma DistinctCons<T, K>(h: T, rest: seq<T>, key: T -> K)
    ensures DistinctBy([h] + rest, key) <==>
      DistinctBy(rest, key) && forall y :: y in rest ==> key(y) != key(h)
  {
    var r := [h] + rest;
    if DistinctBy(rest, key) && forall y :: y in rest ==> key(y) != key(h) {
      forall i, j | 0 <= i < j < |r| ensures key(r[i]) != key(r[j]) {
        assert r[j] == rest[j - 1];
        if i > 0 {
          assert r[i] == rest[i - 1];
        }
      }
    }
    if DistinctBy(r, key) {
      forall i, j | 0 <= i < j < |rest| ensures key(rest[i]) != key(rest[j]) {
        assert rest[i] == r[i + 1] && rest[j] == r[j + 1];
      }
      forall y | y in rest ensures key(y) != key(h) {
        var k :| 0 <= k < |rest| && rest[k] == y;
        assert r[0] == h && r[k + 1] == y;
      }
    }
  }

  lemma {:induction false} InsertDistinct<T, K>(x: T, s: seq<T>, le: (T, T) -> bool, key: T -> K)
    requires DistinctBy(s, key)
    requires forall y :: y in s ==> key(y) != key(x)
    ensures DistinctBy(Insert(x, s, le), key)
  {
    if s == [] {
    } else if le(x, s[0]) {
      DistinctCons(x, s, key);
    } else {
      var tail := s[1..];
      assert s == [s[0]] + tail;
      DistinctCons(s[0], tail, key);
      InsertDistinct(x, tail, le, key);
      var rest := Insert(x, tail, le);
      forall y | y in rest ensures key(y) != key(s[0]) {
        assert y in multiset(rest);
        if y != x {
          assert y in multiset(tail);
        }
      }
      DistinctCons(s[0], rest, key);
    }
  }

  /** Sorting never brings two equal keys together: distinct keys stay distinct. */
  lemma {:induction false} SortDistinct<T, K>(s: seq<T>, le: (T, T) -> bool, key: T -> K)
    requires DistinctBy(s, key)
    ensures DistinctBy(Sort(s, le), key)
  {
    if s != [] {
      var tail := s[1..];
      assert s == [s[0]] + tail;
      DistinctCons(s[0], tail, key);
      SortDistinct(tail, le, key);
      var sorted := Sort(tail, le);
      forall y | y in sorted ensures key(y) != key(s[0]) {
        assert y in multiset(sorted);
        assert y in multiset(tail);
      }
      InsertDistinct(s[0], sorted, le, key);
    }
  }

  /** The elements of `s` that satisfy `p`, in their original order. */
  function Filter<T(!new)>(s: seq<T>, p: T -> bool): (r: seq<T>)
    ensures |r| <= |s|
    ensures forall x :: x in r <==> x in s && p(x)
  {
    if s == [] then []
    else
      assert forall x :: x in s <==> x == s[0] || x in s[1..];
      (if p(s[0]) then [s[0]] else []) + Filter(s[1..], p)
  }

  /** Filtering keeps every passing element as often as it occurs and drops the rest. */
  lemma {:induction false} FilterCount<T(!new)>(s: seq<T>, p: T -> bool, x: T)
    ensures multiset(Filter(s, p))[x] == if p(x) then multiset(s)[x] else 0
  {
    if s != [] {
      FilterCount(s[1..], p, x);
      assert s == [s[0]] + s[1..];
    }
  }

  /** Filtering keeps the relative order, so a sorted sequence stays sorted. */
  lemma {:induction false} FilterSorted<T(!new)>(s: seq<T>, p: T -> bool, le: (T, T) -> bool)
    requires SortedBy(s, le)
    ensures SortedBy(Filter(s, p), le)
  {
    if s != [] {
      var tail := s[1..];
      assert SortedBy(tail, le) by {
        forall i, j | 0 <= i < j < |tail| ensures le(tail[i], tail[j]) {
          assert tail[i] == s[i + 1] && tail[j] == s[j + 1];
        }
      }
      FilterSorted(tail, p, le);
      if p(s[0]) {
        var rest := Filter(tail, p);
        var r := [s[0]] + rest;
        forall i, j | 0 <= i < j < |r| ensures le(r[i], r[j]) {
          if i == 0 {
            assert rest[j - 1] in tail;
            var k :| 0 <= k < |tail| && tail[k] == rest[j - 1];
            assert s[k + 1] == rest[j - 1];
          } else {
            assert r[i] == rest[i - 1] && r[j] == rest[j - 1];
          }
        }
      }
    }
  }

  /** Filtering an extended sequence extends the filtered one. */
  lemma {:induction false} FilterAppend<T(!new)>(s: seq<T>, x: T, p: T -> bool)
    ensures Filter(s + [x], p) == Filter(s, p) + (if p(x) then [x] else [])
  {
    if s != [] {
      assert (s + [x])[1..] == s[1..] + [x];
      FilterAppend(s[1..], x, p);
    }
  }

  /** Filtering keeps distinct keys distinct. */
  lemma {:induction false} FilterDistinct<T(!new), K>(s: seq<T>, p: T -> bool, key: T -> K)
    requires DistinctBy(s, key)
    ensures DistinctBy(Filter(s, p), key)
  {
    if s != [] {
      var tail := s[1..];
      assert s == [s[0]] + tail;
      DistinctCons(s[0], tail, key);
      FilterDistinct(tail, p, key);
      if p(s[0]) {
        DistinctCons(s[0], Filter(tail, p), key);
      }
    }
  }
}
