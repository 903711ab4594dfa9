/** The list operations the pages apply to fetched rows: `Array.prototype.filter`,
    the database's `order by` (a stable sort on an integer key) and `limit`,
    together with what they preserve. */
module Sequences {

  /** `a` is `b` with some elements left out and the rest in their original order. */
  ghost predicate IsSubsequence<T(!new)>(a: seq<T>, b: seq<T>)
    decreases |b|
  {
    a == [] ||
    (b != [] && ((a[0] == b[0] && IsSubsequence(a[1..], b[1..])) || IsSubsequence(a, b[1..])))
  }

  /** `s` is ascending by `key` (equal keys allowed). */
  ghost predicate SortedBy<T(!new)>(s: seq<T>, key: T -> int) {
    forall i, j :: 0 <= i < j < |s| ==> key(s[i]) <= key(s[j])
  }

  /** Exactly one of three conditions holds. */
  predicate ExactlyOne(a: bool, b: bool, c: bool) {
    (a && !b && !c) || (!a && b && !c) || (!a && !b && c)
  }

  /** `Array.prototype.filter`: the elements of `s` satisfying `p`, in their order. */
  function Filter<T(!new)>(s: seq<T>, p: T -> bool): (r: seq<T>)
    ensures |r| <= |s|
    ensures forall x :: x in r <==> x in s && p(x)
    ensures multiset(r) <= multiset(s)
  {
    if s == [] then []
    else
      var rest := Filter(s[1..], p);
      assert s == [s[0]] + s[1..];
      if p(s[0]) then [s[0]] + rest else rest
  }

  lemma {:induction false} SubsequenceElements<T(!new)>(a: seq<T>, b: seq<T>)
    requires IsSubsequence(a, b)
    ensures forall x :: x in a ==> x in b
    decreases |b|
  {
    if a != [] {
      if a[0] == b[0] && IsSubsequence(a[1..], b[1..]) {
        SubsequenceElements(a[1..], b[1..]);
        assert a == [a[0]] + a[1..];
      } else {
        SubsequenceElements(a, b[1..]);
      }
    }
  }

  /** A filter keeps the survivors in their input order. */
  lemma {:induction false} FilterIsSubsequence<T(!new)>(s: seq<T>, p: T -> bool)
    ensures IsSubsequence(Filter(s, p), s)
  {
    if s != [] {
      FilterIsSubsequence(s[1..], p);
      if p(s[0]) {
        assert Filter(s, p)[1..] == Filter(s[1..], p);
      }
    }
  }

  /** Leaving elements out of an ascending list leaves it ascending. */
  lemma {:induction false} SubsequenceSorted<T(!new)>(a: seq<T>, b: seq<T>, key: T -> int)
    requires IsSubsequence(a, b) && SortedBy(b, key)
    ensures SortedBy(a, key)
    decreases |b|
  {
    if a != [] {
      assert SortedBy(b[1..], key) by {
        forall i, j | 0 <= i < j < |b[1..]| ensures key(b[1..][i]) <= key(b[1..][j]) {
          assert b[1..][i] == b[i + 1] && b[1..][j] == b[j + 1];
        }
      }
      if a[0] == b[0] && IsSubsequence(a[1..], b[1..]) {
        SubsequenceSorted(a[1..], b[1..], key);
        SubsequenceElements(a[1..], b[1..]);
        forall i, j | 0 <= i < j < |a| ensures key(a[i]) <= key(a[j]) {
          assert a[j] == a[1..][j - 1];
          assert a[j] in b[1..];
          var k :| 0 <= k < |b[1..]| && b[1..][k] == a[j];
          assert b[k + 1] == a[j];
          if i > 0 {
            assert a[i] == a[1..][i - 1];
          }
        }
      } else {
        SubsequenceSorted(a, b[1..], key);
      }
    }
  }

  /** Every element already satisfying `p` means the filter changes nothing. */
  lemma {:induction false} FilterKeepsAll<T(!new)>(s: seq<T>, p: T -> bool)
    requires forall x :: x in s ==> p(x)
    ensures Filter(s, p) == s
  {
    if s != [] {
      FilterKeepsAll(s[1..], p);
      assert s == [s[0]] + s[1..];
    }
  }

  /** Filtering twice with the same predicate is filtering once. */
  lemma FilterIdempotent<T(!new)>(s: seq<T>, p: T -> bool)
    ensures Filter(Filter(s, p), p) == Filter(s, p)
  {
    FilterKeepsAll(Filter(s, p), p);
  }

  /** Two filters in a row are one filter by the conjunction. */
  lemma {:induction false} FilterFilter<T(!new)>(s: seq<T>, p: T -> bool, q: T -> bool, pq: T -> bool)
    requires forall x :: pq(x) == (p(x) && q(x))
    ensures Filter(Filter(s, p), q) == Filter(s, pq)
  {
    if s != [] {
      FilterFilter(s[1..], p, q, pq);
      if p(s[0]) {
        assert Filter(s, p) == [s[0]] + Filter(s[1..], p);
        assert Filter(s, p)[0] == s[0] && Filter(s, p)[1..] == Filter(s[1..], p);
      }
    }
  }

  /** Filters by predicates that agree on the elements give the same list. */
  lemma {:induction false} FilterAgree<T(!new)>(s: seq<T>, p: T -> bool, q: T -> bool)
    requires forall x :: x in s ==> p(x) == q(x)
    ensures Filter(s, p) == Filter(s, q)
  {
    if s != [] {
      FilterAgree(s[1..], p, q);
      assert s == [s[0]] + s[1..];
    }
  }

  /** Three filters whose predicates split the elements exactly three ways
      together hold every element exactly as often as the input does. */
  lemma {:induction false} FilterPartition<T(!new)>(s: seq<T>, p: T -> bool, q: T -> bool, r: T -> bool)
    requires forall x :: x in s ==> ExactlyOne(p(x), q(x), r(x))
    ensures multiset(Filter(s, p)) + multiset(Filter(s, q)) + multiset(Filter(s, r)) == multiset(s)
  {
    if s != [] {
      assert s == [s[0]] + s[1..];
      FilterPartition(s[1..], p, q, r);
    }
  }

  /** Insertion of `x` into an ascending list, before the first element whose key
      is not smaller, so that `x` goes in front of its equals. `SortBy` inserts the
      head of a list into its sorted tail, so equal keys keep their input order. */
  function InsertBy<T(!new)>(x: T, s: seq<T>, key: T -> int): (r: seq<T>)
    requires SortedBy(s, key)
    ensures SortedBy(r, key)
    ensures multiset(r) == multiset(s) + multiset{x}
    ensures |r| == |s| + 1
  {
    if s == [] || key(x) <= key(s[0]) then [x] + s
    else
      var rest := InsertBy(x, s[1..], key);
      assert s == [s[0]] + s[1..];
      InsertedAfterHead(x, s, rest, key);
      [s[0]] + rest
  }

  lemma InsertedAfterHead<T(!new)>(x: T, s: seq<T>, rest: seq<T>, key: T -> int)
    requires s != [] && SortedBy(s, key) && key(s[0]) < key(x)
    requires SortedBy(rest, key) && multiset(rest) == multiset(s[1..]) + multiset{x}
    ensures SortedBy([s[0]] + rest, key)
  {
    var r := [s[0]] + rest;
    forall j | 0 <= j < |rest| ensures key(s[0]) <= key(rest[j]) {
      assert rest[j] in multiset(rest);
      if rest[j] != x {
        assert rest[j] in multiset(s[1..]);
        var k :| 0 <= k < |s[1..]| && s[1..][k] == rest[j];
        assert s[k + 1] == rest[j];
      }
    }
    forall i, j | 0 <= i < j < |r| ensures key(r[i]) <= key(r[j]) {
      assert r[j] == rest[j - 1];
      if i > 0 { assert r[i] == rest[i - 1]; }
    }
  }

  /** The database's `order by key ascending`: a stable sort. */
  function SortBy<T(!new)>(s: seq<T>, key: T -> int): (r: seq<T>)
    ensures SortedBy(r, key)
    ensures multiset(r) == multiset(s)
    ensures |r| == |s|
  {
    if s == [] then []
    else
      assert s == [s[0]] + s[1..];
      InsertBy(s[0], SortBy(s[1..], key), key)
  }

  lemma FilterSorted<T(!new)>(s: seq<T>, key: T -> int, p: T -> bool)
    requires SortedBy(s, key)
    ensures SortedBy(Filter(s, p), key)
  {
    FilterIsSubsequence(s, p);
    SubsequenceSorted(Filter(s, p), s, key);
  }

  lemma FilterCons<T(!new)>(x: T, s: seq<T>, p: T -> bool)
    ensures Filter([x] + s, p) == if p(x) then [x] + Filter(s, p) else Filter(s, p)
  {
    assert ([x] + s)[1..] == s;
  }

  lemma SortedTail<T(!new)>(s: seq<T>, key: T -> int)
    requires s != [] && SortedBy(s, key)
    ensures SortedBy(s[1..], key)
  {
    forall i, j | 0 <= i < j < |s[1..]| ensures key(s[1..][i]) <= key(s[1..][j]) {
      assert s[1..][i] == s[i + 1] && s[1..][j] == s[j + 1];
    }
  }

  /** Inserting behind a smaller head inserts into the tail. */
  lemma InsertByBehindHead<T(!new)>(x: T, h: T, t: seq<T>, key: T -> int)
    requires SortedBy([h] + t, key) && key(h) < key(x)
    ensures SortedBy(t, key)
    ensures InsertBy(x, [h] + t, key) == [h] + InsertBy(x, t, key)
  {
    SortedTail([h] + t, key);
    assert ([h] + t)[1..] == t;
  }

  lemma FilterInsertAtFront<T(!new)>(x: T, s: seq<T>, key: T -> int, p: T -> bool)
    requires SortedBy(s, key) && (s == [] || key(x) <= key(s[0]))
    ensures SortedBy(Filter(s, p), key)
    ensures Filter(InsertBy(x, s, key), p)
            == if p(x) then InsertBy(x, Filter(s, p), key) else Filter(s, p)
  {
    var f := Filter(s, p);
    FilterSorted(s, key, p);
    FilterCons(x, s, p);
    if p(x) && f != [] {
      assert f[0] in s;
      var k :| 0 <= k < |s| && s[k] == f[0];
      assert key(s[0]) <= key(s[k]);
    }
  }

  /** Filtering after an insertion is inserting into the filtered list, when the
      inserted element survives the filter. */
  lemma {:induction false} FilterInsertBy<T(!new)>(x: T, s: seq<T>, key: T -> int, p: T -> bool)
    requires SortedBy(s, key)
    ensures SortedBy(Filter(s, p), key)
    ensures Filter(InsertBy(x, s, key), p)
            == if p(x) then InsertBy(x, Filter(s, p), key) else Filter(s, p)
  {
    FilterSorted(s, key, p);
    if s == [] || key(x) <= key(s[0]) {
      FilterInsertAtFront(x, s, key, p);
    } else {
      var h, t := s[0], s[1..];
      assert s == [h] + t;
      InsertByBehindHead(x, h, t, key);
      FilterInsertBy(x, t, key, p);
      var rest := InsertBy(x, t, key);
      FilterCons(h, rest, p);
      FilterCons(h, t, p);
      if p(h) && p(x) {
        FilterSorted(t, key, p);
        assert Filter(s, p) == [h] + Filter(t, p);
        InsertByBehindHead(x, h, Filter(t, p), key);
      }
    }
  }

  /** Filtering a stably sorted list gives the stable sort of the filtered list. */
  lemma {:induction false} FilterSortBy<T(!new)>(s: seq<T>, key: T -> int, p: T -> bool)
    ensures Filter(SortBy(s, key), p) == SortBy(Filter(s, p), key)
  {
    if s != [] {
      var h, t := s[0], s[1..];
      assert s == [h] + t;
      var sortedTail := SortBy(t, key);
      assert SortBy(s, key) == InsertBy(h, sortedTail, key);
      FilterSortBy(t, key, p);
      FilterInsertBy(h, sortedTail, key, p);
      FilterCons(h, t, p);
      if p(h) {
        var f := Filter(s, p);
        assert f == [h] + Filter(t, p);
        assert f[0] == h && f[1..] == Filter(t, p);
        assert SortBy(f, key) == InsertBy(h, SortBy(Filter(t, p), key), key);
      }
    }
  }

  /** A list whose elements all have the same key is already sorted. */
  lemma {:induction false} SortByConstantKey<T(!new)>(s: seq<T>, key: T -> int)
    requires forall i, j :: 0 <= i < j < |s| ==> key(s[i]) == key(s[j])
    ensures SortBy(s, key) == s
  {
    if s != [] {
      var t := s[1..];
      assert forall i, j :: 0 <= i < j < |t| ==> key(t[i]) == key(t[j]) by {
        forall i, j | 0 <= i < j < |t| ensures key(t[i]) == key(t[j]) {
          assert t[i] == s[i + 1] && t[j] == s[j + 1];
        }
      }
      SortByConstantKey(t, key);
      assert s == [s[0]] + t;
      if t != [] {
        assert t[0] == s[1];
      }
    }
  }

  /** The sort is stable: the elements of any one key (and so any selection of
      elements sharing a key) come out in the order they went in. */
  lemma SortByStable<T(!new)>(s: seq<T>, key: T -> int, p: T -> bool)
    requires forall x, y :: p(x) && p(y) ==> key(x) == key(y)
    ensures Filter(SortBy(s, key), p) == Filter(s, p)
  {
    FilterSortBy(s, key, p);
    var f := Filter(s, p);
    forall i, j | 0 <= i < j < |f| ensures key(f[i]) == key(f[j]) {
      assert f[i] in f && f[j] in f;
      assert p(f[i]) && p(f[j]);
    }
    SortByConstantKey(f, key);
  }

  /** The database's `limit n`: the first `n` elements, or all of them. */
  function Take<T(!new)>(s: seq<T>, n: nat): (r: seq<T>)
    ensures |r| == if |s| < n then |s| else n
    ensures r == s[..|r|]
  {
    if |s| <= n then s else s[..n]
  }
}
