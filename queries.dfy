/**
 * The query vocabulary the catalog needs from its store: filtering a
 * table, finding a record, and ordering results (an insertion sort
 * over any total preorder, proved to return a sorted permutation).
 */
module Queries {
  import opened Wrappers

  /** The records of `s` satisfying `p`, in table order. */
  function Filter<T(!new)>(s: seq<T>, p: T -> bool): (r: seq<T>)
    ensures |r| <= |s|
    ensures forall x :: multiset(r)[x] == if p(x) then multiset(s)[x] else 0
    ensures forall i :: 0 <= i < |r| ==> p(r[i])
  {
    if s == [] then []
    else
      assert s == [s[0]] + s[1..];
      (if p(s[0]) then [s[0]] else []) + Filter(s[1..], p)
  }

  /** Every earlier record relates to every later one by `rel`. */
  predicate Pairwise<T>(s: seq<T>, rel: (T, T) -> bool) {
    forall i, j :: 0 <= i < j < |s| ==> rel(s[i], s[j])
  }

  /** Filtering keeps records in table order, so pairwise facts survive it. */
  lemma {:induction false} FilterPairwise<T(!new)>(s: seq<T>, p: T -> bool, rel: (T, T) -> bool)
    requires Pairwise(s, rel)
    ensures Pairwise(Filter(s, p), rel)
  {
    if s != [] {
      var rest := Filter(s[1..], p);
      assert Pairwise(s[1..], rel);
      FilterPairwise(s[1..], p, rel);
      if p(s[0]) {
        HeadPrecedesFiltered(s, p, rel);
        PairwiseCons(s[0], rest, rel);
        assert Filter(s, p) == [s[0]] + rest;
      } else {
        assert Filter(s, p) == rest;
      }
    }
  }

  lemma HeadPrecedesFiltered<T(!new)>(s: seq<T>, p: T -> bool, rel: (T, T) -> bool)
    requires s != [] && Pairwise(s, rel)
    ensures forall k :: 0 <= k < |Filter(s[1..], p)| ==> rel(s[0], Filter(s[1..], p)[k])
  {
    var rest := Filter(s[1..], p);
    FilterMembers(s[1..], p);
    forall k | 0 <= k < |rest| ensures rel(s[0], rest[k]) {
      var j :| 0 <= j < |s[1..]| && s[1..][j] == rest[k];
      assert s[j + 1] == rest[k];
    }
  }

  lemma PairwiseCons<T>(a: T, t: seq<T>, rel: (T, T) -> bool)
    requires Pairwise(t, rel)
    requires forall k :: 0 <= k < |t| ==> rel(a, t[k])
    ensures Pairwise([a] + t, rel)
  {
    var f := [a] + t;
    forall i, j | 0 <= i < j < |f| ensures rel(f[i], f[j]) {
      assert f[j] == t[j - 1];
      if i > 0 {
        assert f[i] == t[i - 1];
      }
    }
  }

  /** Overwriting position `k` brings in `b` and drops at most the old record there. */
  lemma UpdateMembers<T>(s: seq<T>, k: nat, b: T)
    requires k < |s|
    ensures b in s[k := b]
    ensures forall x :: x in s[k := b] ==> x == b || x in s
    ensures forall x :: x in s && x != s[k] ==> x in s[k := b]
  {
    var t := s[k := b];
    assert t[k] == b;
    forall x | x in t ensures x == b || x in s {
      var j :| 0 <= j < |t| && t[j] == x;
      assert j != k ==> s[j] == x;
    }
    forall x | x in s && x != s[k] ensures x in t {
      var j :| 0 <= j < |s| && s[j] == x;
      assert t[j] == x;
    }
  }

  /** The position of the first record satisfying `p`, if any. */
  function IndexWhere<T>(s: seq<T>, p: T -> bool): (r: Option<nat>)
    ensures r.Some? ==> r.value < |s| && p(s[r.value])
    ensures r.Some? ==> forall j :: 0 <= j < r.value ==> !p(s[j])
    ensures r.None? <==> forall j :: 0 <= j < |s| ==> !p(s[j])
  {
    if s == [] then None
    else if p(s[0]) then Some(0)
    else match IndexWhere(s[1..], p)
      case None => None
      case Some(k) => Some(k + 1)
  }

  /** `le` relates every pair one way or the other, and chains. */
  ghost predicate TotalPreorder<T(!new)>(le: (T, T) -> bool) {
    (forall a, b :: le(a, b) || le(b, a)) &&
    (forall a, b, c :: le(a, b) && le(b, c) ==> le(a, c))
  }

  predicate Sorted<T>(s: seq<T>, le: (T, T) -> bool) {
    forall i, j :: 0 <= i < j < |s| ==> le(s[i], s[j])
  }

  /** Inserts `x` before the first element it precedes. */
  function Insert<T>(x: T, s: seq<T>, le: (T, T) -> bool): (r: seq<T>)
    ensures multiset(r) == multiset(s) + multiset{x}
    ensures |r| == |s| + 1
  {
    if s == [] then [x]
    else if le(x, s[0]) then [x] + s
    else
      assert s == [s[0]] + s[1..];
      [s[0]] + Insert(x, s[1..], le)
  }

  /** Sorts `s` by `le`. */
  function SortBy<T>(s: seq<T>, le: (T, T) -> bool): (r: seq<T>)
    ensures multiset(r) == multiset(s)
    ensures |r| == |s|
  {
    if s == [] then []
    else
      assert s == [s[0]] + s[1..];
      Insert(s[0], SortBy(s[1..], le), le)
  }

  lemma {:induction false} InsertSorted<T(!new)>(x: T, s: seq<T>, le: (T, T) -> bool)
    requires TotalPreorder(le)
    requires Sorted(s, le)
    ensures Sorted(Insert(x, s, le), le)
  {
    if s != [] && !le(x, s[0]) {
      var t := Insert(x, s[1..], le);
      InsertSorted(x, s[1..], le);
      assert multiset(t) == multiset(s[1..]) + multiset{x};
      forall k | 0 <= k < |t| ensures le(s[0], t[k]) {
        assert t[k] in multiset(t);
        if t[k] == x {
        } else {
          assert t[k] in multiset(s[1..]);
          var j :| 0 <= j < |s[1..]| && s[1..][j] == t[k];
          assert s[j + 1] == t[k];
        }
      }
    }
  }

  /** The result of SortBy is ordered by `le`. */
  lemma {:induction false} SortBySorted<T(!new)>(s: seq<T>, le: (T, T) -> bool)
    requires TotalPreorder(le)
    ensures Sorted(SortBy(s, le), le)
  {
    if s != [] {
      SortBySorted(s[1..], le);
      InsertSorted(s[0], SortBy(s[1..], le), le);
    }
  }

  /** Membership in a filtered table: a record of the table that satisfies `p`. */
  lemma FilterMembers<T(!new)>(s: seq<T>, p: T -> bool)
    ensures forall x :: x in Filter(s, p) <==> x in s && p(x)
  {
    var r := Filter(s, p);
    forall x ensures x in r <==> x in s && p(x) {
      assert x in r <==> multiset(r)[x] > 0;
      assert x in s <==> multiset(s)[x] > 0;
    }
  }

  /**
   * Filtering then sorting selects exactly the matching records, with their
   * multiplicities and in order.
   */
  lemma SortedSelection<T(!new)>(s: seq<T>, p: T -> bool, le: (T, T) -> bool)
    requires TotalPreorder(le)
    ensures forall x :: (multiset(SortBy(Filter(s, p), le))[x] ==
      if p(x) then multiset(s)[x] else 0)
    ensures forall x :: (x in SortBy(Filter(s, p), le) <==> x in s && p(x))
    ensures Sorted(SortBy(Filter(s, p), le), le)
  {
    var f := Filter(s, p);
    var r := SortBy(f, le);
    FilterMembers(s, p);
    forall x ensures x in r <==> x in f {
      assert x in r <==> multiset(r)[x] > 0;
      assert x in f <==> multiset(f)[x] > 0;
    }
    SortBySorted(f, le);
  }
}
