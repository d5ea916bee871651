/**
 * The host's stable `sort` with a comparison given by the caller, where `le(x, y)` stands for
 * "the comparison of x with y is not positive", its `filter`, and how the two meet.
 */
module Sorting {

  function Insert<T>(x: T, xs: seq<T>, le: (T, T) -> bool): (r: seq<T>)
    ensures multiset(r) == multiset(xs) + multiset{x}
    ensures |r| == |xs| + 1
  {
    if xs == [] || le(x, xs[0]) then [x] + xs
    else
      assert xs == [xs[0]] + xs[1..];
      [xs[0]] + Insert(x, xs[1..], le)
  }

  function Sort<T>(xs: seq<T>, le: (T, T) -> bool): (r: seq<T>)
    ensures multiset(r) == multiset(xs)
    ensures |r| == |xs|
  {
    if xs == [] then []
    else
      assert xs == [xs[0]] + xs[1..];
      Insert(xs[0], Sort(xs[1..], le), le)
  }

  lemma SortKeepsMembers<T>(xs: seq<T>, le: (T, T) -> bool, x: T)
    ensures x in Sort(xs, le) <==> x in xs
  {
    assert x in Sort(xs, le) <==> x in multiset(Sort(xs, le));
    assert x in xs <==> x in multiset(xs);
  }

  // ----- order

  ghost predicate TotalPreorder<T(!new)>(le: (T, T) -> bool) {
    && (forall x, y :: le(x, y) || le(y, x))
    && (forall x, y, z :: le(x, y) && le(y, z) ==> le(x, z))
  }

  ghost predicate IsSorted<T>(xs: seq<T>, le: (T, T) -> bool) {
    forall i, j :: 0 <= i < j < |xs| ==> le(xs[i], xs[j])
  }

  ghost predicate Antisymmetric<T>(xs: seq<T>, le: (T, T) -> bool) {
    forall x, y :: x in xs && y in xs && le(x, y) && le(y, x) ==> x == y
  }

  lemma {:induction false} InsertSorts<T(!new)>(x: T, xs: seq<T>, le: (T, T) -> bool)
    requires TotalPreorder(le) && IsSorted(xs, le)
    ensures IsSorted(Insert(x, xs, le), le)
  {
    var r := Insert(x, xs, le);
    if xs == [] {
    } else if le(x, xs[0]) {
      forall j | 0 < j < |r| ensures le(r[0], r[j]) {
        assert r[j] == xs[j - 1];
        assert j - 1 > 0 ==> le(xs[0], xs[j - 1]);
      }
    } else {
      var tail := Insert(x, xs[1..], le);
      InsertSorts(x, xs[1..], le);
      forall j | 0 < j < |r| ensures le(r[0], r[j]) {
        assert r[j] == tail[j - 1] && tail[j - 1] in multiset(tail);
        assert multiset(tail) == multiset(xs[1..]) + multiset{x};
        if r[j] != x {
          assert r[j] in xs[1..];
          var k :| 0 <= k < |xs[1..]| && xs[1..][k] == r[j];
          assert le(xs[0], xs[k + 1]);
        }
      }
    }
  }

  lemma {:induction false} SortSorts<T(!new)>(xs: seq<T>, le: (T, T) -> bool)
    requires TotalPreorder(le)
    ensures IsSorted(Sort(xs, le), le)
  {
    if xs != [] {
      SortSorts(xs[1..], le);
      InsertSorts(xs[0], Sort(xs[1..], le), le);
    }
  }

  lemma SameHead<T(!new)>(xs: seq<T>, ys: seq<T>, le: (T, T) -> bool)
    requires IsSorted(xs, le) && IsSorted(ys, le) && Antisymmetric(xs, le) && TotalPreorder(le)
    requires xs != [] && ys != [] && xs[0] in ys && ys[0] in xs
    ensures xs[0] == ys[0]
  {
    var i :| 0 <= i < |ys| && ys[i] == xs[0];
    var j :| 0 <= j < |xs| && xs[j] == ys[0];
    assert le(ys[0], ys[i]) && le(xs[0], xs[j]);
  }

  lemma TailMultiset<T>(xs: seq<T>)
    requires xs != []
    ensures multiset(xs) == multiset(xs[1..]) + multiset{xs[0]}
  {
    assert xs == [xs[0]] + xs[1..];
  }

  /** With no ties, a collection has only one sorted arrangement. */
  lemma {:induction false} SortedIsUnique<T(!new)>(xs: seq<T>, ys: seq<T>, le: (T, T) -> bool)
    requires IsSorted(xs, le) && IsSorted(ys, le) && multiset(xs) == multiset(ys) && Antisymmetric(xs, le)
    requires TotalPreorder(le)
    ensures xs == ys
  {
    hide TotalPreorder;
    if xs == [] {
      assert |multiset(ys)| == |ys|;
    } else {
      TailMultiset(xs);
      assert xs[0] in multiset(ys) && xs[0] in ys;
      TailMultiset(ys);
      assert ys[0] in multiset(xs) && ys[0] in xs;
      SameHead(xs, ys, le);
      assert multiset(xs[1..]) == multiset(ys[1..]) by { CancelOne(multiset(xs[1..]), multiset(ys[1..]), xs[0]); }
      assert forall x :: x in xs[1..] ==> x in xs;
      SortedIsUnique(xs[1..], ys[1..], le);
      assert xs == [xs[0]] + xs[1..] && ys == [ys[0]] + ys[1..];
    }
  }

  lemma CancelOne<T>(a: multiset<T>, b: multiset<T>, x: T)
    requires a + multiset{x} == b + multiset{x}
    ensures a == b
  {
    assert a == a + multiset{x} - multiset{x};
  }

  // ----- stability

  lemma {:induction false} SortOfSorted<T>(xs: seq<T>, le: (T, T) -> bool)
    requires IsSorted(xs, le)
    ensures Sort(xs, le) == xs
  {
    if xs != [] {
      SortOfSorted(xs[1..], le);
      assert |xs| > 1 ==> le(xs[0], xs[1]);
      assert xs == [xs[0]] + xs[1..];
    }
  }

  function Filter<T>(xs: seq<T>, keep: T -> bool): seq<T> {
    if xs == [] then []
    else if keep(xs[0]) then [xs[0]] + Filter(xs[1..], keep)
    else Filter(xs[1..], keep)
  }

  lemma {:induction false} FilterConcat<T>(xs: seq<T>, ys: seq<T>, keep: T -> bool)
    ensures Filter(xs + ys, keep) == Filter(xs, keep) + Filter(ys, keep)
  {
    if xs == [] {
      assert xs + ys == ys;
    } else {
      assert (xs + ys)[1..] == xs[1..] + ys;
      FilterConcat(xs[1..], ys, keep);
    }
  }

  lemma {:induction false} FilterCount<T>(xs: seq<T>, keep: T -> bool, x: T)
    ensures multiset(Filter(xs, keep))[x] == if keep(x) then multiset(xs)[x] else 0
  {
    if xs != [] {
      FilterCount(xs[1..], keep, x);
      assert xs == [xs[0]] + xs[1..];
    }
  }

  lemma FilterMembers<T>(xs: seq<T>, keep: T -> bool, x: T)
    ensures x in Filter(xs, keep) <==> x in xs && keep(x)
  {
    FilterCount(xs, keep, x);
    assert x in Filter(xs, keep) <==> x in multiset(Filter(xs, keep));
    assert x in xs <==> x in multiset(xs);
  }

  lemma {:induction false} FilterOfUniform<T>(xs: seq<T>, keep: T -> bool, all: bool)
    requires forall x :: x in xs ==> keep(x) == all
    ensures Filter(xs, keep) == if all then xs else []
  {
    if xs != [] {
      assert xs[0] in xs;
      assert forall x :: x in xs[1..] ==> x in xs;
      FilterOfUniform(xs[1..], keep, all);
      assert xs == [xs[0]] + xs[1..];
    }
  }

  lemma {:induction false} FilterAgrees<T>(xs: seq<T>, keep: T -> bool, keep': T -> bool)
    requires forall x :: x in xs ==> keep(x) == keep'(x)
    ensures Filter(xs, keep) == Filter(xs, keep')
  {
    if xs != [] {
      assert xs[0] in xs;
      assert forall x :: x in xs[1..] ==> x in xs;
      FilterAgrees(xs[1..], keep, keep');
    }
  }

  lemma {:induction false} FilterKeepsSorted<T>(xs: seq<T>, keep: T -> bool, le: (T, T) -> bool)
    requires IsSorted(xs, le)
    ensures IsSorted(Filter(xs, keep), le)
  {
    if xs != [] {
      FilterKeepsSorted(xs[1..], keep, le);
      var rest := Filter(xs[1..], keep);
      forall j | 0 <= j < |rest| ensures le(xs[0], rest[j]) {
        FilterMembers(xs[1..], keep, rest[j]);
        var k :| 0 <= k < |xs[1..]| && xs[1..][k] == rest[j];
        assert le(xs[0], xs[k + 1]);
      }
    }
  }

  lemma {:induction false} FilterOfInsert<T(!new)>(x: T, xs: seq<T>, keep: T -> bool, le: (T, T) -> bool)
    requires TotalPreorder(le) && IsSorted(xs, le)
    ensures Filter(Insert(x, xs, le), keep)
         == if keep(x) then Insert(x, Filter(xs, keep), le) else Filter(xs, keep)
  {
    if xs == [] || le(x, xs[0]) {
      assert ([x] + xs)[1..] == xs;
      var kept := Filter(xs, keep);
      if kept != [] {
        FilterMembers(xs, keep, kept[0]);
        var k :| 0 <= k < |xs| && xs[k] == kept[0];
        assert k > 0 ==> le(xs[0], xs[k]);
        assert le(x, kept[0]);
      }
    } else {
      FilterOfInsert(x, xs[1..], keep, le);
      var rest := Insert(x, xs[1..], le);
      assert ([xs[0]] + rest)[1..] == rest;
      assert ([xs[0]] + Filter(xs[1..], keep))[1..] == Filter(xs[1..], keep);
    }
  }

  /** A stable sort keeps the relative order of what it ties, so it commutes with filtering. */
  lemma {:induction false} FilterOfSort<T(!new)>(xs: seq<T>, keep: T -> bool, le: (T, T) -> bool)
    requires TotalPreorder(le)
    ensures Filter(Sort(xs, le), keep) == Sort(Filter(xs, keep), le)
  {
    hide TotalPreorder, Insert;
    if xs != [] {
      FilterOfSort(xs[1..], keep, le);
      SortSorts(xs[1..], le);
      FilterOfInsert(xs[0], Sort(xs[1..], le), keep, le);
      assert keep(xs[0]) ==> ([xs[0]] + Filter(xs[1..], keep))[1..] == Filter(xs[1..], keep);
    }
  }

  // ----- sequences without duplicates

  ghost predicate NoDuplicates<T>(s: seq<T>) {
    forall i, j :: 0 <= i < j < |s| ==> s[i] != s[j]
  }

  lemma {:induction false} OccursOnce<T>(s: seq<T>, x: T)
    requires NoDuplicates(s)
    ensures multiset(s)[x] == if x in s then 1 else 0
  {
    if s != [] {
      OccursOnce(s[1..], x);
      assert s == [s[0]] + s[1..];
      assert forall i :: 0 < i < |s| ==> s[i] != s[0];
    }
  }
}
