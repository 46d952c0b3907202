/**
 Python's `sorted` and `list.sort`: a stable sort by an ordering `le` on the elements.
 The rest of the project uses only the properties proved here.
 */
module Sorting {

  ghost predicate TotalPreorder<T(!new)>(le: (T, T) -> bool) {
    && (forall x, y :: le(x, y) || le(y, x))
    && (forall x, y, z :: le(x, y) && le(y, z) ==> le(x, z))
  }

  ghost predicate Antisymmetric<T(!new)>(le: (T, T) -> bool) {
    forall x, y :: le(x, y) && le(y, x) ==> x == y
  }

  ghost predicate Sorted<T>(le: (T, T) -> bool, s: seq<T>) {
    forall i, j :: 0 <= i < j < |s| ==> le(s[i], s[j])
  }

  ghost predicate Distinct<T>(s: seq<T>) {
    forall i, j :: 0 <= i < j < |s| ==> s[i] != s[j]
  }

  function Insert<T>(le: (T, T) -> bool, x: T, s: seq<T>): (r: seq<T>)
    ensures multiset(r) == multiset([x] + s)
  {
    if s == [] || le(x, s[0]) then [x] + s
    else
      assert s == [s[0]] + s[1..];
      [s[0]] + Insert(le, x, s[1..])
  }

  function StableSort<T>(le: (T, T) -> bool, s: seq<T>): (r: seq<T>)
    ensures multiset(r) == multiset(s)
  {
    if s == [] then [] else
      assert s == [s[0]] + s[1..];
      Insert(le, s[0], StableSort(le, s[1..]))
  }

  lemma SameMembers<T>(s: seq<T>, t: seq<T>)
    requires multiset(s) == multiset(t)
    ensures |s| == |t| && forall x :: x in s <==> x in t
  {
    assert |s| == |multiset(s)|;
    forall x ensures x in s <==> x in t {
      assert x in s <==> x in multiset(s);
      assert x in t <==> x in multiset(t);
    }
  }

  lemma {:induction false} InsertSorted<T(!new)>(le: (T, T) -> bool, x: T, s: seq<T>)
    requires TotalPreorder(le) && Sorted(le, s)
    ensures Sorted(le, Insert(le, x, s))
  {
    if s == [] || le(x, s[0]) {
    } else {
      InsertSorted(le, x, s[1..]);
      var r := Insert(le, x, s[1..]);
      SameMembers(r, [x] + s[1..]);
      forall j | 0 <= j < |r| ensures le(s[0], r[j]) {
        assert r[j] in [x] + s[1..];
      }
    }
  }

  /** Sorting gives a sorted permutation of the input. */
  lemma {:induction false} SortSorts<T(!new)>(le: (T, T) -> bool, s: seq<T>)
    requires TotalPreorder(le)
    ensures Sorted(le, StableSort(le, s))
    ensures |StableSort(le, s)| == |s| && forall x :: x in StableSort(le, s) <==> x in s
  {
    SameMembers(StableSort(le, s), s);
    if s != [] {
      SortSorts(le, s[1..]);
      InsertSorted(le, s[0], StableSort(le, s[1..]));
    }
  }

  /** Sorting leaves a sorted list as it is, ties included. */
  lemma {:induction false} SortKeepsSorted<T>(le: (T, T) -> bool, s: seq<T>)
    requires Sorted(le, s)
    ensures StableSort(le, s) == s
  {
    if s != [] {
      SortKeepsSorted(le, s[1..]);
    }
  }

  /** Sorting a duplicate-free list gives a duplicate-free list. */
  lemma SortDistinct<T>(le: (T, T) -> bool, s: seq<T>)
    requires Distinct(s)
    ensures Distinct(StableSort(le, s))
  {
    DistinctCounts(s);
    var r := StableSort(le, s);
    forall i, j | 0 <= i < j < |r| ensures r[i] != r[j] {
      assert r == r[..j] + r[j..];
      assert r[i] in multiset(r[..j]) && r[j] in multiset(r[j..]);
      assert r[j] in multiset(s);
    }
  }

  lemma {:induction false} DistinctCounts<T>(s: seq<T>)
    requires Distinct(s)
    ensures forall x :: x in s ==> multiset(s)[x] == 1
  {
    if s != [] {
      DistinctCounts(s[1..]);
      assert s == [s[0]] + s[1..];
      assert s[0] !in s[1..];
      forall x | x in s ensures multiset(s)[x] == 1 {
        if x != s[0] { assert x in s[1..]; }
      }
    }
  }

  /** A duplicate-free list is as long as the set of its elements is large. */
  lemma {:induction false} DistinctSize<T>(s: seq<T>)
    requires Distinct(s)
    ensures |set x | x in s| == |s|
  {
    if s != [] {
      DistinctSize(s[1..]);
      assert (set x | x in s) == (set x | x in s[1..]) + {s[0]};
      assert s[0] !in s[1..];
    }
  }

  /** A sorted list is determined by its elements when ties are impossible. */
  lemma {:induction false} SortedUnique<T>(le: (T, T) -> bool, s: seq<T>, t: seq<T>)
    requires forall x, y :: x in s && y in s && le(x, y) && le(y, x) ==> x == y
    requires Sorted(le, s) && Sorted(le, t)
    requires Distinct(s) && Distinct(t)
    requires forall x :: x in s <==> x in t
    ensures s == t
  {
    if s == [] {
      assert forall i :: 0 <= i < |t| ==> t[i] in t;
    } else {
      assert s[0] in t;
      assert t[0] in s;
      assert s[0] == t[0];
      forall x ensures x in s[1..] <==> x in t[1..] {
        assert x in s[1..] <==> x in s && x != s[0];
        assert x in t[1..] <==> x in t && x != t[0];
      }
      SortedUnique(le, s[1..], t[1..]);
      assert s == [s[0]] + s[1..] && t == [t[0]] + t[1..];
    }
  }

  // ----- stability -----

  /** `x` stands somewhere before `y`. */
  ghost predicate Before<T>(s: seq<T>, x: T, y: T) {
    exists i, j :: 0 <= i < j < |s| && s[i] == x && s[j] == y
  }

  lemma BeforeCons<T>(h: T, t: seq<T>, x: T, y: T)
    ensures Before([h] + t, x, y) <==> (h == x && y in t) || Before(t, x, y)
  {
    var s := [h] + t;
    if Before(s, x, y) {
      var i, j :| 0 <= i < j < |s| && s[i] == x && s[j] == y;
      assert s[j] == t[j - 1];
      if i > 0 { assert s[i] == t[i - 1]; }
    }
    if h == x && y in t {
      var j :| 0 <= j < |t| && t[j] == y;
      assert s[0] == x && s[j + 1] == y;
    }
    if Before(t, x, y) {
      var i, j :| 0 <= i < j < |t| && t[i] == x && t[j] == y;
      assert s[i + 1] == x && s[j + 1] == y;
    }
  }

  lemma {:induction false} InsertBefore<T>(le: (T, T) -> bool, x: T, s: seq<T>, y: T)
    requires y in s && le(x, y)
    ensures Before(Insert(le, x, s), x, y)
  {
    if s == [] || le(x, s[0]) {
      BeforeCons(x, s, x, y);
    } else {
      InsertBefore(le, x, s[1..], y);
      BeforeCons(s[0], Insert(le, x, s[1..]), x, y);
    }
  }

  lemma {:induction false} InsertKeepsBefore<T>(le: (T, T) -> bool, h: T, s: seq<T>, x: T, y: T)
    requires Before(s, x, y)
    ensures Before(Insert(le, h, s), x, y)
  {
    if s == [] || le(h, s[0]) {
      BeforeCons(h, s, x, y);
    } else {
      var rest := Insert(le, h, s[1..]);
      assert s == [s[0]] + s[1..];
      BeforeCons(s[0], s[1..], x, y);
      if Before(s[1..], x, y) { InsertKeepsBefore(le, h, s[1..], x, y); }
      SameMembers(rest, [h] + s[1..]);
      BeforeCons(s[0], rest, x, y);
    }
  }

  /** Sorting is stable: what stands before and may stay before, stays before. */
  lemma {:induction false} SortIsStable<T>(le: (T, T) -> bool, s: seq<T>, x: T, y: T)
    requires Before(s, x, y) && le(x, y)
    ensures Before(StableSort(le, s), x, y)
  {
    assert s == [s[0]] + s[1..];
    BeforeCons(s[0], s[1..], x, y);
    if Before(s[1..], x, y) {
      SortIsStable(le, s[1..], x, y);
      InsertKeepsBefore(le, s[0], StableSort(le, s[1..]), x, y);
    } else {
      SameMembers(StableSort(le, s[1..]), s[1..]);
      InsertBefore(le, s[0], StableSort(le, s[1..]), y);
    }
  }

  lemma OneIsBefore<T>(s: seq<T>, x: T, y: T)
    requires x in s && y in s && x != y
    ensures Before(s, x, y) || Before(s, y, x)
  {
    var i :| 0 <= i < |s| && s[i] == x;
    var j :| 0 <= j < |s| && s[j] == y;
  }

  lemma NotBothWays<T>(s: seq<T>, x: T, y: T)
    requires Distinct(s) && Before(s, x, y)
    ensures !Before(s, y, x)
  {
  }

  /** Of two elements that may stand either way the one that stood first stands first. */
  lemma SortKeepsTies<T(!new)>(le: (T, T) -> bool, s: seq<T>, i: nat, j: nat)
    requires TotalPreorder(le) && Distinct(s) && i < j < |StableSort(le, s)|
    requires le(StableSort(le, s)[j], StableSort(le, s)[i])
    ensures Before(s, StableSort(le, s)[i], StableSort(le, s)[j])
  {
    var r := StableSort(le, s);
    SortSorts(le, s);
    SortDistinct(le, s);
    assert r[i] in s && r[j] in s;
    hide StableSort;
    OneIsBefore(s, r[i], r[j]);
    if Before(s, r[j], r[i]) {
      SortIsStable(le, s, r[j], r[i]);
      NotBothWays(r, r[j], r[i]);
    }
  }

  // ----- first occurrences -----

  /** The first occurrence of every element, in order. */
  ghost function FirstOccurrences<T>(s: seq<T>): seq<T> {
    if s == [] then [] else
      var rest, last := FirstOccurrences(s[..|s| - 1]), s[|s| - 1];
      if last in s[..|s| - 1] then rest else rest + [last]
  }

  lemma FirstOccurrencesMore<T>(s: seq<T>, x: T)
    ensures FirstOccurrences(s + [x]) == if x in s then FirstOccurrences(s) else FirstOccurrences(s) + [x]
  {
    assert (s + [x])[..|s|] == s;
  }

  /** They are the elements, none of them twice. */
  lemma {:induction false} FirstOccurrencesMembers<T>(s: seq<T>)
    ensures forall x :: x in FirstOccurrences(s) <==> x in s
    ensures Distinct(FirstOccurrences(s))
  {
    if s != [] {
      FirstOccurrencesMembers(s[..|s| - 1]);
      assert s == s[..|s| - 1] + [s[|s| - 1]];
    }
  }

  /** At some point of `s`, `x` has been seen and `y` has not. */
  ghost predicate SeenBefore<T>(s: seq<T>, x: T, y: T) {
    exists k :: 0 <= k <= |s| && x in s[..k] && y !in s[..k]
  }

  /** They are listed in the order in which they first occur. */
  lemma {:induction false} FirstOccurrencesOrder<T>(s: seq<T>, x: T, y: T)
    requires Before(FirstOccurrences(s), x, y)
    ensures SeenBefore(s, x, y)
  {
    var front, last := s[..|s| - 1], s[|s| - 1];
    var f, r := FirstOccurrences(front), FirstOccurrences(s);
    FirstOccurrencesMembers(front);
    var i, j :| 0 <= i < j < |r| && r[i] == x && r[j] == y;
    assert r[i] == f[i];
    assert x in f;
    if j < |f| {
      assert f[j] == y;
      FirstOccurrencesOrder(front, x, y);
      var k :| 0 <= k <= |front| && x in front[..k] && y !in front[..k];
      assert front[..k] == s[..k];
    } else {
      assert front == s[..|front|] && r == f + [last];
    }
  }
}
