/** Sets and lists of nodes whose character spans tile a stretch of the document. */
module Spans {
  import opened Sorting
  import opened Forest
  import opened Slices

  function Start(nodes: Nodes, x: Id): int {
    if x in nodes then nodes[x].spanStart else 0
  }

  function End(nodes: Nodes, x: Id): int {
    if x in nodes then nodes[x].spanEnd else 0
  }

  /** The ordering of a sort by `span_start`. */
  function ByStart(nodes: Nodes): (Id, Id) -> bool {
    (a, b) => Start(nodes, a) <= Start(nodes, b)
  }

  ghost predicate Hit(nodes: Nodes, f: set<Id>, t: int) {
    exists x :: x in f && Start(nodes, x) <= t < End(nodes, x)
  }

  ghost predicate Apart(nodes: Nodes, x: Id, y: Id) {
    End(nodes, x) <= Start(nodes, y) || End(nodes, y) <= Start(nodes, x)
  }

  /** The spans of `f` are non-empty, do not overlap, stay in [lo, hi) and leave no position of it out. */
  ghost predicate Partitions(nodes: Nodes, f: set<Id>, lo: int, hi: int) {
    && (forall x :: x in f ==> lo <= Start(nodes, x) < End(nodes, x) <= hi)
    && (forall x, y :: x in f && y in f && x != y ==> Apart(nodes, x, y))
    && (forall t :: lo <= t < hi ==> Hit(nodes, f, t))
  }

  /** Read in this order, each span starts where the one before it ends, from `lo` to `hi`. */
  ghost predicate Contiguous(nodes: Nodes, s: seq<Id>, lo: int, hi: int) {
    && s != []
    && Start(nodes, s[0]) == lo
    && (forall i :: 0 <= i < |s| - 1 ==> End(nodes, s[i]) == Start(nodes, s[i + 1]))
    && End(nodes, s[|s| - 1]) == hi
  }

  /** `b` starts where `a` ends, or after a gap of whitespace. */
  predicate Joins(nodes: Nodes, a: Id, b: Id, text: string, isSpace: char -> bool) {
    End(nodes, a) <= Start(nodes, b) && OnlySpace(text, isSpace, End(nodes, a), Start(nodes, b))
  }

  /** Read in this order, the spans run from `lo` to `hi` without overlap, with nothing but whitespace between them. */
  ghost predicate Runs(nodes: Nodes, s: seq<Id>, lo: int, hi: int, text: string, isSpace: char -> bool) {
    && s != []
    && Start(nodes, s[0]) == lo
    && (forall i :: 0 <= i < |s| - 1 ==> Joins(nodes, s[i], s[i + 1], text, isSpace))
    && End(nodes, s[|s| - 1]) == hi
  }

  /** Without a text to look gaps up in, running is being contiguous; contiguous spans run with any text. */
  lemma RunsWithoutText(nodes: Nodes, s: seq<Id>, lo: int, hi: int, text: string, isSpace: char -> bool)
    ensures Runs(nodes, s, lo, hi, "", isSpace) <==> Contiguous(nodes, s, lo, hi)
    ensures Contiguous(nodes, s, lo, hi) ==> Runs(nodes, s, lo, hi, text, isSpace)
  {
    if Runs(nodes, s, lo, hi, "", isSpace) {
      assert forall i :: 0 <= i < |s| - 1 ==> Joins(nodes, s[i], s[i + 1], "", isSpace);
    }
  }

  lemma RunsConcat(nodes: Nodes, a: seq<Id>, b: seq<Id>, lo: int, endA: int, startB: int, hi: int, text: string,
                   isSpace: char -> bool)
    requires Runs(nodes, a, lo, endA, text, isSpace) && Runs(nodes, b, startB, hi, text, isSpace)
    requires endA <= startB && OnlySpace(text, isSpace, endA, startB)
    ensures Runs(nodes, a + b, lo, hi, text, isSpace)
  {
    var s := a + b;
    forall i | 0 <= i < |s| - 1 ensures Joins(nodes, s[i], s[i + 1], text, isSpace) {
      if i + 1 < |a| {
        assert Joins(nodes, a[i], a[i + 1], text, isSpace);
      } else if i >= |a| {
        assert Joins(nodes, b[i - |a|], b[i - |a| + 1], text, isSpace);
      }
    }
  }

  lemma {:induction false} RunsForward(nodes: Nodes, s: seq<Id>, lo: int, hi: int, text: string, isSpace: char -> bool,
                                       i: int, j: int)
    requires Runs(nodes, s, lo, hi, text, isSpace) && 0 <= i < j < |s|
    requires forall k :: 0 <= k < |s| ==> Start(nodes, s[k]) < End(nodes, s[k])
    ensures End(nodes, s[i]) <= Start(nodes, s[j])
    decreases j - i
  {
    assert Joins(nodes, s[i], s[i + 1], text, isSpace);
    if i + 1 < j { RunsForward(nodes, s, lo, hi, text, isSpace, i + 1, j); }
  }

  lemma SortedApart(nodes: Nodes, s: seq<Id>)
    requires Distinct(s) && Sorted(ByStart(nodes), s)
    requires forall i :: 0 <= i < |s| ==> Start(nodes, s[i]) < End(nodes, s[i])
    requires forall i, j :: 0 <= i < j < |s| ==> Apart(nodes, s[i], s[j])
    ensures forall i, j :: 0 <= i < j < |s| ==> End(nodes, s[i]) <= Start(nodes, s[j])
  {
    forall i, j | 0 <= i < j < |s| ensures End(nodes, s[i]) <= Start(nodes, s[j]) {
      assert ByStart(nodes)(s[i], s[j]);
    }
  }

  /** The members of a sorted list of disjoint spans that hold a given position. */
  lemma HitIndex(nodes: Nodes, s: seq<Id>, f: set<Id>, t: int) returns (k: nat)
    requires Hit(nodes, f, t) && forall x :: x in s <==> x in f
    ensures k < |s| && Start(nodes, s[k]) <= t < End(nodes, s[k])
  {
    var x :| x in f && Start(nodes, x) <= t < End(nodes, x);
    k :| 0 <= k < |s| && s[k] == x;
  }

  /** Sorted by start, a partition is contiguous. */
  lemma PartitionIsContiguous(nodes: Nodes, s: seq<Id>, f: set<Id>, lo: int, hi: int)
    requires Partitions(nodes, f, lo, hi) && s != []
    requires Distinct(s) && Sorted(ByStart(nodes), s) && forall x :: x in s <==> x in f
    ensures Contiguous(nodes, s, lo, hi)
  {
    forall i | 0 <= i < |s| ensures lo <= Start(nodes, s[i]) < End(nodes, s[i]) <= hi { assert s[i] in f; }
    forall i, j | 0 <= i < j < |s| ensures Apart(nodes, s[i], s[j]) { assert s[i] in f && s[j] in f; }
    SortedApart(nodes, s);
    assert forall t :: lo <= t < hi ==> Hit(nodes, f, t);
    hide Partitions;
    assert lo <= Start(nodes, s[0]) < End(nodes, s[0]) <= hi;
    var first := HitIndex(nodes, s, f, lo);
    var last := HitIndex(nodes, s, f, hi - 1);
    forall i | 0 <= i < |s| - 1 ensures End(nodes, s[i]) == Start(nodes, s[i + 1]) {
      var k := HitIndex(nodes, s, f, Start(nodes, s[i + 1]) - 1);
    }
  }

  lemma {:induction false} ContiguousOrder(nodes: Nodes, s: seq<Id>, lo: int, hi: int, i: int, j: int)
    requires Contiguous(nodes, s, lo, hi) && 0 <= i < j < |s|
    requires forall k :: 0 <= k < |s| ==> Start(nodes, s[k]) < End(nodes, s[k])
    ensures End(nodes, s[i]) <= Start(nodes, s[j])
    decreases j - i
  {
    if i + 1 < j { ContiguousOrder(nodes, s, lo, hi, i + 1, j); }
  }

  lemma {:induction false} ContiguousHits(nodes: Nodes, s: seq<Id>, f: set<Id>, lo: int, hi: int, i: nat, t: int)
    requires Contiguous(nodes, s, lo, hi) && (forall x :: x in s ==> x in f)
    requires i < |s| && Start(nodes, s[i]) <= t < hi
    ensures Hit(nodes, f, t)
    decreases |s| - i
  {
    if End(nodes, s[i]) <= t {
      ContiguousHits(nodes, s, f, lo, hi, i + 1, t);
    } else {
      assert s[i] in f;
    }
  }

  /** Contiguous non-empty spans are a partition, and sorted by start. */
  lemma ContiguousIsPartition(nodes: Nodes, s: seq<Id>, f: set<Id>, lo: int, hi: int)
    requires Contiguous(nodes, s, lo, hi) && (forall x :: x in s <==> x in f)
    requires forall k :: 0 <= k < |s| ==> Start(nodes, s[k]) < End(nodes, s[k])
    ensures Partitions(nodes, f, lo, hi)
  {
    forall i, j | 0 <= i < j < |s| ensures End(nodes, s[i]) <= Start(nodes, s[j]) {
      ContiguousOrder(nodes, s, lo, hi, i, j);
    }
    forall t | lo <= t < hi ensures Hit(nodes, f, t) {
      ContiguousHits(nodes, s, f, lo, hi, 0, t);
    }
    forall x | x in f ensures lo <= Start(nodes, x) < End(nodes, x) <= hi {
      var k :| 0 <= k < |s| && s[k] == x;
    }
    forall x, y | x in f && y in f && x != y ensures Apart(nodes, x, y) {
      var i :| 0 <= i < |s| && s[i] == x;
      var j :| 0 <= j < |s| && s[j] == y;
      if i < j { assert End(nodes, s[i]) <= Start(nodes, s[j]); }
    }
  }
}
