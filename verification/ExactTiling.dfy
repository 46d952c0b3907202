/** Span coverage of the greedy tiling: gapless but for whitespace, non-overlapping, and accepted by
    `validate_tiling`. */
module ExactTiling {
  import opened Options
  import opened Sorting
  import opened Forest
  import opened Rollups
  import opened Spans
  import opened TreeOrder
  import opened GreedyTiling
  import opened ValidateTiling

  /** The tiling returned for any budget is a cut. */
  lemma ResultIsCutTop(nodes: Nodes, scores: Scores, budget: Option<int>) returns (s: set<Id>)
    requires WellFormed(nodes)
    ensures s <= nodes.Keys && IsCut(nodes, s) && WholeFrontier(nodes, scores, budget) == Top(nodes, s)
  {
    var n := if budget.None? then 0 else StopStep(nodes, scores, Bottom(nodes), budget.value);
    FrontierIsTop(nodes, scores, Bottom(nodes), n);
    s := Settled(nodes, scores, Bottom(nodes), n);
  }

  /** In the order it is returned in, the tiling runs through the document as the roots do. */
  lemma ResultRuns(nodes: Nodes, scores: Scores, budget: Option<int>, order: seq<Id>, roots: seq<Id>,
                   lo: int, hi: int, text: string, isSpace: char -> bool)
    requires WellFormed(nodes) && SpansFill(nodes, text, isSpace)
    requires (forall x :: x in roots <==> x in Roots(nodes)) && Runs(nodes, roots, lo, hi, text, isSpace)
    requires Lists(nodes, order, WholeFrontier(nodes, scores, budget))
    ensures Runs(nodes, order, lo, hi, text, isSpace)
  {
    var s := ResultIsCutTop(nodes, scores, budget);
    CutRuns(nodes, s, order, roots, lo, hi, text, isSpace);
  }

  lemma ListedByStart(nodes: Nodes, s: seq<Id>, f: set<Id>)
    requires Lists(nodes, s, f)
    ensures Sorted(ByStart(nodes), s)
  {
    forall i, j | 0 <= i < j < |s| ensures ByStart(nodes)(s[i], s[j]) {
      assert DocumentOrder(nodes)(s[i], s[j]);
    }
  }

  /** Roots that partition a stretch run through it from left to right. */
  lemma PartitionRuns(nodes: Nodes, f: set<Id>, lo: int, hi: int, isSpace: char -> bool) returns (s: seq<Id>)
    requires Partitions(nodes, f, lo, hi) && lo < hi
    ensures Lists(nodes, s, f) && Runs(nodes, s, lo, hi, "", isSpace)
  {
    s := SomeListing(nodes, f);
    ListedByStart(nodes, s, f);
    assert Hit(nodes, f, lo);
    PartitionIsContiguous(nodes, s, f, lo, hi);
    RunsWithoutText(nodes, s, lo, hi, "", isSpace);
  }

  /** Where gaps are not allowed, the tiling in the order it is returned in runs from `lo` to `hi` without
      gap or overlap. */
  lemma ResultIsContiguous(nodes: Nodes, scores: Scores, budget: Option<int>, s: seq<Id>, isSpace: char -> bool,
                           lo: int, hi: int)
    requires WellFormed(nodes) && SpansFill(nodes, "", isSpace) && Partitions(nodes, Roots(nodes), lo, hi) && lo < hi
    requires Lists(nodes, s, WholeFrontier(nodes, scores, budget))
    ensures Contiguous(nodes, s, lo, hi)
  {
    var roots := PartitionRuns(nodes, Roots(nodes), lo, hi, isSpace);
    ResultRuns(nodes, scores, budget, s, roots, lo, hi, "", isSpace);
    RunsWithoutText(nodes, s, lo, hi, "", isSpace);
  }

  /** If the roots partition [lo, hi), so does the tiling returned for any budget. */
  lemma ResultPartitions(nodes: Nodes, scores: Scores, budget: Option<int>, isSpace: char -> bool, lo: int, hi: int)
    requires WellFormed(nodes) && SpansFill(nodes, "", isSpace) && Partitions(nodes, Roots(nodes), lo, hi)
    ensures Partitions(nodes, WholeFrontier(nodes, scores, budget), lo, hi)
  {
    var f := WholeFrontier(nodes, scores, budget);
    FrontierIsCovered(nodes, scores, Bottom(nodes), budget);
    forall x | x in f ensures lo < hi {
      var t := UniqueTop(nodes, nodes.Keys, x);
      assert t in Roots(nodes);
    }
    if lo < hi {
      var s := SomeListing(nodes, f);
      ResultIsContiguous(nodes, scores, budget, s, isSpace, lo, hi);
      ContiguousIsPartition(nodes, s, f, lo, hi);
    }
  }

  // ----- exactly when all cuts partition -----

  /** The covered children of every inner node partition its span. */
  ghost predicate KidsPartition(nodes: Nodes) {
    forall p :: p in nodes && Kids(nodes, p) != {} ==> Partitions(nodes, Kids(nodes, p), Start(nodes, p), End(nodes, p))
  }

  /** Every cut of the forest partitions [lo, hi). */
  ghost predicate CutsPartition(nodes: Nodes, lo: int, hi: int) {
    forall s :: s <= nodes.Keys && IsCut(nodes, s) ==> Partitions(nodes, Top(nodes, s), lo, hi)
  }

  /** Replacing a node by children that partition its span keeps a partition a partition. */
  lemma RollDown(nodes: Nodes, f: set<Id>, p: Id, lo: int, hi: int)
    requires p in nodes && Kids(nodes, p) <= f && p !in f
    requires Partitions(nodes, Rollup(nodes, f, p), lo, hi)
    requires Partitions(nodes, Kids(nodes, p), Start(nodes, p), End(nodes, p))
    ensures Partitions(nodes, f, lo, hi)
  {
    var up, kids := Rollup(nodes, f, p), Kids(nodes, p);
    assert p in up && forall x :: x in f <==> x in kids || (x in up && x != p);
    hide Kids;
    hide Rollup;
    forall x, y | x in f && y in f && x != y ensures Apart(nodes, x, y) {
      assert x !in kids ==> x in up && Apart(nodes, x, p);
      assert y !in kids ==> y in up && Apart(nodes, p, y);
    }
    forall t | lo <= t < hi ensures Hit(nodes, f, t) {
      assert Hit(nodes, up, t);
      var x :| x in up && Start(nodes, x) <= t < End(nodes, x);
      if x == p {
        assert Hit(nodes, kids, t);
        var y :| y in kids && Start(nodes, y) <= t < End(nodes, y);
        assert y in f;
      } else {
        assert x in f;
      }
    }
    forall x | x in f ensures lo <= Start(nodes, x) < End(nodes, x) <= hi { assert x !in kids ==> x in up; }
  }

  /** If a roll-up leads from one partition to another, the children partition the span of their parent. */
  lemma RolledKidsPartition(nodes: Nodes, f: set<Id>, p: Id, lo: int, hi: int)
    requires p in nodes && Kids(nodes, p) <= f && p !in f
    requires Partitions(nodes, f, lo, hi) && Partitions(nodes, Rollup(nodes, f, p), lo, hi)
    ensures Partitions(nodes, Kids(nodes, p), Start(nodes, p), End(nodes, p))
  {
    var up, kids := Rollup(nodes, f, p), Kids(nodes, p);
    assert p in up && forall x :: x in f <==> x in kids || (x in up && x != p);
    assert forall x :: x in kids ==> x !in up;
    hide Kids;
    hide Rollup;
    forall t | Start(nodes, p) <= t < End(nodes, p) ensures Hit(nodes, kids, t) {
      assert Hit(nodes, f, t);
      var x :| x in f && Start(nodes, x) <= t < End(nodes, x);
      assert x !in kids ==> x in up && Apart(nodes, x, p);
      assert x in kids;
    }
    forall x | x in kids ensures Start(nodes, p) <= Start(nodes, x) < End(nodes, x) <= End(nodes, p) {
      assert x in f;
      InsideParent(nodes, f, up, p, x, Start(nodes, x), lo, hi);
      InsideParent(nodes, f, up, p, x, End(nodes, x) - 1, lo, hi);
    }
  }

  lemma InsideParent(nodes: Nodes, f: set<Id>, up: set<Id>, p: Id, x: Id, t: int, lo: int, hi: int)
    requires Partitions(nodes, f, lo, hi) && Partitions(nodes, up, lo, hi)
    requires (forall y :: y in up && y != p ==> y in f) && x in f && x !in up
    requires Start(nodes, x) <= t < End(nodes, x)
    ensures Start(nodes, p) <= t < End(nodes, p)
  {
    assert Hit(nodes, up, t);
    var y :| y in up && Start(nodes, y) <= t < End(nodes, y);
    assert y != p ==> Apart(nodes, x, y);
  }

  /** Through the children of an inner node goes a cut, and one roll-up above it a cut through the node. */
  lemma CutBelow(nodes: Nodes, p: Id) returns (s: set<Id>)
    requires WellFormed(nodes) && p in nodes && Kids(nodes, p) != {}
    ensures s <= nodes.Keys && IsCut(nodes, s) && p !in s && IsCut(nodes, s + {p})
    ensures p in Eligible(nodes, Top(nodes, s))
  {
    var all := CutThrough(nodes, p, p);
    CutThroughIsCut(nodes, p, p);
    s := all - {p};
    forall q, c | q in s && c in Kids(nodes, q) ensures c in s {
      assert nodes[c].parent == Some(q);
      if AncestorOrSelf(nodes, p, q) { AncestorNotDeeper(nodes, p, q); }
    }
    forall c | c in Kids(nodes, p) ensures c in Top(nodes, s) {
      assert nodes[c].parent == Some(p);
      assert AncestorOrSelf(nodes, p, p);
      assert AncestorOrSelf(nodes, p, c);
    }
    assert AncestorOrSelf(nodes, p, p) && p in all;
    assert s + {p} == all;
  }

  lemma {:induction false} EveryCutPartitions(nodes: Nodes, s: set<Id>, lo: int, hi: int)
    requires WellFormed(nodes) && Partitions(nodes, Roots(nodes), lo, hi) && KidsPartition(nodes)
    requires s <= nodes.Keys && IsCut(nodes, s)
    ensures Partitions(nodes, Top(nodes, s), lo, hi)
    decreases nodes.Keys - s
  {
    SummitIsRoots(nodes);
    assert s * Bottom(nodes) == Bottom(nodes);
    ExhaustedTop(nodes, Bottom(nodes), s);
    hide WellFormed;
    hide Partitions;
    hide Coverable;
    if p :| p in Eligible(nodes, Top(nodes, s)) {
      RollupTop(nodes, s, p);
      EveryCutPartitions(nodes, s + {p}, lo, hi);
      assert p !in Top(nodes, s);
      RollDown(nodes, Top(nodes, s), p, lo, hi);
    }
  }

  /**
     Every cut partitions a stretch of the document exactly when the roots do and the covered children of
     every inner node partition its span; with an only child that falls short of its parent it is not so.
   */
  lemma CutsPartitionIff(nodes: Nodes, lo: int, hi: int)
    requires WellFormed(nodes)
    ensures CutsPartition(nodes, lo, hi) <==> Partitions(nodes, Roots(nodes), lo, hi) && KidsPartition(nodes)
  {
    hide Partitions;
    if CutsPartition(nodes, lo, hi) {
      assert IsCut(nodes, nodes.Keys) && Top(nodes, nodes.Keys) == Roots(nodes);
      forall p | p in nodes && Kids(nodes, p) != {}
        ensures Partitions(nodes, Kids(nodes, p), Start(nodes, p), End(nodes, p)) {
        var s := CutBelow(nodes, p);
        RollupTop(nodes, s, p);
        assert Partitions(nodes, Top(nodes, s + {p}), lo, hi);
        assert p !in Top(nodes, s);
        RolledKidsPartition(nodes, Top(nodes, s), p, lo, hi);
      }
    }
    if Partitions(nodes, Roots(nodes), lo, hi) && KidsPartition(nodes) {
      forall s | s <= nodes.Keys && IsCut(nodes, s) ensures Partitions(nodes, Top(nodes, s), lo, hi) {
        EveryCutPartitions(nodes, s, lo, hi);
      }
    }
  }

  /** A covered only child that covers half of its parent: the unpruned tiling leaves a hole that the root
      does not have. */
  lemma OnlyChildLeavesHole(scores: Scores)
    ensures exists nodes :: WellFormed(nodes) && Partitions(nodes, Roots(nodes), 0, 80)
                            && !Partitions(nodes, WholeFrontier(nodes, scores, None), 0, 80)
  {
    var a, r := Id("a"), Id("r");
    var nodes := map[a := Node(Some(r), None, None, 0, 40, 10), r := Node(None, Some(a), None, 0, 80, 5)];
    assert DepthOrder(nodes, map[a := 1, r := 0]);
    assert WellFormed(nodes);
    assert a in Kids(nodes, r);
    assert Bottom(nodes) == {a} && Roots(nodes) == {r};
    forall t | 0 <= t < 80 ensures Hit(nodes, {r}, t) { assert r in {r}; }
    assert !Hit(nodes, {a}, 50);
  }

  // ----- the validator's verdict -----

  /** The store holds the covered nodes as they are; it may hold more. */
  ghost predicate Stores(store: Nodes, nodes: Nodes) {
    forall x :: x in nodes ==> x in store && store[x] == nodes[x]
  }

  lemma RootBounds(store: Nodes, nodes: Nodes, roots: seq<Id>, lo: int, hi: int, text: string, isSpace: char -> bool)
    requires Runs(nodes, roots, lo, hi, text, isSpace) && (forall x :: x in roots <==> x in Roots(nodes))
    requires forall x :: x in nodes ==> Start(nodes, x) < End(nodes, x)
    ensures IsBounds(store, Some(nodes), lo, hi)
  {
    forall i | 0 <= i < |roots| ensures Start(nodes, roots[i]) < End(nodes, roots[i]) { assert roots[i] in roots; }
    assert roots[0] in roots && roots[|roots| - 1] in roots;
    forall x | x in Roots(nodes) ensures lo <= Start(nodes, x) && End(nodes, x) <= hi {
      var i :| 0 <= i < |roots| && roots[i] == x;
      if 0 < i { RunsForward(nodes, roots, lo, hi, text, isSpace, 0, i); }
      if i < |roots| - 1 { RunsForward(nodes, roots, lo, hi, text, isSpace, i, |roots| - 1); }
    }
  }

  lemma StoredRuns(store: Nodes, nodes: Nodes, s: seq<Id>, lo: int, hi: int, text: string, isSpace: char -> bool)
    requires Stores(store, nodes) && (forall x :: x in s ==> x in nodes)
    requires Runs(nodes, s, lo, hi, text, isSpace)
    ensures Runs(store, s, lo, hi, text, isSpace)
  {
    assert forall i :: 0 <= i < |s| ==> s[i] in s;
    assert forall x :: x in s ==> Start(store, x) == Start(nodes, x) && End(store, x) == End(nodes, x);
    forall i | 0 <= i < |s| - 1 ensures Joins(store, s[i], s[i + 1], text, isSpace) {
      assert Joins(nodes, s[i], s[i + 1], text, isSpace);
    }
  }

  lemma {:induction false} StoredTokens(store: Nodes, nodes: Nodes, f: set<Id>)
    requires Stores(store, nodes) && f <= nodes.Keys
    ensures Tokens(store, f) == Tokens(nodes, f)
  {
    if x :| x in f {
      SumRemove(TokensOf(store), f, x);
      SumRemove(TokensOf(nodes), f, x);
      StoredTokens(store, nodes, f - {x});
    } else {
      assert f == {};
    }
  }

  lemma StoredOrder(store: Nodes, nodes: Nodes, s: seq<Id>)
    requires Stores(store, nodes) && (forall x :: x in s ==> x in nodes) && Sorted(ByStart(nodes), s)
    ensures StableSort(ByStart(store), s) == s
  {
    hide StableSort;
    forall i, j | 0 <= i < j < |s| ensures ByStart(store)(s[i], s[j]) {
      assert ByStart(nodes)(s[i], s[j]);
      assert s[i] in s && s[j] in s;
    }
    SortKeepsSorted(ByStart(store), s);
  }

  lemma RunsPasses(store: Nodes, s: seq<Id>, text: string, preloaded: Option<Nodes>, isSpace: char -> bool,
                   lo: int, hi: int)
    requires Runs(store, s, lo, hi, text, isSpace) && IsBounds(store, preloaded, lo, hi)
    ensures NoOverlap(store, s) && SpansDocument(store, s, preloaded) && GapsAllowed(store, s, text, isSpace)
  {
    forall i | 0 <= i < |s| - 1
      ensures End(store, s[i]) <= Start(store, s[i + 1]) && GapAllowed(store, s, text, isSpace, i) {
      assert Joins(store, s[i], s[i + 1], text, isSpace);
    }
  }

  /** With no gaps, or with gaps that are whitespace of the text the validator is given. */
  ghost predicate Spaced(spacing: string, text: string) {
    spacing == "" || spacing == text
  }

  lemma RunsWithText(nodes: Nodes, s: seq<Id>, lo: int, hi: int, spacing: string, text: string, isSpace: char -> bool)
    requires Runs(nodes, s, lo, hi, spacing, isSpace) && Spaced(spacing, text)
    ensures Runs(nodes, s, lo, hi, text, isSpace)
  {
    if spacing == "" { RunsWithoutText(nodes, s, lo, hi, text, isSpace); }
  }

  /**
     `validate_tiling` accepts every cut, listed in document order, of coverage whose children fill their
     parents but for whitespace; given a limit it accepts exactly when the tokens fit. The bounds are those
     of the preloaded coverage nodes.
   */
  lemma CutValidates(nodes: Nodes, store: Nodes, s: set<Id>, order: seq<Id>, roots: seq<Id>, spacing: string,
                     text: string, limit: Option<int>, isSpace: char -> bool, lo: int, hi: int)
    requires WellFormed(nodes) && SpansFill(nodes, spacing, isSpace) && Spaced(spacing, text)
    requires s <= nodes.Keys && IsCut(nodes, s)
    requires (forall x :: x in roots <==> x in Roots(nodes)) && Runs(nodes, roots, lo, hi, spacing, isSpace)
    requires Stores(store, nodes) && Lists(nodes, order, Top(nodes, s))
    ensures IsValidTiling(order, store, text, limit, Some(nodes), isSpace) <==>
              (limit.Some? ==> Tokens(nodes, Top(nodes, s)) <= limit.value)
  {
    var f := Top(nodes, s);
    assert forall x :: x in nodes ==> Start(nodes, x) < End(nodes, x);
    assert forall x :: x in order ==> x in nodes && x in store;
    assert Members(order) == f;
    assert f <= nodes.Keys;
    assert Distinct(order);
    hide WellFormed;
    hide SpansFill;
    hide IsCut;
    hide Runs;
    hide Distinct;
    hide Tokens;
    CutRuns(nodes, s, order, roots, lo, hi, spacing, isSpace);
    RunsWithText(nodes, order, lo, hi, spacing, text, isSpace);
    RootBounds(store, nodes, roots, lo, hi, spacing, isSpace);
    ListedByStart(nodes, order, f);
    hide Lists;
    StoredTokens(store, nodes, f);
    StoredOrder(store, nodes, order);
    StoredRuns(store, nodes, order, lo, hi, text, isSpace);
    hide Stores;
    hide IsBounds;
    hide NoOverlap;
    hide SpansDocument;
    hide GapsAllowed;
    RunsPasses(store, order, text, Some(nodes), isSpace, lo, hi);
    NotEmpty(store, order, lo, hi, text, isSpace);
  }

  lemma NotEmpty(nodes: Nodes, s: seq<Id>, lo: int, hi: int, text: string, isSpace: char -> bool)
    requires Runs(nodes, s, lo, hi, text, isSpace)
    ensures s != []
  {
  }

  /** So it does the generator's result for every budget and all scores. */
  lemma ResultValidates(nodes: Nodes, store: Nodes, scores: Scores, budget: Option<int>, order: seq<Id>, roots: seq<Id>,
                        spacing: string, text: string, limit: Option<int>, isSpace: char -> bool, lo: int, hi: int)
    requires WellFormed(nodes) && SpansFill(nodes, spacing, isSpace) && Spaced(spacing, text)
    requires (forall x :: x in roots <==> x in Roots(nodes)) && Runs(nodes, roots, lo, hi, spacing, isSpace)
    requires Stores(store, nodes) && Lists(nodes, order, WholeFrontier(nodes, scores, budget))
    ensures IsValidTiling(order, store, text, limit, Some(nodes), isSpace) <==>
              (limit.Some? ==> Tokens(nodes, WholeFrontier(nodes, scores, budget)) <= limit.value)
  {
    var s := ResultIsCutTop(nodes, scores, budget);
    hide *;
    CutValidates(nodes, store, s, order, roots, spacing, text, limit, isSpace, lo, hi);
  }
}
