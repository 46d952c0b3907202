/** Stores whose overlapping children none of the shape validators in `ragzoom/validate.py` notices. */
module OverlapExamples {
  import opened Options
  import opened Sorting
  import opened Forest
  import opened Slices
  import opened Spans
  import opened TreeOrder
  import opened GreedyTiling
  import opened ValidateTiling
  import opened ExactTiling
  import opened PerfectTrees
  import opened TreeStructure

  // ----- a store with overlapping children that all three validators accept -----

  function Overlapping(): Nodes {
    map[Id("a") := Node(Some(Id("r")), None, None, 0, 7, 1),
        Id("b") := Node(Some(Id("r")), None, None, 3, 10, 1),
        Id("r") := Node(None, Some(Id("a")), Some(Id("b")), 0, 10, 1)]
  }

  lemma OverlappingIsWellFormed()
    ensures WellFormed(Overlapping())
  {
    var nodes := Overlapping();
    assert Id("a") != Id("b") && Id("r") != Id("a") && Id("r") != Id("b");
    assert DepthOrder(nodes, map[Id("a") := 1, Id("b") := 1, Id("r") := 0]);
  }

  lemma OverlappingIsPerfect()
    ensures PerfectShape(Overlapping()) && LeavesAt(Overlapping(), Id("r"), 1)
  {
    var nodes, a, b, r := Overlapping(), Id("a"), Id("b"), Id("r");
    assert a != b && r != a && r != b;
    assert nodes.Keys == {a, b, r};
    assert nodes[a].parent == Some(r) == nodes[b].parent;
    assert StepsTo(nodes, r, r, 0);
    assert StepsTo(nodes, r, a, 1) && StepsTo(nodes, r, b, 1);
    assert IsLeaf(nodes, a);
    hide StepsTo;
    assert forall x :: x in nodes && IsLeaf(nodes, x) ==> x == a || x == b;
  }

  lemma OverlapIsAccepted(isSpace: char -> bool)
    ensures WellFormed(Overlapping()) && exists texts, root :: AcceptedStore(Overlapping(), texts, "", isSpace, root, 1)
    ensures !NoChildrenOverlap(Overlapping())
  {
    OverlappingIsWellFormed();
    OverlappingIsPerfect();
    var nodes := Overlapping();
    var texts := map[Id("a") := "a", Id("b") := "b", Id("r") := "r"];
    hide WellFormed;
    hide PerfectShape;
    hide LeavesAt;
    assert Sound(nodes, texts, "", isSpace);
    assert AcceptedStore(nodes, texts, "", isSpace, Id("r"), 1);
    assert ChildrenOverlap(nodes, Id("r"));
  }

  // ----- with a text, the unpruned tiling does not decide -----

  const BLANK: string := "          "

  /** A root `n[0]` with halves `n[1]` and `n[2]`; the leaves of either half lie in the gap between those
      of the other. */
  ghost predicate Interleaves(nodes: Nodes, n: seq<Id>) {
    && |n| == 7 && Distinct(n) && nodes.Keys == Members(n) && Id("") !in n
    && nodes[n[0]] == Node(None, Some(n[1]), Some(n[2]), 0, 10, 1)
    && nodes[n[1]] == Node(Some(n[0]), Some(n[3]), Some(n[4]), 0, 7, 1)
    && nodes[n[2]] == Node(Some(n[0]), Some(n[5]), Some(n[6]), 4, 10, 1)
    && nodes[n[3]] == Node(Some(n[1]), None, None, 0, 3, 1)
    && nodes[n[4]] == Node(Some(n[1]), None, None, 6, 7, 1)
    && nodes[n[5]] == Node(Some(n[2]), None, None, 4, 5, 1)
    && nodes[n[6]] == Node(Some(n[2]), None, None, 8, 10, 1)
  }

  lemma SomeInterleave() returns (nodes: Nodes, n: seq<Id>)
    ensures Interleaves(nodes, n) && |n| == 7
  {
    n := [Id("g"), Id("l"), Id("r"), Id("l1"), Id("l2"), Id("r1"), Id("r2")];
    assert "l" != "l1" && "r" != "r1" && "l1"[1] != "l2"[1] && "r1"[1] != "r2"[1];
    assert Distinct(n);
    nodes := map[
      n[0] := Node(None, Some(n[1]), Some(n[2]), 0, 10, 1),
      n[1] := Node(Some(n[0]), Some(n[3]), Some(n[4]), 0, 7, 1),
      n[2] := Node(Some(n[0]), Some(n[5]), Some(n[6]), 4, 10, 1),
      n[3] := Node(Some(n[1]), None, None, 0, 3, 1),
      n[4] := Node(Some(n[1]), None, None, 6, 7, 1),
      n[5] := Node(Some(n[2]), None, None, 4, 5, 1),
      n[6] := Node(Some(n[2]), None, None, 8, 10, 1)];
  }

  lemma InterleavedKids(nodes: Nodes, n: seq<Id>)
    requires Interleaves(nodes, n)
    ensures forall i :: 0 <= i < 7 ==> n[i] in nodes
    ensures Kids(nodes, n[0]) == {n[1], n[2]} && Kids(nodes, n[1]) == {n[3], n[4]} && Kids(nodes, n[2]) == {n[5], n[6]}
    ensures Kids(nodes, n[3]) == Kids(nodes, n[4]) == Kids(nodes, n[5]) == Kids(nodes, n[6]) == {}
  {
    assert forall i :: 0 <= i < 7 ==> n[i] in nodes;
  }

  lemma InterleavedMembers(nodes: Nodes, n: seq<Id>, x: Id)
    requires Interleaves(nodes, n)
    ensures x in nodes <==> x == n[0] || x == n[1] || x == n[2] || x == n[3] || x == n[4] || x == n[5] || x == n[6]
  {
    assert x in nodes <==> x in n;
  }

  function Rank(n: seq<Id>, x: Id): nat
    requires |n| == 7
  {
    if x == n[0] then 0 else if x == n[1] || x == n[2] then 1 else 2
  }

  lemma InterleavedPair(nodes: Nodes, n: seq<Id>, p: Id, c: Id)
    requires Interleaves(nodes, n) && p in nodes && c in nodes
    ensures c in Kids(nodes, p) <==> nodes[c].parent == Some(p)
    ensures c in Kids(nodes, p) ==> Rank(n, p) < Rank(n, c)
  {
    InterleavedKids(nodes, n);
    InterleavedMembers(nodes, n, p);
    InterleavedMembers(nodes, n, c);
    hide Kids;
  }

  lemma InterleavedIsWellFormed(nodes: Nodes, n: seq<Id>)
    requires Interleaves(nodes, n)
    ensures WellFormed(nodes)
  {
    var depth: map<Id, nat> := map x | x in nodes :: Rank(n, x);
    forall p, c | p in nodes && c in nodes
      ensures c in Kids(nodes, p) <==> nodes[c].parent == Some(p)
      ensures c in Kids(nodes, p) ==> depth[p] < depth[c] {
      InterleavedPair(nodes, n, p, c);
    }
    assert Id("") !in nodes by { InterleavedMembers(nodes, n, Id("")); }
    KidsCovered(nodes);
    hide Interleaves;
    hide Kids;
    hide Rank;
    assert DepthOrder(nodes, depth);
  }

  lemma KidsCovered(nodes: Nodes)
    ensures forall p, c :: p in nodes && c in Kids(nodes, p) ==> c in nodes
  {
  }

  lemma InterleavedIsPerfect(nodes: Nodes, n: seq<Id>)
    requires Interleaves(nodes, n)
    ensures PerfectShape(nodes)
  {
    assert forall i :: 0 <= i < 7 ==> n[i] in n;
    forall x | x in nodes
      ensures nodes[x].left.Some? <==> nodes[x].right.Some?
      ensures PointsInside(nodes, nodes[x].left) && PointsInside(nodes, nodes[x].right) {
      InterleavedMembers(nodes, n, x);
    }
    assert n[0] != n[1];
    Rollups.SubsetSize({n[0], n[1]}, nodes.Keys);
  }

  lemma InterleavedEnds(nodes: Nodes, n: seq<Id>)
    requires Interleaves(nodes, n)
    ensures forall x :: x in [n[3], n[5], n[4], n[6]] <==> x in Bottom(nodes)
    ensures n[0] in nodes && forall x :: x in [n[0]] <==> x in Roots(nodes)
  {
    InterleavedKids(nodes, n);
    forall x ensures x in [n[3], n[5], n[4], n[6]] <==> x in Bottom(nodes)
             ensures x in [n[0]] <==> x in Roots(nodes) {
      InterleavedMembers(nodes, n, x);
      hide Kids;
    }
  }

  lemma InterleavedDepth(nodes: Nodes, n: seq<Id>)
    requires Interleaves(nodes, n)
    ensures LeavesAt(nodes, n[0], 2)
  {
    assert forall i :: 0 <= i < 7 ==> n[i] in n && n[i] == Id(n[i].name);
    assert StepsTo(nodes, n[0], n[0], 0);
    assert StepsTo(nodes, n[0], n[1], 1) && StepsTo(nodes, n[0], n[2], 1);
    assert forall i :: 3 <= i < 7 ==> StepsTo(nodes, n[0], n[i], 2);
    hide StepsTo;
    assert IsLeaf(nodes, n[3]);
    assert forall x :: x in nodes <==> x in n;
    assert forall x :: x in nodes && IsLeaf(nodes, x) ==> x == n[3] || x == n[4] || x == n[5] || x == n[6];
  }

  lemma BlankGap(isSpace: char -> bool, from: nat, to: nat)
    requires isSpace(' ') && from < to <= 10
    ensures OnlySpace(BLANK, isSpace, from, to)
  {
    assert Slice(BLANK, from, to) == BLANK[from..to];
    forall c | c in BLANK[from..to] ensures isSpace(c) {
      var i :| 0 <= i < to - from && BLANK[from..to][i] == c;
      assert BLANK[from + i] == ' ';
    }
  }

  lemma InterleavedSound(nodes: Nodes, n: seq<Id>, isSpace: char -> bool)
    requires Interleaves(nodes, n) && isSpace(' ')
    ensures Sound(nodes, map x | x in nodes :: "text", BLANK, isSpace) && ChildrenOverlap(nodes, n[0])
  {
    BlankGap(isSpace, 3, 6);
    BlankGap(isSpace, 5, 8);
    hide OnlySpace;
    assert forall i :: 0 <= i < 7 ==> n[i] in nodes;
    assert forall x :: x in nodes <==> x in n;
    hide IsSpace;
    hide Slice;
    assert GapFits(nodes, n[1], BLANK, isSpace) by { GapIsSpace(nodes, n[1], BLANK, isSpace); }
    assert GapFits(nodes, n[2], BLANK, isSpace) by { GapIsSpace(nodes, n[2], BLANK, isSpace); }
  }

  lemma GapIsSpace(nodes: Nodes, x: Id, text: string, isSpace: char -> bool)
    requires x in nodes && nodes[x].left.Some? && nodes[x].right.Some?
    requires OnlySpace(text, isSpace, End(nodes, nodes[x].left.value), Start(nodes, nodes[x].right.value))
    ensures GapFits(nodes, x, text, isSpace)
  {
  }

  lemma InterleavedRuns(nodes: Nodes, n: seq<Id>, isSpace: char -> bool)
    requires Interleaves(nodes, n) && isSpace(' ')
    ensures Runs(nodes, [n[3], n[5], n[4], n[6]], 0, 10, BLANK, isSpace)
    ensures Runs(nodes, [n[0]], 0, 10, BLANK, isSpace)
  {
    BlankGap(isSpace, 3, 4);
    BlankGap(isSpace, 5, 6);
    BlankGap(isSpace, 7, 8);
    assert forall i :: 0 <= i < 7 ==> n[i] in nodes;
    hide OnlySpace;
  }

  /**
     With a text, overlapping children can go unnoticed in the unpruned tiling: the three validators accept
     the store, and `validate_tiling` accepts its leaves, although two children overlap.
   */
  lemma OverlapBetweenSpaces(isSpace: char -> bool)
    requires isSpace(' ')
    ensures exists nodes, texts, root, s ::
              && WellFormed(nodes) && AcceptedStore(nodes, texts, BLANK, isSpace, root, 2) && !NoChildrenOverlap(nodes)
              && Lists(nodes, s, Bottom(nodes)) && IsValidTiling(s, nodes, BLANK, None, Some(nodes), isSpace)
  {
    hide *;
    var nodes, n := SomeInterleave();
    var texts := map x | x in nodes :: "text";
    var s := [n[3], n[5], n[4], n[6]];
    InterleavedIsWellFormed(nodes, n);
    InterleavedIsPerfect(nodes, n);
    InterleavedDepth(nodes, n);
    InterleavedSound(nodes, n, isSpace);
    InterleavedRuns(nodes, n, isSpace);
    InterleavedEnds(nodes, n);
    TreeIsAccepted(nodes, texts, isSpace, n[0], 2);
    SpansNotEmpty(nodes, texts, BLANK, isSpace);
    BottomCovered(nodes);
    RunsLists(nodes, s, Bottom(nodes), 0, 10, BLANK, isSpace);
    RootBounds(nodes, nodes, [n[0]], 0, 10, BLANK, isSpace);
    RunIsValid(nodes, s, BLANK, isSpace, 0, 10);
    OverlapFound(nodes, n[0]);
  }

  lemma OverlapFound(nodes: Nodes, p: Id)
    requires p in nodes && ChildrenOverlap(nodes, p)
    ensures !NoChildrenOverlap(nodes)
  {
  }

  lemma BottomCovered(nodes: Nodes)
    ensures forall x :: x in Bottom(nodes) ==> x in nodes
  {
  }

  lemma TreeIsAccepted(nodes: Nodes, texts: map<Id, string>, isSpace: char -> bool, root: Id, d: nat)
    requires PerfectShape(nodes) && LeavesAt(nodes, root, d) && Sound(nodes, texts, BLANK, isSpace)
    ensures AcceptedTree(nodes, texts, BLANK, isSpace) && AcceptedStore(nodes, texts, BLANK, isSpace, root, d)
  {
  }

  lemma RunIsValid(nodes: Nodes, s: seq<Id>, text: string, isSpace: char -> bool, lo: int, hi: int)
    requires Runs(nodes, s, lo, hi, text, isSpace) && IsBounds(nodes, Some(nodes), lo, hi)
    requires Lists(nodes, s, Bottom(nodes))
    ensures IsValidTiling(s, nodes, text, None, Some(nodes), isSpace)
  {
    ListedByStart(nodes, s, Bottom(nodes));
    assert Stores(nodes, nodes);
    StoredOrder(nodes, nodes, s);
    RunsPasses(nodes, s, text, Some(nodes), isSpace, lo, hi);
    hide NoOverlap;
    hide GapsAllowed;
    hide SpansDocument;
    hide IsBounds;
  }

  // ----- pointers that disagree -----

  /** Two parentless nodes share a span; the children of both have the first one as their parent. */
  ghost predicate TwoHeaded(nodes: Nodes, n: seq<Id>) {
    && |n| == 6 && Distinct(n) && nodes.Keys == Members(n) && Id("") !in n
    && nodes[n[0]] == Node(None, Some(n[2]), Some(n[3]), 0, 10, 1)
    && nodes[n[1]] == Node(None, Some(n[4]), Some(n[5]), 0, 10, 1)
    && nodes[n[2]] == Node(Some(n[0]), None, None, 0, 5, 1)
    && nodes[n[3]] == Node(Some(n[0]), None, None, 5, 10, 1)
    && nodes[n[4]] == Node(Some(n[0]), None, None, 0, 5, 1)
    && nodes[n[5]] == Node(Some(n[0]), None, None, 5, 10, 1)
  }

  lemma SomeTwoHeaded() returns (nodes: Nodes, n: seq<Id>)
    ensures TwoHeaded(nodes, n) && |n| == 6
  {
    n := [Id("r"), Id("q"), Id("a"), Id("b"), Id("c"), Id("d")];
    assert Distinct(n);
    nodes := map[
      n[0] := Node(None, Some(n[2]), Some(n[3]), 0, 10, 1),
      n[1] := Node(None, Some(n[4]), Some(n[5]), 0, 10, 1),
      n[2] := Node(Some(n[0]), None, None, 0, 5, 1),
      n[3] := Node(Some(n[0]), None, None, 5, 10, 1),
      n[4] := Node(Some(n[0]), None, None, 0, 5, 1),
      n[5] := Node(Some(n[0]), None, None, 5, 10, 1)];
  }

  lemma TwoHeadedMembers(nodes: Nodes, n: seq<Id>)
    requires TwoHeaded(nodes, n)
    ensures forall x :: x in nodes <==> x == n[0] || x == n[1] || x == n[2] || x == n[3] || x == n[4] || x == n[5]
    ensures forall i :: 0 <= i < 6 ==> n[i] == Id(n[i].name) && n[i].name != ""
  {
    assert forall x :: x in nodes <==> x in n;
    assert forall i :: 0 <= i < 6 ==> n[i] in n && n[i] == Id(n[i].name);
  }

  lemma TwoHeadedIsPerfect(nodes: Nodes, n: seq<Id>)
    requires TwoHeaded(nodes, n)
    ensures PerfectShape(nodes)
  {
    TwoHeadedMembers(nodes, n);
    assert n[0] != n[1];
    Rollups.SubsetSize({n[0], n[1]}, nodes.Keys);
  }

  lemma TwoHeadedDepth(nodes: Nodes, n: seq<Id>)
    requires TwoHeaded(nodes, n)
    ensures LeavesAt(nodes, n[0], 1)
  {
    TwoHeadedMembers(nodes, n);
    assert StepsTo(nodes, n[0], n[0], 0);
    assert forall i :: 2 <= i < 6 ==> StepsTo(nodes, n[0], n[i], 1);
    hide StepsTo;
    assert IsLeaf(nodes, n[2]);
  }

  lemma TwoHeadedIsSound(nodes: Nodes, n: seq<Id>, texts: map<Id, string>, isSpace: char -> bool)
    requires TwoHeaded(nodes, n) && texts == map x | x in nodes :: "text"
    ensures Sound(nodes, texts, "", isSpace) && NoChildrenOverlap(nodes)
  {
    TwoHeadedMembers(nodes, n);
  }

  /** Its unpruned tiling is not valid. */
  lemma TwoHeadedIsInvalid(nodes: Nodes, n: seq<Id>, s: seq<Id>, isSpace: char -> bool)
    requires TwoHeaded(nodes, n) && Lists(nodes, s, Bottom(nodes))
    ensures !IsValidTiling(s, nodes, "", None, Some(nodes), isSpace)
  {
    TwoHeadedMembers(nodes, n);
    assert n[2] in Bottom(nodes) && n[4] in Bottom(nodes) && n[2] != n[4];
    assert n[2] in s && n[4] in s && !Apart(nodes, n[2], n[4]);
    assert forall x :: x in nodes ==> Start(nodes, x) < End(nodes, x);
    hide Lists;
    hide TwoHeaded;
    if IsValidTiling(s, nodes, "", None, Some(nodes), isSpace) {
      ValidIsApart(nodes, s, "", None, isSpace, n[2], n[4]);
    }
  }

  /** What slips through: an accepted store with two parentless nodes, pointers that disagree and an invalid tiling. */
  ghost predicate SlipsThrough(nodes: Nodes, texts: map<Id, string>, root: Id, other: Id, s: seq<Id>,
                               isSpace: char -> bool) {
    && AcceptedStore(nodes, texts, "", isSpace, root, 1) && NoChildrenOverlap(nodes)
    && other in nodes && nodes[other].parent.None? && other != root && !PointersAgree(nodes)
    && Lists(nodes, s, Bottom(nodes)) && !IsValidTiling(s, nodes, "", None, Some(nodes), isSpace)
  }

  lemma SlipsThroughBy(nodes: Nodes, texts: map<Id, string>, root: Id, other: Id, s: seq<Id>, isSpace: char -> bool)
    requires PerfectShape(nodes) && LeavesAt(nodes, root, 1) && Sound(nodes, texts, "", isSpace)
             && NoChildrenOverlap(nodes)
    requires other in nodes && nodes[other].parent.None? && other != root && !PointersAgree(nodes)
    requires Lists(nodes, s, Bottom(nodes)) && !IsValidTiling(s, nodes, "", None, Some(nodes), isSpace)
    ensures SlipsThrough(nodes, texts, root, other, s, isSpace)
  {
    hide PerfectShape;
    hide LeavesAt;
    hide Sound;
    hide NoChildrenOverlap;
    hide PointersAgree;
    hide Lists;
    hide IsValidTiling;
  }

  /**
     A store that all three validators accept, in which no children overlap, but which has two parentless
     nodes and an unpruned tiling that `validate_tiling` rejects: its parent and child pointers disagree.
   */
  lemma DisagreeingPointersAreAccepted(isSpace: char -> bool)
    ensures exists nodes, texts, root, other, s :: SlipsThrough(nodes, texts, root, other, s, isSpace)
  {
    hide *;
    var nodes, n := SomeTwoHeaded();
    var texts := map x | x in nodes :: "text";
    TwoHeadedIsPerfect(nodes, n);
    TwoHeadedDepth(nodes, n);
    TwoHeadedIsSound(nodes, n, texts, isSpace);
    var s := SomeListing(nodes, Bottom(nodes));
    TwoHeadedIsInvalid(nodes, n, s, isSpace);
    TwoHeadedDisagrees(nodes, n);
    SlipsThroughBy(nodes, texts, n[0], n[1], s, isSpace);
  }

  lemma TwoHeadedDisagrees(nodes: Nodes, n: seq<Id>)
    requires TwoHeaded(nodes, n)
    ensures n[1] in nodes && nodes[n[1]].parent.None? && n[1] != n[0] && !PointersAgree(nodes)
  {
    TwoHeadedMembers(nodes, n);
    assert n[4] in Kids(nodes, n[1]);
  }
}
