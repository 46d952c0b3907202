/**
 `validate_tree_structure` (`ragzoom/validate.py`), and what the three shape validators together say about
 the tilings of a store: everything, except that no check looks at children that overlap.
 */
module TreeStructure {
  import opened Options
  import opened Sorting
  import opened Forest
  import opened Rollups
  import opened Slices
  import opened Spans
  import opened TreeOrder
  import opened GreedyTiling
  import opened ValidateTiling
  import opened ExactTiling
  import opened PerfectTrees

  datatype StructureError =
    | InvalidSpan(id: Id)
    | ChildNotFound(id: Id)
    | StartMismatch(id: Id)
    | EndMismatch(id: Id)
    | GapBetweenChildren(id: Id)
    | MissingText(id: Id)

  datatype Verdict = Valid | NoNodesFound | Failed(errors: nat)

  /** A child pointer that is looked at: neither `None` nor empty. */
  predicate Follows(pointer: Option<Id>) {
    pointer.Some? && pointer.value.name != ""
  }

  predicate LeftFits(nodes: Nodes, x: Id)
    requires x in nodes
  {
    var left := nodes[x].left;
    Follows(left) ==> left.value in nodes && Start(nodes, left.value) == Start(nodes, x)
  }

  predicate RightFits(nodes: Nodes, x: Id)
    requires x in nodes
  {
    var right := nodes[x].right;
    Follows(right) ==> right.value in nodes && End(nodes, right.value) == End(nodes, x)
  }

  predicate HasGap(nodes: Nodes, x: Id)
    requires x in nodes
  {
    var left, right := nodes[x].left, nodes[x].right;
    && Follows(left) && Follows(right) && left.value in nodes && right.value in nodes
    && End(nodes, left.value) < Start(nodes, right.value)
  }

  predicate GapFits(nodes: Nodes, x: Id, text: string, isSpace: char -> bool)
    requires x in nodes
  {
    HasGap(nodes, x) ==>
      text != "" && IsSpace(isSpace, Slice(text, End(nodes, nodes[x].left.value), Start(nodes, nodes[x].right.value)))
  }

  predicate NodeSound(nodes: Nodes, texts: map<Id, string>, text: string, isSpace: char -> bool, x: Id)
    requires x in nodes
  {
    && Start(nodes, x) < End(nodes, x)
    && LeftFits(nodes, x) && RightFits(nodes, x) && GapFits(nodes, x, text, isSpace)
    && x in texts && texts[x] != ""
  }

  ghost predicate Sound(nodes: Nodes, texts: map<Id, string>, text: string, isSpace: char -> bool) {
    nodes != map[] && forall x :: x in nodes ==> NodeSound(nodes, texts, text, isSpace, x)
  }

  /** The pointer leads to `c`, which has a name. */
  ghost predicate Names(pointer: Option<Id>, c: Id) {
    pointer == Some(c) && c.name != ""
  }

  /** What an error says of its node is so. */
  ghost predicate IsError(nodes: Nodes, texts: map<Id, string>, text: string, isSpace: char -> bool, e: StructureError)
    requires e.id in nodes
  {
    var node := nodes[e.id];
    match e
    case InvalidSpan(_) => node.spanStart >= node.spanEnd
    case ChildNotFound(_) => exists c :: (Names(node.left, c) || Names(node.right, c)) && c !in nodes
    case StartMismatch(_) => exists c :: Names(node.left, c) && c in nodes && nodes[c].spanStart != node.spanStart
    case EndMismatch(_) => exists c :: Names(node.right, c) && c in nodes && nodes[c].spanEnd != node.spanEnd
    case GapBetweenChildren(_) => !GapFits(nodes, e.id, text, isSpace)
    case MissingText(_) => e.id !in texts || texts[e.id] == ""
  }

  /** Every error is about `x` and is so. */
  ghost predicate AreErrors(nodes: Nodes, texts: map<Id, string>, text: string, isSpace: char -> bool, x: Id,
                            errors: seq<StructureError>)
    requires x in nodes
  {
    forall e :: e in errors ==> e.id == x && IsError(nodes, texts, text, isSpace, e)
  }

  method CheckLeft(nodes: Nodes, texts: map<Id, string>, text: string, isSpace: char -> bool, x: Id)
    returns (errors: seq<StructureError>)
    requires x in nodes
    ensures errors == [] <==> LeftFits(nodes, x)
    ensures AreErrors(nodes, texts, text, isSpace, x, errors)
  {
    errors := [];
    var left := nodes[x].left;
    if Follows(left) {
      assert Names(left, left.value);
      if left.value !in nodes {
        errors := [ChildNotFound(x)];
      } else if nodes[left.value].spanStart != nodes[x].spanStart {
        errors := [StartMismatch(x)];
      }
    }
  }

  method CheckRight(nodes: Nodes, texts: map<Id, string>, text: string, isSpace: char -> bool, x: Id)
    returns (errors: seq<StructureError>)
    requires x in nodes
    ensures errors == [] <==> RightFits(nodes, x)
    ensures AreErrors(nodes, texts, text, isSpace, x, errors)
  {
    errors := [];
    var right := nodes[x].right;
    if Follows(right) {
      assert Names(right, right.value);
      if right.value !in nodes {
        errors := [ChildNotFound(x)];
      } else if nodes[right.value].spanEnd != nodes[x].spanEnd {
        errors := [EndMismatch(x)];
      }
    }
  }

  method CheckGap(nodes: Nodes, texts: map<Id, string>, text: string, isSpace: char -> bool, x: Id)
    returns (errors: seq<StructureError>)
    requires x in nodes
    ensures errors == [] <==> GapFits(nodes, x, text, isSpace)
    ensures AreErrors(nodes, texts, text, isSpace, x, errors)
  {
    errors := [];
    var node := nodes[x];
    if Follows(node.left) && Follows(node.right) && node.left.value in nodes && node.right.value in nodes {
      var left, right := nodes[node.left.value], nodes[node.right.value];
      if left.spanEnd < right.spanStart {
        if text != "" {
          if !IsSpace(isSpace, Slice(text, left.spanEnd, right.spanStart)) { errors := [GapBetweenChildren(x)]; }
        } else {
          errors := [GapBetweenChildren(x)];
        }
      }
    }
  }

  /** The source also looks for a leaf among the nodes with a child pointer, where there is none. */
  method CheckNode(nodes: Nodes, texts: map<Id, string>, text: string, isSpace: char -> bool, x: Id)
    returns (errors: seq<StructureError>)
    requires x in nodes
    ensures errors == [] <==> NodeSound(nodes, texts, text, isSpace, x)
    ensures AreErrors(nodes, texts, text, isSpace, x, errors)
  {
    hide LeftFits;
    hide RightFits;
    hide GapFits;
    errors := [];
    var node := nodes[x];
    if node.spanStart >= node.spanEnd { errors := errors + [InvalidSpan(x)]; }
    var left := CheckLeft(nodes, texts, text, isSpace, x);
    var right := CheckRight(nodes, texts, text, isSpace, x);
    var gap := CheckGap(nodes, texts, text, isSpace, x);
    errors := errors + left + right + gap;
    if x !in texts || texts[x] == "" { errors := errors + [MissingText(x)]; }
  }

  method ValidateTreeStructure(nodes: Nodes, texts: map<Id, string>, text: string, isSpace: char -> bool)
    returns (verdict: Verdict, ghost errors: seq<StructureError>)
    ensures verdict.Valid? <==> Sound(nodes, texts, text, isSpace)
    ensures verdict.NoNodesFound? <==> nodes == map[]
    ensures verdict.Failed? ==> verdict.errors == |errors| > 0
    ensures forall e :: e in errors ==>
              e.id in nodes && !NodeSound(nodes, texts, text, isSpace, e.id)
              && IsError(nodes, texts, text, isSpace, e)
  {
    errors := [];
    if nodes == map[] { return NoNodesFound, errors; }
    hide NodeSound;
    var count := 0;
    var order := AnyOrder(nodes.Keys);
    for i := 0 to |order|
      invariant count == |errors|
      invariant forall e :: e in errors ==>
                  e.id in nodes && !NodeSound(nodes, texts, text, isSpace, e.id)
                  && IsError(nodes, texts, text, isSpace, e)
      invariant errors == [] <==> forall j :: 0 <= j < i ==> NodeSound(nodes, texts, text, isSpace, order[j])
    {
      var found := CheckNode(nodes, texts, text, isSpace, order[i]);
      errors := errors + found;
      count := count + |found|;
    }
    verdict := if count > 0 then Failed(count) else Valid;
  }

  // ----- the verdict in the fields of the nodes -----

  /** The text has a character between `l` and `r`, and all that it has there are whitespace. */
  ghost predicate BlankBetween(nodes: Nodes, l: Id, r: Id, text: string, isSpace: char -> bool) {
    l in nodes && r in nodes && SpaceBetween(text, isSpace, nodes[l].spanEnd, nodes[r].spanStart)
  }

  /**
     A node has a span and a text; a left child exists and starts with it, a right child exists and ends with
     it, and from the end of the left to a later start of the right one the text has only whitespace.
   */
  ghost predicate SoundAt(nodes: Nodes, texts: map<Id, string>, text: string, isSpace: char -> bool, x: Id)
    requires x in nodes
  {
    && nodes[x].spanStart < nodes[x].spanEnd
    && (forall l :: Names(nodes[x].left, l) ==> l in nodes && nodes[l].spanStart == nodes[x].spanStart)
    && (forall r :: Names(nodes[x].right, r) ==> r in nodes && nodes[r].spanEnd == nodes[x].spanEnd)
    && (forall l, r :: Names(nodes[x].left, l) && Names(nodes[x].right, r) && nodes[l].spanEnd < nodes[r].spanStart
          ==> BlankBetween(nodes, l, r, text, isSpace))
    && x in texts && texts[x] != ""
  }

  lemma NodeSoundInFields(nodes: Nodes, texts: map<Id, string>, text: string, isSpace: char -> bool, x: Id)
    requires x in nodes
    ensures NodeSound(nodes, texts, text, isSpace, x) <==> SoundAt(nodes, texts, text, isSpace, x)
  {
    var left, right := nodes[x].left, nodes[x].right;
    if left.Some? && right.Some? && left.value in nodes && right.value in nodes {
      assert Names(left, left.value) <==> Follows(left);
      assert Names(right, right.value) <==> Follows(right);
      SpaceMeaning(text, isSpace, nodes[left.value].spanEnd, nodes[right.value].spanStart);
    }
    assert left.Some? ==> (Names(left, left.value) <==> Follows(left));
    assert right.Some? ==> (Names(right, right.value) <==> Follows(right));
    hide IsSpace;
    hide SpaceBetween;
  }

  /** So the structure is accepted exactly when there are nodes and all of them are sound in this sense. */
  lemma SoundInFields(nodes: Nodes, texts: map<Id, string>, text: string, isSpace: char -> bool)
    ensures Sound(nodes, texts, text, isSpace)
       <==> nodes != map[] && forall x :: x in nodes ==> SoundAt(nodes, texts, text, isSpace, x)
  {
    forall x | x in nodes
      ensures NodeSound(nodes, texts, text, isSpace, x) <==> SoundAt(nodes, texts, text, isSpace, x) {
      NodeSoundInFields(nodes, texts, text, isSpace, x);
    }
    hide NodeSound;
    hide SoundAt;
  }

  // ----- what the verdict means for spans -----

  /** The left child of `p` reaches into the right one, which is another node. */
  predicate ChildrenOverlap(nodes: Nodes, p: Id)
    requires p in nodes
  {
    var left, right := nodes[p].left, nodes[p].right;
    left.Some? && right.Some? && left != right && End(nodes, left.value) > Start(nodes, right.value)
  }

  ghost predicate NoChildrenOverlap(nodes: Nodes) {
    forall p :: p in nodes ==> !ChildrenOverlap(nodes, p)
  }

  /**
     Accepted with this text to look gaps up in, with every node having both children or none. That parent
     and child pointers agree is not checked by any validator; where it is needed it is required.
   */
  ghost predicate AcceptedTree(nodes: Nodes, texts: map<Id, string>, text: string, isSpace: char -> bool) {
    PerfectShape(nodes) && Sound(nodes, texts, text, isSpace)
  }

  lemma InnerNode(nodes: Nodes, texts: map<Id, string>, text: string, isSpace: char -> bool, p: Id)
    requires WellFormed(nodes) && AcceptedTree(nodes, texts, text, isSpace) && p in nodes
    ensures Start(nodes, p) < End(nodes, p)
    ensures Kids(nodes, p) == {} <==> IsLeaf(nodes, p)
    ensures !IsLeaf(nodes, p) ==>
              && nodes[p].left.Some? && nodes[p].right.Some?
              && var l, r := nodes[p].left.value, nodes[p].right.value;
              && l in Kids(nodes, p) && r in Kids(nodes, p)
              && Start(nodes, l) == Start(nodes, p) && End(nodes, r) == End(nodes, p)
              && OnlySpace(text, isSpace, End(nodes, l), Start(nodes, r))
  {
    assert NodeSound(nodes, texts, text, isSpace, p);
    if !IsLeaf(nodes, p) {
      var l, r := nodes[p].left.value, nodes[p].right.value;
      assert l == Id(l.name) && r == Id(r.name);
      assert l in Kids(nodes, p) && r in Kids(nodes, p);
    } else {
      assert Kids(nodes, p) == {};
    }
  }

  /** Children fill their parents but for whitespace exactly when, besides, no children overlap. */
  lemma SoundFills(nodes: Nodes, texts: map<Id, string>, text: string, isSpace: char -> bool)
    requires WellFormed(nodes) && AcceptedTree(nodes, texts, text, isSpace)
    ensures SpansFill(nodes, text, isSpace) <==> NoChildrenOverlap(nodes)
  {
    forall p | p in nodes
      ensures Start(nodes, p) < End(nodes, p)
      ensures (Kids(nodes, p) == {} || KidsFill(nodes, p, text, isSpace)) <==> !ChildrenOverlap(nodes, p) {
      InnerNode(nodes, texts, text, isSpace, p);
    }
  }

  /** All three validators accept the store; again nothing is said about parent pointers agreeing with
      child pointers. */
  ghost predicate AcceptedStore(nodes: Nodes, texts: map<Id, string>, text: string, isSpace: char -> bool, root: Id,
                                d: nat) {
    AcceptedTree(nodes, texts, text, isSpace) && Accepted(nodes, root, d)
  }

  lemma RootRuns(nodes: Nodes, texts: map<Id, string>, text: string, isSpace: char -> bool, root: Id, d: nat)
    requires WellFormed(nodes) && AcceptedStore(nodes, texts, text, isSpace, root, d)
    ensures root in nodes && forall x :: x in [root] <==> x in Roots(nodes)
    ensures Runs(nodes, [root], Start(nodes, root), End(nodes, root), text, isSpace)
  {
    SingleRoot(nodes, root, d);
  }

  // ----- what it means for tilings -----

  /**
     In a store that the validators accept and in which no children overlap, `validate_tiling` accepts the
     tiling for every budget and all scores, given the same text, or any text if none was needed; given a
     limit, exactly when the tokens fit it.
   */
  lemma AcceptedStoreTiles(nodes: Nodes, texts: map<Id, string>, spacing: string, isSpace: char -> bool, root: Id,
                           d: nat, scores: Scores, budget: Option<int>, s: seq<Id>, text: string, limit: Option<int>)
    requires WellFormed(nodes) && AcceptedStore(nodes, texts, spacing, isSpace, root, d) && NoChildrenOverlap(nodes)
    requires Spaced(spacing, text) && Lists(nodes, s, WholeFrontier(nodes, scores, budget))
    ensures IsValidTiling(s, nodes, text, limit, Some(nodes), isSpace) <==>
              (limit.Some? ==> Tokens(nodes, WholeFrontier(nodes, scores, budget)) <= limit.value)
  {
    SoundFills(nodes, texts, spacing, isSpace);
    RootRuns(nodes, texts, spacing, isSpace, root, d);
    assert Stores(nodes, nodes);
    hide *;
    ResultValidates(nodes, nodes, scores, budget, s, [root], spacing, text, limit, isSpace, Start(nodes, root),
        End(nodes, root));
  }

  /** Every cut of the tree, listed in document order, is a valid tiling. */
  ghost predicate CutsAreValid(nodes: Nodes, text: string, isSpace: char -> bool) {
    forall s, order :: s <= nodes.Keys && IsCut(nodes, s) && Lists(nodes, order, Top(nodes, s)) ==>
                         IsValidTiling(order, nodes, text, None, Some(nodes), isSpace)
  }

  lemma {:induction false} NoOverlapForward(nodes: Nodes, order: seq<Id>, i: int, j: int)
    requires NoOverlap(nodes, order) && 0 <= i < j < |order|
    requires forall k :: 0 <= k < |order| ==> Start(nodes, order[k]) < End(nodes, order[k])
    ensures End(nodes, order[i]) <= Start(nodes, order[j])
    decreases j - i
  {
    if i + 1 < j { NoOverlapForward(nodes, order, i + 1, j); }
  }

  /** The members of a valid tiling do not overlap. */
  lemma ValidIsApart(nodes: Nodes, tiling: seq<Id>, text: string, budget: Option<int>, isSpace: char -> bool, a: Id,
                     b: Id)
    requires IsValidTiling(tiling, nodes, text, budget, Some(nodes), isSpace)
    requires forall x :: x in nodes ==> Start(nodes, x) < End(nodes, x)
    requires a in tiling && b in tiling && a != b
    ensures Apart(nodes, a, b)
  {
    var order := StableSort(ByStart(nodes), tiling);
    SameMembers(order, tiling);
    assert NoOverlap(nodes, order);
    forall k | 0 <= k < |order| ensures Start(nodes, order[k]) < End(nodes, order[k]) { assert order[k] in tiling; }
    assert a in order && b in order;
    hide *;
    var i :| 0 <= i < |order| && order[i] == a;
    var j :| 0 <= j < |order| && order[j] == b;
    if i < j { NoOverlapForward(nodes, order, i, j); } else { NoOverlapForward(nodes, order, j, i); }
    IsApart(nodes, a, b);
  }

  lemma IsApart(nodes: Nodes, a: Id, b: Id)
    ensures Apart(nodes, a, b) <==> End(nodes, a) <= Start(nodes, b) || End(nodes, b) <= Start(nodes, a)
  {
  }

  lemma SpansNotEmpty(nodes: Nodes, texts: map<Id, string>, text: string, isSpace: char -> bool)
    requires WellFormed(nodes) && AcceptedTree(nodes, texts, text, isSpace)
    ensures forall x :: x in nodes ==> Start(nodes, x) < End(nodes, x)
  {
    forall x | x in nodes ensures Start(nodes, x) < End(nodes, x) { InnerNode(nodes, texts, text, isSpace, x); }
  }

  lemma OverlapIsNotApart(nodes: Nodes, texts: map<Id, string>, text: string, isSpace: char -> bool, p: Id)
    requires WellFormed(nodes) && AcceptedTree(nodes, texts, text, isSpace) && p in nodes && ChildrenOverlap(nodes, p)
    ensures nodes[p].left.Some? && nodes[p].right.Some?
    ensures var l, r := nodes[p].left.value, nodes[p].right.value;
            l != r && l in Kids(nodes, p) && r in Kids(nodes, p) && !Apart(nodes, l, r)
  {
    InnerNode(nodes, texts, text, isSpace, p);
  }

  /** A store that the validators accept has only valid cuts exactly when no children overlap. */
  lemma CutsAreValidIff(nodes: Nodes, texts: map<Id, string>, text: string, isSpace: char -> bool, root: Id, d: nat)
    requires WellFormed(nodes) && AcceptedStore(nodes, texts, text, isSpace, root, d)
    ensures CutsAreValid(nodes, text, isSpace) <==> NoChildrenOverlap(nodes)
  {
    SpansNotEmpty(nodes, texts, text, isSpace);
    if NoChildrenOverlap(nodes) {
      SoundFills(nodes, texts, text, isSpace);
      RootRuns(nodes, texts, text, isSpace, root, d);
      assert Stores(nodes, nodes);
      forall s, order | s <= nodes.Keys && IsCut(nodes, s) && Lists(nodes, order, Top(nodes, s))
        ensures IsValidTiling(order, nodes, text, None, Some(nodes), isSpace) {
        CutValidates(nodes, nodes, s, order, [root], text, text, None, isSpace, Start(nodes, root), End(nodes, root));
      }
    } else {
      var p :| p in nodes && ChildrenOverlap(nodes, p);
      OverlapIsNotApart(nodes, texts, text, isSpace, p);
      InvalidCut(nodes, text, isSpace, p, nodes[p].left.value, nodes[p].right.value);
    }
  }

  lemma InvalidCut(nodes: Nodes, text: string, isSpace: char -> bool, p: Id, l: Id, r: Id)
    requires WellFormed(nodes) && p in nodes && l in Kids(nodes, p) && r in Kids(nodes, p) && l != r
             && !Apart(nodes, l, r)
    requires forall x :: x in nodes ==> Start(nodes, x) < End(nodes, x)
    ensures !CutsAreValid(nodes, text, isSpace)
  {
    var s := CutThrough(nodes, l, r);
    CutThroughIsCut(nodes, l, r);
    SiblingsOnCut(nodes, p, l, r);
    var order := SomeListing(nodes, Top(nodes, s));
    assert l in order && r in order;
    if IsValidTiling(order, nodes, text, None, Some(nodes), isSpace) {
      ValidIsApart(nodes, order, text, None, isSpace, l, r);
    }
  }

  // ----- without a text, the unpruned tiling decides -----

  /** Without a text, a position inside a node's span lies in a leaf below the node. */
  lemma {:induction false} LeafHit(nodes: Nodes, texts: map<Id, string>, isSpace: char -> bool, x: Id, t: int)
    returns (leaf: Id)
    requires WellFormed(nodes) && AcceptedTree(nodes, texts, "", isSpace) && x in nodes
             && Start(nodes, x) <= t < End(nodes, x)
    ensures leaf in Bottom(nodes) && AncestorOrSelf(nodes, x, leaf) && Start(nodes, leaf) <= t < End(nodes, leaf)
    decreases Deeper(nodes, x)
  {
    InnerNode(nodes, texts, "", isSpace, x);
    if IsLeaf(nodes, x) {
      leaf := x;
    } else {
      var child := if t < End(nodes, nodes[x].left.value) then nodes[x].left.value else nodes[x].right.value;
      hide AcceptedTree;
      DeeperShrinks(nodes, x, child);
      leaf := LeafHit(nodes, texts, isSpace, child, t);
      ThroughParent(nodes, x, child, leaf);
    }
  }

  /** Overlapping children lead to overlapping leaves. */
  lemma OverlappingLeaves(nodes: Nodes, texts: map<Id, string>, isSpace: char -> bool, p: Id) returns (a: Id, b: Id)
    requires WellFormed(nodes) && AcceptedTree(nodes, texts, "", isSpace) && p in nodes && ChildrenOverlap(nodes, p)
    ensures a in Bottom(nodes) && b in Bottom(nodes) && a != b && !Apart(nodes, a, b)
  {
    InnerNode(nodes, texts, "", isSpace, p);
    var l, r := nodes[p].left.value, nodes[p].right.value;
    InnerNode(nodes, texts, "", isSpace, l);
    InnerNode(nodes, texts, "", isSpace, r);
    var t := if Start(nodes, l) < Start(nodes, r) then Start(nodes, r) else Start(nodes, l);
    a := LeafHit(nodes, texts, isSpace, l, t);
    b := LeafHit(nodes, texts, isSpace, r, t);
    if a == b { BelowOneChild(nodes, p, l, r, a); }
  }

  /** The unpruned tiling of a store accepted without a text is a valid tiling exactly when no children overlap. */
  lemma UnprunedIsValidIff(nodes: Nodes, texts: map<Id, string>, isSpace: char -> bool, root: Id, d: nat, s: seq<Id>)
    requires WellFormed(nodes) && AcceptedStore(nodes, texts, "", isSpace, root, d) && Lists(nodes, s, Bottom(nodes))
    ensures IsValidTiling(s, nodes, "", None, Some(nodes), isSpace) <==> NoChildrenOverlap(nodes)
  {
    if NoChildrenOverlap(nodes) {
      AcceptedStoreTiles(nodes, texts, "", isSpace, root, d, map[], None, s, "", None);
    } else {
      var p :| p in nodes && ChildrenOverlap(nodes, p);
      var a, b := OverlappingLeaves(nodes, texts, isSpace, p);
      SpansNotEmpty(nodes, texts, "", isSpace);
      assert a in s && b in s;
      if IsValidTiling(s, nodes, "", None, Some(nodes), isSpace) {
        ValidIsApart(nodes, s, "", None, isSpace, a, b);
      }
    }
  }
}
