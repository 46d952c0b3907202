/** The shape validators (`ragzoom/validate.py`) and the count of nodes their verdict implies. */
module PerfectTrees {
  import opened Options
  import opened Forest
  import opened GreedyTiling
  import opened Powers
  import opened Sorting

  datatype ShapeError =
    | NoNodes
    | OneChildOnly(id: Id)
    | MissingChild(id: Id)
    | NoLeaves
    | NoRoot
    | Unreachable(leaf: Id)
    | UnequalDepths(leaf: Id)

  predicate IsLeaf(nodes: Nodes, x: Id)
    requires x in nodes
  {
    nodes[x].left.None? && nodes[x].right.None?
  }

  predicate PointsInside(nodes: Nodes, pointer: Option<Id>) {
    pointer.Some? ==> pointer.value in nodes
  }

  /** Every node has both children or none, and the children exist; a lone node has none. */
  ghost predicate PerfectShape(nodes: Nodes) {
    && nodes != map[]
    && (forall x :: x in nodes ==> (nodes[x].left.Some? <==> nodes[x].right.Some?)
                                   && PointsInside(nodes, nodes[x].left) && PointsInside(nodes, nodes[x].right))
    && (|nodes| == 1 ==> forall x :: x in nodes ==> IsLeaf(nodes, x))
  }

  /** What an error of the shape check says is so. */
  ghost predicate IsShapeError(nodes: Nodes, e: ShapeError) {
    match e
    case NoNodes => nodes == map[]
    case OneChildOnly(x) => x in nodes && nodes[x].left.Some? != nodes[x].right.Some?
    case MissingChild(x) =>
      && x in nodes
      && (!PointsInside(nodes, nodes[x].left) || !PointsInside(nodes, nodes[x].right)
          || (|nodes| == 1 && (nodes[x].left.Some? || nodes[x].right.Some?)))
    case _ => false
  }

  method ValidatePerfectBinaryTrees(nodes: Nodes) returns (error: Option<ShapeError>)
    ensures error.None? <==> PerfectShape(nodes)
    ensures error.Some? ==> IsShapeError(nodes, error.value)
  {
    if nodes == map[] { return Some(NoNodes); }
    var order := AnyOrder(nodes.Keys);
    OrderSize(nodes, order);
    if |order| == 1 {
      var node := nodes[order[0]];
      assert forall x :: x in nodes ==> x == order[0];
      if node.left.Some? || node.right.Some? { return Some(MissingChild(order[0])); }
      return None;
    }
    for i := 0 to |order|
      invariant forall j :: 0 <= j < i ==>
        var x := order[j];
        (nodes[x].left.Some? <==> nodes[x].right.Some?)
        && PointsInside(nodes, nodes[x].left) && PointsInside(nodes, nodes[x].right)
    {
      var node := nodes[order[i]];
      if node.left.Some? != node.right.Some? { return Some(OneChildOnly(order[i])); }
      if node.left.Some? && node.left.value !in nodes { return Some(MissingChild(order[i])); }
      if node.right.Some? && node.right.value !in nodes { return Some(MissingChild(order[i])); }
    }
    error := None;
  }

  lemma OrderSize(nodes: Nodes, order: seq<Id>)
    requires Distinct(order) && forall x :: x in order <==> x in nodes
    ensures |order| == |nodes|
  {
    DistinctSize(order);
    assert (set x | x in order) == nodes.Keys;
  }

  // ----- leaf depths -----

  /** The parent that the walk goes on to: not `None`, and not empty. */
  function Above(nodes: Nodes, x: Id): Option<Id>
    requires x in nodes
  {
    if nodes[x].parent.Some? && nodes[x].parent.value.name != "" then nodes[x].parent else None
  }

  /** The walk from `x` meets `root` for the first time after `d` parent steps. */
  ghost predicate StepsTo(nodes: Nodes, root: Id, x: Id, d: nat)
    decreases d
  {
    if d == 0 then x == root
    else x != root && x in nodes && Above(nodes, x).Some? && StepsTo(nodes, root, Above(nodes, x).value, d - 1)
  }

  /** The walk from `x` towards `root` ends within `n` steps. */
  ghost predicate EndsWithin(nodes: Nodes, root: Id, x: Id, n: nat)
    decreases n
  {
    x == root || x !in nodes || Above(nodes, x).None?
        || (n > 0 && EndsWithin(nodes, root, Above(nodes, x).value, n - 1))
  }

  /** The walk from `x` towards `root` ends: it does not run into a cycle. */
  ghost predicate Ends(nodes: Nodes, root: Id, x: Id) {
    exists n: nat :: EndsWithin(nodes, root, x, n)
  }

  /** In a well-formed forest it always does. */
  lemma {:induction false} WellFormedEnds(nodes: Nodes, root: Id, x: Id)
    requires WellFormed(nodes) && x in nodes
    ensures Ends(nodes, root, x)
    decreases Depth(nodes)[x]
  {
    if Above(nodes, x).None? || Above(nodes, x).value !in nodes {
      assert EndsWithin(nodes, root, x, 1);
    } else {
      var p := nodes[x].parent.value;
      assert x in Kids(nodes, p);
      WellFormedEnds(nodes, root, p);
      var n: nat :| EndsWithin(nodes, root, p, n);
      assert EndsWithin(nodes, root, x, n + 1);
    }
  }

  /** What the walk has found out: from `leaf` it is `depth` steps more than from `current`. */
  ghost predicate WalkedTo(nodes: Nodes, root: Id, leaf: Id, current: Id, depth: nat) {
    && (forall d: nat :: StepsTo(nodes, root, current, d) ==> StepsTo(nodes, root, leaf, d + depth))
    && forall d: nat :: StepsTo(nodes, root, leaf, d) ==> d >= depth && StepsTo(nodes, root, current, d - depth)
  }

  lemma WalkOn(nodes: Nodes, root: Id, leaf: Id, current: Id, depth: nat)
    requires WalkedTo(nodes, root, leaf, current, depth) && current != root && current in nodes
             && Above(nodes, current).Some?
    ensures WalkedTo(nodes, root, leaf, Above(nodes, current).value, depth + 1)
  {
    var p := Above(nodes, current).value;
    forall d: nat | StepsTo(nodes, root, p, d) ensures StepsTo(nodes, root, leaf, d + (depth + 1)) {
      assert StepsTo(nodes, root, current, d + 1);
    }
    forall d: nat | StepsTo(nodes, root, leaf, d) ensures d >= depth + 1 && StepsTo(nodes, root, p, d - (depth + 1)) {
      assert StepsTo(nodes, root, current, d - depth);
    }
  }

  method GetDepth(nodes: Nodes, root: Id, leaf: Id) returns (depth: int)
    requires Ends(nodes, root, leaf)
    ensures depth >= -1
    ensures depth >= 0 ==> StepsTo(nodes, root, leaf, depth)
    ensures depth == -1 ==> forall d: nat :: !StepsTo(nodes, root, leaf, d)
  {
    depth := 0;
    var current := leaf;
    ghost var n: nat :| EndsWithin(nodes, root, leaf, n);
    while current != root
      invariant depth >= 0 && WalkedTo(nodes, root, leaf, current, depth)
      invariant EndsWithin(nodes, root, current, n)
      decreases n
    {
      if current !in nodes || nodes[current].parent.None? || nodes[current].parent.value.name == "" {
        return -1;
      }
      WalkOn(nodes, root, leaf, current, depth);
      current := nodes[current].parent.value;
      depth := depth + 1;
      n := n - 1;
    }
    assert StepsTo(nodes, root, current, 0);
  }

  /** All leaves, one at least, are the same number of steps below `root`. */
  ghost predicate LeavesAt(nodes: Nodes, root: Id, d: nat) {
    && root in nodes && nodes[root].parent.None?
    && (exists x :: x in nodes && nodes[x].left.None? && nodes[x].right.None?)
    && forall x :: x in nodes && nodes[x].left.None? && nodes[x].right.None? ==> StepsTo(nodes, root, x, d)
  }

  method FindLeaves(nodes: Nodes, order: seq<Id>) returns (leaves: seq<Id>)
    requires forall x :: x in order <==> x in nodes
    ensures forall x :: x in leaves <==> x in nodes && IsLeaf(nodes, x)
  {
    leaves := [];
    for i := 0 to |order|
      invariant forall x :: x in leaves <==> x in order[..i] && IsLeaf(nodes, x)
    {
      assert order[..i + 1] == order[..i] + [order[i]];
      if IsLeaf(nodes, order[i]) { leaves := leaves + [order[i]]; }
    }
    assert order[..|order|] == order;
  }

  /** The first parentless node met. */
  method FindRoot(nodes: Nodes, order: seq<Id>) returns (root: Option<Id>)
    requires forall x :: x in order <==> x in nodes
    ensures root.Some? ==> root.value in nodes && nodes[root.value].parent.None?
    ensures root.None? ==> forall x :: x in nodes ==> nodes[x].parent.Some?
  {
    for i := 0 to |order|
      invariant forall j :: 0 <= j < i ==> nodes[order[j]].parent.Some?
    {
      if nodes[order[i]].parent.None? { return Some(order[i]); }
    }
    root := None;
  }

  /** All of `leaves` are `d` steps below `root`. */
  ghost predicate AllAt(nodes: Nodes, root: Id, leaves: seq<Id>, d: nat) {
    forall x :: x in leaves ==> StepsTo(nodes, root, x, d)
  }

  /** A leaf from which the walk does not meet the root, or which is at another depth than the first leaf. */
  ghost predicate IsDepthError(nodes: Nodes, root: Id, leaves: seq<Id>, e: ShapeError)
    requires leaves != []
  {
    && (e.Unreachable? || e.UnequalDepths?) && e.leaf in leaves
    && (e.Unreachable? ==> forall d: nat :: !StepsTo(nodes, root, e.leaf, d))
    && (e.UnequalDepths? ==> forall d: nat :: !(StepsTo(nodes, root, e.leaf, d) && StepsTo(nodes, root, leaves[0], d)))
  }

  /** The depth all leaves share, or what is wrong with them. */
  method CommonDepth(nodes: Nodes, root: Id, leaves: seq<Id>) returns (error: Option<ShapeError>, depth: nat)
    requires leaves != [] && forall x :: x in leaves ==> Ends(nodes, root, x)
    ensures error.None? ==> AllAt(nodes, root, leaves, depth)
    ensures error.Some? ==> forall d: nat :: !AllAt(nodes, root, leaves, d)
    ensures error.Some? ==> IsDepthError(nodes, root, leaves, error.value)
  {
    hide Ends;
    depth := 0;
    assert leaves[0] in leaves;
    var first := GetDepth(nodes, root, leaves[0]);
    for i := 0 to |leaves|
      invariant i > 0 ==> first >= 0
      invariant forall j :: 0 <= j < i ==> StepsTo(nodes, root, leaves[j], first)
    {
      assert leaves[i] in leaves;
      var d := GetDepth(nodes, root, leaves[i]);
      if d == -1 { return Some(Unreachable(leaves[i])), depth; }
      if d != first {
        forall e: nat ensures !(StepsTo(nodes, root, leaves[i], e) && StepsTo(nodes, root, leaves[0], e)) {
          if StepsTo(nodes, root, leaves[i], e) { StepsAreUnique(nodes, root, leaves[i], d, e); }
          if StepsTo(nodes, root, leaves[0], e) { StepsAreUnique(nodes, root, leaves[0], first, e); }
        }
        return Some(UnequalDepths(leaves[i])), depth;
      }
    }
    error, depth := None, first;
  }

  lemma {:induction false} StepsAreUnique(nodes: Nodes, root: Id, x: Id, d: nat, e: nat)
    requires StepsTo(nodes, root, x, d) && StepsTo(nodes, root, x, e)
    ensures d == e
    decreases d
  {
    if d > 0 && e > 0 { StepsAreUnique(nodes, root, Above(nodes, x).value, d - 1, e - 1); }
  }

  /** `root` is the first parentless node met. From leaves the walks have to end; pointers need not agree otherwise. */
  method ValidateEqualLeafDepth(nodes: Nodes) returns (error: Option<ShapeError>, root: Option<Id>, depth: nat)
    requires forall r, x :: r in nodes && nodes[r].parent.None? && x in nodes && IsLeaf(nodes, x) ==> Ends(nodes, r, x)
    ensures error.None? ==> root.Some? && LeavesAt(nodes, root.value, depth)
    ensures error.Some? && root.Some? ==> root.value in nodes && nodes[root.value].parent.None?
                                          && forall d: nat :: !LeavesAt(nodes, root.value, d)
    ensures error.Some? && root.None? ==> forall r, d: nat :: !LeavesAt(nodes, r, d)
    ensures error == Some(NoNodes) <==> nodes == map[]
    ensures error == Some(NoLeaves) ==> forall x :: x in nodes ==> nodes[x].left.Some? || nodes[x].right.Some?
    ensures error == Some(NoRoot) ==> forall x :: x in nodes ==> nodes[x].parent.Some?
    ensures error.Some? && root.None? ==> error.value.NoNodes? || error.value.NoLeaves? || error.value.NoRoot?
    ensures error.Some? && root.Some? ==> error.value.Unreachable? || error.value.UnequalDepths?
  {
    hide StepsTo;
    hide Ends;
    root, depth := None, 0;
    if nodes == map[] { return Some(NoNodes), root, depth; }
    var order := AnyOrder(nodes.Keys);
    var leaves := FindLeaves(nodes, order);
    if leaves == [] { return Some(NoLeaves), root, depth; }
    root := FindRoot(nodes, order);
    if root.None? { return Some(NoRoot), root, depth; }
    assert leaves[0] in leaves;
    error, depth := CommonDepth(nodes, root.value, leaves);
    assert forall d: nat :: LeavesAt(nodes, root.value, d) <==> AllAt(nodes, root.value, leaves, d);
  }

  // ----- what the verdicts imply -----

  /** In a well-formed forest, the number of parent steps from `x` to `root`, if following parents gets there. */
  ghost function Distance(nodes: Nodes, root: Id, x: Id): Option<nat>
    requires WellFormed(nodes) && x in nodes
    decreases Depth(nodes)[x]
  {
    if x == root then Some(0)
    else if !ParentIn(nodes.Keys, nodes, x) then None
    else
      var p := nodes[x].parent.value;
      assert x in Kids(nodes, p);
      var above := Distance(nodes, root, p);
      if above.None? then None else Some(above.value + 1)
  }

  lemma {:induction false} DistanceIsSteps(nodes: Nodes, root: Id, x: Id, d: nat)
    requires WellFormed(nodes) && x in nodes && root in nodes
    ensures Distance(nodes, root, x) == Some(d) <==> StepsTo(nodes, root, x, d)
    decreases Depth(nodes)[x]
  {
    if x != root && ParentIn(nodes.Keys, nodes, x) {
      var p := nodes[x].parent.value;
      assert x in Kids(nodes, p) && p == Id(p.name);
      if d > 0 { DistanceIsSteps(nodes, root, p, d - 1); }
    } else if x != root && d > 0 && Above(nodes, x).Some? {
      OutsideNoSteps(nodes, root, Above(nodes, x).value, d - 1);
    }
  }

  lemma OutsideNoSteps(nodes: Nodes, root: Id, x: Id, d: nat)
    requires x !in nodes && root in nodes
    ensures !StepsTo(nodes, root, x, d)
  {
  }

  /** Above a leaf `n` steps from the root, an ancestor is at most as many steps away, and as many only if it
      is the leaf. */
  lemma {:induction false} DistanceOfAncestor(nodes: Nodes, root: Id, a: Id, x: Id)
    requires WellFormed(nodes) && a in nodes && x in nodes && nodes.Keys >= {root} && nodes[root].parent.None?
    requires AncestorOrSelf(nodes, a, x) && Distance(nodes, root, x).Some?
    ensures Distance(nodes, root, a).Some?
    ensures Distance(nodes, root, a).value <= Distance(nodes, root, x).value
    ensures a != x ==> Distance(nodes, root, a).value < Distance(nodes, root, x).value
    decreases Depth(nodes)[x]
  {
    if a != x {
      var p := nodes[x].parent.value;
      assert x in Kids(nodes, p);
      DistanceOfAncestor(nodes, root, a, p);
    }
  }

  lemma {:induction false} AncestorOfParent(nodes: Nodes, a: Id, y: Id, c: Id)
    requires WellFormed(nodes) && y in nodes && AncestorOrSelf(nodes, a, y) && c in Kids(nodes, y)
    ensures AncestorOrSelf(nodes, a, c)
  {
  }

  /** Below every node of a perfect shape there is a leaf. */
  lemma LeafBelow(nodes: Nodes, x: Id) returns (leaf: Id)
    requires WellFormed(nodes) && PerfectShape(nodes) && x in nodes
    ensures leaf in nodes && IsLeaf(nodes, leaf) && AncestorOrSelf(nodes, x, leaf)
  {
    var below := set y | y in nodes && AncestorOrSelf(nodes, x, y);
    assert x in below;
    leaf := Deepest(nodes, below);
    if !IsLeaf(nodes, leaf) {
      var c := nodes[leaf].left.value;
      assert c in Kids(nodes, leaf);
      AncestorOfParent(nodes, x, leaf, c);
    }
  }

  /** Both verdicts together. */
  ghost predicate Accepted(nodes: Nodes, root: Id, d: nat) {
    PerfectShape(nodes) && LeavesAt(nodes, root, d)
  }

  /** Every node reaches the root within `d` steps; those at `d` steps are the leaves. */
  lemma EveryNodePlaced(nodes: Nodes, root: Id, d: nat, x: Id)
    requires WellFormed(nodes) && Accepted(nodes, root, d) && x in nodes
    ensures Distance(nodes, root, x).Some? && Distance(nodes, root, x).value <= d
    ensures Distance(nodes, root, x).value == d <==> IsLeaf(nodes, x)
  {
    var leaf := LeafBelow(nodes, x);
    DistanceIsSteps(nodes, root, leaf, d);
    if IsLeaf(nodes, x) { DistanceIsSteps(nodes, root, x, d); }
    DistanceOfAncestor(nodes, root, x, leaf);
  }

  /** The nodes `k` steps below the root. */
  ghost function LevelAt(nodes: Nodes, root: Id, k: nat): set<Id>
    requires WellFormed(nodes)
  {
    set x | x in nodes && Distance(nodes, root, x) == Some(k)
  }

  ghost function KidsOf(nodes: Nodes, s: set<Id>): set<Id>
    requires s <= nodes.Keys
  {
    set c | c in nodes && nodes[c].parent.Some? && nodes[c].parent.value in s
  }

  lemma KidsOfOneMore(nodes: Nodes, s: set<Id>, x: Id)
    requires WellFormed(nodes) && PerfectShape(nodes) && s <= nodes.Keys && x in s && !IsLeaf(nodes, x)
    ensures |KidsOf(nodes, s)| == |KidsOf(nodes, s - {x})| + if SharesChild(nodes, x) then 1 else 2
  {
    var l, r := nodes[x].left.value, nodes[x].right.value;
    assert l in Kids(nodes, x) && r in Kids(nodes, x);
    var rest := KidsOf(nodes, s - {x});
    forall c ensures c in KidsOf(nodes, s) <==> c in rest + {l, r} {
      if c in nodes && nodes[c].parent == Some(x) { assert c in Kids(nodes, x); }
    }
    assert KidsOf(nodes, s) == rest + {l, r};
    assert l !in rest && r !in rest;
  }

  /** Inner nodes have at most two children each, and exactly two unless one of them shares its child. */
  lemma {:induction false} TwoKidsEach(nodes: Nodes, s: set<Id>)
    requires WellFormed(nodes) && PerfectShape(nodes) && s <= nodes.Keys
    requires forall x :: x in s ==> !IsLeaf(nodes, x)
    ensures |KidsOf(nodes, s)| <= 2 * |s|
    ensures |KidsOf(nodes, s)| == 2 * |s| <==> forall x :: x in s ==> !SharesChild(nodes, x)
  {
    if x :| x in s {
      KidsOfOneMore(nodes, s, x);
      TwoKidsEach(nodes, s - {x});
      hide *;
      assert forall y :: y in s <==> y == x || y in s - {x};
    } else {
      assert KidsOf(nodes, s) == {};
    }
  }

  lemma LevelIsKids(nodes: Nodes, root: Id, k: nat)
    requires WellFormed(nodes) && root in nodes && nodes[root].parent.None?
    ensures LevelAt(nodes, root, k + 1) == KidsOf(nodes, LevelAt(nodes, root, k))
  {
    var level := LevelAt(nodes, root, k);
    forall c ensures c in LevelAt(nodes, root, k + 1) <==> c in KidsOf(nodes, level) {
      if c in KidsOf(nodes, level) { assert c in Kids(nodes, nodes[c].parent.value); }
    }
  }

  lemma LevelIsInner(nodes: Nodes, root: Id, d: nat, k: nat)
    requires WellFormed(nodes) && Accepted(nodes, root, d) && k < d
    ensures LevelAt(nodes, root, k) <= nodes.Keys
    ensures forall x :: x in LevelAt(nodes, root, k) ==> !IsLeaf(nodes, x)
  {
    forall x | x in LevelAt(nodes, root, k) ensures !IsLeaf(nodes, x) {
      EveryNodePlaced(nodes, root, d, x);
    }
  }

  /** No node of the level shares its child. */
  ghost predicate LevelDistinct(nodes: Nodes, root: Id, k: nat)
    requires WellFormed(nodes)
  {
    forall x :: x in LevelAt(nodes, root, k) ==> !SharesChild(nodes, x)
  }

  lemma DoubleLevel(nodes: Nodes, root: Id, d: nat, k: nat)
    requires WellFormed(nodes) && Accepted(nodes, root, d) && k < d
    ensures |LevelAt(nodes, root, k + 1)| <= 2 * |LevelAt(nodes, root, k)|
    ensures |LevelAt(nodes, root, k + 1)| == 2 * |LevelAt(nodes, root, k)| <==> LevelDistinct(nodes, root, k)
  {
    LevelIsKids(nodes, root, k);
    LevelIsInner(nodes, root, d, k);
    hide LevelAt;
    hide KidsOf;
    hide WellFormed;
    TwoKidsEach(nodes, LevelAt(nodes, root, k));
  }

  lemma RootLevel(nodes: Nodes, root: Id, d: nat)
    requires WellFormed(nodes) && Accepted(nodes, root, d)
    ensures |LevelAt(nodes, root, 0)| == 1
  {
    assert LevelAt(nodes, root, 0) == {root};
  }

  ghost predicate DistinctAbove(nodes: Nodes, root: Id, k: nat)
    requires WellFormed(nodes)
  {
    forall j: nat :: j < k ==> LevelDistinct(nodes, root, j)
  }

  lemma DistinctAboveNext(nodes: Nodes, root: Id, k: nat)
    requires WellFormed(nodes)
    ensures DistinctAbove(nodes, root, 0)
    ensures DistinctAbove(nodes, root, k + 1) <==> DistinctAbove(nodes, root, k) && LevelDistinct(nodes, root, k)
  {
    hide LevelDistinct;
    hide WellFormed;
    if DistinctAbove(nodes, root, k) && LevelDistinct(nodes, root, k) {
      forall j: nat | j < k + 1 ensures LevelDistinct(nodes, root, j) {
        if j < k { assert LevelDistinct(nodes, root, j); }
      }
    }
  }

  lemma {:induction false} LevelSize(nodes: Nodes, root: Id, d: nat, k: nat)
    requires WellFormed(nodes) && Accepted(nodes, root, d) && k <= d
    ensures |LevelAt(nodes, root, k)| <= Pow2(k)
    ensures |LevelAt(nodes, root, k)| == Pow2(k) <==> DistinctAbove(nodes, root, k)
  {
    hide *;
    if k == 0 {
      RootLevel(nodes, root, d);
      Pow2Unfold(0);
      DistinctAboveNext(nodes, root, 0);
    } else {
      Pow2Unfold(k - 1);
      LevelSize(nodes, root, d, k - 1);
      DoubleLevel(nodes, root, d, k - 1);
      DistinctAboveNext(nodes, root, k - 1);
    }
  }

  ghost function UpToLevel(nodes: Nodes, root: Id, k: nat): set<Id>
    requires WellFormed(nodes)
  {
    set x | x in nodes && Distance(nodes, root, x).Some? && Distance(nodes, root, x).value <= k
  }

  lemma OneLevelMore(nodes: Nodes, root: Id, k: nat)
    requires WellFormed(nodes)
    ensures UpToLevel(nodes, root, 0) == LevelAt(nodes, root, 0)
    ensures |UpToLevel(nodes, root, k + 1)| == |UpToLevel(nodes, root, k)| + |LevelAt(nodes, root, k + 1)|
  {
    var upper, level := UpToLevel(nodes, root, k), LevelAt(nodes, root, k + 1);
    assert UpToLevel(nodes, root, k + 1) == upper + level;
    assert upper !! level;
  }

  lemma {:induction false} UpToLevelSize(nodes: Nodes, root: Id, d: nat, k: nat)
    requires WellFormed(nodes) && Accepted(nodes, root, d) && k <= d
    ensures |UpToLevel(nodes, root, k)| <= Pow2(k + 1) - 1
    ensures |UpToLevel(nodes, root, k)| == Pow2(k + 1) - 1 <==> DistinctAbove(nodes, root, k)
    decreases k
  {
    hide *;
    Pow2Unfold(k);
    Pow2Unfold(0);
    LevelSize(nodes, root, d, k);
    if k == 0 {
      OneLevelMore(nodes, root, 0);
    } else {
      OneLevelMore(nodes, root, k - 1);
      UpToLevelSize(nodes, root, d, k - 1);
      DistinctAboveNext(nodes, root, k - 1);
    }
  }

  lemma DistinctAboveLeaves(nodes: Nodes, root: Id, d: nat)
    requires WellFormed(nodes) && Accepted(nodes, root, d)
    ensures DistinctAbove(nodes, root, d) <==> ChildrenDistinct(nodes)
  {
    if DistinctAbove(nodes, root, d) {
      forall x | x in nodes ensures !SharesChild(nodes, x) {
        EveryNodePlaced(nodes, root, d, x);
        if !IsLeaf(nodes, x) {
          var j := Distance(nodes, root, x).value;
          assert LevelDistinct(nodes, root, j) && x in LevelAt(nodes, root, j);
        }
      }
    }
  }

  /** If neither validator complains there is a single root. */
  lemma SingleRoot(nodes: Nodes, root: Id, d: nat)
    requires WellFormed(nodes) && Accepted(nodes, root, d)
    ensures forall x :: x in nodes ==> (x in Roots(nodes) <==> x == root) && (nodes[x].parent.None? <==> x == root)
    ensures Roots(nodes) == {root}
  {
    forall x | x in nodes ensures Distance(nodes, root, x).Some? {
      EveryNodePlaced(nodes, root, d, x);
    }
  }

  /**
     Soundness of the two validators: if neither complains, with leaves at depth `d` there are at most
     2^d leaves and 2^(d+1) - 1 nodes, and exactly as many if and only if no node shares its child.
   */
  lemma AcceptedIsPerfect(nodes: Nodes, root: Id, d: nat)
    requires WellFormed(nodes) && Accepted(nodes, root, d)
    ensures var leaves := set x | x in nodes && IsLeaf(nodes, x);
            |leaves| <= Pow2(d) && (|leaves| == Pow2(d) <==> ChildrenDistinct(nodes))
    ensures |nodes| <= Pow2(d + 1) - 1 && (|nodes| == Pow2(d + 1) - 1 <==> ChildrenDistinct(nodes))
  {
    forall x | x in nodes
      ensures Distance(nodes, root, x).Some? && Distance(nodes, root, x).value <= d
      ensures Distance(nodes, root, x).value == d <==> IsLeaf(nodes, x) {
      EveryNodePlaced(nodes, root, d, x);
    }
    assert (set x | x in nodes && IsLeaf(nodes, x)) == LevelAt(nodes, root, d);
    assert UpToLevel(nodes, root, d) == nodes.Keys;
    LevelSize(nodes, root, d, d);
    UpToLevelSize(nodes, root, d, d);
    DistinctAboveLeaves(nodes, root, d);
  }

  /** A root with one leaf as both of its children is accepted, although it is not a perfect tree. */
  lemma SharedChildIsAccepted()
    ensures exists nodes, root :: WellFormed(nodes) && Accepted(nodes, root, 1) && !ChildrenDistinct(nodes)
              && |nodes| == 2
  {
    var c, r := Id("c"), Id("r");
    var nodes := map[c := Node(Some(r), None, None, 0, 9, 1), r := Node(None, Some(c), Some(c), 0, 9, 1)];
    assert DepthOrder(nodes, map[c := 1, r := 0]);
    assert WellFormed(nodes);
    assert IsLeaf(nodes, c) && SharesChild(nodes, r);
    assert StepsTo(nodes, r, c, 1) by { assert StepsTo(nodes, r, r, 0); }
    assert nodes.Keys == {c, r};
    assert Accepted(nodes, r, 1);
  }
}
