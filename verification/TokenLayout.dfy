/**
 Token-space layout of a tiling (`TokenPositionResolver` in `ragzoom/tree_viz.py`): selected nodes
 are laid out one after the other, and every covered node gets the stretch of what is selected below it.
 */
module TokenLayout {
  import opened Options
  import opened Sorting
  import opened Forest
  import opened GreedyTiling

  type Interval = (int, int)

  // ----- the prefix sums -----

  function StartOf(infos: seq<NodeInfo>, i: int): int {
    if 0 <= i < |infos| then infos[i].spanStart else 0
  }

  function IndexOrder(infos: seq<NodeInfo>): (int, int) -> bool {
    (a, b) => StartOf(infos, a) <= StartOf(infos, b)
  }

  function Indices(n: nat): seq<int> {
    seq(n, i => i)
  }

  /** The indices of the infos ordered by span start, ties by position. */
  function DocumentIndices(infos: seq<NodeInfo>): seq<int> {
    StableSort(IndexOrder(infos), Indices(|infos|))
  }

  lemma DocumentIndicesPermute(infos: seq<NodeInfo>)
    ensures |DocumentIndices(infos)| == |infos| && Distinct(DocumentIndices(infos))
    ensures forall k :: 0 <= k < |infos| ==> 0 <= DocumentIndices(infos)[k] < |infos|
    ensures forall i :: 0 <= i < |infos| ==> i in DocumentIndices(infos)
  {
    var order := DocumentIndices(infos);
    SameMembers(order, Indices(|infos|));
    SortDistinct(IndexOrder(infos), Indices(|infos|));
    forall k | 0 <= k < |infos| ensures 0 <= order[k] < |infos| { assert order[k] in Indices(|infos|); }
    forall i | 0 <= i < |infos| ensures i in order { assert Indices(|infos|)[i] == i; }
  }

  /** The selected ids in document order. */
  ghost function DocumentIds(infos: seq<NodeInfo>): seq<Id> {
    DocumentIndicesPermute(infos);
    seq(|infos|, k requires 0 <= k < |infos| => infos[DocumentIndices(infos)[k]].nodeId)
  }

  /** The token cost of the first `k` infos in document order. */
  ghost function CostBefore(infos: seq<NodeInfo>, k: nat): int
    requires k <= |infos|
  {
    if k == 0 then 0 else
      DocumentIndicesPermute(infos);
      CostBefore(infos, k - 1) + infos[DocumentIndices(infos)[k - 1]].tokenCost
  }

  /** `lookup` leads from an id to its last place in the infos. */
  ghost predicate LooksUp(infos: seq<NodeInfo>, lookup: map<Id, int>) {
    && (forall x :: x in lookup ==> 0 <= lookup[x] < |infos| && infos[lookup[x]].nodeId == x)
    && forall i :: 0 <= i < |infos| ==> infos[i].nodeId in lookup && i <= lookup[infos[i].nodeId]
  }

  /** The first `n` infos in document order have the intervals of the running total. */
  ghost predicate LaidOut(infos: seq<NodeInfo>, positions: map<int, Interval>, n: nat)
    requires n <= |infos|
  {
    DocumentIndicesPermute(infos);
    forall k :: 0 <= k < n
      ==> HasInterval(positions, DocumentIndices(infos)[k], CostBefore(infos, k), CostBefore(infos, k + 1))
  }

  predicate HasInterval(positions: map<int, Interval>, i: int, from: int, to: int) {
    i in positions && positions[i] == (from, to)
  }

  method BuildLookup(infos: seq<NodeInfo>) returns (lookup: map<Id, int>)
    ensures LooksUp(infos, lookup)
  {
    lookup := map[];
    for i := 0 to |infos|
      invariant forall x :: x in lookup ==> 0 <= lookup[x] < i && infos[lookup[x]].nodeId == x
      invariant forall j :: 0 <= j < i ==> infos[j].nodeId in lookup && j <= lookup[infos[j].nodeId]
    {
      lookup := lookup[infos[i].nodeId := i];
    }
  }

  method LayOut(infos: seq<NodeInfo>) returns (positions: map<int, Interval>, total: int)
    ensures LaidOut(infos, positions, |infos|) && total == CostBefore(infos, |infos|)
    ensures forall i :: 0 <= i < |infos| ==> i in positions
  {
    positions := map[];
    var order := DocumentIndices(infos);
    DocumentIndicesPermute(infos);
    hide DocumentIndices;
    var current := 0;
    for k := 0 to |order|
      invariant LaidOut(infos, positions, k) && current == CostBefore(infos, k)
      invariant forall i :: i in order[..k] ==> i in positions
    {
      assert order[..k + 1] == order[..k] + [order[k]];
      var next := current + infos[order[k]].tokenCost;
      assert next == CostBefore(infos, k + 1);
      assert forall j :: 0 <= j < k ==> order[j] != order[k];
      positions := positions[order[k] := (current, next)];
      current := next;
    }
    assert order[..|order|] == order;
    total := current;
  }

  // ----- the two recursions, as functions -----

  /** The infos and where each selected id stands in them. */
  ghost predicate Known(nodes: Nodes, infos: seq<NodeInfo>, lookup: map<Id, int>) {
    WellFormed(nodes) && LooksUp(infos, lookup)
  }

  ghost function Cost(nodes: Nodes, infos: seq<NodeInfo>, lookup: map<Id, int>, x: Id): int
    requires Known(nodes, infos, lookup) && x in nodes
    decreases Deeper(nodes, x), 1
  {
    if x in lookup then infos[lookup[x]].tokenCost else
      ChildrenAreSides(nodes, x);
      SideCost(nodes, infos, lookup, x, Child(nodes, nodes[x].left))
      + SideCost(nodes, infos, lookup, x, Child(nodes, nodes[x].right))
  }

  /** What a covered child adds to the cost of `x`: its cost, or its own tokens if that is zero. */
  ghost function SideCost(nodes: Nodes, infos: seq<NodeInfo>, lookup: map<Id, int>, x: Id, child: Option<Id>): int
    requires Known(nodes, infos, lookup) && IsSide(nodes, x, child)
    decreases Deeper(nodes, x), 0
  {
    if child.None? then 0 else
      DeeperShrinks(nodes, x, child.value);
      var cost := Cost(nodes, infos, lookup, child.value);
      if cost == 0 then nodes[child.value].tokens else cost
  }

  /** The smallest interval around the non-empty ones of two; (0, 0) if there is none. Ends are never below 0. */
  function Around(a: Interval, b: Interval): Interval {
    var hasA, hasB := a.1 > a.0, b.1 > b.0;
    var start := if hasA && hasB then (if b.0 < a.0 then b.0 else a.0) else if hasA then a.0
                 else if hasB then b.0 else 0;
    var end := if hasA && a.1 > 0 then a.1 else 0;
    (start, if hasB && b.1 > end then b.1 else end)
  }

  /** The interval of a covered node. */
  ghost function Position(nodes: Nodes, infos: seq<NodeInfo>, lookup: map<Id, int>, positions: map<int, Interval>,
                          x: Id): Interval
    requires Known(nodes, infos, lookup) && x in nodes
    decreases Deeper(nodes, x), 1
  {
    if Cost(nodes, infos, lookup, x) == 0 then (0, 0)
    else if x in lookup then (if lookup[x] in positions then positions[lookup[x]] else (0, 0))
    else
      ChildrenAreSides(nodes, x);
      Around(SidePosition(nodes, infos, lookup, positions, x, Child(nodes, nodes[x].left)),
             SidePosition(nodes, infos, lookup, positions, x, Child(nodes, nodes[x].right)))
  }

  ghost function SidePosition(nodes: Nodes, infos: seq<NodeInfo>, lookup: map<Id, int>, positions: map<int, Interval>,
                              x: Id, child: Option<Id>): Interval
    requires Known(nodes, infos, lookup) && IsSide(nodes, x, child)
    decreases Deeper(nodes, x), 0
  {
    if child.None? then (0, 0) else
      DeeperShrinks(nodes, x, child.value);
      Position(nodes, infos, lookup, positions, child.value)
  }

  /** What has been memoized is what the recursion computes. */
  ghost predicate CostsAgree(nodes: Nodes, infos: seq<NodeInfo>, lookup: map<Id, int>, costs: map<Id, int>)
    requires Known(nodes, infos, lookup)
  {
    forall x :: x in costs ==> x in nodes && costs[x] == Cost(nodes, infos, lookup, x)
  }

  ghost predicate PositionsAgree(nodes: Nodes, infos: seq<NodeInfo>, lookup: map<Id, int>,
                                 positions: map<int, Interval>, memo: map<Id, Interval>)
    requires Known(nodes, infos, lookup)
  {
    forall x :: x in memo ==> x in nodes && memo[x] == Position(nodes, infos, lookup, positions, x)
  }

  // ----- the resolver -----

  /** The covered nodes that can be found. */
  function Loaded(coverage: set<Id>, preloaded: Nodes, store: Nodes): Nodes {
    map x | x in coverage && (x in preloaded || x in store) :: if x in preloaded then preloaded[x] else store[x]
  }

  class TokenPositionResolver {
    const nodes: Nodes
    const infos: seq<NodeInfo>
    var lookup: map<Id, int>
    var positionsInTiling: map<int, Interval>
    var totalTokens: int
    var nodeCosts: map<Id, int>
    var nodePositions: map<Id, Interval>

    /** The tiling is laid out, and what has been memoized agrees with the recursions. */
    ghost predicate Valid()
      reads this
    {
      && Known(nodes, infos, lookup)
      && LaidOut(infos, positionsInTiling, |infos|)
      && (forall i :: 0 <= i < |infos| ==> i in positionsInTiling)
      && totalTokens == CostBefore(infos, |infos|)
      && CostsAgree(nodes, infos, lookup, nodeCosts)
      && PositionsAgree(nodes, infos, lookup, positionsInTiling, nodePositions)
    }

    /** Every covered node has its cost and its interval. */
    ghost predicate Complete()
      reads this
    {
      Valid() && nodeCosts.Keys == nodes.Keys && nodePositions.Keys == nodes.Keys
    }

    /** The coverage map has the covered nodes as its keys. */
    constructor (nodes: Nodes, infos: seq<NodeInfo>)
      requires WellFormed(nodes)
      ensures this.nodes == nodes && this.infos == infos && Complete()
    {
      this.nodes, this.infos := nodes, infos;
      lookup, positionsInTiling, totalTokens := map[], map[], 0;
      nodeCosts, nodePositions := map[], map[];
      new;
      hide Cost;
      hide Position;
      hide WellFormed;
      hide LaidOut;
      hide LooksUp;
      hide CostBefore;
      lookup := BuildLookup(infos);
      positionsInTiling, totalTokens := LayOut(infos);
      ComputeNodePositions();
    }

    /** A covered node comes from the preloaded ones or, failing that, from the store. */
    static method Create(coverage: set<Id>, preloaded: Nodes, store: Nodes, infos: seq<NodeInfo>)
      returns (r: Result<TokenPositionResolver>)
      requires coverage <= preloaded.Keys + store.Keys ==> WellFormed(Loaded(coverage, preloaded, store))
      ensures r.ValueError? <==> infos == [] || coverage == {} || !(coverage <= preloaded.Keys + store.Keys)
      ensures r.Ok? ==> fresh(r.value) && r.value.infos == infos && r.value.Complete()
      ensures r.Ok? ==>
                && r.value.nodes == Loaded(coverage, preloaded, store) && r.value.nodes.Keys == coverage
                && (forall x :: x in coverage && x in preloaded ==> r.value.nodes[x] == preloaded[x])
                && forall x :: x in coverage && x !in preloaded ==> x in store && r.value.nodes[x] == store[x]
    {
      if infos == [] { return ValueError("node_infos cannot be empty"); }
      if coverage == {} { return ValueError("coverage_map cannot be empty"); }
      if !(coverage <= preloaded.Keys + store.Keys) { return ValueError("Node not found for visualization"); }
      var resolver := new TokenPositionResolver(Loaded(coverage, preloaded, store), infos);
      r := Ok(resolver);
    }

    method ComputeCost(x: Id) returns (cost: int)
      requires Valid() && x in nodes
      modifies `nodeCosts
      ensures Valid() && x in nodeCosts && cost == Cost(nodes, infos, lookup, x)
      ensures old(nodeCosts).Keys <= nodeCosts.Keys
      decreases Deeper(nodes, x), 1
    {
      hide Known;
      hide WellFormed;
      hide LooksUp;
      hide LaidOut;
      hide CostBefore;
      hide CostsAgree;
      hide PositionsAgree;
      hide Cost;
      hide SideCost;
      hide Position;
      hide SidePosition;
      CostUnfold(nodes, infos, lookup, x);
      if x in nodeCosts {
        RememberedCost(nodes, infos, lookup, nodeCosts, x);
        return nodeCosts[x];
      }
      if x in lookup {
        cost := infos[lookup[x]].tokenCost;
      } else {
        var leftCost := ChildCost(x, Child(nodes, nodes[x].left));
        var rightCost := ChildCost(x, Child(nodes, nodes[x].right));
        cost := leftCost + rightCost;
      }
      RememberCost(nodes, infos, lookup, nodeCosts, x, cost);
      nodeCosts := nodeCosts[x := cost];
    }

    method ChildCost(x: Id, child: Option<Id>) returns (cost: int)
      requires Valid() && IsSide(nodes, x, child)
      modifies `nodeCosts
      ensures Valid() && cost == SideCost(nodes, infos, lookup, x, child)
      ensures old(nodeCosts).Keys <= nodeCosts.Keys
      decreases Deeper(nodes, x), 0
    {
      hide WellFormed;
      hide LaidOut;
      hide LooksUp;
      hide Cost;
      cost := 0;
      if child.Some? {
        DeeperShrinks(nodes, x, child.value);
        cost := ComputeCost(child.value);
        if cost == 0 { cost := nodes[child.value].tokens; }
      }
    }

    method ComputePosition(x: Id) returns (position: Interval)
      requires Valid() && x in nodes && nodeCosts.Keys == nodes.Keys
      modifies `nodePositions
      ensures Valid() && x in nodePositions
      ensures position == Position(nodes, infos, lookup, positionsInTiling, x)
      ensures old(nodePositions).Keys <= nodePositions.Keys
      decreases Deeper(nodes, x), 1
    {
      hide Known;
      hide WellFormed;
      hide LooksUp;
      hide LaidOut;
      hide CostBefore;
      hide CostsAgree;
      hide PositionsAgree;
      hide Cost;
      hide SideCost;
      hide Position;
      hide SidePosition;
      PositionUnfold(nodes, infos, lookup, positionsInTiling, x);
      if x in nodePositions {
        RememberedPosition(nodes, infos, lookup, positionsInTiling, nodePositions, x);
        return nodePositions[x];
      }
      RememberedCost(nodes, infos, lookup, nodeCosts, x);
      if nodeCosts[x] == 0 {
        position := (0, 0);
      } else if x in lookup {
        position := positionsInTiling[lookup[x]];
      } else {
        var left := ChildPosition(x, Child(nodes, nodes[x].left));
        var right := ChildPosition(x, Child(nodes, nodes[x].right));
        position := Surround(left, right);
      }
      RememberPosition(nodes, infos, lookup, positionsInTiling, nodePositions, x, position);
      nodePositions := nodePositions[x := position];
    }

    method ChildPosition(x: Id, child: Option<Id>) returns (position: Interval)
      requires Valid() && IsSide(nodes, x, child) && nodeCosts.Keys == nodes.Keys
      modifies `nodePositions
      ensures Valid() && position == SidePosition(nodes, infos, lookup, positionsInTiling, x, child)
      ensures old(nodePositions).Keys <= nodePositions.Keys
      decreases Deeper(nodes, x), 0
    {
      hide WellFormed;
      hide LaidOut;
      hide LooksUp;
      hide Cost;
      hide Position;
      position := (0, 0);
      if child.Some? {
        DeeperShrinks(nodes, x, child.value);
        position := ComputePosition(child.value);
      }
    }

    method ComputeNodePositions()
      requires Valid() && nodeCosts == map[] && nodePositions == map[]
      modifies `nodeCosts, `nodePositions
      ensures Complete()
    {
      hide Known;
      hide WellFormed;
      hide LooksUp;
      hide LaidOut;
      hide CostBefore;
      hide CostsAgree;
      hide PositionsAgree;
      hide Cost;
      hide SideCost;
      hide Position;
      hide SidePosition;
      hide Valid;
      var order := AnyOrder(nodes.Keys);
      for i := 0 to |order|
        invariant Valid() && nodePositions == map[]
        invariant forall j :: 0 <= j < i ==> order[j] in nodeCosts
      {
        var _ := ComputeCost(order[i]);
      }
      AllCovered();
      order := AnyOrder(nodes.Keys);
      for i := 0 to |order|
        invariant Valid() && nodeCosts.Keys == nodes.Keys
        invariant forall j :: 0 <= j < i ==> order[j] in nodePositions
      {
        var _ := ComputePosition(order[i]);
      }
      AllCovered();
    }

    lemma AllCovered()
      requires Valid()
      ensures nodeCosts.Keys <= nodes.Keys && nodePositions.Keys <= nodes.Keys
    {
    }
  }

  /** The interval around two, as the source builds it up. */
  method Surround(left: Interval, right: Interval) returns (position: Interval)
    ensures position == Around(left, right)
  {
    var start: Option<int>, end := None, 0;
    if left.1 > left.0 {
      start := Some(left.0);
      if left.1 > end { end := left.1; }
    }
    if right.1 > right.0 {
      if start.None? || right.0 < start.value { start := Some(right.0); }
      if right.1 > end { end := right.1; }
    }
    position := (if start.None? then 0 else start.value, end);
  }

  lemma CostUnfold(nodes: Nodes, infos: seq<NodeInfo>, lookup: map<Id, int>, x: Id)
    requires Known(nodes, infos, lookup) && x in nodes
    ensures IsSide(nodes, x, Child(nodes, nodes[x].left)) && IsSide(nodes, x, Child(nodes, nodes[x].right))
    ensures x in lookup ==> 0 <= lookup[x] < |infos| && Cost(nodes, infos, lookup, x) == infos[lookup[x]].tokenCost
    ensures x !in lookup ==> Cost(nodes, infos, lookup, x)
                             == SideCost(nodes, infos, lookup, x, Child(nodes, nodes[x].left))
                                + SideCost(nodes, infos, lookup, x, Child(nodes, nodes[x].right))
  {
    ChildrenAreSides(nodes, x);
  }

  lemma PositionUnfold(nodes: Nodes, infos: seq<NodeInfo>, lookup: map<Id, int>, positions: map<int, Interval>, x: Id)
    requires Known(nodes, infos, lookup) && x in nodes && forall i :: 0 <= i < |infos| ==> i in positions
    ensures IsSide(nodes, x, Child(nodes, nodes[x].left)) && IsSide(nodes, x, Child(nodes, nodes[x].right))
    ensures x in lookup ==> lookup[x] in positions
    ensures Position(nodes, infos, lookup, positions, x)
            == if Cost(nodes, infos, lookup, x) == 0 then (0, 0)
               else if x in lookup then positions[lookup[x]]
               else Around(SidePosition(nodes, infos, lookup, positions, x, Child(nodes, nodes[x].left)),
                           SidePosition(nodes, infos, lookup, positions, x, Child(nodes, nodes[x].right)))
  {
    ChildrenAreSides(nodes, x);
  }

  lemma RememberedCost(nodes: Nodes, infos: seq<NodeInfo>, lookup: map<Id, int>, costs: map<Id, int>, x: Id)
    requires Known(nodes, infos, lookup) && CostsAgree(nodes, infos, lookup, costs) && x in costs
    ensures x in nodes && costs[x] == Cost(nodes, infos, lookup, x)
  {
  }

  lemma RememberCost(nodes: Nodes, infos: seq<NodeInfo>, lookup: map<Id, int>, costs: map<Id, int>, x: Id, cost: int)
    requires Known(nodes, infos, lookup) && CostsAgree(nodes, infos, lookup, costs)
    requires x in nodes && cost == Cost(nodes, infos, lookup, x)
    ensures CostsAgree(nodes, infos, lookup, costs[x := cost])
  {
    hide Cost;
    hide Known;
  }

  lemma RememberedPosition(nodes: Nodes, infos: seq<NodeInfo>, lookup: map<Id, int>, positions: map<int, Interval>,
                           memo: map<Id, Interval>, x: Id)
    requires Known(nodes, infos, lookup) && PositionsAgree(nodes, infos, lookup, positions, memo) && x in memo
    ensures x in nodes && memo[x] == Position(nodes, infos, lookup, positions, x)
  {
  }

  lemma RememberPosition(nodes: Nodes, infos: seq<NodeInfo>, lookup: map<Id, int>, positions: map<int, Interval>,
                         memo: map<Id, Interval>, x: Id, position: Interval)
    requires Known(nodes, infos, lookup) && PositionsAgree(nodes, infos, lookup, positions, memo)
    requires x in nodes && position == Position(nodes, infos, lookup, positions, x)
    ensures PositionsAgree(nodes, infos, lookup, positions, memo[x := position])
  {
    hide Position;
    hide Known;
  }
}
