/**
 The token-space layout read in the infos themselves: where each selected node is put, and what the covered
 nodes below the tiling get (`ragzoom/tree_viz.py`).
 */
module TokenLayoutReading {
  import opened Options
  import opened Sorting
  import opened Forest
  import opened TreeOrder
  import opened GreedyTiling
  import opened TokenLayout
  import opened TokenLayoutTheorems

  // ----- where a selected node is put -----

  /** The infos that start before info `i`, or at the same position and stand before it. */
  ghost function Ahead(infos: seq<NodeInfo>, i: nat): set<int>
    requires i < |infos|
  {
    set j | 0 <= j < |infos| && IsAhead(infos, j, i)
  }

  ghost predicate IsAhead(infos: seq<NodeInfo>, j: nat, i: nat)
    requires i < |infos| && j < |infos|
  {
    infos[j].spanStart < infos[i].spanStart || (infos[j].spanStart == infos[i].spanStart && j < i)
  }

  /** The token cost of those of the first `n` infos whose indices are in `s`. */
  ghost function CostOf(infos: seq<NodeInfo>, s: set<int>, n: nat): int
    requires n <= |infos|
  {
    if n == 0 then 0 else CostOf(infos, s, n - 1) + if n - 1 in s then infos[n - 1].tokenCost else 0
  }

  lemma {:induction false} CostRemove(infos: seq<NodeInfo>, s: set<int>, i: nat, n: nat)
    requires i in s && n <= |infos| && i < |infos|
    ensures CostOf(infos, s, n) == CostOf(infos, s - {i}, n) + if i < n then infos[i].tokenCost else 0
  {
    if n > 0 { CostRemove(infos, s, i, n - 1); }
  }

  /** The indices at the first `k` places of the document order. */
  ghost function FirstPlaces(infos: seq<NodeInfo>, k: nat): set<int>
    requires k <= |DocumentIndices(infos)|
  {
    set j | j in DocumentIndices(infos)[..k]
  }

  lemma {:induction false} CostOfPlaces(infos: seq<NodeInfo>, k: nat)
    requires k <= |infos|
    ensures |DocumentIndices(infos)| == |infos|
    ensures CostBefore(infos, k) == CostOf(infos, FirstPlaces(infos, k), |infos|)
  {
    DocumentIndicesPermute(infos);
    hide DocumentIndices;
    hide CostOf;
    if k > 0 {
      var last := DocumentIndices(infos)[k - 1];
      OnePlaceMore(infos, k);
      CostOfPlaces(infos, k - 1);
      CostRemove(infos, FirstPlaces(infos, k), last, |infos|);
    } else {
      assert FirstPlaces(infos, k) == {};
      NoCost(infos, FirstPlaces(infos, k), |infos|);
    }
  }

  lemma {:induction false} NoCost(infos: seq<NodeInfo>, s: set<int>, n: nat)
    requires s == {} && n <= |infos|
    ensures CostOf(infos, s, n) == 0
  {
    if n > 0 { NoCost(infos, s, n - 1); }
  }

  lemma OnePlaceMore(infos: seq<NodeInfo>, k: nat)
    requires 0 < k <= |infos|
    ensures |DocumentIndices(infos)| == |infos|
    ensures DocumentIndices(infos)[k - 1] in FirstPlaces(infos, k)
    ensures FirstPlaces(infos, k) - {DocumentIndices(infos)[k - 1]} == FirstPlaces(infos, k - 1)
  {
    DocumentIndicesPermute(infos);
    hide DocumentIndices;
    var order := DocumentIndices(infos);
    assert order[..k] == order[..k - 1] + [order[k - 1]] && order[k - 1] !in order[..k - 1];
  }

  lemma IndicesDistinct(n: nat)
    ensures Distinct(Indices(n))
  {
  }

  lemma IndexBefore(n: nat, i: int, j: int)
    requires Before(Indices(n), i, j)
    ensures i < j
  {
  }

  lemma PlacesInOrder(infos: seq<NodeInfo>, a: nat, b: nat)
    requires a < b < |infos|
    ensures |DocumentIndices(infos)| == |infos|
    ensures var i, j := DocumentIndices(infos)[a], DocumentIndices(infos)[b];
            0 <= i < |infos| && 0 <= j < |infos| && IsAhead(infos, i, j)
  {
    DocumentIndicesPermute(infos);
    var le, indices := IndexOrder(infos), Indices(|infos|);
    var i, j := DocumentIndices(infos)[a], DocumentIndices(infos)[b];
    SortSorts(le, indices);
    assert le(i, j);
    if StartOf(infos, i) == StartOf(infos, j) {
      IndicesDistinct(|infos|);
      assert TotalPreorder(le) && le(j, i);
      hide *;
      SortKeepsTies(le, indices, a, b);
      IndexBefore(|infos|, i, j);
    }
  }

  lemma AheadIsFirst(infos: seq<NodeInfo>, k: nat)
    requires k < |infos|
    ensures |DocumentIndices(infos)| == |infos| && 0 <= DocumentIndices(infos)[k] < |infos|
    ensures FirstPlaces(infos, k) == Ahead(infos, DocumentIndices(infos)[k])
  {
    DocumentIndicesPermute(infos);
    var order := DocumentIndices(infos);
    hide DocumentIndices;
    forall j | 0 <= j < |infos| ensures j in order[..k] <==> IsAhead(infos, j, order[k]) {
      assert j in order;
      var m :| 0 <= m < |order| && order[m] == j;
      if m < k { PlacesInOrder(infos, m, k); assert order[..k][m] == j; }
      if k < m { PlacesInOrder(infos, k, m); }
      if j in order[..k] {
        var l :| 0 <= l < k && order[..k][l] == j;
        assert order[l] == j;
      }
    }
  }

  /**
     The interval of a selected node starts at the token cost of all selected nodes that are ahead of it, by
     span start and then by place in the tiling, and is as wide as its own cost.
   */
  lemma IntervalMeaning(infos: seq<NodeInfo>, positions: map<int, Interval>, i: nat)
    requires LaidOut(infos, positions, |infos|) && i < |infos|
    ensures i in positions && positions[i].0 == CostOf(infos, Ahead(infos, i), |infos|)
    ensures positions[i].1 == positions[i].0 + infos[i].tokenCost
  {
    var k := PlaceOf(infos, positions, i);
    AheadIsFirst(infos, k);
    CostOfPlaces(infos, k);
    DocumentIndicesPermute(infos);
    hide DocumentIndices;
    hide LaidOut;
  }

  // ----- below the tiling -----

  /** The selected ids are the top of `s`, and nothing else can be looked up. */
  ghost predicate LooksUpTop(nodes: Nodes, lookup: map<Id, int>, s: set<Id>) {
    ChildClosed(nodes, s) && forall x :: x in lookup <==> x in Top(nodes, s)
  }

  /** A child of a settled node is settled and below the tiling. */
  lemma KidIsBelow(nodes: Nodes, lookup: map<Id, int>, s: set<Id>, x: Id, c: Id)
    requires WellFormed(nodes) && LooksUpTop(nodes, lookup, s) && x in s && c in Kids(nodes, x)
    ensures c in s && c !in lookup
  {
    assert nodes[c].parent == Some(x);
  }

  /** A covered node below the tiling has no stretch of the layout. */
  lemma {:induction false} NoInterval(nodes: Nodes, infos: seq<NodeInfo>, lookup: map<Id, int>,
                                      positions: map<int, Interval>, s: set<Id>, x: Id)
    requires Known(nodes, infos, lookup) && WellFormed(nodes) && LooksUpTop(nodes, lookup, s)
    requires x in s && x !in lookup
    ensures Position(nodes, infos, lookup, positions, x) == (0, 0)
    decreases Deeper(nodes, x)
  {
    ChildrenAreSides(nodes, x);
    forall c | c in Kids(nodes, x) ensures Position(nodes, infos, lookup, positions, c) == (0, 0) {
      KidIsBelow(nodes, lookup, s, x, c);
      DeeperShrinks(nodes, x, c);
      NoInterval(nodes, infos, lookup, positions, s, c);
    }
    hide WellFormed;
    hide LooksUp;
    hide Cost;
  }

  /** The bottom nodes are a cut of their own, and everything is on it or above it. */
  lemma BottomIsCut(nodes: Nodes)
    requires WellFormed(nodes)
    ensures Bottom(nodes) <= nodes.Keys && IsCut(nodes, Bottom(nodes)) && Top(nodes, Bottom(nodes)) == Bottom(nodes)
    ensures forall x :: x in nodes ==> AtOrAbove(nodes, Bottom(nodes), x)
  {
    forall x | x in Bottom(nodes) ensures x in Top(nodes, Bottom(nodes)) {
      assert ParentIn(nodes.Keys, nodes, x) ==> x in Kids(nodes, nodes[x].parent.value);
    }
  }

  /** The token sum of the bottom nodes at or below `x`. */
  ghost function TokensBelow(nodes: Nodes, x: Id): int
    requires WellFormed(nodes)
  {
    Rollups.Tokens(nodes, Below(nodes, Bottom(nodes), x))
  }

  ghost function SideTokens(nodes: Nodes, child: Option<Id>): int
    requires WellFormed(nodes)
  {
    if child.None? then 0 else TokensBelow(nodes, child.value)
  }

  lemma LeafTokens(nodes: Nodes, x: Id)
    requires WellFormed(nodes) && x in nodes && Kids(nodes, x) == {}
    ensures TokensBelow(nodes, x) == nodes[x].tokens
  {
    BottomIsCut(nodes);
    OnlySelfBelow(nodes, Bottom(nodes), x);
    SumRemove(Rollups.TokensOf(nodes), {x}, x);
    assert {x} - {x} == {};
  }

  lemma InnerTokens(nodes: Nodes, x: Id)
    requires WellFormed(nodes) && x in nodes && Kids(nodes, x) != {} && ChildrenDistinct(nodes)
    ensures var l, r := Child(nodes, nodes[x].left), Child(nodes, nodes[x].right);
            && (l.Some? || r.Some?) && IsSide(nodes, x, l) && IsSide(nodes, x, r)
            && TokensBelow(nodes, x) == SideTokens(nodes, l) + SideTokens(nodes, r)
  {
    BottomIsCut(nodes);
    var f := Bottom(nodes);
    assert x !in f;
    SidesAbove(nodes, f, x);
    InnerHasChild(nodes, f, x);
    BelowIsBelowKids(nodes, f, x);
    var l, r := Child(nodes, nodes[x].left), Child(nodes, nodes[x].right);
    var bl := if l.Some? then Below(nodes, f, l.value) else {};
    var br := if r.Some? then Below(nodes, f, r.value) else {};
    assert Below(nodes, f, x) == bl + br;
    assert l.Some? && r.Some? ==> l != r;
    hide WellFormed;
    hide Bottom;
    forall y | y in bl && y in br ensures false { BelowOneChild(nodes, x, l.value, r.value, y); }
    SumUnion(Rollups.TokensOf(nodes), bl, br);
  }

  /**
     The cost of a covered node below the tiling: nothing for a node without children, and the tokens of the
     bottom nodes below it for any other.
   */
  lemma {:induction false} UnselectedCost(nodes: Nodes, infos: seq<NodeInfo>, lookup: map<Id, int>, s: set<Id>, x: Id)
    requires Known(nodes, infos, lookup) && WellFormed(nodes) && LooksUpTop(nodes, lookup, s)
    requires ChildrenDistinct(nodes) && forall y :: y in nodes ==> nodes[y].tokens > 0
    requires x in s && x !in lookup
    ensures TokensBelow(nodes, x) > 0
    ensures Cost(nodes, infos, lookup, x) == if Kids(nodes, x) == {} then 0 else TokensBelow(nodes, x)
    decreases Deeper(nodes, x)
  {
    CostUnfold(nodes, infos, lookup, x);
    hide Cost;
    hide TokensBelow;
    hide WellFormed;
    hide LooksUp;
    if Kids(nodes, x) == {} {
      LeafTokens(nodes, x);
      NoSides(nodes, x);
    } else {
      InnerTokens(nodes, x);
      forall c | c in Kids(nodes, x)
        ensures TokensBelow(nodes, c) > 0 && UnselectedSide(nodes, infos, lookup, c) == TokensBelow(nodes, c) {
        KidIsBelow(nodes, lookup, s, x, c);
        DeeperShrinks(nodes, x, c);
        UnselectedCost(nodes, infos, lookup, s, c);
        if Kids(nodes, c) == {} { LeafTokens(nodes, c); }
      }
      SideCosts(nodes, infos, lookup, x);
    }
  }

  ghost function UnselectedSide(nodes: Nodes, infos: seq<NodeInfo>, lookup: map<Id, int>, c: Id): int
    requires Known(nodes, infos, lookup) && c in nodes
  {
    if Cost(nodes, infos, lookup, c) == 0 then nodes[c].tokens else Cost(nodes, infos, lookup, c)
  }

  lemma SideCosts(nodes: Nodes, infos: seq<NodeInfo>, lookup: map<Id, int>, x: Id)
    requires Known(nodes, infos, lookup) && x in nodes
    ensures forall child :: IsSide(nodes, x, child) ==>
              SideCost(nodes, infos, lookup, x, child)
              == if child.None? then 0 else UnselectedSide(nodes, infos, lookup, child.value)
  {
  }

  lemma NoSides(nodes: Nodes, x: Id)
    requires x in nodes && Kids(nodes, x) == {}
    ensures Child(nodes, nodes[x].left) == None && Child(nodes, nodes[x].right) == None
  {
    ChildrenAreSides(nodes, x);
  }

  /** In a resolver for the tiling of any budget, exactly the nodes of the tiling can be looked up. */
  lemma LookupIsTiling(nodes: Nodes, infos: seq<NodeInfo>, lookup: map<Id, int>, scores: Rollups.Scores,
                       budget: Option<int>) returns (s: set<Id>)
    requires WellFormed(nodes) && ShowsTiling(nodes, infos, scores, budget) && LooksUp(infos, lookup)
    ensures s <= nodes.Keys && Top(nodes, s) == Rollups.WholeFrontier(nodes, scores, budget)
    ensures LooksUpTop(nodes, lookup, s)
  {
    var f := Rollups.WholeFrontier(nodes, scores, budget);
    var ids :| Lists(nodes, ids, f) && (forall x :: x in ids ==> x in nodes)
               && infos == BuildResult(ids, scores, nodes).nodeInfos;
    s := ExactTiling.ResultIsCutTop(nodes, scores, budget);
    ResultInfos(nodes, scores, ids);
    forall i | 0 <= i < |infos| ensures infos[i].nodeId == ids[i] { assert IsInfo(nodes, ids[i], infos[i]); }
    hide BuildResult;
    hide ShowsTiling;
    forall x | x in f ensures x in lookup {
      var i :| 0 <= i < |ids| && ids[i] == x;
      assert infos[i].nodeId in lookup;
    }
    forall x | x in lookup ensures x in f { assert ids[lookup[x]] in ids; }
  }

  /**
     End to end: in a resolver for the tiling of any budget, a covered node below the tiling has no stretch of
     the layout. If no child is shared and nodes have tokens, its cost is that of the bottom nodes below it,
     or nothing if it is one of them.
   */
  lemma ResolverBelow(r: TokenPositionResolver, scores: Rollups.Scores, budget: Option<int>, above: Id, x: Id)
    requires r.Complete() && WellFormed(r.nodes) && ShowsTiling(r.nodes, r.infos, scores, budget)
    requires above in Rollups.WholeFrontier(r.nodes, scores, budget)
    requires x in r.nodes && x != above && AncestorOrSelf(r.nodes, above, x)
    ensures x in r.nodePositions && r.nodePositions[x] == (0, 0)
    ensures x in r.nodeCosts
    ensures ChildrenDistinct(r.nodes) && (forall y :: y in r.nodes ==> r.nodes[y].tokens > 0) ==>
              r.nodeCosts[x] == if Kids(r.nodes, x) == {} then 0 else TokensBelow(r.nodes, x)
  {
    ResolverHas(r, x);
    var s := LookupIsTiling(r.nodes, r.infos, r.lookup, scores, budget);
    BelowTop(r.nodes, s, above, x);
    hide *;
    LookupOf(r.nodes, r.lookup, s, x);
    NoInterval(r.nodes, r.infos, r.lookup, r.positionsInTiling, s, x);
    if ChildrenDistinct(r.nodes) && forall y :: y in r.nodes ==> r.nodes[y].tokens > 0 {
      UnselectedCost(r.nodes, r.infos, r.lookup, s, x);
    }
  }

  lemma BelowTop(nodes: Nodes, s: set<Id>, above: Id, x: Id)
    requires WellFormed(nodes) && ChildClosed(nodes, s) && above in Top(nodes, s)
    requires x in nodes && x != above && AncestorOrSelf(nodes, above, x)
    ensures x in s && x !in Top(nodes, s)
  {
    ClosedBelow(nodes, s, above, x);
    var p := nodes[x].parent.value;
    assert x in Kids(nodes, p);
    ClosedBelow(nodes, s, above, p);
  }

  lemma LookupOf(nodes: Nodes, lookup: map<Id, int>, s: set<Id>, x: Id)
    requires LooksUpTop(nodes, lookup, s) && s <= nodes.Keys && x !in Top(nodes, s)
    ensures x !in lookup
  {
  }
}
