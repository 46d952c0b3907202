/**
 The greedy tiling generator (`ragzoom/greedy_tiling.py`) with its state: a frontier that
 is rolled up pair by pair, a heap of candidates and the set of parents that are in it.
 The methods are proved against the budget-free sequence of frontiers of `Rollups`.
 */
module GreedyTiling {
  import opened Options
  import opened Sorting
  import opened Forest
  import opened Rollups
  import opened TreeOrder

  datatype Tiling = Tiling(nodeIds: seq<Id>, relevanceTokens: real)

  datatype NodeInfo = NodeInfo(nodeId: Id, tokenCost: int, spanStart: int, spanEnd: int)

  datatype TilingResult = TilingResult(
    tiling: Tiling,
    nodeInfos: seq<NodeInfo>,
    totalQuality: real,
    coverageMap: map<Id, bool>)

  // ----- document order -----

  function Members(s: seq<Id>): set<Id> {
    set x | x in s
  }

  method SortedIds(nodes: Nodes, ids: seq<Id>) returns (s: seq<Id>)
    requires Distinct(ids)
    ensures Lists(nodes, s, Members(ids))
  {
    SortLists(nodes, ids);
    s := StableSort(DocumentOrder(nodes), ids);
  }

  // ----- the result -----

  function Relevance(ids: seq<Id>, nodes: Nodes, scores: Scores): real
    requires forall x :: x in ids ==> x in nodes
  {
    if ids == [] then 0.0 else
      Relevance(ids[..|ids| - 1], nodes, scores) + Mass(nodes, scores, ids[|ids| - 1])
  }

  function BuildResult(frontier: seq<Id>, scores: Scores, nodes: Nodes): TilingResult
    requires forall x :: x in frontier ==> x in nodes
  {
    var tiling := Tiling(frontier, Relevance(frontier, nodes, scores));
    var infos := seq(|frontier|, i requires 0 <= i < |frontier| =>
      assert frontier[i] in frontier;
      var node := nodes[frontier[i]];
      NodeInfo(frontier[i], node.tokens, node.spanStart, node.spanEnd));
    TilingResult(tiling, infos, tiling.relevanceTokens, map x | x in nodes :: true)
  }

  // ----- the bottom frontier -----

  /** Where the search starts: the covered root ids, or everywhere if none of them is covered. */
  ghost function Starts(nodes: Nodes, rootIds: seq<Id>): set<Id> {
    var covered := set x | x in rootIds && x in nodes;
    if covered == {} then nodes.Keys else covered
  }

  /** The nodes at or below a start. */
  ghost function Reached(nodes: Nodes, starts: set<Id>): set<Id>
    requires WellFormed(nodes)
  {
    set x | x in nodes && IsReached(nodes, starts, x)
  }

  ghost predicate IsReached(nodes: Nodes, starts: set<Id>, x: Id)
    requires WellFormed(nodes) && x in nodes
  {
    exists a :: a in starts && AncestorOrSelf(nodes, a, x)
  }

  /** The root ids leave no root of the forest out, or none of them is covered. */
  ghost predicate StartsCoverRoots(nodes: Nodes, rootIds: seq<Id>) {
    (forall x :: x in Roots(nodes) ==> x in rootIds) || (forall x :: x in rootIds ==> x !in nodes)
  }

  /** Then the search reaches every node. */
  lemma ReachedFromRoots(nodes: Nodes, rootIds: seq<Id>)
    requires WellFormed(nodes) && StartsCoverRoots(nodes, rootIds)
    ensures Reached(nodes, Starts(nodes, rootIds)) == nodes.Keys && BottomReached(nodes, rootIds) == Bottom(nodes)
  {
    var starts := Starts(nodes, rootIds);
    forall x | x in nodes ensures IsReached(nodes, starts, x) {
      var a := StartAbove(nodes, rootIds, x);
    }
    hide Starts;
    hide Bottom;
    assert Reached(nodes, starts) == nodes.Keys;
    BottomIsCovered(nodes);
  }

  /** So the generator returns the whole frontier. */
  lemma WholeFrontierFound(nodes: Nodes, scores: Scores, rootIds: seq<Id>, budget: Option<int>)
    requires WellFormed(nodes) && StartsCoverRoots(nodes, rootIds)
    ensures GreedyFrontier(nodes, scores, BottomReached(nodes, rootIds), budget) == WholeFrontier(nodes, scores, budget)
  {
    ReachedFromRoots(nodes, rootIds);
  }

  lemma BottomIsCovered(nodes: Nodes)
    ensures Bottom(nodes) * nodes.Keys == Bottom(nodes)
  {
  }

  lemma StartAbove(nodes: Nodes, rootIds: seq<Id>, x: Id) returns (a: Id)
    requires WellFormed(nodes) && StartsCoverRoots(nodes, rootIds) && x in nodes
    ensures a in Starts(nodes, rootIds) && AncestorOrSelf(nodes, a, x)
  {
    var covered := set y | y in rootIds && y in nodes;
    a := UniqueTop(nodes, nodes.Keys, x);
    assert a in Roots(nodes);
    if a in rootIds {
      assert a in covered;
    } else {
      assert covered == {};
      a := x;
    }
  }

  /** The bottom nodes that the search reaches. */
  ghost function BottomReached(nodes: Nodes, rootIds: seq<Id>): (from: set<Id>)
    requires WellFormed(nodes)
    ensures from <= Bottom(nodes)
  {
    Bottom(nodes) * Reached(nodes, Starts(nodes, rootIds))
  }

  /** The nodes in an arbitrary order, as iterating over a Python set or dictionary gives them. */
  method AnyOrder(ids: set<Id>) returns (s: seq<Id>)
    ensures Distinct(s) && forall x :: x in s <==> x in ids
  {
    s := [];
    var rest := ids;
    while rest != {}
      invariant rest <= ids
      invariant Distinct(s) && forall x :: x in s <==> x in ids && x !in rest
    {
      var x :| x in rest;
      rest := rest - {x};
      s := s + [x];
    }
  }

  /** The initial stack: the covered root ids, or every node when there is none. */
  method InitialStack(nodes: Nodes, rootIds: seq<Id>) returns (stack: seq<Id>)
    ensures forall x :: x in stack <==> x in Starts(nodes, rootIds)
  {
    stack := [];
    for i := 0 to |rootIds|
      invariant forall x :: x in stack <==> x in rootIds[..i] && x in nodes
    {
      if rootIds[i] in nodes { stack := stack + [rootIds[i]]; }
    }
    assert rootIds[..|rootIds|] == rootIds;
    ghost var covered := set x | x in rootIds && x in nodes;
    assert Members(stack) == covered;
    if stack == [] {
      assert covered == {};
      stack := AnyOrder(nodes.Keys);
    } else {
      assert stack[0] in covered;
    }
  }

  /** What the search keeps: everything seen is reached, and what is missing below it is on the stack. */
  ghost predicate Searching(nodes: Nodes, starts: set<Id>, visited: set<Id>, stack: seq<Id>)
    requires WellFormed(nodes)
  {
    && (forall x :: x in stack || x in visited ==> x in nodes && IsReached(nodes, starts, x))
    && (forall x :: x in starts ==> x in visited || x in stack)
    && forall p, c :: p in visited && c in Kids(nodes, p) ==> c in visited || c in stack
  }

  lemma SearchBegins(nodes: Nodes, stack: seq<Id>)
    requires WellFormed(nodes) && forall x :: x in stack ==> x in nodes
    ensures Searching(nodes, Members(stack), {}, stack)
  {
    assert forall x :: x in stack ==> x in Members(stack) && AncestorOrSelf(nodes, x, x);
  }

  lemma SearchSkips(nodes: Nodes, starts: set<Id>, visited: set<Id>, stack: seq<Id>)
    requires WellFormed(nodes) && Searching(nodes, starts, visited, stack) && stack != []
    requires stack[|stack| - 1] in visited
    ensures Searching(nodes, starts, visited, stack[..|stack| - 1])
  {
    PopMembers(stack);
    hide WellFormed;
    hide IsReached;
  }

  lemma SearchVisits(nodes: Nodes, starts: set<Id>, visited: set<Id>, stack: seq<Id>, more: seq<Id>)
    requires WellFormed(nodes) && Searching(nodes, starts, visited, stack) && stack != []
    requires stack[|stack| - 1] in nodes
    requires forall y :: y in more <==> y in stack[..|stack| - 1] || y in Kids(nodes, stack[|stack| - 1])
    ensures Searching(nodes, starts, visited + {stack[|stack| - 1]}, more)
  {
    PopMembers(stack);
    KidsReached(nodes, starts, stack[|stack| - 1]);
    hide WellFormed;
    hide IsReached;
  }

  lemma SearchedNext(nodes: Nodes, starts: set<Id>, visited: set<Id>, stack: seq<Id>)
    requires WellFormed(nodes) && Searching(nodes, starts, visited, stack) && stack != []
    ensures stack[|stack| - 1] in nodes
  {
    assert stack[|stack| - 1] in stack;
  }

  /** The depth-first search visits exactly the nodes at or below its starts. */
  method Visit(nodes: Nodes, stack0: seq<Id>) returns (visited: set<Id>)
    requires WellFormed(nodes) && forall x :: x in stack0 ==> x in nodes
    ensures visited == Reached(nodes, Members(stack0)) && ChildClosed(nodes, visited)
  {
    hide *;
    visited := {};
    var stack := stack0;
    ghost var starts := Members(stack0);
    SearchBegins(nodes, stack0);
    while stack != []
      invariant Searching(nodes, starts, visited, stack)
      decreases nodes.Keys - visited, |stack|
    {
      SearchedNext(nodes, starts, visited, stack);
      var current := stack[|stack| - 1];
      var rest := stack[..|stack| - 1];
      if current in visited {
        SearchSkips(nodes, starts, visited, stack);
        stack := rest;
      } else {
        var more := PushChildren(nodes, rest, current);
        SearchVisits(nodes, starts, visited, stack, more);
        visited := visited + {current};
        stack := more;
      }
    }
    AllVisited(nodes, starts, visited);
  }

  lemma PopMembers(stack: seq<Id>)
    requires stack != []
    ensures forall x :: x in stack <==> x in stack[..|stack| - 1] || x == stack[|stack| - 1]
  {
    assert stack == stack[..|stack| - 1] + [stack[|stack| - 1]];
  }

  method PushChildren(nodes: Nodes, stack: seq<Id>, x: Id) returns (more: seq<Id>)
    requires WellFormed(nodes) && x in nodes
    ensures forall y :: y in more <==> y in stack || y in Kids(nodes, x)
  {
    var node := nodes[x];
    more := stack;
    if node.left.Some? && node.left.value.name != "" {
      if node.left.value in nodes { more := more + [node.left.value]; }
    }
    if node.right.Some? && node.right.value.name != "" && node.right != node.left {
      if node.right.value in nodes { more := more + [node.right.value]; }
    }
    forall y | y in Kids(nodes, x) ensures y in more { assert y == Id(y.name); }
  }

  lemma KidsReached(nodes: Nodes, starts: set<Id>, p: Id)
    requires WellFormed(nodes) && p in nodes && IsReached(nodes, starts, p)
    ensures forall c :: c in Kids(nodes, p) ==> c.name != "" && IsReached(nodes, starts, c)
  {
    var a :| a in starts && AncestorOrSelf(nodes, a, p);
    forall c | c in Kids(nodes, p) ensures c.name != "" && IsReached(nodes, starts, c) {
      assert c == Id(c.name) && nodes[c].parent == Some(p);
      assert AncestorOrSelf(nodes, a, c);
    }
  }

  lemma AllVisited(nodes: Nodes, starts: set<Id>, visited: set<Id>)
    requires WellFormed(nodes) && Searching(nodes, starts, visited, [])
    ensures visited == Reached(nodes, starts) && ChildClosed(nodes, visited)
  {
    forall x | x in Reached(nodes, starts) ensures x in visited {
      var a :| a in starts && AncestorOrSelf(nodes, a, x);
      ClosedBelow(nodes, visited, a, x);
    }
  }

  /** The visited nodes without a visited child, in any order. */
  method WithoutVisitedChild(nodes: Nodes, visited: set<Id>) returns (frontier: seq<Id>)
    requires visited <= nodes.Keys
    ensures Distinct(frontier)
    ensures forall x :: x in frontier <==> x in visited && Kids(nodes, x) * visited == {}
  {
    var order := AnyOrder(visited);
    frontier := [];
    for i := 0 to |order|
      invariant Distinct(frontier)
      invariant forall x :: x in frontier <==> x in order[..i] && Kids(nodes, x) * visited == {}
    {
      var node := nodes[order[i]];
      var hasLeft := node.left.Some? && node.left.value in visited;
      var hasRight := node.right.Some? && node.right.value in visited;
      assert hasLeft ==> node.left.value in Kids(nodes, order[i]) * visited;
      assert hasRight ==> node.right.value in Kids(nodes, order[i]) * visited;
      assert order[i] !in order[..i];
      assert order[..i + 1] == order[..i] + [order[i]];
      if !hasLeft && !hasRight { frontier := frontier + [order[i]]; }
    }
    assert order[..|order|] == order;
  }

  method BuildFrontier(nodes: Nodes, rootIds: seq<Id>) returns (frontier: seq<Id>)
    requires WellFormed(nodes)
    ensures Lists(nodes, frontier, BottomReached(nodes, rootIds))
  {
    hide WellFormed;
    hide Reached;
    hide Lists;
    var stack := InitialStack(nodes, rootIds);
    assert Members(stack) == Starts(nodes, rootIds);
    var visited := Visit(nodes, stack);
    frontier := WithoutVisitedChild(nodes, visited);
    assert forall x :: x in visited ==> Kids(nodes, x) * visited == Kids(nodes, x);
    assert Members(frontier) == Bottom(nodes) * visited;
    frontier := SortedIds(nodes, frontier);
  }

  /** `_find_coverage_root_ids`: the nodes without a covered parent, in dictionary order. */
  method FindCoverageRootIds(nodes: Nodes) returns (rootIds: seq<Id>)
    ensures Distinct(rootIds) && forall x :: x in rootIds <==> x in Roots(nodes)
    ensures StartsCoverRoots(nodes, rootIds)
  {
    var order := AnyOrder(nodes.Keys);
    rootIds := [];
    for i := 0 to |order|
      invariant Distinct(rootIds)
      invariant forall x :: x in rootIds <==> x in order[..i] && x in Roots(nodes)
    {
      assert order[i] !in order[..i];
      assert order[..i + 1] == order[..i] + [order[i]];
      var parentId := nodes[order[i]].parent;
      if parentId.None? || parentId.value !in nodes { rootIds := rootIds + [order[i]]; }
    }
    assert order[..|order|] == order;
  }

  // ----- the heap -----

  /** `heapq.heappop`: takes the least entry out. */
  method HeapPop(queue: seq<RollupCandidate>) returns (least: RollupCandidate, rest: seq<RollupCandidate>)
    requires queue != []
    ensures multiset(queue) == multiset(rest) + multiset{least}
    ensures forall c :: c in rest ==> c == least || CandidateLess(least, c)
  {
    var k := 0;
    for i := 0 to |queue|
      invariant 0 <= k < |queue|
      invariant forall j :: 0 <= j < i ==> queue[j] == queue[k] || CandidateLess(queue[k], queue[j])
    {
      CandidateLessIsTotalOrder(queue[i], queue[k], queue[k]);
      if CandidateLess(queue[i], queue[k]) {
        forall j | 0 <= j < i ensures CandidateLess(queue[i], queue[j]) {
          CandidateLessIsTotalOrder(queue[i], queue[k], queue[j]);
        }
        k := i;
      }
    }
    least, rest := queue[k], queue[..k] + queue[k + 1..];
    assert queue == queue[..k] + [queue[k]] + queue[k + 1..];
  }

  /** The heap holds exactly the candidates of the eligible parents, each once and each with its current values. */
  ghost predicate HeapAgrees(nodes: Nodes, scores: Scores, frontier: set<Id>,
                             queue: seq<RollupCandidate>, enqueued: set<Id>) {
    && enqueued == Eligible(nodes, frontier)
    && HeapHolds(nodes, scores, queue, enqueued)
  }

  ghost predicate HeapHolds(nodes: Nodes, scores: Scores, queue: seq<RollupCandidate>, enqueued: set<Id>) {
    && (forall p :: p in enqueued ==> p in nodes && Kids(nodes, p) != {})
    && forall c :: multiset(queue)[c] == if c.parent in enqueued && c == Offer(nodes, scores, c.parent) then 1 else 0
  }

  /** The `queue` and `enqueued` pair that the roll-up loop passes to its helpers. */
  class CandidateQueue {
    var queue: seq<RollupCandidate>
    var enqueued: set<Id>

    constructor ()
      ensures queue == [] && enqueued == {}
    {
      queue, enqueued := [], {};
    }

    method EnqueueCandidate(parent: Id, frontier: set<Id>, nodes: Nodes, scores: Scores)
      modifies this
      ensures parent in old(enqueued) || parent !in Eligible(nodes, frontier) ==>
                queue == old(queue) && enqueued == old(enqueued)
      ensures parent !in old(enqueued) && parent in Eligible(nodes, frontier) ==>
                queue == old(queue) + [Offer(nodes, scores, parent)] && enqueued == old(enqueued) + {parent}
    {
      if parent in enqueued { return; }
      var candidate := ComputeCandidate(parent, frontier, nodes, scores);
      CandidateExists(nodes, scores, frontier, parent);
      if candidate.None? { return; }
      queue := queue + [candidate.value];
      enqueued := enqueued + {parent};
    }

    method InitializeCandidateQueue(frontier: set<Id>, nodes: Nodes, scores: Scores)
      requires WellFormed(nodes) && frontier <= nodes.Keys
      requires queue == [] && enqueued == {}
      modifies this
      ensures HeapAgrees(nodes, scores, frontier, queue, enqueued)
    {
      var order := AnyOrder(frontier);
      assert HeapHolds(nodes, scores, queue, enqueued);
      hide HeapHolds;
      hide WellFormed;
      hide Offer;
      for i := 0 to |order|
        invariant HeapHolds(nodes, scores, queue, enqueued)
        invariant enqueued <= Eligible(nodes, frontier)
        invariant forall p, c :: p in Eligible(nodes, frontier) && c in Kids(nodes, p) && c in order[..i]
                    ==> p in enqueued
      {
        var parent := nodes[order[i]].parent;
        if parent.Some? {
          ghost var before, had := queue, enqueued;
          EnqueueCandidate(parent.value, frontier, nodes, scores);
          if enqueued != had { HeapHoldsOneMore(nodes, scores, before, had, parent.value); }
        }
        ParentOfKid(nodes, order[i]);
        assert order[..i + 1] == order[..i] + [order[i]];
      }
      forall p | p in Eligible(nodes, frontier) ensures p in enqueued {
        var c :| c in Kids(nodes, p);
        assert c in order[..|order|];
      }
    }

    /**
     Pops entries until one is still eligible. `popped` lists what was taken off the heap:
     all but the last are no longer eligible, and the last is least among what is left.
     */
    method PopNextCandidate(frontier: set<Id>, nodes: Nodes, scores: Scores)
      returns (r: Option<(Id, Id, Id)>, ghost popped: seq<RollupCandidate>)
      modifies this
      ensures multiset(old(queue)) == multiset(queue) + multiset(popped)
      ensures enqueued == old(enqueued) - set c | c in popped :: c.parent
      ensures r.None? ==> queue == [] && forall c :: c in popped ==> c.parent !in Eligible(nodes, frontier)
      ensures r.Some? ==>
                && popped != []
                && (forall c :: c in popped[..|popped| - 1] ==> c.parent !in Eligible(nodes, frontier))
                && var last := popped[|popped| - 1];
                && last.parent in Eligible(nodes, frontier)
                && (var now := Offer(nodes, scores, last.parent); r.value == (now.parent, now.left, now.right))
                && forall c :: c in queue ==> c == last || CandidateLess(last, c)
    {
      popped := [];
      while queue != []
        invariant multiset(old(queue)) == multiset(queue) + multiset(popped)
        invariant enqueued == old(enqueued) - set c | c in popped :: c.parent
        invariant forall c :: c in popped ==> c.parent !in Eligible(nodes, frontier)
        decreases |queue|
      {
        var candidate, rest := HeapPop(queue);
        assert |multiset(queue)| == |rest| + 1;
        queue := rest;
        enqueued := enqueued - {candidate.parent};
        popped := popped + [candidate];
        var current := ComputeCandidate(candidate.parent, frontier, nodes, scores);
        CandidateExists(nodes, scores, frontier, candidate.parent);
        if current.Some? {
          return Some((current.value.parent, current.value.left, current.value.right)), popped;
        }
      }
      r := None;
    }
  }

  lemma ParentOfKid(nodes: Nodes, c: Id)
    requires WellFormed(nodes) && c in nodes
    ensures forall p :: p in nodes && c in Kids(nodes, p) ==> nodes[c].parent == Some(p)
  {
  }

  lemma HeapHoldsOneMore(nodes: Nodes, scores: Scores, queue: seq<RollupCandidate>, enqueued: set<Id>, p: Id)
    requires HeapHolds(nodes, scores, queue, enqueued)
    requires p !in enqueued && p in nodes && Kids(nodes, p) != {}
    ensures HeapHolds(nodes, scores, queue + [Offer(nodes, scores, p)], enqueued + {p})
  {
    OfferParent(nodes, scores, p);
  }

  /** What the loop keeps: frontier, running total, heap and `enqueued` all match the `n`-th naive frontier. */
  ghost predicate InStep(nodes: Nodes, scores: Scores, from: set<Id>, n: nat, frontier: set<Id>, total: int,
                         queue: seq<RollupCandidate>, enqueued: set<Id>) {
    && frontier == Frontier(nodes, scores, from, n)
    && total == Tokens(nodes, frontier)
    && HeapAgrees(nodes, scores, frontier, queue, enqueued)
  }

  /**
     On a heap that agrees with the frontier no popped entry is discarded: the first one popped is
     the best eligible parent, and the heap loses exactly that entry.
   */
  lemma PopsTheBest(nodes: Nodes, scores: Scores, frontier: set<Id>, queue: seq<RollupCandidate>, enqueued: set<Id>,
                    popped: seq<RollupCandidate>, rest: seq<RollupCandidate>)
    requires HeapAgrees(nodes, scores, frontier, queue, enqueued)
    requires multiset(queue) == multiset(rest) + multiset(popped) && popped != []
    requires forall c :: c in popped[..|popped| - 1] ==> c.parent !in Eligible(nodes, frontier)
    requires forall c :: c in rest ==> c == popped[|popped| - 1] || CandidateLess(popped[|popped| - 1], c)
    ensures |popped| == 1
    ensures IsBest(nodes, scores, Eligible(nodes, frontier), popped[0].parent)
    ensures HeapHolds(nodes, scores, rest, enqueued - {popped[0].parent})
  {
    forall c | c in popped ensures c in multiset(queue) && c.parent in enqueued {
      assert c in multiset(popped);
    }
    assert forall i :: 0 <= i < |popped| - 1 ==> popped[i] in popped[..|popped| - 1];
    var p := popped[0].parent;
    assert popped == [popped[0]];
    forall q | q in enqueued && q != p
      ensures CandidateLess(Offer(nodes, scores, p), Offer(nodes, scores, q)) {
      OfferParent(nodes, scores, q);
      OfferParent(nodes, scores, p);
      assert multiset(queue)[Offer(nodes, scores, q)] == 1;
      assert Offer(nodes, scores, q) in multiset(rest);
      assert Offer(nodes, scores, q) in rest;
    }
    forall c ensures multiset(rest)[c] ==
        if c.parent in enqueued - {p} && c == Offer(nodes, scores, c.parent) then 1 else 0 {
      assert multiset(queue)[c] == multiset(rest)[c] + multiset(popped)[c];
    }
  }

  /** A heap that has been emptied without meeting a parent of `choices` held none of them. */
  lemma EmptyHeap(nodes: Nodes, scores: Scores, choices: set<Id>, queue: seq<RollupCandidate>, enqueued: set<Id>,
                  popped: seq<RollupCandidate>)
    requires HeapHolds(nodes, scores, queue, enqueued)
    requires multiset(queue) == multiset(popped)
    requires forall c :: c in popped ==> c.parent !in choices
    ensures choices * enqueued == {}
  {
    forall p | p in enqueued ensures p !in choices {
      OfferParent(nodes, scores, p);
      assert multiset(queue)[Offer(nodes, scores, p)] == 1;
      assert Offer(nodes, scores, p) in multiset(popped);
      assert Offer(nodes, scores, p) in popped;
    }
  }

  /** The next naive frontier after rolling up the best parent, and what becomes of the heap index. */
  lemma NextStep(nodes: Nodes, scores: Scores, from: set<Id>, n: nat, p: Id)
    requires WellFormed(nodes) && from <= Bottom(nodes)
    requires IsBest(nodes, scores, Eligible(nodes, Frontier(nodes, scores, from, n)), p)
    ensures Kids(nodes, p) <= Frontier(nodes, scores, from, n)
    ensures Frontier(nodes, scores, from, n + 1) == Rollup(nodes, Frontier(nodes, scores, from, n), p)
    ensures Tokens(nodes, Frontier(nodes, scores, from, n + 1))
         == Tokens(nodes, Frontier(nodes, scores, from, n)) - Tokens(nodes, Kids(nodes, p)) + nodes[p].tokens
    ensures var had, has := Eligible(nodes, Frontier(nodes, scores, from, n)) - {p},
            Eligible(nodes, Frontier(nodes, scores, from, n + 1));
            && had <= has
            && (forall q :: q in has ==> q in had || nodes[p].parent == Some(q))
            && !ParentIn(had, nodes, p)
  {
    var f := Frontier(nodes, scores, from, n);
    FrontierIsTop(nodes, scores, from, n);
    BestUnique(nodes, scores, Eligible(nodes, f), p, Best(nodes, scores, Eligible(nodes, f)));
    RollupTokens(nodes, Settled(nodes, scores, from, n), p);
    EligibleAfterRollup(nodes, Settled(nodes, scores, from, n), p);
  }

  method TotalTokens(frontier: seq<Id>, nodes: Nodes) returns (total: int)
    requires Distinct(frontier) && forall x :: x in frontier ==> x in nodes
    ensures total == Tokens(nodes, Members(frontier))
  {
    total := 0;
    for i := 0 to |frontier|
      invariant total == Tokens(nodes, Members(frontier[..i]))
    {
      assert frontier[..i + 1] == frontier[..i] + [frontier[i]] && frontier[i] !in frontier[..i];
      SumRemove(TokensOf(nodes), Members(frontier[..i + 1]), frontier[i]);
      assert Members(frontier[..i + 1]) - {frontier[i]} == Members(frontier[..i]);
      total := total + nodes[frontier[i]].tokens;
    }
    assert frontier[..|frontier|] == frontier;
  }

  /** The set and the token total after replacing `left` and `right`, which may be the same node, by `parent`. */
  method ReplaceByParent(frontierSet: set<Id>, totalTokens: int, parent: Id, left: Id, right: Id, nodes: Nodes)
    returns (next: set<Id>, total: int)
    requires parent in nodes && left in nodes && right in nodes && Kids(nodes, parent) == {left, right}
    requires left in frontierSet && right in frontierSet
    ensures next == Rollup(nodes, frontierSet, parent)
    ensures total == totalTokens - (nodes[left].tokens + if right != left then nodes[right].tokens else 0)
                     + nodes[parent].tokens
  {
    var pairTokens := nodes[left].tokens;
    if right != left { pairTokens := pairTokens + nodes[right].tokens; }
    var parentTokens := nodes[parent].tokens;
    next := frontierSet - {left};
    if right != left { next := next - {right}; }
    next := next + {parent};
    total := totalTokens - pairTokens + parentTokens;
  }

  /** After the roll-up of `p` the only candidate that can be missing from the heap is that of its parent. */
  method EnqueueGrandparent(queue: CandidateQueue, p: Id, frontier: set<Id>, nodes: Nodes, scores: Scores)
    requires p in nodes
    requires HeapHolds(nodes, scores, queue.queue, queue.enqueued)
    requires queue.enqueued <= Eligible(nodes, frontier)
    requires forall q :: q in Eligible(nodes, frontier) ==> q in queue.enqueued || nodes[p].parent == Some(q)
    modifies queue
    ensures HeapAgrees(nodes, scores, frontier, queue.queue, queue.enqueued)
  {
    var grandparentId := nodes[p].parent;
    if grandparentId.Some? {
      ghost var before, had := queue.queue, queue.enqueued;
      queue.EnqueueCandidate(grandparentId.value, frontier, nodes, scores);
      if queue.enqueued != had { HeapHoldsOneMore(nodes, scores, before, had, grandparentId.value); }
    }
  }

  /** One pass of the roll-up loop: it takes the naive rule's next step, or finds nothing eligible. */
  method RollUpNext(queue: CandidateQueue, frontierSet: set<Id>, totalTokens: int,
                    nodes: Nodes, scores: Scores, ghost from: set<Id>, ghost n: nat)
    returns (rolled: bool, next: set<Id>, total: int)
    requires WellFormed(nodes) && from <= Bottom(nodes)
    requires InStep(nodes, scores, from, n, frontierSet, totalTokens, queue.queue, queue.enqueued)
    modifies queue
    ensures rolled <==> Eligible(nodes, Frontier(nodes, scores, from, n)) != {}
    ensures rolled ==> InStep(nodes, scores, from, n + 1, next, total, queue.queue, queue.enqueued)
    ensures rolled ==> next == Frontier(nodes, scores, from, n + 1) && total == Tokens(nodes, next)
    ensures !rolled ==> next == frontierSet && total == totalTokens
  {
    hide WellFormed;
    hide Offer;
    hide Kids;
    hide Tokens;
    hide Frontier;
    hide HeapHolds;
    hide CandidateLess;
    ghost var heap, had := queue.queue, queue.enqueued;
    var replacement, popped := queue.PopNextCandidate(frontierSet, nodes, scores);
    if replacement.None? {
      EmptyHeap(nodes, scores, Eligible(nodes, frontierSet), heap, had, popped);
      return false, frontierSet, totalTokens;
    }
    PopsTheBest(nodes, scores, frontierSet, heap, had, popped, queue.queue);
    var (parentId, leftId, rightId) := replacement.value;
    CandidateMeaning(nodes, scores, popped[0].parent);
    NextStep(nodes, scores, from, n, parentId);
    next, total := ReplaceByParent(frontierSet, totalTokens, parentId, leftId, rightId, nodes);
    assert queue.enqueued == had - {parentId};
    EnqueueGrandparent(queue, parentId, next, nodes, scores);
    rolled := true;
  }

  /** The state before the first roll-up. */
  method StartQueue(from: set<Id>, bottomTokens: int, limit: int, nodes: Nodes, scores: Scores)
    returns (queue: CandidateQueue)
    requires WellFormed(nodes) && from <= Bottom(nodes) && bottomTokens == Tokens(nodes, from)
    ensures fresh(queue)
    ensures InStep(nodes, scores, from, 0, from, bottomTokens, queue.queue, queue.enqueued)
    ensures from == Frontier(nodes, scores, from, 0)
    ensures StillRolling(nodes, scores, from, 0) && OverBudgetBefore(nodes, scores, from, limit, 0)
  {
    queue := new CandidateQueue();
    queue.InitializeCandidateQueue(from, nodes, scores);
  }

  lemma StopsHere(nodes: Nodes, scores: Scores, from: set<Id>, limit: int, n: nat)
    requires WellFormed(nodes) && from <= Bottom(nodes)
    requires StillRolling(nodes, scores, from, n) && OverBudgetBefore(nodes, scores, from, limit, n)
    requires Tokens(nodes, Frontier(nodes, scores, from, n)) <= limit
             || Eligible(nodes, Frontier(nodes, scores, from, n)) == {}
    ensures n == StopStep(nodes, scores, from, limit)
  {
    hide WellFormed;
    hide Frontier;
    hide Eligible;
    hide Tokens;
    StopIsUnique(nodes, scores, from, limit, n, StopStep(nodes, scores, from, limit));
  }

  /** The roll-up loop: from the bottom frontier to the frontier where a run with this budget stops. */
  method RollUpToBudget(from: set<Id>, bottomTokens: int, limit: int, nodes: Nodes, scores: Scores)
    returns (frontierSet: set<Id>)
    requires WellFormed(nodes) && from <= Bottom(nodes) && bottomTokens == Tokens(nodes, from)
    ensures frontierSet == Frontier(nodes, scores, from, StopStep(nodes, scores, from, limit))
  {
    var queue := StartQueue(from, bottomTokens, limit, nodes, scores);
    hide *;
    ghost var n: nat := 0;
    var totalTokens := bottomTokens;
    frontierSet := from;
    while totalTokens > limit
      invariant InStep(nodes, scores, from, n, frontierSet, totalTokens, queue.queue, queue.enqueued)
      invariant frontierSet == Frontier(nodes, scores, from, n) && totalTokens == Tokens(nodes, frontierSet)
      invariant StillRolling(nodes, scores, from, n) && OverBudgetBefore(nodes, scores, from, limit, n)
      invariant fresh(queue)
      decreases |nodes| - n
    {
      var rolled;
      rolled, frontierSet, totalTokens := RollUpNext(queue, frontierSet, totalTokens, nodes, scores, from, n);
      if !rolled { break; }
      RollsOn(nodes, scores, from, n);
      StaysOver(nodes, scores, from, limit, n);
      n := n + 1;
    }
    StopsHere(nodes, scores, from, limit, n);
  }

  /** The quality reported for a tiling is that of its nodes, whatever order they are listed in. */
  lemma {:induction false} RelevanceIsQuality(ids: seq<Id>, nodes: Nodes, scores: Scores)
    requires Distinct(ids) && forall x :: x in ids ==> x in nodes
    ensures Relevance(ids, nodes, scores) == Quality(nodes, scores, Members(ids))
  {
    hide Mass;
    if ids != [] {
      var front, last := ids[..|ids| - 1], ids[|ids| - 1];
      RelevanceIsQuality(front, nodes, scores);
      assert ids == front + [last] && last !in front;
      assert Members(ids) - {last} == Members(front);
      QualityRemove(nodes, scores, Members(ids), last);
    }
  }

  /** The result lists its nodes by span start and then by id, and reports what the covered nodes say about them. */
  ghost predicate IsReport(r: TilingResult, scores: Scores, nodes: Nodes) {
    var ids := r.tiling.nodeIds;
    && (forall x :: x in ids ==> x in nodes)
    && (forall i, j :: 0 <= i < j < |ids| ==> ListedBefore(nodes, ids[i], ids[j]))
    && |r.nodeInfos| == |ids|
    && (forall i :: 0 <= i < |ids| ==> IsInfo(nodes, ids[i], r.nodeInfos[i]))
    && r.totalQuality == r.tiling.relevanceTokens == Quality(nodes, scores, Members(ids))
    && r.coverageMap.Keys == nodes.Keys && forall x :: x in nodes ==> r.coverageMap[x]
  }

  ghost predicate IsInfo(nodes: Nodes, x: Id, info: NodeInfo) {
    && x in nodes && info.nodeId == x && info.tokenCost == nodes[x].tokens
    && info.spanStart == nodes[x].spanStart && info.spanEnd == nodes[x].spanEnd
  }

  lemma ResultIsReport(ids: seq<Id>, scores: Scores, nodes: Nodes, f: set<Id>)
    requires Lists(nodes, ids, f) && f <= nodes.Keys
    ensures (forall x :: x in ids ==> x in nodes) && IsReport(BuildResult(ids, scores, nodes), scores, nodes)
  {
    RelevanceIsQuality(ids, nodes, scores);
    forall i | 0 <= i < |ids| ensures ids[i] in nodes { assert ids[i] in ids; }
    forall i, j | 0 <= i < j < |ids| ensures ListedBefore(nodes, ids[i], ids[j]) {
      ListedOrder(nodes, ids[i], ids[j]);
    }
    hide ListedBefore;
    hide Quality;
    hide Relevance;
  }

  class GreedyTilingGenerator {
    constructor () {}

    method FindOptimalTilingOverRoots(rootIds: seq<Id>, budget: Option<int>, scores: Scores, nodes: Nodes)
      returns (r: TilingResult)
      requires WellFormed(nodes)
      ensures Lists(nodes, r.tiling.nodeIds, GreedyFrontier(nodes, scores, BottomReached(nodes, rootIds), budget))
      ensures (forall x :: x in r.tiling.nodeIds ==> x in nodes) && r == BuildResult(r.tiling.nodeIds, scores, nodes)
      ensures IsReport(r, scores, nodes)
    {
      ghost var from := BottomReached(nodes, rootIds);
      hide WellFormed;
      hide BottomReached;
      FrontierIsCovered(nodes, scores, from, budget);
      if nodes == map[] {
        r := TilingResult(Tiling([], 0.0), [], 0.0, map[]);
        ResultIsReport([], scores, nodes, {});
        return;
      }
      var frontier := BuildFrontier(nodes, rootIds);
      assert Members(frontier) == from == Frontier(nodes, scores, from, 0);
      if budget.None? {
        ResultIsReport(frontier, scores, nodes, from);
        return BuildResult(frontier, scores, nodes);
      }
      var limit := budget.value;
      var totalTokens := TotalTokens(frontier, nodes);
      if totalTokens <= limit {
        StopsHere(nodes, scores, from, limit, 0);
        ResultIsReport(frontier, scores, nodes, from);
        return BuildResult(frontier, scores, nodes);
      }
      var frontierSet := RollUpToBudget(Members(frontier), totalTokens, limit, nodes, scores);
      var order := AnyOrder(frontierSet);
      assert Members(order) == frontierSet;
      var orderedFrontier := SortedIds(nodes, order);
      ResultIsReport(orderedFrontier, scores, nodes, frontierSet);
      r := BuildResult(orderedFrontier, scores, nodes);
    }
  }

  lemma FrontierIsCovered(nodes: Nodes, scores: Scores, from: set<Id>, budget: Option<int>)
    requires WellFormed(nodes) && from <= Bottom(nodes)
    ensures GreedyFrontier(nodes, scores, from, budget) <= nodes.Keys
  {
    FrontierIsTop(nodes, scores, from, if budget.None? then 0 else StopStep(nodes, scores, from, budget.value));
  }
}
