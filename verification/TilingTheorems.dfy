/** What the greedy tiling generator promises, stated about the frontier it returns. */
module TilingTheorems {
  import opened Options
  import opened Forest
  import opened Rollups

  /** Exactly one member of `frontier` is `x` or an ancestor of `x`. */
  ghost predicate OneAncestorIn(nodes: Nodes, frontier: set<Id>, x: Id)
    requires WellFormed(nodes) && x in nodes
  {
    exists f :: f in frontier && AncestorOrSelf(nodes, f, x)
                && forall g :: g in frontier && AncestorOrSelf(nodes, g, x) ==> g == f
  }

  lemma OneAncestorOfSettled(nodes: Nodes, scores: Scores, from: set<Id>, m: nat, n: nat, x: Id)
    requires WellFormed(nodes) && from <= Bottom(nodes) && m <= n && x in Settled(nodes, scores, from, m)
    ensures x in nodes && OneAncestorIn(nodes, Frontier(nodes, scores, from, n), x)
  {
    FrontierIsTop(nodes, scores, from, n);
    SettledGrows(nodes, scores, from, m, n);
    var t := UniqueTop(nodes, Settled(nodes, scores, from, n), x);
  }

  /** No member of `frontier` is `x` or an ancestor of `x`. */
  ghost predicate NoAncestorIn(nodes: Nodes, frontier: set<Id>, x: Id)
    requires WellFormed(nodes) && x in nodes
  {
    forall f :: f in frontier ==> !AncestorOrSelf(nodes, f, x)
  }

  /**
     The cut invariant: after every roll-up each bottom node the search has reached has exactly one
     ancestor-or-self on the frontier, and no other bottom node has one.
   */
  lemma CutAtEveryStep(nodes: Nodes, scores: Scores, from: set<Id>, n: nat)
    requires WellFormed(nodes) && from <= Bottom(nodes)
    ensures forall x :: x in from ==> OneAncestorIn(nodes, Frontier(nodes, scores, from, n), x)
    ensures forall x :: x in Bottom(nodes) && x !in from ==> NoAncestorIn(nodes, Frontier(nodes, scores, from, n), x)
  {
    forall x | x in from ensures OneAncestorIn(nodes, Frontier(nodes, scores, from, n), x) {
      OneAncestorOfSettled(nodes, scores, from, 0, n, x);
    }
    FrontierIsTop(nodes, scores, from, n);
    var s := Settled(nodes, scores, from, n);
    forall x, f | x in Bottom(nodes) && f in Top(nodes, s) && AncestorOrSelf(nodes, f, x) ensures x in from {
      ClosedBelow(nodes, s, f, x);
    }
  }

  /** So it is in the tiling returned for any budget. */
  lemma ResultIsCut(nodes: Nodes, scores: Scores, from: set<Id>, budget: Option<int>)
    requires WellFormed(nodes) && from <= Bottom(nodes)
    ensures GreedyFrontier(nodes, scores, from, budget) <= nodes.Keys
    ensures forall x :: x in from ==> OneAncestorIn(nodes, GreedyFrontier(nodes, scores, from, budget), x)
    ensures forall x :: x in Bottom(nodes) && x !in from ==>
                          NoAncestorIn(nodes, GreedyFrontier(nodes, scores, from, budget), x)
  {
    var n := if budget.None? then 0 else StopStep(nodes, scores, from, budget.value);
    FrontierIsTop(nodes, scores, from, n);
    CutAtEveryStep(nodes, scores, from, n);
  }

  /** `b` leaves at least as much room as `a`; no budget is the largest. */
  predicate NoTighter(b: Option<int>, a: Option<int>) {
    b.None? || (a.Some? && a.value <= b.value)
  }

  /** The tighter budget rolls on from where the looser one stopped. */
  lemma TighterStopsLater(nodes: Nodes, scores: Scores, from: set<Id>, tight: int, loose: int)
    requires WellFormed(nodes) && from <= Bottom(nodes) && tight <= loose
    ensures StopStep(nodes, scores, from, loose) <= StopStep(nodes, scores, from, tight)
  {
    var n := StopStep(nodes, scores, from, tight);
    assert StopsAt(nodes, scores, from, tight, n);
  }

  /** Budget nesting: every node of the looser tiling has exactly one ancestor-or-self in the tighter one. */
  lemma BudgetNesting(nodes: Nodes, scores: Scores, from: set<Id>, tight: Option<int>, loose: Option<int>)
    requires WellFormed(nodes) && from <= Bottom(nodes) && NoTighter(loose, tight)
    ensures forall x :: x in GreedyFrontier(nodes, scores, from, loose) ==>
                          x in nodes && OneAncestorIn(nodes, GreedyFrontier(nodes, scores, from, tight), x)
  {
    var m := if loose.None? then 0 else StopStep(nodes, scores, from, loose.value);
    var n := if tight.None? then 0 else StopStep(nodes, scores, from, tight.value);
    if loose.Some? { TighterStopsLater(nodes, scores, from, tight.value, loose.value); }
    FrontierIsTop(nodes, scores, from, m);
    forall x | x in GreedyFrontier(nodes, scores, from, loose)
      ensures x in nodes && OneAncestorIn(nodes, GreedyFrontier(nodes, scores, from, tight), x) {
      OneAncestorOfSettled(nodes, scores, from, m, n, x);
    }
  }

  /**
     On exit the tiling fits the budget or it is exactly the summit, which is the roots if every bottom node
     has been reached; so it fits whenever the summit does.
   */
  lemma ExitTheorem(nodes: Nodes, scores: Scores, from: set<Id>, budget: int)
    requires WellFormed(nodes) && from <= Bottom(nodes)
    ensures var f := GreedyFrontier(nodes, scores, from, Some(budget));
            && (Tokens(nodes, f) <= budget || f == Summit(nodes, from))
            && (Tokens(nodes, Summit(nodes, from)) <= budget ==> Tokens(nodes, f) <= budget)
    ensures StopStep(nodes, scores, from, budget) <= |nodes| - |Bottom(nodes)|
    ensures from == Bottom(nodes) ==> Summit(nodes, from) == Roots(nodes)
  {
    SummitIsRoots(nodes);
    hide Summit;
    hide Tokens;
    hide WellFormed;
    ExhaustedAtSummit(nodes, scores, from, StopStep(nodes, scores, from, budget));
    RollupBound(nodes, scores, from, StopStep(nodes, scores, from, budget));
  }

  /** The result fits the budget exactly when some step of the budget-free sequence of frontiers does. */
  lemma FitsIffSomeStepFits(nodes: Nodes, scores: Scores, from: set<Id>, budget: int)
    requires WellFormed(nodes) && from <= Bottom(nodes)
    ensures Tokens(nodes, GreedyFrontier(nodes, scores, from, Some(budget))) <= budget
       <==> exists n: nat :: Tokens(nodes, Frontier(nodes, scores, from, n)) <= budget
  {
    var stop := StopStep(nodes, scores, from, budget);
    hide WellFormed;
    hide Tokens;
    assert GreedyFrontier(nodes, scores, from, Some(budget)) == Frontier(nodes, scores, from, stop);
    if Tokens(nodes, Frontier(nodes, scores, from, stop)) > budget {
      forall n: nat ensures Tokens(nodes, Frontier(nodes, scores, from, n)) > budget {
        if n >= stop { StaysExhausted(nodes, scores, from, stop, n); }
      }
    } else {
      assert Tokens(nodes, Frontier(nodes, scores, from, stop)) <= budget;
    }
  }

  /** Every summary is at most as long as what it summarizes. */
  ghost predicate SummariesShrink(nodes: Nodes) {
    forall p :: p in nodes && Kids(nodes, p) != {} ==> nodes[p].tokens <= Tokens(nodes, Kids(nodes, p))
  }

  lemma RollupShrinks(nodes: Nodes, from: set<Id>, f: set<Id>, s: set<Id>, p: Id)
    requires WellFormed(nodes) && SummariesShrink(nodes)
    requires Consistent(nodes, from, f, s) && p in Eligible(nodes, f)
    ensures Tokens(nodes, Rollup(nodes, f, p)) <= Tokens(nodes, f)
  {
    RollupTokens(nodes, s, p);
  }

  lemma TokensFallOnce(nodes: Nodes, scores: Scores, from: set<Id>, n: nat)
    requires WellFormed(nodes) && from <= Bottom(nodes) && SummariesShrink(nodes)
    ensures Tokens(nodes, Frontier(nodes, scores, from, n + 1)) <= Tokens(nodes, Frontier(nodes, scores, from, n))
  {
    hide WellFormed;
    hide SummariesShrink;
    hide Tokens;
    hide Rollup;
    hide Consistent;
    FrontierIsTop(nodes, scores, from, n);
    var f := Frontier(nodes, scores, from, n);
    if Eligible(nodes, f) != {} {
      RollupShrinks(nodes, from, f, Settled(nodes, scores, from, n), Best(nodes, scores, Eligible(nodes, f)));
    }
  }

  lemma {:induction false} TokensFall(nodes: Nodes, scores: Scores, from: set<Id>, m: nat, n: nat)
    requires WellFormed(nodes) && from <= Bottom(nodes) && SummariesShrink(nodes) && m <= n
    ensures Tokens(nodes, Frontier(nodes, scores, from, n)) <= Tokens(nodes, Frontier(nodes, scores, from, m))
  {
    hide *;
    if m < n {
      TokensFall(nodes, scores, from, m, n - 1);
      TokensFallOnce(nodes, scores, from, n - 1);
    }
  }

  /** When summaries never outgrow their children, the result fits the budget exactly when the summit fits it. */
  lemma FitsIffSummitFits(nodes: Nodes, scores: Scores, from: set<Id>, budget: int)
    requires WellFormed(nodes) && from <= Bottom(nodes) && SummariesShrink(nodes)
    ensures Tokens(nodes, GreedyFrontier(nodes, scores, from, Some(budget))) <= budget
       <==> Tokens(nodes, Summit(nodes, from)) <= budget
    ensures from == Bottom(nodes) ==> Summit(nodes, from) == Roots(nodes)
  {
    hide WellFormed;
    hide Tokens;
    hide Frontier;
    hide Summit;
    var n := StopStep(nodes, scores, from, budget);
    ExitTheorem(nodes, scores, from, budget);
    RollupBound(nodes, scores, from, n);
    TokensFall(nodes, scores, from, n, |nodes|);
    EndsAtSummit(nodes, scores, from);
  }

  /** A document that is one long leaf: no roll-up can help, and the budget is exceeded. */
  lemma BudgetCanBeExceeded(scores: Scores)
    ensures exists nodes :: WellFormed(nodes)
              && Tokens(nodes, GreedyFrontier(nodes, scores, Bottom(nodes), Some(5))) > 5
  {
    var a := Id("a");
    var nodes := map[a := Node(None, None, None, 0, 40, 10)];
    assert DepthOrder(nodes, map[a := 0]);
    assert WellFormed(nodes);
    var f := GreedyFrontier(nodes, scores, Bottom(nodes), Some(5));
    ResultIsCut(nodes, scores, Bottom(nodes), Some(5));
    assert a in Bottom(nodes);
    assert f == {a} by { assert OneAncestorIn(nodes, f, a); }
    SumRemove(TokensOf(nodes), f, a);
    assert f - {a} == {};
  }

  /** A summary longer than the leaf below it: the result fits although the root does not. */
  lemma RootsNeedNotFit(scores: Scores)
    ensures exists nodes :: WellFormed(nodes) && Tokens(nodes, Roots(nodes)) > 20
                            && Tokens(nodes, GreedyFrontier(nodes, scores, Bottom(nodes), Some(20))) <= 20
  {
    var a, r := Id("a"), Id("r");
    var nodes := map[a := Node(Some(r), None, None, 0, 40, 10), r := Node(None, Some(a), None, 0, 80, 100)];
    assert DepthOrder(nodes, map[a := 1, r := 0]);
    assert WellFormed(nodes);
    assert a in Kids(nodes, r);
    assert Bottom(nodes) == {a} && Roots(nodes) == {r};
    SumRemove(TokensOf(nodes), {a}, a);
    SumRemove(TokensOf(nodes), {r}, r);
    assert {a} - {a} == {} == {r} - {r};
    assert StopsAt(nodes, scores, Bottom(nodes), 20, 0);
    StopIsUnique(nodes, scores, Bottom(nodes), 20, 0, StopStep(nodes, scores, Bottom(nodes), 20));
  }
}
