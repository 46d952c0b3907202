/**
 Which parent the generator rolls up next, stated in token counts, scores and ids alone: the one whose
 children's quality is given up at the lowest rate per token saved (`ragzoom/greedy_tiling.py`).
 */
module RollupChoice {
  import opened Options
  import opened Forest
  import opened Rollups

  /** The tokens of the node a child pointer leads to; nothing if it is not covered. */
  ghost function TokensAt(nodes: Nodes, pointer: Option<Id>): int {
    if pointer.Some? && pointer.value in nodes then nodes[pointer.value].tokens else 0
  }

  /** The score of a node, 0.0 if it has none, times its tokens. */
  ghost function QualityAt(nodes: Nodes, scores: Scores, pointer: Option<Id>): real {
    if pointer.Some? && pointer.value in nodes && pointer.value in scores
    then scores[pointer.value] * nodes[pointer.value].tokens as real else 0.0
  }

  /** The tokens of the covered children, counted once if they are one node, less those of the parent. */
  ghost function Saved(nodes: Nodes, p: Id): int
    requires p in nodes
  {
    var left, right := nodes[p].left, nodes[p].right;
    TokensAt(nodes, left) + (if left == right then 0 else TokensAt(nodes, right)) - nodes[p].tokens
  }

  /** The quality of the covered children less that of the parent. */
  ghost function Lost(nodes: Nodes, scores: Scores, p: Id): real
    requires p in nodes
  {
    var left, right := nodes[p].left, nodes[p].right;
    QualityAt(nodes, scores, left) + (if left == right then 0.0 else QualityAt(nodes, scores, right))
    - QualityAt(nodes, scores, Some(p))
  }

  /** The covered nodes that `p` names as its children, one at least, are all on the frontier. */
  ghost predicate MayRollUp(nodes: Nodes, frontier: set<Id>, p: Id) {
    && p in nodes
    && (exists c :: c in nodes && (nodes[p].left == Some(c) || nodes[p].right == Some(c)))
    && forall c :: c in nodes && (nodes[p].left == Some(c) || nodes[p].right == Some(c)) ==> c in frontier
  }

  lemma MayRollUpMeaning(nodes: Nodes, frontier: set<Id>, p: Id)
    ensures MayRollUp(nodes, frontier, p) <==> p in Eligible(nodes, frontier)
  {
    if p in nodes {
      assert forall c :: c in Kids(nodes, p) <==> c in nodes && (nodes[p].left == Some(c) || nodes[p].right == Some(c));
    }
  }

  /** The offer of a parent in these terms. */
  lemma OfferInNumbers(nodes: Nodes, scores: Scores, p: Id)
    requires p in nodes && Kids(nodes, p) != {}
    ensures var c := Offer(nodes, scores, p);
            && c.parent == p && c.negTokensSaved == -Saved(nodes, p)
            && c.priority == if Saved(nodes, p) == 0 then Infinite
                             else Finite(Lost(nodes, scores, p) / Saved(nodes, p) as real)
  {
    assert nodes[p].left.Some? ==> (nodes[p].left.value in nodes <==> nodes[p].left.value in Kids(nodes, p));
    assert nodes[p].right.Some? ==> (nodes[p].right.value in nodes <==> nodes[p].right.value in Kids(nodes, p));
    assert forall x :: x in nodes ==> Mass(nodes, scores, x) == QualityAt(nodes, scores, Some(x));
  }

  /** Rolling up `p` first is right, given that `q` could be rolled up as well. */
  ghost predicate NoWorse(nodes: Nodes, scores: Scores, p: Id, q: Id)
    requires p in nodes && q in nodes
  {
    var savedP, savedQ := Saved(nodes, p), Saved(nodes, q);
    if savedP == 0 || savedQ == 0 then
      savedQ == 0 && (savedP == 0 ==> p == q || NamePrecedes(p.name, q.name))
    else
      var rateP, rateQ := Lost(nodes, scores, p) / savedP as real, Lost(nodes, scores, q) / savedQ as real;
      && rateP <= rateQ
      && (rateP == rateQ ==> savedP >= savedQ)
      && (rateP == rateQ && savedP == savedQ ==> p == q || NamePrecedes(p.name, q.name))
  }

  lemma BestIsNoWorse(nodes: Nodes, scores: Scores, choices: set<Id>, p: Id, q: Id)
    requires forall x :: x in choices ==> x in nodes && Kids(nodes, x) != {}
    requires IsBest(nodes, scores, choices, p) && q in choices
    ensures NoWorse(nodes, scores, p, q)
  {
    OfferInNumbers(nodes, scores, p);
    OfferInNumbers(nodes, scores, q);
    NameLessMeaning(p.name, q.name);
    assert p == Id(p.name) && q == Id(q.name);
    hide Offer;
    hide Lost;
    hide Saved;
    hide NamePrecedes;
    hide NameLess;
  }

  /**
     The step of the roll-up rule: from a frontier on which some parent may be rolled up, the next frontier
     has one such parent in the place of its children. It is the parent that gives up least quality per token
     saved. One that saves nothing is taken only when no parent saves anything; at equal rates the one that
     saves more goes first, and then the one whose id comes first.
   */
  lemma CheapestFirst(nodes: Nodes, scores: Scores, from: set<Id>, n: nat) returns (p: Id)
    requires exists q :: MayRollUp(nodes, Frontier(nodes, scores, from, n), q)
    ensures MayRollUp(nodes, Frontier(nodes, scores, from, n), p)
    ensures forall x :: x in Frontier(nodes, scores, from, n + 1) <==>
              || x == p
              || (x in Frontier(nodes, scores, from, n)
                  && !(x in nodes && (nodes[p].left == Some(x) || nodes[p].right == Some(x))))
    ensures forall q :: MayRollUp(nodes, Frontier(nodes, scores, from, n), q) ==> NoWorse(nodes, scores, p, q)
  {
    var f := Frontier(nodes, scores, from, n);
    forall q ensures MayRollUp(nodes, f, q) <==> q in Eligible(nodes, f) { MayRollUpMeaning(nodes, f, q); }
    p := Best(nodes, scores, Eligible(nodes, f));
    hide MayRollUp;
    forall q | q in Eligible(nodes, f) ensures NoWorse(nodes, scores, p, q) {
      BestIsNoWorse(nodes, scores, Eligible(nodes, f), p, q);
    }
  }

  /** The run with a budget ends at the first frontier that fits it or on which no parent may be rolled up. */
  lemma RunEnds(nodes: Nodes, scores: Scores, from: set<Id>, budget: int) returns (n: nat)
    requires WellFormed(nodes) && from <= Bottom(nodes)
    ensures GreedyFrontier(nodes, scores, from, Some(budget)) == Frontier(nodes, scores, from, n)
    ensures Tokens(nodes, Frontier(nodes, scores, from, n)) <= budget
            || !exists q :: MayRollUp(nodes, Frontier(nodes, scores, from, n), q)
    ensures forall k: nat :: k < n ==>
              && Tokens(nodes, Frontier(nodes, scores, from, k)) > budget
              && exists q :: MayRollUp(nodes, Frontier(nodes, scores, from, k), q)
  {
    n := StopStep(nodes, scores, from, budget);
    SomeMayRollUp(nodes, Frontier(nodes, scores, from, n));
    forall k: nat | k < n
      ensures Tokens(nodes, Frontier(nodes, scores, from, k)) > budget
      ensures exists q :: MayRollUp(nodes, Frontier(nodes, scores, from, k), q) {
      SomeMayRollUp(nodes, Frontier(nodes, scores, from, k));
    }
  }

  lemma SomeMayRollUp(nodes: Nodes, frontier: set<Id>)
    ensures Eligible(nodes, frontier) == {} <==> !exists q :: MayRollUp(nodes, frontier, q)
  {
    forall q ensures MayRollUp(nodes, frontier, q) <==> q in Eligible(nodes, frontier) {
      MayRollUpMeaning(nodes, frontier, q);
    }
    hide MayRollUp;
    hide Eligible;
  }
}
