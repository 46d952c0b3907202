/**
 The roll-up rule of `ragzoom/greedy_tiling.py` as pure functions: which parents may
 replace their children, how the choices are ranked, and the sequence of frontiers that
 replacing the best choice over and over goes through. The sequence knows no budget.
 */
module Rollups {
  import opened Options
  import opened Forest

  type Scores = map<Id, real>

  /** A quality loss per token saved; Python's `float("inf")` is `Infinite`. */
  datatype Priority = Finite(value: real) | Infinite

  datatype RollupCandidate = RollupCandidate(
    priority: Priority,
    negTokensSaved: int,
    parent: Id,
    left: Id,
    right: Id)

  function Score(scores: Scores, x: Id): real {
    if x in scores then scores[x] else 0.0
  }

  function Mass(nodes: Nodes, scores: Scores, x: Id): real
    requires x in nodes
  {
    Score(scores, x) * nodes[x].tokens as real
  }

  /** The candidate for rolling `left` and `right` (possibly the same node) up into `parent`. */
  function MakeCandidate(parent: Id, left: Id, right: Id, nodes: Nodes, scores: Scores): RollupCandidate
    requires parent in nodes && left in nodes && right in nodes
  {
    var pairTokens := nodes[left].tokens + (if right != left then nodes[right].tokens else 0);
    var tokensSaved := pairTokens - nodes[parent].tokens;
    var pairMass := Mass(nodes, scores, left) + (if right != left then Mass(nodes, scores, right) else 0.0);
    var qualityLost := pairMass - Mass(nodes, scores, parent);
    var priority := if tokensSaved != 0 then Finite(qualityLost / tokensSaved as real) else Infinite;
    RollupCandidate(priority, -tokensSaved, parent, left, right)
  }

  /** The candidate for `parent`, if its covered children are all on the frontier. */
  function ComputeCandidate(parent: Id, frontier: set<Id>, nodes: Nodes, scores: Scores): Option<RollupCandidate>
  {
    if parent !in nodes then None else
    var left, right := nodes[parent].left, nodes[parent].right;
    var hasLeft := left.Some? && left.value in nodes;
    var hasRight := right.Some? && right.value in nodes;
    if hasLeft && hasRight then
      if left.value !in frontier || right.value !in frontier then None
      else Some(MakeCandidate(parent, left.value, right.value, nodes, scores))
    else if hasLeft then
      if left.value !in frontier then None
      else Some(MakeCandidate(parent, left.value, left.value, nodes, scores))
    else if hasRight then
      if right.value !in frontier then None
      else Some(MakeCandidate(parent, right.value, right.value, nodes, scores))
    else None
  }

  // ----- the order of the heap -----

  predicate PriorityLess(a: Priority, b: Priority) {
    match (a, b)
    case (Finite(x), Finite(y)) => x < y
    case (Finite(_), Infinite) => true
    case (Infinite, _) => false
  }

  /** Python's comparison of the candidate tuples, field by field. */
  predicate CandidateLess(a: RollupCandidate, b: RollupCandidate) {
    if a.priority != b.priority then PriorityLess(a.priority, b.priority)
    else if a.negTokensSaved != b.negTokensSaved then a.negTokensSaved < b.negTokensSaved
    else if a.parent != b.parent then IdLess(a.parent, b.parent)
    else if a.left != b.left then IdLess(a.left, b.left)
    else IdLess(a.right, b.right)
  }

  lemma CandidateLessIsTotalOrder(a: RollupCandidate, b: RollupCandidate, c: RollupCandidate)
    ensures CandidateLess(a, b) ==> a != b && !CandidateLess(b, a)
    ensures CandidateLess(a, b) || CandidateLess(b, a) || a == b
    ensures CandidateLess(a, b) && CandidateLess(b, c) ==> CandidateLess(a, c)
  {
    IdLessIsTotalOrder();
  }

  // ----- the naive rule: recompute everything at every step -----

  function TokensOf(nodes: Nodes): Id -> int {
    x => if x in nodes then nodes[x].tokens else 0
  }

  /** The token sum of a set of nodes. */
  ghost function Tokens(nodes: Nodes, s: set<Id>): int {
    Sum(TokensOf(nodes), s)
  }

  /** The parents whose covered children, one at least, are all on the frontier. */
  ghost function Eligible(nodes: Nodes, frontier: set<Id>): set<Id> {
    set p | p in nodes && Kids(nodes, p) != {} && Kids(nodes, p) <= frontier
  }

  /** The candidate of a parent that has covered children. */
  ghost function Offer(nodes: Nodes, scores: Scores, p: Id): RollupCandidate
    requires p in nodes && Kids(nodes, p) != {}
  {
    ComputeCandidate(p, nodes.Keys, nodes, scores).value
  }

  /** A candidate exists exactly for the eligible parents, and its values do not depend on the frontier. */
  lemma CandidateExists(nodes: Nodes, scores: Scores, frontier: set<Id>, p: Id)
    ensures ComputeCandidate(p, frontier, nodes, scores).Some? <==> p in Eligible(nodes, frontier)
    ensures p in Eligible(nodes, frontier) ==>
              ComputeCandidate(p, frontier, nodes, scores) == Some(Offer(nodes, scores, p))
  {
    if p in nodes {
      assert nodes[p].left.Some? ==> (nodes[p].left.value in nodes <==> nodes[p].left.value in Kids(nodes, p));
      assert nodes[p].right.Some? ==> (nodes[p].right.value in nodes <==> nodes[p].right.value in Kids(nodes, p));
    }
  }

  /** The quality of a set of nodes: their scores weighted by their tokens. */
  ghost function Quality(nodes: Nodes, scores: Scores, s: set<Id>): real
    requires s <= nodes.Keys
  {
    if s == {} then 0.0 else
      var x :| x in s;
      Mass(nodes, scores, x) + Quality(nodes, scores, s - {x})
  }

  lemma {:induction false} QualityRemove(nodes: Nodes, scores: Scores, s: set<Id>, x: Id)
    requires s <= nodes.Keys && x in s
    ensures Quality(nodes, scores, s) == Mass(nodes, scores, x) + Quality(nodes, scores, s - {x})
  {
    hide Mass;
    var y :| y in s && Quality(nodes, scores, s) == Mass(nodes, scores, y) + Quality(nodes, scores, s - {y});
    if y != x {
      QualityRemove(nodes, scores, s - {y}, x);
      QualityRemove(nodes, scores, s - {x}, y);
      assert s - {x} - {y} == s - {y} - {x};
    }
  }

  /** What determines the two sums: nothing adds up to 0, and a node adds its tokens, or its score times its tokens. */
  lemma SumsMeaning(nodes: Nodes, scores: Scores, s: set<Id>, x: Id)
    requires s <= nodes.Keys && x in s
    ensures Tokens(nodes, {}) == 0 && Tokens(nodes, s) == nodes[x].tokens + Tokens(nodes, s - {x})
    ensures Quality(nodes, scores, {}) == 0.0
    ensures Quality(nodes, scores, s)
         == (if x in scores then scores[x] else 0.0) * nodes[x].tokens as real + Quality(nodes, scores, s - {x})
  {
    SumRemove(TokensOf(nodes), s, x);
    QualityRemove(nodes, scores, s, x);
  }

  lemma QualityOfPair(nodes: Nodes, scores: Scores, a: Id, b: Id)
    requires a in nodes && b in nodes
    ensures Quality(nodes, scores, {a, b})
         == Mass(nodes, scores, a) + (if a != b then Mass(nodes, scores, b) else 0.0)
  {
    hide Mass;
    QualityRemove(nodes, scores, {a, b}, a);
    assert {a, b} - {a} == if a == b then {} else {b};
    assert {b} - {b} == {};
  }

  lemma Divided(q: real, t: int)
    requires t != 0
    ensures q / t as real * t as real == q
  {
  }

  /** The priority of a candidate times the tokens it saves is the quality it loses; saving no tokens comes
      last of all. */
  ghost predicate Weighs(c: RollupCandidate, qualityLost: real) {
    && (c.priority == Infinite <==> c.negTokensSaved == 0)
    && (c.priority.Finite? ==> c.priority.value * (-c.negTokensSaved) as real == qualityLost)
  }

  lemma PriorityOfMade(parent: Id, left: Id, right: Id, nodes: Nodes, scores: Scores)
    requires parent in nodes && left in nodes && right in nodes
    ensures Weighs(MakeCandidate(parent, left, right, nodes, scores),
                   Mass(nodes, scores, left) + (if left != right then Mass(nodes, scores, right) else 0.0)
                   - Mass(nodes, scores, parent))
  {
    hide Mass;
    var lost := Mass(nodes, scores, left) + (if right != left then Mass(nodes, scores, right) else 0.0)
                - Mass(nodes, scores, parent);
    var saved := -MakeCandidate(parent, left, right, nodes, scores).negTokensSaved;
    if saved != 0 { Divided(lost, saved); }
  }

  /** What a candidate loses is the quality of the covered children less that of the parent. */
  lemma PriorityMeaning(nodes: Nodes, scores: Scores, p: Id)
    requires p in nodes && Kids(nodes, p) != {}
    ensures Weighs(Offer(nodes, scores, p), Quality(nodes, scores, Kids(nodes, p)) - Mass(nodes, scores, p))
  {
    CandidateMeaning(nodes, scores, p);
    var c := Offer(nodes, scores, p);
    OfferIsMade(nodes, scores, p);
    hide *;
    QualityOfPair(nodes, scores, c.left, c.right);
    PriorityOfMade(p, c.left, c.right, nodes, scores);
  }

  lemma OfferIsMade(nodes: Nodes, scores: Scores, p: Id)
    requires p in nodes && Kids(nodes, p) != {}
    ensures var c := Offer(nodes, scores, p);
            c.left in nodes && c.right in nodes && c == MakeCandidate(p, c.left, c.right, nodes, scores)
  {
    CandidateMeaning(nodes, scores, p);
    hide MakeCandidate;
  }

  /** A candidate names the covered children of its parent and the tokens saved by replacing them. */
  lemma CandidateMeaning(nodes: Nodes, scores: Scores, p: Id)
    requires p in nodes && Kids(nodes, p) != {}
    ensures var c := Offer(nodes, scores, p);
            && c.parent == p
            && c.left in nodes && c.right in nodes && Kids(nodes, p) == {c.left, c.right}
            && Tokens(nodes, Kids(nodes, p))
               == nodes[c.left].tokens + (if c.right != c.left then nodes[c.right].tokens else 0)
            && -c.negTokensSaved == Tokens(nodes, Kids(nodes, p)) - nodes[p].tokens
  {
    var c := Offer(nodes, scores, p);
    var f := TokensOf(nodes);
    assert nodes[p].left.Some? ==> (nodes[p].left.value in nodes <==> nodes[p].left.value in Kids(nodes, p));
    assert nodes[p].right.Some? ==> (nodes[p].right.value in nodes <==> nodes[p].right.value in Kids(nodes, p));
    assert Kids(nodes, p) == {c.left, c.right};
    SumRemove(f, {c.left, c.right}, c.left);
    if c.left == c.right {
      assert {c.left, c.right} - {c.left} == {};
    } else {
      assert {c.left, c.right} - {c.left} == {c.right};
      SumRemove(f, {c.right}, c.right);
      assert {c.right} - {c.right} == {};
    }
  }

  lemma OfferParent(nodes: Nodes, scores: Scores, p: Id)
    requires p in nodes && Kids(nodes, p) != {}
    ensures Offer(nodes, scores, p).parent == p
  {
    CandidateMeaning(nodes, scores, p);
  }

  ghost predicate IsBest(nodes: Nodes, scores: Scores, choices: set<Id>, p: Id)
    requires forall q :: q in choices ==> q in nodes && Kids(nodes, q) != {}
  {
    && p in choices
    && forall q :: q in choices && q != p ==>
                     CandidateLess(Offer(nodes, scores, p), Offer(nodes, scores, q))
  }

  lemma {:induction false} BestExists(nodes: Nodes, scores: Scores, choices: set<Id>) returns (p: Id)
    requires choices != {}
    requires forall q :: q in choices ==> q in nodes && Kids(nodes, q) != {}
    ensures IsBest(nodes, scores, choices, p)
  {
    hide Offer;
    hide CandidateLess;
    p :| p in choices;
    if choices != {p} {
      var r := BestExists(nodes, scores, choices - {p});
      var a, b := Offer(nodes, scores, p), Offer(nodes, scores, r);
      OfferParent(nodes, scores, p);
      OfferParent(nodes, scores, r);
      CandidateLessIsTotalOrder(a, b, a);
      if CandidateLess(b, a) {
        p := r;
      } else {
        forall q | q in choices && q != p ensures CandidateLess(a, Offer(nodes, scores, q)) {
          CandidateLessIsTotalOrder(a, b, Offer(nodes, scores, q));
        }
      }
    }
  }

  lemma SomeBest(nodes: Nodes, scores: Scores, choices: set<Id>)
    requires choices != {}
    requires forall q :: q in choices ==> q in nodes && Kids(nodes, q) != {}
    ensures exists p :: IsBest(nodes, scores, choices, p)
  {
    var p := BestExists(nodes, scores, choices);
  }

  lemma BestUnique(nodes: Nodes, scores: Scores, choices: set<Id>, p: Id, q: Id)
    requires forall q :: q in choices ==> q in nodes && Kids(nodes, q) != {}
    requires IsBest(nodes, scores, choices, p) && IsBest(nodes, scores, choices, q)
    ensures p == q
  {
    CandidateLessIsTotalOrder(Offer(nodes, scores, p), Offer(nodes, scores, q), Offer(nodes, scores, q));
  }

  /** The parent the greedy rule picks: least by (priority, -tokens saved, id). */
  ghost function Best(nodes: Nodes, scores: Scores, choices: set<Id>): (p: Id)
    requires choices != {}
    requires forall q :: q in choices ==> q in nodes && Kids(nodes, q) != {}
    ensures IsBest(nodes, scores, choices, p)
  {
    SomeBest(nodes, scores, choices);
    var p :| IsBest(nodes, scores, choices, p);
    p
  }

  ghost function Rollup(nodes: Nodes, frontier: set<Id>, p: Id): set<Id>
    requires p in nodes
  {
    frontier - Kids(nodes, p) + {p}
  }

  /** The frontier after `n` roll-ups, beginning with the bottom nodes `from`; it stays as it is once no
      parent is eligible. */
  ghost function Frontier(nodes: Nodes, scores: Scores, from: set<Id>, n: nat): set<Id> {
    if n == 0 then from else
    var f := Frontier(nodes, scores, from, n - 1);
    if Eligible(nodes, f) == {} then f else Rollup(nodes, f, Best(nodes, scores, Eligible(nodes, f)))
  }

  /** The bottom nodes `from` together with the parents rolled up in the first `n` steps. */
  ghost function Settled(nodes: Nodes, scores: Scores, from: set<Id>, n: nat): set<Id> {
    if n == 0 then from else
    var choices := Eligible(nodes, Frontier(nodes, scores, from, n - 1));
    Settled(nodes, scores, from, n - 1) + (if choices == {} then {} else {Best(nodes, scores, choices)})
  }

  /** Rolling up an eligible parent moves the top of a child-closed set up by that parent. */
  lemma RollupTop(nodes: Nodes, s: set<Id>, p: Id)
    requires WellFormed(nodes) && ChildClosed(nodes, s) && p in Eligible(nodes, Top(nodes, s))
    ensures p !in s && ChildClosed(nodes, s + {p})
    ensures Top(nodes, s + {p}) == Rollup(nodes, Top(nodes, s), p)
  {
    UnsettledParent(nodes, s, p);
    assert ChildClosed(nodes, s + {p});
    forall x | x in s ensures x in Top(nodes, s + {p}) <==> x in Rollup(nodes, Top(nodes, s), p) {
      assert x in Kids(nodes, p) <==> nodes[x].parent == Some(p);
    }
  }

  /** An eligible parent is not settled, and neither are the nodes above it. */
  lemma UnsettledParent(nodes: Nodes, s: set<Id>, p: Id)
    requires WellFormed(nodes) && ChildClosed(nodes, s) && p in Eligible(nodes, Top(nodes, s))
    ensures p !in s && !ParentIn(s + {p}, nodes, p)
    ensures exists kid :: kid in Kids(nodes, p) && kid in Top(nodes, s)
  {
    var kid :| kid in Kids(nodes, p);
    assert kid in Top(nodes, s) && nodes[kid].parent == Some(p);
    assert ParentIn(nodes.Keys, nodes, p) ==> p in Kids(nodes, nodes[p].parent.value);
    assert DepthOrder(nodes, Depth(nodes));
  }

  /**
     What the roll-ups keep: the settled nodes are child-closed, the bottom nodes among them are those the
     roll-ups began with, and the frontier is their top.
   */
  ghost predicate Consistent(nodes: Nodes, from: set<Id>, frontier: set<Id>, settled: set<Id>) {
    && ChildClosed(nodes, settled)
    && settled * Bottom(nodes) == from
    && frontier == Top(nodes, settled)
  }

  lemma BottomConsistent(nodes: Nodes, from: set<Id>)
    requires WellFormed(nodes) && from <= Bottom(nodes)
    ensures Consistent(nodes, from, from, from)
  {
    forall x | x in from ensures x in Top(nodes, from) {
      assert ParentIn(nodes.Keys, nodes, x) ==> x in Kids(nodes, nodes[x].parent.value);
    }
  }

  lemma RollupConsistent(nodes: Nodes, from: set<Id>, f: set<Id>, s: set<Id>, p: Id)
    requires WellFormed(nodes) && Consistent(nodes, from, f, s) && p in Eligible(nodes, f)
    ensures p !in f && p !in s && Consistent(nodes, from, Rollup(nodes, f, p), s + {p})
  {
    RollupTop(nodes, s, p);
  }

  /** The frontier is always the top of the settled nodes. */
  lemma {:induction false} FrontierIsTop(nodes: Nodes, scores: Scores, from: set<Id>, n: nat)
    requires WellFormed(nodes) && from <= Bottom(nodes)
    ensures Consistent(nodes, from, Frontier(nodes, scores, from, n), Settled(nodes, scores, from, n))
    ensures Settled(nodes, scores, from, n) <= nodes.Keys
    ensures ChildClosed(nodes, Settled(nodes, scores, from, n))
    ensures Settled(nodes, scores, from, n) * Bottom(nodes) == from
    ensures Frontier(nodes, scores, from, n) == Top(nodes, Settled(nodes, scores, from, n))
  {
    hide WellFormed;
    if n == 0 {
      BottomConsistent(nodes, from);
    } else {
      FrontierIsTop(nodes, scores, from, n - 1);
      var f, s := Frontier(nodes, scores, from, n - 1), Settled(nodes, scores, from, n - 1);
      if Eligible(nodes, f) != {} {
        RollupConsistent(nodes, from, f, s, Best(nodes, scores, Eligible(nodes, f)));
      } else {
        assert s + {} == s;
      }
    }
  }

  /** The nodes below which all bottom nodes belong to `from`. */
  ghost function Coverable(nodes: Nodes, from: set<Id>): set<Id>
    requires WellFormed(nodes)
  {
    set x | x in nodes && BottomWithin(nodes, from, x)
  }

  ghost predicate BottomWithin(nodes: Nodes, from: set<Id>, x: Id)
    requires WellFormed(nodes) && x in nodes
  {
    forall y :: y in Bottom(nodes) && AncestorOrSelf(nodes, x, y) ==> y in from
  }

  /** The highest nodes that can be reached from `from` by roll-ups. */
  ghost function Summit(nodes: Nodes, from: set<Id>): set<Id>
    requires WellFormed(nodes)
  {
    Top(nodes, Coverable(nodes, from))
  }

  /** From all bottom nodes that is the roots. */
  lemma SummitIsRoots(nodes: Nodes)
    requires WellFormed(nodes)
    ensures Coverable(nodes, Bottom(nodes)) == nodes.Keys && Summit(nodes, Bottom(nodes)) == Roots(nodes)
  {
    assert Coverable(nodes, Bottom(nodes)) == nodes.Keys;
  }

  lemma SettledIsCoverable(nodes: Nodes, from: set<Id>, s: set<Id>)
    requires WellFormed(nodes) && ChildClosed(nodes, s) && s * Bottom(nodes) == from
    ensures s <= Coverable(nodes, from)
  {
    forall x, y | x in s && y in Bottom(nodes) && AncestorOrSelf(nodes, x, y) ensures y in from {
      ClosedBelow(nodes, s, x, y);
    }
  }

  /** A parent of settled nodes is coverable. */
  lemma EligibleIsCoverable(nodes: Nodes, from: set<Id>, s: set<Id>, p: Id)
    requires WellFormed(nodes) && ChildClosed(nodes, s) && s * Bottom(nodes) == from
    requires p in Eligible(nodes, Top(nodes, s))
    ensures p in Coverable(nodes, from)
  {
    forall y | y in Bottom(nodes) && AncestorOrSelf(nodes, p, y) ensures y in from {
      var c := ChildTowards(nodes, p, y);
      ClosedBelow(nodes, s, c, y);
    }
  }

  /** The deepest coverable node that is not settled is eligible. */
  lemma UnsettledIsEligible(nodes: Nodes, from: set<Id>, s: set<Id>) returns (x: Id)
    requires WellFormed(nodes) && ChildClosed(nodes, s) && s * Bottom(nodes) == from
    requires Coverable(nodes, from) - s != {}
    ensures x in Eligible(nodes, Top(nodes, s))
  {
    x := Deepest(nodes, Coverable(nodes, from) - s);
    forall c | c in Kids(nodes, x) ensures c in Top(nodes, s) {
      assert Depth(nodes)[x] < Depth(nodes)[c] && nodes[c].parent == Some(x);
      forall y | y in Bottom(nodes) && AncestorOrSelf(nodes, c, y) ensures y in from { ThroughParent(nodes, x, c, y); }
      assert c in Coverable(nodes, from);
    }
    assert AncestorOrSelf(nodes, x, x);
    assert x !in Bottom(nodes);
  }

  /** No parent is eligible exactly when every coverable node is settled. */
  lemma ExhaustedTop(nodes: Nodes, from: set<Id>, s: set<Id>)
    requires WellFormed(nodes) && ChildClosed(nodes, s) && s * Bottom(nodes) == from
    ensures Eligible(nodes, Top(nodes, s)) == {} <==> s == Coverable(nodes, from)
  {
    SettledIsCoverable(nodes, from, s);
    if Coverable(nodes, from) - s != {} {
      var x := UnsettledIsEligible(nodes, from, s);
    } else {
      assert forall x :: x in Coverable(nodes, from) ==> x in s by {
        assert forall x :: x in Coverable(nodes, from) && x !in s ==> x in Coverable(nodes, from) - s;
      }
      if p :| p in Eligible(nodes, Top(nodes, s)) {
        UnsettledParent(nodes, s, p);
        EligibleIsCoverable(nodes, from, s, p);
      }
    }
  }

  /** When no parent is eligible everything coverable has been rolled up: the frontier is the summit. */
  lemma ExhaustedAtSummit(nodes: Nodes, scores: Scores, from: set<Id>, n: nat)
    requires WellFormed(nodes) && from <= Bottom(nodes)
    ensures Eligible(nodes, Frontier(nodes, scores, from, n)) == {}
            <==> Settled(nodes, scores, from, n) == Coverable(nodes, from)
    ensures Eligible(nodes, Frontier(nodes, scores, from, n)) == {}
            ==> Frontier(nodes, scores, from, n) == Summit(nodes, from)
  {
    FrontierIsTop(nodes, scores, from, n);
    hide Eligible;
    hide Coverable;
    hide WellFormed;
    hide Frontier;
    hide Settled;
    ExhaustedTop(nodes, from, Settled(nodes, scores, from, n));
  }

  lemma {:induction false} SettledGrows(nodes: Nodes, scores: Scores, from: set<Id>, m: nat, n: nat)
    requires m <= n
    ensures Settled(nodes, scores, from, m) <= Settled(nodes, scores, from, n)
  {
    if m < n { SettledGrows(nodes, scores, from, m, n - 1); }
  }

  ghost predicate StillRolling(nodes: Nodes, scores: Scores, from: set<Id>, n: nat) {
    forall k: nat :: k < n ==> Eligible(nodes, Frontier(nodes, scores, from, k)) != {}
  }

  lemma SettledStep(nodes: Nodes, scores: Scores, from: set<Id>, n: nat)
    requires WellFormed(nodes) && from <= Bottom(nodes) && Eligible(nodes, Frontier(nodes, scores, from, n)) != {}
    ensures |Settled(nodes, scores, from, n + 1)| == |Settled(nodes, scores, from, n)| + 1
  {
    hide WellFormed;
    hide Consistent;
    FrontierIsTop(nodes, scores, from, n);
    var f, s := Frontier(nodes, scores, from, n), Settled(nodes, scores, from, n);
    var p := Best(nodes, scores, Eligible(nodes, f));
    RollupConsistent(nodes, from, f, s, p);
    assert Settled(nodes, scores, from, n + 1) == s + {p};
  }

  /** Every roll-up settles one more node. */
  lemma {:induction false} SettledCount(nodes: Nodes, scores: Scores, from: set<Id>, n: nat)
    requires WellFormed(nodes) && from <= Bottom(nodes) && StillRolling(nodes, scores, from, n)
    ensures |Settled(nodes, scores, from, n)| == |from| + n
  {
    hide WellFormed;
    hide Eligible;
    hide Bottom;
    if n > 0 {
      SettledCount(nodes, scores, from, n - 1);
      SettledStep(nodes, scores, from, n - 1);
    }
  }

  /** There are at most as many roll-ups as internal nodes. */
  lemma RollupBound(nodes: Nodes, scores: Scores, from: set<Id>, n: nat)
    requires WellFormed(nodes) && from <= Bottom(nodes) && StillRolling(nodes, scores, from, n)
    ensures n <= |nodes| - |Bottom(nodes)|
  {
    SettledCount(nodes, scores, from, n);
    FrontierIsTop(nodes, scores, from, n);
    hide WellFormed;
    hide Eligible;
    hide Frontier;
    hide Settled;
    var s, bottom := Settled(nodes, scores, from, n), Bottom(nodes);
    assert bottom <= nodes.Keys;
    hide Bottom;
    SubsetSize(s + (bottom - from), nodes.Keys);
    assert |s + (bottom - from)| == |s| + |bottom - from|;
    assert bottom == from + (bottom - from);
  }

  lemma {:induction false} SubsetSize(s: set<Id>, t: set<Id>)
    requires s <= t
    ensures |s| <= |t|
    ensures |s| == |t| ==> s == t
  {
    if x :| x in s {
      SubsetSize(s - {x}, t - {x});
    }
  }

  lemma {:induction false} StaysExhausted(nodes: Nodes, scores: Scores, from: set<Id>, m: nat, n: nat)
    requires m <= n && Eligible(nodes, Frontier(nodes, scores, from, m)) == {}
    ensures Frontier(nodes, scores, from, n) == Frontier(nodes, scores, from, m)
  {
    if m < n { StaysExhausted(nodes, scores, from, m, n - 1); }
  }

  /** A finite forest that is not empty has bottom nodes. */
  lemma HasBottom(nodes: Nodes)
    requires WellFormed(nodes) && nodes != map[]
    ensures Bottom(nodes) != {}
  {
    var x := Deepest(nodes, nodes.Keys);
    assert DepthOrder(nodes, Depth(nodes));
    assert Kids(nodes, x) == {};
    assert x in Bottom(nodes);
  }

  /** After as many steps as there are nodes, the roll-ups have reached the summit. */
  lemma EndsAtSummit(nodes: Nodes, scores: Scores, from: set<Id>)
    requires WellFormed(nodes) && from <= Bottom(nodes)
    ensures Eligible(nodes, Frontier(nodes, scores, from, |nodes|)) == {}
    ensures Frontier(nodes, scores, from, |nodes|) == Summit(nodes, from)
  {
    if StillRolling(nodes, scores, from, |nodes|) {
      RollupBound(nodes, scores, from, |nodes|);
      if nodes != map[] { HasBottom(nodes); }
    } else {
      var m: nat :| m < |nodes| && Eligible(nodes, Frontier(nodes, scores, from, m)) == {};
      StaysExhausted(nodes, scores, from, m, |nodes|);
    }
    ExhaustedAtSummit(nodes, scores, from, |nodes|);
  }

  /** After a roll-up the only newly eligible parent can be the parent of the one rolled up. */
  lemma EligibleAfterRollup(nodes: Nodes, s: set<Id>, p: Id)
    requires WellFormed(nodes) && ChildClosed(nodes, s) && p in Eligible(nodes, Top(nodes, s))
    ensures p !in Eligible(nodes, Rollup(nodes, Top(nodes, s), p))
    ensures Eligible(nodes, Top(nodes, s)) - {p} <= Eligible(nodes, Rollup(nodes, Top(nodes, s), p))
    ensures forall q :: q in Eligible(nodes, Rollup(nodes, Top(nodes, s), p)) ==>
                          q in Eligible(nodes, Top(nodes, s)) || nodes[p].parent == Some(q)
    ensures !ParentIn(Eligible(nodes, Top(nodes, s)), nodes, p)
  {
    UnsettledParent(nodes, s, p);
    var f := Top(nodes, s);
    var next := Rollup(nodes, f, p);
    forall q | q in Eligible(nodes, f) && q != p ensures Kids(nodes, q) <= next {
      assert forall c :: c in Kids(nodes, q) ==> nodes[c].parent == Some(q);
    }
    forall q | q in Eligible(nodes, next) && nodes[p].parent != Some(q) ensures Kids(nodes, q) <= f {
      assert p !in Kids(nodes, q);
    }
    if nodes[p].parent.Some? && nodes[p].parent.value in nodes {
      assert p in Kids(nodes, nodes[p].parent.value) && p !in f;
    }
  }

  /** Rolling up changes the token sum by the parent's tokens less its children's. */
  lemma RollupTokens(nodes: Nodes, s: set<Id>, p: Id)
    requires WellFormed(nodes) && ChildClosed(nodes, s) && p in Eligible(nodes, Top(nodes, s))
    ensures Tokens(nodes, Rollup(nodes, Top(nodes, s), p))
         == Tokens(nodes, Top(nodes, s)) - Tokens(nodes, Kids(nodes, p)) + nodes[p].tokens
  {
    RollupTop(nodes, s, p);
    var f, kids := Top(nodes, s), Kids(nodes, p);
    SumUnion(TokensOf(nodes), f - kids, kids);
    assert f - kids + kids == f;
    SumRemove(TokensOf(nodes), Rollup(nodes, f, p), p);
    assert Rollup(nodes, f, p) - {p} == f - kids;
  }

  // ----- where a run stops -----

  /** A run with this budget stops after `n` roll-ups: at the first frontier that fits, or when nothing is eligible. */
  ghost predicate StopsAt(nodes: Nodes, scores: Scores, from: set<Id>, budget: int, n: nat) {
    && StillRolling(nodes, scores, from, n)
    && OverBudgetBefore(nodes, scores, from, budget, n)
    && (Tokens(nodes, Frontier(nodes, scores, from, n)) <= budget
         || Eligible(nodes, Frontier(nodes, scores, from, n)) == {})
  }

  ghost predicate OverBudgetBefore(nodes: Nodes, scores: Scores, from: set<Id>, budget: int, n: nat) {
    forall k: nat :: k < n ==> Tokens(nodes, Frontier(nodes, scores, from, k)) > budget
  }

  /** One more roll-up is possible, and there are no more of them than nodes. */
  lemma RollsOn(nodes: Nodes, scores: Scores, from: set<Id>, n: nat)
    requires WellFormed(nodes) && from <= Bottom(nodes) && StillRolling(nodes, scores, from, n)
             && Eligible(nodes, Frontier(nodes, scores, from, n)) != {}
    ensures StillRolling(nodes, scores, from, n + 1) && n + 1 <= |nodes|
  {
    hide WellFormed;
    hide Eligible;
    hide Frontier;
    RollupBound(nodes, scores, from, n + 1);
  }

  lemma StaysOver(nodes: Nodes, scores: Scores, from: set<Id>, budget: int, n: nat)
    requires OverBudgetBefore(nodes, scores, from, budget, n)
             && Tokens(nodes, Frontier(nodes, scores, from, n)) > budget
    ensures OverBudgetBefore(nodes, scores, from, budget, n + 1)
  {
    hide Tokens;
    hide Frontier;
  }

  lemma {:induction false} StopExists(nodes: Nodes, scores: Scores, from: set<Id>, budget: int, n: nat)
    requires WellFormed(nodes) && from <= Bottom(nodes) && n <= |nodes|
    requires StillRolling(nodes, scores, from, n) && OverBudgetBefore(nodes, scores, from, budget, n)
    ensures exists k: nat :: StopsAt(nodes, scores, from, budget, k)
    decreases |nodes| - n
  {
    hide WellFormed;
    hide Eligible;
    hide Frontier;
    hide Tokens;
    if !StopsAt(nodes, scores, from, budget, n) {
      RollsOn(nodes, scores, from, n);
      StaysOver(nodes, scores, from, budget, n);
      StopExists(nodes, scores, from, budget, n + 1);
    }
  }

  lemma StopIsUnique(nodes: Nodes, scores: Scores, from: set<Id>, budget: int, m: nat, n: nat)
    requires StopsAt(nodes, scores, from, budget, m) && StopsAt(nodes, scores, from, budget, n)
    ensures m == n
  {
  }

  ghost function StopStep(nodes: Nodes, scores: Scores, from: set<Id>, budget: int): (n: nat)
    requires WellFormed(nodes) && from <= Bottom(nodes)
    ensures StopsAt(nodes, scores, from, budget, n)
  {
    StopExists(nodes, scores, from, budget, 0);
    var n: nat :| StopsAt(nodes, scores, from, budget, n);
    n
  }

  /** The frontier the generator ends with; without a budget nothing is rolled up. */
  ghost function GreedyFrontier(nodes: Nodes, scores: Scores, from: set<Id>, budget: Option<int>): set<Id>
    requires WellFormed(nodes) && from <= Bottom(nodes)
  {
    Frontier(nodes, scores, from, if budget.None? then 0 else StopStep(nodes, scores, from, budget.value))
  }

  /** The same when every bottom node has been reached. */
  ghost function WholeFrontier(nodes: Nodes, scores: Scores, budget: Option<int>): set<Id>
    requires WellFormed(nodes)
  {
    GreedyFrontier(nodes, scores, Bottom(nodes), budget)
  }
}
