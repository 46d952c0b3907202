/** What the token-space layout looks like for a tiling that is a cut listed in tree order. */
module TokenLayoutTheorems {
  import opened Options
  import opened Sorting
  import opened Forest
  import opened Spans
  import opened TreeOrder
  import opened GreedyTiling
  import opened TokenLayout
  import ExactTiling

  /** The infos list the cut, each node once and with its positive token count. */
  ghost predicate Selects(nodes: Nodes, infos: seq<NodeInfo>, f: set<Id>) {
    && (forall i, j :: 0 <= i < j < |infos| ==> infos[i].nodeId != infos[j].nodeId)
    && (forall i :: 0 <= i < |infos|
          ==> infos[i].nodeId in nodes && infos[i].tokenCost == nodes[infos[i].nodeId].tokens > 0)
    && forall x :: x in f <==> exists i :: 0 <= i < |infos| && infos[i].nodeId == x
  }

  /** A cut, a layout of it, and document order agreeing with tree order; no child is shared. */
  ghost predicate LaidOutInTreeOrder(nodes: Nodes, s: set<Id>, infos: seq<NodeInfo>, lookup: map<Id, int>,
                                     positions: map<int, Interval>, roots: seq<Id>)
    requires WellFormed(nodes)
  {
    && s <= nodes.Keys && IsCut(nodes, s) && ChildrenDistinct(nodes)
    && Selects(nodes, infos, Top(nodes, s))
    && LooksUp(infos, lookup) && LaidOut(infos, positions, |infos|)
    && (forall x :: x in roots <==> x in Roots(nodes))
    && DocumentIds(infos) == YieldAll(nodes, Top(nodes, s), roots)
  }

  lemma CutOf(nodes: Nodes, s: set<Id>, infos: seq<NodeInfo>, lookup: map<Id, int>, positions: map<int, Interval>,
              roots: seq<Id>)
    requires WellFormed(nodes) && LaidOutInTreeOrder(nodes, s, infos, lookup, positions, roots)
    ensures s <= nodes.Keys && IsCut(nodes, s) && ChildrenDistinct(nodes) && ChildClosed(nodes, s)
            && Top(nodes, s) <= nodes.Keys
    ensures Known(nodes, infos, lookup) && Selects(nodes, infos, Top(nodes, s)) && LaidOut(infos, positions, |infos|)
    ensures forall x :: x in roots <==> x in Roots(nodes)
    ensures DocumentIds(infos) == YieldAll(nodes, Top(nodes, s), roots)
    ensures forall x :: AtOrAbove(nodes, s, x) ==> x in nodes
  {
  }

  // ----- the intervals of the selected nodes -----

  lemma {:induction false} CostsGrow(infos: seq<NodeInfo>, j: nat, k: nat)
    requires j <= k <= |infos| && forall i :: 0 <= i < |infos| ==> infos[i].tokenCost > 0
    ensures 0 <= CostBefore(infos, j) <= CostBefore(infos, k)
    ensures j < k ==> CostBefore(infos, j) < CostBefore(infos, k)
  {
    if k > 0 { CostStep(infos, k - 1); }
    if j < k {
      CostsGrow(infos, j, k - 1);
    } else if j > 0 {
      CostsGrow(infos, j - 1, j - 1);
    }
  }

  lemma CostStep(infos: seq<NodeInfo>, k: nat)
    requires k < |infos| && forall i :: 0 <= i < |infos| ==> infos[i].tokenCost > 0
    ensures CostBefore(infos, k) < CostBefore(infos, k + 1)
  {
    DocumentIndicesPermute(infos);
    hide DocumentIndices;
  }

  /** The `k`-th selected node gets the `k`-th stretch of the running total. */
  lemma TileOf(nodes: Nodes, infos: seq<NodeInfo>, lookup: map<Id, int>, positions: map<int, Interval>, f: set<Id>,
               k: nat)
    requires Known(nodes, infos, lookup) && LaidOut(infos, positions, |infos|) && Selects(nodes, infos, f)
             && k < |infos|
    ensures var x := DocumentIds(infos)[k];
            && x in nodes && x in lookup && x in f
            && Cost(nodes, infos, lookup, x) == CostBefore(infos, k + 1) - CostBefore(infos, k) > 0
            && Position(nodes, infos, lookup, positions, x) == (CostBefore(infos, k), CostBefore(infos, k + 1))
  {
    DocumentIndicesPermute(infos);
    var i := DocumentIndices(infos)[k];
    assert HasInterval(positions, i, CostBefore(infos, k), CostBefore(infos, k + 1));
    assert infos[i].nodeId in lookup && lookup[infos[i].nodeId] == i;
  }

  ghost predicate Holds(positions: map<int, Interval>, i: int, t: int) {
    i in positions && positions[i].0 <= t < positions[i].1
  }

  lemma {:induction false} TileAt(infos: seq<NodeInfo>, n: nat, t: int) returns (k: nat)
    requires n <= |infos| && 0 <= t < CostBefore(infos, n)
    ensures k < n && CostBefore(infos, k) <= t < CostBefore(infos, k + 1)
  {
    if CostBefore(infos, n - 1) <= t { k := n - 1; } else { k := TileAt(infos, n - 1, t); }
  }

  /** The `i`-th info has the interval of some place `k` in document order. */
  lemma PlaceOf(infos: seq<NodeInfo>, positions: map<int, Interval>, i: nat) returns (k: nat)
    requires LaidOut(infos, positions, |infos|) && i < |infos|
    ensures |DocumentIndices(infos)| == |infos|
    ensures k < |infos| && DocumentIndices(infos)[k] == i
    ensures HasInterval(positions, i, CostBefore(infos, k), CostBefore(infos, k + 1))
  {
    DocumentIndicesPermute(infos);
    hide CostBefore;
    assert i in DocumentIndices(infos);
    k :| 0 <= k < |infos| && DocumentIndices(infos)[k] == i;
  }

  /** The intervals of the tiling partition [0, total): every position of it, and no other, lies in exactly one. */
  lemma TilesPartition(infos: seq<NodeInfo>, positions: map<int, Interval>, t: int)
    requires LaidOut(infos, positions, |infos|) && forall i :: 0 <= i < |infos| ==> infos[i].tokenCost > 0
    ensures (exists i :: 0 <= i < |infos| && Holds(positions, i, t)) <==> 0 <= t < CostBefore(infos, |infos|)
    ensures forall i, j :: 0 <= i < |infos| && 0 <= j < |infos| && Holds(positions, i, t) && Holds(positions, j, t)
              ==> i == j
  {
    DocumentIndicesPermute(infos);
    if 0 <= t < CostBefore(infos, |infos|) {
      var k := TileAt(infos, |infos|, t);
      assert HasInterval(positions, DocumentIndices(infos)[k], CostBefore(infos, k), CostBefore(infos, k + 1));
      assert Holds(positions, DocumentIndices(infos)[k], t);
    }
    hide LaidOut;
    hide CostBefore;
    hide DocumentIndices;
    if i :| 0 <= i < |infos| && Holds(positions, i, t) {
      TileInside(infos, positions, i);
    }
    forall i, j | 0 <= i < |infos| && 0 <= j < |infos| && Holds(positions, i, t) && Holds(positions, j, t)
      ensures i == j {
      SameTile(infos, positions, i, j, t);
    }
  }

  lemma TileInside(infos: seq<NodeInfo>, positions: map<int, Interval>, i: nat)
    requires LaidOut(infos, positions, |infos|) && (forall i :: 0 <= i < |infos| ==> infos[i].tokenCost > 0)
             && i < |infos|
    ensures i in positions && 0 <= positions[i].0 < positions[i].1 <= CostBefore(infos, |infos|)
  {
    var k := PlaceOf(infos, positions, i);
    hide *;
    CostsGrow(infos, k, k + 1);
    CostsGrow(infos, k + 1, |infos|);
    IntervalIs(positions, i, CostBefore(infos, k), CostBefore(infos, k + 1));
  }

  lemma IntervalIs(positions: map<int, Interval>, i: int, from: int, to: int)
    requires HasInterval(positions, i, from, to)
    ensures i in positions && positions[i] == (from, to)
  {
  }

  lemma SameTile(infos: seq<NodeInfo>, positions: map<int, Interval>, i: nat, j: nat, t: int)
    requires LaidOut(infos, positions, |infos|) && forall i :: 0 <= i < |infos| ==> infos[i].tokenCost > 0
    requires i < |infos| && j < |infos| && Holds(positions, i, t) && Holds(positions, j, t)
    ensures i == j
  {
    var k := PlaceOf(infos, positions, i);
    var m := PlaceOf(infos, positions, j);
    hide CostBefore;
    hide LaidOut;
    hide DocumentIndices;
    if k < m { CostsGrow(infos, k + 1, m); }
    if m < k { CostsGrow(infos, m + 1, k); }
  }

  // ----- the intervals of the covered nodes -----

  /** Where the stretch `[a, b)` of the selected nodes lies. */
  ghost predicate Spread(nodes: Nodes, infos: seq<NodeInfo>, lookup: map<Id, int>, positions: map<int, Interval>,
                         x: Id, a: nat, b: nat)
    requires Known(nodes, infos, lookup) && x in nodes
  {
    && a < b <= |infos|
    && Cost(nodes, infos, lookup, x) == CostBefore(infos, b) - CostBefore(infos, a)
    && Position(nodes, infos, lookup, positions, x) == (CostBefore(infos, a), CostBefore(infos, b))
  }

  /** The same for a child that may be missing. */
  ghost predicate SideSpread(nodes: Nodes, infos: seq<NodeInfo>, lookup: map<Id, int>, positions: map<int, Interval>,
                             x: Id, child: Option<Id>, a: nat, b: nat)
    requires Known(nodes, infos, lookup) && IsSide(nodes, x, child)
  {
    && a <= b <= |infos| && (a < b <==> child.Some?)
    && SideCost(nodes, infos, lookup, x, child) == CostBefore(infos, b) - CostBefore(infos, a)
    && SidePosition(nodes, infos, lookup, positions, x, child)
       == if child.None? then (0, 0) else (CostBefore(infos, a), CostBefore(infos, b))
  }

  lemma CombineSides(nodes: Nodes, infos: seq<NodeInfo>, lookup: map<Id, int>, positions: map<int, Interval>,
                     x: Id, a: nat, m: nat, b: nat)
    requires Known(nodes, infos, lookup) && x in nodes && x !in lookup
    requires forall i :: 0 <= i < |infos| ==> infos[i].tokenCost > 0
    requires IsSide(nodes, x, Child(nodes, nodes[x].left)) && IsSide(nodes, x, Child(nodes, nodes[x].right))
    requires SideSpread(nodes, infos, lookup, positions, x, Child(nodes, nodes[x].left), a, m)
    requires SideSpread(nodes, infos, lookup, positions, x, Child(nodes, nodes[x].right), m, b)
    requires Child(nodes, nodes[x].left).Some? || Child(nodes, nodes[x].right).Some?
    ensures Spread(nodes, infos, lookup, positions, x, a, b)
  {
    hide WellFormed;
    hide LooksUp;
    hide CostBefore;
    CostsGrow(infos, a, m);
    CostsGrow(infos, m, b);
    CostsGrow(infos, a, b);
  }

  lemma SideSpreadOf(nodes: Nodes, infos: seq<NodeInfo>, lookup: map<Id, int>, positions: map<int, Interval>,
                     x: Id, child: Option<Id>, a: nat, b: nat)
    requires Known(nodes, infos, lookup) && IsSide(nodes, x, child)
    requires if child.None? then a == b <= |infos| else Spread(nodes, infos, lookup, positions, child.value, a, b)
    requires forall i :: 0 <= i < |infos| ==> infos[i].tokenCost > 0
    ensures SideSpread(nodes, infos, lookup, positions, x, child, a, b)
  {
    CostsGrow(infos, a, b);
  }

  lemma SliceOf(s: seq<Id>, a: nat, y: seq<Id>, l: seq<Id>, r: seq<Id>)
    requires a + |y| <= |s| && s[a..a + |y|] == y && y == l + r
    ensures s[a..a + |l|] == l && s[a + |l|..a + |l| + |r|] == r
  {
    assert s[a..a + |y|][..|l|] == l;
    assert s[a..a + |y|][|l|..] == r;
    forall i | 0 <= i < |l| ensures s[a..a + |l|][i] == l[i] { assert s[a..a + |y|][i] == s[a + i]; }
    forall i | 0 <= i < |r|
      ensures s[a + |l|..a + |l| + |r|][i] == r[i] {
      assert s[a..a + |y|][|l| + i] == s[a + |l| + i];
    }
  }

  /** A node whose yield is a stretch of the selected nodes is laid out over exactly that stretch. */
  lemma {:induction false} SpreadBelow(nodes: Nodes, s: set<Id>, infos: seq<NodeInfo>, lookup: map<Id, int>,
                                       positions: map<int, Interval>, x: Id, a: nat)
    requires Known(nodes, infos, lookup) && WellFormed(nodes) && s <= nodes.Keys && IsCut(nodes, s)
             && ChildrenDistinct(nodes)
    requires Selects(nodes, infos, Top(nodes, s)) && LaidOut(infos, positions, |infos|)
    requires x in nodes && AtOrAbove(nodes, s, x)
    requires a + |Yield(nodes, Top(nodes, s), x)| <= |infos|
    requires DocumentIds(infos)[a..a + |Yield(nodes, Top(nodes, s), x)|] == Yield(nodes, Top(nodes, s), x)
    ensures Spread(nodes, infos, lookup, positions, x, a, a + |Yield(nodes, Top(nodes, s), x)|)
    decreases Deeper(nodes, x), 1
  {
    hide *;
    var f := Top(nodes, s);
    YieldUnfold(nodes, f, x);
    DocumentIdsSize(infos);
    if x in f {
      SelectedSpread(nodes, infos, lookup, positions, f, x, a);
    } else {
      SidesAbove(nodes, s, x);
      NotSelected(nodes, infos, lookup, f, x);
      var l, r := Child(nodes, nodes[x].left), Child(nodes, nodes[x].right);
      var yl, yr := SideYield(nodes, f, x, l), SideYield(nodes, f, x, r);
      SliceOf(DocumentIds(infos), a, Yield(nodes, f, x), yl, yr);
      SideBelow(nodes, s, infos, lookup, positions, x, l, a);
      SideBelow(nodes, s, infos, lookup, positions, x, r, a + |yl|);
      CombineSides(nodes, infos, lookup, positions, x, a, a + |yl|, a + |yl| + |yr|);
    }
  }

  /** What is known of the two children of a node above the cut. */
  lemma SidesAbove(nodes: Nodes, s: set<Id>, x: Id)
    requires WellFormed(nodes) && s <= nodes.Keys && IsCut(nodes, s) && ChildrenDistinct(nodes)
    requires x in nodes && AtOrAbove(nodes, s, x) && x !in Top(nodes, s)
    ensures OtherChild(nodes, x) == Child(nodes, nodes[x].right)
    ensures var l, r := Child(nodes, nodes[x].left), Child(nodes, nodes[x].right);
            && (l.Some? || r.Some?) && IsSide(nodes, x, l) && IsSide(nodes, x, r)
            && (l.Some? ==> AtOrAbove(nodes, s, l.value)) && (r.Some? ==> AtOrAbove(nodes, s, r.value))
  {
    InnerHasChild(nodes, s, x);
    ChildrenAreSides(nodes, x);
    hide AtOrAbove;
  }

  lemma DocumentIdsSize(infos: seq<NodeInfo>)
    ensures |DocumentIds(infos)| == |infos|
  {
  }

  lemma SelectedSpread(nodes: Nodes, infos: seq<NodeInfo>, lookup: map<Id, int>, positions: map<int, Interval>,
                       f: set<Id>, x: Id, a: nat)
    requires Known(nodes, infos, lookup) && LaidOut(infos, positions, |infos|) && Selects(nodes, infos, f)
    requires x in nodes && a + 1 <= |infos| && DocumentIds(infos)[a..a + 1] == [x]
    ensures Spread(nodes, infos, lookup, positions, x, a, a + 1)
  {
    assert DocumentIds(infos)[a..a + 1][0] == DocumentIds(infos)[a];
    TileOf(nodes, infos, lookup, positions, f, a);
  }

  lemma NotSelected(nodes: Nodes, infos: seq<NodeInfo>, lookup: map<Id, int>, f: set<Id>, x: Id)
    requires Known(nodes, infos, lookup) && Selects(nodes, infos, f) && x !in f
    ensures x !in lookup && forall i :: 0 <= i < |infos| ==> infos[i].tokenCost > 0
  {
  }

  lemma PositiveCosts(nodes: Nodes, infos: seq<NodeInfo>, f: set<Id>)
    requires Selects(nodes, infos, f)
    ensures forall i :: 0 <= i < |infos| ==> infos[i].tokenCost > 0
  {
  }

  lemma {:induction false} SideBelow(nodes: Nodes, s: set<Id>, infos: seq<NodeInfo>, lookup: map<Id, int>,
                                     positions: map<int, Interval>, x: Id, child: Option<Id>, a: nat)
    requires Known(nodes, infos, lookup) && WellFormed(nodes) && s <= nodes.Keys && IsCut(nodes, s)
             && ChildrenDistinct(nodes)
    requires Selects(nodes, infos, Top(nodes, s)) && LaidOut(infos, positions, |infos|)
    requires IsSide(nodes, x, child) && (child.Some? ==> AtOrAbove(nodes, s, child.value))
    requires a + |SideYield(nodes, Top(nodes, s), x, child)| <= |infos|
    requires DocumentIds(infos)[a..a + |SideYield(nodes, Top(nodes, s), x, child)|]
             == SideYield(nodes, Top(nodes, s), x, child)
    ensures SideSpread(nodes, infos, lookup, positions, x, child, a, a + |SideYield(nodes, Top(nodes, s), x, child)|)
    decreases Deeper(nodes, x), 0
  {
    hide WellFormed;
    hide Selects;
    hide LaidOut;
    hide Yield;
    hide Spread;
    hide AtOrAbove;
    hide IsCut;
    hide ChildrenDistinct;
    hide DocumentIds;
    hide CostBefore;
    hide LooksUp;
    PositiveCosts(nodes, infos, Top(nodes, s));
    if child.Some? {
      DeeperShrinks(nodes, x, child.value);
      SpreadBelow(nodes, s, infos, lookup, positions, child.value, a);
    }
    SideSpreadOf(nodes, infos, lookup, positions, x, child, a, a + |SideYield(nodes, Top(nodes, s), x, child)|);
  }

  /** Why shared children are excluded: the recursion counts the cost of such a child twice. */
  lemma SharedChildCountsTwice(nodes: Nodes, infos: seq<NodeInfo>, lookup: map<Id, int>, x: Id)
    requires Known(nodes, infos, lookup) && x in nodes && x !in lookup && SharesChild(nodes, x)
    requires Cost(nodes, infos, lookup, nodes[x].left.value) != 0
    ensures Cost(nodes, infos, lookup, x) == 2 * Cost(nodes, infos, lookup, nodes[x].left.value)
  {
    var c := nodes[x].left.value;
    assert c == Id(c.name) && Child(nodes, nodes[x].left) == Some(c);
    CostUnfold(nodes, infos, lookup, x);
  }

  // ----- every covered node on or above the cut has its stretch -----

  lemma {:induction false} RootStretch(nodes: Nodes, f: set<Id>, xs: seq<Id>, x: Id) returns (a: nat)
    requires WellFormed(nodes) && (forall y :: y in xs ==> y in nodes) && x in xs
    ensures a + |Yield(nodes, f, x)| <= |YieldAll(nodes, f, xs)|
    ensures YieldAll(nodes, f, xs)[a..a + |Yield(nodes, f, x)|] == Yield(nodes, f, x)
  {
    var all, first := YieldAll(nodes, f, xs), Yield(nodes, f, xs[0]);
    if x == xs[0] {
      a := 0;
      assert all[..|first|] == first;
    } else {
      assert x in xs[1..];
      var rest := YieldAll(nodes, f, xs[1..]);
      var b := RootStretch(nodes, f, xs[1..], x);
      a := |first| + b;
      assert all == first + rest;
      ShiftSlice(first, rest, b, |Yield(nodes, f, x)|);
    }
  }

  lemma SliceOfDrop(s: seq<Id>, m: nat, b: nat, n: nat)
    requires m + b + n <= |s|
    ensures s[m..][b..b + n] == s[m + b..m + b + n]
  {
    var u, v := s[m..][b..b + n], s[m + b..m + b + n];
    forall i | 0 <= i < n ensures u[i] == v[i] {
      assert s[m..][b + i] == s[m + b + i];
    }
  }

  lemma ShiftSlice(p: seq<Id>, s: seq<Id>, b: nat, n: nat)
    requires b + n <= |s|
    ensures (p + s)[|p| + b..|p| + b + n] == s[b..b + n]
  {
    assert (p + s)[|p|..] == s;
    SliceOfDrop(p + s, |p|, b, n);
  }

  lemma {:induction false} Stretch(nodes: Nodes, s: set<Id>, ids: seq<Id>, roots: seq<Id>, x: Id) returns (a: nat)
    requires WellFormed(nodes) && s <= nodes.Keys && IsCut(nodes, s)
    requires forall y :: y in roots <==> y in Roots(nodes)
    requires ids == YieldAll(nodes, Top(nodes, s), roots)
    requires AtOrAbove(nodes, s, x)
    ensures a + |Yield(nodes, Top(nodes, s), x)| <= |ids|
    ensures ids[a..a + |Yield(nodes, Top(nodes, s), x)|] == Yield(nodes, Top(nodes, s), x)
    decreases Depth(nodes)[x]
  {
    hide Yield;
    hide YieldAll;
    hide Deeper;
    var f := Top(nodes, s);
    if !ParentIn(nodes.Keys, nodes, x) {
      a := RootStretch(nodes, f, roots, x);
    } else {
      var p := nodes[x].parent.value;
      assert x in Kids(nodes, p) && p !in s;
      var b := Stretch(nodes, s, ids, roots, p);
      YieldUnfold(nodes, f, p);
      InnerHasChild(nodes, s, p);
      var l, r := Child(nodes, nodes[p].left), OtherChild(nodes, p);
      var yl, yr := SideYield(nodes, f, p, l), SideYield(nodes, f, p, r);
      SliceOf(ids, b, Yield(nodes, f, p), yl, yr);
      a := if l == Some(x) then b else b + |yl|;
    }
  }

  lemma SpreadOf(nodes: Nodes, s: set<Id>, infos: seq<NodeInfo>, lookup: map<Id, int>,
                 positions: map<int, Interval>, roots: seq<Id>, x: Id) returns (a: nat, b: nat)
    requires WellFormed(nodes) && LaidOutInTreeOrder(nodes, s, infos, lookup, positions, roots)
    requires AtOrAbove(nodes, s, x)
    ensures Known(nodes, infos, lookup) && |DocumentIds(infos)| == |infos|
    ensures Spread(nodes, infos, lookup, positions, x, a, b)
    ensures DocumentIds(infos)[a..b] == Yield(nodes, Top(nodes, s), x)
  {
    hide *;
    CutOf(nodes, s, infos, lookup, positions, roots);
    DocumentIdsSize(infos);
    var ids := DocumentIds(infos);
    a := Stretch(nodes, s, ids, roots, x);
    b := a + |Yield(nodes, Top(nodes, s), x)|;
    SpreadBelow(nodes, s, infos, lookup, positions, x, a);
  }

  // ----- what the stretch means -----

  lemma DocumentIdsAt(nodes: Nodes, infos: seq<NodeInfo>, f: set<Id>, k: nat)
    requires Selects(nodes, infos, f) && k < |infos|
    ensures |DocumentIds(infos)| == |infos| && Distinct(DocumentIds(infos))
    ensures DocumentIds(infos)[k] in nodes
    ensures CostBefore(infos, k + 1) == CostBefore(infos, k) + nodes[DocumentIds(infos)[k]].tokens
  {
    DocumentIndicesPermute(infos);
    hide DocumentIndices;
  }

  /** The cost of a stretch is the token sum of its nodes. */
  lemma {:induction false} CostOfStretch(nodes: Nodes, infos: seq<NodeInfo>, f: set<Id>, a: nat, b: nat)
    requires Selects(nodes, infos, f) && a <= b <= |infos|
    ensures |DocumentIds(infos)| == |infos|
    ensures CostBefore(infos, b) - CostBefore(infos, a) == Rollups.Tokens(nodes, Members(DocumentIds(infos)[a..b]))
    decreases b
  {
    hide *;
    DocumentIdsSize(infos);
    var ids := DocumentIds(infos);
    if a < b {
      CostOfStretch(nodes, infos, f, a, b - 1);
      DocumentIdsAt(nodes, infos, f, b - 1);
      OneMoreToken(nodes, ids, a, b);
    } else {
      NoTokens(nodes, ids[a..b]);
    }
  }

  lemma NoTokens(nodes: Nodes, ids: seq<Id>)
    requires ids == []
    ensures Rollups.Tokens(nodes, Members(ids)) == 0
  {
  }

  lemma OneMoreToken(nodes: Nodes, ids: seq<Id>, a: nat, b: nat)
    requires Distinct(ids) && a < b <= |ids| && ids[b - 1] in nodes
    ensures Rollups.Tokens(nodes, Members(ids[a..b]))
            == Rollups.Tokens(nodes, Members(ids[a..b - 1])) + nodes[ids[b - 1]].tokens
  {
    var all, front, last := Members(ids[a..b]), Members(ids[a..b - 1]), ids[b - 1];
    assert ids[a..b] == ids[a..b - 1] + [last];
    assert last !in ids[a..b - 1];
    assert all - {last} == front;
    SumRemove(Rollups.TokensOf(nodes), all, last);
  }

  ghost predicate Within(positions: map<int, Interval>, i: int, interval: Interval) {
    i in positions && interval.0 <= positions[i].0 && positions[i].1 <= interval.1
  }

  /** The tiles inside a stretch of the layout are those of its nodes. */
  lemma TilesOfStretch(nodes: Nodes, infos: seq<NodeInfo>, positions: map<int, Interval>, f: set<Id>, a: nat, b: nat,
                       i: nat)
    requires Selects(nodes, infos, f) && LaidOut(infos, positions, |infos|) && a <= b <= |infos| && i < |infos|
    ensures |DocumentIds(infos)| == |infos|
    ensures infos[i].nodeId in DocumentIds(infos)[a..b]
            <==> Within(positions, i, (CostBefore(infos, a), CostBefore(infos, b)))
  {
    var k := PlaceOf(infos, positions, i);
    DocumentIdsAt(nodes, infos, f, k);
    PositiveCosts(nodes, infos, f);
    assert DocumentIds(infos)[k] == infos[i].nodeId;
    hide *;
    IntervalIs(positions, i, CostBefore(infos, k), CostBefore(infos, k + 1));
    InSlice(DocumentIds(infos), a, b, k);
    if a <= k { CostsGrow(infos, a, k); } else { CostsGrow(infos, k, a); }
    if k + 1 <= b { CostsGrow(infos, k + 1, b); } else { CostsGrow(infos, b, k + 1); }
    WithinMeaning(positions, i, (CostBefore(infos, a), CostBefore(infos, b)));
  }

  lemma WithinMeaning(positions: map<int, Interval>, i: int, interval: Interval)
    ensures Within(positions, i, interval) <==>
              i in positions && interval.0 <= positions[i].0 && positions[i].1 <= interval.1
  {
  }

  lemma InSlice(s: seq<Id>, a: nat, b: nat, k: nat)
    requires Distinct(s) && a <= b <= |s| && k < |s|
    ensures s[k] in s[a..b] <==> a <= k < b
  {
    if a <= k < b { assert s[a..b][k - a] == s[k]; }
    if s[k] in s[a..b] {
      var j :| 0 <= j < b - a && s[a..b][j] == s[k];
      assert s[a + j] == s[k];
    }
  }

  /** What a node's cost and interval amount to: the tokens of its selected descendants, and exactly their tiles. */
  ghost predicate Covers(nodes: Nodes, infos: seq<NodeInfo>, positions: map<int, Interval>, below: set<Id>, cost: int,
                         interval: Interval) {
    && cost == Rollups.Tokens(nodes, below)
    && interval.1 - interval.0 == cost > 0
    && forall i :: 0 <= i < |infos| ==> (infos[i].nodeId in below <==> Within(positions, i, interval))
  }

  /**
     The layout theorem: for every covered node on or above the cut, the cost is the token sum of the
     selected nodes at or below it, it is the width of the interval, and the tiles inside the interval are
     those of exactly these nodes.
   */
  lemma LayoutTheorem(nodes: Nodes, s: set<Id>, infos: seq<NodeInfo>, lookup: map<Id, int>,
                      positions: map<int, Interval>, roots: seq<Id>, x: Id)
    requires WellFormed(nodes) && LaidOutInTreeOrder(nodes, s, infos, lookup, positions, roots)
    requires AtOrAbove(nodes, s, x)
    ensures Known(nodes, infos, lookup)
    ensures Covers(nodes, infos, positions, Below(nodes, Top(nodes, s), x),
                   Cost(nodes, infos, lookup, x), Position(nodes, infos, lookup, positions, x))
  {
    CutOf(nodes, s, infos, lookup, positions, roots);
    hide *;
    var f := Top(nodes, s);
    var a, b := SpreadOf(nodes, s, infos, lookup, positions, roots, x);
    YieldMembers(nodes, s, x);
    MembersAre(DocumentIds(infos)[a..b], Below(nodes, f, x));
    PositiveCosts(nodes, infos, f);
    SpreadIs(nodes, infos, lookup, positions, x, a, b);
    CostOfStretch(nodes, infos, f, a, b);
    CostsGrow(infos, a, b);
    forall i | 0 <= i < |infos|
      ensures infos[i].nodeId in Below(nodes, f, x)
              <==> Within(positions, i, Position(nodes, infos, lookup, positions, x)) {
      TilesOfStretch(nodes, infos, positions, f, a, b, i);
    }
    CoversIs(nodes, infos, positions, Below(nodes, f, x), Cost(nodes, infos, lookup, x),
        Position(nodes, infos, lookup, positions, x));
  }

  lemma MembersAre(ids: seq<Id>, s: set<Id>)
    requires forall x :: x in ids <==> x in s
    ensures Members(ids) == s
  {
  }

  lemma SpreadIs(nodes: Nodes, infos: seq<NodeInfo>, lookup: map<Id, int>, positions: map<int, Interval>, x: Id, a: nat,
                 b: nat)
    requires Known(nodes, infos, lookup) && x in nodes && Spread(nodes, infos, lookup, positions, x, a, b)
    ensures a < b <= |infos|
    ensures Cost(nodes, infos, lookup, x) == CostBefore(infos, b) - CostBefore(infos, a)
    ensures Position(nodes, infos, lookup, positions, x) == (CostBefore(infos, a), CostBefore(infos, b))
  {
  }

  lemma CoversIs(nodes: Nodes, infos: seq<NodeInfo>, positions: map<int, Interval>, below: set<Id>, cost: int,
                 interval: Interval)
    ensures Covers(nodes, infos, positions, below, cost, interval) <==>
              && cost == Rollups.Tokens(nodes, below)
              && interval.1 - interval.0 == cost > 0
              && forall i :: 0 <= i < |infos| ==> (infos[i].nodeId in below <==> Within(positions, i, interval))
  {
  }

  /** Sibling intervals meet: the left child's ends where the right child's starts. */
  lemma SiblingsMeet(nodes: Nodes, s: set<Id>, infos: seq<NodeInfo>, lookup: map<Id, int>,
                     positions: map<int, Interval>, roots: seq<Id>, x: Id)
    requires WellFormed(nodes) && LaidOutInTreeOrder(nodes, s, infos, lookup, positions, roots)
    requires AtOrAbove(nodes, s, x) && x !in s
    requires Child(nodes, nodes[x].left).Some? && Child(nodes, nodes[x].right).Some?
    ensures Position(nodes, infos, lookup, positions, nodes[x].left.value).1
         == Position(nodes, infos, lookup, positions, nodes[x].right.value).0
  {
    var a := Stretch(nodes, s, DocumentIds(infos), roots, x);
    SidesMeet(nodes, s, infos, lookup, positions, x, a);
  }

  lemma SidesMeet(nodes: Nodes, s: set<Id>, infos: seq<NodeInfo>, lookup: map<Id, int>,
                  positions: map<int, Interval>, x: Id, a: nat)
    requires Known(nodes, infos, lookup) && WellFormed(nodes) && s <= nodes.Keys && x in nodes
    requires IsCut(nodes, s) && ChildrenDistinct(nodes)
    requires Selects(nodes, infos, Top(nodes, s)) && LaidOut(infos, positions, |infos|)
    requires AtOrAbove(nodes, s, x) && x !in Top(nodes, s)
    requires a + |Yield(nodes, Top(nodes, s), x)| <= |infos|
    requires DocumentIds(infos)[a..a + |Yield(nodes, Top(nodes, s), x)|] == Yield(nodes, Top(nodes, s), x)
    requires Child(nodes, nodes[x].left).Some? && Child(nodes, nodes[x].right).Some?
    ensures IsSide(nodes, x, Child(nodes, nodes[x].left)) && IsSide(nodes, x, Child(nodes, nodes[x].right))
    ensures SidePosition(nodes, infos, lookup, positions, x, Child(nodes, nodes[x].left)).1
         == SidePosition(nodes, infos, lookup, positions, x, Child(nodes, nodes[x].right)).0
  {
    hide *;
    var f := Top(nodes, s);
    YieldUnfold(nodes, f, x);
    DocumentIdsSize(infos);
    SidesAbove(nodes, s, x);
    var l, r := Child(nodes, nodes[x].left), Child(nodes, nodes[x].right);
    var yl, yr := SideYield(nodes, f, x, l), SideYield(nodes, f, x, r);
    SliceOf(DocumentIds(infos), a, Yield(nodes, f, x), yl, yr);
    SideBelow(nodes, s, infos, lookup, positions, x, l, a);
    SideBelow(nodes, s, infos, lookup, positions, x, r, a + |yl|);
    SidesTouch(nodes, infos, lookup, positions, x, l, r, a, a + |yl|, a + |yl| + |yr|);
  }

  lemma SidesTouch(nodes: Nodes, infos: seq<NodeInfo>, lookup: map<Id, int>, positions: map<int, Interval>,
                   x: Id, l: Option<Id>, r: Option<Id>, a: nat, m: nat, b: nat)
    requires Known(nodes, infos, lookup) && IsSide(nodes, x, l) && IsSide(nodes, x, r) && l.Some? && r.Some?
    requires SideSpread(nodes, infos, lookup, positions, x, l, a, m)
    requires SideSpread(nodes, infos, lookup, positions, x, r, m, b)
    ensures SidePosition(nodes, infos, lookup, positions, x, l).1
            == SidePosition(nodes, infos, lookup, positions, x, r).0
  {
    hide Known;
    hide SidePosition;
    hide SideCost;
  }

  // ----- the resolver on the greedy tiling -----

  /** The infos of the ids, as the generator reports them. */
  ghost predicate InfosOf(nodes: Nodes, ids: seq<Id>, infos: seq<NodeInfo>) {
    |infos| == |ids| && forall i :: 0 <= i < |ids| ==> IsInfo(nodes, ids[i], infos[i])
  }

  lemma ResultInfos(nodes: Nodes, scores: Rollups.Scores, ids: seq<Id>)
    requires forall x :: x in ids ==> x in nodes
    ensures InfosOf(nodes, ids, BuildResult(ids, scores, nodes).nodeInfos)
  {
    assert forall i :: 0 <= i < |ids| ==> ids[i] in ids;
  }

  /** Infos that come in document order are laid out in the order they come in. */
  lemma DocumentOrderKept(nodes: Nodes, ids: seq<Id>, infos: seq<NodeInfo>, f: set<Id>)
    requires Lists(nodes, ids, f) && InfosOf(nodes, ids, infos)
    ensures DocumentIds(infos) == ids
  {
    forall i | 0 <= i < |ids|
      ensures StartOf(infos, i) == Start(nodes, ids[i]) {
      assert IsInfo(nodes, ids[i], infos[i]);
    }
    forall i, j | 0 <= i < j < |ids| ensures IndexOrder(infos)(Indices(|infos|)[i], Indices(|infos|)[j]) {
      assert DocumentOrder(nodes)(ids[i], ids[j]);
    }
    SortKeepsSorted(IndexOrder(infos), Indices(|infos|));
    hide StableSort;
  }

  lemma ListedInfos(nodes: Nodes, ids: seq<Id>, infos: seq<NodeInfo>, f: set<Id>)
    requires Lists(nodes, ids, f) && InfosOf(nodes, ids, infos) && f <= nodes.Keys
    requires forall x :: x in f ==> nodes[x].tokens > 0
    ensures Selects(nodes, infos, f)
  {
    forall i | 0 <= i < |ids| ensures ids[i] in f && IsInfo(nodes, ids[i], infos[i]) { assert ids[i] in ids; }
    forall x | x in f ensures exists i :: 0 <= i < |infos| && infos[i].nodeId == x {
      var i :| 0 <= i < |ids| && ids[i] == x;
    }
  }

  /** The infos are those of the tiling returned for a budget. */
  ghost predicate ShowsTiling(nodes: Nodes, infos: seq<NodeInfo>, scores: Rollups.Scores, budget: Option<int>)
    requires WellFormed(nodes)
  {
    exists ids ::
      && Lists(nodes, ids, Rollups.WholeFrontier(nodes, scores, budget)) && (forall x :: x in ids ==> x in nodes)
      && infos == BuildResult(ids, scores, nodes).nodeInfos
  }

  /** Children fill their parents and roots run through the document, but for whitespace; no child is shared, and
      nodes have tokens. */
  ghost predicate Drawable(nodes: Nodes, roots: seq<Id>, lo: int, hi: int, text: string, isSpace: char -> bool) {
    && SpansFill(nodes, text, isSpace) && ChildrenDistinct(nodes)
    && (forall x :: x in roots <==> x in Roots(nodes)) && Runs(nodes, roots, lo, hi, text, isSpace)
    && forall x :: x in nodes ==> nodes[x].tokens > 0
  }

  /** For every budget and all scores, the tiling of drawable coverage is a cut laid out in tree order. */
  lemma GreedyLayout(nodes: Nodes, infos: seq<NodeInfo>, scores: Rollups.Scores, budget: Option<int>, roots: seq<Id>,
                     lookup: map<Id, int>, positions: map<int, Interval>, lo: int, hi: int, text: string,
                     isSpace: char -> bool)
    returns (s: set<Id>)
    requires WellFormed(nodes) && Drawable(nodes, roots, lo, hi, text, isSpace)
    requires ShowsTiling(nodes, infos, scores, budget) && LooksUp(infos, lookup) && LaidOut(infos, positions, |infos|)
    ensures s <= nodes.Keys && Top(nodes, s) == Rollups.WholeFrontier(nodes, scores, budget)
    ensures LaidOutInTreeOrder(nodes, s, infos, lookup, positions, roots)
  {
    var ids :| Lists(nodes, ids, Rollups.WholeFrontier(nodes, scores, budget)) && (forall x :: x in ids ==> x in nodes)
               && infos == BuildResult(ids, scores, nodes).nodeInfos;
    s := ExactTiling.ResultIsCutTop(nodes, scores, budget);
    CutRuns(nodes, s, ids, roots, lo, hi, text, isSpace);
    ResultInfos(nodes, scores, ids);
    ListedInfos(nodes, ids, infos, Top(nodes, s));
    DocumentOrderKept(nodes, ids, infos, Top(nodes, s));
  }

  /** No node of `f` is a proper ancestor of `x`. */
  ghost predicate NotUnder(nodes: Nodes, f: set<Id>, x: Id)
    requires WellFormed(nodes) && x in nodes
  {
    forall y :: y in f && AncestorOrSelf(nodes, y, x) ==> y == x
  }

  lemma NotUnderIsAbove(nodes: Nodes, s: set<Id>, x: Id)
    requires WellFormed(nodes) && s <= nodes.Keys && ChildClosed(nodes, s) && x in nodes
             && NotUnder(nodes, Top(nodes, s), x)
    ensures AtOrAbove(nodes, s, x)
  {
    if x in s { var t := UniqueTop(nodes, s, x); }
  }

  /**
     End to end: in a resolver for the tiling of any budget, every covered node on or above the tiling has
     the tokens of its selected descendants as its cost, and their tiles, side by side, as its interval.
   */
  lemma ResolverLayout(r: TokenPositionResolver, scores: Rollups.Scores, budget: Option<int>, roots: seq<Id>,
                       lo: int, hi: int, text: string, isSpace: char -> bool, x: Id)
    requires r.Complete() && WellFormed(r.nodes) && Drawable(r.nodes, roots, lo, hi, text, isSpace)
    requires ShowsTiling(r.nodes, r.infos, scores, budget)
    requires x in r.nodes && NotUnder(r.nodes, Rollups.WholeFrontier(r.nodes, scores, budget), x)
    ensures Rollups.WholeFrontier(r.nodes, scores, budget) <= r.nodes.Keys && x in r.nodeCosts && x in r.nodePositions
    ensures Covers(r.nodes, r.infos, r.positionsInTiling,
                   Below(r.nodes, Rollups.WholeFrontier(r.nodes, scores, budget), x),
                   r.nodeCosts[x], r.nodePositions[x])
  {
    ResolverHas(r, x);
    var s := GreedyLayout(r.nodes, r.infos, scores, budget, roots, r.lookup, r.positionsInTiling, lo, hi, text,
        isSpace);
    CutOf(r.nodes, s, r.infos, r.lookup, r.positionsInTiling, roots);
    hide *;
    NotUnderIsAbove(r.nodes, s, x);
    LayoutTheorem(r.nodes, s, r.infos, r.lookup, r.positionsInTiling, roots, x);
  }

  /** Above the tiling the intervals of two covered children meet. */
  lemma ResolverSiblings(r: TokenPositionResolver, scores: Rollups.Scores, budget: Option<int>, roots: seq<Id>,
                         lo: int, hi: int, text: string, isSpace: char -> bool, x: Id)
    requires r.Complete() && WellFormed(r.nodes) && Drawable(r.nodes, roots, lo, hi, text, isSpace)
    requires ShowsTiling(r.nodes, r.infos, scores, budget)
    requires x in r.nodes && NotUnder(r.nodes, Rollups.WholeFrontier(r.nodes, scores, budget), x)
    requires x !in Rollups.WholeFrontier(r.nodes, scores, budget)
    requires Child(r.nodes, r.nodes[x].left).Some? && Child(r.nodes, r.nodes[x].right).Some?
    ensures r.nodes[x].left.value in r.nodePositions && r.nodes[x].right.value in r.nodePositions
    ensures r.nodePositions[r.nodes[x].left.value].1 == r.nodePositions[r.nodes[x].right.value].0
  {
    ResolverHas(r, r.nodes[x].left.value);
    ResolverHas(r, r.nodes[x].right.value);
    var s := GreedyLayout(r.nodes, r.infos, scores, budget, roots, r.lookup, r.positionsInTiling, lo, hi, text,
        isSpace);
    CutOf(r.nodes, s, r.infos, r.lookup, r.positionsInTiling, roots);
    NotUnderIsAbove(r.nodes, s, x);
    SiblingsMeet(r.nodes, s, r.infos, r.lookup, r.positionsInTiling, roots, x);
  }

  lemma ResolverHas(r: TokenPositionResolver, x: Id)
    requires r.Complete() && x in r.nodes
    ensures WellFormed(r.nodes) && LooksUp(r.infos, r.lookup) && LaidOut(r.infos, r.positionsInTiling, |r.infos|)
    ensures Known(r.nodes, r.infos, r.lookup)
    ensures x in r.nodeCosts && r.nodeCosts[x] == Cost(r.nodes, r.infos, r.lookup, x)
    ensures x in r.nodePositions && r.nodePositions[x] == Position(r.nodes, r.infos, r.lookup, r.positionsInTiling, x)
  {
    hide Cost;
    hide Position;
    hide WellFormed;
    hide LooksUp;
    hide LaidOut;
  }
}
