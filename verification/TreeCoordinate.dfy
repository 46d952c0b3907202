/**
 Node coordinates by height and level index (`ragzoom/tree_coordinate.py`): relatives,
 the leaves a coordinate covers, and the climbs that stop at a window edge.
 Python integers are unbounded, and so are the ones here.
 */
module TreeCoordinate {
  import opened Options
  import opened Powers
  import opened Sorting

  datatype Coord = Coord(document: Option<string>, height: nat, index: nat) {

    function Parent(): Coord {
      Coord(document, height + 1, index / 2)
    }

    function Children(): Result<(Coord, Coord)> {
      if height == 0 then ValueError("Leaf nodes do not have children (height == 0)") else
      Ok((Coord(document, height - 1, 2 * index), Coord(document, height - 1, 2 * index + 1)))
    }

    /** `level_index ^ 1`, with the case of index 0 written out as in the source. */
    function Sibling(): Coord {
      if index == 0 then Coord(document, height, 1)
      else Coord(document, height, if index % 2 == 0 then index + 1 else index - 1)
    }

    predicate IsLeftChild() { index % 2 == 0 }

    predicate IsRightChild() { index % 2 == 1 }

    /** `index << height` and `((index + 1) << height) - 1`. */
    function Left(): int { index * Pow2(height) }

    function Right(): int { (index + 1) * Pow2(height) - 1 }

    function LeafSpan(): (int, int) { (Left(), Right()) }

    predicate IsWithinLeafRange(left: int, right: int) {
      left <= Left() && Right() <= right
    }
  }

  /** The ancestor `k` levels above `c`. */
  ghost function Up(c: Coord, k: nat): Coord {
    if k == 0 then c else Up(c, k - 1).Parent()
  }

  ghost predicate AncestorOrSelf(a: Coord, c: Coord) {
    exists k: nat :: a == Up(c, k)
  }

  /** The leaves of `c` are among the leaves of `a`. */
  ghost predicate SpanInside(c: Coord, a: Coord) {
    a.Left() <= c.Left() && c.Right() <= a.Right()
  }

  ghost predicate SpansDisjoint(a: Coord, b: Coord) {
    a.Right() < b.Left() || b.Right() < a.Left()
  }

  // ----- spans -----

  lemma MulMono(a: int, b: int, p: nat)
    requires a <= b
    ensures a * p <= b * p
  {
  }

  /** Spans are never empty, and coordinates of one level follow each other without overlap. */
  lemma LevelOrder(h: nat, i: nat, j: nat, document: Option<string>)
    requires i < j
    ensures Coord(document, h, i).Left() <= Coord(document, h, i).Right() < Coord(document, h, j).Left()
  {
    MulMono(i + 1, j, Pow2(h));
  }

  /** A left child shares the left end of its parent, a right child the right end; either way it stays inside. */
  lemma ParentSpan(c: Coord)
    ensures SpanInside(c, c.Parent())
    ensures c.IsLeftChild() <==> c.Parent().Left() == c.Left()
    ensures c.IsRightChild() <==> c.Parent().Right() == c.Right()
    ensures c.IsLeftChild() ==> c.Parent().Right() > c.Right()
    ensures c.IsRightChild() ==> c.Parent().Left() < c.Left()
  {
    Pow2Unfold(c.height);
    Halves(c.index, Pow2(c.height));
    hide Pow2;
  }

  lemma Halves(i: nat, p: nat)
    requires p >= 1
    ensures i % 2 == 0 ==> (i / 2) * (2 * p) == i * p && (i / 2 + 1) * (2 * p) == (i + 1) * p + p
    ensures i % 2 == 1 ==> (i / 2) * (2 * p) == i * p - p && (i / 2 + 1) * (2 * p) == (i + 1) * p
  {
    var q := i / 2;
    assert q * (2 * p) == (2 * q) * p && (q + 1) * (2 * p) == (2 * q + 2) * p;
    if i % 2 == 0 {
      assert i == 2 * q;
      Distribute(i + 1, 1, p);
    } else {
      assert i == 2 * q + 1;
      Distribute(2 * q, 1, p);
    }
  }

  lemma {:induction false} UpSpan(c: Coord, k: nat)
    ensures Up(c, k).height == c.height + k && Up(c, k).document == c.document
    ensures SpanInside(c, Up(c, k))
  {
    if k > 0 {
      UpSpan(c, k - 1);
      ParentSpan(Up(c, k - 1));
    }
  }

  /** Leaf spans are laminar: any two are nested, the lower in the higher, or disjoint. */
  lemma Laminar(a: Coord, b: Coord)
    requires a.height >= b.height
    ensures SpanInside(b, a) || SpansDisjoint(a, b)
  {
    var u := Up(b, a.height - b.height);
    UpSpan(b, a.height - b.height);
    LevelOrder(b.height, b.index, b.index + 1, b.document);
    if u.index < a.index { LevelOrder(a.height, u.index, a.index, a.document); }
    if a.index < u.index { LevelOrder(a.height, a.index, u.index, a.document); }
  }

  /** Ancestry is span containment between levels of one document. */
  lemma AncestorIffSpanInside(a: Coord, c: Coord)
    ensures AncestorOrSelf(a, c) <==> a.document == c.document && a.height >= c.height && SpanInside(c, a)
  {
    if AncestorOrSelf(a, c) {
      var k: nat :| a == Up(c, k);
      UpSpan(c, k);
    }
    if a.document == c.document && a.height >= c.height && SpanInside(c, a) {
      var u := Up(c, a.height - c.height);
      UpSpan(c, a.height - c.height);
      LevelOrder(c.height, c.index, c.index + 1, c.document);
      if u.index < a.index { LevelOrder(a.height, u.index, a.index, a.document); }
      if a.index < u.index { LevelOrder(a.height, a.index, u.index, a.document); }
      assert a == u;
    }
  }

  /** The sibling is the other child of the parent. */
  lemma SiblingIsOtherChild(c: Coord)
    ensures c.Sibling() != c && c.Sibling().Sibling() == c && c.Sibling().Parent() == c.Parent()
    ensures var kids := c.Parent().Children().value;
            kids == if c.IsLeftChild() then (c, c.Sibling()) else (c.Sibling(), c)
  {
  }

  // ----- ancestors and descendants -----

  method Ancestors(c: Coord, includeSelf: bool, stopHeight: int) returns (r: Result<seq<Coord>>)
    ensures r.ValueError? <==> stopHeight < c.height
    ensures r.Ok? ==>
              var first: nat := if includeSelf then 0 else 1;
              && |r.value| == stopHeight - c.height + 1 - first
              && forall i: nat :: i < |r.value| ==> r.value[i] == Up(c, first + i)
  {
    if stopHeight < c.height { return ValueError("stop_height must be >= current height"); }
    var first: nat := if includeSelf then 0 else 1;
    var current := if includeSelf then c else c.Parent();
    assert current == Up(c, first) by { assert Up(c, 1) == Up(c, 0).Parent(); }
    var out: seq<Coord> := [];
    while current.height <= stopHeight
      invariant current == Up(c, first + |out|) && current.height == c.height + first + |out|
      invariant current.height <= stopHeight + 1
      invariant forall i: nat :: i < |out| ==> out[i] == Up(c, first + i)
      decreases stopHeight + 1 - current.height
    {
      out := out + [current];
      if current.height == stopHeight { break; }
      current := current.Parent();
    }
    r := Ok(out);
  }

  /** At every height from `c` upward exactly one coordinate of the document covers `c`: the ancestor there. */
  lemma OneAncestorPerHeight(c: Coord, k: nat)
    ensures var u := Up(c, k);
            && u.height == c.height + k && SpanInside(c, u)
            && forall a: Coord :: a.document == c.document && a.height == c.height + k && SpanInside(c, a) ==> a == u
  {
    UpSpan(c, k);
    forall a: Coord | a.document == c.document && a.height == c.height + k && SpanInside(c, a) ensures a == Up(c, k) {
      AncestorIffSpanInside(a, c);
      var j: nat :| a == Up(c, j);
      UpSpan(c, j);
    }
  }

  /** The coordinates `d` levels below `c`, left to right. */
  ghost function Level(c: Coord, d: nat): seq<Coord>
    requires d <= c.height
  {
    seq(Pow2(d), i requires 0 <= i => Coord(c.document, c.height - d, c.index * Pow2(d) + i))
  }

  /** The levels `1 .. d` below `c`, one after the other. */
  ghost function LevelsTo(c: Coord, d: nat): seq<Coord>
    requires d <= c.height
  {
    if d == 0 then [] else LevelsTo(c, d - 1) + Level(c, d)
  }

  lemma ChildrenOnNextLevel(c: Coord, d: nat, i: nat)
    requires d < c.height && i < Pow2(d)
    ensures |Level(c, d)| == Pow2(d) && |Level(c, d + 1)| == 2 * Pow2(d)
    ensures Level(c, d)[i].Children() == Ok((Level(c, d + 1)[2 * i], Level(c, d + 1)[2 * i + 1]))
  {
    assert c.index * Pow2(d + 1) == 2 * (c.index * Pow2(d));
  }

  /** One round of the search: yields the children of a whole level. */
  method YieldChildren(queue: seq<Coord>, ghost c: Coord, ghost d: nat) returns (nextLevel: seq<Coord>)
    requires d <= c.height && queue == Level(c, d)
    ensures nextLevel == if d < c.height then Level(c, d + 1) else []
  {
    nextLevel := [];
    for i := 0 to |queue|
      invariant d == c.height ==> nextLevel == []
      invariant d < c.height ==> |nextLevel| == 2 * i && nextLevel == Level(c, d + 1)[..2 * i]
    {
      if queue[i].height == 0 { continue; }
      ChildrenOnNextLevel(c, d, i);
      var (left, right) := queue[i].Children().value;
      nextLevel := nextLevel + [left, right];
    }
  }

  method Descendants(c: Coord, depth: int, includeSelf: bool) returns (r: Result<seq<Coord>>)
    ensures r.ValueError? <==> depth < 0
    ensures r.Ok? ==>
              r.value == (if includeSelf then [c] else []) + LevelsTo(c, if depth < c.height then depth else c.height)
  {
    if depth < 0 { return ValueError("depth must be non-negative"); }
    var own: seq<Coord> := if includeSelf then [c] else [];
    if depth == 0 { return Ok(own); }
    var queue, below: seq<Coord> := [c], [];
    var currentDepth := 0;
    assert Level(c, 0) == [c];
    hide Level;
    while queue != [] && currentDepth < depth
      invariant 0 <= currentDepth <= depth && currentDepth <= c.height + 1
      invariant queue == if currentDepth <= c.height then Level(c, currentDepth) else []
      invariant below == LevelsTo(c, if currentDepth < c.height then currentDepth else c.height)
      decreases depth - currentDepth
    {
      queue := YieldChildren(queue, c, currentDepth);
      below := below + queue;
      currentDepth := currentDepth + 1;
    }
    LevelNotEmpty(c, if currentDepth <= c.height then currentDepth else c.height);
    r := Ok(own + below);
  }

  lemma LevelNotEmpty(c: Coord, d: nat)
    requires d <= c.height
    ensures |Level(c, d)| == Pow2(d) && Level(c, d) != []
  {
  }

  /** The `i`-th coordinate of a level covers the `i`-th stretch of 2^(height - d) leaves of `c`. */
  lemma LevelSpan(c: Coord, d: nat, i: nat)
    requires d <= c.height && i < Pow2(d)
    ensures |Level(c, d)| == Pow2(d)
    ensures Level(c, d)[i].Left() == c.Left() + i * Pow2(c.height - d)
    ensures Level(c, d)[i].Right() == c.Left() + (i + 1) * Pow2(c.height - d) - 1
    ensures c.Right() == c.Left() + Pow2(d) * Pow2(c.height - d) - 1
  {
    var p, q := Pow2(d), Pow2(c.height - d);
    Pow2Sum(d, c.height - d);
    Distribute(c.index * p, i, q);
    Distribute(c.index * p, i + 1, q);
    Distribute(c.index, 1, p * q);
    MulAssociates(c.index, p, q);
    LevelAt(c, d, i);
    hide *;
  }

  lemma LevelAt(c: Coord, d: nat, i: nat)
    requires d <= c.height && i < Pow2(d)
    ensures |Level(c, d)| == Pow2(d)
    ensures Level(c, d)[i].Left() == (c.index * Pow2(d) + i) * Pow2(c.height - d)
    ensures Level(c, d)[i].Right() == (c.index * Pow2(d) + (i + 1)) * Pow2(c.height - d) - 1
    ensures c.Left() == c.index * Pow2(c.height) && c.Right() == (c.index + 1) * Pow2(c.height) - 1
  {
    assert c.index * Pow2(d) + i + 1 == c.index * Pow2(d) + (i + 1);
  }

  lemma Distribute(a: int, b: int, q: int)
    ensures (a + b) * q == a * q + b * q
  {
  }

  lemma LevelNeighbours(c: Coord, d: nat, i: nat)
    requires d <= c.height && i < Pow2(d)
    ensures Level(c, d)[i].Left() <= Level(c, d)[i].Right()
    ensures i + 1 < Pow2(d) ==> Level(c, d)[i].Right() + 1 == Level(c, d)[i + 1].Left()
    ensures i + 1 == Pow2(d) ==> Level(c, d)[i].Right() == c.Right()
    ensures i == 0 ==> Level(c, d)[i].Left() == c.Left()
  {
    var p, q := Pow2(d), Pow2(c.height - d);
    hide Pow2;
    LevelSpan(c, d, i);
    if i + 1 < p { LevelSpan(c, d, i + 1); }
    Distribute(i, 1, q);
  }

  /** The spans of a level follow each other without gap or overlap, from one end of `c`'s span to the other. */
  lemma LevelPartitionsSpan(c: Coord, d: nat)
    requires d <= c.height
    ensures |Level(c, d)| == Pow2(d) && Distinct(Level(c, d))
    ensures Level(c, d)[0].Left() == c.Left() && Level(c, d)[Pow2(d) - 1].Right() == c.Right()
    ensures forall i :: 0 <= i < Pow2(d) ==> Level(c, d)[i].Left() <= Level(c, d)[i].Right()
    ensures forall i :: 0 <= i < Pow2(d) - 1 ==> Level(c, d)[i].Right() + 1 == Level(c, d)[i + 1].Left()
  {
    assert |Level(c, d)| == Pow2(d) && Distinct(Level(c, d));
    hide *;
    LevelNeighbours(c, d, 0);
    LevelNeighbours(c, d, Pow2(d) - 1);
    forall i | 0 <= i < Pow2(d)
      ensures Level(c, d)[i].Left() <= Level(c, d)[i].Right()
      ensures i + 1 < Pow2(d) ==> Level(c, d)[i].Right() + 1 == Level(c, d)[i + 1].Left() {
      LevelNeighbours(c, d, i);
    }
  }

  lemma {:induction false} UpIndex(x: Coord, k: nat)
    ensures Up(x, k).index * Pow2(k) <= x.index < (Up(x, k).index + 1) * Pow2(k)
  {
    if k > 0 {
      UpIndex(x, k - 1);
      var u, p := Up(x, k - 1).index, Pow2(k - 1);
      HalveBounds(u, p, x.index);
      assert Up(x, k).index == u / 2 && Pow2(k) == 2 * p;
    }
  }

  /** The span of `c` holds exactly the leaves that have `c` as their ancestor at its height. */
  lemma LeavesOf(c: Coord, i: nat)
    ensures c.Left() <= i <= c.Right() <==> Up(Coord(c.document, 0, i), c.height) == c
  {
    hide *;
    var leaf := Coord(c.document, 0, i);
    var u := Up(leaf, c.height);
    UpIndex(leaf, c.height);
    UpSpan(leaf, c.height);
    OneStretch(u.index, c.index, Pow2(c.height), i);
    SpanEnds(c);
    assert u == Coord(u.document, u.height, u.index) && c == Coord(c.document, c.height, c.index);
  }

  lemma SpanEnds(c: Coord)
    ensures c.Left() == c.index * Pow2(c.height) && c.Right() == (c.index + 1) * Pow2(c.height) - 1
  {
  }

  /** The stretches of length `p` do not overlap. */
  lemma OneStretch(u: nat, v: nat, p: nat, i: nat)
    requires u * p <= i < (u + 1) * p
    ensures v * p <= i <= (v + 1) * p - 1 <==> u == v
  {
    if u < v { MulMono(u + 1, v, p); }
    if v < u { MulMono(v + 1, u, p); }
  }

  lemma HalveBounds(u: nat, p: nat, i: nat)
    requires u * p <= i < (u + 1) * p
    ensures (u / 2) * (2 * p) <= i < (u / 2 + 1) * (2 * p)
  {
    var q := u / 2;
    MulMono(2 * q, u, p);
    MulMono(u + 1, 2 * q + 2, p);
    assert q * (2 * p) == (2 * q) * p && (q + 1) * (2 * p) == (2 * q + 2) * p;
  }

  /** A level holds exactly the coordinates whose ancestor that many levels up is `c`. */
  lemma LevelMembers(c: Coord, d: nat, x: Coord)
    requires d <= c.height
    ensures x in Level(c, d) <==> x.height == c.height - d && Up(x, d) == c
  {
    UpIndex(x, d);
    UpSpan(x, d);
    var p, u := Pow2(d), Up(x, d).index;
    Distribute(c.index, 1, p);
    if c.index < u { MulMono(c.index + 1, u, p); }
    if u < c.index { MulMono(u + 1, c.index, p); }
    if x.height == c.height - d && Up(x, d) == c {
      assert x == Level(c, d)[x.index - c.index * p];
    }
    if x in Level(c, d) {
      var i :| 0 <= i < p && x == Level(c, d)[i];
    }
  }

  lemma LevelOfAncestor(c: Coord, d: nat, x: Coord)
    requires d <= c.height
    ensures x in Level(c, d) <==> x.height == c.height - d && AncestorOrSelf(c, x)
  {
    LevelMembers(c, d, x);
    if k: nat :| c == Up(x, k) { UpSpan(x, k); }
    if x in Level(c, d) { assert c == Up(x, d); }
  }

  /** What is yielded below `c`: its proper descendants down to `d` levels, each once. */
  lemma {:induction false} DescendantsOnce(c: Coord, d: nat)
    requires d <= c.height
    ensures Distinct(LevelsTo(c, d))
    ensures forall x :: x in LevelsTo(c, d) <==> c.height - d <= x.height < c.height && AncestorOrSelf(c, x)
  {
    if d > 0 {
      DescendantsOnce(c, d - 1);
      LevelPartitionsSpan(c, d);
      forall x ensures x in Level(c, d) <==> x.height == c.height - d && AncestorOrSelf(c, x) {
        LevelOfAncestor(c, d, x);
      }
      assert LevelsTo(c, d) == LevelsTo(c, d - 1) + Level(c, d);
      hide *;
      DistinctConcat(LevelsTo(c, d - 1), Level(c, d));
    }
  }

  lemma DistinctConcat(a: seq<Coord>, b: seq<Coord>)
    requires Distinct(a) && Distinct(b) && forall x :: x in a ==> x !in b
    ensures Distinct(a + b)
    ensures forall x :: x in a + b <==> x in a || x in b
  {
    assert forall i :: 0 <= i < |a| ==> a[i] in a;
    assert forall i :: 0 <= i < |b| ==> b[i] in b;
  }

  // ----- climbing along an edge -----

  /** `a` starts, or ends, at the same leaf as `c`. */
  predicate SharesEdge(a: Coord, c: Coord, leftEdge: bool) {
    if leftEdge then a.Left() == c.Left() else a.Right() == c.Right()
  }

  /** An ancestor that keeps the edge: every step to it leaves from a child on that edge. */
  lemma {:induction false} EdgeSteps(c: Coord, j: nat, k: nat, leftEdge: bool)
    requires j <= k && SharesEdge(Up(c, k), c, leftEdge)
    ensures SharesEdge(Up(c, j), c, leftEdge)
    decreases k - j
  {
    if j < k {
      UpSpan(c, k - 1);
      ParentSpan(Up(c, k - 1));
      EdgeSteps(c, j, k - 1, leftEdge);
    }
  }

  /** What a climb may return `k` levels up: the edge is kept and no height above `maxHeight` is entered. */
  ghost predicate OnBoundary(c: Coord, k: nat, leftEdge: bool, maxHeight: Option<int>) {
    && SharesEdge(Up(c, k), c, leftEdge)
    && (k == 0 || maxHeight.None? || c.height + k <= maxHeight.value)
  }

  ghost predicate InWindow(c: Coord, k: nat, leftEdge: bool, maxHeight: Option<int>, left: int, right: int) {
    OnBoundary(c, k, leftEdge, maxHeight) && Up(c, k).IsWithinLeafRange(left, right)
  }

  /** One level further up the edge is lost, or the height limit is passed; then so it is everywhere above. */
  lemma ClimbEnds(c: Coord, k: nat, leftEdge: bool, maxHeight: Option<int>)
    requires OnBoundary(c, k, leftEdge, maxHeight)
    requires || (maxHeight.Some? && c.height + k >= maxHeight.value)
             || (if leftEdge then !Up(c, k).IsLeftChild() else !Up(c, k).IsRightChild())
    ensures forall j: nat :: j > k ==> !OnBoundary(c, j, leftEdge, maxHeight)
  {
    forall j: nat | j > k ensures !OnBoundary(c, j, leftEdge, maxHeight) {
      if SharesEdge(Up(c, j), c, leftEdge) {
        EdgeSteps(c, k + 1, j, leftEdge);
        ParentSpan(Up(c, k));
      }
    }
  }

  /** `k` is as far as the climb can go. */
  ghost predicate IsHighest(c: Coord, k: nat, leftEdge: bool, maxHeight: Option<int>) {
    OnBoundary(c, k, leftEdge, maxHeight) && forall j: nat :: j > k ==> !OnBoundary(c, j, leftEdge, maxHeight)
  }

  /** Everything above the first coordinate of a level starts at leaf 0. */
  lemma {:induction false} LeftmostPath(c: Coord, k: nat)
    requires c.index == 0
    ensures Up(c, k).index == 0 && OnBoundary(c, k, true, None)
  {
    if k > 0 { LeftmostPath(c, k - 1); }
  }

  lemma {:induction false} HighestExists(c: Coord, k: nat, leftEdge: bool, maxHeight: Option<int>)
    requires OnBoundary(c, k, leftEdge, maxHeight)
    requires maxHeight.None? && leftEdge ==> Up(c, k).index > 0
    ensures exists h: nat :: IsHighest(c, h, leftEdge, maxHeight)
    decreases if maxHeight.Some? then (if c.height + k < maxHeight.value then maxHeight.value - c.height - k else 0)
        else Up(c, k).index
  {
    var u := Up(c, k);
    if (maxHeight.Some? && c.height + k >= maxHeight.value)
        || (if leftEdge then !u.IsLeftChild() else !u.IsRightChild()) {
      ClimbEnds(c, k, leftEdge, maxHeight);
      assert IsHighest(c, k, leftEdge, maxHeight);
    } else {
      ParentSpan(u);
      HighestExists(c, k + 1, leftEdge, maxHeight);
    }
  }

  /** The climb has a highest point except along the left edge of leaf 0 without a height limit. */
  lemma HighestExistsIff(c: Coord, leftEdge: bool, maxHeight: Option<int>)
    ensures (exists k: nat :: IsHighest(c, k, leftEdge, maxHeight)) <==> (maxHeight.Some? || !leftEdge || c.index > 0)
  {
    if maxHeight.Some? || !leftEdge || c.index > 0 {
      HighestExists(c, 0, leftEdge, maxHeight);
    } else if k: nat :| IsHighest(c, k, leftEdge, maxHeight) {
      LeftmostPath(c, k + 1);
    }
  }

  /** Where the climb has no highest point the source does not return, so that case is excluded. */
  method HighestAncestorOnBoundary(c: Coord, leftEdge: bool, maxHeight: Option<int>) returns (r: Coord)
    requires maxHeight.None? && leftEdge ==> c.index > 0
    ensures exists k: nat :: r == Up(c, k) && IsHighest(c, k, leftEdge, maxHeight)
  {
    r := c;
    ghost var k: nat := 0;
    while true
      invariant r == Up(c, k) && r.height == c.height + k && OnBoundary(c, k, leftEdge, maxHeight)
      invariant maxHeight.None? && leftEdge ==> r.index > 0
      decreases if maxHeight.Some? then maxHeight.value - r.height else r.index
    {
      if maxHeight.Some? && r.height >= maxHeight.value {
        ClimbEnds(c, k, leftEdge, maxHeight);
        break;
      }
      if leftEdge && !r.IsLeftChild() {
        ClimbEnds(c, k, leftEdge, maxHeight);
        break;
      }
      if !leftEdge && !r.IsRightChild() {
        ClimbEnds(c, k, leftEdge, maxHeight);
        break;
      }
      ParentSpan(r);
      r := r.Parent();
      k := k + 1;
    }
  }

  lemma {:induction false} SpansGrow(c: Coord, j: nat, k: nat)
    requires j <= k
    ensures SpanInside(Up(c, j), Up(c, k))
  {
    if j < k {
      SpansGrow(c, j, k - 1);
      ParentSpan(Up(c, k - 1));
    }
  }

  /** What the windowed climb may return: besides, a step up never takes the other edge out of the window. */
  ghost predicate WithinOtherEdge(c: Coord, k: nat, leftEdge: bool, maxHeight: Option<int>, left: int, right: int) {
    && OnBoundary(c, k, leftEdge, maxHeight)
    && (k == 0 || if leftEdge then Up(c, k).Right() <= right else left <= Up(c, k).Left())
  }

  /** From inside the window that is the same as staying inside the window. */
  lemma OtherEdgeSuffices(c: Coord, k: nat, leftEdge: bool, maxHeight: Option<int>, left: int, right: int)
    requires c.IsWithinLeafRange(left, right)
    ensures WithinOtherEdge(c, k, leftEdge, maxHeight, left, right)
            <==> InWindow(c, k, leftEdge, maxHeight, left, right)
  {
  }

  /**
     The result is the highest ancestor-or-self that keeps the edge, respects the height limit and has not
     been taken past the other edge of the window; no limit is needed for the climb to end. Starting inside
     the window, it is the highest such ancestor-or-self inside the window.
   */
  method HighestAncestorWithinWindow(c: Coord, leftEdge: bool, left: int, right: int, maxHeight: Option<int>)
    returns (r: Coord)
    ensures exists k: nat ::
              && r == Up(c, k)
              && WithinOtherEdge(c, k, leftEdge, maxHeight, left, right)
              && forall j: nat :: j > k ==> !WithinOtherEdge(c, j, leftEdge, maxHeight, left, right)
    ensures c.IsWithinLeafRange(left, right) ==>
              exists k: nat ::
                && r == Up(c, k)
                && InWindow(c, k, leftEdge, maxHeight, left, right)
                && forall j: nat :: j > k ==> !InWindow(c, j, leftEdge, maxHeight, left, right)
  {
    r := c;
    ghost var k: nat := 0;
    while true
      invariant r == Up(c, k) && r.height == c.height + k
      invariant WithinOtherEdge(c, k, leftEdge, maxHeight, left, right)
      decreases if leftEdge then right - r.Right() else r.Left() - left
    {
      if maxHeight.Some? && r.height >= maxHeight.value {
        ClimbEnds(c, k, leftEdge, maxHeight);
        break;
      }
      if leftEdge && !r.IsLeftChild() {
        ClimbEnds(c, k, leftEdge, maxHeight);
        break;
      }
      if !leftEdge && !r.IsRightChild() {
        ClimbEnds(c, k, leftEdge, maxHeight);
        break;
      }
      var parent := r.Parent();
      var (parentLeft, parentRight) := parent.LeafSpan();
      ParentSpan(r);
      if (if leftEdge then parentRight > right else parentLeft < left) {
        forall j: nat | j > k ensures !WithinOtherEdge(c, j, leftEdge, maxHeight, left, right) {
          SpansGrow(c, k + 1, j);
        }
        break;
      }
      r := parent;
      k := k + 1;
    }
    if c.IsWithinLeafRange(left, right) {
      forall j: nat
        ensures WithinOtherEdge(c, j, leftEdge, maxHeight, left, right)
                <==> InWindow(c, j, leftEdge, maxHeight, left, right) {
        OtherEdgeSuffices(c, j, leftEdge, maxHeight, left, right);
      }
      assert InWindow(c, k, leftEdge, maxHeight, left, right);
    }
  }

  // ----- de-duplication -----

  method Unique(coordinates: seq<Coord>) returns (ordered: seq<Coord>)
    ensures ordered == FirstOccurrences(coordinates)
  {
    var seen: set<(Option<string>, nat, nat)> := {};
    ordered := [];
    for i := 0 to |coordinates|
      invariant forall x: Coord :: (x.document, x.height, x.index) in seen <==> x in coordinates[..i]
      invariant ordered == FirstOccurrences(coordinates[..i])
    {
      var coord := coordinates[i];
      var key := (coord.document, coord.height, coord.index);
      assert coordinates[..i + 1][..i] == coordinates[..i];
      assert coordinates[..i + 1] == coordinates[..i] + [coord];
      if key in seen { continue; }
      seen := seen + {key};
      ordered := ordered + [coord];
    }
    assert coordinates[..|coordinates|] == coordinates;
  }
}
