/**
 Cuts of the forest in tree order. A cut is the top of a set of nodes that is closed under children and
 contains the bottom nodes; read from left to right its spans run through the document.
 */
module TreeOrder {
  import opened Options
  import opened Sorting
  import opened Forest
  import opened Slices
  import opened Spans

  ghost predicate IsCut(nodes: Nodes, s: set<Id>) {
    ChildClosed(nodes, s) && Bottom(nodes) <= s
  }

  /** `x` is on the cut or above it. */
  ghost predicate AtOrAbove(nodes: Nodes, s: set<Id>, x: Id)
    requires s <= nodes.Keys
  {
    x in nodes && (x in s ==> x in Top(nodes, s))
  }

  /** The right child, unless it is the left one as well. */
  function OtherChild(nodes: Nodes, x: Id): Option<Id>
    requires x in nodes
  {
    if SharesChild(nodes, x) then None else Child(nodes, nodes[x].right)
  }

  /** The members of `f` at or below `x`, from left to right. */
  ghost function Yield(nodes: Nodes, f: set<Id>, x: Id): seq<Id>
    requires WellFormed(nodes) && x in nodes
    decreases Deeper(nodes, x), 1
  {
    if x in f then [x] else
      ChildrenAreSides(nodes, x);
      SideYield(nodes, f, x, Child(nodes, nodes[x].left)) + SideYield(nodes, f, x, OtherChild(nodes, x))
  }

  ghost function SideYield(nodes: Nodes, f: set<Id>, x: Id, child: Option<Id>): seq<Id>
    requires WellFormed(nodes) && IsSide(nodes, x, child)
    decreases Deeper(nodes, x), 0
  {
    if child.None? then [] else
      DeeperShrinks(nodes, x, child.value);
      Yield(nodes, f, child.value)
  }

  ghost function YieldAll(nodes: Nodes, f: set<Id>, xs: seq<Id>): seq<Id>
    requires WellFormed(nodes) && forall x :: x in xs ==> x in nodes
  {
    if xs == [] then [] else
      assert xs[0] in xs;
      Yield(nodes, f, xs[0]) + YieldAll(nodes, f, xs[1..])
  }

  lemma YieldUnfold(nodes: Nodes, f: set<Id>, x: Id)
    requires WellFormed(nodes) && x in nodes
    ensures IsSide(nodes, x, Child(nodes, nodes[x].left)) && IsSide(nodes, x, OtherChild(nodes, x))
    ensures Yield(nodes, f, x) == if x in f then [x] else
              SideYield(nodes, f, x, Child(nodes, nodes[x].left)) + SideYield(nodes, f, x, OtherChild(nodes, x))
  {
    ChildrenAreSides(nodes, x);
  }

  lemma YieldAllUnfold(nodes: Nodes, f: set<Id>, xs: seq<Id>)
    requires WellFormed(nodes) && (forall x :: x in xs ==> x in nodes) && xs != []
    ensures xs[0] in nodes && (forall x :: x in xs[1..] ==> x in nodes)
    ensures YieldAll(nodes, f, xs) == Yield(nodes, f, xs[0]) + YieldAll(nodes, f, xs[1..])
    ensures |xs| == 1 ==> YieldAll(nodes, f, xs[1..]) == []
  {
    assert xs[0] in xs;
  }

  /** A node above the cut has a covered child, and its covered children are on the cut or above it. */
  lemma InnerHasChild(nodes: Nodes, s: set<Id>, x: Id)
    requires WellFormed(nodes) && s <= nodes.Keys && IsCut(nodes, s)
    requires AtOrAbove(nodes, s, x) && x !in Top(nodes, s)
    ensures Kids(nodes, x) != {} && forall c :: c in Kids(nodes, x) ==> AtOrAbove(nodes, s, c)
    ensures Child(nodes, nodes[x].left).Some? || OtherChild(nodes, x).Some?
    ensures forall c :: c in Kids(nodes, x)
              <==> Child(nodes, nodes[x].left) == Some(c) || OtherChild(nodes, x) == Some(c)
  {
    assert x !in Bottom(nodes);
    var c :| c in Kids(nodes, x);
    forall c | c in Kids(nodes, x) ensures AtOrAbove(nodes, s, c) && c == Id(c.name) && c.name != "" {
      assert c == Id(c.name);
    }
  }

  // ----- the members of a yield -----

  /** The members of `f` that are `x` or have it as an ancestor. */
  ghost function Below(nodes: Nodes, f: set<Id>, x: Id): set<Id>
    requires WellFormed(nodes) && f <= nodes.Keys
  {
    set y | y in f && AncestorOrSelf(nodes, x, y)
  }

  /** The yield of a node on or above the cut lists exactly the members of the cut at or below it. */
  lemma {:induction false} YieldMembers(nodes: Nodes, s: set<Id>, x: Id)
    requires WellFormed(nodes) && s <= nodes.Keys && IsCut(nodes, s) && AtOrAbove(nodes, s, x)
    ensures forall y :: y in Yield(nodes, Top(nodes, s), x) <==> y in Below(nodes, Top(nodes, s), x)
    decreases Deeper(nodes, x)
  {
    var f := Top(nodes, s);
    YieldUnfold(nodes, f, x);
    hide Yield;
    if x in f {
      OnlySelfBelow(nodes, s, x);
    } else {
      InnerHasChild(nodes, s, x);
      forall c | c in Kids(nodes, x) ensures forall y :: y in Yield(nodes, f, c) <==> y in Below(nodes, f, c) {
        DeeperShrinks(nodes, x, c);
        YieldMembers(nodes, s, c);
      }
      BelowIsBelowKids(nodes, f, x);
      hide Below;
      hide WellFormed;
      hide Kids;
    }
  }

  lemma OnlySelfBelow(nodes: Nodes, s: set<Id>, x: Id)
    requires WellFormed(nodes) && s <= nodes.Keys && IsCut(nodes, s) && x in Top(nodes, s)
    ensures Below(nodes, Top(nodes, s), x) == {x}
  {
    forall y | y in Below(nodes, Top(nodes, s), x) ensures y == x {
      if y != x {
        var p := nodes[y].parent.value;
        assert y in Kids(nodes, p);
        ClosedBelow(nodes, s, x, p);
      }
    }
  }

  lemma BelowIsBelowKids(nodes: Nodes, f: set<Id>, x: Id)
    requires WellFormed(nodes) && f <= nodes.Keys && x in nodes && x !in f
    ensures forall y :: y in Below(nodes, f, x) <==> exists c :: c in Kids(nodes, x) && y in Below(nodes, f, c)
  {
    forall y | y in Below(nodes, f, x) ensures exists c :: c in Kids(nodes, x) && y in Below(nodes, f, c) {
      var c := ChildTowards(nodes, x, y);
      assert y in Below(nodes, f, c);
    }
    forall y, c | c in Kids(nodes, x) && y in Below(nodes, f, c) ensures y in Below(nodes, f, x) {
      ThroughParent(nodes, x, c, y);
    }
  }

  lemma {:induction false} YieldAllMembers(nodes: Nodes, s: set<Id>, xs: seq<Id>)
    requires WellFormed(nodes) && s <= nodes.Keys && IsCut(nodes, s)
    requires (forall x :: x in xs ==> x in nodes) && (forall x :: x in xs ==> AtOrAbove(nodes, s, x))
    ensures forall y :: y in YieldAll(nodes, Top(nodes, s), xs)
              <==> exists x :: x in xs && y in Below(nodes, Top(nodes, s), x)
  {
    hide *;
    var f := Top(nodes, s);
    if xs == [] {
      YieldAllOfNone(nodes, f, xs);
    } else {
      YieldAllUnfold(nodes, f, xs);
      assert xs == [xs[0]] + xs[1..];
      YieldMembers(nodes, s, xs[0]);
      YieldAllMembers(nodes, s, xs[1..]);
    }
  }

  lemma YieldAllOfNone(nodes: Nodes, f: set<Id>, xs: seq<Id>)
    requires WellFormed(nodes) && xs == []
    ensures YieldAll(nodes, f, xs) == []
  {
  }

  lemma RootsAreAbove(nodes: Nodes, s: set<Id>, roots: seq<Id>)
    requires s <= nodes.Keys && forall x :: x in roots <==> x in Roots(nodes)
    ensures forall x :: x in roots ==> x in nodes && AtOrAbove(nodes, s, x)
  {
  }

  /** Below the roots lies the whole cut. */
  lemma RootsYieldCut(nodes: Nodes, s: set<Id>, roots: seq<Id>)
    requires WellFormed(nodes) && s <= nodes.Keys && IsCut(nodes, s) && forall x :: x in roots <==> x in Roots(nodes)
    ensures forall y :: y in YieldAll(nodes, Top(nodes, s), roots) <==> y in Top(nodes, s)
  {
    RootsAreAbove(nodes, s, roots);
    YieldAllMembers(nodes, s, roots);
    hide YieldAll;
    forall y | y in Top(nodes, s) ensures exists x :: x in roots && y in Below(nodes, Top(nodes, s), x) {
      var t := UniqueTop(nodes, nodes.Keys, y);
      assert t in Roots(nodes) && y in Below(nodes, Top(nodes, s), t);
    }
  }

  /** The nodes at or below two nodes, and the bottom of the forest. */
  ghost function CutThrough(nodes: Nodes, a: Id, b: Id): set<Id>
    requires WellFormed(nodes)
  {
    set y | y in nodes && (y in Bottom(nodes) || AncestorOrSelf(nodes, a, y) || AncestorOrSelf(nodes, b, y))
  }

  lemma CutThroughIsCut(nodes: Nodes, a: Id, b: Id)
    requires WellFormed(nodes)
    ensures CutThrough(nodes, a, b) <= nodes.Keys && IsCut(nodes, CutThrough(nodes, a, b))
  {
    var s := CutThrough(nodes, a, b);
    forall p, c | p in s && c in Kids(nodes, p) ensures c in s {
      assert nodes[c].parent == Some(p);
      assert forall x :: AncestorOrSelf(nodes, x, p) ==> AncestorOrSelf(nodes, x, c);
    }
  }

  /** Through two children of one node goes a cut. */
  lemma SiblingsOnCut(nodes: Nodes, p: Id, a: Id, b: Id)
    requires WellFormed(nodes) && p in nodes && a in Kids(nodes, p) && b in Kids(nodes, p)
    ensures CutThrough(nodes, a, b) <= nodes.Keys
    ensures a in Top(nodes, CutThrough(nodes, a, b)) && b in Top(nodes, CutThrough(nodes, a, b))
  {
    var s := CutThrough(nodes, a, b);
    assert nodes[a].parent == Some(p) == nodes[b].parent;
    assert AncestorOrSelf(nodes, a, a) && AncestorOrSelf(nodes, b, b);
    if AncestorOrSelf(nodes, a, p) { AncestorNotDeeper(nodes, a, p); }
    if AncestorOrSelf(nodes, b, p) { AncestorNotDeeper(nodes, b, p); }
    assert p !in s;
  }

  // ----- spans -----

  /** Both children of `p` are covered, their spans join, and together they fill the span of `p`. */
  ghost predicate KidsFill(nodes: Nodes, p: Id, text: string, isSpace: char -> bool)
    requires p in nodes
  {
    var left, right := nodes[p].left, nodes[p].right;
    && left.Some? && right.Some? && left.value in nodes && right.value in nodes
    && Start(nodes, left.value) == Start(nodes, p)
    && End(nodes, right.value) == End(nodes, p)
    && (left == right || Joins(nodes, left.value, right.value, text, isSpace))
  }

  /** Coverage is sibling-closed, spans are non-empty, and children fill their parent but for whitespace of the text. */
  ghost predicate SpansFill(nodes: Nodes, text: string, isSpace: char -> bool) {
    forall p :: p in nodes
      ==> Start(nodes, p) < End(nodes, p) && (Kids(nodes, p) == {} || KidsFill(nodes, p, text, isSpace))
  }

  /** The yield of a node on or above the cut runs from one end of its span to the other. */
  lemma {:induction false} YieldRuns(nodes: Nodes, s: set<Id>, x: Id, text: string, isSpace: char -> bool)
    requires WellFormed(nodes) && SpansFill(nodes, text, isSpace) && s <= nodes.Keys && IsCut(nodes, s)
             && AtOrAbove(nodes, s, x)
    ensures Runs(nodes, Yield(nodes, Top(nodes, s), x), Start(nodes, x), End(nodes, x), text, isSpace)
    decreases Deeper(nodes, x)
  {
    var f := Top(nodes, s);
    YieldUnfold(nodes, f, x);
    if x !in f {
      InnerHasChild(nodes, s, x);
      assert KidsFill(nodes, x, text, isSpace);
      var l, r := nodes[x].left.value, nodes[x].right.value;
      assert l in Kids(nodes, x) && r in Kids(nodes, x) && Child(nodes, nodes[x].left) == Some(l);
      DeeperShrinks(nodes, x, l);
      DeeperShrinks(nodes, x, r);
      hide Yield;
      hide Runs;
      hide WellFormed;
      hide IsCut;
      YieldRuns(nodes, s, l, text, isSpace);
      if l == r {
        assert Yield(nodes, f, l) + [] == Yield(nodes, f, l);
      } else {
        YieldRuns(nodes, s, r, text, isSpace);
        RunsConcat(nodes, Yield(nodes, f, l), Yield(nodes, f, r),
                   Start(nodes, x), End(nodes, l), Start(nodes, r), End(nodes, x), text, isSpace);
      }
    }
  }

  lemma RunsRest(nodes: Nodes, xs: seq<Id>, lo: int, hi: int, text: string, isSpace: char -> bool)
    requires Runs(nodes, xs, lo, hi, text, isSpace)
    ensures Start(nodes, xs[0]) == lo
    ensures |xs| > 1
            ==> Runs(nodes, xs[1..], Start(nodes, xs[1]), hi, text, isSpace)
                && Joins(nodes, xs[0], xs[1], text, isSpace)
    ensures |xs| == 1 ==> End(nodes, xs[0]) == hi
  {
  }

  lemma {:induction false} YieldAllRuns(nodes: Nodes, s: set<Id>, xs: seq<Id>, lo: int, hi: int, text: string,
                                        isSpace: char -> bool)
    requires WellFormed(nodes) && SpansFill(nodes, text, isSpace) && s <= nodes.Keys && IsCut(nodes, s)
    requires (forall x :: x in xs ==> x in nodes) && (forall x :: x in xs ==> AtOrAbove(nodes, s, x))
    requires xs != [] && Runs(nodes, xs, lo, hi, text, isSpace)
    ensures Runs(nodes, YieldAll(nodes, Top(nodes, s), xs), lo, hi, text, isSpace)
  {
    hide *;
    var f := Top(nodes, s);
    assert xs[0] in xs;
    YieldAllUnfold(nodes, f, xs);
    YieldRuns(nodes, s, xs[0], text, isSpace);
    RunsRest(nodes, xs, lo, hi, text, isSpace);
    if |xs| == 1 {
      assert Yield(nodes, f, xs[0]) + [] == Yield(nodes, f, xs[0]);
    } else {
      YieldAllRuns(nodes, s, xs[1..], Start(nodes, xs[1]), hi, text, isSpace);
      JoinsMeaning(nodes, xs[0], xs[1], text, isSpace);
      RunsConcat(nodes, Yield(nodes, f, xs[0]), YieldAll(nodes, f, xs[1..]),
                 lo, End(nodes, xs[0]), Start(nodes, xs[1]), hi, text, isSpace);
    }
  }

  lemma JoinsMeaning(nodes: Nodes, a: Id, b: Id, text: string, isSpace: char -> bool)
    requires Joins(nodes, a, b, text, isSpace)
    ensures End(nodes, a) <= Start(nodes, b) && OnlySpace(text, isSpace, End(nodes, a), Start(nodes, b))
  {
  }

  // ----- listings -----

  /** The sort key `(span_start, id)`. */
  function DocumentOrder(nodes: Nodes): (Id, Id) -> bool {
    (a, b) => Start(nodes, a) < Start(nodes, b)
              || (Start(nodes, a) == Start(nodes, b) && !IdLess(b, a))
  }

  lemma DocumentOrderIsTotal(nodes: Nodes)
    ensures TotalPreorder(DocumentOrder(nodes)) && Antisymmetric(DocumentOrder(nodes))
  {
    IdLessIsTotalOrder();
  }

  /** `s` lists the set `ids` once each in document order. */
  ghost predicate Lists(nodes: Nodes, s: seq<Id>, ids: set<Id>) {
    && Distinct(s)
    && Sorted(DocumentOrder(nodes), s)
    && forall x :: x in s <==> x in ids
  }

  /** A set has only one such listing, whatever order it was iterated in. */
  lemma ListingIsUnique(nodes: Nodes, s: seq<Id>, t: seq<Id>, ids: set<Id>)
    requires Lists(nodes, s, ids) && Lists(nodes, t, ids)
    ensures s == t
  {
    DocumentOrderIsTotal(nodes);
    SortedUnique(DocumentOrder(nodes), s, t);
  }

  /** The order of the listing in the fields of the nodes: by span start, then by id. */
  ghost predicate ListedBefore(nodes: Nodes, x: Id, y: Id) {
    && x in nodes && y in nodes
    && (|| nodes[x].spanStart < nodes[y].spanStart
        || (nodes[x].spanStart == nodes[y].spanStart && NamePrecedes(x.name, y.name)))
  }

  lemma ListedOrder(nodes: Nodes, x: Id, y: Id)
    requires x in nodes && y in nodes && x != y && DocumentOrder(nodes)(x, y)
    ensures ListedBefore(nodes, x, y)
  {
    assert x == Id(x.name) && y == Id(y.name);
    assert !IdLess(y, x) || Start(nodes, x) < Start(nodes, y);
    NameLessIsStrict(x.name, y.name);
    NameLessMeaning(x.name, y.name);
    hide NameLess;
    hide NamePrecedes;
  }

  lemma SortLists(nodes: Nodes, s: seq<Id>)
    requires Distinct(s)
    ensures Lists(nodes, StableSort(DocumentOrder(nodes), s), set x | x in s)
  {
    DocumentOrderIsTotal(nodes);
    SortSorts(DocumentOrder(nodes), s);
    SortDistinct(DocumentOrder(nodes), s);
  }

  lemma {:induction false} Enumerate(ids: set<Id>) returns (s: seq<Id>)
    ensures Distinct(s) && forall x :: x in s <==> x in ids
  {
    s := [];
    if x :| x in ids {
      var t := Enumerate(ids - {x});
      s := [x] + t;
    }
  }

  lemma SomeListing(nodes: Nodes, ids: set<Id>) returns (s: seq<Id>)
    ensures Lists(nodes, s, ids)
  {
    var t := Enumerate(ids);
    assert ids == set x | x in t;
    SortLists(nodes, t);
    s := StableSort(DocumentOrder(nodes), t);
  }

  /** Spans that run through a stretch list their nodes in document order. */
  lemma RunsLists(nodes: Nodes, s: seq<Id>, ids: set<Id>, lo: int, hi: int, text: string, isSpace: char -> bool)
    requires Runs(nodes, s, lo, hi, text, isSpace) && (forall x :: x in s <==> x in ids)
    requires forall x :: x in ids ==> Start(nodes, x) < End(nodes, x)
    ensures Lists(nodes, s, ids)
  {
    forall i | 0 <= i < |s| ensures Start(nodes, s[i]) < End(nodes, s[i]) { assert s[i] in s; }
    hide Runs;
    forall i, j | 0 <= i < j < |s| ensures Start(nodes, s[i]) < Start(nodes, s[j]) {
      RunsForward(nodes, s, lo, hi, text, isSpace, i, j);
    }
  }

  /**
     Where children fill their parents but for whitespace, every cut runs through the document as its roots
     do; the gap between neighbours of the cut is the gap between two siblings or two roots.
   */
  lemma CutRuns(nodes: Nodes, s: set<Id>, order: seq<Id>, roots: seq<Id>, lo: int, hi: int, text: string,
                isSpace: char -> bool)
    requires WellFormed(nodes) && SpansFill(nodes, text, isSpace) && s <= nodes.Keys && IsCut(nodes, s)
    requires Lists(nodes, order, Top(nodes, s))
    requires (forall x :: x in roots <==> x in Roots(nodes)) && Runs(nodes, roots, lo, hi, text, isSpace)
    ensures order == YieldAll(nodes, Top(nodes, s), roots)
    ensures Runs(nodes, order, lo, hi, text, isSpace)
  {
    var f := Top(nodes, s);
    RootsAreAbove(nodes, s, roots);
    assert roots != [] && forall x :: x in f ==> x in nodes;
    assert forall x :: x in f ==> Start(nodes, x) < End(nodes, x);
    hide *;
    YieldAllRuns(nodes, s, roots, lo, hi, text, isSpace);
    RootsYieldCut(nodes, s, roots);
    RunsLists(nodes, YieldAll(nodes, f, roots), f, lo, hi, text, isSpace);
    ListingIsUnique(nodes, order, YieldAll(nodes, f, roots), f);
  }
}
