/**
 The coverage forest a query works on: a dictionary of tree nodes with parent and
 child pointers (`ragzoom/contracts/tree_node.py`). A node of the document that is
 not in the dictionary is not covered, so a pointer may lead out of it.
 */
module Forest {
  import opened Options

  /** A node id, ordered as Python orders strings. */
  datatype Id = Id(name: string)

  predicate NameLess(a: string, b: string) {
    if b == "" then false
    else if a == "" then true
    else if a[0] != b[0] then a[0] < b[0]
    else NameLess(a[1..], b[1..])
  }

  predicate IdLess(a: Id, b: Id) {
    NameLess(a.name, b.name)
  }

  lemma {:induction false} NameLessIsStrict(a: string, b: string)
    ensures NameLess(a, b) ==> a != b && !NameLess(b, a)
    ensures NameLess(a, b) || NameLess(b, a) || a == b
  {
    if a != "" && b != "" {
      NameLessIsStrict(a[1..], b[1..]);
      if a[0] == b[0] && a[1..] == b[1..] {
        assert a == [a[0]] + a[1..] == b;
      }
    }
  }

  lemma {:induction false} NameLessTransitive(a: string, b: string, c: string)
    requires NameLess(a, b) && NameLess(b, c)
    ensures NameLess(a, c)
  {
    if a != "" && a[0] == b[0] == c[0] {
      NameLessTransitive(a[1..], b[1..], c[1..]);
    }
  }

  /** `a` is a proper prefix of `b`, or has the smaller character at the first position where they differ. */
  ghost predicate NamePrecedes(a: string, b: string) {
    (|a| < |b| && a == b[..|a|]) || exists k: nat :: SmallerAt(a, b, k)
  }

  ghost predicate SmallerAt(a: string, b: string, k: nat) {
    k < |a| && k < |b| && a[..k] == b[..k] && a[k] < b[k]
  }

  lemma SmallerInTail(a: string, b: string, k: nat)
    requires a != "" && b != "" && a[0] == b[0]
    ensures !SmallerAt(a, b, 0) && (SmallerAt(a[1..], b[1..], k) <==> SmallerAt(a, b, k + 1))
  {
    if k + 1 <= |a| && k + 1 <= |b| {
      assert a[..k + 1] == [a[0]] + a[1..][..k] && b[..k + 1] == [b[0]] + b[1..][..k];
    }
  }

  lemma PrecedesInTail(a: string, b: string)
    requires a != "" && b != "" && a[0] == b[0]
    ensures NamePrecedes(a, b) <==> NamePrecedes(a[1..], b[1..])
  {
    forall k: nat ensures !SmallerAt(a, b, 0) && (SmallerAt(a[1..], b[1..], k) <==> SmallerAt(a, b, k + 1)) {
      SmallerInTail(a, b, k);
    }
    if k: nat :| SmallerAt(a, b, k) { assert k > 0 && SmallerAt(a[1..], b[1..], k - 1); }
    if k: nat :| SmallerAt(a[1..], b[1..], k) { assert SmallerAt(a, b, k + 1); }
    hide SmallerAt;
    assert a == [a[0]] + a[1..] && b == [b[0]] + b[1..];
    if |a| < |b| { assert b[..|a|] == [b[0]] + b[1..][..|a| - 1]; }
  }

  /** The recursive comparison is that of the first difference. */
  lemma {:induction false} NameLessMeaning(a: string, b: string)
    ensures NameLess(a, b) <==> NamePrecedes(a, b)
  {
    if a != "" && b != "" && a[0] == b[0] {
      NameLessMeaning(a[1..], b[1..]);
      PrecedesInTail(a, b);
      hide NamePrecedes;
    } else if a != "" && b != "" && a[0] < b[0] {
      assert SmallerAt(a, b, 0);
    }
  }

  /** `IdLess` is a strict total order. */
  lemma IdLessIsTotalOrder()
    ensures forall a, b :: IdLess(a, b) ==> a != b && !IdLess(b, a)
    ensures forall a, b :: IdLess(a, b) || IdLess(b, a) || a == b
    ensures forall a, b, c :: IdLess(a, b) && IdLess(b, c) ==> IdLess(a, c)
  {
    forall a: Id, b: Id ensures IdLess(a, b) ==> a != b && !IdLess(b, a)
                        ensures IdLess(a, b) || IdLess(b, a) || a == b {
      NameLessIsStrict(a.name, b.name);
    }
    forall a: Id, b: Id, c: Id | IdLess(a, b) && IdLess(b, c) ensures IdLess(a, c) {
      NameLessTransitive(a.name, b.name, c.name);
    }
  }

  datatype Node = Node(
    parent: Option<Id>,
    left: Option<Id>,
    right: Option<Id>,
    spanStart: int,
    spanEnd: int,
    tokens: int)

  type Nodes = map<Id, Node>

  /** The covered children of a covered node: a pointer may be `None` or lead out of the dictionary. */
  function Kids(nodes: Nodes, p: Id): set<Id>
    requires p in nodes
  {
    set c | c in nodes && (nodes[p].left == Some(c) || nodes[p].right == Some(c))
  }

  /** The parent of `x` is a member of `s`. */
  predicate ParentIn(s: set<Id>, nodes: Nodes, x: Id)
    requires x in nodes
  {
    nodes[x].parent.Some? && nodes[x].parent.value in s
  }

  /** The covered nodes whose parent is not covered; `_find_coverage_root_ids` computes them. */
  function Roots(nodes: Nodes): set<Id> {
    set x | x in nodes && !ParentIn(nodes.Keys, nodes, x)
  }

  /** The covered nodes without covered children. */
  function Bottom(nodes: Nodes): set<Id> {
    set x | x in nodes && Kids(nodes, x) == {}
  }

  /** Parent and child pointers agree inside the dictionary. */
  ghost predicate PointersAgree(nodes: Nodes) {
    forall p, c {:trigger c in Kids(nodes, p)} ::
      p in nodes && c in nodes ==> (c in Kids(nodes, p) <==> nodes[c].parent == Some(p))
  }

  ghost predicate DepthOrder(nodes: Nodes, depth: map<Id, nat>) {
    && depth.Keys == nodes.Keys
    && forall p, c {:trigger c in Kids(nodes, p)} :: p in nodes && c in Kids(nodes, p) ==> depth[p] < depth[c]
  }

  /** No node is its own ancestor: depths can be given out that grow from parent to child. */
  ghost predicate Acyclic(nodes: Nodes) {
    exists depth :: DepthOrder(nodes, depth)
  }

  ghost function Depth(nodes: Nodes): (depth: map<Id, nat>)
    requires Acyclic(nodes)
    ensures DepthOrder(nodes, depth)
  {
    var depth :| DepthOrder(nodes, depth);
    depth
  }

  /** What a coverage dictionary has to satisfy; nothing is assumed of scores, token counts or spans. */
  ghost predicate WellFormed(nodes: Nodes) {
    && Id("") !in nodes
    && PointersAgree(nodes)
    && Acyclic(nodes)
  }

  /** `a` is `x` or is reached from `x` by following parent pointers. */
  ghost predicate AncestorOrSelf(nodes: Nodes, a: Id, x: Id)
    requires WellFormed(nodes) && x in nodes
    decreases Depth(nodes)[x]
  {
    a == x ||
    (ParentIn(nodes.Keys, nodes, x) &&
     var p := nodes[x].parent.value;
     assert x in Kids(nodes, p);
     AncestorOrSelf(nodes, a, p))
  }

  /** A set that contains, with every node, the children of that node. */
  ghost predicate ChildClosed(nodes: Nodes, s: set<Id>) {
    && s <= nodes.Keys
    && forall p, c :: p in s && c in Kids(nodes, p) ==> c in s
  }

  /** The members of `s` that have no parent in `s`. */
  ghost function Top(nodes: Nodes, s: set<Id>): set<Id>
    requires s <= nodes.Keys
  {
    set x | x in s && !ParentIn(s, nodes, x)
  }

  lemma {:induction false} ClosedBelow(nodes: Nodes, s: set<Id>, a: Id, x: Id)
    requires WellFormed(nodes) && ChildClosed(nodes, s) && a in s && x in nodes
    requires AncestorOrSelf(nodes, a, x)
    ensures x in s
    decreases Depth(nodes)[x]
  {
    if a != x {
      var p := nodes[x].parent.value;
      assert x in Kids(nodes, p);
      ClosedBelow(nodes, s, a, p);
    }
  }

  /** Every member of a child-closed set has exactly one ancestor-or-self in the top of the set. */
  lemma {:induction false} UniqueTop(nodes: Nodes, s: set<Id>, x: Id) returns (t: Id)
    requires WellFormed(nodes) && ChildClosed(nodes, s) && x in s
    ensures t in Top(nodes, s) && AncestorOrSelf(nodes, t, x)
    ensures forall u :: u in Top(nodes, s) && AncestorOrSelf(nodes, u, x) ==> u == t
    decreases Depth(nodes)[x]
  {
    if !ParentIn(nodes.Keys, nodes, x) {
      t := x;
    } else {
      var p := nodes[x].parent.value;
      assert x in Kids(nodes, p);
      if p in s {
        t := UniqueTop(nodes, s, p);
        assert x !in Top(nodes, s);
      } else {
        t := x;
        forall u | u in Top(nodes, s) && AncestorOrSelf(nodes, u, x) ensures u == x {
          if AncestorOrSelf(nodes, u, p) { ClosedBelow(nodes, s, u, p); }
        }
      }
    }
  }

  /** A finite non-empty set of nodes has a deepest member. */
  lemma {:induction false} Deepest(nodes: Nodes, s: set<Id>) returns (x: Id)
    requires WellFormed(nodes) && s <= nodes.Keys && s != {}
    ensures x in s && forall y :: y in s ==> Depth(nodes)[y] <= Depth(nodes)[x]
  {
    x :| x in s;
    if s != {x} {
      var y := Deepest(nodes, s - {x});
      if Depth(nodes)[x] < Depth(nodes)[y] { x := y; }
    }
  }

  /** The nodes that lie deeper than `x`; going down to a child, the set gets smaller. */
  ghost function Deeper(nodes: Nodes, x: Id): set<Id>
    requires WellFormed(nodes) && x in nodes
  {
    set y | y in nodes && Depth(nodes)[x] < Depth(nodes)[y]
  }

  lemma DeeperShrinks(nodes: Nodes, p: Id, c: Id)
    requires WellFormed(nodes) && p in nodes && c in Kids(nodes, p)
    ensures Deeper(nodes, c) < Deeper(nodes, p)
  {
    assert c in Deeper(nodes, p) && c !in Deeper(nodes, c);
  }

  // ----- sums over sets of nodes -----

  /** The sum of `f` over a finite set. */
  ghost function Sum(f: Id -> int, s: set<Id>): int {
    if s == {} then 0 else
      var x :| x in s;
      f(x) + Sum(f, s - {x})
  }

  lemma {:induction false} SumRemove(f: Id -> int, s: set<Id>, x: Id)
    requires x in s
    ensures Sum(f, s) == f(x) + Sum(f, s - {x})
  {
    var y :| y in s && Sum(f, s) == f(y) + Sum(f, s - {y});
    if y != x {
      SumRemove(f, s - {y}, x);
      SumRemove(f, s - {x}, y);
      assert s - {x} - {y} == s - {y} - {x};
    }
  }

  lemma {:induction false} SumUnion(f: Id -> int, s: set<Id>, t: set<Id>)
    requires s !! t
    ensures Sum(f, s + t) == Sum(f, s) + Sum(f, t)
  {
    if s == {} {
      assert s + t == t;
    } else {
      var x :| x in s;
      SumRemove(f, s, x);
      SumRemove(f, s + t, x);
      assert s + t - {x} == (s - {x}) + t;
      SumUnion(f, s - {x}, t);
    }
  }

  // ----- the two child pointers -----

  /** A child pointer that is followed: not `None`, not empty, and to a covered node. */
  function Child(nodes: Nodes, pointer: Option<Id>): Option<Id> {
    if pointer.Some? && pointer.value.name != "" && pointer.value in nodes then pointer else None
  }

  ghost predicate IsSide(nodes: Nodes, x: Id, child: Option<Id>) {
    x in nodes && (child.Some? ==> child.value in Kids(nodes, x))
  }

  lemma ChildrenAreSides(nodes: Nodes, x: Id)
    requires x in nodes
    ensures IsSide(nodes, x, Child(nodes, nodes[x].left)) && IsSide(nodes, x, Child(nodes, nodes[x].right))
  {
  }

  /** One covered node is both the left and the right child of `x`. */
  predicate SharesChild(nodes: Nodes, x: Id)
    requires x in nodes
  {
    nodes[x].left == nodes[x].right && nodes[x].left.Some? && nodes[x].left.value in nodes
  }

  ghost predicate ChildrenDistinct(nodes: Nodes) {
    forall x :: x in nodes ==> !SharesChild(nodes, x)
  }

  // ----- ancestors -----

  lemma {:induction false} ThroughParent(nodes: Nodes, p: Id, c: Id, x: Id)
    requires WellFormed(nodes) && p in nodes && c in Kids(nodes, p) && x in nodes && AncestorOrSelf(nodes, c, x)
    ensures AncestorOrSelf(nodes, p, x)
    decreases Depth(nodes)[x]
  {
    if c == x {
      assert AncestorOrSelf(nodes, p, p);
    } else {
      var q := nodes[x].parent.value;
      assert x in Kids(nodes, q);
      ThroughParent(nodes, p, c, q);
    }
  }

  lemma {:induction false} AncestorNotDeeper(nodes: Nodes, a: Id, x: Id)
    requires WellFormed(nodes) && x in nodes && AncestorOrSelf(nodes, a, x)
    ensures a in nodes && Depth(nodes)[a] <= Depth(nodes)[x]
    ensures a != x ==> Depth(nodes)[a] < Depth(nodes)[x]
    decreases Depth(nodes)[x]
  {
    if a != x {
      var q := nodes[x].parent.value;
      assert x in Kids(nodes, q);
      AncestorNotDeeper(nodes, a, q);
    }
  }

  /** Below `p` one is below one of its children. */
  lemma {:induction false} ChildTowards(nodes: Nodes, p: Id, x: Id) returns (c: Id)
    requires WellFormed(nodes) && p in nodes && x in nodes && AncestorOrSelf(nodes, p, x) && p != x
    ensures c in Kids(nodes, p) && AncestorOrSelf(nodes, c, x)
    decreases Depth(nodes)[x]
  {
    var q := nodes[x].parent.value;
    assert x in Kids(nodes, q);
    if q == p {
      c := x;
    } else {
      c := ChildTowards(nodes, p, q);
    }
  }

  /** Nothing lies below two different children of one node. */
  lemma {:induction false} BelowOneChild(nodes: Nodes, p: Id, a: Id, b: Id, x: Id)
    requires WellFormed(nodes) && p in nodes && a in Kids(nodes, p) && b in Kids(nodes, p) && x in nodes
    requires AncestorOrSelf(nodes, a, x) && AncestorOrSelf(nodes, b, x)
    ensures a == b
    decreases Depth(nodes)[x]
  {
    assert nodes[a].parent == Some(p) == nodes[b].parent;
    if a == x {
      if b != x { AncestorNotDeeper(nodes, b, p); }
    } else if b == x {
      AncestorNotDeeper(nodes, a, p);
    } else {
      var q := nodes[x].parent.value;
      assert x in Kids(nodes, q);
      BelowOneChild(nodes, p, a, b, q);
    }
  }
}
