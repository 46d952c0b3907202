/** `validate_tiling` (`ragzoom/validate.py`) and what its verdict means. */
module ValidateTiling {
  import opened Options
  import opened Sorting
  import opened Forest
  import opened Rollups
  import opened Slices
  import opened Spans
  import opened GreedyTiling

  datatype TilingError =
    | EmptyTiling
    | DuplicateNode(id: Id)
    | NodeNotFound(id: Id)
    | Overlap(first: Id, second: Id)
    | WrongStart(found: int, expected: int)
    | WrongEnd(found: int, expected: int)
    | GapInTiling(from: int, to: int)
    | NonWhitespaceGap(from: int, to: int)
    | OverBudget(total: int)

  // ----- the document bounds -----

  /** The nodes the bounds are taken from: the root-like preloaded ones, all preloaded ones, or the whole store. */
  function BoundIds(preloaded: Option<Nodes>, store: Nodes): set<Id> {
    if preloaded.Some? && preloaded.value != map[] then
      if Roots(preloaded.value) != {} then Roots(preloaded.value) else preloaded.value.Keys
    else store.Keys
  }

  function BoundNodes(preloaded: Option<Nodes>, store: Nodes): Nodes {
    if preloaded.Some? && preloaded.value != map[] then preloaded.value else store
  }

  ghost predicate LeastStart(nodes: Nodes, ids: set<Id>, lo: int) {
    (exists x :: x in ids && Start(nodes, x) == lo) && forall x :: x in ids ==> lo <= Start(nodes, x)
  }

  ghost predicate GreatestEnd(nodes: Nodes, ids: set<Id>, hi: int) {
    (exists x :: x in ids && End(nodes, x) == hi) && forall x :: x in ids ==> End(nodes, x) <= hi
  }

  method MinStartMaxEnd(nodes: Nodes, ids: set<Id>) returns (lo: int, hi: int)
    requires ids != {}
    ensures LeastStart(nodes, ids, lo) && GreatestEnd(nodes, ids, hi)
  {
    var order := AnyOrder(ids);
    var someone :| someone in ids;
    lo, hi := Start(nodes, order[0]), End(nodes, order[0]);
    for i := 1 to |order|
      invariant exists x :: x in order && Start(nodes, x) == lo
      invariant exists x :: x in order && End(nodes, x) == hi
      invariant forall j :: 0 <= j < i ==> lo <= Start(nodes, order[j]) && End(nodes, order[j]) <= hi
    {
      if Start(nodes, order[i]) < lo { lo := Start(nodes, order[i]); }
      if hi < End(nodes, order[i]) { hi := End(nodes, order[i]); }
    }
  }

  // ----- what a valid tiling is -----

  ghost predicate NoOverlap(store: Nodes, order: seq<Id>) {
    forall i :: 0 <= i < |order| - 1 ==> End(store, order[i]) <= Start(store, order[i + 1])
  }

  /** Between neighbours there is nothing, or only whitespace of a text that was passed along. */
  ghost predicate GapAllowed(store: Nodes, order: seq<Id>, text: string, isSpace: char -> bool, i: nat)
    requires i + 1 < |order|
  {
    OnlySpace(text, isSpace, End(store, order[i]), Start(store, order[i + 1]))
  }

  ghost predicate GapsAllowed(store: Nodes, order: seq<Id>, text: string, isSpace: char -> bool) {
    forall i :: 0 <= i < |order| - 1 ==> GapAllowed(store, order, text, isSpace, i)
  }

  ghost predicate SpansDocument(store: Nodes, order: seq<Id>, preloaded: Option<Nodes>)
    requires order != []
  {
    && LeastStart(BoundNodes(preloaded, store), BoundIds(preloaded, store), Start(store, order[0]))
    && GreatestEnd(BoundNodes(preloaded, store), BoundIds(preloaded, store), End(store, order[|order| - 1]))
  }

  ghost predicate IsValidTiling(tiling: seq<Id>, store: Nodes, text: string, budget: Option<int>,
                                preloaded: Option<Nodes>, isSpace: char -> bool) {
    && tiling != [] && Distinct(tiling) && (forall x :: x in tiling ==> x in store)
    && var order := StableSort(ByStart(store), tiling);
    && order != []
    && NoOverlap(store, order)
    && SpansDocument(store, order, preloaded)
    && GapsAllowed(store, order, text, isSpace)
    && (budget.Some? ==> Tokens(store, Members(tiling)) <= budget.value)
  }

  method CheckMembers(tiling: seq<Id>, store: Nodes) returns (error: Option<TilingError>)
    ensures error.None? <==> Distinct(tiling) && forall x :: x in tiling ==> x in store
    ensures error.Some? ==>
              || (error.value.DuplicateNode? && multiset(tiling)[error.value.id] > 1)
              || (error.value.NodeNotFound? && error.value.id in tiling && error.value.id !in store)
  {
    var seen: set<Id> := {};
    for k := 0 to |tiling|
      invariant seen == Members(tiling[..k])
      invariant Distinct(tiling[..k]) && forall x :: x in tiling[..k] ==> x in store
    {
      assert tiling[..k + 1] == tiling[..k] + [tiling[k]];
      if tiling[k] in seen {
        assert tiling == tiling[..k] + tiling[k..];
        assert tiling[k] in multiset(tiling[..k]) && tiling[k] in multiset(tiling[k..]);
        return Some(DuplicateNode(tiling[k]));
      }
      seen := seen + {tiling[k]};
      if tiling[k] !in store { return Some(NodeNotFound(tiling[k])); }
    }
    assert tiling[..|tiling|] == tiling;
    error := None;
  }

  method CheckOverlaps(order: seq<Id>, store: Nodes) returns (error: Option<TilingError>)
    requires order != []
    ensures error.None? <==> NoOverlap(store, order)
    ensures error.Some? ==> error.value.Overlap? && error.value.first in order && error.value.second in order
                            && End(store, error.value.first) > Start(store, error.value.second)
  {
    for i := 0 to |order| - 1
      invariant forall j :: 0 <= j < i ==> End(store, order[j]) <= Start(store, order[j + 1])
    {
      if End(store, order[i]) > Start(store, order[i + 1]) { return Some(Overlap(order[i], order[i + 1])); }
    }
    error := None;
  }

  /** The first start, or the last end, is `found` where the document has `expected`. */
  ghost predicate IsBoundError(error: TilingError, order: seq<Id>, store: Nodes, preloaded: Option<Nodes>)
    requires order != []
  {
    && (error.WrongStart? || error.WrongEnd?) && error.found != error.expected
    && (error.WrongStart? ==>
          && error.found == Start(store, order[0])
          && LeastStart(BoundNodes(preloaded, store), BoundIds(preloaded, store), error.expected))
    && (error.WrongEnd? ==>
          && error.found == End(store, order[|order| - 1])
          && GreatestEnd(BoundNodes(preloaded, store), BoundIds(preloaded, store), error.expected))
  }

  method CheckBounds(order: seq<Id>, store: Nodes, preloaded: Option<Nodes>) returns (error: Option<TilingError>)
    requires order != [] && store != map[]
    ensures error.None? <==> SpansDocument(store, order, preloaded)
    ensures error.Some? ==> IsBoundError(error.value, order, store, preloaded)
  {
    var docStart, docEnd := MinStartMaxEnd(BoundNodes(preloaded, store), BoundIds(preloaded, store));
    if Start(store, order[0]) != docStart { return Some(WrongStart(Start(store, order[0]), docStart)); }
    var last := End(store, order[|order| - 1]);
    if last != docEnd { return Some(WrongEnd(last, docEnd)); }
    error := None;
  }

  method CheckGaps(order: seq<Id>, store: Nodes, text: string, isSpace: char -> bool)
    returns (error: Option<TilingError>)
    requires order != []
    ensures error.None? <==> GapsAllowed(store, order, text, isSpace)
    ensures error.Some? ==>
              && (error.value.GapInTiling? || error.value.NonWhitespaceGap?)
              && error.value.from < error.value.to
              && (error.value.GapInTiling? <==> text == "")
              && !IsSpace(isSpace, Slice(text, error.value.from, error.value.to))
    ensures error.Some? ==>
              exists i :: 0 <= i < |order| - 1
                          && error.value.from == End(store, order[i]) && error.value.to == Start(store, order[i + 1])
  {
    for i := 0 to |order| - 1
      invariant forall j :: 0 <= j < i ==> GapAllowed(store, order, text, isSpace, j)
    {
      var from, to := End(store, order[i]), Start(store, order[i + 1]);
      if from != to {
        var gap := to - from;
        if gap > 0 {
          if text != "" {
            assert GapAllowed(store, order, text, isSpace, i) <==> IsSpace(isSpace, Slice(text, from, to));
            if !IsSpace(isSpace, Slice(text, from, to)) { return Some(NonWhitespaceGap(from, to)); }
          } else {
            assert !GapAllowed(store, order, text, isSpace, i);
            return Some(GapInTiling(from, to));
          }
        }
      }
    }
    error := None;
  }

  /** Missing text and empty text are treated alike, so `text` is a plain string. */
  method Validate(tiling: seq<Id>, store: Nodes, text: string, budget: Option<int>,
                  preloaded: Option<Nodes>, isSpace: char -> bool) returns (error: Option<TilingError>)
    ensures error.None? <==> IsValidTiling(tiling, store, text, budget, preloaded, isSpace)
    ensures error == Some(EmptyTiling) <==> tiling == []
    ensures error.Some? && error.value.OverBudget? ==>
              && IsValidTiling(tiling, store, text, None, preloaded, isSpace)
              && budget.Some? && error.value.total == Tokens(store, Members(tiling)) > budget.value
  {
    hide NoOverlap;
    hide GapsAllowed;
    hide SpansDocument;
    hide Tokens;
    hide ByStart;
    if tiling == [] { return Some(EmptyTiling); }
    error := CheckMembers(tiling, store);
    if error.Some? { return; }
    assert tiling[0] in tiling;
    hide Distinct;

    var order := StableSort(ByStart(store), tiling);
    SameMembers(order, tiling);
    error := CheckOverlaps(order, store);
    if error.Some? { return; }
    error := CheckBounds(order, store, preloaded);
    if error.Some? { return; }
    error := CheckGaps(order, store, text, isSpace);
    if error.Some? { return; }

    if budget.Some? {
      var total := TotalTokens(tiling, store);
      if total > budget.value { return Some(OverBudget(total)); }
    }
    error := None;
  }

  // ----- what the verdict means -----

  ghost predicate IsBounds(store: Nodes, preloaded: Option<Nodes>, lo: int, hi: int) {
    && LeastStart(BoundNodes(preloaded, store), BoundIds(preloaded, store), lo)
    && GreatestEnd(BoundNodes(preloaded, store), BoundIds(preloaded, store), hi)
  }

  /** Without a text to look gaps up in, passing the span checks means being contiguous over the document. */
  lemma ValidIsContiguous(store: Nodes, order: seq<Id>, preloaded: Option<Nodes>, isSpace: char -> bool, lo: int,
                          hi: int)
    requires order != [] && IsBounds(store, preloaded, lo, hi)
    ensures NoOverlap(store, order) && SpansDocument(store, order, preloaded) && GapsAllowed(store, order, "", isSpace)
       <==> Contiguous(store, order, lo, hi)
  {
    if NoOverlap(store, order) && GapsAllowed(store, order, "", isSpace) {
      forall i | 0 <= i < |order| - 1 ensures End(store, order[i]) == Start(store, order[i + 1]) {
        assert GapAllowed(store, order, "", isSpace, i);
      }
    }
  }

  /** Sorted by start, a list is contiguous exactly when its members partition the stretch. */
  lemma SortedContiguous(store: Nodes, tiling: seq<Id>, order: seq<Id>, lo: int, hi: int)
    requires order == StableSort(ByStart(store), tiling) && Distinct(tiling) && tiling != []
    requires forall x :: x in tiling ==> Start(store, x) < End(store, x)
    ensures order != []
    ensures Contiguous(store, order, lo, hi) <==> Partitions(store, Members(tiling), lo, hi)
  {
    SortSorts(ByStart(store), tiling);
    SortDistinct(ByStart(store), tiling);
    assert forall x :: x in order <==> x in Members(tiling);
    hide Partitions;
    if Partitions(store, Members(tiling), lo, hi) {
      PartitionIsContiguous(store, order, Members(tiling), lo, hi);
    } else if Contiguous(store, order, lo, hi) {
      forall k | 0 <= k < |order| ensures Start(store, order[k]) < End(store, order[k]) { assert order[k] in tiling; }
      ContiguousIsPartition(store, order, Members(tiling), lo, hi);
    }
  }

  /** Without a text to look gaps up in, a tiling is accepted exactly when its spans partition the document. */
  lemma AcceptsPartitions(tiling: seq<Id>, store: Nodes, preloaded: Option<Nodes>, isSpace: char -> bool, lo: int,
                          hi: int)
    requires forall x :: x in tiling && x in store ==> Start(store, x) < End(store, x)
    requires IsBounds(store, preloaded, lo, hi)
    ensures IsValidTiling(tiling, store, "", None, preloaded, isSpace) <==>
              && tiling != [] && Distinct(tiling) && (forall x :: x in tiling ==> x in store)
              && Partitions(store, Members(tiling), lo, hi)
  {
    hide Partitions;
    hide IsBounds;
    hide Distinct;
    hide NoOverlap;
    hide SpansDocument;
    hide GapsAllowed;
    hide Contiguous;
    if tiling != [] && Distinct(tiling) && forall x :: x in tiling ==> x in store {
      var order := StableSort(ByStart(store), tiling);
      SortedContiguous(store, tiling, order, lo, hi);
      ValidIsContiguous(store, order, preloaded, isSpace, lo, hi);
    }
  }

  // ----- the verdict in the fields of the nodes -----

  /** `b` may follow `a`: no overlap, and a gap only where the text passed along has whitespace and nothing else. */
  ghost predicate MayFollow(store: Nodes, a: Id, b: Id, text: string, isSpace: char -> bool) {
    && a in store && b in store
    && var from, to := store[a].spanEnd, store[b].spanStart;
    from <= to && (from < to ==> SpaceBetween(text, isSpace, from, to))
  }

  /** In this order each node may follow the one before it. */
  ghost predicate EachMayFollow(store: Nodes, order: seq<Id>, text: string, isSpace: char -> bool) {
    forall i :: 0 <= i < |order| - 1 ==> MayFollow(store, order[i], order[i + 1], text, isSpace)
  }

  ghost predicate RootLike(nodes: Nodes, x: Id) {
    x in nodes && (nodes[x].parent.None? || nodes[x].parent.value !in nodes)
  }

  /** The span of `x` counts for the document bounds: a root-like preloaded node, or any if none is root-like. */
  ghost predicate SetsBounds(preloaded: Option<Nodes>, store: Nodes, x: Id) {
    if preloaded.None? || preloaded.value == map[] then x in store
    else x in preloaded.value && (RootLike(preloaded.value, x) || forall y :: !RootLike(preloaded.value, y))
  }

  ghost function SpanOf(preloaded: Option<Nodes>, store: Nodes, x: Id): (int, int)
    requires SetsBounds(preloaded, store, x)
  {
    var node := if preloaded.None? || preloaded.value == map[] then store[x] else preloaded.value[x];
    (node.spanStart, node.spanEnd)
  }

  /** `lo` is the least start and `hi` the greatest end of the nodes that count. */
  ghost predicate AreBounds(preloaded: Option<Nodes>, store: Nodes, lo: int, hi: int) {
    && (forall x :: SetsBounds(preloaded, store, x)
          ==> lo <= SpanOf(preloaded, store, x).0 && SpanOf(preloaded, store, x).1 <= hi)
    && (exists x :: SetsBounds(preloaded, store, x) && SpanOf(preloaded, store, x).0 == lo)
    && (exists x :: SetsBounds(preloaded, store, x) && SpanOf(preloaded, store, x).1 == hi)
  }

  /** Sorted by start; nodes that start at one position keep the order they have in the tiling. */
  ghost predicate InReadingOrder(store: Nodes, tiling: seq<Id>, order: seq<Id>) {
    && multiset(order) == multiset(tiling)
    && forall i, j :: 0 <= i < j < |order| ==> ReadBefore(store, tiling, order[i], order[j])
  }

  ghost predicate ReadBefore(store: Nodes, tiling: seq<Id>, x: Id, y: Id) {
    && x in store && y in store
    && (|| store[x].spanStart < store[y].spanStart
        || (store[x].spanStart == store[y].spanStart && Before(tiling, x, y)))
  }

  lemma BoundsMeaning(preloaded: Option<Nodes>, store: Nodes, lo: int, hi: int)
    ensures IsBounds(store, preloaded, lo, hi) <==> AreBounds(preloaded, store, lo, hi)
  {
    if preloaded.Some? { RootLikeMeaning(preloaded.value); }
    forall x ensures SetsBounds(preloaded, store, x) <==> x in BoundIds(preloaded, store) {}
    forall x | SetsBounds(preloaded, store, x)
      ensures x in BoundNodes(preloaded, store)
      ensures SpanOf(preloaded, store, x).0 == Start(BoundNodes(preloaded, store), x)
      ensures SpanOf(preloaded, store, x).1 == End(BoundNodes(preloaded, store), x) {}
    hide SetsBounds;
    hide SpanOf;
    hide BoundIds;
    hide BoundNodes;
    if IsBounds(store, preloaded, lo, hi) {
      var x :| x in BoundIds(preloaded, store) && Start(BoundNodes(preloaded, store), x) == lo;
      var y :| y in BoundIds(preloaded, store) && End(BoundNodes(preloaded, store), y) == hi;
      assert SetsBounds(preloaded, store, x) && SetsBounds(preloaded, store, y);
    }
  }

  lemma RootLikeMeaning(nodes: Nodes)
    ensures forall x :: RootLike(nodes, x) <==> x in Roots(nodes)
    ensures Roots(nodes) == {} <==> forall x :: !RootLike(nodes, x)
  {
  }

  /** A list of nodes of the store without duplicates. */
  ghost predicate IsNodeList(store: Nodes, tiling: seq<Id>) {
    && (forall i, j :: 0 <= i < j < |tiling| ==> tiling[i] != tiling[j])
    && forall x :: x in tiling ==> x in store
  }

  lemma OrderIsStored(store: Nodes, tiling: seq<Id>, order: seq<Id>)
    requires InReadingOrder(store, tiling, order) && IsNodeList(store, tiling)
    ensures forall i :: 0 <= i < |order| ==> order[i] in store
  {
    SameMembers(order, tiling);
    forall i | 0 <= i < |order| ensures order[i] in store { assert order[i] in tiling; }
  }

  lemma ReadingOrder(store: Nodes, tiling: seq<Id>)
    requires IsNodeList(store, tiling)
    ensures InReadingOrder(store, tiling, StableSort(ByStart(store), tiling))
  {
    var order := StableSort(ByStart(store), tiling);
    SortSorts(ByStart(store), tiling);
    SortDistinct(ByStart(store), tiling);
    hide StableSort;
    forall i, j | 0 <= i < j < |order| ensures ReadBefore(store, tiling, order[i], order[j]) {
      assert order[i] in tiling && order[j] in tiling && ByStart(store)(order[i], order[j]);
      if Start(store, order[i]) == Start(store, order[j]) { SortKeepsTies(ByStart(store), tiling, i, j); }
    }
  }

  lemma ValidUnfold(tiling: seq<Id>, store: Nodes, text: string, budget: Option<int>, preloaded: Option<Nodes>,
                    isSpace: char -> bool)
    ensures var order := StableSort(ByStart(store), tiling);
            IsValidTiling(tiling, store, text, budget, preloaded, isSpace) <==>
              && tiling != [] && IsNodeList(store, tiling)
              && order != [] && NoOverlap(store, order) && GapsAllowed(store, order, text, isSpace)
              && SpansDocument(store, order, preloaded)
              && (budget.Some? ==> Tokens(store, Members(tiling)) <= budget.value)
  {
    hide NoOverlap;
    hide GapsAllowed;
    hide SpansDocument;
    hide Tokens;
    hide StableSort;
  }

  lemma FollowMeaning(store: Nodes, order: seq<Id>, text: string, isSpace: char -> bool)
    requires forall i :: 0 <= i < |order| ==> order[i] in store
    ensures NoOverlap(store, order) && GapsAllowed(store, order, text, isSpace)
       <==> EachMayFollow(store, order, text, isSpace)
  {
    forall i | 0 <= i < |order| - 1
      ensures MayFollow(store, order[i], order[i + 1], text, isSpace)
              <==> End(store, order[i]) <= Start(store, order[i + 1]) && GapAllowed(store, order, text, isSpace, i) {
      SpaceMeaning(text, isSpace, End(store, order[i]), Start(store, order[i + 1]));
    }
    hide MayFollow;
    hide GapAllowed;
  }

  lemma EndsMeaning(store: Nodes, order: seq<Id>, preloaded: Option<Nodes>)
    requires order != [] && order[0] in store && order[|order| - 1] in store
    ensures SpansDocument(store, order, preloaded)
       <==> AreBounds(preloaded, store, store[order[0]].spanStart, store[order[|order| - 1]].spanEnd)
  {
    BoundsMeaning(preloaded, store, Start(store, order[0]), End(store, order[|order| - 1]));
    hide AreBounds;
    hide LeastStart;
    hide GreatestEnd;
  }

  /**
     The verdict in the fields of the nodes and the characters of the text: a tiling is accepted exactly when
     it is a duplicate-free, non-empty list of nodes of the store, each of which may follow the one before it
     in reading order, the first of which starts and the last of which ends with the document, and whose
     tokens fit the budget.
   */
  lemma ValidInFields(tiling: seq<Id>, store: Nodes, text: string, budget: Option<int>, preloaded: Option<Nodes>,
                      isSpace: char -> bool) returns (order: seq<Id>)
    ensures IsNodeList(store, tiling) ==> InReadingOrder(store, tiling, order)
    ensures IsValidTiling(tiling, store, text, budget, preloaded, isSpace) <==>
              && tiling != [] && IsNodeList(store, tiling)
              && order != [] && order[0] in store && order[|order| - 1] in store
              && EachMayFollow(store, order, text, isSpace)
              && AreBounds(preloaded, store, store[order[0]].spanStart, store[order[|order| - 1]].spanEnd)
              && (budget.Some? ==> Tokens(store, Members(tiling)) <= budget.value)
  {
    hide *;
    order := StableSort(ByStart(store), tiling);
    ValidUnfold(tiling, store, text, budget, preloaded, isSpace);
    if IsNodeList(store, tiling) {
      ReadingOrder(store, tiling);
      OrderIsStored(store, tiling, order);
      FollowMeaning(store, order, text, isSpace);
      if order != [] { EndsMeaning(store, order, preloaded); }
    }
  }

  /** No text is lost: between neighbours of a valid tiling the text has nothing but whitespace. */
  lemma NoTextIsLost(tiling: seq<Id>, store: Nodes, text: string, budget: Option<int>, preloaded: Option<Nodes>,
                     isSpace: char -> bool) returns (order: seq<Id>)
    requires IsValidTiling(tiling, store, text, budget, preloaded, isSpace)
    ensures InReadingOrder(store, tiling, order) && forall i :: 0 <= i < |order| ==> order[i] in store
    ensures forall i :: 0 <= i < |order| - 1 && 0 <= store[order[i]].spanEnd < store[order[i + 1]].spanStart
              ==> OnlyBlanks(text, isSpace, store[order[i]].spanEnd, store[order[i + 1]].spanStart)
  {
    order := ValidInFields(tiling, store, text, budget, preloaded, isSpace);
    OrderIsStored(store, tiling, order);
    forall i | 0 <= i < |order| - 1 && 0 <= store[order[i]].spanEnd < store[order[i + 1]].spanStart
      ensures OnlyBlanks(text, isSpace, store[order[i]].spanEnd, store[order[i + 1]].spanStart) {
      assert MayFollow(store, order[i], order[i + 1], text, isSpace);
      GapCharacters(text, isSpace, store[order[i]].spanEnd, store[order[i + 1]].spanStart);
    }
  }
}
