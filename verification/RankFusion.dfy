/** Reciprocal rank fusion (`ragzoom/bm25.py`) and the reordering of candidates by it (`ragzoom/retrieve.py`). */
module RankFusion {
  import opened Sorting
  import opened Forest
  import opened Slices

  datatype Item = Item(id: Id, score: real)

  function Names(items: seq<Item>): seq<Id> {
    seq(|items|, i requires 0 <= i < |items| => items[i].id)
  }

  /** `key=lambda item: -item[1]` */
  function ByScore(): (Item, Item) -> bool {
    (a: Item, b: Item) => a.score >= b.score
  }

  /** What place `rank` of a ranking is worth. */
  function Worth(k: nat, rank: nat): real {
    1.0 / (k + rank + 1) as real
  }

  /** What one ranking adds to the score of `x`, summed over every place `x` has in it. */
  ghost function Share(ranking: seq<Id>, x: Id, k: nat): real {
    if ranking == [] then 0.0 else
      var last := |ranking| - 1;
      Share(ranking[..last], x, k) + (if ranking[last] == x then Worth(k, last) else 0.0)
  }

  /** `items` are the ids of both rankings, by first appearance, with their scores. */
  ghost predicate IsFusion(items: seq<Item>, vector: seq<Id>, bm25: seq<Id>, k: nat) {
    && Names(items) == FirstOccurrences(vector + bm25)
    && forall i :: 0 <= i < |items| ==> items[i].score == Share(vector, items[i].id, k) + Share(bm25, items[i].id, k)
  }

  /** The insertion-ordered dictionary of scores while the rankings are read. */
  ghost predicate Scored(order: seq<Id>, scores: map<Id, real>, vector: seq<Id>, bm25: seq<Id>, k: nat) {
    && order == FirstOccurrences(vector + bm25)
    && (forall x :: x in scores <==> x in vector + bm25)
    && forall x :: x in scores ==> scores[x] == Share(vector, x, k) + Share(bm25, x, k)
  }

  lemma ShareMore(ranking: seq<Id>, y: Id, k: nat)
    ensures forall x :: Share(ranking + [y], x, k) == Share(ranking, x, k) + if x == y then Worth(k, |ranking|) else 0.0
  {
    assert (ranking + [y])[..|ranking|] == ranking;
  }

  lemma {:induction false} ShareAbsent(ranking: seq<Id>, x: Id, k: nat)
    requires x !in ranking
    ensures Share(ranking, x, k) == 0.0
  {
    if ranking != [] { ShareAbsent(ranking[..|ranking| - 1], x, k); }
  }

  /** `scores[x] = scores.get(x, 0.0) + amount`, with the key order of the dictionary. */
  method AddScore(order: seq<Id>, scores: map<Id, real>, x: Id, amount: real)
    returns (newOrder: seq<Id>, newScores: map<Id, real>)
    ensures newOrder == if x in scores then order else order + [x]
    ensures newScores == scores[x := (if x in scores then scores[x] else 0.0) + amount]
  {
    newOrder := if x in scores then order else order + [x];
    newScores := scores[x := (if x in scores then scores[x] else 0.0) + amount];
  }

  method AddVectorScore(order: seq<Id>, scores: map<Id, real>, x: Id, k: nat, vector: seq<Id>)
    returns (newOrder: seq<Id>, newScores: map<Id, real>)
    requires Scored(order, scores, vector, [], k)
    ensures Scored(newOrder, newScores, vector + [x], [], k)
  {
    ReadVector(order, scores, vector, k, x);
    newOrder, newScores := AddScore(order, scores, x, Worth(k, |vector|));
  }

  method AddBm25Score(order: seq<Id>, scores: map<Id, real>, x: Id, k: nat, ghost vector: seq<Id>, bm25: seq<Id>)
    returns (newOrder: seq<Id>, newScores: map<Id, real>)
    requires Scored(order, scores, vector, bm25, k)
    ensures Scored(newOrder, newScores, vector, bm25 + [x], k)
  {
    ReadBm25(order, scores, vector, bm25, k, x);
    newOrder, newScores := AddScore(order, scores, x, Worth(k, |bm25|));
  }

  method AddVectorScores(vector: seq<Id>, k: nat) returns (order: seq<Id>, scores: map<Id, real>)
    ensures Scored(order, scores, vector, [], k)
  {
    order, scores := [], map[];
    assert Scored(order, scores, [], [], k);
    hide *;
    for rank := 0 to |vector|
      invariant Scored(order, scores, vector[..rank], [], k)
    {
      assert vector[..rank + 1] == vector[..rank] + [vector[rank]];
      order, scores := AddVectorScore(order, scores, vector[rank], k, vector[..rank]);
    }
    assert vector[..|vector|] == vector;
  }

  method AddBm25Scores(vector: seq<Id>, bm25: seq<Id>, k: nat, before: seq<Id>, had: map<Id, real>)
    returns (order: seq<Id>, scores: map<Id, real>)
    requires Scored(before, had, vector, [], k)
    ensures Scored(order, scores, vector, bm25, k)
  {
    hide *;
    order, scores := before, had;
    for rank := 0 to |bm25|
      invariant Scored(order, scores, vector, bm25[..rank], k)
    {
      assert bm25[..rank + 1] == bm25[..rank] + [bm25[rank]];
      order, scores := AddBm25Score(order, scores, bm25[rank], k, vector, bm25[..rank]);
    }
    assert bm25[..|bm25|] == bm25;
  }

  method ReciprocalRankFusion(vector: seq<Id>, bm25: seq<Id>, k: nat)
    returns (fused: seq<Item>)
    ensures exists items :: IsFusion(items, vector, bm25, k) && fused == StableSort(ByScore(), items)
  {
    hide *;
    var order, scores := AddVectorScores(vector, k);
    order, scores := AddBm25Scores(vector, bm25, k, order, scores);
    ScoredKeys(order, scores, vector, bm25, k);
    ghost var items := ItemsOf(order, scores, vector, bm25, k);
    var entries := seq(|order|,
        i requires 0 <= i < |order| => assert order[i] in order; Item(order[i], scores[order[i]]));
    assert entries == items;
    fused := StableSort(ByScore(), entries);
  }

  lemma ScoredKeys(order: seq<Id>, scores: map<Id, real>, vector: seq<Id>, bm25: seq<Id>, k: nat)
    requires Scored(order, scores, vector, bm25, k)
    ensures forall x :: x in order ==> x in scores
  {
    FirstOccurrencesMembers(vector + bm25);
  }

  lemma ItemsOf(order: seq<Id>, scores: map<Id, real>, vector: seq<Id>, bm25: seq<Id>, k: nat)
    returns (items: seq<Item>)
    requires Scored(order, scores, vector, bm25, k)
    ensures IsFusion(items, vector, bm25, k) && |items| == |order|
    ensures forall i :: 0 <= i < |order| ==> order[i] in scores && items[i] == Item(order[i], scores[order[i]])
  {
    ScoredKeys(order, scores, vector, bm25, k);
    items := seq(|order|, i requires 0 <= i < |order| => assert order[i] in order; Item(order[i], scores[order[i]]));
    assert Names(items) == order;
    forall i | 0 <= i < |order| ensures order[i] in scores { assert order[i] in order; }
  }

  lemma ReadVector(order: seq<Id>, scores: map<Id, real>, vector: seq<Id>, k: nat, y: Id)
    requires Scored(order, scores, vector, [], k)
    ensures Scored(if y in scores then order else order + [y],
                   scores[y := (if y in scores then scores[y] else 0.0) + Worth(k, |vector|)], vector + [y], [], k)
  {
    assert vector + [] == vector && vector + [y] + [] == vector + [y];
    FirstOccurrencesMore(vector, y);
    ShareMore(vector, y, k);
    if y !in vector { ShareAbsent(vector, y, k); }
  }

  lemma ReadBm25(order: seq<Id>, scores: map<Id, real>, vector: seq<Id>, bm25: seq<Id>, k: nat, y: Id)
    requires Scored(order, scores, vector, bm25, k)
    ensures Scored(if y in scores then order else order + [y],
                   scores[y := (if y in scores then scores[y] else 0.0) + Worth(k, |bm25|)], vector, bm25 + [y], k)
  {
    assert vector + (bm25 + [y]) == vector + bm25 + [y];
    FirstOccurrencesMore(vector + bm25, y);
    ShareMore(bm25, y, k);
    hide FirstOccurrences;
    hide Worth;
    if y !in vector + bm25 {
      ShareAbsent(vector, y, k);
      ShareAbsent(bm25, y, k);
    }
    hide Share;
  }

  // ----- what fusion promises -----

  lemma NamesMembers(items: seq<Item>)
    ensures forall x :: x in Names(items) <==> exists i :: 0 <= i < |items| && items[i].id == x
  {
    assert forall i :: 0 <= i < |items| ==> Names(items)[i] == items[i].id;
  }

  /** Sorting items with distinct ids gives the same items, by falling score. */
  lemma SortedItems(items: seq<Item>)
    requires Distinct(Names(items))
    ensures var fused := StableSort(ByScore(), items);
            && Distinct(Names(fused)) && Distinct(fused)
            && (forall x :: x in fused <==> x in items)
            && (forall i, j :: 0 <= i < j < |fused| ==> fused[i].score >= fused[j].score)
  {
    var fused := StableSort(ByScore(), items);
    forall i, j | 0 <= i < j < |items| ensures items[i].id != items[j].id {
      assert Names(items)[i] != Names(items)[j];
    }
    SortSorts(ByScore(), items);
    SortDistinct(ByScore(), items);
    hide StableSort;
    forall i, j | 0 <= i < j < |fused| ensures fused[i].score >= fused[j].score && fused[i].id != fused[j].id {
      assert ByScore()(fused[i], fused[j]);
      assert fused[i] in items && fused[j] in items;
    }
  }

  lemma SameNames(s: seq<Item>, t: seq<Item>)
    requires forall x :: x in s <==> x in t
    ensures forall x :: x in Names(s) <==> x in Names(t)
  {
    NamesMembers(s);
    NamesMembers(t);
    forall i | 0 <= i < |s| ensures s[i].id in Names(t) {
      assert s[i] in t;
      var j :| 0 <= j < |t| && t[j] == s[i];
    }
    forall i | 0 <= i < |t| ensures t[i].id in Names(s) {
      assert t[i] in s;
      var j :| 0 <= j < |s| && s[j] == t[i];
    }
  }

  /** The fused list is the duplicate-free union of the rankings, by falling score. */
  lemma FusedIsUnion(items: seq<Item>, vector: seq<Id>, bm25: seq<Id>, k: nat)
    requires IsFusion(items, vector, bm25, k)
    ensures var fused := StableSort(ByScore(), items);
            && Distinct(Names(fused))
            && (forall x :: x in Names(fused) <==> x in vector || x in bm25)
            && (forall i, j :: 0 <= i < j < |fused| ==> fused[i].score >= fused[j].score)
            && forall i :: 0 <= i < |fused|
                 ==> fused[i].score == Share(vector, fused[i].id, k) + Share(bm25, fused[i].id, k)
  {
    var fused := StableSort(ByScore(), items);
    FirstOccurrencesMembers(vector + bm25);
    SortedItems(items);
    SameNames(fused, items);
    hide *;
    forall i | 0 <= i < |fused|
      ensures fused[i].score == Share(vector, fused[i].id, k) + Share(bm25, fused[i].id, k) {
      assert fused[i] in items;
    }
  }

  lemma {:induction false} ShareAt(ranking: seq<Id>, r: nat, k: nat)
    requires Distinct(ranking) && r < |ranking|
    ensures Share(ranking, ranking[r], k) == Worth(k, r)
  {
    var last := |ranking| - 1;
    var front := ranking[..last];
    if r == last {
      assert forall i :: 0 <= i < last ==> front[i] != ranking[r];
      ShareAbsent(front, ranking[r], k);
    } else {
      ShareAt(front, r, k);
    }
  }

  lemma WorthFalls(k: nat, i: nat, j: nat)
    requires i < j
    ensures Worth(k, i) > Worth(k, j) > 0.0
  {
    InverseFalls(k + i + 1, k + j + 1);
  }

  lemma InverseFalls(p: nat, q: nat)
    requires 0 < p < q
    ensures 1.0 / p as real > 1.0 / q as real > 0.0
  {
  }

  lemma {:induction false} ShareNotNegative(ranking: seq<Id>, x: Id, k: nat)
    ensures Share(ranking, x, k) >= 0.0
  {
    if ranking != [] {
      ShareNotNegative(ranking[..|ranking| - 1], x, k);
      WorthFalls(k, |ranking| - 1, |ranking|);
    }
  }

  /** If the ranking holds `b`, `a` stands before it. */
  ghost predicate Dominates(ranking: seq<Id>, a: Id, b: Id) {
    b in ranking ==> Before(ranking, a, b)
  }

  lemma ShareDominates(ranking: seq<Id>, a: Id, b: Id, k: nat)
    requires Distinct(ranking) && Dominates(ranking, a, b)
    ensures Share(ranking, a, k) >= Share(ranking, b, k)
    ensures b in ranking ==> Share(ranking, a, k) > Share(ranking, b, k) && a in ranking
  {
    if b in ranking {
      var i, j :| 0 <= i < j < |ranking| && ranking[i] == a && ranking[j] == b;
      ShareAt(ranking, i, k);
      ShareAt(ranking, j, k);
      WorthFalls(k, i, j);
    } else {
      ShareAbsent(ranking, b, k);
      ShareNotNegative(ranking, a, k);
    }
  }

  /** Of two items of a list by falling score, the one with more points comes first. */
  lemma MoreComesFirst(fused: seq<Item>, i: nat, j: nat)
    requires forall x, y :: 0 <= x < y < |fused| ==> fused[x].score >= fused[y].score
    requires i < |fused| && j < |fused| && fused[i].score > fused[j].score
    ensures Before(Names(fused), fused[i].id, fused[j].id)
  {
    assert i < j;
    assert Names(fused)[i] == fused[i].id && Names(fused)[j] == fused[j].id;
  }

  /** Dominance: if `a` precedes `b` in every ranking that holds `b`, it precedes `b` in the fused list. */
  lemma FusionDominance(items: seq<Item>, vector: seq<Id>, bm25: seq<Id>, k: nat, a: Id, b: Id)
    requires IsFusion(items, vector, bm25, k) && Distinct(vector) && Distinct(bm25)
    requires Dominates(vector, a, b) && Dominates(bm25, a, b) && (b in vector || b in bm25)
    ensures Before(Names(StableSort(ByScore(), items)), a, b)
  {
    hide StableSort;
    hide Share;
    hide Before;
    hide Distinct;
    var fused := StableSort(ByScore(), items);
    FusedIsUnion(items, vector, bm25, k);
    ShareDominates(vector, a, b, k);
    ShareDominates(bm25, a, b, k);
    NamesMembers(fused);
    hide *;
    assert a in Names(fused) && b in Names(fused);
    var i :| 0 <= i < |fused| && fused[i].id == a;
    var j :| 0 <= j < |fused| && fused[j].id == b;
    MoreComesFirst(fused, i, j);
  }

  // ----- the scores in numbers -----

  /** A place `r` in a duplicate-free ranking counts 1 / (k + r + 1), and no place counts nothing. */
  lemma ShareInNumbers(ranking: seq<Id>, x: Id, k: nat)
    requires Distinct(ranking)
    ensures forall r :: 0 <= r < |ranking| && ranking[r] == x ==> Share(ranking, x, k) == 1.0 / (k + r + 1) as real
    ensures x !in ranking ==> Share(ranking, x, k) == 0.0
  {
    if x in ranking {
      forall r | 0 <= r < |ranking| && ranking[r] == x ensures Share(ranking, x, k) == 1.0 / (k + r + 1) as real {
        ShareAt(ranking, r, k);
      }
    } else {
      ShareAbsent(ranking, x, k);
    }
  }

  /** In a ranking that names ids more than once every place counts. */
  lemma ShareOfPlaces(ranking: seq<Id>, y: Id, x: Id, k: nat)
    ensures Share([], x, k) == 0.0
    ensures Share(ranking + [y], x, k)
         == Share(ranking, x, k) + (if x == y then 1.0 / (k + |ranking| + 1) as real else 0.0)
  {
    ShareMore(ranking, y, k);
  }

  /** The fused scores of two duplicate-free rankings. */
  lemma FusedScores(items: seq<Item>, vector: seq<Id>, bm25: seq<Id>, k: nat, x: Item)
    requires IsFusion(items, vector, bm25, k) && Distinct(vector) && Distinct(bm25)
    requires x in StableSort(ByScore(), items)
    ensures forall i, j :: 0 <= i < |vector| && vector[i] == x.id && 0 <= j < |bm25| && bm25[j] == x.id
              ==> x.score == 1.0 / (k + i + 1) as real + 1.0 / (k + j + 1) as real
    ensures x.id !in bm25 ==>
              forall i :: 0 <= i < |vector| && vector[i] == x.id ==> x.score == 1.0 / (k + i + 1) as real
    ensures x.id !in vector ==>
              forall j :: 0 <= j < |bm25| && bm25[j] == x.id ==> x.score == 1.0 / (k + j + 1) as real
  {
    FusedIsUnion(items, vector, bm25, k);
    ShareInNumbers(vector, x.id, k);
    ShareInNumbers(bm25, x.id, k);
    hide *;
    var fused := StableSort(ByScore(), items);
    var m :| 0 <= m < |fused| && fused[m] == x;
    assert x.score == Share(vector, x.id, k) + Share(bm25, x.id, k);
  }

  lemma TwoHalves(p: nat, q: nat, r: nat)
    requires 0 < p < 2 * r && 0 < q < 2 * r
    ensures 1.0 / p as real + 1.0 / q as real > 1.0 / r as real
  {
    InverseFalls(p, 2 * r);
    InverseFalls(q, 2 * r);
    assert 1.0 / (2 * r) as real + 1.0 / (2 * r) as real == 1.0 / r as real;
  }

  /**
     What both rankings hold beats what only one of them holds: an id with ranks `i` and `j` of at most
     k + 2m precedes an id that has rank `m` in one ranking and no place in the other.
   */
  lemma BothBeatOne(items: seq<Item>, vector: seq<Id>, bm25: seq<Id>, k: nat, i: nat, j: nat, b: Id, m: nat)
    requires IsFusion(items, vector, bm25, k) && Distinct(vector) && Distinct(bm25)
    requires i < |vector| && j < |bm25| && vector[i] == bm25[j] && i <= k + 2 * m && j <= k + 2 * m
    requires || (m < |vector| && vector[m] == b && b !in bm25)
             || (m < |bm25| && bm25[m] == b && b !in vector)
    ensures Before(Names(StableSort(ByScore(), items)), vector[i], b)
  {
    hide *;
    var fused := StableSort(ByScore(), items);
    FusedIsUnion(items, vector, bm25, k);
    NamesMembers(fused);
    assert vector[i] in Names(fused) && b in Names(fused);
    var x :| 0 <= x < |fused| && fused[x].id == vector[i];
    var y :| 0 <= y < |fused| && fused[y].id == b;
    FusedScores(items, vector, bm25, k, fused[x]);
    FusedScores(items, vector, bm25, k, fused[y]);
    TwoHalves(k + i + 1, k + j + 1, k + m + 1);
    assert fused[x].score == 1.0 / (k + i + 1) as real + 1.0 / (k + j + 1) as real;
    MoreComesFirst(fused, x, y);
  }

  /** Ties are broken by first appearance, the vector ranking first. */
  lemma TiesByFirstAppearance(items: seq<Item>, vector: seq<Id>, bm25: seq<Id>, k: nat, a: Item, b: Item)
    requires IsFusion(items, vector, bm25, k) && Before(StableSort(ByScore(), items), a, b) && a.score == b.score
    ensures SeenBefore(vector + bm25, a.id, b.id)
  {
    FirstOccurrencesMembers(vector + bm25);
    TiesKeepOrder(items, a, b);
    FirstOccurrencesOrder(vector + bm25, a.id, b.id);
  }

  lemma TiesKeepOrder(items: seq<Item>, a: Item, b: Item)
    requires Distinct(Names(items)) && Before(StableSort(ByScore(), items), a, b) && a.score == b.score
    ensures Before(Names(items), a.id, b.id)
  {
    var fused := StableSort(ByScore(), items);
    SortedItems(items);
    assert a in fused && b in fused && a != b;
    var x :| 0 <= x < |items| && items[x] == a;
    var y :| 0 <= y < |items| && items[y] == b;
    NamesAt(items, x, y);
    if y < x {
      assert Before(items, b, a);
      assert ByScore()(b, a);
      hide *;
      SortIsStable(ByScore(), items, b, a);
      NotBothWays(fused, a, b);
    }
  }

  lemma NamesAt(items: seq<Item>, x: nat, y: nat)
    requires x < |items| && y < |items|
    ensures x < y ==> Before(Names(items), items[x].id, items[y].id)
  {
    assert Names(items)[x] == items[x].id && Names(items)[y] == items[y].id;
  }

  // ----- ranking search results -----

  /** `zip`: as many pairs as the shorter list allows. */
  function Zip(ids: seq<Id>, scores: seq<real>): (items: seq<Item>)
    ensures |items| == if |ids| < |scores| then |ids| else |scores|
    ensures forall i :: 0 <= i < |items| ==> items[i] == Item(ids[i], scores[i])
  {
    seq(if |ids| < |scores| then |ids| else |scores|,
        i requires 0 <= i < |ids| && i < |scores| => Item(ids[i], scores[i]))
  }

  /** `x` scores higher than `y`, or the same with an earlier place in the index. */
  ghost predicate Beats(items: seq<Item>, x: Item, y: Item) {
    x.score > y.score || (x.score == y.score && Before(Names(items), x.id, y.id))
  }

  /** `ranked` holds the best of `items`, each once and the better before the worse; what it leaves out loses
      to all of it. */
  ghost predicate IsTop(ranked: seq<Item>, items: seq<Item>) {
    && Distinct(ranked) && (forall x :: x in ranked ==> x in items)
    && (forall i, j :: 0 <= i < j < |ranked| ==> Beats(items, ranked[i], ranked[j]))
    && forall x, y :: x in ranked && y in items && y !in ranked ==> Beats(items, x, y)
  }

  /** The scores are those of the index; an index without documents has neither ids nor scores. */
  method Search(ids: seq<Id>, scores: seq<real>, topK: int) returns (ranked: seq<Item>)
    requires Distinct(ids)
    ensures var n := |Zip(ids, scores)|;
            |ranked| == if topK >= n then n else if topK >= 0 then topK else if n + topK >= 0 then n + topK else 0
    ensures IsTop(ranked, Zip(ids, scores))
  {
    if ids == [] { return []; }
    var items := Zip(ids, scores);
    var all := StableSort(ByScore(), items);
    SameMembers(all, items);
    ranked := all[..ClampIndex(topK, |all|)];
    assert forall i :: 0 <= i < |items| ==> Names(items)[i] == ids[i];
    hide *;
    SortIsTop(items, |ranked|);
  }

  /** Sorted by falling score, any number of items from the front is the top. */
  lemma SortIsTop(items: seq<Item>, n: nat)
    requires Distinct(Names(items)) && n <= |StableSort(ByScore(), items)|
    ensures IsTop(StableSort(ByScore(), items)[..n], items)
  {
    SortedItems(items);
    hide *;
    var all := StableSort(ByScore(), items);
    forall x, y | Before(all, x, y) ensures Beats(items, x, y) { EarlierBeats(items, x, y); }
    FrontIsTop(all, items, n);
  }

  lemma FrontIsTop(all: seq<Item>, items: seq<Item>, n: nat)
    requires Distinct(all) && (forall x :: x in all <==> x in items) && n <= |all|
    requires forall x, y :: Before(all, x, y) ==> Beats(items, x, y)
    ensures IsTop(all[..n], items)
  {
    hide Beats;
    var ranked := all[..n];
    assert all == ranked + all[n..];
    forall i, j | 0 <= i < j < |ranked| ensures Beats(items, ranked[i], ranked[j]) {
      assert all[i] == ranked[i] && all[j] == ranked[j];
      assert Before(all, ranked[i], ranked[j]);
    }
    hide Before;
    forall x, y | x in ranked && y in items && y !in ranked ensures Beats(items, x, y) {
      CutBefore(all, n, x, y);
    }
  }

  lemma EarlierBeats(items: seq<Item>, x: Item, y: Item)
    requires Distinct(Names(items)) && Before(StableSort(ByScore(), items), x, y)
    ensures Beats(items, x, y)
  {
    SortedItems(items);
    if x.score == y.score { TiesKeepOrder(items, x, y); }
  }

  lemma CutBefore(all: seq<Item>, n: nat, x: Item, y: Item)
    requires n <= |all| && x in all[..n] && y in all && y !in all[..n]
    ensures Before(all, x, y)
  {
    var kept, rest := all[..n], all[n..];
    assert all == kept + rest;
    var i :| 0 <= i < n && kept[i] == x;
    var j :| 0 <= j < |rest| && rest[j] == y;
    assert all[i] == x && all[n + j] == y;
  }

  // ----- reordering the candidates -----

  datatype Vector = Vector(id: Id, values: seq<real>)

  ghost predicate DistinctIds(vectors: seq<Vector>) {
    forall i, j :: 0 <= i < j < |vectors| ==> vectors[i].id != vectors[j].id
  }

  ghost predicate HasId(vectors: seq<Vector>, x: Id) {
    exists v :: v in vectors && v.id == x
  }

  /** A dictionary of vectors under their own ids. */
  ghost predicate Keyed(byId: map<Id, Vector>) {
    forall x :: x in byId ==> byId[x].id == x
  }

  /** `{v.id: v for v in vectors}` */
  method ById(vectors: seq<Vector>) returns (byId: map<Id, Vector>)
    requires DistinctIds(vectors)
    ensures Keyed(byId)
    ensures forall v :: v in vectors ==> v.id in byId && byId[v.id] == v
    ensures forall x :: x in byId ==> byId[x] in vectors
  {
    byId := map[];
    for i := 0 to |vectors|
      invariant Keyed(byId)
      invariant forall j :: 0 <= j < i ==> vectors[j].id in byId && byId[vectors[j].id] == vectors[j]
      invariant forall x :: x in byId ==> byId[x] in vectors
    {
      byId := byId[vectors[i].id := vectors[i]];
    }
  }

  /** Adds the stored vectors of the fused ids that are not among the candidates. */
  method FetchMissing(byId: map<Id, Vector>, fused: seq<Id>, store: map<Id, Vector>) returns (all: map<Id, Vector>)
    requires Keyed(byId) && Keyed(store)
    ensures Keyed(all)
    ensures forall x :: x in byId ==> x in all && all[x] == byId[x]
    ensures forall x :: x in all ==> x in byId || (x in fused && x in store && all[x] == store[x])
    ensures forall x :: x in fused && x in store ==> x in all
  {
    all := byId;
    for i := 0 to |fused|
      invariant Keyed(all)
      invariant forall x :: x in byId ==> x in all && all[x] == byId[x]
      invariant forall x :: x in all ==> x in byId || (x in fused && x in store && all[x] == store[x])
      invariant forall j :: 0 <= j < i && fused[j] in store ==> fused[j] in all
    {
      if fused[i] !in byId && fused[i] in store { all := all[fused[i] := store[fused[i]]]; }
    }
  }

  /** The vectors of `all` in the order of `fused`. */
  method Pick(all: map<Id, Vector>, fused: seq<Id>) returns (r: seq<Vector>)
    requires Keyed(all) && Distinct(fused)
    ensures DistinctIds(r) && forall a, b :: 0 <= a < b < |r| ==> Before(fused, r[a].id, r[b].id)
    ensures forall v :: v in r <==> v.id in fused && v.id in all && v == all[v.id]
  {
    r := [];
    ghost var places: seq<nat> := [];
    for i := 0 to |fused|
      invariant |places| == |r|
      invariant forall a :: 0 <= a < |r|
                  ==> places[a] < i && r[a].id == fused[places[a]] && r[a].id in all && r[a] == all[r[a].id]
      invariant forall a, b :: 0 <= a < b < |r| ==> places[a] < places[b]
      invariant forall j :: 0 <= j < i && fused[j] in all ==> all[fused[j]] in r
    {
      if fused[i] in all {
        r := r + [all[fused[i]]];
        places := places + [i];
      }
    }
  }

  /** What the reordering hands on: every candidate as it was, and stored vectors of fused ids that were no
      candidates. */
  ghost predicate Reordered(r: seq<Vector>, candidates: seq<Vector>, fused: seq<Id>, store: map<Id, Vector>) {
    && DistinctIds(r)
    && (forall a, b :: 0 <= a < b < |r| ==> Before(fused, r[a].id, r[b].id))
    && forall v :: v in r <==> v in candidates || IsFetched(v, candidates, fused, store)
  }

  ghost predicate IsFetched(v: Vector, candidates: seq<Vector>, fused: seq<Id>, store: map<Id, Vector>) {
    !HasId(candidates, v.id) && v.id in fused && v.id in store && v == store[v.id]
  }

  /**
     The candidates in fused order, with the vectors of keyword-only hits fetched from the store.
     `fused` is duplicate-free and holds every candidate, as a fusion of the candidates' ids does.
   */
  method ReorderCandidates(candidates: seq<Vector>, fused: seq<Id>, store: map<Id, Vector>) returns (r: seq<Vector>)
    requires DistinctIds(candidates) && Distinct(fused) && Keyed(store)
    requires forall v :: v in candidates ==> v.id in fused
    ensures Reordered(r, candidates, fused, store)
  {
    var byId := ById(candidates);
    var all := FetchMissing(byId, fused, store);
    var reordered := Pick(all, fused);
    r := if reordered != [] then reordered else candidates;
    ghost var owned := byId;
    forall v ensures v in reordered <==> v in candidates || IsFetched(v, candidates, fused, store) {
      assert v.id in owned <==> HasId(candidates, v.id);
      assert v in candidates ==> all[v.id] == v;
    }
    assert candidates != [] ==> candidates[0] in reordered;
  }
}
