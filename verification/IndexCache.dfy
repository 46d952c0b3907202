/** The least-recently-used cache of search indexes (`ragzoom/bm25.py`), over whole runs of calls. */
module IndexCache {
  import opened Options
  import opened Sorting

  datatype DocId = DocId(name: string)

  /** The texts an index is built from, by node id. */
  type Documents = map<string, string>

  datatype BM25Index = BM25Index(documents: Documents)

  datatype Call = GetOrBuild(id: DocId, documents: Documents) | Clear

  // ----- what a run of calls means -----

  function Without(s: seq<DocId>, x: DocId): seq<DocId> {
    if s == [] then [] else (if s[0] == x then [] else [s[0]]) + Without(s[1..], x)
  }

  /** The last `size` elements. */
  function Newest(s: seq<DocId>, size: nat): seq<DocId> {
    if |s| <= size then s else s[|s| - size..]
  }

  /** The ids used since the last clear, least recently used first. */
  ghost function Recency(run: seq<Call>): seq<DocId> {
    if run == [] then [] else
    match run[|run| - 1]
    case Clear => []
    case GetOrBuild(id, _) => Without(Recency(run[..|run| - 1]), id) + [id]
  }

  /** The cached ids after a run, in eviction order. */
  ghost function Cached(run: seq<Call>, size: nat): seq<DocId> {
    Newest(Recency(run), size)
  }

  /** What the cached index of `id` was built from: the documents passed at its latest miss. */
  ghost function BuiltFrom(run: seq<Call>, size: nat, id: DocId): Documents {
    if run == [] then map[] else
    var before, call := run[..|run| - 1], run[|run| - 1];
    if call.GetOrBuild? && call.id == id && id !in Cached(before, size) then call.documents
    else BuiltFrom(before, size, id)
  }

  /** When `id` was last used, as a position in the run; -1 if not since the last clear. */
  ghost function LastUse(run: seq<Call>, id: DocId): int {
    if run == [] then -1 else
    match run[|run| - 1]
    case Clear => -1
    case GetOrBuild(x, _) => if x == id then |run| - 1 else LastUse(run[..|run| - 1], id)
  }

  // ----- recency lists -----

  lemma {:induction false} WithoutMembers(s: seq<DocId>, x: DocId)
    ensures forall y :: y in Without(s, x) <==> y in s && y != x
    ensures Distinct(s) ==> Distinct(Without(s, x))
  {
    if s != [] {
      WithoutMembers(s[1..], x);
      var rest := Without(s[1..], x);
      assert s == [s[0]] + s[1..];
      assert Distinct(s) ==> s[0] !in s[1..];
      if s[0] == x { assert Without(s, x) == rest; }
    }
  }

  lemma {:induction false} WithoutAbsent(s: seq<DocId>, x: DocId)
    requires x !in s
    ensures Without(s, x) == s
  {
    if s != [] { WithoutAbsent(s[1..], x); }
  }

  lemma {:induction false} WithoutConcat(s: seq<DocId>, t: seq<DocId>, x: DocId)
    ensures Without(s + t, x) == Without(s, x) + Without(t, x)
  {
    if s == [] {
      assert s + t == t;
    } else {
      assert (s + t)[1..] == s[1..] + t;
      WithoutConcat(s[1..], t, x);
    }
  }

  lemma {:induction false} WithoutLength(s: seq<DocId>, x: DocId)
    requires Distinct(s)
    ensures |Without(s, x)| == if x in s then |s| - 1 else |s|
  {
    if s != [] {
      if s[0] == x {
        assert x !in s[1..];
        WithoutAbsent(s[1..], x);
      } else {
        WithoutLength(s[1..], x);
      }
    }
  }

  lemma {:induction false} RecencyDistinct(run: seq<Call>)
    ensures Distinct(Recency(run))
  {
    if run != [] {
      var call := run[|run| - 1];
      RecencyDistinct(run[..|run| - 1]);
      if call.GetOrBuild? {
        WithoutMembers(Recency(run[..|run| - 1]), call.id);
        var rest := Without(Recency(run[..|run| - 1]), call.id);
        assert forall i :: 0 <= i < |rest| ==> rest[i] in rest;
      }
    }
  }

  lemma NewestSuffix(a: seq<DocId>, b: seq<DocId>, size: nat)
    requires |b| >= size || a == []
    ensures Newest(a + b, size) == Newest(b, size)
  {
    if a == [] { assert a + b == b; }
  }

  lemma NewestSplit(full: seq<DocId>, size: nat) returns (older: seq<DocId>)
    ensures full == older + Newest(full, size)
    ensures |Newest(full, size)| >= size || older == []
    ensures Distinct(full) ==> Distinct(Newest(full, size)) && forall x :: x in Newest(full, size) ==> x !in older
  {
    var kept := Newest(full, size);
    older := full[..|full| - |kept|];
    assert full == older + kept;
    if Distinct(full) { DistinctParts(older, kept); }
  }

  lemma DistinctParts(a: seq<DocId>, b: seq<DocId>)
    requires Distinct(a + b)
    ensures Distinct(b) && forall x :: x in b ==> x !in a
  {
    var s := a + b;
    forall i, j | 0 <= i < j < |b| ensures b[i] != b[j] { assert b[i] == s[|a| + i] && b[j] == s[|a| + j]; }
    forall i, j | 0 <= i < |a| && 0 <= j < |b| ensures a[i] != b[j] { assert a[i] == s[i] && b[j] == s[|a| + j]; }
  }

  /** Moving a cached id to the end of the short list is moving it to the end of the full one. */
  lemma MoveToEnd(full: seq<DocId>, size: nat, x: DocId)
    requires Distinct(full) && x in Newest(full, size)
    ensures Newest(Without(full, x) + [x], size) == Without(Newest(full, size), x) + [x]
  {
    var kept := Newest(full, size);
    var older := NewestSplit(full, size);
    assert |kept| <= size;
    hide Newest;
    WithoutAbsent(older, x);
    WithoutConcat(older, kept, x);
    WithoutLength(kept, x);
    hide Without;
    var moved := Without(kept, x) + [x];
    assert Without(full, x) + [x] == older + moved;
    NewestSuffix(older, moved, size);
    NewestWhole(moved, size);
  }

  lemma NewestWhole(s: seq<DocId>, size: nat)
    requires |s| <= size
    ensures Newest(s, size) == s
  {
  }

  /** Adding an id that is not cached and evicting from the front keeps the newest of the full list. */
  lemma AddAtEnd(full: seq<DocId>, size: nat, x: DocId)
    requires Distinct(full) && x !in Newest(full, size)
    ensures Newest(Without(full, x) + [x], size) == Newest(Newest(full, size) + [x], size)
  {
    var kept := Newest(full, size);
    var older := NewestSplit(full, size);
    hide Newest;
    WithoutAbsent(kept, x);
    WithoutConcat(older, kept, x);
    assert older == [] ==> Without(older, x) == [];
    hide Without;
    assert Without(full, x) + [x] == Without(older, x) + (kept + [x]);
    NewestSuffix(Without(older, x), kept + [x], size);
  }

  lemma DistinctAppend(s: seq<DocId>, x: DocId)
    requires Distinct(s) && x !in s
    ensures Distinct(s + [x])
  {
  }

  /** How one more lookup changes what is cached. */
  lemma CachedAfter(run: seq<Call>, id: DocId, documents: Documents, size: nat)
    requires size >= 1
    ensures var before := Cached(run, size);
            && Distinct(before)
            && Cached(run + [GetOrBuild(id, documents)], size)
               == (if id in before then Without(before, id) + [id] else Newest(before + [id], size))
            && (id !in before ==> Distinct(before + [id]))
  {
    var now := run + [GetOrBuild(id, documents)];
    assert now[..|now| - 1] == run;
    RecencyDistinct(run);
    var older := NewestSplit(Recency(run), size);
    hide Newest;
    hide Without;
    hide Distinct;
    if id in Cached(run, size) {
      MoveToEnd(Recency(run), size, id);
    } else {
      DistinctAppend(Cached(run, size), id);
      AddAtEnd(Recency(run), size, id);
    }
  }

  /** How one more lookup changes what the indexes were built from. */
  lemma BuiltAfter(run: seq<Call>, id: DocId, documents: Documents, size: nat)
    ensures forall x :: BuiltFrom(run + [GetOrBuild(id, documents)], size, x)
                        == if x == id && id !in Cached(run, size) then documents else BuiltFrom(run, size, x)
  {
    var now := run + [GetOrBuild(id, documents)];
    assert now[..|now| - 1] == run;
  }

  lemma LastIsNewest(s: seq<DocId>, x: DocId, size: nat)
    requires size >= 1
    ensures x in Newest(s + [x], size)
    ensures forall y :: y in Newest(s + [x], size) && y != x ==> y in s
  {
    var kept := Newest(s + [x], size);
    assert kept[|kept| - 1] == x;
  }

  // ----- the cache -----

  /** The values are there for exactly the listed keys. */
  ghost predicate Indexed(order: seq<DocId>, entries: map<DocId, BM25Index>) {
    forall x :: x in entries <==> x in order
  }

  /** The dictionary holds the cached ids in order, each with the index built at its latest miss. */
  ghost predicate Represents(order: seq<DocId>, entries: map<DocId, BM25Index>, run: seq<Call>, size: nat) {
    && order == Cached(run, size)
    && Indexed(order, entries)
    && forall x :: x in order ==> entries[x] == BM25Index(BuiltFrom(run, size, x))
  }

  lemma Hit(order: seq<DocId>, entries: map<DocId, BM25Index>, run: seq<Call>, size: nat, id: DocId,
            documents: Documents)
    requires Represents(order, entries, run, size) && id in entries && size >= 1
    ensures Represents(Without(order, id) + [id], entries, run + [GetOrBuild(id, documents)], size)
  {
    CachedAfter(run, id, documents, size);
    BuiltAfter(run, id, documents, size);
    WithoutMembers(order, id);
  }

  lemma Miss(order: seq<DocId>, entries: map<DocId, BM25Index>, run: seq<Call>, size: nat, id: DocId,
             documents: Documents, kept: seq<DocId>, values: map<DocId, BM25Index>)
    requires Represents(order, entries, run, size) && id !in entries && size >= 1
    requires kept == Newest(order + [id], size) && Indexed(kept, values)
    requires forall x :: x in kept
               ==> values[x] == if x == id || x !in entries then BM25Index(documents) else entries[x]
    ensures Represents(kept, values, run + [GetOrBuild(id, documents)], size) && id in kept
  {
    CachedAfter(run, id, documents, size);
    BuiltAfter(run, id, documents, size);
    LastIsNewest(order, id, size);
  }

  /** `popitem(last=False)` until there are no more than `size` entries. */
  method Evict(order: seq<DocId>, entries: map<DocId, BM25Index>, size: nat)
    returns (kept: seq<DocId>, values: map<DocId, BM25Index>)
    requires Distinct(order) && Indexed(order, entries)
    ensures kept == Newest(order, size) && Indexed(kept, values)
    ensures forall x :: x in kept ==> x in entries && values[x] == entries[x]
  {
    kept, values := order, entries;
    ghost var n := 0;
    while |kept| > size
      invariant n <= |order| && kept == order[n..] && (n == 0 || |order| - n >= size)
      invariant Indexed(kept, values)
      invariant forall x :: x in kept ==> x in entries && values[x] == entries[x]
      decreases |kept|
    {
      TailMembers(order, n);
      values := values - {kept[0]};
      kept := kept[1..];
      n := n + 1;
    }
  }

  lemma TailMembers(s: seq<DocId>, n: nat)
    requires Distinct(s) && n < |s|
    ensures s[n..][1..] == s[n + 1..]
    ensures forall x :: x in s[n + 1..] <==> x in s[n..] && x != s[n]
  {
    assert s[n..] == [s[n]] + s[n + 1..];
  }

  class BM25IndexCache {
    /** The ordered dictionary: its keys in order, and its values. */
    var order: seq<DocId>
    var entries: map<DocId, BM25Index>
    const maxSize: nat
    /** All calls so far. */
    ghost var run: seq<Call>

    ghost predicate Valid()
      reads this
    {
      maxSize >= 1 && Represents(order, entries, run, maxSize)
    }

    constructor (size: nat)
      requires size >= 1
      ensures Valid() && maxSize == size && run == []
    {
      order, entries, maxSize, run := [], map[], size, [];
    }

    static method Create(size: int) returns (r: Result<BM25IndexCache>)
      ensures r.ValueError? <==> size < 1
      ensures r.Ok? ==> fresh(r.value) && r.value.Valid() && r.value.maxSize == size && r.value.run == []
    {
      if size < 1 { return ValueError("max_size must be at least 1"); }
      var cache := new BM25IndexCache(size);
      r := Ok(cache);
    }

    method Get(id: DocId, documents: Documents) returns (index: BM25Index)
      requires Valid()
      modifies this
      ensures Valid() && run == old(run) + [GetOrBuild(id, documents)]
      ensures id in order && index == entries[id] == BM25Index(BuiltFrom(run, maxSize, id))
    {
      ghost var before := run;
      run := run + [GetOrBuild(id, documents)];
      if id in entries {
        Hit(order, entries, before, maxSize, id, documents);
        order := Without(order, id) + [id];
        return entries[id];
      }
      CachedAfter(before, id, documents, maxSize);
      index := BM25Index(documents);
      var kept, values := Evict(order + [id], entries[id := index], maxSize);
      Miss(order, entries, before, maxSize, id, documents, kept, values);
      order, entries := kept, values;
    }

    method Length() returns (n: nat)
      requires Valid()
      ensures n == |Cached(run, maxSize)| <= maxSize
    {
      n := |order|;
    }

    method Contains(id: DocId) returns (b: bool)
      requires Valid()
      ensures b <==> id in Cached(run, maxSize)
    {
      b := id in entries;
    }

    method Empty()
      requires Valid()
      modifies this
      ensures Valid() && run == old(run) + [Clear] && order == []
    {
      order, entries := [], map[];
      run := run + [Clear];
    }
  }

  // ----- what the recency list says -----

  /** It lists each id used since the last clear once, ordered by last use. */
  lemma {:induction false} RecencyMeaning(run: seq<Call>)
    ensures forall x :: x in Recency(run) <==> LastUse(run, x) >= 0
    ensures forall i, j :: 0 <= i < j < |Recency(run)| ==> LastUse(run, Recency(run)[i]) < LastUse(run, Recency(run)[j])
    ensures forall x :: LastUse(run, x) < |run|
  {
    if run != [] && run[|run| - 1].GetOrBuild? {
      var before, id := run[..|run| - 1], run[|run| - 1].id;
      RecencyMeaning(before);
      WithoutMembers(Recency(before), id);
      WithoutOrder(Recency(before), before, id);
    }
  }

  lemma {:induction false} WithoutOrder(s: seq<DocId>, run: seq<Call>, x: DocId)
    requires forall i, j :: 0 <= i < j < |s| ==> LastUse(run, s[i]) < LastUse(run, s[j])
    ensures forall i, j :: 0 <= i < j < |Without(s, x)|
              ==> LastUse(run, Without(s, x)[i]) < LastUse(run, Without(s, x)[j])
  {
    if s != [] {
      hide *;
      var tail := s[1..];
      WithoutOrder(tail, run, x);
      WithoutMembers(tail, x);
      WithoutUnfold(s, x);
      ConsOrder(run, s[0], tail, Without(tail, x));
    }
  }

  lemma ConsOrder(run: seq<Call>, first: DocId, tail: seq<DocId>, rest: seq<DocId>)
    requires forall j :: 0 <= j < |tail| ==> LastUse(run, first) < LastUse(run, tail[j])
    requires forall i, j :: 0 <= i < j < |rest| ==> LastUse(run, rest[i]) < LastUse(run, rest[j])
    requires forall y :: y in rest ==> y in tail
    ensures var r := [first] + rest;
            forall i, j :: 0 <= i < j < |r| ==> LastUse(run, r[i]) < LastUse(run, r[j])
  {
    hide *;
    var r := [first] + rest;
    forall i, j | 0 <= i < j < |r| ensures LastUse(run, r[i]) < LastUse(run, r[j]) {
      assert r[j] == rest[j - 1] && rest[j - 1] in tail;
      if i > 0 { assert r[i] == rest[i - 1]; }
    }
  }

  lemma WithoutUnfold(s: seq<DocId>, x: DocId)
    requires s != []
    ensures Without(s, x) == if s[0] == x then Without(s[1..], x) else [s[0]] + Without(s[1..], x)
  {
  }

  /** The ids used since `id` was, without counting any of them twice. */
  ghost function UsedSince(run: seq<Call>, id: DocId): set<DocId> {
    set x | x in Recency(run) && LastUse(run, x) > LastUse(run, id)
  }

  /** An id is cached exactly when fewer than `size` other ids have been used since it last was. */
  lemma CachedIffRecent(run: seq<Call>, size: nat, id: DocId)
    ensures id in Cached(run, size) <==> LastUse(run, id) >= 0 && |UsedSince(run, id)| < size
  {
    var r := Recency(run);
    RecencyMeaning(run);
    RecencyDistinct(run);
    hide Recency;
    hide LastUse;
    if id in r {
      var k :| 0 <= k < |r| && r[k] == id;
      LaterUsed(run, r, k);
      DistinctSize(r[k + 1..]);
      InNewest(r, size, k);
    } else {
      var older := NewestSplit(r, size);
    }
  }

  lemma LaterUsed(run: seq<Call>, r: seq<DocId>, k: nat)
    requires r == Recency(run) && Distinct(r) && k < |r|
    requires forall i, j :: 0 <= i < j < |r| ==> LastUse(run, r[i]) < LastUse(run, r[j])
    ensures var later := r[k + 1..]; Distinct(later) && UsedSince(run, r[k]) == set x | x in later
  {
    hide Recency;
    hide LastUse;
    var later := r[k + 1..];
    forall x ensures x in later <==> x in UsedSince(run, r[k]) {
      if x in UsedSince(run, r[k]) {
        var i :| 0 <= i < |r| && r[i] == x;
        assert r[i] == later[i - k - 1];
      }
    }
  }

  lemma InNewest(s: seq<DocId>, size: nat, k: nat)
    requires Distinct(s) && k < |s|
    ensures s[k] in Newest(s, size) <==> |s| - k <= size
  {
    if |s| - k <= size && |s| > size { assert Newest(s, size)[k - (|s| - size)] == s[k]; }
  }

  /** A larger cache holds whatever a smaller one holds after the same run. */
  lemma LargerHoldsMore(run: seq<Call>, small: nat, large: nat, id: DocId)
    requires small <= large && id in Cached(run, small)
    ensures id in Cached(run, large)
  {
    CachedIffRecent(run, small, id);
    CachedIffRecent(run, large, id);
  }
}
