/** Next-fit batching of embedding inputs (`ragzoom/telemetry_embeddings.py`), and why no batching
    needs fewer batches. */
module EmbeddingBatches {

  datatype Entry = Entry(id: string, text: string, tokens: nat)

  function Ids(entries: seq<Entry>): seq<string> {
    seq(|entries|, i requires 0 <= i < |entries| => entries[i].id)
  }

  function Texts(entries: seq<Entry>): seq<string> {
    seq(|entries|, i requires 0 <= i < |entries| => entries[i].text)
  }

  function TokenSum(entries: seq<Entry>): nat {
    if entries == [] then 0 else TokenSum(entries[..|entries| - 1]) + entries[|entries| - 1].tokens
  }

  function Flatten(groups: seq<seq<Entry>>): seq<Entry> {
    if groups == [] then [] else Flatten(groups[..|groups| - 1]) + groups[|groups| - 1]
  }

  /** A batch the provider takes: a single entry of any size, or several within both limits. */
  ghost predicate Fits(batch: seq<Entry>, maxItems: int, budget: int) {
    batch != [] && (|batch| == 1 || (|batch| <= maxItems && TokenSum(batch) <= budget))
  }

  /** `groups` cuts `entries` into consecutive batches that all fit. */
  ghost predicate IsBatching(groups: seq<seq<Entry>>, entries: seq<Entry>, maxItems: int, budget: int) {
    Flatten(groups) == entries && forall k :: 0 <= k < |groups| ==> Fits(groups[k], maxItems, budget)
  }

  /** Batch `k` could not have taken in the first entry of the batch after it. */
  ghost predicate FullAt(groups: seq<seq<Entry>>, k: nat, maxItems: int, budget: int)
    requires k + 1 < |groups|
  {
    groups[k + 1] != [] && !Fits(groups[k] + [groups[k + 1][0]], maxItems, budget)
  }

  /** No batch but the last could have taken in the entry after it. */
  ghost predicate Filled(groups: seq<seq<Entry>>, maxItems: int, budget: int) {
    forall k :: 0 <= k < |groups| - 1 ==> FullAt(groups, k, maxItems, budget)
  }

  /** The batches as the source returns them: a list of ids and a list of texts each. */
  ghost predicate Presents(batches: seq<(seq<string>, seq<string>)>, groups: seq<seq<Entry>>) {
    |batches| == |groups| && forall k :: 0 <= k < |groups| ==> batches[k] == (Ids(groups[k]), Texts(groups[k]))
  }

  /** The closed batches and the one being filled, between two entries. */
  ghost predicate Filling(groups: seq<seq<Entry>>, current: seq<Entry>, entries: seq<Entry>, maxItems: int,
                          budget: int) {
    && Filled(groups, maxItems, budget)
    && IsBatching(groups + [current], entries, maxItems, budget)
    && (groups != [] ==> !Fits(groups[|groups| - 1] + [current[0]], maxItems, budget))
  }

  lemma FlattenMore(groups: seq<seq<Entry>>, batch: seq<Entry>)
    ensures Flatten(groups + [batch]) == Flatten(groups) + batch
  {
    assert (groups + [batch])[..|groups|] == groups;
  }

  lemma SumMore(s: seq<Entry>, e: Entry)
    ensures TokenSum(s + [e]) == TokenSum(s) + e.tokens
    ensures Ids(s + [e]) == Ids(s) + [e.id] && Texts(s + [e]) == Texts(s) + [e.text]
  {
    assert (s + [e])[..|s|] == s;
  }

  lemma Close(groups: seq<seq<Entry>>, current: seq<Entry>, entries: seq<Entry>, maxItems: int, budget: int)
    requires Filling(groups, current, entries, maxItems, budget)
    ensures Filled(groups + [current], maxItems, budget)
  {
    var g := groups + [current];
    assert Fits(g[|groups|], maxItems, budget);
    forall k | 0 <= k < |g| - 1 ensures FullAt(g, k, maxItems, budget) {
      if k + 1 < |groups| { assert FullAt(groups, k, maxItems, budget); }
    }
  }

  /** An entry that does not fit opens a new batch. */
  lemma OpenNext(groups: seq<seq<Entry>>, current: seq<Entry>, entries: seq<Entry>, e: Entry, maxItems: int,
                 budget: int)
    requires Filling(groups, current, entries, maxItems, budget) && !Fits(current + [e], maxItems, budget)
    ensures Filling(groups + [current], [e], entries + [e], maxItems, budget)
  {
    Close(groups, current, entries, maxItems, budget);
    FlattenMore(groups + [current], [e]);
    forall k | 0 <= k < |groups| + 2 ensures Fits((groups + [current] + [[e]])[k], maxItems, budget) {
      if k <= |groups| { assert (groups + [current] + [[e]])[k] == (groups + [current])[k]; }
    }
  }

  /** An entry that fits is added to the batch being filled. */
  lemma AddOne(groups: seq<seq<Entry>>, current: seq<Entry>, entries: seq<Entry>, e: Entry, maxItems: int, budget: int)
    requires Filling(groups, current, entries, maxItems, budget) && Fits(current + [e], maxItems, budget)
    ensures Filling(groups, current + [e], entries + [e], maxItems, budget)
  {
    FlattenMore(groups, current);
    FlattenMore(groups, current + [e]);
    FillingNotEmpty(groups, current, entries, maxItems, budget);
    assert (current + [e])[0] == current[0];
    hide Flatten;
    hide Filled;
    hide Fits;
    forall k | 0 <= k < |groups| + 1 ensures Fits((groups + [current + [e]])[k], maxItems, budget) {
      if k < |groups| { assert (groups + [current])[k] == groups[k]; }
    }
  }

  lemma FillingNotEmpty(groups: seq<seq<Entry>>, current: seq<Entry>, entries: seq<Entry>, maxItems: int, budget: int)
    requires Filling(groups, current, entries, maxItems, budget)
    ensures current != []
  {
    assert Fits((groups + [current])[|groups|], maxItems, budget);
  }

  lemma First(e: Entry, maxItems: int, budget: int)
    ensures Filling([], [e], [e], maxItems, budget)
  {
    FlattenMore([], [e]);
    assert [] + [[e]] == [[e]];
  }

  // ----- optimality -----

  lemma {:induction false} SumOfPart(s: seq<Entry>, a: nat, b: nat)
    requires a <= b <= |s|
    ensures TokenSum(s[a..b]) <= TokenSum(s)
  {
    if s != [] {
      var front := s[..|s| - 1];
      if b == |s| && a < b {
        SumOfPart(front, a, b - 1);
        assert s[a..b] == front[a..b - 1] + [s[b - 1]];
        SumMore(front[a..b - 1], s[b - 1]);
      } else if b < |s| {
        SumOfPart(front, a, b);
        assert s[a..b] == front[a..b];
      }
    }
  }

  /** Every non-empty consecutive part of a batch that fits, fits. */
  lemma PartFits(batch: seq<Entry>, a: nat, b: nat, maxItems: int, budget: int)
    requires Fits(batch, maxItems, budget) && a < b <= |batch|
    ensures Fits(batch[a..b], maxItems, budget)
  {
    SumOfPart(batch, a, b);
  }

  /** The first `k` batches hold a prefix of the entries, the `k`-th of them its last stretch. */
  lemma {:induction false} Prefix(groups: seq<seq<Entry>>, entries: seq<Entry>, k: nat)
    requires Flatten(groups) == entries && k <= |groups|
    ensures Flatten(groups[..k]) <= entries
    ensures k > 0 ==> Flatten(groups[..k]) == Flatten(groups[..k - 1]) + groups[k - 1]
    decreases |groups| - k
  {
    if k > 0 {
      assert groups[..k][..k - 1] == groups[..k - 1];
    }
    if k < |groups| {
      Prefix(groups, entries, k + 1);
      assert groups[..k + 1][..k] == groups[..k];
    } else {
      assert groups[..k] == groups;
    }
  }

  lemma SliceOfSlice(s: seq<Entry>, a: nat, b: nat, x: nat, y: nat)
    requires a <= b <= |s| && x <= y <= b - a
    ensures s[a..b][x..y] == s[a + x..a + y]
  {
    forall i | 0 <= i < y - x ensures s[a..b][x..y][i] == s[a + x..a + y][i] {
      assert s[a..b][x + i] == s[a + x + i];
    }
  }

  /** A batch that starts no later than a stretch that does not fit ends before that stretch does. */
  lemma EndsBefore(entries: seq<Entry>, from: nat, to: nat, otherFrom: nat, otherTo: nat, maxItems: int, budget: int)
    requires otherFrom <= from <= to < |entries| && otherFrom <= otherTo <= |entries|
    requires Fits(entries[otherFrom..otherTo], maxItems, budget) && !Fits(entries[from..to + 1], maxItems, budget)
    ensures otherTo <= to
  {
    if to < otherTo {
      var batch := entries[otherFrom..otherTo];
      SliceOfSlice(entries, otherFrom, otherTo, from - otherFrom, to + 1 - otherFrom);
      PartFits(batch, from - otherFrom, to + 1 - otherFrom, maxItems, budget);
    }
  }

  /** Where the first `k` batches end. */
  ghost function EndOf(groups: seq<seq<Entry>>, k: nat): nat
    requires k <= |groups|
  {
    |Flatten(groups[..k])|
  }

  lemma Stretch(groups: seq<seq<Entry>>, entries: seq<Entry>, maxItems: int, budget: int, k: nat)
    requires IsBatching(groups, entries, maxItems, budget) && 0 < k <= |groups|
    ensures EndOf(groups, k - 1) <= EndOf(groups, k) <= |entries|
    ensures groups[k - 1] == entries[EndOf(groups, k - 1)..EndOf(groups, k)] && Fits(groups[k - 1], maxItems, budget)
    ensures k == |groups| ==> EndOf(groups, k) == |entries|
  {
    Prefix(groups, entries, k - 1);
    Prefix(groups, entries, k);
    assert k == |groups| ==> groups[..k] == groups;
  }

  lemma FullStretch(groups: seq<seq<Entry>>, entries: seq<Entry>, maxItems: int, budget: int, k: nat)
    requires IsBatching(groups, entries, maxItems, budget) && Filled(groups, maxItems, budget) && 0 < k < |groups|
    ensures EndOf(groups, k - 1) <= EndOf(groups, k) < |entries|
    ensures !Fits(entries[EndOf(groups, k - 1)..EndOf(groups, k) + 1], maxItems, budget)
  {
    Stretch(groups, entries, maxItems, budget, k);
    Stretch(groups, entries, maxItems, budget, k + 1);
    assert FullAt(groups, k - 1, maxItems, budget);
    assert groups[k - 1] + [groups[k][0]] == entries[EndOf(groups, k - 1)..EndOf(groups, k) + 1];
  }

  /** After as many batches, next-fit has got at least as far into the entries as any other batching. */
  lemma {:induction false} StaysAhead(groups: seq<seq<Entry>>, other: seq<seq<Entry>>, entries: seq<Entry>,
                                      maxItems: int, budget: int, k: nat)
    requires IsBatching(groups, entries, maxItems, budget) && Filled(groups, maxItems, budget)
    requires IsBatching(other, entries, maxItems, budget)
    requires k <= |groups| && k <= |other|
    ensures EndOf(other, k) <= EndOf(groups, k)
  {
    if k > 0 {
      StaysAhead(groups, other, entries, maxItems, budget, k - 1);
      hide *;
      Stretch(other, entries, maxItems, budget, k);
      Stretch(groups, entries, maxItems, budget, k);
      if k < |groups| {
        FullStretch(groups, entries, maxItems, budget, k);
        EndsBefore(entries, EndOf(groups, k - 1), EndOf(groups, k), EndOf(other, k - 1), EndOf(other, k), maxItems,
            budget);
      }
    }
  }

  /** Next-fit is optimal: no way of cutting the entries into batches that fit uses fewer. */
  lemma NextFitIsOptimal(groups: seq<seq<Entry>>, other: seq<seq<Entry>>, entries: seq<Entry>, maxItems: int,
                         budget: int)
    requires IsBatching(groups, entries, maxItems, budget) && Filled(groups, maxItems, budget)
    requires IsBatching(other, entries, maxItems, budget)
    ensures |groups| <= |other|
  {
    if |other| < |groups| {
      StaysAhead(groups, other, entries, maxItems, budget, |other|);
      assert other[..|other|] == other;
      Stretch(groups, entries, maxItems, budget, |other| + 1);
    }
  }

  // ----- the batches -----

  method BuildEmbeddingBatches(entries: seq<Entry>, maxItems: int, budget: int)
    returns (batches: seq<(seq<string>, seq<string>)>)
    ensures exists groups ::
              Presents(batches, groups) && IsBatching(groups, entries, maxItems, budget)
                  && Filled(groups, maxItems, budget)
    ensures forall other :: IsBatching(other, entries, maxItems, budget) ==> |batches| <= |other|
  {
    batches := [];
    ghost var groups: seq<seq<Entry>> := [];
    if entries == [] {
      assert IsBatching(groups, entries, maxItems, budget);
      assert Presents(batches, groups) && Filled(groups, maxItems, budget);
      return;
    }
    hide Filled;
    var currentIds: seq<string>, currentTexts: seq<string> := [], [];
    var runningTokens := 0;
    ghost var current: seq<Entry> := [];
    for i := 0 to |entries|
      invariant currentIds == Ids(current) && currentTexts == Texts(current) && runningTokens == TokenSum(current)
      invariant Presents(batches, groups)
      invariant i == 0 ==> current == [] && groups == []
      invariant i > 0 ==> Filling(groups, current, entries[..i], maxItems, budget)
    {
      var entry := entries[i];
      var exceeds := currentIds != [] && (|currentIds| >= maxItems || runningTokens + entry.tokens > budget);
      assert entries[..i + 1] == entries[..i] + [entry];
      SumMore(current, entry);
      if i == 0 {
        First(entry, maxItems, budget);
      } else {
        FillingNotEmpty(groups, current, entries[..i], maxItems, budget);
        assert exceeds <==> !Fits(current + [entry], maxItems, budget);
        if exceeds {
          OpenNext(groups, current, entries[..i], entry, maxItems, budget);
        } else {
          AddOne(groups, current, entries[..i], entry, maxItems, budget);
        }
      }
      if exceeds {
        batches := batches + [(currentIds, currentTexts)];
        groups := groups + [current];
        currentIds, currentTexts, runningTokens, current := [], [], 0, [];
        SumMore(current, entry);
      }
      currentIds := currentIds + [entry.id];
      currentTexts := currentTexts + [entry.text];
      runningTokens := runningTokens + entry.tokens;
      current := current + [entry];
    }
    assert entries[..|entries|] == entries;
    if currentIds != [] {
      batches := batches + [(currentIds, currentTexts)];
      Close(groups, current, entries, maxItems, budget);
      groups := groups + [current];
    }
    assert Presents(batches, groups);
    forall other | IsBatching(other, entries, maxItems, budget) ensures |batches| <= |other| {
      NextFitIsOptimal(groups, other, entries, maxItems, budget);
    }
  }
}
