/**
 Chunk reconstruction and leaf coverage (`ragzoom/splitter.py`, `validate_document_coverage`
 in `ragzoom/validate.py`): when no character of a document is lost between its chunks.
 */
module Splitter {
  import opened Options
  import opened Sorting

  function Concat(chunks: seq<string>): string {
    if chunks == [] then "" else chunks[0] + Concat(chunks[1..])
  }

  predicate OccursAt(text: string, pattern: string, at: int) {
    0 <= at && at + |pattern| <= |text| && text[at..at + |pattern|] == pattern
  }

  /** `str.find`: the leftmost occurrence at or after `from`, or -1. */
  function Find(text: string, pattern: string, from: nat): (at: int)
    ensures at == -1 ==> forall i :: from <= i ==> !OccursAt(text, pattern, i)
    ensures at != -1 ==> from <= at && OccursAt(text, pattern, at)
                         && forall i :: from <= i < at ==> !OccursAt(text, pattern, i)
    decreases |text| - from
  {
    if from + |pattern| > |text| then -1
    else if text[from..from + |pattern|] == pattern then from
    else if from == |text| then -1
    else Find(text, pattern, from + 1)
  }

  /** The chunks occur in the text at or after `from`, in order and without overlap. */
  ghost predicate InOrder(text: string, chunks: seq<string>, from: nat) {
    chunks == [] ||
    exists at: nat :: from <= at && OccursAt(text, chunks[0], at) && InOrder(text, chunks[1..], at + |chunks[0]|)
  }

  lemma InOrderEarlier(text: string, chunks: seq<string>, from: nat, earlier: nat)
    requires InOrder(text, chunks, from) && earlier <= from
    ensures InOrder(text, chunks, earlier)
  {
  }

  /** Taking the leftmost occurrence of the first chunk loses no arrangement. */
  lemma LeftmostSuffices(text: string, chunks: seq<string>, from: nat)
    requires chunks != []
    ensures var at := Find(text, chunks[0], from);
            InOrder(text, chunks, from) <==> at != -1 && InOrder(text, chunks[1..], at + |chunks[0]|)
  {
    if InOrder(text, chunks, from) {
      var at: nat :| from <= at && OccursAt(text, chunks[0], at) && InOrder(text, chunks[1..], at + |chunks[0]|);
      InOrderEarlier(text, chunks[1..], at + |chunks[0]|, Find(text, chunks[0], from) + |chunks[0]|);
    }
  }

  lemma {:induction false} PiecesOccur(text: string, chunks: seq<string>, from: nat)
    requires from <= |text| && text[from..] == Concat(chunks)
    ensures InOrder(text, chunks, from)
  {
    if chunks != [] {
      var next := from + |chunks[0]|;
      assert text[from..] == chunks[0] + Concat(chunks[1..]);
      assert text[next..] == text[from..][|chunks[0]|..] == Concat(chunks[1..]);
      PiecesOccur(text, chunks[1..], next);
      assert text[from..next] == text[from..][..|chunks[0]|];
      assert OccursAt(text, chunks[0], from);
    }
  }

  /** `chunks[-1] += more` */
  function ExtendLast(chunks: seq<string>, more: string): seq<string>
    requires chunks != []
  {
    chunks[|chunks| - 1 := chunks[|chunks| - 1] + more]
  }

  // ----- reconstruction -----

  /** Exactly when reconstruction gives the text back. */
  ghost predicate Lossless(text: string, raw: seq<string>) {
    if raw == [] then text == ""
    else if |raw| == 1 then raw[0] <= text
    else InOrder(text, raw, 0)
  }

  /** Where chunk `i - 1` ends if each chunk is found where `starts` says; 0 for the first one. */
  function EndBefore(raw: seq<string>, starts: seq<nat>, i: nat): nat
    requires i <= |raw| && i <= |starts|
  {
    if i == 0 then 0 else starts[i - 1] + |raw[i - 1]|
  }

  /** Each chunk starts at its leftmost occurrence after the end of the chunk before it. */
  ghost predicate Leftmost(text: string, raw: seq<string>, starts: seq<nat>) {
    |starts| == |raw| && forall i :: 0 <= i < |raw| ==> LeftmostAt(text, raw, starts, i)
  }

  ghost predicate LeftmostAt(text: string, raw: seq<string>, starts: seq<nat>, i: nat)
    requires i < |raw| && i < |starts|
  {
    starts[i] == Find(text, raw[i], EndBefore(raw, starts, i))
  }

  /** The chunks are found at `starts`, in order and without overlap. */
  ghost predicate Placed(text: string, raw: seq<string>, starts: seq<nat>) {
    && |starts| == |raw|
    && (forall i :: 0 <= i < |raw| ==> OccursAt(text, raw[i], starts[i]))
    && forall i :: 0 <= i < |raw| - 1 ==> starts[i] + |raw[i]| <= starts[i + 1]
  }

  lemma LeftmostIsPlaced(text: string, raw: seq<string>, starts: seq<nat>)
    requires Leftmost(text, raw, starts)
    ensures Placed(text, raw, starts)
  {
    forall i | 0 <= i < |raw| ensures OccursAt(text, raw[i], starts[i]) && EndBefore(raw, starts, i) <= starts[i] {
      assert LeftmostAt(text, raw, starts, i);
    }
  }

  lemma LeftmostMore(text: string, raw: seq<string>, starts: seq<nat>, chunk: string, at: nat)
    requires Leftmost(text, raw, starts) && at == Find(text, chunk, EndBefore(raw, starts, |raw|))
    ensures Leftmost(text, raw + [chunk], starts + [at])
  {
    hide Find;
    var r, s := raw + [chunk], starts + [at];
    forall i | 0 <= i < |r| ensures LeftmostAt(text, r, s, i) {
      assert EndBefore(r, s, i) == EndBefore(raw, starts, i);
      if i < |raw| { assert LeftmostAt(text, raw, starts, i); }
    }
  }

  lemma NothingLeft(text: string, from: nat)
    ensures InOrder(text, [], from)
  {
  }

  /** The scan over the raw chunks; `None` when one of them is not found. */
  method FindPositions(text: string, raw: seq<string>) returns (starts: Option<seq<nat>>)
    ensures starts.Some? <==> InOrder(text, raw, 0)
    ensures starts.Some? ==> Leftmost(text, raw, starts.value)
  {
    hide InOrder;
    hide Find;
    hide Leftmost;
    var found: seq<nat> := [];
    var searchStart: nat := 0;
    assert raw[0..] == raw;
    assert Leftmost(text, raw[..0], found) by { NoChunks(text, raw[..0]); }
    for i := 0 to |raw|
      invariant |found| == i && Leftmost(text, raw[..i], found)
      invariant searchStart == EndBefore(raw[..i], found, i)
      invariant InOrder(text, raw, 0) <==> InOrder(text, raw[i..], searchStart)
    {
      LeftmostSuffices(text, raw[i..], searchStart);
      assert raw[i..][1..] == raw[i + 1..];
      assert raw[..i + 1] == raw[..i] + [raw[i]];
      var at := Find(text, raw[i], searchStart);
      if at == -1 { return None; }
      LeftmostMore(text, raw[..i], found, raw[i], at);
      found := found + [at];
      searchStart := at + |raw[i]|;
    }
    assert raw[..|raw|] == raw;
    NothingLeft(text, searchStart);
    starts := Some(found);
  }

  lemma NoChunks(text: string, raw: seq<string>)
    requires raw == []
    ensures Leftmost(text, raw, [])
  {
  }

  /** Where the text is cut in front of chunk `i`: nowhere before the first chunk, and at its start before any other. */
  function CutAt(text: string, starts: seq<nat>, i: nat): nat {
    if i == 0 then 0 else if i < |starts| then starts[i] else |text|
  }

  ghost predicate IsPart(text: string, chunk: string, from: nat, to: nat) {
    from <= to <= |text| && chunk == text[from..to]
  }

  /** The text is cut at the start of every chunk but the first. */
  ghost predicate Cuts(text: string, starts: seq<nat>, chunks: seq<string>) {
    && |chunks| == |starts|
    && forall i :: 0 <= i < |chunks| ==> IsPart(text, chunks[i], CutAt(text, starts, i), CutAt(text, starts, i + 1))
  }

  /** The same for the first chunks, of which the last one reaches to `end` so far. */
  ghost predicate CutsTo(text: string, starts: seq<nat>, chunks: seq<string>, end: nat) {
    && 0 < |chunks| <= |starts|
    && (forall i :: 0 <= i < |chunks| - 1 ==>
          IsPart(text, chunks[i], CutAt(text, starts, i), CutAt(text, starts, i + 1)))
    && IsPart(text, chunks[|chunks| - 1], CutAt(text, starts, |chunks| - 1), end)
  }

  lemma ExtendPart(text: string, starts: seq<nat>, chunks: seq<string>, end: nat, to: nat)
    requires CutsTo(text, starts, chunks, end) && end <= to <= |text|
    ensures CutsTo(text, starts, ExtendLast(chunks, text[end..to]), to)
  {
    var from := CutAt(text, starts, |chunks| - 1);
    assert text[from..end] + text[end..to] == text[from..to];
    hide CutAt;
  }

  lemma NextPart(text: string, starts: seq<nat>, chunks: seq<string>, chunk: string, end: nat)
    requires CutsTo(text, starts, chunks, end) && |chunks| < |starts| && end == starts[|chunks|]
    requires OccursAt(text, chunk, end)
    ensures CutsTo(text, starts, chunks + [chunk], end + |chunk|)
  {
    hide Find;
  }

  /** Fills the gaps around chunks that have been found, each with the chunk before it. */
  method FillGaps(text: string, raw: seq<string>, starts: seq<nat>) returns (chunks: seq<string>)
    requires raw != [] && Placed(text, raw, starts)
    ensures Cuts(text, starts, chunks)
  {
    hide CutsTo;
    hide CutAt;
    chunks := [];
    for i := 0 to |raw|
      invariant |chunks| == i
      invariant i > 0 ==> CutsTo(text, starts, chunks, starts[i - 1] + |raw[i - 1]|)
    {
      assert OccursAt(text, raw[i], starts[i]);
      if i == 0 {
        var end := starts[0] + |raw[0]|;
        chunks := [if starts[0] > 0 then text[0..end] else raw[0]];
        FirstPart(text, starts, chunks, end);
      } else {
        var prevEnd := starts[i - 1] + |raw[i - 1]|;
        if starts[i] > prevEnd {
          ExtendPart(text, starts, chunks, prevEnd, starts[i]);
          chunks := ExtendLast(chunks, text[prevEnd..starts[i]]);
        }
        NextPart(text, starts, chunks, raw[i], starts[i]);
        chunks := chunks + [raw[i]];
      }
    }
    var lastEnd := starts[|raw| - 1] + |raw[|raw| - 1]|;
    if lastEnd < |text| {
      ExtendPart(text, starts, chunks, lastEnd, |text|);
      chunks := ExtendLast(chunks, text[lastEnd..]);
      assert text[lastEnd..] == text[lastEnd..|text|];
    }
    assert OccursAt(text, raw[|raw| - 1], starts[|raw| - 1]);
    AllCut(text, starts, chunks);
  }

  lemma FirstPart(text: string, starts: seq<nat>, chunks: seq<string>, end: nat)
    requires starts != [] && end <= |text| && chunks == [text[..end]]
    ensures CutsTo(text, starts, chunks, end)
  {
  }

  lemma AllCut(text: string, starts: seq<nat>, chunks: seq<string>)
    requires |chunks| == |starts| && CutsTo(text, starts, chunks, |text|)
    ensures Cuts(text, starts, chunks)
  {
  }

  lemma {:induction false} PartsFrom(text: string, starts: seq<nat>, chunks: seq<string>, i: nat)
    requires Cuts(text, starts, chunks) && 0 < i <= |chunks|
    ensures CutAt(text, starts, i) <= |text| && Concat(chunks[i..]) == text[CutAt(text, starts, i)..]
    decreases |chunks| - i
  {
    if i < |chunks| {
      PartsFrom(text, starts, chunks, i + 1);
      var from, to := CutAt(text, starts, i), CutAt(text, starts, i + 1);
      assert IsPart(text, chunks[i], from, to);
      assert chunks[i..][1..] == chunks[i + 1..];
      assert text[from..] == text[from..to] + text[to..];
    }
  }

  /** Cut in this way, the chunks are together the text, and hold their raw chunks. */
  lemma CutsKeepAll(text: string, raw: seq<string>, starts: seq<nat>, chunks: seq<string>)
    requires raw != [] && Placed(text, raw, starts) && Cuts(text, starts, chunks)
    ensures Concat(chunks) == text
    ensures |starts| == |chunks| == |raw| && starts[0] + |raw[0]| <= |text|
    ensures text[..starts[0] + |raw[0]|] <= chunks[0]
    ensures forall i :: 0 < i < |raw| ==> raw[i] <= chunks[i]
  {
    assert |starts| == |raw| == |chunks|;
    CutsConcat(text, starts, chunks);
    hide *;
    forall i | 0 < i < |raw| ensures raw[i] <= chunks[i] { PartHoldsRaw(text, raw, starts, chunks, i); }
    PartHoldsRaw(text, raw, starts, chunks, 0);
  }

  lemma CutsConcat(text: string, starts: seq<nat>, chunks: seq<string>)
    requires starts != [] && Cuts(text, starts, chunks)
    ensures Concat(chunks) == text
  {
    PartsFrom(text, starts, chunks, 1);
    assert IsPart(text, chunks[0], 0, CutAt(text, starts, 1));
    assert text == chunks[0] + text[CutAt(text, starts, 1)..];
    hide Cuts;
    hide IsPart;
    hide CutAt;
  }

  lemma PartHoldsRaw(text: string, raw: seq<string>, starts: seq<nat>, chunks: seq<string>, i: nat)
    requires Placed(text, raw, starts) && Cuts(text, starts, chunks) && i < |raw|
    ensures |starts| == |chunks| == |raw| && starts[i] + |raw[i]| <= |text|
    ensures if i > 0 then raw[i] <= chunks[i] else text[..starts[i] + |raw[i]|] <= chunks[i]
  {
    assert OccursAt(text, raw[i], starts[i]);
    assert IsPart(text, chunks[i], CutAt(text, starts, i), CutAt(text, starts, i + 1));
    assert starts[i] + |raw[i]| <= CutAt(text, starts, i + 1);
  }

  /**
     One chunk for each raw chunk, and together the text exactly when nothing is lost. A single chunk is
     filled up to the length of the text; chunks out of order are left as they are; otherwise the text is cut
     where the leftmost occurrences of the second and all later raw chunks start.
   */
  ghost predicate Reconstructed(text: string, raw: seq<string>, chunks: seq<string>) {
    && |chunks| == |raw|
    && (Concat(chunks) == text <==> Lossless(text, raw))
    && (|raw| == 1 ==>
          raw[0] <= chunks[0] && chunks[0][|raw[0]|..] == if |raw[0]| < |text| then text[|raw[0]|..] else "")
    && (|raw| >= 2 && !InOrder(text, raw, 0) ==> chunks == raw)
    && (|raw| >= 2 && InOrder(text, raw, 0) ==>
          exists starts :: Leftmost(text, raw, starts) && Cuts(text, starts, chunks))
  }

  method ReconstructChunks(text: string, raw: seq<string>) returns (chunks: seq<string>)
    ensures Reconstructed(text, raw, chunks)
  {
    if raw == [] { return []; }
    if |raw| == 1 {
      var chunk := raw[0];
      assert raw == [chunk] && Concat(raw) == chunk + "";
      if |chunk| < |text| {
        chunks := [chunk + text[|chunk|..]];
        assert Concat(chunks) == chunks[0] + "";
        assert chunk <= text ==> text == chunk + text[|chunk|..];
        return;
      }
      return raw;
    }
    var starts := FindPositions(text, raw);
    if starts.None? {
      if Concat(raw) == text { PiecesOccur(text, raw, 0); }
      return raw;
    }
    LeftmostIsPlaced(text, raw, starts.value);
    chunks := FillGaps(text, raw, starts.value);
    CutsKeepAll(text, raw, starts.value, chunks);
  }

  // ----- split_text -----

  /** `not chunk or not chunk.strip()` */
  predicate IsBlank(isSpace: char -> bool, chunk: string) {
    forall c :: c in chunk ==> isSpace(c)
  }

  ghost function NonBlank(isSpace: char -> bool, chunks: seq<string>): seq<string> {
    if chunks == [] then [] else
      (if IsBlank(isSpace, chunks[0]) then [] else [chunks[0]]) + NonBlank(isSpace, chunks[1..])
  }

  lemma NonBlankStep(isSpace: char -> bool, chunks: seq<string>, i: nat)
    requires i < |chunks|
    ensures NonBlank(isSpace, chunks[i..])
         == (if IsBlank(isSpace, chunks[i]) then [] else [chunks[i]]) + NonBlank(isSpace, chunks[i + 1..])
  {
    assert chunks[i..][1..] == chunks[i + 1..];
  }

  lemma KeepOne(kept: seq<string>, chunk: string, rest: seq<string>)
    ensures kept + ([chunk] + rest) == (kept + [chunk]) + rest
  {
  }

  lemma NonBlankNil(isSpace: char -> bool, chunks: seq<string>)
    requires chunks == []
    ensures NonBlank(isSpace, chunks) == []
  {
  }

  /** What is kept are the chunks with some character that is not whitespace. */
  lemma {:induction false} NonBlankMembers(isSpace: char -> bool, chunks: seq<string>)
    ensures forall c :: c in NonBlank(isSpace, chunks) <==>
              c in chunks && exists t :: 0 <= t < |c| && !isSpace(c[t])
  {
    if chunks != [] {
      NonBlankMembers(isSpace, chunks[1..]);
      assert chunks == [chunks[0]] + chunks[1..];
    }
  }

  /** `raw` stands for what the recursive character splitter returns; without a target size the text is one chunk. */
  method SplitText(text: string, targetTokens: Option<int>, raw: seq<string>, isSpace: char -> bool)
    returns (r: Result<seq<string>>, ghost reconstructed: seq<string>)
    ensures targetTokens.None? ==> r == Ok([text])
    ensures targetTokens.Some? ==>
              && Reconstructed(text, raw, reconstructed)
              && var kept := NonBlank(isSpace, reconstructed);
              && (r.ValueError? <==> kept == [])
              && (r.Ok? ==> r.value == kept)
    ensures targetTokens.Some? && r.Ok? ==>
              forall c :: c in r.value <==> c in reconstructed && exists t :: 0 <= t < |c| && !isSpace(c[t])
  {
    reconstructed := [];
    if targetTokens.None? { return Ok([text]), reconstructed; }
    hide *;
    var chunks := ReconstructChunks(text, raw);
    reconstructed := chunks;
    var valid: seq<string> := [];
    assert chunks[0..] == chunks;
    for i := 0 to |chunks|
      invariant NonBlank(isSpace, chunks) == valid + NonBlank(isSpace, chunks[i..])
    {
      NonBlankStep(isSpace, chunks, i);
      if !IsBlank(isSpace, chunks[i]) {
        KeepOne(valid, chunks[i], NonBlank(isSpace, chunks[i + 1..]));
        valid := valid + [chunks[i]];
      } else {
        assert [] + NonBlank(isSpace, chunks[i + 1..]) == NonBlank(isSpace, chunks[i + 1..]);
      }
    }
    NonBlankNil(isSpace, chunks[|chunks|..]);
    NonBlankMembers(isSpace, chunks);
    if valid == [] { return ValueError("Text splitting produced no valid chunks"), reconstructed; }
    r := Ok(valid);
  }

  // ----- validate_document_coverage -----

  datatype Leaf = Leaf(start: int, end: int)

  datatype CoverageError =
    NoLeaves | WrongStart(found: int) | WrongEnd(found: int) | NotContiguous(end: int, start: int)

  function ByStart(): (Leaf, Leaf) -> bool {
    (a: Leaf, b: Leaf) => a.start <= b.start
  }

  /** From 0 to `length`, each leaf starting where the one before it ends. */
  ghost predicate Covers(leaves: seq<Leaf>, length: nat) {
    && leaves != [] && leaves[0].start == 0 && leaves[|leaves| - 1].end == length
    && EndToEnd(leaves)
  }

  ghost predicate EndToEnd(leaves: seq<Leaf>) {
    forall i :: 0 <= i < |leaves| - 1 ==> leaves[i].end == leaves[i + 1].start
  }

  /** What an error says of the leaves in this order is so. */
  ghost predicate IsCoverageError(sorted: seq<Leaf>, length: nat, e: CoverageError) {
    && sorted != []
    && match e
       case NoLeaves => false
       case WrongStart(found) => found == sorted[0].start != 0
       case WrongEnd(found) => found == sorted[|sorted| - 1].end != length
       case NotContiguous(end, start) => end != start && IsHole(sorted, end, start)
  }

  ghost predicate IsHole(sorted: seq<Leaf>, end: int, start: int) {
    exists i :: 0 <= i < |sorted| - 1 && sorted[i].end == end && sorted[i + 1].start == start
  }

  method CheckContiguous(sorted: seq<Leaf>) returns (error: Option<CoverageError>)
    requires sorted != []
    ensures error.None? <==> EndToEnd(sorted)
    ensures error.Some? ==>
              && error.value.NotContiguous? && error.value.end != error.value.start
              && IsHole(sorted, error.value.end, error.value.start)
  {
    for i := 0 to |sorted| - 1
      invariant forall j :: 0 <= j < i ==> sorted[j].end == sorted[j + 1].start
    {
      if sorted[i + 1].start != sorted[i].end { return Some(NotContiguous(sorted[i].end, sorted[i + 1].start)); }
    }
    error := None;
  }

  method ValidateDocumentCoverage(text: string, leaves: seq<Leaf>) returns (error: Option<CoverageError>)
    ensures error.None? <==> Covers(StableSort(ByStart(), leaves), |text|)
    ensures error == Some(NoLeaves) <==> leaves == []
    ensures error.Some? && leaves != [] ==> IsCoverageError(StableSort(ByStart(), leaves), |text|, error.value)
  {
    var sorted := StableSort(ByStart(), leaves);
    SameMembers(sorted, leaves);
    hide StableSort;
    hide EndToEnd;
    hide IsHole;
    if leaves == [] { return Some(NoLeaves); }
    if sorted[0].start != 0 { return Some(WrongStart(sorted[0].start)); }
    if sorted[|sorted| - 1].end != |text| { return Some(WrongEnd(sorted[|sorted| - 1].end)); }
    error := CheckContiguous(sorted);
  }

  /** The leaves are looked at by start; those that start at one position keep their order. */
  lemma LeavesByStart(leaves: seq<Leaf>, i: nat, j: nat)
    requires i < j < |leaves|
    ensures var sorted := StableSort(ByStart(), leaves);
            && |sorted| == |leaves| && multiset(sorted) == multiset(leaves)
            && sorted[i].start <= sorted[j].start
            && (Distinct(leaves) && sorted[i].start == sorted[j].start ==> Before(leaves, sorted[i], sorted[j]))
  {
    SortSorts(ByStart(), leaves);
    var sorted := StableSort(ByStart(), leaves);
    assert ByStart()(sorted[i], sorted[j]);
    hide StableSort;
    if Distinct(leaves) && sorted[i].start == sorted[j].start { SortKeepsTies(ByStart(), leaves, i, j); }
  }

  /** The leaf spans of consecutive chunks, by running length. */
  ghost function Spans(chunks: seq<string>, from: nat): seq<Leaf> {
    if chunks == [] then [] else [Leaf(from, from + |chunks[0]|)] + Spans(chunks[1..], from + |chunks[0]|)
  }

  lemma {:induction false} SpansShape(chunks: seq<string>, from: nat)
    requires chunks != [] && forall i :: 0 <= i < |chunks| ==> chunks[i] != ""
    ensures var s := Spans(chunks, from);
            && |s| == |chunks| && s[0].start == from && s[|s| - 1].end == from + |Concat(chunks)|
            && (forall i :: 0 <= i < |s| - 1 ==> s[i].end == s[i + 1].start)
            && (forall i :: 0 <= i < |s| ==> from <= s[i].start)
            && Sorted(ByStart(), s)
  {
    var s := Spans(chunks, from);
    if |chunks| == 1 {
      assert chunks[1..] == [];
    } else {
      var rest := Spans(chunks[1..], from + |chunks[0]|);
      SpansShape(chunks[1..], from + |chunks[0]|);
      assert forall i :: 1 <= i < |s| ==> s[i] == rest[i - 1];
    }
  }

  /** The spans of non-empty chunks are accepted exactly when their lengths add up to the document's. */
  lemma SpansAccepted(chunks: seq<string>, length: nat)
    requires chunks != [] && forall i :: 0 <= i < |chunks| ==> chunks[i] != ""
    ensures Covers(StableSort(ByStart(), Spans(chunks, 0)), length) <==> |Concat(chunks)| == length
  {
    var s := Spans(chunks, 0);
    SpansShape(chunks, 0);
    SortKeepsSorted(ByStart(), s);
    hide *;
    CoversShape(s, |Concat(chunks)|, length);
  }

  lemma CoversShape(s: seq<Leaf>, end: nat, length: nat)
    requires s != [] && s[0].start == 0 && s[|s| - 1].end == end
    requires forall i :: 0 <= i < |s| - 1 ==> s[i].end == s[i + 1].start
    ensures Covers(s, length) <==> end == length
  {
  }

  lemma {:induction false} NonBlankLength(isSpace: char -> bool, chunks: seq<string>)
    ensures |Concat(NonBlank(isSpace, chunks))| <= |Concat(chunks)|
    ensures |Concat(NonBlank(isSpace, chunks))| == |Concat(chunks)|
            <==> forall c :: c in chunks && IsBlank(isSpace, c) ==> c == ""
    ensures forall c :: c in NonBlank(isSpace, chunks) ==> c != ""
  {
    if chunks != [] {
      NonBlankLength(isSpace, chunks[1..]);
      var rest := NonBlank(isSpace, chunks[1..]);
      assert [] + rest == rest;
      assert ([chunks[0]] + rest)[1..] == rest;
      assert Concat([chunks[0]] + rest) == chunks[0] + Concat(rest);
      assert chunks == [chunks[0]] + chunks[1..];
    }
  }

  /**
     The leaf spans of what `split_text` keeps are accepted by `validate_document_coverage` exactly when what
     it keeps is as long as the text; if reconstruction has lost nothing, exactly when every chunk that was
     filtered out was empty.
   */
  lemma SplitIsCovered(text: string, raw: seq<string>, chunks: seq<string>, isSpace: char -> bool)
    requires Reconstructed(text, raw, chunks) && NonBlank(isSpace, chunks) != []
    ensures Covers(StableSort(ByStart(), Spans(NonBlank(isSpace, chunks), 0)), |text|)
       <==> |Concat(NonBlank(isSpace, chunks))| == |text|
    ensures Lossless(text, raw) ==>
              (Covers(StableSort(ByStart(), Spans(NonBlank(isSpace, chunks), 0)), |text|)
               <==> forall c :: c in chunks && IsBlank(isSpace, c) ==> c == "")
  {
    var kept := NonBlank(isSpace, chunks);
    NonBlankLength(isSpace, chunks);
    assert forall i :: 0 <= i < |kept| ==> kept[i] in kept;
    SpansAccepted(kept, |text|);
  }

  lemma PrefixNotBlank(isSpace: char -> bool, a: string, b: string)
    requires a <= b && !IsBlank(isSpace, a)
    ensures !IsBlank(isSpace, b)
  {
    var c :| c in a && !isSpace(c);
    var i :| 0 <= i < |a| && a[i] == c;
    assert b[i] == c;
  }

  /** If reconstruction loses nothing, a chunk with something in it stays one. */
  lemma ReconstructedNotBlank(text: string, raw: seq<string>, chunks: seq<string>, isSpace: char -> bool, i: nat)
    requires Reconstructed(text, raw, chunks) && Lossless(text, raw) && i < |raw| && !IsBlank(isSpace, raw[i])
    ensures !IsBlank(isSpace, chunks[i])
  {
    hide IsBlank;
    if |raw| >= 2 {
      var starts :| Leftmost(text, raw, starts) && Cuts(text, starts, chunks);
      LeftmostIsPlaced(text, raw, starts);
      CutsKeepAll(text, raw, starts, chunks);
      if i == 0 {
        StartNotBlank(text, raw[0], starts[0], chunks[0], isSpace);
      } else {
        PrefixNotBlank(isSpace, raw[i], chunks[i]);
      }
    } else {
      PrefixNotBlank(isSpace, raw[i], chunks[i]);
    }
  }

  lemma StartNotBlank(text: string, first: string, at: nat, chunk: string, isSpace: char -> bool)
    requires OccursAt(text, first, at) && text[..at + |first|] <= chunk && !IsBlank(isSpace, first)
    ensures !IsBlank(isSpace, chunk)
  {
    var head := text[..at + |first|];
    var c :| c in first && !isSpace(c);
    var k :| 0 <= k < |first| && first[k] == c;
    assert text[at..at + |first|][k] == head[at + k] == c;
    PrefixNotBlank(isSpace, head, chunk);
  }

  lemma {:induction false} AllKept(isSpace: char -> bool, chunks: seq<string>)
    requires forall i :: 0 <= i < |chunks| ==> !IsBlank(isSpace, chunks[i])
    ensures NonBlank(isSpace, chunks) == chunks
  {
    if chunks != [] {
      AllKept(isSpace, chunks[1..]);
      assert chunks == [chunks[0]] + chunks[1..];
    }
  }

  /** If nothing is lost and no raw chunk is blank, everything is kept and the leaf spans are accepted. */
  lemma RawSplitIsCovered(text: string, raw: seq<string>, chunks: seq<string>, isSpace: char -> bool)
    requires Reconstructed(text, raw, chunks) && Lossless(text, raw) && raw != []
    requires forall i :: 0 <= i < |raw| ==> !IsBlank(isSpace, raw[i])
    ensures NonBlank(isSpace, chunks) == chunks
    ensures Covers(StableSort(ByStart(), Spans(chunks, 0)), |text|)
  {
    forall i | 0 <= i < |chunks| ensures !IsBlank(isSpace, chunks[i]) {
      ReconstructedNotBlank(text, raw, chunks, isSpace, i);
    }
    AllKept(isSpace, chunks);
    SplitIsCovered(text, raw, chunks, isSpace);
    hide Covers;
    hide Reconstructed;
  }

  // ----- inputs on which splitting fails -----

  /**
     The splitter strips the blanks in front of the only chunk: the gap is filled with the wrong characters,
     and as `validate_document_coverage` looks at lengths alone it accepts the result.
   */
  lemma StrippedChunkIsCorrupted(chunks: seq<string>)
    requires Reconstructed("  ab", ["ab"], chunks)
    ensures chunks == ["abab"] && Concat(chunks) != "  ab"
    ensures Covers(StableSort(ByStart(), Spans(chunks, 0)), |"  ab"|)
  {
    var text := "  ab";
    assert chunks[0][..2] == "ab" && chunks[0][2..] == text[2..] == "ab";
    assert chunks[0] == chunks[0][..2] + chunks[0][2..] == "abab";
    assert chunks == ["abab"];
    assert Concat(chunks) == "abab" + "" == "abab";
    assert "abab"[0] != text[0];
    SpansAccepted(chunks, 4);
  }

  /** A chunk of whitespace between two others: nothing is lost, but filtering the chunk out leaves a hole. */
  lemma WhitespaceChunkLeavesHole(chunks: seq<string>, isSpace: char -> bool)
    requires Reconstructed("a b", ["a", " ", "b"], chunks) && isSpace(' ') && !isSpace('a') && !isSpace('b')
    ensures Concat(chunks) == "a b" && NonBlank(isSpace, chunks) == ["a", "b"]
    ensures !Covers(StableSort(ByStart(), Spans(NonBlank(isSpace, chunks), 0)), |"a b"|)
  {
    var text, raw := "a b", ["a", " ", "b"];
    PiecesOccur(text, raw, 0);
    assert Concat(chunks) == text;
    var starts :| Leftmost(text, raw, starts) && Cuts(text, starts, chunks);
    StartsOfThree(starts);
    PartsOfThree(chunks);
    KeptOfThree(isSpace, chunks);
    assert forall i :: 0 <= i < 2 ==> NonBlank(isSpace, chunks)[i] in NonBlank(isSpace, chunks);
    hide Reconstructed;
    hide Find;
    SpansAccepted(["a", "b"], 3);
    assert Concat(["a", "b"]) == "a" + Concat(["b"]) && Concat(["b"]) == "b" + "";
  }

  lemma StartsOfThree(starts: seq<nat>)
    requires Leftmost("a b", ["a", " ", "b"], starts)
    ensures starts == [0, 1, 2]
  {
    var text, raw := "a b", ["a", " ", "b"];
    assert LeftmostAt(text, raw, starts, 0) && LeftmostAt(text, raw, starts, 1) && LeftmostAt(text, raw, starts, 2);
    assert OccursAt(text, "a", 0) && OccursAt(text, " ", 1) && OccursAt(text, "b", 2);
    hide Find;
  }

  lemma PartsOfThree(chunks: seq<string>)
    requires Cuts("a b", [0, 1, 2], chunks)
    ensures chunks == ["a", " ", "b"]
  {
    var text: string, starts: seq<nat> := "a b", [0, 1, 2];
    assert CutAt(text, starts, 1) == 1 && CutAt(text, starts, 2) == 2 && CutAt(text, starts, 3) == 3;
    assert IsPart(text, chunks[0], 0, 1) && IsPart(text, chunks[1], 1, 2) && IsPart(text, chunks[2], 2, 3);
    assert |chunks| == 3 && chunks[0] == "a" && chunks[1] == " " && chunks[2] == "b";
  }

  lemma KeptOfThree(isSpace: char -> bool, s: seq<string>)
    requires |s| == 3 && s[0] == "a" && s[1] == " " && s[2] == "b" && isSpace(' ') && !isSpace('a') && !isSpace('b')
    ensures NonBlank(isSpace, s) == ["a", "b"]
  {
    assert s[1..][1..][1..] == [] && s[1..][0] == s[1] && s[1..][1..][0] == s[2];
    assert 'a' in "a" && 'b' in "b";
    assert NonBlank(isSpace, s[1..][1..]) == ["b"];
    assert NonBlank(isSpace, s[1..]) == ["b"];
  }
}
