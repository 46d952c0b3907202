/**
 `_preprocess_text` (`ragzoom/splitter.py`): paragraph breaks are hidden behind a marker,
 a regular expression rewrites the newlines that are left, and the marker is taken out again.
 The three passes are modelled as they are and proved to be one simple scan.
 */
module Preprocess {

  /** `str.replace`: leftmost occurrences, without overlap. */
  function Replace(text: string, pattern: string, with: string): string
    requires pattern != ""
    decreases |text|
  {
    if text == "" then ""
    else if pattern <= text then with + Replace(text[|pattern|..], pattern, with)
    else [text[0]] + Replace(text[1..], pattern, with)
  }

  predicate EndsSentence(c: char) {
    c == '.' || c == '!' || c == '?'
  }

  /** `re.sub` with the pattern `(.)\n`: the dot is any character but a newline. */
  function RegexPass(text: string): string {
    if |text| < 2 then text
    else if text[0] != '\n' && text[1] == '\n' then
      [text[0], if EndsSentence(text[0]) then '\n' else ' '] + RegexPass(text[2..])
    else [text[0]] + RegexPass(text[1..])
  }

  const MARKER: string := "\0PARAGRAPH\0"

  function PreprocessText(text: string): string {
    Replace(RegexPass(Replace(text, "\n\n", MARKER)), MARKER, "\n\n")
  }

  // ----- the scan it amounts to -----

  predicate AtPair(text: string) {
    |text| >= 2 && text[0] == '\n' && text[1] == '\n'
  }

  /** Copies the text; a single newline is kept or becomes a space, a pair of newlines is kept. */
  function Clean(text: string, keep: bool): (r: string)
    ensures |r| == |text|
  {
    if text == "" then ""
    else if AtPair(text) then "\n\n" + Clean(text[2..], false)
    else if text[0] == '\n' then [if keep then '\n' else ' '] + Clean(text[1..], true)
    else [text[0]] + Clean(text[1..], EndsSentence(text[0]))
  }

  /** Position `i` belongs to a pair of newlines, pairing from the left. */
  predicate InPair(text: string, i: int) {
    if text == "" then false
    else if AtPair(text) then 0 <= i < 2 || InPair(text[2..], i - 2)
    else InPair(text[1..], i - 1)
  }

  /** Position `i` holds an unpaired newline that follows neither the start of the text nor the end of a sentence. */
  predicate IsFormatting(text: string, keep: bool, i: int)
    requires 0 <= i < |text|
  {
    text[i] == '\n' && !InPair(text, i) && if i == 0 then !keep else !EndsSentence(text[i - 1])
  }

  lemma {:induction false} PairIsNewline(text: string, i: int)
    requires InPair(text, i)
    ensures 0 <= i < |text| && text[i] == '\n'
  {
    if AtPair(text) {
      if !(0 <= i < 2) { PairIsNewline(text[2..], i - 2); }
    } else {
      PairIsNewline(text[1..], i - 1);
    }
  }

  /** The scan, position by position: formatting newlines become spaces and nothing else changes. */
  lemma {:induction false} CleanExactly(text: string, keep: bool, i: nat)
    requires i < |text|
    ensures Clean(text, keep)[i] == if IsFormatting(text, keep, i) then ' ' else text[i]
  {
    if AtPair(text) {
      if i >= 2 {
        CleanExactly(text[2..], false, i - 2);
        if i == 2 { assert text[i - 1] == '\n'; }
      }
    } else if i > 0 {
      var next := if text[0] == '\n' then true else EndsSentence(text[0]);
      CleanExactly(text[1..], next, i - 1);
      if text[0] == '\n' && i == 1 { assert text[1] != '\n'; }
    } else if InPair(text[1..], -1) {
      PairIsNewline(text[1..], -1);
    }
  }

  /** When the first character is no newline it does not matter what came before. */
  lemma KeepIrrelevant(text: string, a: bool, b: bool)
    requires text == "" || text[0] != '\n'
    ensures Clean(text, a) == Clean(text, b)
  {
  }

  lemma {:induction false} CleanTwice(text: string, keep: bool)
    ensures Clean(Clean(text, keep), keep) == Clean(text, keep)
    decreases |text|
  {
    var r := Clean(text, keep);
    if text == "" {
    } else if AtPair(text) {
      CleanTwice(text[2..], false);
      assert r[2..] == Clean(text[2..], false);
    } else if text[0] == '\n' {
      CleanTwice(text[1..], true);
      assert r[1..] == Clean(text[1..], true);
      if |text| > 1 { CleanExactly(text[1..], true, 0); }
      KeepIrrelevant(r[1..], true, false);
    } else {
      CleanTwice(text[1..], EndsSentence(text[0]));
      assert r[1..] == Clean(text[1..], EndsSentence(text[0]));
    }
  }

  // ----- the regular expression, one character at a time -----

  /** A newline right after `c` is not rewritten. */
  predicate KeepsAfter(c: char) {
    c == '\n' || EndsSentence(c)
  }

  function Step(text: string, keep: bool): string {
    if text == "" then "" else
      [if text[0] == '\n' && !keep then ' ' else text[0]] + Step(text[1..], KeepsAfter(text[0]))
  }

  lemma {:induction false} RegexIsStep(text: string)
    ensures RegexPass(text) == Step(text, true)
    decreases |text|
  {
    if |text| >= 2 {
      if text[0] != '\n' && text[1] == '\n' {
        RegexIsStep(text[2..]);
        assert text[1..][1..] == text[2..];
      } else {
        RegexIsStep(text[1..]);
      }
    } else if |text| == 1 {
      assert text[1..] == "";
    }
  }

  lemma {:induction false} StepOver(a: string, text: string, keep: bool)
    requires a != "" && '\n' !in a
    ensures Step(a + text, keep) == a + Step(text, KeepsAfter(a[|a| - 1]))
  {
    assert (a + text)[1..] == a[1..] + text;
    if |a| == 1 {
      assert a[1..] + text == text;
    } else {
      StepOver(a[1..], text, KeepsAfter(a[0]));
    }
  }

  // ----- the marker -----

  function Marked(text: string): string {
    Replace(text, "\n\n", MARKER)
  }

  lemma MarkedUnfold(text: string)
    requires text != ""
    ensures AtPair(text) <==> "\n\n" <= text
    ensures Marked(text) == if AtPair(text) then MARKER + Marked(text[2..]) else [text[0]] + Marked(text[1..])
  {
  }

  /** The text goes on with `word`, and then with a NUL or with a pair of newlines. */
  predicate GoesOn(text: string, word: string) {
    word <= text && |word| < |text| && (text[|word|] == '\0' || AtPair(text[|word|..]))
  }

  /** Here the text, or the text and the marker put in after it, would be taken for a marker. */
  predicate LooksMarked(text: string) {
    text != "" && text[0] == '\0' && GoesOn(text[1..], "PARAGRAPH")
  }

  /** No position of the scan looks like a marker. */
  predicate MarkerFree(text: string) {
    if text == "" then true
    else if AtPair(text) then MarkerFree(text[2..])
    else !LooksMarked(text) && MarkerFree(text[1..])
  }

  lemma {:induction false} NoNulIsMarkerFree(text: string)
    requires '\0' !in text
    ensures MarkerFree(text)
    decreases |text|
  {
    if text != "" {
      if AtPair(text) { NoNulIsMarkerFree(text[2..]); } else { NoNulIsMarkerFree(text[1..]); }
    }
  }

  lemma {:induction false} MarkerBegins(text: string, word: string, keep: bool)
    requires forall c :: c in word ==> c != '\0' && c != '\n' && c != ' '
    ensures word + "\0" <= Step(Marked(text), keep) <==> GoesOn(text, word)
  {
    var out := Step(Marked(text), keep);
    assert word == "" ==> text[|word|..] == text && word + "\0" == "\0";
    assert word != "" ==> (word + "\0")[0] == word[0] && word[0] in word;
    if text != "" {
      MarkedUnfold(text);
      if AtPair(text) {
        StepOver(MARKER, Marked(text[2..]), keep);
        assert out[0] == '\0';
      } else {
        assert Marked(text)[1..] == Marked(text[1..]);
        assert out[1..] == Step(Marked(text[1..]), KeepsAfter(text[0]));
        assert out[0] == if text[0] == '\n' && !keep then ' ' else text[0];
        if word == "" {
          PrefixTail("\0", out);
        } else {
          assert word[0] in word;
          assert word[0] == out[0] <==> word[0] == text[0];
          assert forall c :: c in word[1..] ==> c in word;
          MarkerBegins(text[1..], word[1..], KeepsAfter(text[0]));
          PrefixTail(word + "\0", out);
          GoesOnTail(text, word);
          assert (word + "\0")[1..] == word[1..] + "\0";
        }
      }
    }
  }

  lemma GoesOnTail(text: string, word: string)
    requires text != "" && word != ""
    ensures GoesOn(text, word) <==> text[0] == word[0] && GoesOn(text[1..], word[1..])
  {
    PrefixTail(word, text);
    if |word| <= |text| { assert text[1..][|word| - 1..] == text[|word|..]; }
  }

  lemma PrefixTail(a: string, b: string)
    requires a != "" && b != ""
    ensures a <= b <==> a[0] == b[0] && a[1..] <= b[1..]
  {
    if a[0] == b[0] && a[1..] <= b[1..] {
      assert a == [a[0]] + a[1..] && b == [b[0]] + b[1..];
    }
  }

  /** Where the text looks like a marker, and only there, the text with the markers put in begins with one. */
  lemma MarkerInFront(text: string, keep: bool)
    requires text != "" && !AtPair(text)
    ensures MARKER <= Step(Marked(text), keep) <==> LooksMarked(text)
  {
    var out := Step(Marked(text), keep);
    MarkedUnfold(text);
    assert Marked(text)[1..] == Marked(text[1..]);
    MarkerBegins(text[1..], "PARAGRAPH", KeepsAfter(text[0]));
    PrefixTail(MARKER, out);
    assert MARKER[1..] == "PARAGRAPH" + "\0";
  }

  /** Taking the markers out again gives the scan, unless the text itself got in the way. */
  lemma {:induction false} UnmarkIsClean(text: string, keep: bool)
    ensures Replace(Step(Marked(text), keep), MARKER, "\n\n") == Clean(text, keep) <==> MarkerFree(text)
    decreases |text|
  {
    var out := Step(Marked(text), keep);
    if text == "" {
    } else if AtPair(text) {
      MarkedUnfold(text);
      StepOver(MARKER, Marked(text[2..]), keep);
      var rest := Step(Marked(text[2..]), false);
      assert out == MARKER + rest && out[|MARKER|..] == rest && MARKER <= out;
      UnmarkIsClean(text[2..], false);
      SamePrefix("\n\n", Replace(rest, MARKER, "\n\n"), Clean(text[2..], false));
    } else {
      var next := KeepsAfter(text[0]);
      MarkedUnfold(text);
      MarkerInFront(text, keep);
      assert Marked(text)[1..] == Marked(text[1..]);
      var rest := Step(Marked(text[1..]), next);
      var head := if text[0] == '\n' && !keep then ' ' else text[0];
      assert out == [head] + rest && out[1..] == rest;
      UnmarkIsClean(text[1..], next);
      assert Clean(text, keep) == [head] + Clean(text[1..], next);
      if MARKER <= out {
        assert Replace(out, MARKER, "\n\n")[0] == '\n';
      } else {
        SamePrefix([head], Replace(rest, MARKER, "\n\n"), Clean(text[1..], next));
      }
    }
  }

  lemma SamePrefix(p: string, a: string, b: string)
    ensures p + a == p + b <==> a == b
  {
    assert (p + a)[|p|..] == a && (p + b)[|p|..] == b;
  }

  lemma CleanGoesOn(text: string, word: string, keep: bool)
    requires GoesOn(Clean(text, keep), word) && ' ' !in word
    ensures GoesOn(text, word)
  {
    var r := Clean(text, keep);
    forall i | 0 <= i < |text| ensures r[i] == text[i] || r[i] == ' ' { CleanExactly(text, keep, i); }
    forall i | 0 <= i < |word| ensures text[i] == word[i] { assert word[i] in word && r[i] == word[i]; }
    assert AtPair(r[|word|..]) ==> r[|word|] == '\n' && r[|word| + 1] == '\n';
  }

  lemma {:induction false} CleanMarkerFree(text: string, keep: bool)
    requires MarkerFree(text)
    ensures MarkerFree(Clean(text, keep))
    decreases |text|
  {
    var r := Clean(text, keep);
    if text == "" {
    } else if AtPair(text) {
      CleanMarkerFree(text[2..], false);
      assert r[2..] == Clean(text[2..], false);
    } else {
      var next := KeepsAfter(text[0]);
      CleanMarkerFree(text[1..], next);
      assert r[1..] == Clean(text[1..], next);
      if |text| > 1 { CleanExactly(text[1..], next, 0); }
      if LooksMarked(r) { CleanGoesOn(text[1..], "PARAGRAPH", next); }
      assert !AtPair(r);
    }
  }

  // ----- what the function does -----

  /** The three passes amount to the scan exactly when the text has nothing that could be taken for a marker. */
  lemma PreprocessIsClean(text: string)
    ensures PreprocessText(text) == Clean(text, true) <==> MarkerFree(text)
  {
    RegexIsStep(Marked(text));
    UnmarkIsClean(text, true);
  }

  /**
     On marker-free text the length is kept, formatting newlines become spaces, every other
     character stays, and doing it again changes nothing.
   */
  lemma PreprocessKeepsBreaks(text: string)
    requires MarkerFree(text)
    ensures |PreprocessText(text)| == |text|
    ensures forall i :: 0 <= i < |text| ==>
              PreprocessText(text)[i] == if IsFormatting(text, true, i) then ' ' else text[i]
    ensures PreprocessText(PreprocessText(text)) == PreprocessText(text)
  {
    var r := PreprocessText(text);
    PreprocessIsClean(text);
    forall i | 0 <= i < |text| ensures r[i] == if IsFormatting(text, true, i) then ' ' else text[i] {
      CleanExactly(text, true, i);
    }
    CleanTwice(text, true);
    CleanMarkerFree(text, true);
    PreprocessIsClean(r);
  }

  /** The newlines from `s` up to `e`, and no more of them on either side. */
  ghost predicate IsRun(text: string, s: int, e: int) {
    && 0 <= s < e <= |text|
    && (forall j :: s <= j < e ==> text[j] == '\n')
    && (s == 0 || text[s - 1] != '\n')
    && (e == |text| || text[e] != '\n')
  }

  /** Of a run of newlines all are paired, except for the last one if their number is odd. */
  lemma {:induction false} PairsOfRun(text: string, s: int, e: int, i: int)
    requires IsRun(text, s, e) && s <= i < e
    ensures InPair(text, i) <==> !(i == e - 1 && (e - s) % 2 == 1)
    decreases |text|
  {
    if AtPair(text) {
      if s == 0 {
        if i >= 2 { PairsOfRun(text[2..], 0, e - 2, i - 2); }
      } else {
        assert s >= 2;
        PairsOfRun(text[2..], s - 2, e - 2, i - 2);
      }
    } else if s == 0 {
      assert e == 1;
      if InPair(text[1..], -1) { PairIsNewline(text[1..], -1); }
    } else {
      PairsOfRun(text[1..], s - 1, e - 1, i - 1);
    }
  }

  /**
     What becomes of a run of newlines in marker-free text: they come in pairs from the left, which are kept;
     one left over at the end is kept at the start of the text and after a full stop, an exclamation mark or a
     question mark, and becomes a space everywhere else. Other characters stay as they are.
   */
  lemma NewlinesInRuns(text: string, s: int, e: int, i: int)
    requires MarkerFree(text)
    ensures |PreprocessText(text)| == |text|
    ensures IsRun(text, s, e) && s <= i < e ==>
              PreprocessText(text)[i] ==
                if i == e - 1 && (e - s) % 2 == 1 && i > 0
                   && text[i - 1] != '.' && text[i - 1] != '!' && text[i - 1] != '?'
                then ' ' else '\n'
    ensures 0 <= i < |text| && text[i] != '\n' ==> PreprocessText(text)[i] == text[i]
  {
    PreprocessKeepsBreaks(text);
    if IsRun(text, s, e) && s <= i < e { PairsOfRun(text, s, e, i); }
  }

  lemma NoNewlines(text: string)
    requires '\n' !in text
    ensures Clean(text, true) == text
  {
    forall i | 0 <= i < |text| ensures Clean(text, true)[i] == text[i] { CleanExactly(text, true, i); }
  }

  /** A document that consists of the marker is changed although it has no newline at all. */
  lemma MarkerIsNotPreserved()
    ensures '\n' !in MARKER && PreprocessText(MARKER) != MARKER
  {
    NoNewlines(MARKER);
    assert MARKER[1..][..9] == "PARAGRAPH" && LooksMarked(MARKER);
    PreprocessIsClean(MARKER);
  }
}
