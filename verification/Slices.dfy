/** Python slices and `str.isspace`. */
module Slices {
  /** Where a slice bound falls in a sequence of length `n`; a negative bound counts from the end. */
  function ClampIndex(i: int, n: nat): (k: nat)
    ensures k <= n
  {
    if i < 0 then (if n + i < 0 then 0 else n + i) else if i < n then i else n
  }

  function Slice(text: string, from: int, to: int): string {
    var a, b := ClampIndex(from, |text|), ClampIndex(to, |text|);
    if a < b then text[a..b] else ""
  }

  predicate IsSpace(isSpace: char -> bool, text: string) {
    text != "" && forall c :: c in text ==> isSpace(c)
  }

  /** From one position to a later one there is nothing, or only whitespace of a text that was passed along. */
  predicate OnlySpace(text: string, isSpace: char -> bool, from: int, to: int) {
    from < to ==> text != "" && IsSpace(isSpace, Slice(text, from, to))
  }

  // ----- the same in positions of the text -----

  /** A position that a bound stands for; a negative bound counts from the end. */
  ghost function Position(text: string, bound: int): int {
    if bound < 0 then |text| + bound else bound
  }

  /** The text has a character from one bound up to the other, and all that it has there are whitespace. */
  ghost predicate SpaceBetween(text: string, isSpace: char -> bool, from: int, to: int) {
    && (exists t :: 0 <= t < |text| && Position(text, from) <= t < Position(text, to) && isSpace(text[t]))
    && forall t :: 0 <= t < |text| && Position(text, from) <= t < Position(text, to) ==> isSpace(text[t])
  }

  lemma SpaceMeaning(text: string, isSpace: char -> bool, from: int, to: int)
    ensures IsSpace(isSpace, Slice(text, from, to)) <==> SpaceBetween(text, isSpace, from, to)
  {
    var a, b := ClampIndex(from, |text|), ClampIndex(to, |text|);
    if a < b {
      forall t | 0 <= t < |text| && Position(text, from) <= t < Position(text, to) ensures text[t] in text[a..b] {
        assert text[t] == text[a..b][t - a];
      }
      assert text[a] == text[a..b][0];
    }
  }

  /** The text reaches beyond `from`, and what it has up to `to` is whitespace. */
  ghost predicate OnlyBlanks(text: string, isSpace: char -> bool, from: nat, to: nat) {
    from < |text| && forall t :: from <= t < to && t < |text| ==> isSpace(text[t])
  }

  lemma GapCharacters(text: string, isSpace: char -> bool, from: int, to: int)
    requires 0 <= from < to
    ensures OnlySpace(text, isSpace, from, to) <==> OnlyBlanks(text, isSpace, from, to)
    ensures SpaceBetween(text, isSpace, from, to) <==> OnlyBlanks(text, isSpace, from, to)
  {
    SpaceMeaning(text, isSpace, from, to);
  }
}
