/**
 * The character-reader primitives both Hjson lexers call (`skipLineWhitespace`,
 * `skipToNL`), as functions of the text and a position. The reader class itself is
 * not part of this model; these state the behaviour the lexers rely on.
 */
module LineReading {
  import opened HjsonText

  /** `skipLineWhitespace`: the first position at or after `p` that is not line whitespace. */
  function SkipLineWhitespace(text: string, p: nat): (q: nat)
    requires p <= |text|
    ensures p <= q <= |text|
    ensures forall k :: p <= k < q ==> IsLineWhitespace(text[k])
    ensures q == |text| || !IsLineWhitespace(text[q])
    decreases |text| - p
  {
    if p < |text| && IsLineWhitespace(text[p]) then SkipLineWhitespace(text, p + 1) else p
  }

  /** Where `skipToNL` leaves the reader: on the next line feed, or at the end of the text. */
  function NextLineBreak(text: string, p: nat): (q: nat)
    requires p <= |text|
    ensures p <= q <= |text|
    ensures forall k :: p <= k < q ==> text[k] != '\n'
    ensures q == |text| || text[q] == '\n'
    decreases |text| - p
  {
    if p < |text| && text[p] != '\n' then NextLineBreak(text, p + 1) else p
  }

  /**
   * The end of what `skipToNL` captures from `p`: just after the last character of the
   * line that is not line whitespace, or `p` itself when the rest of the line is blank.
   */
  function LineContentEnd(text: string, p: nat): (e: nat)
    requires p <= |text|
    ensures p <= e <= NextLineBreak(text, p)
    ensures forall k :: e <= k < NextLineBreak(text, p) ==> IsLineWhitespace(text[k])
    ensures e > p ==> !IsLineWhitespace(text[e - 1])
    decreases |text| - p
  {
    if p == |text| || text[p] == '\n' then p
    else
      var e := LineContentEnd(text, p + 1);
      if e > p + 1 then e else if IsLineWhitespace(text[p]) then p else p + 1
  }

  /**
   * On a last line (no line feed to the end of the text) the reader runs to the end,
   * and it captures all of it when the text does not end in line whitespace.
   */
  lemma {:induction false} LastLine(text: string, p: nat)
    requires p <= |text| && forall k :: p <= k < |text| ==> text[k] != '\n'
    ensures NextLineBreak(text, p) == |text|
    ensures p < |text| && !IsLineWhitespace(text[|text| - 1]) ==> LineContentEnd(text, p) == |text|
    decreases |text| - p
  {
    if p < |text| {
      LastLine(text, p + 1);
    }
  }
}
