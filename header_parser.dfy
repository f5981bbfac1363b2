/** okhttp's HeaderParser: the cursor helpers the directive parser is built from. */
module HeaderParser {
  import opened Wrappers
  import opened JavaText

  /** skipUntil: the first position at or after pos holding one of chars, or |s|. */
  function SkipUntil(s: string, pos: nat, chars: set<char>): (r: nat)
    requires pos <= |s|
    ensures pos <= r <= |s|
    ensures forall i :: pos <= i < r ==> s[i] !in chars
    ensures r < |s| ==> s[r] in chars
    decreases |s| - pos
  {
    if pos == |s| || s[pos] in chars then pos else SkipUntil(s, pos + 1, chars)
  }

  predicate IsSpaceOrTab(c: char) {
    c == ' ' || c == '\t'
  }

  /** skipWhitespace: the first position at or after pos that is not a space or a tab, or |s|. */
  function SkipWhitespace(s: string, pos: nat): (r: nat)
    requires pos <= |s|
    ensures pos <= r <= |s|
    ensures forall i :: pos <= i < r ==> IsSpaceOrTab(s[i])
    ensures r < |s| ==> !IsSpaceOrTab(s[r])
    decreases |s| - pos
  {
    if pos == |s| || !IsSpaceOrTab(s[pos]) then pos else SkipWhitespace(s, pos + 1)
  }

  /** The position SkipUntil reaches is fixed by its contract: a segment free of chars, then a stop. */
  lemma SkipUntilAcross(s: string, pos: nat, chars: set<char>, seg: string)
    requires pos + |seg| <= |s| && s[pos..pos + |seg|] == seg
    requires forall i :: 0 <= i < |seg| ==> seg[i] !in chars
    requires pos + |seg| == |s| || s[pos + |seg|] in chars
    ensures SkipUntil(s, pos, chars) == pos + |seg|
  {
  }

  lemma SkipWhitespaceAcross(s: string, pos: nat, seg: string)
    requires pos + |seg| <= |s| && s[pos..pos + |seg|] == seg
    requires forall i :: 0 <= i < |seg| ==> IsSpaceOrTab(seg[i])
    requires pos + |seg| == |s| || !IsSpaceOrTab(s[pos + |seg|])
    ensures SkipWhitespace(s, pos) == pos + |seg|
  {
  }

  /**
   * parseSeconds(value, default): Long.parseLong, clamped into [0, Integer.MAX_VALUE]; a
   * missing or unparsable value yields default.
   */
  function ParseSeconds(value: Option<string>, default: int): (r: int)
    ensures value.None? ==> r == default
    ensures value.Some? && ParseLong(value.value).None? ==> r == default
    ensures value.Some? && ParseLong(value.value).Some? ==> 0 <= r <= IntMax
    ensures (value.Some? && ParseLong(value.value).Some? && 0 <= ParseLong(value.value).value <= IntMax)
            ==> r == ParseLong(value.value).value
  {
    if value.None? then default
    else
      var seconds := ParseLong(value.value);
      if seconds.None? then default
      else if seconds.value > IntMax then IntMax
      else if seconds.value < 0 then 0
      else seconds.value
  }
}
