/** The part of Clang's lexer and source manager the checks lean on, over one file's text.
    Token lengths come from the foreign lexer and are a given function here; everything
    the checks derive from them (token ranges, the location after an expected token, line
    numbers, a line's indentation) is defined on top. */
module Lexer {
  import opened Base

  /** One file as the checks see it: its text and `Lexer::MeasureTokenLength`. */
  datatype Source = Source(text: string, tokenLength: nat -> nat) {

    /** What any lexer guarantees: tokens stay inside the file, whitespace is no token,
        and brackets, parentheses and semicolons are one-character tokens. */
    ghost predicate Valid() {
      && (forall p: nat :: tokenLength(p) == 0 || p + tokenLength(p) <= |text|)
      && (forall p: nat :: p < |text| && IsWhitespace(text[p]) ==> tokenLength(p) == 0)
      && (forall p: nat :: p < |text| && text[p] in "(){};" ==> tokenLength(p) == 1)
    }

    /** The characters [lo, hi) of the file, cut to the file's end. */
    function Slice(lo: nat, hi: nat): (s: string)
      ensures lo <= hi <= |text| ==> s == text[lo..hi]
      ensures |s| <= |text|
    {
      var h := if hi <= |text| then hi else |text|;
      var l := if lo <= h then lo else h;
      text[l..h]
    }

    /** `CharSourceRange::getTokenRange(b, e)` measured: from `b` to the end of the token at `e`. */
    function TokenRange(b: nat, e: nat): (r: CharRange)
      ensures r.lo == b
      ensures b <= e ==> r.hi == e + tokenLength(e)
    {
      RangeOf(b, e + tokenLength(e))
    }

    /** `Lexer::getSourceText` of the token range from `b` to `e`. */
    function SourceText(b: nat, e: nat): string {
      var r := TokenRange(b, e);
      Slice(r.lo, r.hi)
    }

    /** The first offset at or after `p` that is not whitespace (or the end of the file). */
    function SkipWhitespace(p: nat): (q: nat)
      ensures p <= q
      ensures p <= |text| ==> q <= |text|
      ensures q < |text| ==> !IsWhitespace(text[q])
      ensures forall i :: p <= i < q ==> i < |text| && IsWhitespace(text[i])
      decreases |text| - p
    {
      if p < |text| && IsWhitespace(text[p]) then SkipWhitespace(p + 1) else p
    }

    /** `Lexer::findLocationAfterToken(loc, kind)`: skip the token at `loc` and the whitespace
        after it; if the next token is `kind`, the offset just past it, else nothing. */
    function FindLocationAfterToken(loc: nat, kind: string): (r: Option<nat>)
      requires |kind| > 0
      ensures r.Some? <==>
        var q := SkipWhitespace(loc + tokenLength(loc));
        q + |kind| <= |text| && text[q..q + |kind|] == kind && tokenLength(q) == |kind|
      ensures r.Some? ==> |kind| <= r.value <= |text| && text[r.value - |kind|..r.value] == kind
      ensures r.Some? ==> loc + tokenLength(loc) <= r.value - |kind|
      ensures r.Some? ==> forall i :: loc + tokenLength(loc) <= i < r.value - |kind| ==> IsWhitespace(text[i])
    {
      var q := SkipWhitespace(loc + tokenLength(loc));
      if q + |kind| <= |text| && text[q..q + |kind|] == kind && tokenLength(q) == |kind|
      then Some(q + |kind|)
      else None
    }

    /** Number of line breaks strictly before offset `p`. */
    function NewlinesBefore(p: nat): (n: nat)
      ensures n <= p
      decreases p
    {
      if p == 0 || p > |text| then (if p > |text| then NewlinesBefore(|text|) else 0)
      else NewlinesBefore(p - 1) + (if text[p - 1] == '\n' then 1 else 0)
    }

    /** The 1-based line number of offset `p`, as `getExpansionLineNumber`/`getSpellingLineNumber`. */
    function LineOf(p: nat): (line: nat)
      ensures line >= 1
    {
      1 + NewlinesBefore(p)
    }

    /** The start of the line holding offset `p`. */
    function LineStart(p: nat): (q: nat)
      ensures q <= p
      ensures q == 0 || (q - 1 < |text| && text[q - 1] == '\n')
      ensures forall i :: q <= i < p && i < |text| ==> text[i] != '\n'
      decreases p
    {
      if p == 0 then 0
      else if p - 1 < |text| && text[p - 1] == '\n' then p
      else LineStart(p - 1)
    }

    /** The run of spaces and tabs starting at `p`. */
    function LeadingBlanks(p: nat): (s: string)
      ensures forall i :: 0 <= i < |s| ==> IsSpaceOrTab(s[i])
      ensures p + |s| <= |text| || s == []
      ensures p <= |text| ==> s == text[p..p + |s|]
      ensures p + |s| < |text| ==> !IsSpaceOrTab(text[p + |s|])
      decreases |text| - p
    {
      if p < |text| && IsSpaceOrTab(text[p]) then [text[p]] + LeadingBlanks(p + 1) else []
    }

    /** `Lexer::getIndentationForLine`: the leading blanks of the line holding `p`. */
    function IndentationForLine(p: nat): (s: string)
      ensures forall i :: 0 <= i < |s| ==> IsSpaceOrTab(s[i])
    {
      LeadingBlanks(LineStart(p))
    }
  }

  /** Lines are counted monotonically: a later offset is never on an earlier line. */
  lemma {:induction false} LineOfMonotone(src: Source, p: nat, q: nat)
    requires p <= q
    ensures src.LineOf(p) <= src.LineOf(q)
    decreases q
  {
    if p < q {
      if q > |src.text| {
        if p <= |src.text| {
          LineOfMonotone(src, p, |src.text|);
        }
      } else {
        LineOfMonotone(src, p, q - 1);
      }
    }
  }
}
