/** The Ghidra member check (`RenameGhidraMemberVariable`): decompiled code reaches into a
    structure through placeholder members named after their byte offset (`p->_8_4_` for
    the 4 bytes at offset 8). When such an access failed to compile (the reference sits
    alone in a recovery expression), the access is replaced by the structure's real field
    at that offset. */
module GhidraRename {
  import opened Base
  import opened Lexer
  import opened Rewriter
  import opened Utils

  /** A field of a structure: its name and its offset in bits (`getFieldOffset`). */
  datatype Field = Field(name: string, offsetBits: nat)

  /** The type of the referenced variable: whether it is a pointer, and the fields of the
      structure it is (or points to), `None` when that is not a structure. */
  datatype RefType = RefType(isPointer: bool, record: Option<seq<Field>>)

  /** A parent of the reference: a recovery expression with the ids of its sub-expressions,
      or anything else. */
  datatype Parent = RecoveryParent(subIds: seq<nat>) | OtherParent

  /** A variable reference: id, first and last token, type and parents. */
  datatype DeclRef = DeclRef(id: nat, begin: nat, end: nat, ty: RefType, parents: seq<Parent>)

  /** The member access operator the check expects after the reference. */
  function Operator(ty: RefType): (op: string)
    ensures |op| > 0
  {
    if ty.isPointer then "->" else "."
  }

  /** The number of decimal digits in `s` from `i` on. */
  function DigitRun(s: string, i: nat): (n: nat)
    ensures i + n <= |s| || (i >= |s| && n == 0)
    ensures forall k :: i <= k < i + n ==> IsDigit(s[k])
    ensures i + n < |s| ==> !IsDigit(s[i + n])
    decreases |s| - i
  {
    if i < |s| && IsDigit(s[i]) then 1 + DigitRun(s, i + 1) else 0
  }

  /** `_[0-9]+_` matches at `i`. Digits are no underscore, so the match from `i`, when
      there is one, is `_`, all the digits that follow, and `_`. */
  predicate MatchAt(s: string, i: nat) {
    && i < |s| && s[i] == '_'
    && DigitRun(s, i + 1) > 0
    && i + 1 + DigitRun(s, i + 1) < |s| && s[i + 1 + DigitRun(s, i + 1)] == '_'
  }

  /** The leftmost match at or after `i`, as `Regex::match` finds it. */
  function FirstMatch(s: string, i: nat): (r: Option<nat>)
    ensures r.Some? ==> i <= r.value && MatchAt(s, r.value)
    ensures r.Some? ==> forall k :: i <= k < r.value ==> !MatchAt(s, k)
    ensures r.None? ==> forall k :: i <= k ==> !MatchAt(s, k)
    decreases |s| - i
  {
    if i >= |s| then None
    else if MatchAt(s, i) then Some(i)
    else FirstMatch(s, i + 1)
  }

  /** The digits of the leftmost match: the match without its underscores. */
  function MatchedDigits(s: string): (r: Option<string>)
    ensures r.Some? ==> |r.value| > 0 && AllDigits(r.value)
  {
    match FirstMatch(s, 0)
    case None => None
    case Some(i) => Some(s[i + 1..i + 1 + DigitRun(s, i + 1)])
  }

  /** The index of the first field whose byte offset reaches `align`. */
  function FirstReaching(fields: seq<Field>, charWidth: nat, align: nat): (r: Option<nat>)
    requires charWidth > 0
    ensures r.Some? ==> r.value < |fields| && fields[r.value].offsetBits / charWidth >= align
    ensures r.Some? ==> forall j :: 0 <= j < r.value ==> fields[j].offsetBits / charWidth < align
    ensures r.None? ==> forall j :: 0 <= j < |fields| ==> fields[j].offsetBits / charWidth < align
    decreases |fields|
  {
    if fields == [] then None
    else if fields[0].offsetBits / charWidth >= align then Some(0)
    else match FirstReaching(fields[1..], charWidth, align)
      case None => None
      case Some(k) => Some(k + 1)
  }

  /** The text the access is replaced by. As written, the reference's text as
      `Utils::getSourceText` has it (through the token after the reference) followed by
      the field's name; corrected, the reference's own tokens, the operator and the name. */
  function Replacement(src: Source, d: DeclRef, field: string, asWritten: bool): string {
    if asWritten then GetSourceText(src, d.begin, d.end) + field
    else src.SourceText(d.begin, d.end) + Operator(d.ty) + field
  }

  /** What happens at one recovery-expression parent: the check stops (with or without a
      warning), or the field scan ran past every field and the next parent is looked at. */
  datatype Outcome = Stop(diag: Option<Diag>) | Continue

  /** The placeholder after the reference: where the expected operator ends, and the number
      in the first `_<digits>_` of the text from the reference through the member. `None`
      when the operator does not follow or the text holds no such number. */
  function Placeholder(src: Source, d: DeclRef): (r: Option<(nat, nat)>)
    ensures r.Some? <==>
      && src.FindLocationAfterToken(d.end, Operator(d.ty)).Some?
      && MatchedDigits(GetSourceText(src, d.end, src.FindLocationAfterToken(d.end, Operator(d.ty)).value)).Some?
    ensures r.Some? ==> r.value.0 == src.FindLocationAfterToken(d.end, Operator(d.ty)).value
    ensures r.Some? ==> r.value.1 == ParseDecimal(MatchedDigits(GetSourceText(src, d.end, r.value.0)).value)
  {
    match src.FindLocationAfterToken(d.end, Operator(d.ty))
    case None => None
    case Some(endLoc) =>
      match MatchedDigits(GetSourceText(src, d.end, endLoc))
      case None => None
      case Some(digits) => Some((endLoc, ParseDecimal(digits)))
  }

  /** The reference stands alone in the recovery expression, its type is (or points to) a
      structure, and a placeholder follows it. */
  predicate Applies(src: Source, d: DeclRef, subIds: seq<nat>) {
    subIds == [d.id] && d.ty.record.Some? && Placeholder(src, d).Some?
  }

  /** The body of the loop over parents, for a recovery expression. The check stops
      without a warning unless the expression holds just this reference, the type is a
      structure or a pointer to one, the expected operator follows the reference, and the
      text from the reference through the member holds `_<digits>_`. Then the fields are
      scanned in order: the first field whose byte offset reaches the number stops the scan,
      with a warning replacing the access by that field when its offset equals the number. */
  function AtRecovery(src: Source, charWidth: nat, asWritten: bool, d: DeclRef, subIds: seq<nat>): (r: Outcome)
    requires charWidth > 0
    ensures r.Stop? && r.diag.Some? <==>
      && Applies(src, d, subIds)
      && var i := FirstReaching(d.ty.record.value, charWidth, Placeholder(src, d).value.1);
         i.Some? && d.ty.record.value[i.value].offsetBits / charWidth == Placeholder(src, d).value.1
    ensures r.Stop? && r.diag.Some? ==>
      var endLoc := Placeholder(src, d).value.0;
      var field := d.ty.record.value[FirstReaching(d.ty.record.value, charWidth, Placeholder(src, d).value.1).value];
      r.diag.value == Diag(d.begin, [Replace(src.TokenRange(d.end, endLoc), Replacement(src, d, field.name, asWritten))])
    ensures r.Continue? <==>
      Applies(src, d, subIds) && FirstReaching(d.ty.record.value, charWidth, Placeholder(src, d).value.1).None?
  {
    if |subIds| != 1 || subIds[0] != d.id then Stop(None)
    else match d.ty.record
      case None => Stop(None)
      case Some(fields) =>
        match Placeholder(src, d)
        case None => Stop(None)
        case Some((endLoc, align)) =>
          match FirstReaching(fields, charWidth, align)
          case None => Continue
          case Some(i) =>
            if fields[i].offsetBits / charWidth == align then
              Stop(Some(Diag(d.begin, [Replace(src.TokenRange(d.end, endLoc), Replacement(src, d, fields[i].name, asWritten))])))
            else Stop(None)
  }

  /** The loop over the reference's parents from the `k`th on: other parents are passed
      over, a recovery expression either stops the check or lets it go on. */
  function Parents(src: Source, charWidth: nat, asWritten: bool, d: DeclRef, k: nat): (r: Option<Diag>)
    requires charWidth > 0 && k <= |d.parents|
    ensures r.Some? ==> exists j :: k <= j < |d.parents| && d.parents[j].RecoveryParent? &&
                                    AtRecovery(src, charWidth, asWritten, d, d.parents[j].subIds) == Stop(r)
    decreases |d.parents| - k
  {
    if k == |d.parents| then None
    else match d.parents[k]
      case OtherParent => Parents(src, charWidth, asWritten, d, k + 1)
      case RecoveryParent(subIds) =>
        match AtRecovery(src, charWidth, asWritten, d, subIds)
        case Stop(diag) => diag
        case Continue => Parents(src, charWidth, asWritten, d, k + 1)
  }

  /** `check` on one reference: at most one warning, for the first field at the offset the
      placeholder member names. `charWidth` is the target's bits per character. */
  function Check(src: Source, charWidth: nat, asWritten: bool, d: DeclRef): (r: Option<Diag>)
    requires charWidth > 0
    ensures r.Some? ==> r.value.at == d.begin && |r.value.fixes| == 1 && r.value.fixes[0].Replace?
    ensures r.Some? ==> exists j :: 0 <= j < |d.parents| && d.parents[j] == RecoveryParent([d.id])
    ensures (forall j :: 0 <= j < |d.parents| ==> !d.parents[j].RecoveryParent?) ==> r.None?
  {
    Parents(src, charWidth, asWritten, d, 0)
  }

  /** Ghidra's placeholder names read back: in `_<n>_` followed by anything, the leftmost
      match is the whole `_<n>_`, and its digits give back `n`. */
  lemma {:induction false} PlaceholderOffset(n: nat, rest: string)
    ensures MatchedDigits("_" + Decimal(n) + "_" + rest) == Some(Decimal(n))
    ensures ParseDecimal(Decimal(n)) == n
  {
    var s := "_" + Decimal(n) + "_" + rest;
    var m := |Decimal(n)|;
    assert forall k :: 1 <= k < 1 + m ==> s[k] == Decimal(n)[k - 1];
    DigitRunOver(s, 1, m);
    assert MatchAt(s, 0);
    assert s[1..1 + m] == Decimal(n);
    ParseDecimalOfDecimal(n);
  }

  lemma {:induction false} DigitRunOver(s: string, i: nat, m: nat)
    requires i + m < |s| && !IsDigit(s[i + m])
    requires forall k :: i <= k < i + m ==> IsDigit(s[k])
    ensures DigitRun(s, i) == m
    decreases m
  {
    if m > 0 {
      DigitRunOver(s, i + 1, m - 1);
    }
  }

  /** When the operator directly follows the reference, the text as written already ends
      with it, and the two replacements agree. */
  lemma {:induction false} AdjacentOperatorAgrees(src: Source, d: DeclRef, field: string)
    requires src.Valid() && d.begin <= d.end
    requires var after := d.end + src.tokenLength(d.end);
      var op := Operator(d.ty);
      after + |op| <= |src.text| && src.text[after..after + |op|] == op && src.tokenLength(after) == |op|
    ensures Replacement(src, d, field, true) == Replacement(src, d, field, false)
  {
    var after := d.end + src.tokenLength(d.end);
    var op := Operator(d.ty);
    var stop := after + |op|;
    assert d.begin <= after <= stop <= |src.text|;
    assert after + src.tokenLength(after) == stop;
    assert GetSourceText(src, d.begin, d.end) == src.text[d.begin..stop];
    assert src.SourceText(d.begin, d.end) == src.text[d.begin..after];
    assert src.text[d.begin..stop] == src.text[d.begin..after] + src.text[after..stop];
  }

  /** Corrected, a warning rewrites the access from the reference's last token through the
      placeholder, a range that holds the operator, into the reference, the operator and the
      name of a field at the placeholder's offset: the operator survives whatever whitespace
      surrounds it. */
  lemma {:induction false} CorrectedKeepsOperator(src: Source, charWidth: nat, d: DeclRef)
    requires charWidth > 0
    ensures Check(src, charWidth, false, d).Some? ==> Placeholder(src, d).Some? && d.ty.record.Some?
    ensures Check(src, charWidth, false, d).Some? ==>
      var fix, endLoc, op := Check(src, charWidth, false, d).value.fixes[0], Placeholder(src, d).value.0, Operator(d.ty);
      && fix.range == src.TokenRange(d.end, endLoc)
      && d.end + src.tokenLength(d.end) <= endLoc - |op| && endLoc <= |src.text|
      && src.text[endLoc - |op|..endLoc] == op
    ensures Check(src, charWidth, false, d).Some? ==>
      exists f :: f in d.ty.record.value && f.offsetBits / charWidth == Placeholder(src, d).value.1 &&
                  Check(src, charWidth, false, d).value.fixes[0].text == src.SourceText(d.begin, d.end) + Operator(d.ty) + f.name
  {
    var r := Check(src, charWidth, false, d);
    if r.None? {
      return;
    }
    var j :| 0 <= j < |d.parents| && d.parents[j].RecoveryParent? &&
             AtRecovery(src, charWidth, false, d, d.parents[j].subIds) == Stop(r);
    var subIds := d.parents[j].subIds;
    assert Applies(src, d, subIds);
    var fields := d.ty.record.value;
    var i := FirstReaching(fields, charWidth, Placeholder(src, d).value.1).value;
    assert fields[i] in fields;
  }

  /** `p ->_8_`: a pointer `p`, a space, the arrow and the placeholder for offset 8. */
  function SpacedSource(): Source {
    Source("p ->_8_", SpacedTokens)
  }

  /** The tokens of `p ->_8_`: `p`, `->` and `_8_`. */
  function SpacedTokens(p: nat): nat {
    if p == 0 then 1 else if p == 2 then 2 else if p == 4 then 3 else 0
  }

  /** `p`, a pointer to a structure whose field `x` starts at byte 8. */
  function SpacedRef(): DeclRef {
    DeclRef(0, 0, 0, RefType(true, Some([Field("x", 64)])), [RecoveryParent([0])])
  }

  lemma {:induction false} SpacedSourceValid()
    ensures SpacedSource().Valid()
  {
    var src := SpacedSource();
    assert forall p: nat :: p < |src.text| ==> src.text[p] !in "(){};";
  }

  lemma {:induction false} SpacedLocations()
    ensures SpacedSource().FindLocationAfterToken(0, "->") == Some(4)
    ensures GetSourceText(SpacedSource(), 0, 4) == "p ->_8_"
    ensures MatchedDigits("p ->_8_") == Some("8")
  {
    SpacedArrowFound();
    SpacedRefText();
    SpacedDigits();
  }

  lemma {:induction false} SpacedArrowFound()
    ensures SpacedSource().FindLocationAfterToken(0, "->") == Some(4)
  {
    assert SpacedSource().SkipWhitespace(1) == 2;
  }

  lemma SpacedRefText()
    ensures GetSourceText(SpacedSource(), 0, 4) == "p ->_8_"
  {
  }

  lemma {:induction false} SpacedDigits()
    ensures MatchedDigits("p ->_8_") == Some("8")
  {
    var s := "p ->_8_";
    assert !MatchAt(s, 0) && !MatchAt(s, 1) && !MatchAt(s, 2) && !MatchAt(s, 3);
    assert DigitRun(s, 5) == 1 by {
      DigitRunOver(s, 5, 1);
    }
    assert MatchAt(s, 4);
    assert FirstMatch(s, 0) == Some(4);
    assert s[5..6] == "8";
  }

  lemma {:induction false} SpacedFieldChosen()
    ensures ParseDecimal("8") == 8
    ensures FirstReaching([Field("x", 64)], 8, 8) == Some(0)
  {
    ParseDecimalOfDecimal(8);
    assert Decimal(8) == "8";
  }

  lemma {:induction false} SpacedTexts()
    ensures SpacedSource().TokenRange(0, 4) == Span(0, 7)
    ensures GetSourceText(SpacedSource(), 0, 0) == "p"
    ensures SpacedSource().SourceText(0, 0) == "p"
  {
    var src := SpacedSource();
    assert src.TokenRange(0, 0) == Span(0, 1);
    assert src.TokenRange(0, 1) == Span(0, 1);
  }

  /** At the one recovery parent of `p ->_8_`, the check stops with a warning replacing
      the whole access by the text `Replacement` gives for field `x`. */
  lemma {:induction false} SpacedAtRecovery(asWritten: bool)
    ensures AtRecovery(SpacedSource(), 8, asWritten, SpacedRef(), [0])
      == Stop(Some(Diag(0, [Replace(Span(0, 7), Replacement(SpacedSource(), SpacedRef(), "x", asWritten))])))
  {
    SpacedLocations();
    SpacedFieldChosen();
    SpacedTexts();
  }

  /** The one parent decides the check on `p ->_8_`. */
  lemma {:induction false} SpacedCheck(asWritten: bool)
    ensures Check(SpacedSource(), 8, asWritten, SpacedRef())
      == Some(Diag(0, [Replace(Span(0, 7), Replacement(SpacedSource(), SpacedRef(), "x", asWritten))]))
  {
    var d := SpacedRef();
    SpacedAtRecovery(asWritten);
    assert d.parents[0] == RecoveryParent([0]);
    assert Parents(SpacedSource(), 8, asWritten, d, 0) == Stop(Some(Diag(0, [Replace(Span(0, 7), Replacement(SpacedSource(), d, "x", asWritten))]))).diag;
  }

  /** As written, a space before the arrow loses the arrow: `p ->_8_` becomes `px`.
      Corrected, it becomes `p->x`. */
  lemma {:induction false} SpacedArrowAsWritten()
    ensures Check(SpacedSource(), 8, true, SpacedRef()) == Some(Diag(0, [Replace(Span(0, 7), "px")]))
    ensures Check(SpacedSource(), 8, false, SpacedRef()) == Some(Diag(0, [Replace(Span(0, 7), "p->x")]))
  {
    SpacedReplacements();
    SpacedCheck(true);
    SpacedCheck(false);
  }

  lemma {:induction false} SpacedReplacements()
    ensures Replacement(SpacedSource(), SpacedRef(), "x", true) == "px"
    ensures Replacement(SpacedSource(), SpacedRef(), "x", false) == "p->x"
  {
    SpacedReplacementAsWritten();
    SpacedReplacementCorrected();
  }

  lemma {:induction false} SpacedReplacementAsWritten()
    ensures Replacement(SpacedSource(), SpacedRef(), "x", true) == "px"
  {
    SpacedTexts();
    FieldAfter(GetSourceText(SpacedSource(), 0, 0));
  }

  lemma {:induction false} SpacedReplacementCorrected()
    ensures Replacement(SpacedSource(), SpacedRef(), "x", false) == "p->x"
  {
    SpacedTexts();
    assert Operator(SpacedRef().ty) == "->";
    ArrowAfter(SpacedSource().SourceText(0, 0));
  }

  lemma FieldAfter(q: string)
    requires q == "p"
    ensures q + "x" == "px"
  {
  }

  lemma ArrowAfter(q: string)
    requires q == "p"
    ensures q + "->" + "x" == "p->x"
  {
  }
}
