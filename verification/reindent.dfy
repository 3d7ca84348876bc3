/** The text `moveBlock` builds: a block's lines with leading blank lines skipped, each line
    shifted left by the configured indent when it is indented at least that far, and a
    trailing blank line dropped. */
module Reindent {
  import opened Base

  /** Offset of the first line break in `s`, or `|s|` when there is none. */
  function NewlineIndex(s: string): (k: nat)
    ensures k <= |s|
    ensures forall i :: 0 <= i < k ==> s[i] != '\n'
    ensures k < |s| ==> s[k] == '\n'
    decreases |s|
  {
    if s == [] || s[0] == '\n' then 0 else 1 + NewlineIndex(s[1..])
  }

  predicate NoNewline(l: string) {
    forall i :: 0 <= i < |l| ==> l[i] != '\n'
  }

  /** The lines `std::getline(stream, line, '\n')` reads from `s`: a final line break ends
      the last line rather than starting an empty one. */
  function SplitLines(s: string): (ls: seq<string>)
    ensures forall i :: 0 <= i < |ls| ==> NoNewline(ls[i])
    decreases |s|
  {
    if s == [] then []
    else
      var k := NewlineIndex(s);
      if k == |s| then [s] else [s[..k]] + SplitLines(s[k + 1..])
  }

  /** Each line followed by a line break, as `std::ostream_iterator<std::string>(out, "\n")`. */
  function JoinLines(ls: seq<string>): string
    decreases |ls|
  {
    if ls == [] then "" else ls[0] + "\n" + JoinLines(ls[1..])
  }

  lemma NewlineIndexAfterLine(a: string, b: string)
    requires NoNewline(a)
    ensures NewlineIndex(a + "\n" + b) == |a|
    decreases |a|
  {
    if a != [] {
      assert (a + "\n" + b)[1..] == a[1..] + "\n" + b;
      NewlineIndexAfterLine(a[1..], b);
    }
  }

  /** Reading back the lines written by `JoinLines` gives the same lines. */
  lemma {:induction false} SplitJoin(ls: seq<string>)
    requires forall i :: 0 <= i < |ls| ==> NoNewline(ls[i])
    ensures SplitLines(JoinLines(ls)) == ls
    decreases |ls|
  {
    if ls != [] {
      var s := JoinLines(ls);
      NewlineIndexAfterLine(ls[0], JoinLines(ls[1..]));
      assert s[..|ls[0]|] == ls[0];
      assert s[|ls[0]| + 1..] == JoinLines(ls[1..]);
      SplitJoin(ls[1..]);
    }
  }

  /** `find_first_not_of(" \t")`: the first column holding neither a space nor a tab. */
  function FirstNonBlank(l: string): (r: Option<nat>)
    ensures r.Some? ==> r.value < |l| && !IsSpaceOrTab(l[r.value])
    ensures r.Some? ==> forall i :: 0 <= i < r.value ==> IsSpaceOrTab(l[i])
    ensures r.None? <==> forall i :: 0 <= i < |l| ==> IsSpaceOrTab(l[i])
    decreases |l|
  {
    if l == [] then None
    else if !IsSpaceOrTab(l[0]) then Some(0)
    else match FirstNonBlank(l[1..])
      case None => None
      case Some(k) => Some(k + 1)
  }

  predicate IsBlank(l: string) {
    FirstNonBlank(l).None?
  }

  /** One line of the block: loses exactly `indent` leading characters when its text starts at
      column `indent` or later, and is kept as it is otherwise (blank lines included). */
  function Dedent(l: string, indent: nat): (r: string)
    ensures (FirstNonBlank(l).Some? && FirstNonBlank(l).value >= indent) ==>
      |l| >= indent && r == l[indent..] && forall i :: 0 <= i < indent ==> IsSpaceOrTab(l[i])
    ensures !(FirstNonBlank(l).Some? && FirstNonBlank(l).value >= indent) ==> r == l
  {
    match FirstNonBlank(l)
    case None => l
    case Some(start) => if start < indent then l else l[indent..]
  }

  /** The lines from the first non-blank one on. */
  function DropLeadingBlank(ls: seq<string>): (r: seq<string>)
    ensures |r| <= |ls| && r == ls[|ls| - |r|..]
    ensures forall i :: 0 <= i < |ls| - |r| ==> IsBlank(ls[i])
    ensures |r| > 0 ==> !IsBlank(r[0])
    decreases |ls|
  {
    if ls == [] || !IsBlank(ls[0]) then ls else DropLeadingBlank(ls[1..])
  }

  function DedentAll(ls: seq<string>, indent: nat): (r: seq<string>)
    ensures |r| == |ls|
    ensures forall i :: 0 <= i < |ls| ==> r[i] == Dedent(ls[i], indent)
    decreases |ls|
  {
    if ls == [] then [] else [Dedent(ls[0], indent)] + DedentAll(ls[1..], indent)
  }

  /** The lines `moveBlock` keeps, in order, after the leading line break it starts with. */
  function MoveBlockLines(s: string, indent: nat): seq<string> {
    DropBlankLast(DedentAll(DropLeadingBlank(SplitLines(s)), indent))
  }

  /** The lines without the last one when that one is blank. */
  function DropBlankLast(ls: seq<string>): (r: seq<string>)
    ensures |r| == |ls| || (|r| == |ls| - 1 && IsBlank(ls[|ls| - 1]))
    ensures r == ls[..|r|]
  {
    if |ls| > 0 && IsBlank(ls[|ls| - 1]) then ls[..|ls| - 1] else ls
  }

  /** Each line preceded by a line break. */
  function PrefixLines(ls: seq<string>): string
    decreases |ls|
  {
    if ls == [] then "" else "\n" + ls[0] + PrefixLines(ls[1..])
  }

  /** `moveBlock`'s text: the vector `{"\n"} ++ lines` joined with line breaks, that is a
      line break, then each kept line on a line of its own, with no break after the last. */
  function MoveBlockText(s: string, indent: nat): string {
    "\n" + PrefixLines(MoveBlockLines(s, indent))
  }

  /** Prefixing every line with a break is suffixing every line with one, shifted by one. */
  lemma {:induction false} PrefixIsJoin(ls: seq<string>)
    ensures PrefixLines(ls) + "\n" == "\n" + JoinLines(ls)
    decreases |ls|
  {
    if ls != [] {
      PrefixIsJoin(ls[1..]);
      calc {
        PrefixLines(ls) + "\n";
        "\n" + ls[0] + (PrefixLines(ls[1..]) + "\n");
        "\n" + ls[0] + ("\n" + JoinLines(ls[1..]));
        "\n" + JoinLines(ls);
      }
    }
  }

  /** A line keeps its text, only its leading blanks can shrink. */
  lemma {:induction false} DedentKeepsText(l: string, indent: nat)
    ensures IsBlank(Dedent(l, indent)) <==> IsBlank(l)
    ensures var r := Dedent(l, indent);
      FirstNonBlank(l).Some? ==> r[FirstNonBlank(r).value..] == l[FirstNonBlank(l).value..]
  {
    var r := Dedent(l, indent);
    if FirstNonBlank(l).Some? && FirstNonBlank(l).value >= indent {
      var k := FirstNonBlank(l).value;
      assert forall i :: 0 <= i < k - indent ==> r[i] == l[i + indent];
      assert !IsSpaceOrTab(r[k - indent]);
      FirstNonBlankAt(r, k - indent);
      assert r[k - indent..] == l[k..];
    }
  }

  lemma {:induction false} FirstNonBlankAt(l: string, k: nat)
    requires k < |l| && !IsSpaceOrTab(l[k])
    requires forall i :: 0 <= i < k ==> IsSpaceOrTab(l[i])
    ensures FirstNonBlank(l) == Some(k)
  {
  }

  /** What `moveBlock` keeps: the lines of `s` from the first non-blank one, each dedented,
      with at most the last one dropped and only if it is blank. The first kept line is not
      blank. */
  lemma {:induction false} MoveBlockKeeps(s: string, indent: nat)
    ensures var rest := DropLeadingBlank(SplitLines(s));
      var out := MoveBlockLines(s, indent);
      && (|out| == |rest| || (|out| == |rest| - 1 && IsBlank(rest[|rest| - 1])))
      && (forall i :: 0 <= i < |out| ==> out[i] == Dedent(rest[i], indent))
      && (|out| > 0 ==> !IsBlank(out[0]))
  {
    KeptLines(DropLeadingBlank(SplitLines(s)), indent);
  }

  lemma {:induction false} KeptLines(rest: seq<string>, indent: nat)
    requires |rest| > 0 ==> !IsBlank(rest[0])
    ensures var out := DropBlankLast(DedentAll(rest, indent));
      && (|out| == |rest| || (|out| == |rest| - 1 && IsBlank(rest[|rest| - 1])))
      && (forall i :: 0 <= i < |out| ==> out[i] == Dedent(rest[i], indent))
      && (|out| > 0 ==> !IsBlank(out[0]))
  {
    var shifted := DedentAll(rest, indent);
    var out := DropBlankLast(shifted);
    if |rest| > 0 {
      DedentKeepsText(rest[|rest| - 1], indent);
      DedentKeepsText(rest[0], indent);
    }
    forall i | 0 <= i < |out| ensures out[i] == Dedent(rest[i], indent) {
      assert out[i] == shifted[i];
    }
  }

  /** The text `moveBlock` builds reads back as an empty line, a blank line, then exactly the
      kept lines. */
  lemma {:induction false} MoveBlockTextLines(s: string, indent: nat)
    ensures SplitLines(MoveBlockText(s, indent) + "\n") == ["", ""] + MoveBlockLines(s, indent)
  {
    LinesHaveNoBreak(s, indent);
    BreakThenLines(MoveBlockLines(s, indent));
  }

  lemma {:induction false} BreakThenLines(out: seq<string>)
    requires forall i :: 0 <= i < |out| ==> NoNewline(out[i])
    ensures SplitLines("\n" + PrefixLines(out) + "\n") == ["", ""] + out
  {
    var lines := ["", ""] + out;
    forall i | 0 <= i < |lines|
      ensures NoNewline(lines[i])
    {
      if i >= 2 {
        assert lines[i] == out[i - 2];
      }
    }
    LeadingBreaks(out);
    SplitJoin(lines);
  }

  lemma {:induction false} LinesHaveNoBreak(s: string, indent: nat)
    ensures forall i :: 0 <= i < |MoveBlockLines(s, indent)| ==> NoNewline(MoveBlockLines(s, indent)[i])
  {
    var rest := DropLeadingBlank(SplitLines(s));
    SuffixHasNoBreak(SplitLines(s));
    var shifted := DedentAll(rest, indent);
    forall i | 0 <= i < |shifted|
      ensures NoNewline(shifted[i])
    {
      DedentHasNoBreak(rest[i], indent);
    }
  }

  lemma {:induction false} DedentHasNoBreak(l: string, indent: nat)
    requires NoNewline(l)
    ensures NoNewline(Dedent(l, indent))
  {
  }

  lemma {:induction false} SuffixHasNoBreak(ls: seq<string>)
    requires forall i :: 0 <= i < |ls| ==> NoNewline(ls[i])
    ensures forall i :: 0 <= i < |DropLeadingBlank(ls)| ==> NoNewline(DropLeadingBlank(ls)[i])
  {
    var r := DropLeadingBlank(ls);
    var k := |ls| - |r|;
    assert r == ls[k..];
    forall i | 0 <= i < |r| ensures NoNewline(r[i]) {
      assert r[i] == ls[k + i];
    }
  }

  lemma {:induction false} LeadingBreaks(out: seq<string>)
    ensures "\n" + PrefixLines(out) + "\n" == JoinLines(["", ""] + out)
  {
    PrefixIsJoin(out);
    assert (["", ""] + out)[1..] == [""] + out;
    assert ([""] + out)[1..] == out;
    assert JoinLines([""] + out) == "\n" + JoinLines(out);
  }
}
