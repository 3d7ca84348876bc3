/** The edits the if/else check makes to one `if`: negating its condition, swapping its
    branches, unwrapping a block and appending an interrupting statement to a branch.

    Every edit goes both into the shared rewriter (so that later reads of the buffer see it)
    and onto the pending fix list, which is handed over with the next warning. */
module IfElseEdits {
  import opened Base
  import opened Lexer
  import opened Rewriter
  import opened Ast
  import opened Cfg
  import opened Utils
  import opened Reindent
  import opened Shift

  /** What the check carries from one `if` to the next: whether re-indenting is still on
      (the `NeedShift` option, switched off for good by the first branch that cannot be made
      to interrupt), the rewriter's edits, the fixes not yet handed to a warning, and the
      warnings so far. */
  datatype Checker = Checker(needShift: bool, rw: seq<Edit>, fixList: seq<Edit>, diags: seq<Diag>)

  /** Apply `rwEdit` to the rewriter and queue `fix`. */
  function Emit(c: Checker, rwEdit: Edit, fix: Edit): (r: Checker)
    ensures r.fixList == c.fixList + [fix] && r.rw == Record(c.rw, rwEdit)
    ensures r.needShift == c.needShift && r.diags == c.diags
  {
    c.(rw := Record(c.rw, rwEdit), fixList := c.fixList + [fix])
  }

  /** The same edit to the rewriter and as a fix. */
  function Do(c: Checker, e: Edit): (r: Checker)
    ensures r.fixList == c.fixList + [e] && r.rw == Record(c.rw, e)
    ensures r.needShift == c.needShift && r.diags == c.diags
  {
    Emit(c, e, e)
  }

  /** Hand the pending fixes to a warning at `at`, emptying the list. */
  function Flush(c: Checker, at: nat): (r: Checker)
    ensures r.diags == c.diags + [Diag(at, c.fixList)] && r.fixList == []
    ensures r.rw == c.rw && r.needShift == c.needShift
  {
    c.(fixList := [], diags := c.diags + [Diag(at, c.fixList)])
  }

  /** The one-past-the-end offset of the token before `p`, as `getLocWithOffset(-1)` on a
      location that is never the file's first character. */
  function Before(p: nat): nat {
    if p > 0 then p - 1 else 0
  }

  /** The edits that negate condition `cond` of an `if` whose `then` block opens at
      `thenBegin`.

      A `!` condition whose text starts with `!(` loses those two characters and its last
      token; one that starts with `!` loses the `!`. Anything else is wrapped as `!(...)`.

      `asWritten` chooses between the check as written, which strips `!(` whenever the text
      starts with it, and the corrected check, which strips it only when the operand of `!`
      is itself parenthesised (see `StripCastAsWritten`). */
  function ConditionEdits(src: Source, cond: Expr, thenBegin: nat, asWritten: bool): (es: seq<Edit>)
    ensures 1 <= |es| <= 2
    ensures StartsWithNegation(src, cond) ==> forall i :: 0 <= i < |es| ==> es[i].Remove?
    ensures !StartsWithNegation(src, cond) ==> es == WrapEdits(src, cond, thenBegin)
  {
    var b := cond.begin;
    if StripsParens(src, cond, asWritten) then
      [Remove(src.TokenRange(b, b + 1)), Remove(src.TokenRange(cond.end, cond.end))]
    else if StartsWithNegation(src, cond) then
      [Remove(src.TokenRange(b, b))]
    else WrapEdits(src, cond, thenBegin)
  }

  /** A `!` condition whose text starts with `!`. */
  predicate StartsWithNegation(src: Source, cond: Expr) {
    cond.kind.LNot? && StartsWith(GetSourceText(src, cond.begin, cond.begin + 2), "!")
  }

  /** The condition loses its leading `!(` and its last token: as written, whenever its text
      starts with `!(`; corrected, only when the operand of `!` is parenthesised. */
  predicate StripsParens(src: Source, cond: Expr, asWritten: bool) {
    && cond.kind.LNot?
    && StartsWith(GetSourceText(src, cond.begin, cond.begin + 2), "!(")
    && (asWritten || cond.kind.operand.kind.Paren?)
  }

  /** Wrap the condition as `!(...)`: the `!(` before it, the `)` after the `)` that follows
      it, or just before the `then` block when no `)` follows. */
  function WrapEdits(src: Source, cond: Expr, thenBegin: nat): (es: seq<Edit>)
    ensures |es| == 2 && es[0] == Insert(cond.begin, "!(")
    ensures src.FindLocationAfterToken(cond.end, ")").Some? ==>
      es[1] == Insert(src.FindLocationAfterToken(cond.end, ")").value, ")")
    ensures src.FindLocationAfterToken(cond.end, ")").None? ==> es[1] == Insert(Before(thenBegin), ")")
  {
    var close := match src.FindLocationAfterToken(cond.end, ")")
      case Some(q) => q
      case None => Before(thenBegin);
    [Insert(cond.begin, "!("), Insert(close, ")")]
  }

  /** Each edit in turn, into the rewriter and onto the fix list. */
  function DoAll(c: Checker, es: seq<Edit>): (r: Checker)
    ensures r.fixList == c.fixList + es && r.rw == RecordAll(c.rw, es)
    ensures r.needShift == c.needShift && r.diags == c.diags
    decreases |es|
  {
    if es == [] then c
    else
      var c1 := Do(c, es[0]);
      var r := DoAll(c1, es[1..]);
      AppendFirst(c.fixList, es);
      r
  }

  /** Queuing the first edit, then the rest, queues them all. */
  lemma AppendFirst(a: seq<Edit>, es: seq<Edit>)
    requires es != []
    ensures a + [es[0]] + es[1..] == a + es
  {
    assert [es[0]] + es[1..] == es;
  }

  /** `reverseCondition`: refuses an `if` with an init statement or a `then` branch that is not
      a block, and otherwise negates the condition, as written or corrected. */
  function ReverseCondition(src: Source, c: Checker, s: Stmt, asWritten: bool): (r: Option<Checker>)
    requires s.If?
    ensures r.None? <==> s.layout.hasInit || !s.thenStmt.Compound?
    ensures r.Some? ==> r.value == DoAll(c, ConditionEdits(src, s.cond, s.thenStmt.node.begin, asWritten))
  {
    if s.layout.hasInit || !s.thenStmt.Compound? then None
    else Some(DoAll(c, ConditionEdits(src, s.cond, s.thenStmt.node.begin, asWritten)))
  }

  /** `getCompoundStmtRange` and the token range of a statement: from the first character of
      the statement (a block's `{`) through its last token (a block's `}`). */
  function StmtRange(src: Source, st: Stmt): (r: CharRange)
    ensures r.lo == st.node.begin
  {
    src.TokenRange(st.node.begin, st.node.end)
  }

  /** A block's interior without its braces: `getCompoundStmtRange` with an indent of -1,
      which the unsigned arithmetic turns into one character in from each brace. */
  function InteriorRange(src: Source, st: Stmt): CharRange {
    src.TokenRange(st.node.begin + 1, Before(st.node.end))
  }

  /** The range `reverseStmt` takes as the `else` branch. A block is taken whole. Any other
      statement runs from just after the `else` keyword to the `;` after the `if`. As written,
      the range is a token range ending at the offset just past that `;`, so it runs through
      the token that directly follows the `;` (the enclosing block's `}` in `else b;}`).
      Corrected, it ends just past the `;`. With no `;` after the `if`, it runs through the
      `if`'s last token. */
  function ElseRange(src: Source, s: Stmt, asWritten: bool): (r: CharRange)
    requires s.If? && s.elseStmt.Some?
    ensures s.elseStmt.value.Compound? ==> r == StmtRange(src, s.elseStmt.value)
    ensures !s.elseStmt.value.Compound? ==> r.lo == s.layout.elseLoc + src.tokenLength(s.layout.elseLoc)
    ensures !s.elseStmt.value.Compound? ==> var keyword := s.layout.elseLoc + src.tokenLength(s.layout.elseLoc);
      match src.FindLocationAfterToken(s.node.end, ";")
      case Some(semi) => r == (if asWritten then src.TokenRange(keyword, semi) else RangeOf(keyword, semi))
      case None => r == src.TokenRange(keyword, s.node.end)
  {
    var el := s.elseStmt.value;
    if el.Compound? then StmtRange(src, el)
    else
      var keyword := s.layout.elseLoc + src.tokenLength(s.layout.elseLoc);
      match src.FindLocationAfterToken(s.node.end, ";")
      case Some(semi) => if asWritten then src.TokenRange(keyword, semi) else RangeOf(keyword, semi)
      case None => src.TokenRange(keyword, s.node.end)
  }

  /** The text of a range as the rewriter currently has it. */
  function ReadRange(src: Source, c: Checker, r: CharRange): string {
    Read(src.text, c.rw, r.lo, r.hi)
  }

  /** `moveBlock`: replace statement `st` by `text` re-indented, unwrapping the block. */
  function MoveBlock(src: Source, c: Checker, st: Stmt, text: string, indent: nat): (r: Checker)
    ensures r.fixList == c.fixList + [Remove(StmtRange(src, st)), Insert(st.node.begin, MoveBlockText(text, indent))]
    ensures r.rw == Record(Record(c.rw, Remove(StmtRange(src, st))), Insert(st.node.begin, MoveBlockText(text, indent)))
    ensures r.needShift == c.needShift && r.diags == c.diags
  {
    var gone, moved := Remove(StmtRange(src, st)), Insert(st.node.begin, MoveBlockText(text, indent));
    var c1 := Do(c, gone);
    AppendPair(c.fixList, gone, moved);
    Do(c1, moved)
  }

  lemma AppendPair(a: seq<Edit>, x: Edit, y: Edit)
    ensures a + [x] + [y] == a + [x, y]
  {
  }

  /** The range that goes with the `else` keyword: from just after the `then` block's `}`
      through the token after the keyword when `then` is a block, the keyword alone
      otherwise. */
  function ElseRemoval(src: Source, s: Stmt): CharRange
    requires s.If?
  {
    var elseLoc := s.layout.elseLoc;
    if s.thenStmt.Compound? then src.TokenRange(s.thenStmt.node.end + 1, elseLoc + src.tokenLength(elseLoc))
    else src.TokenRange(elseLoc, elseLoc)
  }

  /** Remove the `else` keyword, together with everything from just after the `then` block's
      `}` when `then` is a block. */
  function RemoveElse(src: Source, c: Checker, s: Stmt): (r: Checker)
    requires s.If?
    ensures |r.fixList| == |c.fixList| + 1 && r.fixList[..|c.fixList|] == c.fixList
    ensures var elseLoc := s.layout.elseLoc;
      r.fixList[|c.fixList|] == Remove(
        if s.thenStmt.Compound? then src.TokenRange(s.thenStmt.node.end + 1, elseLoc + src.tokenLength(elseLoc))
        else src.TokenRange(elseLoc, elseLoc))
    ensures r.rw == Record(c.rw, Remove(ElseRemoval(src, s)))
    ensures r.needShift == c.needShift && r.diags == c.diags
  {
    Do(c, Remove(ElseRemoval(src, s)))
  }

  /** The edits that unwrap block `el`, the `else` branch of `s`, in favour of `text`
      re-indented, and drop the `else` keyword. */
  function MoveElseEdits(src: Source, s: Stmt, el: Stmt, text: string, indent: nat): seq<Edit>
    requires s.If?
  {
    [Remove(StmtRange(src, el)), Insert(el.node.begin, MoveBlockText(text, indent)), Remove(ElseRemoval(src, s))]
  }

  /** What `reverseStmt` puts in place of the `else` branch: the `then` text in its place, or
      with re-indenting on, the `then` block's interior re-indented where the `else` block
      was, and the `else` keyword gone. */
  function ReplaceElse(src: Source, c: Checker, s: Stmt, ifText: string, indent: nat, asWritten: bool): (r: Checker)
    requires s.If? && s.elseStmt.Some?
    ensures r.needShift == c.needShift && r.diags == c.diags
    ensures |r.fixList| > |c.fixList| && r.fixList[..|c.fixList|] == c.fixList
    ensures !c.needShift ==> r == Do(c, Replace(ElseRange(src, s, asWritten), ifText))
    ensures c.needShift ==> var es := MoveElseEdits(src, s, s.elseStmt.value, ifText, indent);
      r.fixList == c.fixList + es && r.rw == RecordAll(c.rw, es)
  {
    if c.needShift then
      var m := MoveBlock(src, c, s.elseStmt.value, ifText, indent);
      var r := RemoveElse(src, m, s);
      QueuedFront(c.fixList, m.fixList, r.fixList);
      MovedElse(src, c, s, s.elseStmt.value, ifText, indent);
      r
    else Do(c, Replace(ElseRange(src, s, asWritten), ifText))
  }

  /** Unwrapping a block and then dropping the `else` keyword does the three edits of
      `MoveElseEdits` in turn. */
  lemma MovedElse(src: Source, c: Checker, s: Stmt, el: Stmt, text: string, indent: nat)
    requires s.If?
    ensures var r := RemoveElse(src, MoveBlock(src, c, el, text, indent), s);
      var es := MoveElseEdits(src, s, el, text, indent);
      r.fixList == c.fixList + es && r.rw == RecordAll(c.rw, es)
  {
    var x, y, z := Remove(StmtRange(src, el)), Insert(el.node.begin, MoveBlockText(text, indent)), Remove(ElseRemoval(src, s));
    var m := MoveBlock(src, c, el, text, indent);
    var r := RemoveElse(src, m, s);
    assert m.fixList == c.fixList + [x, y] && m.rw == Record(Record(c.rw, x), y);
    assert r.fixList == m.fixList + [z] && r.rw == Record(m.rw, z);
    RecordThree(c.rw, x, y, z);
    AppendThird(c.fixList, x, y, z);
  }

  lemma AppendThird(a: seq<Edit>, x: Edit, y: Edit, z: Edit)
    ensures a + [x, y] + [z] == a + [x, y, z]
  {
  }

  /** `reverseStmt`: swap the texts of the two branches. */
  function ReverseStmt(src: Source, c: Checker, s: Stmt, indent: nat, asWritten: bool): (r: Checker)
    requires s.If? && s.elseStmt.Some?
    ensures r.needShift == c.needShift && r.diags == c.diags
    ensures |r.fixList| > |c.fixList| && r.fixList[..|c.fixList|] == c.fixList
    ensures r.fixList[|r.fixList| - 1] == Replace(StmtRange(src, s.thenStmt), ReadRange(src, c, ElseRange(src, s, asWritten)))
  {
    var thenRange := StmtRange(src, s.thenStmt);
    var elseText := ReadRange(src, c, ElseRange(src, s, asWritten));
    var ifText := if c.needShift then ReadRange(src, c, InteriorRange(src, s.thenStmt)) else ReadRange(src, c, thenRange);
    var c1 := ReplaceElse(src, c, s, ifText, indent, asWritten);
    DoAfter(c, c1, Replace(thenRange, elseText));
    Do(c1, Replace(thenRange, elseText))
  }

  /** A queue that starts with `b`, which starts with `a`, starts with `a`. */
  lemma QueuedFront(a: seq<Edit>, b: seq<Edit>, c: seq<Edit>)
    requires |a| <= |b| && b[..|a|] == a
    requires |b| <= |c| && c[..|b|] == b
    ensures c[..|a|] == a
  {
    assert c[..|a|] == c[..|b|][..|a|];
  }

  /** An edit done after others keeps the fixes queued before them at the front, and comes
      last. */
  lemma DoAfter(c: Checker, c1: Checker, e: Edit)
    requires |c1.fixList| >= |c.fixList| && c1.fixList[..|c.fixList|] == c.fixList
    ensures var r := Do(c1, e);
      |r.fixList| > |c.fixList| && r.fixList[..|c.fixList|] == c.fixList && r.fixList[|r.fixList| - 1] == e
  {
    assert (c1.fixList + [e])[..|c.fixList|] == c1.fixList[..|c.fixList|];
  }

  /** `appendStmt`: copy statement `add` to a new line after the last statement of block
      `target`, indented like that statement. The fix inserts at the `;` ending the last
      statement (or just after its last token); the rewriter inserts after the token found
      there. */
  function AppendStmt(src: Source, c: Checker, target: Stmt, add: Node): (r: Checker)
    requires target.Compound? && |target.body| > 0
    ensures var last := target.body[|target.body| - 1].node;
      |r.fixList| == |c.fixList| + 1 && r.fixList[..|c.fixList|] == c.fixList
      && r.fixList[|c.fixList|] == Insert(AppendAt(src, last), AppendText(src, last, add))
      && AppendText(src, last, add) == "\n" + src.IndentationForLine(last.begin) + GetSourceText(src, add.begin, add.end)
      && r.rw == Record(c.rw, Insert(InsertAt(src, target), AppendText(src, last, add)))
      && InsertAt(src, target) == AppendAt(src, last) + src.tokenLength(AppendAt(src, last))
    ensures r.needShift == c.needShift && r.diags == c.diags
  {
    var last := target.body[|target.body| - 1].node;
    var semi := AppendAt(src, last);
    var text := AppendText(src, last, add);
    Emit(c, Insert(semi + src.tokenLength(semi), text), Insert(semi, text))
  }

  /** Where `appendStmt` anchors the new statement: just past the `;` that ends the block's
      last statement, or just past that statement's last token when no `;` follows. */
  function AppendAt(src: Source, last: Node): (p: nat)
    ensures src.FindLocationAfterToken(last.end, ";").Some? ==>
      p == src.FindLocationAfterToken(last.end, ";").value
    ensures src.FindLocationAfterToken(last.end, ";").None? ==> p == last.end + src.tokenLength(last.end)
  {
    src.FindLocationAfterToken(last.end, ";").GetOr(last.end + src.tokenLength(last.end))
  }

  /** Where the rewriter inserts the new statement: after the token found at `AppendAt`. */
  function InsertAt(src: Source, target: Stmt): nat
    requires target.Compound? && |target.body| > 0
  {
    var semi := AppendAt(src, target.body[|target.body| - 1].node);
    semi + src.tokenLength(semi)
  }

  /** The appended statement: a line break, the last statement's indentation, and the text
      of `add` through the token after it. */
  function AppendText(src: Source, last: Node, add: Node): (t: string)
    ensures |t| > 0 && t[0] == '\n'
  {
    "\n" + src.IndentationForLine(last.begin) + GetSourceText(src, add.begin, add.end)
  }

  /** `addBlockToStmt`: make branch `target` end in an interrupting statement. A branch that
      already ends in one is left alone; otherwise the interrupting statement of the block
      the CFG search settles on is appended, unless it comes from a macro. The answer says
      whether the branch now interrupts. */
  /** The branch's last statement already interrupts control flow. */
  predicate EndsInInterrupt(target: Stmt) {
    GetLastStmt(target).Some? && IsInterruptClass(GetLastStmt(target).value.cls)
  }

  /** The interrupting statement the CFG search offers for `target`, unless it comes from a
      macro. */
  function AppendableInterrupt(g: Graph, stmtBlock: map<nat, nat>, target: Stmt): (st: Option<Node>)
    requires g.exit in g.blocks
    ensures st.Some? <==>
      && InterruptBlockForStmt(g, stmtBlock, target).Some?
      && GetInterruptStatement(InterruptBlockForStmt(g, stmtBlock, target).value).Some?
      && !GetInterruptStatement(InterruptBlockForStmt(g, stmtBlock, target).value).value.fromMacro
    ensures st.Some? ==> st == GetInterruptStatement(InterruptBlockForStmt(g, stmtBlock, target).value)
  {
    match InterruptBlockForStmt(g, stmtBlock, target)
    case None => None
    case Some(b) =>
      match GetInterruptStatement(b)
      case None => None
      case Some(st) => if st.fromMacro then None else Some(st)
  }

  function AddBlockToStmt(src: Source, g: Graph, stmtBlock: map<nat, nat>, c: Checker, target: Stmt): (r: (bool, Checker))
    requires g.exit in g.blocks
    ensures EndsInInterrupt(target) ==> r == (true, c)
    ensures r.0 <==> EndsInInterrupt(target) || AppendableInterrupt(g, stmtBlock, target).Some?
    ensures !r.0 ==> r.1 == c
    ensures !EndsInInterrupt(target) && r.0 ==>
      r.1 == AppendStmt(src, c, target, AppendableInterrupt(g, stmtBlock, target).value)
    ensures r.1 != c ==> !EndsInInterrupt(target) && r.0
  {
    var last := GetLastStmt(target);
    if last.Some? && IsInterruptClass(last.value.cls) then (true, c)
    else
      match InterruptBlockForStmt(g, stmtBlock, target)
      case None => (false, c)
      case Some(b) =>
        match GetInterruptStatement(b)
        case None => (false, c)
        case Some(st) =>
          if st.fromMacro then (false, c)
          else
            var r := AppendStmt(src, c, target, st);
            assert |r.fixList| != |c.fixList|;
            (true, r)
  }

  /** After `addBlockToStmt` appends an interrupting statement, the branch reads back as its
      former text up to the insertion point, then the appended line, then the rest of its
      former text (its closing `}`), when no edit recorded so far reaches that point. */
  lemma {:induction false} AppendedReadsBack(src: Source, g: Graph, stmtBlock: map<nat, nat>, c: Checker, target: Stmt)
    requires g.exit in g.blocks
    requires target.Compound? && |target.body| > 0 && Sorted(c.rw)
    requires var whole := StmtRange(src, target);
      whole.lo < InsertAt(src, target) < whole.hi <= |src.text|
    requires forall y :: y in c.rw ==> y.Hi() < InsertAt(src, target) || InsertAt(src, target) < y.Lo()
    ensures var r := AddBlockToStmt(src, g, stmtBlock, c, target).1;
      var whole, p := StmtRange(src, target), InsertAt(src, target);
      var b := InterruptBlockForStmt(g, stmtBlock, target);
      r != c ==>
        && b.Some? && GetInterruptStatement(b.value).Some?
        && ReadRange(src, r, whole)
           == ReadRange(src, c, RangeOf(whole.lo, p))
              + AppendText(src, target.body[|target.body| - 1].node, GetInterruptStatement(b.value).value)
              + ReadRange(src, c, RangeOf(p, whole.hi))
  {
    var r := AddBlockToStmt(src, g, stmtBlock, c, target).1;
    if r != c {
      var whole, p := StmtRange(src, target), InsertAt(src, target);
      var add := GetInterruptStatement(InterruptBlockForStmt(g, stmtBlock, target).value).value;
      var text := AppendText(src, target.body[|target.body| - 1].node, add);
      assert r.rw == Record(c.rw, Insert(p, text));
      ReadAroundInsert(src.text, c.rw, p, text, whole.lo, whole.hi);
    }
  }

  /** Without re-indenting, `reverseStmt` swaps the branches: reading the `then` range back
      gives what the `else` range read before, and the other way round, whatever inner
      `if`s rewrote inside them before. */
  lemma {:induction false} ReverseStmtSwaps(src: Source, c: Checker, s: Stmt, indent: nat, asWritten: bool)
    requires s.If? && s.elseStmt.Some? && !c.needShift
    requires var t, e := StmtRange(src, s.thenStmt), ElseRange(src, s, asWritten);
      t.lo < t.hi <= e.lo < e.hi <= |src.text|
    ensures var t, e := StmtRange(src, s.thenStmt), ElseRange(src, s, asWritten);
      var r := ReverseStmt(src, c, s, indent, asWritten);
      && ReadRange(src, r, t) == ReadRange(src, c, e)
      && ReadRange(src, r, e) == ReadRange(src, c, t)
  {
    var t, e := StmtRange(src, s.thenStmt), ElseRange(src, s, asWritten);
    var ifText, elseText := ReadRange(src, c, t), ReadRange(src, c, e);
    var c1 := Do(c, Replace(e, ifText));
    assert ReverseStmt(src, c, s, indent, asWritten) == Do(c1, Replace(t, elseText));
    ReadRecorded(src.text, c1.rw, Replace(t, elseText));
    ReadOutside(src.text, c1.rw, Replace(t, elseText), e.lo, e.hi);
    ReadRecorded(src.text, c.rw, Replace(e, ifText));
  }

  /** With re-indenting on, `reverseStmt` on two blocks: the `then` range reads back as the
      `else` block read before, and the span from the `else` keyword's removal through the
      `else` block's `}` reads back as what lay between the keyword and the `{`, then the
      former `then` interior re-indented, when nothing recorded before reaches into that
      span up to the `{`. */
  lemma {:induction false} ReverseStmtShifted(src: Source, c: Checker, s: Stmt, indent: nat, asWritten: bool)
    requires s.If? && s.elseStmt.Some? && s.elseStmt.value.Compound? && c.needShift
    requires var t, x, e := StmtRange(src, s.thenStmt), ElseRemoval(src, s), StmtRange(src, s.elseStmt.value);
      t.lo < t.hi <= x.lo < x.hi <= e.lo < e.hi <= |src.text|
    requires forall y :: y in c.rw ==> y.Hi() < ElseRemoval(src, s).lo || s.elseStmt.value.node.begin < y.Lo()
    ensures var t, x, e := StmtRange(src, s.thenStmt), ElseRemoval(src, s), StmtRange(src, s.elseStmt.value);
      var r := ReverseStmt(src, c, s, indent, asWritten);
      && ReadRange(src, r, t) == ReadRange(src, c, e)
      && ReadRange(src, r, RangeOf(x.lo, e.hi))
         == src.text[x.hi..e.lo] + MoveBlockText(ReadRange(src, c, InteriorRange(src, s.thenStmt)), indent)
  {
    var el := s.elseStmt.value;
    var t, x, e := StmtRange(src, s.thenStmt), ElseRemoval(src, s), StmtRange(src, el);
    var moved := MoveBlockText(ReadRange(src, c, InteriorRange(src, s.thenStmt)), indent);
    var c1 := ShiftedSteps(src, c, s, indent, asWritten);
    var last := Replace(t, ReadRange(src, c, e));
    var r := ReverseStmt(src, c, s, indent, asWritten);
    assert r.rw == Record(c1.rw, last);
    ShiftedThenRead(src.text, c1.rw, last);
    ShiftedElseRead(src.text, c.rw, c1.rw, last, x, e, moved);
  }

  lemma ShiftedThenRead(orig: string, rw: seq<Edit>, last: Edit)
    requires last.Replace? && last.range.lo < last.range.hi <= |orig|
    ensures Read(orig, Record(rw, last), last.range.lo, last.range.hi) == last.text
  {
    ReadRecorded(orig, rw, last);
  }

  lemma ShiftedElseRead(orig: string, rw: seq<Edit>, rw1: seq<Edit>, last: Edit, x: CharRange, e: CharRange, moved: string)
    requires x.lo < x.hi <= e.lo < e.hi <= |orig| && last.Hi() <= x.lo
    requires forall y :: y in rw ==> y.Hi() < x.lo || e.lo < y.Lo()
    requires rw1 == RecordAll(rw, [Remove(e), Insert(e.lo, moved), Remove(x)])
    ensures Read(orig, Record(rw1, last), x.lo, e.hi) == orig[x.hi..e.lo] + moved
  {
    ReadOutside(orig, rw1, last, x.lo, e.hi);
    ReadMovedBlock(orig, rw, x, e, moved);
  }

  /** With re-indenting on, `reverseStmt` on two blocks records the three edits that move
      the `then` interior into the `else` block's place, then replaces the `then` block. */
  lemma ShiftedSteps(src: Source, c: Checker, s: Stmt, indent: nat, asWritten: bool) returns (c1: Checker)
    requires s.If? && s.elseStmt.Some? && s.elseStmt.value.Compound? && c.needShift
    ensures var e := StmtRange(src, s.elseStmt.value);
      var moved := MoveBlockText(ReadRange(src, c, InteriorRange(src, s.thenStmt)), indent);
      && c1.rw == RecordAll(c.rw, [Remove(e), Insert(e.lo, moved), Remove(ElseRemoval(src, s))])
      && ReverseStmt(src, c, s, indent, asWritten) == Do(c1, Replace(StmtRange(src, s.thenStmt), ReadRange(src, c, e)))
  {
    var el := s.elseStmt.value;
    var ifText := ReadRange(src, c, InteriorRange(src, s.thenStmt));
    c1 := ReplaceElse(src, c, s, ifText, indent, asWritten);
    assert ElseRange(src, s, asWritten) == StmtRange(src, el);
  }

  /** The text `reverseCondition` inspects starts with the `!`, and with `!(` when a `(`
      follows it. */
  lemma {:induction false} HeadOfNegation(src: Source, b: nat)
    requires src.Valid() && b + 2 <= |src.text| && src.text[b] == '!'
    ensures StartsWith(GetSourceText(src, b, b + 2), "!")
    ensures src.text[b + 1] == '(' ==> StartsWith(GetSourceText(src, b, b + 2), "!(")
  {
    var after := b + 2 + src.tokenLength(b + 2);
    assert after <= |src.text| by {
      assert src.tokenLength(b + 2) == 0 || b + 2 + src.tokenLength(b + 2) <= |src.text|;
    }
    var stop := after + src.tokenLength(after);
    assert stop <= |src.text| by {
      assert src.tokenLength(after) == 0 || after + src.tokenLength(after) <= |src.text|;
    }
    var head := GetSourceText(src, b, b + 2);
    assert b + 2 <= after <= stop;
    assert head == src.text[b..stop];
    assert head[0] == '!' && head[1] == src.text[b + 1];
    assert head[..1] == "!";
    assert src.text[b + 1] == '(' ==> head[..2] == "!(";
  }

  /** Removing the range [lo, mid) and then [hi, end) from the text [lo, end). */
  lemma {:induction false} RenderTwoRemovals(orig: string, lo: nat, mid: nat, hi: nat, end: nat)
    requires lo <= mid <= hi <= end <= |orig|
    ensures Render(orig, [Remove(Span(lo, mid)), Remove(Span(hi, end))], lo, end) == orig[mid..hi]
  {
    var es := [Remove(Span(lo, mid)), Remove(Span(hi, end))];
    assert es[1..] == [Remove(Span(hi, end))];
    assert Render(orig, es[1..], mid, end) == orig[mid..hi] + "" + Render(orig, [], end, end);
  }

  lemma {:induction false} RenderOneRemoval(orig: string, lo: nat, mid: nat, end: nat)
    requires lo <= mid <= end <= |orig|
    ensures Render(orig, [Remove(Span(lo, mid))], lo, end) == orig[mid..end]
  {
    assert Render(orig, [Remove(Span(lo, mid))], lo, end) == orig[lo..lo] + "" + Render(orig, [], mid, end);
  }

  lemma {:induction false} StripEdits(src: Source, cond: Expr, thenBegin: nat, asWritten: bool)
    requires StripsParens(src, cond, asWritten)
    requires src.tokenLength(cond.begin + 1) == 1 && src.tokenLength(cond.end) == 1
    ensures ConditionEdits(src, cond, thenBegin, asWritten)
      == [Remove(Span(cond.begin, cond.begin + 2)), Remove(Span(cond.end, cond.end + 1))]
  {
  }

  lemma {:induction false} BangEdits(src: Source, cond: Expr, thenBegin: nat)
    requires !StripsParens(src, cond, false) && StartsWithNegation(src, cond)
    requires src.tokenLength(cond.begin) == 1
    ensures ConditionEdits(src, cond, thenBegin, false) == [Remove(Span(cond.begin, cond.begin + 1))]
  {
  }

  /** Negating a `!` condition leaves exactly the text of its operand, without the operand's
      parentheses when it is parenthesised: `!(a && b)` becomes `a && b`, `!x` becomes `x`. */
  lemma {:induction false} NegationRemoved(src: Source, cond: Expr, thenBegin: nat)
    requires src.Valid() && cond.kind.LNot?
    requires cond.begin < cond.end && 0 < src.tokenLength(cond.end)
    requires cond.end + src.tokenLength(cond.end) <= |src.text|
    requires src.text[cond.begin] == '!' && src.tokenLength(cond.begin) == 1
    requires cond.kind.operand.kind.Paren? ==> src.text[cond.begin + 1] == '(' && src.text[cond.end] == ')'
    ensures var hi := cond.end + src.tokenLength(cond.end);
      Render(src.text, ConditionEdits(src, cond, thenBegin, false), cond.begin, hi)
        == if cond.kind.operand.kind.Paren? then src.text[cond.begin + 2..cond.end] else src.text[cond.begin + 1..hi]
  {
    if cond.kind.operand.kind.Paren? {
      ParenNegationRemoved(src, cond, thenBegin);
    } else {
      BangNegationRemoved(src, cond, thenBegin);
    }
  }

  lemma {:induction false} ParenNegationRemoved(src: Source, cond: Expr, thenBegin: nat)
    requires src.Valid() && cond.kind.LNot? && cond.kind.operand.kind.Paren?
    requires cond.begin < cond.end && 0 < src.tokenLength(cond.end)
    requires cond.end + src.tokenLength(cond.end) <= |src.text|
    requires src.text[cond.begin] == '!' && src.text[cond.begin + 1] == '(' && src.text[cond.end] == ')'
    ensures Render(src.text, ConditionEdits(src, cond, thenBegin, false), cond.begin, cond.end + src.tokenLength(cond.end))
      == src.text[cond.begin + 2..cond.end]
  {
    var b, e := cond.begin, cond.end;
    HeadOfNegation(src, b);
    PunctuatorToken(src, b + 1);
    PunctuatorToken(src, e);
    StripEdits(src, cond, thenBegin, false);
    RenderTwoRemovals(src.text, b, b + 2, e, e + 1);
  }

  /** A parenthesis is a token of one character. */
  lemma PunctuatorToken(src: Source, p: nat)
    requires src.Valid() && p < |src.text| && (src.text[p] == '(' || src.text[p] == ')')
    ensures src.tokenLength(p) == 1
  {
    assert src.text[p] in "(){};";
  }

  lemma {:induction false} BangNegationRemoved(src: Source, cond: Expr, thenBegin: nat)
    requires src.Valid() && cond.kind.LNot? && !cond.kind.operand.kind.Paren?
    requires cond.begin < cond.end && 0 < src.tokenLength(cond.end)
    requires cond.end + src.tokenLength(cond.end) <= |src.text|
    requires src.text[cond.begin] == '!' && src.tokenLength(cond.begin) == 1
    ensures Render(src.text, ConditionEdits(src, cond, thenBegin, false), cond.begin, cond.end + src.tokenLength(cond.end))
      == src.text[cond.begin + 1..cond.end + src.tokenLength(cond.end)]
  {
    HeadOfNegation(src, cond.begin);
    BangEdits(src, cond, thenBegin);
    RenderOneRemoval(src.text, cond.begin, cond.begin + 1, cond.end + src.tokenLength(cond.end));
  }

  /** As written, the check strips `!(` from any `!` condition whose text starts with it. On
      `!(int)x`, where `!` applies to a cast, that leaves the broken `int)` instead of the
      operand `(int)x` that the corrected check leaves. */
  lemma {:induction false} StripCastAsWritten()
    ensures CastSource().Valid()
    ensures Render(CastSource().text, ConditionEdits(CastSource(), CastCondition(), 8, true), 0, 7) == "int)"
    ensures Render(CastSource().text, ConditionEdits(CastSource(), CastCondition(), 8, false), 0, 7) == "(int)x"
  {
    CastSourceValid();
    CastEditsAsWritten();
    CastRendersInterior();
    CastCorrected();
  }

  lemma {:induction false} CastCorrected()
    ensures Render(CastSource().text, ConditionEdits(CastSource(), CastCondition(), 8, false), 0, 7) == "(int)x"
  {
    CastSourceValid();
    CastNegation();
    CastOperandText();
    BangLeaves(CastSource(), CastCondition(), 8, 0, 7, "(int)x");
  }

  /** `BangNegationRemoved` with the extent and the operand's text named. */
  lemma {:induction false} BangLeaves(src: Source, cond: Expr, thenBegin: nat, lo: nat, hi: nat, operand: string)
    requires src.Valid() && cond.kind.LNot? && !cond.kind.operand.kind.Paren?
    requires lo == cond.begin < cond.end && 0 < src.tokenLength(cond.end)
    requires hi == cond.end + src.tokenLength(cond.end) <= |src.text|
    requires src.text[lo] == '!' && src.tokenLength(lo) == 1 && src.text[lo + 1..hi] == operand
    ensures Render(src.text, ConditionEdits(src, cond, thenBegin, false), lo, hi) == operand
  {
    BangNegationRemoved(src, cond, thenBegin);
  }

  lemma CastNegation()
    ensures var src, cond := CastSource(), CastCondition();
      && cond.kind.LNot? && !cond.kind.operand.kind.Paren?
      && cond.begin == 0 && cond.end == 6
      && src.tokenLength(0) == 1 && src.tokenLength(6) == 1
      && |src.text| == 7 && src.text[0] == '!'
  {
  }

  lemma CastOperandText()
    ensures CastSource().text[1..7] == "(int)x"
  {
  }

  lemma {:induction false} CastEditsAsWritten()
    ensures ConditionEdits(CastSource(), CastCondition(), 8, true) == [Remove(Span(0, 2)), Remove(Span(6, 7))]
  {
    CastStripsParens();
    StripEdits(CastSource(), CastCondition(), 8, true);
  }

  lemma {:induction false} CastStripsParens()
    ensures StripsParens(CastSource(), CastCondition(), true)
  {
    var src := CastSource();
    CastSourceValid();
    assert src.text[0] == '!' && src.text[1] == '(';
    HeadOfNegation(src, 0);
    assert StartsWith(GetSourceText(src, 0, 2), "!(");
  }

  lemma {:induction false} CastRendersInterior()
    ensures Render(CastSource().text, [Remove(Span(0, 2)), Remove(Span(6, 7))], 0, 7) == "int)"
  {
    RenderTwoRemovals(CastSource().text, 0, 2, 6, 7);
    assert CastSource().text[2..6] == "int)";
  }

  /** The file `!(int)x` with its tokens `!`, `(`, `int`, `)` and `x`. */
  function CastSource(): Source {
    Source("!(int)x", CastTokens)
  }

  function CastTokens(p: nat): nat {
    if p == 0 || p == 1 || p == 5 || p == 6 then 1 else if p == 2 then 3 else 0
  }

  /** `!` applied to the cast `(int)x`. */
  function CastCondition(): Expr {
    Expr(LNot(Expr(OtherExpr, 1, 6, false)), 0, 6, false)
  }

  lemma {:induction false} CastSourceValid()
    ensures CastSource().Valid()
  {
    var src := CastSource();
    forall p: nat | p < |src.text| && src.text[p] in "(){};"
      ensures src.tokenLength(p) == 1
    {
      assert p == 1 || p == 5;
    }
  }

  /** With a `;` right after the `if`, the corrected `else` range ends just past that `;`,
      while the range as written also takes the token directly after it; the two agree
      exactly when no token follows the `;` directly. The `else` keyword comes before that
      `;`, which ends the `if`. */
  lemma {:induction false} ElseRangeEndsAtSemicolon(src: Source, s: Stmt)
    requires s.If? && s.elseStmt.Some? && !s.elseStmt.value.Compound?
    requires src.FindLocationAfterToken(s.node.end, ";").Some?
    requires s.layout.elseLoc + src.tokenLength(s.layout.elseLoc) <= src.FindLocationAfterToken(s.node.end, ";").value
    ensures var semi := src.FindLocationAfterToken(s.node.end, ";").value;
      && ElseRange(src, s, false).hi == semi && src.text[semi - 1] == ';'
      && ElseRange(src, s, true).hi == semi + src.tokenLength(semi)
      && (ElseRange(src, s, true) == ElseRange(src, s, false) <==> src.tokenLength(semi) == 0)
  {
    var semi := src.FindLocationAfterToken(s.node.end, ";").value;
    assert src.text[semi - 1..semi] == ";";
    assert src.text[semi - 1] == src.text[semi - 1..semi][0];
  }

  /** As written, in `{if(c){a;}else b;}` the `else` range runs through the enclosing
      block's `}`, so the swap carries that `}` into the `then` branch's place. The corrected
      range stops at the `;`. */
  lemma {:induction false} ElseRangeTakesBrace()
    ensures BraceSource().FindLocationAfterToken(15, ";") == Some(17)
    ensures ElseRange(BraceSource(), BraceIf(), true) == Span(14, 18)
    ensures ElseRange(BraceSource(), BraceIf(), false) == Span(14, 17)
    ensures var c := Checker(false, [], [], []);
      var asWritten, corrected := ReverseStmt(BraceSource(), c, BraceIf(), 4, true), ReverseStmt(BraceSource(), c, BraceIf(), 4, false);
      && asWritten.fixList[|asWritten.fixList| - 1] == Replace(Span(6, 10), " b;}")
      && corrected.fixList[|corrected.fixList| - 1] == Replace(Span(6, 10), " b;")
  {
    var src := BraceSource();
    assert src.SkipWhitespace(16) == 16;
    assert src.text[14..18] == " b;}" && src.text[14..17] == " b;";
  }

  function BraceSource(): Source {
    Source("{if(c){a;}else b;}", BraceTokens)
  }

  function BraceTokens(p: nat): nat {
    if p == 1 then 2 else if p == 10 then 4 else if p in {0, 3, 4, 5, 6, 7, 8, 9, 15, 16, 17} then 1 else 0
  }

  /** The `if` of `BraceSource`, whose `else` branch is the statement `b;`. */
  function BraceIf(): Stmt {
    If(Node(0, IfStmt, 1, 15, false), IfLayout(0, false, false, 10), Expr(OtherExpr, 4, 4, false),
       Compound(Node(1, CompoundStmt, 6, 9, false), [Other(Node(3, OtherStmt, 7, 7, false), [])]),
       Some(Other(Node(2, OtherStmt, 15, 15, false), [])))
  }

  /** In `if(c){a;}else{b;}`, with no blank between `else` and `{`, the keyword's removal
      runs through the `{` of the `else` block and so overlaps that block's range. */
  lemma {:induction false} ElseRemovalTakesBrace()
    ensures ElseRemoval(GluedSource(), GluedIf()) == Span(9, 14)
    ensures StmtRange(GluedSource(), GluedIf().elseStmt.value) == Span(13, 17)
    ensures GluedSource().text[9..14] == "else{"
  {
    assert GluedSource().text[9..14] == "else{";
  }

  function GluedSource(): Source {
    Source("if(c){a;}else{b;}", GluedTokens)
  }

  function GluedTokens(p: nat): nat {
    if p == 0 then 2 else if p == 9 then 4 else if p in {2, 3, 4, 5, 6, 7, 8, 13, 14, 15, 16} then 1 else 0
  }

  /** The `if` of `GluedSource`; both branches are blocks. */
  function GluedIf(): Stmt {
    If(Node(0, IfStmt, 0, 16, false), IfLayout(0, false, false, 9), Expr(OtherExpr, 3, 3, false),
       Compound(Node(1, CompoundStmt, 5, 8, false), [Other(Node(3, OtherStmt, 6, 6, false), [])]),
       Some(Compound(Node(2, CompoundStmt, 13, 16, false), [Other(Node(4, OtherStmt, 14, 14, false), [])])))
  }
}
