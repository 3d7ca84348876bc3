/** The if/else check itself (`IfElseReturnChecker`): which `if`s it looks at, which branch
    it puts first, and the warning with its fixes that it issues for each one it rewrites. */
module IfElse {
  import opened Base
  import opened Lexer
  import opened Rewriter
  import opened Ast
  import opened Cfg
  import opened Utils
  import opened Reindent
  import opened Shift
  import opened IfElseEdits

  /** The check's options: `Indent`, `NeedShift` and `ReverseOnNotUO`. */
  datatype Config = Config(indent: nat, needShift: bool, reverseOnNotUO: bool)

  /** The options when the configuration names none of them. */
  const Defaults := Config(4, false, false)

  /** The state before the first function: re-indenting as configured, nothing recorded. */
  function Start(config: Config): Checker {
    Checker(config.needShift, [], [], [])
  }

  /** A location: its file and its offset in that file. */
  datatype Loc = Loc(file: nat, offset: nat)

  /** One `#if` ... `#endif` of a file: the offset of the `#endif` and of its `#if`. */
  datatype Conditional = Conditional(endif: nat, ifLoc: nat)

  /** The conditionals seen so far, per file. */
  type Conditionals = map<nat, seq<Conditional>>

  function Of(pp: Conditionals, file: nat): seq<Conditional> {
    if file in pp then pp[file] else []
  }

  /** `PPCollector::Endif`: an `#endif` whose `#if` is written in the same file is appended
      to that file's list; any other `#endif` is ignored. */
  function RecordEndif(pp: Conditionals, endif: Loc, ifLoc: Loc): (r: Conditionals)
    ensures endif.file != ifLoc.file ==> r == pp
    ensures endif.file == ifLoc.file ==>
      Of(r, endif.file) == Of(pp, endif.file) + [Conditional(endif.offset, ifLoc.offset)]
    ensures forall f :: f != endif.file ==> Of(r, f) == Of(pp, f)
  {
    if endif.file != ifLoc.file then pp
    else pp[endif.file := Of(pp, endif.file) + [Conditional(endif.offset, ifLoc.offset)]]
  }

  predicate StrictlyInside(p: nat, n: Node) {
    n.begin < p < n.end
  }

  /** A conditional cuts into statement `n`: its `#if` or its `#endif` lies strictly inside. */
  predicate Cuts(k: Conditional, n: Node) {
    StrictlyInside(k.endif, n) || StrictlyInside(k.ifLoc, n)
  }

  function AnyCuts(ks: seq<Conditional>, n: Node): (r: bool)
    ensures r <==> exists i :: 0 <= i < |ks| && Cuts(ks[i], n)
    decreases |ks|
  {
    if ks == [] then false
    else if Cuts(ks[0], n) then true
    else
      var r := AnyCuts(ks[1..], n);
      assert r ==> exists i :: 0 <= i < |ks| && Cuts(ks[i], n) by {
        if r {
          var j :| 0 <= j < |ks[1..]| && Cuts(ks[1..][j], n);
          assert Cuts(ks[j + 1], n);
        }
      }
      assert (exists i :: 0 <= i < |ks| && Cuts(ks[i], n)) ==> r by {
        if exists i :: 0 <= i < |ks| && Cuts(ks[i], n) {
          var i :| 0 <= i < |ks| && Cuts(ks[i], n);
          assert i > 0 && ks[i] == ks[1..][i - 1];
        }
      }
      r
  }

  /** `isPreproccessorInIf`: the `if` starts in a macro expansion, or a conditional recorded
      for its file begins or ends strictly inside it. */
  function PreprocessorInIf(pp: Conditionals, s: Stmt): (r: bool)
    requires s.If?
    ensures r <==> s.node.fromMacro || exists k :: k in Of(pp, s.layout.file) && Cuts(k, s.node)
  {
    var ks := Of(pp, s.layout.file);
    var r := s.node.fromMacro || AnyCuts(ks, s.node);
    assert (exists k :: k in ks && Cuts(k, s.node)) <==> exists i :: 0 <= i < |ks| && Cuts(ks[i], s.node) by {
      if exists k :: k in ks && Cuts(k, s.node) {
        var k :| k in ks && Cuts(k, s.node);
        var i :| 0 <= i < |ks| && ks[i] == k;
      }
    }
    r
  }

  /** `runInternal` leaves the `if` alone: it starts in a macro expansion or a system header,
      or a preprocessor conditional cuts into it. */
  predicate Skipped(pp: Conditionals, s: Stmt)
    requires s.If?
  {
    s.layout.inMacroOrSystem || s.node.fromMacro || PreprocessorInIf(pp, s)
  }

  /** `getNodeWeight`: the line of the statement's end less the line of its start. */
  function Weight(src: Source, n: Node): int {
    src.LineOf(n.end) - src.LineOf(n.begin)
  }

  /** A `!` that does not start in a macro expansion (`isExpectedUnaryLNot`). */
  predicate PlainNegation(e: Expr) {
    !e.fromMacro && e.kind.LNot?
  }

  /** The condition reads as a negation: a `!`, or an `&&`/`||` of boolean or integer type,
      not from a macro, both of whose sides are plain negations. */
  predicate NegatedCondition(cond: Expr) {
    || cond.kind.LNot?
    || (&& cond.kind.Logical? && !cond.fromMacro && cond.kind.boolOrIntType
        && PlainNegation(cond.kind.lhs) && PlainNegation(cond.kind.rhs))
  }

  /** Whether the `then` branch stays first. With `ReverseOnNotUO` the branches are swapped
      exactly when the condition is a negation; otherwise exactly when the `then` branch
      spans more lines than the `else` branch. */
  function IsThenFirst(src: Source, reverseOnNotUO: bool, s: Stmt): (r: bool)
    requires s.If? && s.elseStmt.Some?
    ensures reverseOnNotUO ==> (r <==> !NegatedCondition(s.cond))
    ensures !reverseOnNotUO ==> (r <==> Weight(src, s.thenStmt.node) <= Weight(src, s.elseStmt.value.node))
  {
    if reverseOnNotUO then
      match s.cond.kind
      case LNot(_) => false
      case Logical(boolOrInt, lhs, rhs) =>
        !(!s.cond.fromMacro && boolOrInt && PlainNegation(lhs) && PlainNegation(rhs))
      case _ => true
    else Weight(src, s.thenStmt.node) <= Weight(src, s.elseStmt.value.node)
  }

  /** What the check runs on: one file, the options, the CFG of the function being checked
      with the block of each statement (`CFGStmtMap`, by statement id), and the
      preprocessor conditionals seen. `asWritten` chooses how a `!(` condition is negated:
      as the check is written, or corrected (see `IfElseEdits.StripsParens`). */
  datatype Env = Env(src: Source, config: Config, g: Graph, stmtBlock: map<nat, nat>, pp: Conditionals,
                     asWritten: bool)

  /** The branch that must end in an interrupting statement before the other can be unwrapped. */
  function Target(env: Env, s: Stmt): Stmt
    requires s.If? && s.elseStmt.Some?
  {
    if IsThenFirst(env.src, env.config.reverseOnNotUO, s) then s.thenStmt else s.elseStmt.value
  }

  /** With re-indenting on, try to make the target branch interrupt; the first failure
      switches re-indenting off for good. */
  function ShiftTarget(env: Env, c: Checker, s: Stmt): (r: Checker)
    requires env.g.exit in env.g.blocks
    requires s.If? && s.elseStmt.Some?
    ensures r.needShift ==> c.needShift
    ensures r.diags == c.diags && Queued(c, r)
    ensures r.needShift <==> c.needShift && AddBlockToStmt(env.src, env.g, env.stmtBlock, c, Target(env, s)).0
  {
    if !c.needShift then c
    else
      var (ok, c1) := AddBlockToStmt(env.src, env.g, env.stmtBlock, c, Target(env, s));
      if ok then c1 else c1.(needShift := false)
  }

  /** The inside of a block, just after its `{` through just before its `}`, as the
      rewriter currently has it. */
  function BlockInterior(src: Source, c: Checker, st: Stmt): string {
    ReadRange(src, c, src.TokenRange(st.node.begin + src.tokenLength(st.node.begin), Before(st.node.end)))
  }

  /** The branches stay in order and re-indenting is on: an `else` block is replaced by its
      re-indented interior, and the `else` keyword goes. */
  function Unwrap(src: Source, c: Checker, s: Stmt, indent: nat): (r: Checker)
    requires s.If? && s.elseStmt.Some?
    ensures r.needShift == c.needShift && r.diags == c.diags
    ensures |r.fixList| > |c.fixList| && r.fixList[..|c.fixList|] == c.fixList
    ensures r.fixList[|r.fixList| - 1] == Remove(ElseRemoval(src, s))
    ensures s.elseStmt.value.Compound? ==> r.fixList[|c.fixList|] == Remove(StmtRange(src, s.elseStmt.value))
    ensures s.elseStmt.value.Compound? ==>
      var es := MoveElseEdits(src, s, s.elseStmt.value, BlockInterior(src, c, s.elseStmt.value), indent);
      r.fixList == c.fixList + es && r.rw == RecordAll(c.rw, es)
    ensures !s.elseStmt.value.Compound? ==>
      r.fixList == c.fixList + [Remove(ElseRemoval(src, s))] && r.rw == Record(c.rw, Remove(ElseRemoval(src, s)))
  {
    var el := s.elseStmt.value;
    var c1 := UnwrapBlock(src, c, el, indent);
    var r := RemoveElse(src, c1, s);
    QueuedFront(c.fixList, c1.fixList, r.fixList);
    if el.Compound? then
      QueuedAt(c1.fixList, r.fixList, |c.fixList|);
      MovedElse(src, c, s, el, BlockInterior(src, c, el), indent);
      r
    else r
  }

  /** An entry of a queue that a later queue starts with is in the later queue too. */
  lemma QueuedAt(a: seq<Edit>, b: seq<Edit>, k: nat)
    requires k < |a| <= |b| && b[..|a|] == a
    ensures b[k] == a[k]
  {
    assert b[k] == b[..|a|][k];
  }

  /** An `else` block gives way to its interior, re-indented; any other `else` branch stays. */
  function UnwrapBlock(src: Source, c: Checker, el: Stmt, indent: nat): (r: Checker)
    ensures r.needShift == c.needShift && r.diags == c.diags
    ensures Queued(c, r)
    ensures el.Compound? ==> |r.fixList| > |c.fixList| && r.fixList[|c.fixList|] == Remove(StmtRange(src, el))
    ensures el.Compound? ==> var moved := Insert(el.node.begin, MoveBlockText(BlockInterior(src, c, el), indent));
      && r.fixList == c.fixList + [Remove(StmtRange(src, el)), moved]
      && r.rw == Record(Record(c.rw, Remove(StmtRange(src, el))), moved)
    ensures !el.Compound? ==> r == c
  {
    if el.Compound? then
      var text := BlockInterior(src, c, el);
      var r := MoveBlock(src, c, el, text, indent);
      assert r.fixList[..|c.fixList|] == c.fixList;
      r
    else c
  }

  /** The warning at the `if` carries every fix queued so far, and the queue is empty again. */
  predicate Warned(c: Checker, r: Checker, s: Stmt) {
    && |r.diags| == |c.diags| + 1
    && r.diags[..|c.diags|] == c.diags
    && r.diags[|c.diags|].at == s.node.begin
    && |r.diags[|c.diags|].fixes| > |c.fixList|
    && r.diags[|c.diags|].fixes[..|c.fixList|] == c.fixList
    && r.fixList == []
  }

  /** Fixes queued before `c` are still at the front of a later queue. */
  predicate Queued(c: Checker, r: Checker) {
    |c.fixList| <= |r.fixList| && r.fixList[..|c.fixList|] == c.fixList
  }

  lemma WarnedAfterQueued(c: Checker, c1: Checker, r: Checker, s: Stmt)
    requires Queued(c, c1) && c1.diags == c.diags && Warned(c1, r, s)
    ensures Warned(c, r, s)
  {
    assert r.diags[|c.diags|].fixes[..|c.fixList|] == c1.fixList[..|c.fixList|];
  }

  /** Swap the branches: negate the condition, swap the texts, warn. An `if` whose condition
      cannot be negated gets no warning and no edits. */
  function Reverse(env: Env, c: Checker, s: Stmt): (r: Checker)
    requires s.If? && s.elseStmt.Some?
    ensures r.needShift == c.needShift
    ensures s.layout.hasInit || !s.thenStmt.Compound? ==> r == c
    ensures !(s.layout.hasInit || !s.thenStmt.Compound?) ==> Warned(c, r, s)
  {
    match ReverseCondition(env.src, c, s, env.asWritten)
    case None => c
    case Some(c2) =>
      var c3 := ReverseStmt(env.src, c2, s, env.config.indent, env.asWritten);
      assert c2.fixList[..|c.fixList|] == c.fixList;
      QueuedFront(c.fixList, c2.fixList, c3.fixList);
      Flush(c3, s.node.begin)
  }

  /** Keep the branches in order: unwrap the `else` branch and warn, when re-indenting is
      still on. */
  function Keep(env: Env, c: Checker, s: Stmt): (r: Checker)
    requires s.If? && s.elseStmt.Some?
    ensures r.needShift == c.needShift
    ensures !c.needShift ==> r == c
    ensures c.needShift ==> Warned(c, r, s)
  {
    if !c.needShift then c
    else
      var c3 := Unwrap(env.src, c, s, env.config.indent);
      Flush(c3, s.node.begin)
  }

  /** `runInternal` on an `if` with an `else` that is not an `if`.

      A skipped `if` leaves everything as it was. Otherwise the check warns exactly when it
      swaps the branches (the `then` branch is not to stay first and the `if` has no init
      statement and a block as its `then` branch) or, keeping them in order, when
      re-indenting is still on after the target branch was made to interrupt. A warning
      carries every fix queued before it; when no warning is issued, the fixes queued so
      far stay queued for the next one. */
  function RunInternal(env: Env, c: Checker, s: Stmt): (r: Checker)
    requires env.g.exit in env.g.blocks
    requires s.If? && s.elseStmt.Some?
    ensures Skipped(env.pp, s) ==> r == c
    ensures r.needShift ==> c.needShift
    ensures r.diags == c.diags || Warned(c, r, s)
    ensures r.diags != c.diags <==>
      && !Skipped(env.pp, s)
      && if IsThenFirst(env.src, env.config.reverseOnNotUO, s)
         then ShiftTarget(env, c, s).needShift
         else !s.layout.hasInit && s.thenStmt.Compound?
    ensures r.diags == c.diags ==> Queued(c, r)
  {
    if Skipped(env.pp, s) then c
    else
      var c1 := ShiftTarget(env, c, s);
      var r := if IsThenFirst(env.src, env.config.reverseOnNotUO, s) then Keep(env, c1, s) else Reverse(env, c1, s);
      assert r.diags != c.diags ==> Warned(c, r, s) by {
        if r.diags != c.diags {
          WarnedAfterQueued(c, c1, r, s);
        }
      }
      r
  }

  /** Unwrapping an `else` block: reading back the span from the `else` keyword's removal
      through the block's `}` gives what lay between the keyword and the `{`, then the
      block's former interior re-indented, when nothing recorded before reaches into that
      span up to the `{`. */
  lemma {:induction false} UnwrapReadsBack(src: Source, c: Checker, s: Stmt, indent: nat)
    requires s.If? && s.elseStmt.Some? && s.elseStmt.value.Compound?
    requires var x, e := ElseRemoval(src, s), StmtRange(src, s.elseStmt.value);
      x.lo < x.hi <= e.lo < e.hi <= |src.text|
    requires forall y :: y in c.rw ==> y.Hi() < ElseRemoval(src, s).lo || s.elseStmt.value.node.begin < y.Lo()
    ensures var x, e := ElseRemoval(src, s), StmtRange(src, s.elseStmt.value);
      ReadRange(src, Unwrap(src, c, s, indent), RangeOf(x.lo, e.hi))
        == src.text[x.hi..e.lo] + MoveBlockText(BlockInterior(src, c, s.elseStmt.value), indent)
  {
    var el := s.elseStmt.value;
    var x, e := ElseRemoval(src, s), StmtRange(src, el);
    var moved := MoveBlockText(BlockInterior(src, c, el), indent);
    assert MoveElseEdits(src, s, el, BlockInterior(src, c, el), indent) == [Remove(e), Insert(e.lo, moved), Remove(x)];
    ReadMovedBlock(src.text, c.rw, x, e, moved);
  }

  /** Keeping the branches in order with re-indenting on: the same read-back after the
      warning. */
  lemma {:induction false} KeepReadsBack(env: Env, c: Checker, s: Stmt)
    requires s.If? && s.elseStmt.Some? && s.elseStmt.value.Compound? && c.needShift
    requires var x, e := ElseRemoval(env.src, s), StmtRange(env.src, s.elseStmt.value);
      x.lo < x.hi <= e.lo < e.hi <= |env.src.text|
    requires forall y :: y in c.rw ==> y.Hi() < ElseRemoval(env.src, s).lo || s.elseStmt.value.node.begin < y.Lo()
    ensures var x, e := ElseRemoval(env.src, s), StmtRange(env.src, s.elseStmt.value);
      ReadRange(env.src, Keep(env, c, s), RangeOf(x.lo, e.hi))
        == env.src.text[x.hi..e.lo] + MoveBlockText(BlockInterior(env.src, c, s.elseStmt.value), env.config.indent)
  {
    UnwrapReadsBack(env.src, c, s, env.config.indent);
  }

  /** Negating the condition of an `if` whose `then` branch is heavier. */
  function Negated(env: Env, c: Checker, s: Stmt): Checker
    requires s.If?
  {
    DoAll(c, ConditionEdits(env.src, s.cond, s.thenStmt.node.begin, env.asWritten))
  }

  /** With re-indenting off, a warning means the branches were swapped, and the `else`
      branch was the lighter one (or the condition was a negation, with `ReverseOnNotUO`).
      Its fixes are the queued ones, the condition's negation, the `then` text in place of
      the `else` branch and the `else` text in place of the `then` branch; read back, the
      two ranges hold each other's former text. */
  lemma {:induction false} RunInternalSwaps(env: Env, c: Checker, s: Stmt)
    requires env.g.exit in env.g.blocks
    requires s.If? && s.elseStmt.Some? && !c.needShift
    requires var t, e := StmtRange(env.src, s.thenStmt), ElseRange(env.src, s, env.asWritten);
      t.lo < t.hi <= e.lo < e.hi <= |env.src.text|
    ensures |RunInternal(env, c, s).diags| > |c.diags| && !env.config.reverseOnNotUO ==>
      Weight(env.src, s.elseStmt.value.node) < Weight(env.src, s.thenStmt.node)
    ensures |RunInternal(env, c, s).diags| > |c.diags| && env.config.reverseOnNotUO ==> NegatedCondition(s.cond)
    ensures var t, e := StmtRange(env.src, s.thenStmt), ElseRange(env.src, s, env.asWritten);
      var n := Negated(env, c, s);
      var r := RunInternal(env, c, s);
      |r.diags| > |c.diags| ==>
        && r.diags[|c.diags|].fixes == n.fixList
             + [Replace(e, ReadRange(env.src, n, t)), Replace(t, ReadRange(env.src, n, e))]
        && r.rw == RecordAll(n.rw, [Replace(e, ReadRange(env.src, n, t)), Replace(t, ReadRange(env.src, n, e))])
        && ReadRange(env.src, r, t) == ReadRange(env.src, n, e)
        && ReadRange(env.src, r, e) == ReadRange(env.src, n, t)
  {
    if |RunInternal(env, c, s).diags| > |c.diags| {
      var n := Negated(env, c, s);
      WarnedReversed(env, c, s);
      SwapEdits(env.src, n, s, env.config.indent, env.asWritten);
      ReverseStmtSwaps(env.src, n, s, env.config.indent, env.asWritten);
    }
  }

  /** Without re-indenting, a warned `if` is one whose condition was negated and whose
      branches were swapped, and it was warned because the `then` branch was not to stay first. */
  lemma {:induction false} WarnedReversed(env: Env, c: Checker, s: Stmt)
    requires env.g.exit in env.g.blocks
    requires s.If? && s.elseStmt.Some? && !c.needShift
    ensures |RunInternal(env, c, s).diags| > |c.diags| ==> !IsThenFirst(env.src, env.config.reverseOnNotUO, s)
    ensures |RunInternal(env, c, s).diags| > |c.diags| ==>
      RunInternal(env, c, s) == Flush(ReverseStmt(env.src, Negated(env, c, s), s, env.config.indent, env.asWritten), s.node.begin)
  {
    assert ShiftTarget(env, c, s) == c;
  }

  /** Without re-indenting, `reverseStmt` makes exactly two edits: the `then` text over the
      `else` range, then the `else` text over the `then` range. */
  lemma {:induction false} SwapEdits(src: Source, n: Checker, s: Stmt, indent: nat, asWritten: bool)
    requires s.If? && s.elseStmt.Some? && !n.needShift
    ensures var t, e := StmtRange(src, s.thenStmt), ElseRange(src, s, asWritten);
      var edits := [Replace(e, ReadRange(src, n, t)), Replace(t, ReadRange(src, n, e))];
      var m := ReverseStmt(src, n, s, indent, asWritten);
      m.fixList == n.fixList + edits && m.rw == RecordAll(n.rw, edits)
  {
    var t, e := StmtRange(src, s.thenStmt), ElseRange(src, s, asWritten);
    var t1, e1 := ReadRange(src, n, t), ReadRange(src, n, e);
    var n1 := Do(n, Replace(e, t1));
    var m := ReverseStmt(src, n, s, indent, asWritten);
    assert m == Do(n1, Replace(t, e1));
    var edits := [Replace(e, t1), Replace(t, e1)];
    assert edits[1..] == [Replace(t, e1)];
    assert RecordAll(n1.rw, [Replace(t, e1)]) == RecordAll(Record(n1.rw, Replace(t, e1)), []);
  }

  /** The statements the visitor hands to `runInternal`: `if`s with an `else` that is not
      itself an `if`. */
  predicate Eligible(s: Stmt) {
    s.If? && s.elseStmt.Some? && !s.elseStmt.value.If?
  }

  /** The eligible `if`s of a statement in the order the visitor reaches them: the `then`
      branch, then the `else` branch, then the `if` itself; the children of any other
      statement in order. Conditions are not entered. */
  function VisitOrder(s: Stmt): (ifs: seq<Stmt>)
    ensures forall i :: 0 <= i < |ifs| ==> Eligible(ifs[i])
    ensures Eligible(s) ==> |ifs| > 0 && ifs[|ifs| - 1] == s
    decreases s, 1
  {
    match s
    case Compound(_, body) => VisitOrderAll(body)
    case Other(_, children) => VisitOrderAll(children)
    case If(_, _, _, thenStmt, elseStmt) =>
      var inner := VisitOrder(thenStmt) + (if elseStmt.Some? then VisitOrder(elseStmt.value) else []);
      if Eligible(s) then inner + [s] else inner
  }

  function VisitOrderAll(ss: seq<Stmt>): (ifs: seq<Stmt>)
    ensures forall i :: 0 <= i < |ifs| ==> Eligible(ifs[i])
    decreases ss, 0
  {
    if ss == [] then [] else VisitOrder(ss[0]) + VisitOrderAll(ss[1..])
  }

  /** `runInternal` on each statement in turn. */
  function RunAll(env: Env, ifs: seq<Stmt>, c: Checker): (r: Checker)
    requires env.g.exit in env.g.blocks
    requires forall i :: 0 <= i < |ifs| ==> Eligible(ifs[i])
    ensures r.needShift ==> c.needShift
    ensures |c.diags| <= |r.diags| <= |c.diags| + |ifs| && r.diags[..|c.diags|] == c.diags
    decreases |ifs|
  {
    if ifs == [] then c
    else
      assert Eligible(ifs[0]);
      var c1 := RunInternal(env, c, ifs[0]);
      var r := RunAll(env, ifs[1..], c1);
      assert r.diags[..|c.diags|] == c1.diags[..|c.diags|];
      r
  }

  /** `TraverseIfStmt` and the default traversal of every other statement: the visitor
      walks the whole function body and calls `runInternal` on each eligible `if` after both
      of its branches. */
  function Traverse(env: Env, s: Stmt, c: Checker): (r: Checker)
    requires env.g.exit in env.g.blocks
    ensures r.needShift ==> c.needShift
    ensures |c.diags| <= |r.diags| && r.diags[..|c.diags|] == c.diags
    decreases s, 1
  {
    match s
    case Compound(_, body) => TraverseAll(env, body, c)
    case Other(_, children) => TraverseAll(env, children, c)
    case If(_, _, _, thenStmt, elseStmt) =>
      var c1 := Traverse(env, thenStmt, c);
      var c2 := if elseStmt.Some? then Traverse(env, elseStmt.value, c1) else c1;
      assert c2.diags[..|c.diags|] == c.diags by {
        assert c2.diags[..|c1.diags|] == c1.diags;
      }
      if Eligible(s) then
        var r := RunInternal(env, c2, s);
        assert r.diags[..|c.diags|] == c2.diags[..|c.diags|];
        r
      else c2
  }

  function TraverseAll(env: Env, ss: seq<Stmt>, c: Checker): (r: Checker)
    requires env.g.exit in env.g.blocks
    ensures r.needShift ==> c.needShift
    ensures |c.diags| <= |r.diags| && r.diags[..|c.diags|] == c.diags
    decreases ss, 0
  {
    if ss == [] then c
    else
      var c1 := Traverse(env, ss[0], c);
      var r := TraverseAll(env, ss[1..], c1);
      assert r.diags[..|c.diags|] == c1.diags[..|c.diags|];
      r
  }

  lemma {:induction false} RunAllAppend(env: Env, a: seq<Stmt>, b: seq<Stmt>, c: Checker)
    requires env.g.exit in env.g.blocks
    requires forall i :: 0 <= i < |a| ==> Eligible(a[i])
    requires forall i :: 0 <= i < |b| ==> Eligible(b[i])
    ensures forall i :: 0 <= i < |a + b| ==> Eligible((a + b)[i])
    ensures RunAll(env, a + b, c) == RunAll(env, b, RunAll(env, a, c))
    decreases |a|
  {
    assert forall i :: 0 <= i < |a + b| ==> Eligible((a + b)[i]) by {
      forall i | 0 <= i < |a + b| ensures Eligible((a + b)[i]) {
        if i >= |a| {
          assert (a + b)[i] == b[i - |a|];
        }
      }
    }
    if a == [] {
      assert a + b == b;
    } else {
      assert (a + b)[1..] == a[1..] + b && (a + b)[0] == a[0];
      assert forall i :: 0 <= i < |a[1..]| ==> Eligible(a[1..][i]);
      assert Eligible(a[0]);
      var c1 := RunInternal(env, c, a[0]);
      RunAllAppend(env, a[1..], b, c1);
      assert RunAll(env, a + b, c) == RunAll(env, a[1..] + b, c1);
      assert RunAll(env, a, c) == RunAll(env, a[1..], c1);
    }
  }

  /** The traversal is `runInternal` on the eligible `if`s in visiting order. */
  lemma {:induction false} TraverseIsRunAll(env: Env, s: Stmt, c: Checker)
    requires env.g.exit in env.g.blocks
    ensures Traverse(env, s, c) == RunAll(env, VisitOrder(s), c)
    decreases s, 1
  {
    match s
    case Compound(_, body) => TraverseAllIsRunAll(env, body, c);
    case Other(_, children) => TraverseAllIsRunAll(env, children, c);
    case If(_, _, _, thenStmt, elseStmt) =>
      TraverseIsRunAll(env, thenStmt, c);
      var c1 := Traverse(env, thenStmt, c);
      var tail := if elseStmt.Some? then VisitOrder(elseStmt.value) else [];
      if elseStmt.Some? {
        TraverseIsRunAll(env, elseStmt.value, c1);
      }
      var c2 := if elseStmt.Some? then Traverse(env, elseStmt.value, c1) else c1;
      assert c2 == RunAll(env, tail, c1);
      RunAllAppend(env, VisitOrder(thenStmt), tail, c);
      var inner := VisitOrder(thenStmt) + tail;
      assert RunAll(env, inner, c) == c2;
      if Eligible(s) {
        RunAllAppend(env, inner, [s], c);
        assert RunAll(env, [s], c2) == RunInternal(env, c2, s) by {
          assert [s][1..] == [];
        }
      }
  }

  lemma {:induction false} TraverseAllIsRunAll(env: Env, ss: seq<Stmt>, c: Checker)
    requires env.g.exit in env.g.blocks
    ensures TraverseAll(env, ss, c) == RunAll(env, VisitOrderAll(ss), c)
    decreases ss, 0
  {
    if ss != [] {
      TraverseIsRunAll(env, ss[0], c);
      TraverseAllIsRunAll(env, ss[1..], Traverse(env, ss[0], c));
      RunAllAppend(env, VisitOrder(ss[0]), VisitOrderAll(ss[1..]), c);
    }
  }

  /** The check of one function: the visitor over its body, continuing from the state the
      previous functions left. Every warning belongs to an eligible `if`, at most one each. */
  lemma {:induction false} WarningsPerIf(env: Env, body: Stmt, c: Checker)
    requires env.g.exit in env.g.blocks
    ensures |Traverse(env, body, c).diags| <= |c.diags| + |VisitOrder(body)|
  {
    TraverseIsRunAll(env, body, c);
  }
}
