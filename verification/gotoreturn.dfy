/** The goto check (`GoToReturnChecker`): a `goto` to a label whose block does nothing but
    return, straight to the function's exit, is replaced by that return statement.

    The check remembers, per label, whether its block qualified: a label is marked as
    refused when a `goto` to it is first looked at, and as accepted once a fix is issued
    for it. A refused label is never looked at again. */
module GoToReturn {
  import opened Base
  import opened Lexer
  import opened Rewriter
  import opened Ast
  import opened Cfg
  import opened Utils

  /** A `goto` statement, the id of its label, and the label's statement (`None` for a label
      that is declared but never placed). */
  datatype Goto = Goto(node: Node, labelId: nat, labelStmt: Option<Node>)

  /** The check's memory across `goto`s and functions: the verdict per label id, and the
      warnings issued. */
  datatype State = State(labels: map<nat, bool>, diags: seq<Diag>)

  /** The block holding a statement, by `CFGStmtMap`. */
  function BlockOfStmt(g: Graph, stmtBlock: map<nat, nat>, n: Node): (b: Option<Block>)
    ensures b.Some? <==> n.id in stmtBlock && stmtBlock[n.id] in g.blocks
    ensures b.Some? ==> b.value == g.blocks[stmtBlock[n.id]]
  {
    if n.id in stmtBlock then g.BlockOf(Some(stmtBlock[n.id])) else None
  }

  /** The label's block is what a return looks like in the CFG: a block holding nothing but
      a return statement, whose one successor is the exit block. */
  predicate ReturnsToExit(g: Graph, b: Block) {
    IsOnlyReturnBlock(b) && |b.succs| == 1 && b.succs[0] == Some(g.exit)
  }

  /** The return statement a `goto` can be replaced by: the `goto` has a block, its label has
      a statement, that statement's block returns straight to the exit. */
  function ReturnFor(g: Graph, stmtBlock: map<nat, nat>, gt: Goto): (r: Option<Node>)
    ensures r.Some? <==>
      && BlockOfStmt(g, stmtBlock, gt.node).Some?
      && gt.labelStmt.Some?
      && BlockOfStmt(g, stmtBlock, gt.labelStmt.value).Some?
      && ReturnsToExit(g, BlockOfStmt(g, stmtBlock, gt.labelStmt.value).value)
    ensures r.Some? ==> r.value.cls == ReturnStmt
    ensures r.Some? ==> r.value == GetInterruptStatement(BlockOfStmt(g, stmtBlock, gt.labelStmt.value).value).value
  {
    if BlockOfStmt(g, stmtBlock, gt.node).None? || gt.labelStmt.None? then None
    else
      match BlockOfStmt(g, stmtBlock, gt.labelStmt.value)
      case None => None
      case Some(b) =>
        if !ReturnsToExit(g, b) then None
        else
          OnlyReturnInterrupts(b);
          GetInterruptStatement(b)
  }

  /** The fix: the `goto` statement's tokens give way to the return statement's tokens (the
      `;` after the `goto` stays). */
  function GotoFix(src: Source, gt: Goto, ret: Node): Edit {
    Replace(src.TokenRange(gt.node.begin, gt.node.end), src.SourceText(ret.begin, ret.end))
  }

  /** The label was refused before. */
  predicate Refused(st: State, labelId: nat) {
    labelId in st.labels && !st.labels[labelId]
  }

  /** `runInternal` on one `goto`. A refused label answers false at once and changes nothing.
      Otherwise the label is marked, the `goto` gets a warning with its fix exactly when it
      can be replaced by a return, and the label is then accepted; if it cannot, the label
      keeps the mark it had, refused when it had none. No other label changes. */
  function RunInternal(src: Source, g: Graph, stmtBlock: map<nat, nat>, st: State, gt: Goto): (r: (bool, State))
    ensures Refused(st, gt.labelId) ==> r == (false, st)
    ensures r.0 <==> !Refused(st, gt.labelId) && ReturnFor(g, stmtBlock, gt).Some?
    ensures r.0 ==> r.1.labels == st.labels[gt.labelId := true]
    ensures r.0 ==> r.1.diags == st.diags + [Diag(gt.node.begin, [GotoFix(src, gt, ReturnFor(g, stmtBlock, gt).value)])]
    ensures !r.0 ==> r.1.diags == st.diags
    ensures !r.0 ==> r.1.labels == st.labels[gt.labelId := gt.labelId in st.labels && st.labels[gt.labelId]]
  {
    if Refused(st, gt.labelId) then (false, st)
    else
      var marked := if gt.labelId in st.labels then st else st.(labels := st.labels[gt.labelId := false]);
      assert marked.labels == st.labels[gt.labelId := gt.labelId in st.labels && st.labels[gt.labelId]];
      match ReturnFor(g, stmtBlock, gt)
      case None => (false, marked)
      case Some(ret) =>
        (true, State(marked.labels[gt.labelId := true], st.diags + [Diag(gt.node.begin, [GotoFix(src, gt, ret)])]))
  }

  /** The visitor calls `runInternal` on each `goto` of a function in turn. */
  function RunAll(src: Source, g: Graph, stmtBlock: map<nat, nat>, st: State, gotos: seq<Goto>): (r: State)
    ensures |st.diags| <= |r.diags| && r.diags[..|st.diags|] == st.diags
    ensures st.labels.Keys <= r.labels.Keys
    decreases |gotos|
  {
    if gotos == [] then st
    else
      var st1 := RunInternal(src, g, stmtBlock, st, gotos[0]).1;
      var r := RunAll(src, g, stmtBlock, st1, gotos[1..]);
      assert r.diags[..|st.diags|] == st1.diags[..|st.diags|];
      r
  }

  /** Once refused, a label stays refused through any later `goto`s, and none of them gets
      a warning. */
  lemma {:induction false} RefusedStaysRefused(src: Source, g: Graph, stmtBlock: map<nat, nat>,
                                               st: State, gotos: seq<Goto>, labelId: nat)
    requires Refused(st, labelId)
    ensures Refused(RunAll(src, g, stmtBlock, st, gotos), labelId)
    ensures forall i :: |st.diags| <= i < |RunAll(src, g, stmtBlock, st, gotos).diags| ==>
      exists j :: 0 <= j < |gotos| && gotos[j].labelId != labelId && gotos[j].node.begin == RunAll(src, g, stmtBlock, st, gotos).diags[i].at
    decreases |gotos|
  {
    if gotos != [] {
      var st1 := RunInternal(src, g, stmtBlock, st, gotos[0]).1;
      var r := RunAll(src, g, stmtBlock, st, gotos);
      assert r == RunAll(src, g, stmtBlock, st1, gotos[1..]);
      assert Refused(st1, labelId);
      RefusedStaysRefused(src, g, stmtBlock, st1, gotos[1..], labelId);
      forall i | |st.diags| <= i < |r.diags|
        ensures exists j :: 0 <= j < |gotos| && gotos[j].labelId != labelId && gotos[j].node.begin == r.diags[i].at
      {
        if i < |st1.diags| {
          assert |st1.diags| == |st.diags| + 1 && gotos[0].labelId != labelId;
          assert r.diags[i] == st1.diags[i];
        } else {
          var j :| 0 <= j < |gotos[1..]| && gotos[1..][j].labelId != labelId && gotos[1..][j].node.begin == r.diags[i].at;
          assert gotos[j + 1] == gotos[1..][j];
        }
      }
    }
  }

  /** Once accepted, a label stays accepted: a later `goto` to it that cannot be replaced
      does not take it back. */
  lemma {:induction false} AcceptedStaysAccepted(src: Source, g: Graph, stmtBlock: map<nat, nat>,
                                                 st: State, gotos: seq<Goto>, labelId: nat)
    requires labelId in st.labels && st.labels[labelId]
    ensures var r := RunAll(src, g, stmtBlock, st, gotos); labelId in r.labels && r.labels[labelId]
    decreases |gotos|
  {
    if gotos != [] {
      var st1 := RunInternal(src, g, stmtBlock, st, gotos[0]).1;
      AcceptedStaysAccepted(src, g, stmtBlock, st1, gotos[1..], labelId);
    }
  }
}
