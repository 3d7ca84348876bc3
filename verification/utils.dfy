/** Block classification shared by the checks (`Utils` in AutoRefactoringModuleUtils.cpp). */
module Utils {
  import opened Base
  import opened Ast
  import opened Cfg
  import opened Lexer

  /** `isBlockInCurrentStmt`: every element of the block is a statement lying within
      `current`; the first element that is not a statement, or sticks out, answers false. */
  function IsBlockInCurrentStmt(elements: seq<Element>, current: Node): (r: bool)
    ensures r <==> forall i :: 0 <= i < |elements| ==>
      elements[i].StmtElement? && Within(elements[i].stmt, current)
    decreases |elements|
  {
    if elements == [] then true
    else if !elements[0].StmtElement? then false
    else if current.begin > elements[0].stmt.begin || current.end < elements[0].stmt.end then false
    else
      var rest := IsBlockInCurrentStmt(elements[1..], current);
      assert rest <==> forall i :: 1 <= i < |elements| ==>
        elements[i].StmtElement? && Within(elements[i].stmt, current) by {
        assert forall i :: 1 <= i < |elements| ==> elements[i] == elements[1..][i - 1];
      }
      rest
  }

  /** `isOnlyReturnBlock`: a non-empty block that ends in a return and holds nothing outside
      that return statement. */
  function IsOnlyReturnBlock(b: Block): (r: bool)
    ensures r <==>
      && |b.elements| > 0
      && b.elements[|b.elements| - 1].StmtElement?
      && b.elements[|b.elements| - 1].stmt.cls == ReturnStmt
      && forall i :: 0 <= i < |b.elements| ==>
           b.elements[i].StmtElement? && Within(b.elements[i].stmt, b.elements[|b.elements| - 1].stmt)
  {
    if |b.elements| == 0 then false
    else
      var last := b.elements[|b.elements| - 1];
      if last.StmtElement? && last.stmt.cls == ReturnStmt
      then IsBlockInCurrentStmt(b.elements, last.stmt)
      else false
  }

  /** `getInterruptStatement`: the block's last statement when it is a return, break, continue
      or throw. */
  function GetInterruptStatement(b: Block): (r: Option<Node>)
    ensures r.Some? <==>
      |b.elements| > 0 && b.elements[|b.elements| - 1].StmtElement?
      && IsInterruptClass(b.elements[|b.elements| - 1].stmt.cls)
    ensures r.Some? ==> r.value == b.elements[|b.elements| - 1].stmt
  {
    if |b.elements| == 0 then None
    else
      var last := b.elements[|b.elements| - 1];
      if last.StmtElement? && IsInterruptClass(last.stmt.cls) then Some(last.stmt) else None
  }

  /** `isOnlyIterruptionBlock`: the exit block, an only-return block, or a block holding a
      no-return call. */
  predicate IsOnlyInterruptionBlock(b: Block, g: Graph) {
    b.id == g.exit || IsOnlyReturnBlock(b) || b.noReturn
  }

  /** `getLastStmt`: the last statement of a compound; nothing for any other statement. */
  function GetLastStmt(s: Stmt): (r: Option<Node>)
    ensures r.Some? <==> s.Compound? && |s.body| > 0
    ensures r.Some? ==> r.value == s.body[|s.body| - 1].node
  {
    if s.Compound? && |s.body| > 0 then Some(s.body[|s.body| - 1].node) else None
  }

  /** A block that is nothing but a return statement is an only-return block: the return lies
      within itself. */
  lemma SingleReturnIsOnlyReturn(b: Block)
    requires |b.elements| == 1 && b.elements[0].StmtElement? && b.elements[0].stmt.cls == ReturnStmt
    ensures IsOnlyReturnBlock(b)
    ensures GetInterruptStatement(b) == Some(b.elements[0].stmt)
  {
  }

  /** The statement an only-return block interrupts with is its return. */
  lemma OnlyReturnInterrupts(b: Block)
    requires IsOnlyReturnBlock(b)
    ensures GetInterruptStatement(b).Some?
    ensures GetInterruptStatement(b).value.cls == ReturnStmt
  {
  }

  /** Splitting a block's elements: the whole lies within a statement iff both parts do. */
  lemma {:induction false} InCurrentStmtAppend(xs: seq<Element>, ys: seq<Element>, current: Node)
    ensures IsBlockInCurrentStmt(xs + ys, current)
        <==> IsBlockInCurrentStmt(xs, current) && IsBlockInCurrentStmt(ys, current)
  {
    var zs := xs + ys;
    assert forall i :: 0 <= i < |xs| ==> zs[i] == xs[i];
    assert forall i :: 0 <= i < |ys| ==> zs[|xs| + i] == ys[i];
  }

  /** `Utils::getSourceText` of a node from `begin` to `end`: the end is first moved past its
      token, and the range is then taken up to the end of the token found THERE, so the text
      runs through the token right after the node (a statement's `;` when it follows
      directly). */
  function GetSourceText(src: Source, begin: nat, end: nat): (s: string)
    ensures var after := end + src.tokenLength(end);
      begin <= after && after + src.tokenLength(after) <= |src.text| ==>
        s == src.text[begin..after + src.tokenLength(after)]
  {
    src.SourceText(begin, end + src.tokenLength(end))
  }

  /** When a `;` directly follows a statement, the statement's text ends with it. */
  lemma {:induction false} SourceTextTakesSemicolon(src: Source, begin: nat, end: nat)
    requires src.Valid()
    requires begin <= end
    requires end + src.tokenLength(end) < |src.text| && src.text[end + src.tokenLength(end)] == ';'
    ensures var s := GetSourceText(src, begin, end);
      |s| > 0 && s[|s| - 1] == ';' && s[..|s| - 1] == src.text[begin..end + src.tokenLength(end)]
  {
    var after := end + src.tokenLength(end);
    assert src.text[after] in "(){};";
    assert src.tokenLength(after) == 1;
    assert GetSourceText(src, begin, end) == src.text[begin..after + 1];
  }
}
