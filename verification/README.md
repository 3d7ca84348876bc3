# Auto-refactorings for clang-tidy, modelled in Dafny

This project models the decision logic of a clang-tidy module that rewrites C and C++ code
through fix-it hints. It covers four checks and the helpers they share:

- **if/else reversal** (`IfElseReturnChecker`). The check puts the lighter branch of an
  `if`/`else` first. It negates the condition and swaps the branch texts. Optionally it makes
  the first branch end in an interrupting statement (a copy of the `return`, `break`,
  `continue` or `throw` that the CFG shows the branch flowing to) and unwraps the `else` block,
  re-indenting it.
- **goto to return** (`GoToReturnChecker`). A `goto` to a label whose block only returns,
  straight to the function's exit, is replaced by that return statement. A per-label cache
  decides which labels are still looked at.
- **call hoisting** (`CallExpInIfChecker`). A call inside an `if` condition is moved into a
  fresh variable declared before the `if`. The variable is named by a prefix and a counter.
- **Ghidra member renaming** (`RenameGhidraMemberVariable`). A placeholder member such as
  `p->_8_4_` that failed to compile is replaced by the structure's real field at byte 8.

Clang supplies the AST, the CFG, the lexer and the rewriter. Here they are plain data:

- source locations are offsets into one file's text;
- the lexer is a given token-length function (`Lexer.Source`);
- CFG blocks are records of elements, predecessor and successor edges, and a no-return flag,
  with reachability as a given relation (`Cfg.Graph`);
- statements and expressions are a small tree (`Ast`);
- the rewriter is a list of edits in the original file's coordinates, together with the
  operation that reads a range back (`Rewriter`).

Each check is a pure function from a state record to a new state record. The record carries
what the C++ object keeps between calls:

- for if/else reversal: the sticky `NeedShift` flag, the rewriter's edits, the queued fix
  list and the warnings;
- for goto to return: the label cache;
- for call hoisting: the counter and the two function-level static regexes.

Modules, one per file: `Base` (options, ranges, decimals), `Lexer`, `Rewriter`, `Ast`, `Cfg`,
`Utils` (block classification), `Reindent` (`moveBlock`'s text), `Shift` (the search for the
interrupting block), `IfElseEdits` (the edits of one `if`), `IfElse` (`runInternal` and the
visitor), `GoToReturn`, `CallHoist` and `GhidraRename`.

## Model

| member | source | states |
|---|---|---|
| `Utils.IsBlockInCurrentStmt` | src/AutoRefactoringModuleUtils.cpp:8-28 | true exactly when every element of the block is a statement whose span lies within the given statement, so true for an empty block and false once a non-statement element appears |
| `Utils.IsOnlyReturnBlock` | src/AutoRefactoringModuleUtils.cpp:30-46 | true exactly when the block is non-empty, its last element is a return statement, and every element is a statement lying within that return |
| `Utils.GetInterruptStatement` | src/AutoRefactoringModuleUtils.cpp:48-71 | gives the block's last element exactly when that element is a return, break, continue or throw statement; otherwise nothing |
| `Utils.GetLastStmt` | src/AutoRefactoringModuleUtils.cpp:100-105 | gives the last body statement exactly for a non-empty compound statement; nothing for any other statement |
| `Utils.SingleReturnIsOnlyReturn` | src/AutoRefactoringModuleUtils.cpp:8-71 | a block holding just one return statement is only-return, and that return is its interrupting statement |
| `Utils.OnlyReturnInterrupts` | src/AutoRefactoringModuleUtils.cpp:30-71 | an only-return block always has an interrupting statement, and it is a return |
| `Utils.InCurrentStmtAppend` | src/AutoRefactoringModuleUtils.cpp:8-28 | the elements of a concatenation all lie within the statement exactly when those of both parts do |
| `Utils.GetSourceText` | src/AutoRefactoringModuleUtils.cpp:87-97 | the text of a node runs from its begin through the token that follows its last token |
| `Utils.SourceTextTakesSemicolon` | src/AutoRefactoringModuleUtils.cpp:87-97 | when a `;` directly follows a statement, the statement's text is its own tokens followed by that `;` |
| `Lexer.LineOfMonotone` | src/IfElseReturnChecker.cpp:80-85 | a later offset is never on an earlier line, so a statement's weight (end line minus start line) is never negative |
| `Base.DecimalInjective` | src/CallExprInIfChecker.cpp:76-77 | two different counter values print as two different decimal strings |
| `Base.ParseDecimalOfDecimal` | src/RenameGhidraMemberVariable.cpp:71-72 | reading back the decimal digits of a number gives the number |
| `Rewriter.Record` | src/IfElseReturnChecker.cpp:588-592 | after recording an edit, the rewriter holds that edit and exactly the earlier edits it does not overlap, still in file order |
| `Rewriter.ReadRecorded` | src/IfElseReturnChecker.cpp:562-570 | reading back the range an edit just rewrote gives the edit's text, whatever inner edits were recorded in it before |
| `Rewriter.ReadOutside` | src/IfElseReturnChecker.cpp:562-570 | recording an edit outside a range leaves that range's read-back text unchanged |
| `Rewriter.Read` | src/IfElseReturnChecker.cpp:562-570 | a range without recorded edits reads back as the original text |
| `Rewriter.ReadAroundInsert` | src/IfElseReturnChecker.cpp:419-452 | reading a range around a fresh insertion point gives the text before the point, the inserted text and the text after it |
| `Rewriter.ReadMovedBlock` | src/IfElseReturnChecker.cpp:228-253 | after a block is removed, text is inserted at its start and an earlier range is removed, the span from that range through the block reads back as what lay between them followed by the inserted text |
| `Rewriter.RenderSplit` | src/IfElseReturnChecker.cpp:562-570 | applying edits that end by a point and then edits that start after it is applying each group to its own side of the point |
| `Reindent.SplitLines` | src/IfElseReturnChecker.cpp:461-465 | the lines read from a text contain no line break |
| `Reindent.SplitJoin` | src/IfElseReturnChecker.cpp:465-489 | reading lines back from the text that joins them with line breaks gives the same lines |
| `Reindent.FirstNonBlank` | src/IfElseReturnChecker.cpp:467-471 | the first column holding neither a space nor a tab, and nothing exactly when the line is all blanks |
| `Reindent.Dedent` | src/IfElseReturnChecker.cpp:471-479 | a line loses exactly `Indent` leading blanks when its text starts at column `Indent` or later, and is kept unchanged otherwise |
| `Reindent.DropLeadingBlank` | src/IfElseReturnChecker.cpp:464-469 | the lines from the first non-blank one on; every line dropped is blank |
| `Reindent.DedentKeepsText` | src/IfElseReturnChecker.cpp:471-479 | re-indenting keeps a line blank or non-blank, and keeps its text from the first non-blank character on |
| `Reindent.MoveBlockKeeps` | src/IfElseReturnChecker.cpp:460-485 | the kept lines are the lines from the first non-blank one, each re-indented, with at most the last dropped and only if it is blank; the first kept line is not blank |
| `Reindent.MoveBlockTextLines` | src/IfElseReturnChecker.cpp:487-492 | the text built reads back as an empty line, a second empty line, then exactly the kept lines |
| `Shift.Classify` | src/IfElseReturnChecker.cpp:395-410 | a predecessor matters exactly when it lies outside the branch and is reachable from the branch's first block; it is a candidate exactly when it also is an interruption block |
| `Shift.ExitFrontier` | src/IfElseReturnChecker.cpp:360-370 | defined exactly when every predecessor edge of the exit is present, and then holds exactly the interruption predecessors of the exit |
| `Shift.Frontier` | src/IfElseReturnChecker.cpp:360-370 | defined exactly when every predecessor edge of the exit is present, and then holds exactly the exit block and the exit's interruption predecessors |
| `Shift.FirstBlock` | src/IfElseReturnChecker.cpp:375-389 | defined exactly when the branch is a non-empty compound whose first statement has a block, and then gives that block |
| `Shift.ScanFrontierFinds` | src/IfElseReturnChecker.cpp:391-414 | scanning every frontier block finds `b` exactly when no predecessor is an escape route and `b` is the only candidate, whatever order the blocks are visited in |
| `Shift.InterruptBlockForStmt` | src/IfElseReturnChecker.cpp:355-415 | finds a block exactly when the frontier exists, the branch has a first block and some block is the sole candidate, and then the block found is that sole candidate |
| `Shift.SoleCandidateEscapes` | src/IfElseReturnChecker.cpp:395-410 | the block the search settles on is an interruption block outside the branch and reachable from it |
| `IfElseEdits.Flush` | src/IfElseReturnChecker.cpp:257-266 | the warning carries every queued fix, in order, and the queue is empty afterwards |
| `IfElseEdits.ConditionEdits` | src/IfElseReturnChecker.cpp:306-343 | negating a condition makes one or two edits; a condition whose text starts with `!` only loses characters, and any other condition is wrapped |
| `IfElseEdits.WrapEdits` | src/IfElseReturnChecker.cpp:331-342 | wrapping inserts `!(` at the condition's start and `)` just past the `)` that follows the condition, or one character before the `then` block when no `)` follows it |
| `IfElseEdits.ReverseCondition` | src/IfElseReturnChecker.cpp:294-347 | refuses exactly an `if` with an init statement or a `then` branch that is not a block; otherwise it negates the condition, as written or corrected as the flag says, and queues exactly those edits |
| `IfElseEdits.ElseRange` | src/IfElseReturnChecker.cpp:535-560 | an `else` block is taken whole; any other `else` statement is taken from just after the `else` keyword: as written, through the token that directly follows the `;` after the `if`; corrected, through that `;`; through the `if`'s last token when no `;` follows |
| `IfElseEdits.ElseRangeEndsAtSemicolon` | src/IfElseReturnChecker.cpp:535-548 | the corrected range ends just past the `;` after the `if`; the range as written ends one token further, and the two agree exactly when no token follows the `;` directly |
| `IfElseEdits.ElseRangeTakesBrace` | src/IfElseReturnChecker.cpp:535-590 | as written, in `{if(c){a;}else b;}` the `else` range is ` b;}`, so the swap puts the enclosing block's `}` in the `then` block's place; corrected, it puts ` b;` there |
| `IfElseEdits.ElseRemovalTakesBrace` | src/IfElseReturnChecker.cpp:243-249 | in `if(c){a;}else{b;}` the removal of the `else` keyword takes `else{`, overlapping the `else` block's range |
| `IfElseEdits.MoveBlock` | src/IfElseReturnChecker.cpp:494-498 | queues the removal of the whole block, then the insertion of the re-indented text at its start |
| `IfElseEdits.RemoveElse` | src/IfElseReturnChecker.cpp:243-253 | queues exactly one removal: from just after the `then` block's `}` through the token found just past the `else` keyword when `then` is a block, otherwise the `else` keyword alone |
| `IfElseEdits.ReplaceElse` | src/IfElseReturnChecker.cpp:562-590 | without re-indenting, the `then` text replaces the `else` range; with it, the `else` block is removed, the `then` text re-indented is inserted at its start, and the `else` keyword is removed; queued fixes stay at the front |
| `IfElseEdits.ReverseStmt` | src/IfElseReturnChecker.cpp:511-593 | the last fix replaces the `then` range by the `else` text as the rewriter had it before the swap; earlier fixes stay queued |
| `IfElseEdits.AppendStmt` | src/IfElseReturnChecker.cpp:419-452 | queues one insertion of a line break, the last statement's indentation and the added statement's text, at the offset just past the `;` ending the block's last statement (or past that statement's last token); the rewriter inserts the same text after the token found at that offset |
| `IfElseEdits.AddBlockToStmt` | src/IfElseReturnChecker.cpp:600-622 | a branch already ending in an interrupting statement succeeds with no edit; otherwise it succeeds exactly when the CFG search offers an interrupting statement that is not from a macro, and that statement is appended to the branch; a failure changes nothing |
| `IfElseEdits.AppendedReadsBack` | src/IfElseReturnChecker.cpp:419-452 | after a statement is appended, the branch reads back as its former text up to the insertion point, the appended line, then the rest of its former text, when no earlier edit reaches that point |
| `IfElseEdits.ReverseStmtSwaps` | src/IfElseReturnChecker.cpp:562-592 | without re-indenting, reading back the `then` range after the swap gives what the `else` range read before, and the other way round |
| `IfElseEdits.ReverseStmtShifted` | src/IfElseReturnChecker.cpp:562-590 | with re-indenting on, the `then` block reads back as the former `else` block, and the span from the `else` keyword through the `else` block's `}` reads back as the blanks before the `{` followed by the former `then` interior re-indented |
| `IfElseEdits.HeadOfNegation` | src/IfElseReturnChecker.cpp:309-312 | the text inspected starts with `!`, and with `!(` when a `(` follows the `!` |
| `IfElseEdits.NegationRemoved` | src/IfElseReturnChecker.cpp:306-328 | negating a `!` condition leaves exactly its operand, without the operand's parentheses when it is parenthesised |
| `IfElseEdits.StripCastAsWritten` | src/IfElseReturnChecker.cpp:309-320 | as written, negating `!(int)x` leaves `int)`; corrected, it leaves `(int)x` |
| `IfElseEdits.CastCorrected` | src/IfElseReturnChecker.cpp:309-327 | the corrected negation of `!(int)x` leaves `(int)x` |
| `IfElse.RecordEndif` | src/IfElseReturnChecker.cpp:27-34 | an `#endif` whose `#if` is in another file changes nothing; otherwise the pair is appended to its file's list, and no other file's list changes |
| `IfElse.AnyCuts` | src/IfElseReturnChecker.cpp:103-113 | true exactly when some recorded conditional has its `#if` or `#endif` strictly inside the statement |
| `IfElse.PreprocessorInIf` | src/IfElseReturnChecker.cpp:89-114 | true exactly when the `if` starts in a macro or a conditional of its file cuts into it |
| `IfElse.IsThenFirst` | src/IfElseReturnChecker.cpp:177-200 | with `ReverseOnNotUO`, `then` stays first exactly when the condition is not a negation; otherwise exactly when the `then` weight is at most the `else` weight, so equal weights keep the written order |
| `IfElse.ShiftTarget` | src/IfElseReturnChecker.cpp:212-217 | re-indenting stays on exactly when it was on and the target branch could be made to interrupt; no warning is issued and queued fixes stay queued |
| `IfElse.Unwrap` | src/IfElseReturnChecker.cpp:228-254 | an `else` block is removed, its interior as the rewriter has it is inserted re-indented at its start, and the last fix removes the `else` keyword (from just after a `then` block's `}`); any other `else` branch only loses its keyword; queued fixes stay at the front |
| `IfElse.UnwrapBlock` | src/IfElseReturnChecker.cpp:228-241 | an `else` block is removed and its interior as the rewriter has it is inserted re-indented at its start; any other `else` branch is left alone |
| `IfElse.UnwrapReadsBack` | src/IfElseReturnChecker.cpp:228-254 | after unwrapping, the span from the `else` keyword through the `else` block's `}` reads back as the blanks before the `{` followed by the block's former interior re-indented, so the keyword and both braces are gone |
| `IfElse.KeepReadsBack` | src/IfElseReturnChecker.cpp:224-266 | keeping the branches in order with re-indenting on leaves the same read-back as unwrapping |
| `IfElse.Reverse` | src/IfElseReturnChecker.cpp:219-223 | an `if` whose condition cannot be negated gets nothing; any other gets one warning carrying all queued fixes |
| `IfElse.Keep` | src/IfElseReturnChecker.cpp:224-266 | with re-indenting off, nothing happens; with it on, one warning carries all queued fixes |
| `IfElse.RunInternal` | src/IfElseReturnChecker.cpp:160-268 | a skipped `if` changes nothing; a warning is issued exactly when the branches are swapped, or kept in order with re-indenting still on; re-indenting never comes back; without a warning, the fixes stay queued |
| `IfElse.RunInternalSwaps` | src/IfElseReturnChecker.cpp:177-268 | without re-indenting, a warning means the `else` branch was lighter (or the condition a negation); its fixes are the negation, then the two replacements; the two ranges read back with each other's former text |
| `IfElse.WarnedReversed` | src/IfElseReturnChecker.cpp:219-223 | without re-indenting, a warned `if` is one whose `then` was not to stay first and whose branches were swapped |
| `IfElse.SwapEdits` | src/IfElseReturnChecker.cpp:562-592 | without re-indenting, swapping makes exactly two edits: the `then` text over the `else` range, then the `else` text over the `then` range |
| `IfElse.VisitOrder` | src/IfElseReturnChecker.cpp:48-72 | lists only `if`s with an `else` that is not an `if`, and such an `if` comes after everything inside it |
| `IfElse.VisitOrderAll` | src/IfElseReturnChecker.cpp:61-72 | lists only `if`s with an `else` that is not an `if` |
| `IfElse.RunAll` | src/IfElseReturnChecker.cpp:48-59 | earlier warnings stay; at most one warning per `if`; re-indenting never comes back |
| `IfElse.Traverse` | src/IfElseReturnChecker.cpp:61-72 | earlier warnings stay and re-indenting never comes back |
| `IfElse.TraverseAll` | src/IfElseReturnChecker.cpp:61-72 | earlier warnings stay and re-indenting never comes back, across a list of statements |
| `IfElse.TraverseIsRunAll` | src/IfElseReturnChecker.cpp:48-72 | walking a statement is `runInternal` on its eligible `if`s in visiting order |
| `IfElse.TraverseAllIsRunAll` | src/IfElseReturnChecker.cpp:48-72 | walking a list of statements is `runInternal` on their eligible `if`s in visiting order |
| `IfElse.WarningsPerIf` | src/IfElseReturnChecker.cpp:48-72 | one function's walk issues at most one warning per eligible `if` |
| `GoToReturn.BlockOfStmt` | src/GoToReturnChecker.cpp:72-81 | a statement has a block exactly when the statement-to-block map knows it and the block is in the graph |
| `GoToReturn.ReturnFor` | src/GoToReturnChecker.cpp:72-105 | a return is found exactly when the `goto` and the label's statement have blocks and the label's block is only-return with the exit as its one successor; it is that block's return statement |
| `GoToReturn.RunInternal` | src/GoToReturnChecker.cpp:48-114 | a refused label answers false and changes nothing; otherwise the answer is true exactly when a return is found, and then the label is accepted and one warning replaces the `goto` by the return's text; a label seen for the first time without success is refused |
| `GoToReturn.RunAll` | src/GoToReturnChecker.cpp:26-29 | earlier warnings stay and no label is forgotten |
| `GoToReturn.RefusedStaysRefused` | src/GoToReturnChecker.cpp:56-62 | a refused label stays refused, and no later `goto` to it gets a warning |
| `GoToReturn.AcceptedStaysAccepted` | src/GoToReturnChecker.cpp:56-112 | an accepted label stays accepted, even when a later `goto` to it cannot be replaced |
| `CallHoist.Check` | src/CallExprInIfChecker.cpp:21-89 | a call outside the condition, or in an `if` with an init statement, or in an `else if` changes nothing; a static pattern once set never changes; the counter advances by one exactly when both patterns match, and then exactly one warning is appended, whose first fix inserts the declaration one character before the `if` as written, or where the `if` starts as corrected |
| `CallHoist.RunAll` | src/CallExprInIfChecker.cpp:76-77 | the counter advances by the number of warnings, and the `i`th new warning names the prefix followed by the counter's value at that point |
| `CallHoist.NamesDistinct` | src/CallExprInIfChecker.cpp:76-77 | no two warnings of a run introduce the same variable name |
| `CallHoist.RenderInsert` | src/CallExprInIfChecker.cpp:85-86 | an insertion puts its text between the characters before and after its offset |
| `CallHoist.DeclarationBeforeIf` | src/CallExprInIfChecker.cpp:85-86 | corrected, everything before the `if`, including code on its own line, stays before the declaration, and the declaration is followed by a line break, the `if`'s indentation and the `if` |
| `CallHoist.DeclarationOnOwnLine` | src/CallExprInIfChecker.cpp:85-86 | corrected, an `if` preceded only by its indentation gets the declaration on a line of its own just above it; both lines start with the `if`'s former indentation and nothing before the `if`'s line changes |
| `CallHoist.DeclarationGluedAsWritten` | src/CallExprInIfChecker.cpp:85-86 | as written, for an unindented `if` at the start of a line after `x;`, the declaration lands right after the `;` on the previous line and an empty line is left before the `if` |
| `GhidraRename.FirstMatch` | src/RenameGhidraMemberVariable.cpp:51-52 | the leftmost position at which `_[0-9]+_` matches, or nothing exactly when it matches nowhere |
| `GhidraRename.MatchedDigits` | src/RenameGhidraMemberVariable.cpp:67-72 | the match without its two underscores: a non-empty run of digits |
| `GhidraRename.FirstReaching` | src/RenameGhidraMemberVariable.cpp:81-97 | the first field, in declaration order, whose byte offset reaches the target; every field before it lies below the target |
| `GhidraRename.Placeholder` | src/RenameGhidraMemberVariable.cpp:54-72 | defined exactly when the expected operator follows the reference and the text from the reference through the member holds a match; gives the operator's end and the matched number |
| `GhidraRename.AtRecovery` | src/RenameGhidraMemberVariable.cpp:27-97 | a warning exactly when the recovery expression holds only this reference, the type is a structure (or points to one), a placeholder follows, and the first field reaching its number sits exactly at it; the warning replaces the access by that field; the next parent is looked at exactly when every field lies below the number |
| `GhidraRename.Parents` | src/RenameGhidraMemberVariable.cpp:25-100 | a warning comes from one recovery-expression parent |
| `GhidraRename.Check` | src/RenameGhidraMemberVariable.cpp:15-101 | at most one warning, at the reference's start, with one replacement, and only when a parent is a recovery expression holding just this reference |
| `GhidraRename.PlaceholderOffset` | src/RenameGhidraMemberVariable.cpp:67-72 | for a member named `_<n>_...`, the digits found are those of `n` and read back as `n` |
| `GhidraRename.AdjacentOperatorAgrees` | src/RenameGhidraMemberVariable.cpp:73-88 | when the operator directly follows the reference, the replacement as written and the corrected one agree |
| `GhidraRename.SpacedArrowAsWritten` | src/RenameGhidraMemberVariable.cpp:73-92 | as written, `p ->_8_` is rewritten to `px`; corrected, to `p->x` |
| `GhidraRename.CorrectedKeepsOperator` | src/RenameGhidraMemberVariable.cpp:61-92 | corrected, the range rewritten holds the operator, and the replacement is the reference, the operator and the name of a field at the placeholder's offset |

## Left out

- The Clang front end is not part of this model. That covers AST and CFG construction, `ParentMap`/`CFGStmtMap`, and the source manager's macro, spelling and expansion queries. Statements carry a "from macro" flag, and the system-header and macro-argument tests of `runInternal` come in as flags too.
- The lexer (`MeasureTokenLength`) is a given token-length function. `findLocationAfterToken` skips blanks and line breaks, not comments.
- Clang's `Rewriter` is modelled as a list of edits in original coordinates. A later edit supersedes the earlier edits it overlaps, and reading a range applies the edits inside it. The rewriter's internal offset remapping is not modelled.
- An insertion exactly at the start of a range read back is not part of the text read here, whereas Clang's `getRewrittenText` includes it. The read-back lemmas keep such insertions out through their preconditions.
- `llvm::Regex` for the call-hoisting filters is an uninterpreted matcher passed in as a parameter. The Ghidra pattern `_[0-9]+_` is written out.
- `CFGReverseBlockReachabilityAnalysis` is a given relation. Whether a block reaches itself is left to that relation.
- Option loading and storing are not modelled. The options are a record with the constructor's defaults. The header's in-class default `Indent = 2` is overridden by the constructor's 4, and only the latter is used.
- Diagnostic messages are not modelled. A warning is its offset and its fixes.
- `CommaInIfChecker` is not part of this model: it emits a diagnostic without any fix.
- Null-pointer crashes in the source are not modelled; the model does the following instead:
  - a missing predecessor edge of a frontier block is passed over;
  - an empty compound `then` branch makes the search fail;
  - the `goto` label is taken as present, although the source dereferences it before its null check;
  - `reverseStmt` with re-indenting on and an `else` branch that is not a block takes the `else` branch's range instead of crashing;
  - a callee without a function declaration is out of scope, because the callee's name is an input;
  - `addBlockToStmt` fails when the sole candidate block was accepted through its no-return flag but does not end in an interrupting statement (a block ending in `exit(1);`, say), where the source dereferences the missing statement.
- The fix list that `runInternal` leaves queued when `reverseCondition` fails is modelled as the source behaves: the fixes are handed to the next warning. No property about the queued fixes beyond that is stated.
- The `goto` check looks up the `goto`'s own block twice, as `GotoStmtLabelBlock` and `GotoStmtBlock`. The model looks it up once.
- `std::stoul` overflow on a long placeholder number is not modelled. Numbers are unbounded.
- The `int` counter of call hoisting is unbounded in the model. Its wrap-around after 2^31 warnings is not modelled.
- `IfElseEdits.Before` clamps at offset 0, where the source's `getLocWithOffset(-1)` would step before the file. A `then` block's `{` never sits at offset 0, so the clamp is never reached.
- IfElse.RunAll: the warnings are bounded by the number of `if`s, but the contract does not say which `if` each warning belongs to. `IfElse.TraverseIsRunAll` gives that link instead.
- IfElseEdits.AppendedReadsBack, IfElseEdits.ReverseStmtShifted, IfElse.UnwrapReadsBack: the read-back is stated only when the rewriter's edits are in file order and none recorded before reaches the insertion point (or the span up to the `else` block's `{`).
- IfElseEdits.ReverseStmtShifted: the read-back is stated only when a blank separates `else` from the `else` block's `{`. With `}else{` the keyword's removal takes the `{` (`IfElseEdits.ElseRemovalTakesBrace`) and overlaps the block's removal and the insertion at its start. This rewriter model drops the earlier edit an overlapping one meets, where Clang's rewriter erases at remapped offsets, so nothing is promised about that layout.
- IfElse.UnwrapReadsBack: the read-back is stated only when a blank separates `else` from the `else` block's `{`, for the same reason: with `}else{` the keyword's removal overlaps the block's removal, which this rewriter model resolves differently from Clang's.
- IfElse.KeepReadsBack: the read-back is stated only when a blank separates `else` from the `else` block's `{`, as for `IfElse.UnwrapReadsBack`, whose read-back it shares.
- IfElse.RunInternal: sortedness of the rewriter's edits is not stated at this level, only for `Rewriter.Record` and `Rewriter.RecordAll`.

## Findings

| source | as written | input that shows it | evidently intended | confidence | as-written member | corrected member |
|---|---|---|---|---|---|---|
| src/IfElseReturnChecker.cpp:309-320 | any `!` condition whose text starts with `!(` loses those two characters and its last token | `if (!(int)x) {...} else {...}`: the condition becomes `int)` | strip the parentheses only when the operand of `!` is itself parenthesised, otherwise remove just the `!` | high, not executed | `IfElseEdits.StripCastAsWritten` | `IfElseEdits.NegationRemoved` |
| src/CallExprInIfChecker.cpp:85-86 | the `if`'s indentation and the declaration are inserted one character before the `if` | `x;` then a line break then `if (f()) {}`: the declaration is glued to `x;` and an empty line is left before the `if` | insert the declaration, a line break and the `if`'s indentation where the `if` starts, so the declaration takes the `if`'s place and the `if` moves to the next line with its indentation | medium, not executed | `CallHoist.DeclarationGluedAsWritten` | `CallHoist.DeclarationOnOwnLine` |
| src/IfElseReturnChecker.cpp:535-548 | the `else` statement's range is a token range whose end is the location just past the `;` after the `if`, so it runs through the token that follows the `;` | `{if(c){a;}else b;}`: the swap moves ` b;}`, the enclosing block's `}` included, into the `then` block's place | end the range at the `;` | medium, not executed | `IfElseEdits.ElseRangeTakesBrace` | `IfElseEdits.ElseRangeEndsAtSemicolon` |
| src/RenameGhidraMemberVariable.cpp:73-92 | the replacement is the reference's text through the token after it, plus the field name | `p ->_8_` for a pointer to a structure with field `x` at byte 8: rewritten to `px`, losing the arrow | the reference, the operator and the field name, whatever the spacing | medium, not executed | `GhidraRename.SpacedArrowAsWritten` | `GhidraRename.CorrectedKeepsOperator` |

In the model, each of these takes a flag that selects the as-written or the corrected behaviour: `IfElse.Env`'s `asWritten` field for the negation and the `else` range, and the `asWritten` parameter of `CallHoist.Check` and of `GhidraRename.Check`.
