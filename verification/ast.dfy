/** The statements and expressions the checks inspect, as the front end hands them over.
    Locations are file offsets: `begin` is the first character of a node's first token and
    `end` the first character of its last token, as Clang's `getBeginLoc`/`getEndLoc`. */
module Ast {
  import opened Base

  /** The statement classes the checks distinguish; everything else is `OtherStmt`. */
  datatype StmtClass =
    | ReturnStmt
    | BreakStmt
    | ContinueStmt
    | CXXThrowExpr
    | GotoStmt
    | LabelStmt
    | CompoundStmt
    | IfStmt
    | OtherStmt

  /** Statements after which control never falls through: `isInterruptStmt` and the classes
      `getInterruptStatement` accepts. */
  predicate IsInterruptClass(c: StmtClass) {
    c == ReturnStmt || c == BreakStmt || c == ContinueStmt || c == CXXThrowExpr
  }

  /** One statement: identity, class, location and whether its start comes from a macro
      expansion (`getBeginLoc().isMacroID()`). */
  datatype Node = Node(id: nat, cls: StmtClass, begin: nat, end: nat, fromMacro: bool)

  /** `inner` lies within `outer`'s extent, comparing first and last token locations. */
  predicate Within(inner: Node, outer: Node) {
    outer.begin <= inner.begin && inner.end <= outer.end
  }

  /** Expressions, as far as the if/else check looks into a condition. */
  datatype Expr = Expr(kind: ExprKind, begin: nat, end: nat, fromMacro: bool)

  datatype ExprKind =
    | LNot(operand: Expr)                                  // unary `!`
    | OtherUnary(operand: Expr)                            // any other unary operator
    | Logical(boolOrIntType: bool, lhs: Expr, rhs: Expr)   // `&&` or `||`, with whether its type is bool or integer
    | Paren(inner: Expr)                                   // `( ... )`
    | OtherExpr

  /** What the if/else check knows of an `if` beyond its children: the file it is in, whether
      its start is inside a macro expansion or a system header, whether it has an init
      statement (`if (auto x = ...; ...)`), and where its `else` keyword is. */
  datatype IfLayout = IfLayout(file: nat, inMacroOrSystem: bool, hasInit: bool, elseLoc: nat)

  /** A statement tree. A compound's node spans its braces. */
  datatype Stmt =
    | Compound(node: Node, body: seq<Stmt>)
    | If(node: Node, layout: IfLayout, cond: Expr, thenStmt: Stmt, elseStmt: Option<Stmt>)
    | Other(node: Node, children: seq<Stmt>)
}
