/** `getInterruptBlockForStmt`: the one block whose interrupting statement can be copied to
    the end of a branch so that the branch leaves the function early.

    The search starts from the exit block and the interruption blocks that lead straight into
    it (the frontier), and looks at every predecessor of a frontier block. A predecessor that
    lies outside the branch but can be reached from the branch's first block is an escape
    route: if it is not itself an interruption block the search gives up, and if it is, it is
    the candidate. More than one candidate also makes the search give up. */
module Shift {
  import opened Base
  import opened Ast
  import opened Cfg
  import opened Utils

  /** What one predecessor of a frontier block means for the search. */
  datatype Verdict = Ignore | Escape | Candidate

  /** The predecessor `p`, judged against the branch `current` whose first statement sits in
      block `first`. */
  function Classify(g: Graph, current: Node, first: nat, p: Block): (v: Verdict)
    ensures v != Ignore <==> !IsBlockInCurrentStmt(p.elements, current) && (first, p.id) in g.reachable
    ensures v == Candidate <==> v != Ignore && IsOnlyInterruptionBlock(p, g)
  {
    var inStmt := IsBlockInCurrentStmt(p.elements, current);
    var reachable := (first, p.id) in g.reachable;
    if !IsOnlyInterruptionBlock(p, g) then
      if !inStmt && reachable then Escape else Ignore
    else if !inStmt && reachable then Candidate
    else Ignore
  }

  /** The exit block's interruption predecessors, or nothing when one of its predecessor
      edges is missing. */
  function ExitFrontier(g: Graph, preds: seq<Option<nat>>): (r: Option<set<nat>>)
    ensures r.Some? <==> forall i :: 0 <= i < |preds| ==> g.BlockOf(preds[i]).Some?
    ensures r.Some? ==> forall f :: f in r.value <==>
      exists i :: 0 <= i < |preds| && preds[i] == Some(f) && f in g.blocks
        && IsOnlyInterruptionBlock(g.blocks[f], g)
    decreases |preds|
  {
    if preds == [] then Some({})
    else
      var b := g.BlockOf(preds[0]);
      var rest := ExitFrontier(g, preds[1..]);
      assert forall i :: 1 <= i < |preds| ==> preds[i] == preds[1..][i - 1];
      if b.None? then None
      else if rest.None? then
        assert exists i :: 0 <= i < |preds[1..]| && g.BlockOf(preds[1..][i]).None?;
        None
      else if IsOnlyInterruptionBlock(b.value, g) then
        assert forall f :: f in rest.value ==>
          exists i :: 0 <= i < |preds| && preds[i] == Some(f) && f in g.blocks
            && IsOnlyInterruptionBlock(g.blocks[f], g) by {
          forall f | f in rest.value
            ensures exists i :: (0 <= i < |preds| && preds[i] == Some(f) && f in g.blocks
              && IsOnlyInterruptionBlock(g.blocks[f], g))
          {
            var i :| 0 <= i < |preds[1..]| && preds[1..][i] == Some(f) && f in g.blocks
              && IsOnlyInterruptionBlock(g.blocks[f], g);
            assert preds[i + 1] == Some(f);
          }
        }
        Some({preds[0].value} + rest.value)
      else
        assert forall f :: f in rest.value ==>
          exists i :: 0 <= i < |preds| && preds[i] == Some(f) && f in g.blocks
            && IsOnlyInterruptionBlock(g.blocks[f], g) by {
          forall f | f in rest.value
            ensures exists i :: (0 <= i < |preds| && preds[i] == Some(f) && f in g.blocks
              && IsOnlyInterruptionBlock(g.blocks[f], g))
          {
            var i :| 0 <= i < |preds[1..]| && preds[1..][i] == Some(f) && f in g.blocks
              && IsOnlyInterruptionBlock(g.blocks[f], g);
            assert preds[i + 1] == Some(f);
          }
        }
        rest
  }

  /** The frontier: the exit block and its interruption predecessors. */
  function Frontier(g: Graph): (r: Option<set<nat>>)
    requires g.exit in g.blocks
    ensures r.Some? <==> forall i :: 0 <= i < |g.blocks[g.exit].preds| ==>
      g.BlockOf(g.blocks[g.exit].preds[i]).Some?
    ensures r.Some? ==> forall f :: f in r.value <==>
      (f == g.exit || exists i :: (0 <= i < |g.blocks[g.exit].preds|
        && g.blocks[g.exit].preds[i] == Some(f) && f in g.blocks
        && IsOnlyInterruptionBlock(g.blocks[f], g)))
    ensures r.Some? ==> g.exit in r.value && r.value <= g.blocks.Keys
  {
    match ExitFrontier(g, g.blocks[g.exit].preds)
    case None => None
    case Some(fs) => Some({g.exit} + fs)
  }

  /** The block of the branch's first statement, if the branch is a non-empty compound whose
      first statement the statement-to-block map knows. */
  function FirstBlock(g: Graph, stmtBlock: map<nat, nat>, current: Stmt): (r: Option<nat>)
    ensures r.Some? <==>
      current.Compound? && |current.body| > 0 && current.body[0].node.id in stmtBlock
      && stmtBlock[current.body[0].node.id] in g.blocks
    ensures r.Some? ==> r.value == stmtBlock[current.body[0].node.id]
  {
    if current.Compound? && |current.body| > 0 && current.body[0].node.id in stmtBlock
      && stmtBlock[current.body[0].node.id] in g.blocks
    then Some(stmtBlock[current.body[0].node.id])
    else None
  }

  /** A predecessor edge of a frontier block: the `i`th predecessor of block `f`. */
  ghost predicate IsEdge(g: Graph, frontier: set<nat>, o: (nat, nat)) {
    o.0 in frontier && o.0 in g.blocks && o.1 < |g.blocks[o.0].preds|
  }

  function PredAt(g: Graph, o: (nat, nat)): Option<Block>
    requires o.0 in g.blocks && o.1 < |g.blocks[o.0].preds|
  {
    g.BlockOf(g.blocks[o.0].preds[o.1])
  }

  ghost predicate HasVerdict(g: Graph, frontier: set<nat>, current: Node, first: nat, o: (nat, nat), v: Verdict) {
    IsEdge(g, frontier, o) && PredAt(g, o).Some? && Classify(g, current, first, PredAt(g, o).value) == v
  }

  /** The search succeeds with `b` exactly when no predecessor edge is an escape route and
      exactly one predecessor edge is a candidate, leading to `b`. */
  ghost predicate SoleCandidate(g: Graph, frontier: set<nat>, current: Node, first: nat, b: Block) {
    && (forall o :: !HasVerdict(g, frontier, current, first, o, Escape))
    && exists o :: HasVerdict(g, frontier, current, first, o, Candidate) && PredAt(g, o).value == b
         && forall o' :: HasVerdict(g, frontier, current, first, o', Candidate) ==> o' == o
  }

  /** The candidate found so far: the predecessor edge it was found on and its block. */
  datatype Pick = Pick(edge: (nat, nat), block: Block)

  /** Where a scan ends: it gave up, or it ran through with at most one candidate. */
  datatype Scan = GaveUp | Found(pick: Option<Pick>)

  /** No predecessor edge of the frontier blocks in `done` is an escape route. */
  ghost predicate NoEscapeIn(g: Graph, frontier: set<nat>, current: Node, first: nat, done: set<nat>) {
    forall o: (nat, nat) :: o.0 in done ==> !HasVerdict(g, frontier, current, first, o, Escape)
  }

  /** The edge `o` has been looked at: it leaves a block of `done`, or it is one of the first
      `upto` predecessors of block `f`. */
  ghost predicate Seen(done: set<nat>, f: nat, upto: nat, o: (nat, nat)) {
    o.0 in done || (o.0 == f && o.1 < upto)
  }

  /** The candidate edges seen so far: none when `acc` is empty, else exactly the edge `acc`
      records, leading to `acc`'s block. */
  ghost predicate CandidatesIn(g: Graph, frontier: set<nat>, current: Node, first: nat, done: set<nat>,
                               f: nat, upto: nat, acc: Option<Pick>) {
    && (acc.None? ==> forall o: (nat, nat) :: Seen(done, f, upto, o) ==>
          !HasVerdict(g, frontier, current, first, o, Candidate))
    && (acc.Some? ==>
          && HasVerdict(g, frontier, current, first, acc.value.edge, Candidate)
          && Seen(done, f, upto, acc.value.edge)
          && PredAt(g, acc.value.edge).value == acc.value.block
          && forall o: (nat, nat) :: Seen(done, f, upto, o) && HasVerdict(g, frontier, current, first, o, Candidate)
               ==> o == acc.value.edge)
  }

  /** The predecessors of frontier block `f` from the `i`th on, in order, continuing a scan
      whose candidate so far is `acc`: an escape route or a second candidate gives up, an edge
      that leads nowhere is passed over. */
  function ScanEdges(g: Graph, current: Node, first: nat, f: nat, i: nat, acc: Option<Pick>): Scan
    requires f in g.blocks && i <= |g.blocks[f].preds|
    decreases |g.blocks[f].preds| - i
  {
    if i == |g.blocks[f].preds| then Found(acc)
    else match g.BlockOf(g.blocks[f].preds[i])
      case None => ScanEdges(g, current, first, f, i + 1, acc)
      case Some(p) =>
        match Classify(g, current, first, p)
        case Escape => GaveUp
        case Candidate =>
          if acc.Some? then GaveUp else ScanEdges(g, current, first, f, i + 1, Some(Pick((f, i), p)))
        case Ignore => ScanEdges(g, current, first, f, i + 1, acc)
  }

  /** `m` is the smallest element of `s`. */
  predicate IsLeast(m: nat, s: set<nat>) {
    m in s && forall x :: x in s ==> m <= x
  }

  lemma {:induction false} LeastExists(s: set<nat>)
    requires s != {}
    ensures exists m :: IsLeast(m, s)
    decreases |s|
  {
    var x :| x in s;
    if s == {x} {
      assert IsLeast(x, s);
    } else {
      var t := s - {x};
      LeastExists(t);
      var m :| IsLeast(m, t);
      assert forall y :: y in s ==> y == x || y in t;
      if x < m {
        assert IsLeast(x, s);
      } else {
        assert IsLeast(m, s);
      }
    }
  }

  /** The smallest element of a non-empty set of block ids. */
  function Least(s: set<nat>): (m: nat)
    requires s != {}
    ensures m in s && forall x :: x in s ==> m <= x
  {
    LeastExists(s);
    var m :| m in s && forall x :: x in s ==> m <= x;
    m
  }

  /** The frontier blocks in `todo`, one after the other, each with all its predecessors. The
      blocks are taken in increasing id order; the outcome does not depend on that order (see
      `ScanFrontierFinds`). */
  function ScanFrontier(g: Graph, current: Node, first: nat, todo: set<nat>, acc: Option<Pick>): Scan
    requires todo <= g.blocks.Keys
    decreases |todo|
  {
    if todo == {} then Found(acc)
    else
      var f := Least(todo);
      match ScanEdges(g, current, first, f, 0, acc)
      case GaveUp => GaveUp
      case Found(acc') => ScanFrontier(g, current, first, todo - {f}, acc')
  }

  lemma {:induction false} ScanEdgesSpec(g: Graph, frontier: set<nat>, current: Node, first: nat,
                                         done: set<nat>, f: nat, i: nat, acc: Option<Pick>)
    requires f in frontier && f in g.blocks && f !in done && i <= |g.blocks[f].preds|
    requires NoEscapeIn(g, frontier, current, first, done)
    requires forall j :: 0 <= j < i ==> !HasVerdict(g, frontier, current, first, (f, j), Escape)
    requires CandidatesIn(g, frontier, current, first, done, f, i, acc)
    ensures ScanEdges(g, current, first, f, i, acc) == GaveUp ==>
      forall b :: !SoleCandidate(g, frontier, current, first, b)
    ensures ScanEdges(g, current, first, f, i, acc).Found? ==>
      && NoEscapeIn(g, frontier, current, first, done + {f})
      && CandidatesIn(g, frontier, current, first, done + {f}, f, 0, ScanEdges(g, current, first, f, i, acc).pick)
    decreases |g.blocks[f].preds| - i
  {
    var preds := g.blocks[f].preds;
    if i == |preds| {
    } else {
      var p := g.BlockOf(preds[i]);
      if p.None? {
        ScanEdgesSpec(g, frontier, current, first, done, f, i + 1, acc);
      } else {
        var v := Classify(g, current, first, p.value);
        assert HasVerdict(g, frontier, current, first, (f, i), v);
        if v == Candidate {
          if acc.None? {
            ScanEdgesSpec(g, frontier, current, first, done, f, i + 1, Some(Pick((f, i), p.value)));
          }
        } else if v == Ignore {
          ScanEdgesSpec(g, frontier, current, first, done, f, i + 1, acc);
        }
      }
    }
  }

  lemma {:induction false} ScanFrontierSpec(g: Graph, frontier: set<nat>, current: Node, first: nat,
                                            todo: set<nat>, acc: Option<Pick>)
    requires todo <= frontier <= g.blocks.Keys
    requires NoEscapeIn(g, frontier, current, first, frontier - todo)
    requires CandidatesIn(g, frontier, current, first, frontier - todo, 0, 0, acc)
    ensures ScanFrontier(g, current, first, todo, acc) == GaveUp ==>
      forall b :: !SoleCandidate(g, frontier, current, first, b)
    ensures ScanFrontier(g, current, first, todo, acc).Found? ==>
      && NoEscapeIn(g, frontier, current, first, frontier)
      && CandidatesIn(g, frontier, current, first, frontier, 0, 0, ScanFrontier(g, current, first, todo, acc).pick)
    decreases |todo|
  {
    if todo != {} {
      var f := Least(todo);
      var done := frontier - todo;
      assert CandidatesIn(g, frontier, current, first, done, f, 0, acc);
      ScanEdgesSpec(g, frontier, current, first, done, f, 0, acc);
      var r := ScanEdges(g, current, first, f, 0, acc);
      if r.Found? {
        assert frontier - (todo - {f}) == done + {f};
        ScanFrontierSpec(g, frontier, current, first, todo - {f}, r.pick);
      }
    }
  }

  /** Scanning the whole frontier succeeds with `b` exactly when `b` is the sole candidate,
      whatever order the frontier is visited in. */
  lemma {:induction false} ScanFrontierFinds(g: Graph, frontier: set<nat>, current: Node, first: nat)
    requires frontier <= g.blocks.Keys
    ensures var r := ScanFrontier(g, current, first, frontier, None);
      (r.Found? && r.pick.Some?) <==> exists b :: SoleCandidate(g, frontier, current, first, b)
    ensures var r := ScanFrontier(g, current, first, frontier, None);
      r.Found? && r.pick.Some? ==> SoleCandidate(g, frontier, current, first, r.pick.value.block)
  {
    ScanFrontierSpec(g, frontier, current, first, frontier, None);
    var r := ScanFrontier(g, current, first, frontier, None);
    if r.Found? {
      forall o: (nat, nat) | HasVerdict(g, frontier, current, first, o, Candidate)
        ensures Seen(frontier, 0, 0, o)
      {
      }
      if r.pick.Some? {
        assert SoleCandidate(g, frontier, current, first, r.pick.value.block);
      }
    }
  }

  /** `getInterruptBlockForStmt` for the branch `current` of a function with graph `g`. */
  function InterruptBlockForStmt(g: Graph, stmtBlock: map<nat, nat>, current: Stmt): (r: Option<Block>)
    requires g.exit in g.blocks
    ensures r.Some? <==> (Frontier(g).Some? && FirstBlock(g, stmtBlock, current).Some?
      && exists b :: SoleCandidate(g, Frontier(g).value, current.node, FirstBlock(g, stmtBlock, current).value, b))
    ensures r.Some? ==> SoleCandidate(g, Frontier(g).value, current.node, FirstBlock(g, stmtBlock, current).value, r.value)
  {
    match Frontier(g)
    case None => None
    case Some(frontier) =>
      match FirstBlock(g, stmtBlock, current)
      case None => None
      case Some(first) =>
        ScanFrontierFinds(g, frontier, current.node, first);
        match ScanFrontier(g, current.node, first, frontier, None)
        case GaveUp => None
        case Found(pick) => if pick.Some? then Some(pick.value.block) else None
  }

  /** The block the search settles on lies outside the branch, can be reached from it, and is
      the exit, an only-return block or a block with a no-return call. */
  lemma {:induction false} SoleCandidateEscapes(g: Graph, frontier: set<nat>, current: Node, first: nat, b: Block)
    requires SoleCandidate(g, frontier, current, first, b)
    ensures IsOnlyInterruptionBlock(b, g)
    ensures !IsBlockInCurrentStmt(b.elements, current) && (first, b.id) in g.reachable
  {
    var o :| HasVerdict(g, frontier, current, first, o, Candidate) && PredAt(g, o).value == b;
  }
}
