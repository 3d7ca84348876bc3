/** The control-flow graph of one function body, as Clang's CFG builder produces it. */
module Cfg {
  import opened Base
  import opened Ast

  /** A CFG element: a statement, or anything else the builder emits (implicit destructor
      calls, scope markers, ...). */
  datatype Element = StmtElement(stmt: Node) | OtherElement

  /** A basic block: its elements in order, predecessor and successor lists (`None` is an
      edge Clang pruned as unreachable) and whether it holds a no-return call. */
  datatype Block = Block(
    id: nat,
    elements: seq<Element>,
    preds: seq<Option<nat>>,
    succs: seq<Option<nat>>,
    noReturn: bool)

  /** The blocks by id, the id of the exit block, and which blocks can reach which
      (`CFGReverseBlockReachabilityAnalysis::isReachable(from, to)`). */
  datatype Graph = Graph(blocks: map<nat, Block>, exit: nat, reachable: set<(nat, nat)>) {

    /** Each block is filed under its own id, as `CFG::begin()`..`end()` indexes them. */
    predicate Valid() {
      forall k :: k in blocks ==> blocks[k].id == k
    }

    /** The block an adjacency entry points to; `None` for a pruned or dangling edge. */
    function BlockOf(ref: Option<nat>): (b: Option<Block>)
      ensures b.Some? <==> ref.Some? && ref.value in blocks
      ensures b.Some? ==> b.value == blocks[ref.value]
      ensures Valid() && b.Some? ==> b.value.id == ref.value
    {
      if ref.Some? && ref.value in blocks then Some(blocks[ref.value]) else None
    }

    predicate Reaches(from: Block, to: Block) {
      (from.id, to.id) in reachable
    }
  }
}
