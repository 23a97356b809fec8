/** Control-flow regions in SSA form with block arguments, and their runs. */
module Regions {

  datatype Value =
    | BlockArg(block: nat, idx: nat)
    | OpResult(block: nat, op: nat, idx: nat)
  {
    /** Position of the definition inside its block. */
    function Rank(): nat {
      if BlockArg? then 0 else op + 1
    }
  }

  datatype Op = Op(operands: seq<Value>, numResults: nat)

  datatype Edge = Edge(target: nat, operands: seq<Value>)

  /** A terminator with its own operands and its successors; only branch-like ones pass operands along their edges. */
  datatype Terminator = Terminator(branchLike: bool, operands: seq<Value>, edges: seq<Edge>)

  datatype Block = Block(numArgs: nat, ops: seq<Op>, term: Terminator)

  /** Block 0 is the entry. */
  type Region = seq<Block>

  // ----- structure -----

  predicate HasEdge(r: Region, p: nat, b: nat) {
    p < |r| && exists k | 0 <= k < |r[p].term.edges| :: r[p].term.edges[k].target == b
  }

  predicate OpUses(o: Op, v: Value) {
    v in o.operands
  }

  predicate TermUses(t: Terminator, v: Value) {
    v in t.operands || exists k | 0 <= k < |t.edges| :: v in t.edges[k].operands
  }

  /** Some operation of the block, its terminator included, has the value as an operand. */
  predicate Uses(b: Block, v: Value) {
    (exists k | 0 <= k < |b.ops| :: OpUses(b.ops[k], v)) || TermUses(b.term, v)
  }

  predicate Exists(r: Region, v: Value) {
    && v.block < |r|
    && match v
       case BlockArg(b, i) => i < r[b].numArgs
       case OpResult(b, o, i) => o < |r[b].ops| && i < r[b].ops[o].numResults
  }

  /** Every edge leads to a block and passes exactly as many operands as the block has arguments. */
  predicate WellFormed(r: Region) {
    forall b, k | 0 <= b < |r| && 0 <= k < |r[b].term.edges| ::
      var e := r[b].term.edges[k];
      e.target < |r| && |e.operands| == r[e.target].numArgs
  }

  /** All operands used in a block are defined in it. */
  ghost predicate IsMaximized(r: Region) {
    forall b, v | 0 <= b < |r| && Uses(r[b], v) :: v.block == b
  }

  // ----- dominance -----

  predicate IsPath(r: Region, path: seq<nat>) {
    && path != []
    && (forall i | 0 <= i < |path| :: path[i] < |r|)
    && forall i | 0 <= i < |path| - 1 :: HasEdge(r, path[i], path[i + 1])
  }

  /** `d` lies on every path from the entry to `b`. */
  ghost predicate Dominates(r: Region, d: nat, b: nat) {
    forall path | IsPath(r, path) && path[0] == 0 && path[|path| - 1] == b :: d in path
  }

  /** Values exist, and the block that defines a value dominates every block that uses it. */
  ghost predicate UsesDominated(r: Region) {
    forall b, v | 0 <= b < |r| && Uses(r[b], v) :: Exists(r, v) && Dominates(r, v.block, b)
  }

  // ----- runs -----

  /** The blocks a run visits and, between them, the positions of the edges it takes. */
  datatype Run = Run(blocks: seq<nat>, taken: seq<nat>)

  predicate IsRun(r: Region, run: Run) {
    && run.blocks != [] && |run.taken| == |run.blocks| - 1 && run.blocks[0] == 0
    && (forall t | 0 <= t < |run.blocks| :: run.blocks[t] < |r|)
    && forall t | 0 <= t < |run.taken| ::
         && run.taken[t] < |r[run.blocks[t]].term.edges|
         && r[run.blocks[t]].term.edges[run.taken[t]].target == run.blocks[t + 1]
  }

  /** What an operation computes: block, position, result, moment of the visit and operand values determine it. Letting the
      moment in covers memory, calls and any other effect. */
  type Semantics = (nat, nat, nat, nat, seq<int>) -> int

  type Inputs = nat -> int

  /** The value of `v` after the visit at moment `t`: the one from the latest visit to its block. */
  function ValueAt(r: Region, sem: Semantics, inputs: Inputs, run: Run, t: nat, v: Value): int
    requires IsRun(r, run) && t < |run.blocks|
    decreases t, v.Rank(), 0
  {
    if run.blocks[t] != v.block then if t == 0 then 0 else ValueAt(r, sem, inputs, run, t - 1, v)
    else
      match v
      case BlockArg(_, i) =>
        if t == 0 then inputs(i)
        else
          var passed := r[run.blocks[t - 1]].term.edges[run.taken[t - 1]].operands;
          if i < |passed| then ValueAt(r, sem, inputs, run, t - 1, passed[i]) else 0
      case OpResult(b, o, i) =>
        if o < |r[b].ops| then sem(b, o, i, t, Observed(r, sem, inputs, run, t, o)) else 0
  }

  /** The value an operation at position `o` of the block visited at moment `t` reads from an operand. */
  function OperandAt(r: Region, sem: Semantics, inputs: Inputs, run: Run, t: nat, o: nat, x: Value): int
    requires IsRun(r, run) && t < |run.blocks|
    decreases t, o, 1
  {
    if x.block != run.blocks[t] then if t == 0 then 0 else ValueAt(r, sem, inputs, run, t - 1, x)
    else if x.Rank() <= o then ValueAt(r, sem, inputs, run, t, x)
    else 0
  }

  function OperandsOf(b: Block, o: nat): seq<Value>
    requires o <= |b.ops|
  {
    if o < |b.ops| then b.ops[o].operands else b.term.operands
  }

  /** Operand values of the operation at position `o` of the block visited at moment `t`; the position past the last
      operation is the terminator's own operands, which decide the edge taken. */
  function Observed(r: Region, sem: Semantics, inputs: Inputs, run: Run, t: nat, o: nat): seq<int>
    requires IsRun(r, run) && t < |run.blocks| && o <= |r[run.blocks[t]].ops|
    decreases t, o, 2
  {
    var xs := OperandsOf(r[run.blocks[t]], o);
    seq(|xs|, k requires 0 <= k < |xs| => OperandAt(r, sem, inputs, run, t, o, xs[k]))
  }
}
