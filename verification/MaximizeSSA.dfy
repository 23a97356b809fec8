/** Conversion of a region to maximal SSA form: values cross block boundaries through block arguments only. */
module MaximizeSSA {
  import opened Basics
  import opened Regions

  // ----- what the conversion of one value does -----

  predicate UsedOutside(r: Region, v: Value, b: nat) {
    b < |r| && b != v.block && Uses(r[b], v)
  }

  /** A set of blocks that contains every block using the value and, with a block, all its predecessors up to the definition. */
  predicate IsClosed(r: Region, v: Value, s: set<nat>) {
    && (forall b | 0 <= b < |r| && UsedOutside(r, v, b) :: b in s)
    && (forall p, b | 0 <= p < |r| && b in s && HasEdge(r, p, b) && p != v.block :: p in s)
  }

  /** The least such set: the blocks that receive an argument. */
  ghost predicate IsClosure(r: Region, v: Value, u: set<nat>) {
    IsClosed(r, v, u) && v.block !in u && (forall b | b in u :: b < |r|) && forall s: set<nat> | IsClosed(r, v, s) :: u <= s
  }

  // ----- which blocks these are -----

  /** A way from a block to a use of the value that does not pass its definition. */
  predicate IsLivePath(r: Region, v: Value, path: seq<nat>) {
    IsPath(r, path) && v.block !in path && Uses(r[path[|path| - 1]], v)
  }

  ghost predicate IsLive(r: Region, v: Value, b: nat) {
    exists path :: IsLivePath(r, v, path) && path[0] == b
  }

  lemma LiveBefore(r: Region, v: Value, p: nat, b: nat)
    requires IsLive(r, v, b) && p < |r| && p != v.block && HasEdge(r, p, b)
    ensures IsLive(r, v, p)
  {
    var path :| IsLivePath(r, v, path) && path[0] == b;
    var longer := [p] + path;
    forall i | 0 <= i < |longer| - 1 ensures HasEdge(r, longer[i], longer[i + 1]) {
      if i > 0 {
        assert HasEdge(r, path[i - 1], path[i - 1 + 1]);
      }
    }
    assert longer[|longer| - 1] == path[|path| - 1];
    assert IsLivePath(r, v, longer);
  }

  lemma LiveIsClosed(r: Region, v: Value, s: set<nat>)
    requires forall b: nat :: b in s <==> b < |r| && b != v.block && IsLive(r, v, b)
    ensures IsClosed(r, v, s)
  {
    forall b | 0 <= b < |r| && UsedOutside(r, v, b) ensures b in s {
      assert IsLivePath(r, v, [b]);
    }
    forall p, b | 0 <= p < |r| && b in s && HasEdge(r, p, b) && p != v.block ensures p in s {
      LiveBefore(r, v, p, b);
    }
  }

  lemma {:induction false} ClosedHoldsLive(r: Region, v: Value, s: set<nat>, path: seq<nat>)
    requires IsClosed(r, v, s) && IsLivePath(r, v, path)
    ensures path[0] in s
    decreases |path|
  {
    if |path| > 1 {
      assert HasEdge(r, path[0], path[0 + 1]);
      var rest := path[1..];
      forall i | 0 <= i < |rest| - 1 ensures HasEdge(r, rest[i], rest[i + 1]) {
        assert HasEdge(r, path[i + 1], path[i + 1 + 1]);
      }
      ClosedHoldsLive(r, v, s, rest);
    } else {
      assert path[0] in path && UsedOutside(r, v, path[0]);
    }
  }

  /** The blocks that receive an argument are exactly those at whose entry the value is live. */
  lemma ClosureExactly(r: Region, v: Value, u: set<nat>, b: nat)
    requires IsClosure(r, v, u)
    ensures b in u <==> IsLive(r, v, b)
  {
    var s := set x: nat | x < |r| && x != v.block && IsLive(r, v, x);
    LiveIsClosed(r, v, s);
    if b in u {
      assert b in s;
    }
    if IsLive(r, v, b) {
      var path :| IsLivePath(r, v, path) && path[0] == b;
      ClosedHoldsLive(r, v, u, path);
    }
  }

  // ----- the converted region -----

  /** The value as seen from block `b`: itself where it is defined, the block's new argument elsewhere. */
  function SeenFrom(r: Region, v: Value, b: nat): Value
    requires b < |r|
  {
    if b == v.block then v else BlockArg(b, r[b].numArgs)
  }

  function Replace(r: Region, v: Value, b: nat, x: Value): Value
    requires b < |r|
  {
    if x == v then SeenFrom(r, v, b) else x
  }

  function ReplaceAll(r: Region, v: Value, b: nat, xs: seq<Value>): seq<Value>
    requires b < |r|
  {
    seq(|xs|, k requires 0 <= k < |xs| => Replace(r, v, b, xs[k]))
  }

  function MaxOp(r: Region, v: Value, b: nat, o: Op): Op
    requires b < |r|
  {
    Op(ReplaceAll(r, v, b, o.operands), o.numResults)
  }

  function MaxEdge(r: Region, v: Value, u: set<nat>, b: nat, e: Edge): Edge
    requires b < |r|
  {
    Edge(e.target, ReplaceAll(r, v, b, e.operands) + if e.target in u then [SeenFrom(r, v, b)] else [])
  }

  function MaxBlock(r: Region, v: Value, u: set<nat>, b: nat): Block
    requires b < |r|
  {
    var was := r[b];
    Block(
      was.numArgs + (if b in u then 1 else 0),
      seq(|was.ops|, k requires 0 <= k < |was.ops| => MaxOp(r, v, b, was.ops[k])),
      Terminator(
        was.term.branchLike,
        ReplaceAll(r, v, b, was.term.operands),
        seq(|was.term.edges|, k requires 0 <= k < |was.term.edges| => MaxEdge(r, v, u, b, was.term.edges[k]))))
  }

  /** The region in which the blocks of `u` receive the value as an additional argument. */
  function Maximized(r: Region, v: Value, u: set<nat>): Region {
    seq(|r|, b requires 0 <= b < |r| => MaxBlock(r, v, u, b))
  }

  // ----- the in-place conversion -----

  /** State in the middle of the worklist: blocks of `done` have their argument and are passed the value. */
  function Passing(r: Region, v: Value, done: set<nat>, b: nat): Block
    requires b < |r|
  {
    Block(r[b].numArgs + (if b in done then 1 else 0), r[b].ops, PassingTerm(r[b].term, v, done))
  }

  function PassingTerm(t: Terminator, v: Value, done: set<nat>): Terminator {
    t.(edges := seq(|t.edges|, k requires 0 <= k < |t.edges| =>
      Edge(t.edges[k].target, t.edges[k].operands + if t.edges[k].target in done then [v] else [])))
  }

  /** Passes the value along every edge of the terminator that leads to `succ`. */
  function AddToEdges(t: Terminator, succ: nat, v: Value): Terminator {
    t.(edges := seq(|t.edges|, k requires 0 <= k < |t.edges| =>
      if t.edges[k].target == succ then Edge(succ, t.edges[k].operands + [v]) else t.edges[k]))
  }

  lemma PassingStep(t: Terminator, v: Value, done: set<nat>, succ: nat)
    requires succ !in done
    ensures AddToEdges(PassingTerm(t, v, done), succ, v) == PassingTerm(t, v, done + {succ})
    ensures (forall k | 0 <= k < |t.edges| :: t.edges[k].target != succ) ==> PassingTerm(t, v, done) == PassingTerm(t, v, done + {succ})
  {
    var was, next := AddToEdges(PassingTerm(t, v, done), succ, v), PassingTerm(t, v, done + {succ});
    forall k | 0 <= k < |t.edges| ensures was.edges[k] == next.edges[k] {
      assert t.edges[k].operands + [] == t.edges[k].operands;
    }
    assert was.edges == next.edges;
    if forall k | 0 <= k < |t.edges| :: t.edges[k].target != succ {
      assert PassingTerm(t, v, done).edges == next.edges;
    }
  }

  function Rename(xs: seq<Value>, v: Value, w: Value): seq<Value> {
    seq(|xs|, k requires 0 <= k < |xs| => if xs[k] == v then w else xs[k])
  }

  /** Replaces every use of `v` in a block by `w`. */
  function RenameUses(b: Block, v: Value, w: Value): Block {
    Block(
      b.numArgs,
      seq(|b.ops|, k requires 0 <= k < |b.ops| => Op(Rename(b.ops[k].operands, v, w), b.ops[k].numResults)),
      Terminator(
        b.term.branchLike,
        Rename(b.term.operands, v, w),
        seq(|b.term.edges|, k requires 0 <= k < |b.term.edges| =>
          Edge(b.term.edges[k].target, Rename(b.term.edges[k].operands, v, w)))))
  }

  lemma RenamedIsMax(r: Region, v: Value, u: set<nat>, b: nat)
    requires b < |r| && b in u && v.block !in u
    ensures RenameUses(Passing(r, v, u, b), v, BlockArg(b, r[b].numArgs)) == MaxBlock(r, v, u, b)
  {
    var was, max := RenameUses(Passing(r, v, u, b), v, BlockArg(b, r[b].numArgs)), MaxBlock(r, v, u, b);
    forall k | 0 <= k < |r[b].ops| ensures was.ops[k] == max.ops[k] {
      assert was.ops[k].operands == max.ops[k].operands;
    }
    assert was.term.operands == max.term.operands;
    forall k | 0 <= k < |r[b].term.edges| ensures was.term.edges[k] == max.term.edges[k] {
      assert was.term.edges[k].operands == max.term.edges[k].operands;
    }
    assert was.ops == max.ops && was.term.edges == max.term.edges;
  }

  /** In the defining block, and in blocks the value never enters, nothing is renamed. */
  lemma UnrenamedIsMax(r: Region, v: Value, u: set<nat>, b: nat)
    requires b < |r| && b !in u && IsClosed(r, v, u)
    ensures Passing(r, v, u, b) == MaxBlock(r, v, u, b)
  {
    var was, max := Passing(r, v, u, b), MaxBlock(r, v, u, b);
    forall xs: seq<Value> | b == v.block || v !in xs ensures ReplaceAll(r, v, b, xs) == xs {
    }
    if b != v.block {
      assert !Uses(r[b], v);
      forall k | 0 <= k < |r[b].ops| ensures v !in r[b].ops[k].operands {
        assert !OpUses(r[b].ops[k], v);
      }
      forall k | 0 <= k < |r[b].term.edges| ensures r[b].term.edges[k].target !in u {
        assert HasEdge(r, b, r[b].term.edges[k].target);
      }
    }
    forall k | 0 <= k < |r[b].ops| ensures was.ops[k] == max.ops[k] {
      assert ReplaceAll(r, v, b, r[b].ops[k].operands) == r[b].ops[k].operands;
    }
    assert ReplaceAll(r, v, b, r[b].term.operands) == r[b].term.operands;
    forall k | 0 <= k < |r[b].term.edges| ensures was.term.edges[k] == max.term.edges[k] {
      assert ReplaceAll(r, v, b, r[b].term.edges[k].operands) == r[b].term.edges[k].operands;
    }
    assert was.ops == max.ops && was.term.edges == max.term.edges;
  }

  /** Every predecessor of a block that receives an argument can pass one. */
  predicate CanPass(r: Region, u: set<nat>) {
    forall p, b | 0 <= p < |r| && b in u && HasEdge(r, p, b) :: r[p].term.branchLike
  }

  class Converter {
    var blocks: Region

    constructor (r: Region)
      ensures blocks == r
    {
      blocks := r;
    }

    /** Fails if the predecessor's terminator is not branch-like. */
    method AddArgToTerminator(succBlock: nat, predBlock: nat, value: Value) returns (ok: bool)
      requires predBlock < |blocks|
      modifies this
      ensures ok == old(blocks)[predBlock].term.branchLike
      ensures blocks == if ok then old(blocks)[predBlock := old(blocks)[predBlock].(
                                     term := AddToEdges(old(blocks)[predBlock].term, succBlock, value))]
                        else old(blocks)
    {
      var b := blocks[predBlock];
      if !b.term.branchLike {
        return false;
      }
      var edges := b.term.edges;
      for idx := 0 to |edges|
        invariant |edges| == |b.term.edges|
        invariant forall k | 0 <= k < |edges| ::
                    edges[k] == if k < idx && b.term.edges[k].target == succBlock
                                then Edge(succBlock, b.term.edges[k].operands + [value]) else b.term.edges[k]
      {
        if edges[idx].target == succBlock {
          edges := edges[idx := Edge(succBlock, edges[idx].operands + [value])];
        }
      }
      blocks := blocks[predBlock := b.(term := b.term.(edges := edges))];
      assert edges == AddToEdges(b.term, succBlock, value).edges;
      return true;
    }

    /** Passes the value to `block` from each of its predecessors, finding more blocks to visit. */
    method PassFromPredecessors(ghost r: Region, value: Value, block: nat, found: set<nat>, toVisit: seq<nat>, ghost done: set<nat>)
      returns (ok: bool, newFound: set<nat>, newToVisit: seq<nat>)
      requires |r| == |blocks| && forall b | 0 <= b < |r| :: blocks[b] == MidBlock(r, value, done, block, 0, b)
      requires WorklistMid(r, value, found, toVisit, done, block, 0)
      modifies this
      ensures ok ==> |blocks| == |r| && forall b | 0 <= b < |r| :: blocks[b] == Passing(r, value, done + {block}, b)
      ensures ok ==> WorklistMid(r, value, newFound, newToVisit, done, block, |r|)
      ensures ok ==> forall q | 0 <= q < |r| && HasEdge(r, q, block) :: r[q].term.branchLike
      ensures !ok ==> forall s: set<nat> | IsClosed(r, value, s) :: !CanPass(r, s)
    {
      newFound, newToVisit := found, toVisit;
      var n := |blocks|;
      for p := 0 to n
        invariant |blocks| == n
        invariant forall b | 0 <= b < n :: blocks[b] == MidBlock(r, value, done, block, p, b)
        invariant WorklistMid(r, value, newFound, newToVisit, done, block, p)
        invariant forall q | 0 <= q < p && HasEdge(r, q, block) :: r[q].term.branchLike
      {
        ghost var before := blocks;
        WorklistStep(r, value, newFound, newToVisit, done, block, p);
        MidAdvance(r, value, done, block, p, before);
        var isPredecessor := HasEdge(blocks, p, block);
        if isPredecessor {
          ok := AddArgToTerminator(block, p, value);
          if !ok {
            NoSetCanPass(r, value, newFound, newToVisit, done, block, p);
            return;
          }
          if p != value.block && p !in newFound {
            newFound := newFound + {p};
            newToVisit := newToVisit + [p];
          }
        }
      }
      ok := true;
    }

    /** Converts one value. `u` are the blocks that receive an argument. */
    method MaximizeValue(value: Value) returns (ok: bool, ghost u: set<nat>)
      modifies this
      ensures ok ==> IsClosure(old(blocks), value, u) && CanPass(old(blocks), u) && blocks == Maximized(old(blocks), value, u)
      ensures !ok ==> forall s: set<nat> | IsClosed(old(blocks), value, s) :: !CanPass(old(blocks), s)
    {
      ghost var r := blocks;
      var n := |blocks|;
      var blocksUsing, blocksToVisit := BlocksUsing(blocks, value);
      var blockToArg: map<nat, nat> := map[];
      ghost var done: set<nat> := {};
      forall b | 0 <= b < n ensures blocks[b] == Passing(r, value, done, b) {
        PassingNothing(r, value, b);
      }
      while blocksToVisit != []
        invariant |blocks| == n
        invariant forall b | 0 <= b < n :: blocks[b] == Passing(r, value, done, b)
        invariant WorklistOk(r, value, blocksUsing, blocksToVisit, done)
        invariant blockToArg.Keys == done && forall b | b in done :: blockToArg[b] == r[b].numArgs
        invariant CanPass(r, done)
        decreases Ids(n) - done
      {
        var block := blocksToVisit[|blocksToVisit| - 1];
        PopStep(r, value, blocksUsing, blocksToVisit, done);
        blocksToVisit := blocksToVisit[..|blocksToVisit| - 1];
        // Add an argument to hold the value
        blockToArg := blockToArg[block := blocks[block].numArgs];
        blocks := blocks[block := blocks[block].(numArgs := blocks[block].numArgs + 1)];
        ok, blocksUsing, blocksToVisit := PassFromPredecessors(r, value, block, blocksUsing, blocksToVisit, done);
        if !ok {
          u := done;
          return;
        }
        done := done + {block};
      }
      u := done;
      assert IsClosure(r, value, u);
      ReplaceByArguments(r, value, blockToArg, u);
      ok := true;
    }

    /** Replaces all uses outside the defining block by the new arguments. */
    method ReplaceByArguments(ghost r: Region, value: Value, blockToArg: map<nat, nat>, ghost u: set<nat>)
      requires |r| == |blocks| && forall b | 0 <= b < |r| :: blocks[b] == Passing(r, value, u, b)
      requires IsClosure(r, value, u)
      requires blockToArg.Keys == u && forall b | b in u :: blockToArg[b] == r[b].numArgs
      modifies this
      ensures blocks == Maximized(r, value, u)
    {
      var n := |blocks|;
      for b := 0 to n
        invariant |blocks| == n
        invariant forall c | 0 <= c < n :: blocks[c] == if c < b then MaxBlock(r, value, u, c) else Passing(r, value, u, c)
      {
        if b in blockToArg {
          RenamedIsMax(r, value, u, b);
          blocks := blocks[b := RenameUses(blocks[b], value, BlockArg(b, blockToArg[b]))];
        } else {
          UnrenamedIsMax(r, value, u, b);
        }
      }
    }
  }

  /** The blocks other than the defining one in which the value is used, as a set and as a stack. */
  method BlocksUsing(r: Region, value: Value) returns (found: set<nat>, toVisit: seq<nat>)
    ensures WorklistOk(r, value, found, toVisit, {})
  {
    found, toVisit := {}, [];
    for b := 0 to |r|
      invariant found == (set c | c in toVisit)
      invariant forall c | c in found :: c < b && UsedOutside(r, value, c)
      invariant forall c | 0 <= c < b && UsedOutside(r, value, c) :: c in found
      invariant forall i, j | 0 <= i < j < |toVisit| :: toVisit[i] != toVisit[j]
    {
      if UsedOutside(r, value, b) {
        assert forall c :: c in toVisit + [b] <==> c in toVisit || c == b;
        found, toVisit := found + {b}, toVisit + [b];
      }
    }
  }

  /** Handling block `p`: its edges to the block are the original's, and passing the value along them is what is left to do. */
  lemma MidAdvance(r: Region, v: Value, done: set<nat>, block: nat, p: nat, before: Region)
    requires |before| == |r| && p < |r| && block !in done
    requires forall b | 0 <= b < |r| :: before[b] == MidBlock(r, v, done, block, p, b)
    ensures HasEdge(before, p, block) == HasEdge(r, p, block) && before[p].term.branchLike == r[p].term.branchLike
    ensures var after := if HasEdge(r, p, block) then before[p := before[p].(term := AddToEdges(before[p].term, block, v))] else before;
            forall b | 0 <= b < |r| :: after[b] == MidBlock(r, v, done, block, p + 1, b)
  {
    PassingStep(r[p].term, v, done, block);
    SameTargets(r[p].term, v, done);
    SameEdge(before, r, p, block);
  }

  /** Every admissible set of receivers has the block, whose predecessor cannot pass the value. */
  lemma NoSetCanPass(r: Region, v: Value, found: set<nat>, toVisit: seq<nat>, done: set<nat>, block: nat, p: nat)
    requires WorklistMid(r, v, found, toVisit, done, block, p) && p < |r| && HasEdge(r, p, block) && !r[p].term.branchLike
    ensures forall s: set<nat> | IsClosed(r, v, s) :: !CanPass(r, s)
  {
    forall s: set<nat> | IsClosed(r, v, s) ensures !CanPass(r, s) {
      assert block in s && HasEdge(r, p, block);
    }
  }

  /** A predecessor that still needs an argument joins the worklist; any other leaves it as it is. */
  lemma WorklistStep(r: Region, v: Value, found: set<nat>, toVisit: seq<nat>, done: set<nat>, block: nat, p: nat)
    requires WorklistMid(r, v, found, toVisit, done, block, p) && p < |r|
    ensures HasEdge(r, p, block) && p != v.block && p !in found ==>
              WorklistMid(r, v, found + {p}, toVisit + [p], done, block, p + 1)
    ensures !(HasEdge(r, p, block) && p != v.block && p !in found) ==> WorklistMid(r, v, found, toVisit, done, block, p + 1)
  {
    if HasEdge(r, p, block) && p != v.block && p !in found {
      assert forall b :: b in toVisit + [p] <==> b in toVisit || b == p;
    }
  }

  lemma PassingNothing(r: Region, v: Value, b: nat)
    requires b < |r|
    ensures Passing(r, v, {}, b) == r[b]
  {
    forall k | 0 <= k < |r[b].term.edges| ensures PassingTerm(r[b].term, v, {}).edges[k] == r[b].term.edges[k] {
      assert r[b].term.edges[k].operands + [] == r[b].term.edges[k].operands;
    }
    assert PassingTerm(r[b].term, v, {}).edges == r[b].term.edges;
  }

  lemma SameTargets(t: Terminator, v: Value, done: set<nat>)
    ensures |PassingTerm(t, v, done).edges| == |t.edges|
    ensures forall k | 0 <= k < |t.edges| :: PassingTerm(t, v, done).edges[k].target == t.edges[k].target
  {
  }

  lemma SameEdge(r1: Region, r2: Region, p: nat, b: nat)
    requires p < |r1| && p < |r2| && |r1[p].term.edges| == |r2[p].term.edges|
    requires forall k | 0 <= k < |r1[p].term.edges| :: r1[p].term.edges[k].target == r2[p].term.edges[k].target
    ensures HasEdge(r1, p, b) == HasEdge(r2, p, b)
  {
  }

  lemma PopStep(r: Region, v: Value, found: set<nat>, toVisit: seq<nat>, done: set<nat>)
    requires WorklistOk(r, v, found, toVisit, done) && toVisit != []
    ensures WorklistMid(r, v, found, toVisit[..|toVisit| - 1], done, toVisit[|toVisit| - 1], 0)
  {
    var last, rest := toVisit[|toVisit| - 1], toVisit[..|toVisit| - 1];
    assert toVisit == rest + [last];
  }

  /** The region while the predecessors of `block` before `p` have been handled. */
  function MidBlock(r: Region, v: Value, done: set<nat>, block: nat, p: nat, b: nat): Block
    requires b < |r|
  {
    Block(r[b].numArgs + (if b in done + {block} then 1 else 0), r[b].ops,
          PassingTerm(r[b].term, v, if b < p then done + {block} else done))
  }

  /** Blocks to visit are those found but not yet done; every block found is forced to receive an argument. */
  ghost predicate WorklistOk(r: Region, v: Value, found: set<nat>, toVisit: seq<nat>, done: set<nat>) {
    && (forall b | b in toVisit :: b !in done)
    && found == done + (set b | b in toVisit)
    && (forall i, j | 0 <= i < j < |toVisit| :: toVisit[i] != toVisit[j])
    && (forall b | b in found :: b < |r|) && v.block !in found
    && (forall b | 0 <= b < |r| && UsedOutside(r, v, b) :: b in found)
    && (forall p, b | 0 <= p < |r| && b in done && HasEdge(r, p, b) && p != v.block :: p in found)
    && forall s: set<nat> | IsClosed(r, v, s) :: found <= s
  }

  ghost predicate WorklistMid(r: Region, v: Value, found: set<nat>, toVisit: seq<nat>, done: set<nat>, block: nat, p: nat) {
    && block in found && block !in done && block !in toVisit
    && (forall b | b in toVisit :: b !in done)
    && found == done + {block} + (set b | b in toVisit)
    && (forall i, j | 0 <= i < j < |toVisit| :: toVisit[i] != toVisit[j])
    && (forall b | b in found :: b < |r|) && v.block !in found
    && (forall b | 0 <= b < |r| && UsedOutside(r, v, b) :: b in found)
    && (forall q, b | 0 <= q < |r| && b in done && HasEdge(r, q, b) && q != v.block :: q in found)
    && (forall q | 0 <= q < p && q < |r| && HasEdge(r, q, block) && q != v.block :: q in found)
    && forall s: set<nat> | IsClosed(r, v, s) :: found <= s
  }
}
