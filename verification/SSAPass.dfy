/** SSA maximization of operations, blocks and whole regions under a strategy. */
module SSAPass {
  import opened Basics
  import opened Regions
  import opened MaximizeSSA
  import opened SSASimulation

  /** Which entities are put into maximal SSA form. */
  datatype Strategy = Strategy(
    maximizeBlock: nat -> bool,
    maximizeArgument: (nat, nat) -> bool,
    maximizeOp: (nat, nat) -> bool,
    maximizeResult: (nat, nat, nat) -> bool)
  {
    predicate Selects(v: Value) {
      maximizeBlock(v.block) && SelectsInBlock(v)
    }

    /** The same, in a block that is selected. */
    predicate SelectsInBlock(v: Value) {
      match v
      case BlockArg(b, i) => maximizeArgument(b, i)
      case OpResult(b, o, i) => maximizeOp(b, o) && maximizeResult(b, o, i)
    }
  }

  // ----- what the passes keep -----

  /** Both regions have the same runs, and in each run every operation reads the same operand values. */
  predicate SameRun(r: Region, m: Region, sem: Semantics, inputs: Inputs, run: Run) {
    && IsRun(m, run) == IsRun(r, run)
    && (IsRun(r, run) ==>
          forall t, o: nat | 0 <= t < |run.blocks| && run.blocks[t] < |m| && run.blocks[t] < |r|
                             && o <= |r[run.blocks[t]].ops| && o <= |m[run.blocks[t]].ops| ::
            Observed(m, sem, inputs, run, t, o) == Observed(r, sem, inputs, run, t, o))
  }

  /** Same blocks with as many operations, and no run can tell the regions apart. */
  ghost predicate Equivalent(r: Region, m: Region) {
    && |m| == |r|
    && (forall b | 0 <= b < |r| :: |m[b].ops| == |r[b].ops|)
    && forall sem: Semantics, inputs: Inputs, run: Run :: SameRun(r, m, sem, inputs, run)
  }

  /** All uses of the value are in its own block. */
  ghost predicate Local(r: Region, v: Value) {
    forall b | 0 <= b < |r| && Uses(r[b], v) :: b == v.block
  }

  predicate AllBranchLike(r: Region) {
    forall b | 0 <= b < |r| :: r[b].term.edges != [] ==> r[b].term.branchLike
  }

  ghost predicate Valid(r: Region) {
    WellFormed(r) && UsesDominated(r)
  }

  /** What any number of conversions keep: validity, every run, what is already local; and only local values are added. */
  ghost predicate Refines(r: Region, m: Region) {
    && Valid(m) && Equivalent(r, m)
    && (forall v | Exists(r, v) :: Exists(m, v))
    && (forall v | Local(r, v) :: Local(m, v))
    && (forall v | !Exists(r, v) :: Local(m, v))
    && (AllBranchLike(r) ==> AllBranchLike(m))
  }

  lemma RefinesSelf(r: Region)
    requires Valid(r)
    ensures Refines(r, r)
  {
  }

  lemma EquivalentTransitive(r: Region, m: Region, n: Region)
    requires Equivalent(r, m) && Equivalent(m, n)
    ensures Equivalent(r, n)
  {
    forall sem: Semantics, inputs: Inputs, run: Run ensures SameRun(r, n, sem, inputs, run) {
      assert SameRun(r, m, sem, inputs, run) && SameRun(m, n, sem, inputs, run);
    }
  }

  lemma RefinesTransitive(r: Region, m: Region, n: Region)
    requires Refines(r, m) && Refines(m, n)
    ensures Refines(r, n)
  {
    EquivalentTransitive(r, m, n);
  }

  // ----- one value -----

  /** The only uses after converting `v`: `v` in its own block, new arguments in theirs, other values where they were. */
  lemma UsesOfMaximized(r: Region, v: Value, u: set<nat>, b: nat, y: Value)
    requires b < |r| && IsClosure(r, v, u) && Uses(Maximized(r, v, u)[b], y)
    ensures (y == v && b == v.block) || (b in u && y == BlockArg(b, r[b].numArgs)) || (y != v && Uses(r[b], y))
  {
    var mb := Maximized(r, v, u)[b];
    if k :| 0 <= k < |mb.ops| && OpUses(mb.ops[k], y) {
      ReplacedUse(r, v, u, b, r[b].ops[k].operands, y);
      assert forall x | x in r[b].ops[k].operands :: OpUses(r[b].ops[k], x);
    } else if y in mb.term.operands {
      ReplacedUse(r, v, u, b, r[b].term.operands, y);
    } else {
      var k :| 0 <= k < |mb.term.edges| && y in mb.term.edges[k].operands;
      var e := r[b].term.edges[k];
      EdgesOfMaximized(r, v, u, b, k);
      if y in ReplaceAll(r, v, b, e.operands) {
        ReplacedUse(r, v, u, b, e.operands, y);
      } else {
        assert y == SeenFrom(r, v, b) && e.target in u && HasEdge(r, b, e.target);
      }
    }
  }

  lemma ReplacedUse(r: Region, v: Value, u: set<nat>, b: nat, xs: seq<Value>, y: Value)
    requires b < |r| && IsClosure(r, v, u) && y in ReplaceAll(r, v, b, xs)
    requires forall x | x in xs :: Uses(r[b], x)
    ensures (y == v && b == v.block) || (b in u && y == BlockArg(b, r[b].numArgs)) || (y != v && Uses(r[b], y))
  {
    var k :| 0 <= k < |xs| && y == Replace(r, v, b, xs[k]);
    if xs[k] == v && b != v.block {
      assert UsedOutside(r, v, b);
    }
  }

  lemma SamePaths(r: Region, v: Value, u: set<nat>, path: seq<nat>)
    ensures IsPath(Maximized(r, v, u), path) == IsPath(r, path)
  {
    var m := Maximized(r, v, u);
    forall p, b | 0 <= p < |r| ensures HasEdge(m, p, b) == HasEdge(r, p, b) {
      SameEdge(m, r, p, b);
    }
  }

  lemma SameDominance(r: Region, v: Value, u: set<nat>, d: nat, b: nat)
    requires Dominates(r, d, b)
    ensures Dominates(Maximized(r, v, u), d, b)
  {
    forall path | IsPath(Maximized(r, v, u), path) && path[0] == 0 && path[|path| - 1] == b ensures d in path {
      SamePaths(r, v, u, path);
    }
  }

  lemma StillExists(r: Region, v: Value, u: set<nat>, x: Value)
    requires Exists(r, x)
    ensures Exists(Maximized(r, v, u), x)
  {
  }

  lemma MaximizedUsesDominated(r: Region, v: Value, u: set<nat>, b: nat, y: Value)
    requires Valid(r) && IsClosure(r, v, u) && Exists(r, v) && b < |r| && Uses(Maximized(r, v, u)[b], y)
    ensures Exists(Maximized(r, v, u), y) && Dominates(Maximized(r, v, u), y.block, b)
  {
    UsesOfMaximized(r, v, u, b, y);
    if y != v && Uses(r[b], y) {
      StillExists(r, v, u, y);
      SameDominance(r, v, u, y.block, b);
    } else {
      StillExists(r, v, u, v);
    }
  }

  lemma MaximizedValid(r: Region, v: Value, u: set<nat>)
    requires Valid(r) && IsClosure(r, v, u) && Exists(r, v)
    ensures Valid(Maximized(r, v, u))
  {
    MaximizedWellFormed(r, v, u);
    MaximizedAllUsesDominated(r, v, u, Maximized(r, v, u));
  }

  ghost predicate IsDominated(m: Region, b: nat, y: Value) {
    Exists(m, y) && Dominates(m, y.block, b)
  }

  lemma AllDominated(m: Region)
    requires forall b: nat, y | b < |m| && Uses(m[b], y) :: IsDominated(m, b, y)
    ensures UsesDominated(m)
  {
  }

  lemma MaximizedAllUsesDominated(r: Region, v: Value, u: set<nat>, m: Region)
    requires Valid(r) && IsClosure(r, v, u) && Exists(r, v) && m == Maximized(r, v, u)
    ensures UsesDominated(m)
  {
    forall b: nat, y | b < |m| && Uses(m[b], y) ensures IsDominated(m, b, y) {
      MaximizedUsesDominated(r, v, u, b, y);
    }
    AllDominated(m);
  }

  lemma MaximizedEquivalent(r: Region, v: Value, u: set<nat>)
    requires Valid(r) && IsClosure(r, v, u) && Exists(r, v)
    ensures Equivalent(r, Maximized(r, v, u))
  {
    var m := Maximized(r, v, u);
    ClosureBelow(r, v, u);
    forall sem: Semantics, inputs: Inputs, run: Run ensures SameRun(r, m, sem, inputs, run) {
      SameRuns(r, v, u, run);
      if IsRun(r, run) {
        forall t, o: nat | 0 <= t < |run.blocks| && o <= |r[run.blocks[t]].ops|
          ensures Observed(m, sem, inputs, run, t, o) == Observed(r, sem, inputs, run, t, o)
        {
          OperandsSame(r, v, u, sem, inputs, run, t, o);
        }
      }
    }
  }

  lemma MaximizedRefines(r: Region, v: Value, u: set<nat>)
    requires Valid(r) && IsClosure(r, v, u) && Exists(r, v)
    ensures Refines(r, Maximized(r, v, u)) && Local(Maximized(r, v, u), v)
  {
    var m := Maximized(r, v, u);
    MaximizedValid(r, v, u);
    MaximizedEquivalent(r, v, u);
    forall y, b | 0 <= b < |m| && Uses(m[b], y) && (y == v || Local(r, y) || !Exists(r, y)) ensures b == y.block {
      UsesOfMaximized(r, v, u, b, y);
    }
  }

  lemma ClosedSetExists(r: Region, v: Value)
    ensures IsClosed(r, v, Ids(|r|))
  {
  }

  // ----- a series of conversions -----

  /** One conversion: the value and the blocks that received an argument for it. */
  datatype Conversion = Conversion(value: Value, receivers: set<nat>)

  ghost function Apply(r: Region, cs: seq<Conversion>): Region {
    if cs == [] then r
    else
      var last := cs[|cs| - 1];
      Maximized(Apply(r, cs[..|cs| - 1]), last.value, last.receivers)
  }

  ghost predicate Conversions(r: Region, cs: seq<Conversion>) {
    cs == [] ||
    var before, last := Apply(r, cs[..|cs| - 1]), cs[|cs| - 1];
    Conversions(r, cs[..|cs| - 1]) && IsClosure(before, last.value, last.receivers) && Exists(before, last.value)
  }

  predicate Converted(cs: seq<Conversion>, v: Value) {
    exists k | 0 <= k < |cs| :: cs[k].value == v
  }

  /** Blocks only gain arguments. */
  predicate Grows(r: Region, m: Region) {
    && |m| == |r|
    && forall b | 0 <= b < |r| ::
         && r[b].numArgs <= m[b].numArgs && |m[b].ops| == |r[b].ops|
         && forall o | 0 <= o < |r[b].ops| :: m[b].ops[o].numResults == r[b].ops[o].numResults
  }

  lemma RefinesKeepsLocal(r: Region, m: Region, v: Value)
    requires Refines(r, m) && Local(r, v)
    ensures Local(m, v)
  {
  }

  lemma ConvertedBefore(cs: seq<Conversion>, v: Value)
    requires Converted(cs, v) && cs[|cs| - 1].value != v
    ensures Converted(cs[..|cs| - 1], v)
  {
    var k :| 0 <= k < |cs| && cs[k].value == v;
    assert cs[..|cs| - 1][k].value == v;
  }

  /** Any series of conversions refines the region it started from. */
  lemma {:induction false} ConversionsRefine(r: Region, cs: seq<Conversion>)
    requires Valid(r) && Conversions(r, cs)
    ensures Refines(r, Apply(r, cs))
  {
    if cs == [] {
      RefinesSelf(r);
    } else {
      var before, last := Apply(r, cs[..|cs| - 1]), cs[|cs| - 1];
      ConversionsRefine(r, cs[..|cs| - 1]);
      LastRefines(r, before, last);
    }
  }

  lemma LastRefines(r: Region, before: Region, last: Conversion)
    requires Refines(r, before) && IsClosure(before, last.value, last.receivers) && Exists(before, last.value)
    ensures Refines(r, Maximized(before, last.value, last.receivers))
  {
    MaximizedRefines(before, last.value, last.receivers);
    RefinesTransitive(r, before, Maximized(before, last.value, last.receivers));
  }

  /** Every value converted on the way ends up local, whatever is converted after it. */
  lemma {:induction false} ConvertedIsLocal(r: Region, cs: seq<Conversion>, v: Value)
    requires Valid(r) && Conversions(r, cs) && Converted(cs, v)
    ensures Local(Apply(r, cs), v)
  {
    var init, last := cs[..|cs| - 1], cs[|cs| - 1];
    var before := Apply(r, init);
    ConversionsRefine(r, init);
    ValidOfRefines(r, before);
    MaximizedRefines(before, last.value, last.receivers);
    if v != last.value {
      ConvertedBefore(cs, v);
      ConvertedIsLocal(r, init, v);
      RefinesKeepsLocal(before, Apply(r, cs), v);
    }
  }

  lemma ValidOfRefines(r: Region, m: Region)
    requires Refines(r, m)
    ensures Valid(m)
  {
  }

  // ----- what conversions leave alone -----

  /** The same positions hold the value. */
  predicate SameHolds(xs: seq<Value>, ys: seq<Value>, v: Value) {
    |ys| == |xs| && forall i | 0 <= i < |xs| :: xs[i] == v <==> ys[i] == v
  }

  /** An edge may pass more, but not the value. */
  predicate SamePasses(e: Edge, f: Edge, v: Value) {
    f.target == e.target && |e.operands| <= |f.operands| && SameHolds(e.operands, f.operands[..|e.operands|], v) && v !in f.operands[|e.operands|..]
  }

  predicate SameBlockUses(b: Block, m: Block, v: Value) {
    && |m.ops| == |b.ops| && (forall o | 0 <= o < |b.ops| :: SameHolds(b.ops[o].operands, m.ops[o].operands, v))
    && SameHolds(b.term.operands, m.term.operands, v)
    && |m.term.edges| == |b.term.edges| && forall k | 0 <= k < |b.term.edges| :: SamePasses(b.term.edges[k], m.term.edges[k], v)
  }

  /** The value is an operand exactly where it was. */
  predicate SameUses(r: Region, m: Region, v: Value) {
    |m| == |r| && forall b | 0 <= b < |r| :: SameBlockUses(r[b], m[b], v)
  }

  lemma ReplacedHolds(r: Region, w: Value, b: nat, xs: seq<Value>, v: Value)
    requires b < |r| && Exists(r, v) && v != w
    ensures SameHolds(xs, ReplaceAll(r, w, b, xs), v)
  {
  }

  lemma MaximizedPasses(r: Region, w: Value, u: set<nat>, b: nat, k: nat, v: Value)
    requires b < |r| && k < |r[b].term.edges| && Exists(r, v) && v != w
    ensures SamePasses(r[b].term.edges[k], Maximized(r, w, u)[b].term.edges[k], v)
  {
    var e, f := r[b].term.edges[k], Maximized(r, w, u)[b].term.edges[k];
    ReplacedHolds(r, w, b, e.operands, v);
    assert f.operands[..|e.operands|] == ReplaceAll(r, w, b, e.operands);
    assert f.operands[|e.operands|..] == if e.target in u then [SeenFrom(r, w, b)] else [];
  }

  lemma MaximizedSameUses(r: Region, w: Value, u: set<nat>, v: Value)
    requires Exists(r, v) && v != w
    ensures SameUses(r, Maximized(r, w, u), v)
  {
    var m := Maximized(r, w, u);
    forall b: nat | b < |r| ensures SameBlockUses(r[b], m[b], v) {
      forall o | 0 <= o < |r[b].ops| ensures SameHolds(r[b].ops[o].operands, m[b].ops[o].operands, v) {
        ReplacedHolds(r, w, b, r[b].ops[o].operands, v);
      }
      ReplacedHolds(r, w, b, r[b].term.operands, v);
      forall k: nat | k < |r[b].term.edges| ensures SamePasses(r[b].term.edges[k], m[b].term.edges[k], v) {
        MaximizedPasses(r, w, u, b, k, v);
      }
    }
  }

  lemma PassesTransitive(e: Edge, f: Edge, g: Edge, v: Value)
    requires SamePasses(e, f, v) && SamePasses(f, g, v)
    ensures SamePasses(e, g, v)
  {
    var n, k := |e.operands|, |f.operands|;
    forall i | 0 <= i < n ensures e.operands[i] == v <==> g.operands[i] == v {
      assert f.operands[..n][i] == f.operands[i] && g.operands[..k][i] == g.operands[i];
    }
    assert g.operands[..n] == g.operands[..k][..n];
    forall i | n <= i < |g.operands| ensures g.operands[i] != v {
      if i < k {
        assert f.operands[n..][i - n] == f.operands[i] && g.operands[..k][i] == g.operands[i];
      } else {
        assert g.operands[k..][i - k] == g.operands[i];
      }
    }
  }

  lemma SameUsesTransitive(r: Region, m: Region, n: Region, v: Value)
    requires SameUses(r, m, v) && SameUses(m, n, v)
    ensures SameUses(r, n, v)
  {
    forall b: nat | b < |r| ensures SameBlockUses(r[b], n[b], v) {
      assert SameBlockUses(r[b], m[b], v) && SameBlockUses(m[b], n[b], v);
      forall k: nat | k < |r[b].term.edges| ensures SamePasses(r[b].term.edges[k], n[b].term.edges[k], v) {
        PassesTransitive(r[b].term.edges[k], m[b].term.edges[k], n[b].term.edges[k], v);
      }
    }
  }

  /** A value that is not converted keeps exactly its uses, whatever else is. */
  lemma {:induction false} UnconvertedSameUses(r: Region, cs: seq<Conversion>, v: Value)
    requires Valid(r) && Conversions(r, cs) && Exists(r, v) && !Converted(cs, v)
    ensures SameUses(r, Apply(r, cs), v)
  {
    if cs != [] {
      var init, last := cs[..|cs| - 1], cs[|cs| - 1];
      ConvertedMore(init, cs);
      assert last.value != v;
      UnconvertedSameUses(r, init, v);
      ConversionsRefine(r, init);
      assert Exists(Apply(r, init), v);
      MaximizedSameUses(Apply(r, init), last.value, last.receivers, v);
      SameUsesTransitive(r, Apply(r, init), Apply(r, cs), v);
    }
  }

  /** How many conversions give a block an argument. */
  function Received(cs: seq<Conversion>, b: nat): nat {
    if cs == [] then 0 else Received(cs[..|cs| - 1], b) + if b in cs[|cs| - 1].receivers then 1 else 0
  }

  lemma {:induction false} ArgumentsCount(r: Region, cs: seq<Conversion>, b: nat)
    requires b < |r|
    ensures |Apply(r, cs)| == |r| && Apply(r, cs)[b].numArgs == r[b].numArgs + Received(cs, b)
  {
    if cs != [] {
      ArgumentsCount(r, cs[..|cs| - 1], b);
    }
  }

  /** The region is obtained by passing selected values on, each through the least set of blocks, and blocks have one new argument
      for each value passed to them. */
  ghost predicate Threads(r: Region, m: Region, strategy: Strategy, cs: seq<Conversion>) {
    && Conversions(r, cs) && m == Apply(r, cs) && OnlySelected(strategy, cs)
    && forall b: nat | b < |r| && b < |m| :: m[b].numArgs == r[b].numArgs + Received(cs, b)
  }

  // ----- operations, blocks, regions -----

  /** What is converted after the first conversions. */
  ghost predicate NewAre(cs: seq<Conversion>, more: seq<Conversion>, p: Value -> bool) {
    forall k | |cs| <= k < |more| :: p(more[k].value)
  }

  lemma NewWeaker(cs: seq<Conversion>, more: seq<Conversion>, p: Value -> bool, q: Value -> bool)
    requires NewAre(cs, more, p) && forall v | p(v) :: q(v)
    ensures NewAre(cs, more, q)
  {
  }

  lemma NewGrow(cs: seq<Conversion>, mid: seq<Conversion>, more: seq<Conversion>, p: Value -> bool)
    requires cs <= mid <= more && NewAre(cs, mid, p) && (NewAre(mid, more, p) || exists v | p(v) :: NewAre(mid, more, x => x == v))
    ensures NewAre(cs, more, p)
  {
    forall k | |cs| <= k < |more| ensures p(more[k].value) {
      assert k < |mid| ==> more[k] == mid[k];
    }
  }

  predicate IsSelectedResult(strategy: Strategy, b: nat, o: nat, v: Value) {
    v.OpResult? && v.block == b && v.op == o && strategy.maximizeResult(b, o, v.idx)
  }

  predicate IsSelectedArgument(strategy: Strategy, b: nat, v: Value) {
    v.BlockArg? && v.block == b && strategy.maximizeArgument(b, v.idx)
  }

  ghost predicate NewArguments(strategy: Strategy, b: nat, cs: seq<Conversion>, more: seq<Conversion>) {
    NewAre(cs, more, v => IsSelectedArgument(strategy, b, v))
  }

  lemma OneMoreArgument(strategy: Strategy, b: nat, cs: seq<Conversion>, before: seq<Conversion>, more: seq<Conversion>, i: nat)
    requires cs <= before <= more && NewArguments(strategy, b, cs, before) && strategy.maximizeArgument(b, i)
    requires NewAre(before, more, x => x == BlockArg(b, i))
    ensures NewArguments(strategy, b, cs, more)
  {
    NewGrow(cs, before, more, v => IsSelectedArgument(strategy, b, v));
  }

  lemma ArgumentsAreIn(strategy: Strategy, b: nat, cs: seq<Conversion>, more: seq<Conversion>)
    requires NewArguments(strategy, b, cs, more)
    ensures NewAre(cs, more, v => IsSelectedIn(strategy, b, v))
  {
    NewWeaker(cs, more, v => IsSelectedArgument(strategy, b, v), v => IsSelectedIn(strategy, b, v));
  }

  predicate IsSelectedIn(strategy: Strategy, b: nat, v: Value) {
    v.block == b && strategy.SelectsInBlock(v)
  }

  method ConvertValue(c: Converter, v: Value, ghost r: Region, ghost cs: seq<Conversion>) returns (ok: bool, ghost more: seq<Conversion>)
    requires c.blocks == Apply(r, cs) && Conversions(r, cs) && Valid(r) && Exists(c.blocks, v)
    modifies c
    ensures ok ==> c.blocks == Apply(r, more) && Conversions(r, more) && cs <= more && Converted(more, v)
    ensures ok ==> Grows(old(c.blocks), c.blocks) && NewAre(cs, more, x => x == v)
    ensures !ok ==> !AllBranchLike(r)
  {
    ghost var before := c.blocks;
    ghost var u;
    ok, u := c.MaximizeValue(v);
    more := cs + [Conversion(v, u)];
    if ok {
      OneMoreConversion(r, cs, v, u);
      MaximizedGrows(before, v, u);
    } else {
      FailureMeans(r, cs, v);
    }
  }

  lemma OneMoreConversion(r: Region, cs: seq<Conversion>, v: Value, u: set<nat>)
    requires Conversions(r, cs) && IsClosure(Apply(r, cs), v, u) && Exists(Apply(r, cs), v)
    ensures var more := cs + [Conversion(v, u)];
            Conversions(r, more) && Converted(more, v) && Apply(r, more) == Maximized(Apply(r, cs), v, u)
  {
    var more := cs + [Conversion(v, u)];
    assert more[..|more| - 1] == cs;
    assert more[|cs|].value == v;
  }

  lemma MaximizedGrows(r: Region, v: Value, u: set<nat>)
    ensures Grows(r, Maximized(r, v, u))
  {
  }

  /** If no set of blocks could be passed the value, some terminator of the original region is not branch-like. */
  lemma FailureMeans(r: Region, cs: seq<Conversion>, v: Value)
    requires Valid(r) && Conversions(r, cs)
    requires forall s: set<nat> | IsClosed(Apply(r, cs), v, s) :: !CanPass(Apply(r, cs), s)
    ensures !AllBranchLike(r)
  {
    var m := Apply(r, cs);
    ClosedSetExists(m, v);
    assert !CanPass(m, Ids(|m|));
    ConversionsRefine(r, cs);
    BranchLikeKept(r, m);
  }

  lemma BranchLikeKept(r: Region, m: Region)
    requires Refines(r, m) && !CanPass(m, Ids(|m|))
    ensures !AllBranchLike(r)
  {
  }

  lemma ConvertedMore(cs: seq<Conversion>, more: seq<Conversion>)
    requires cs <= more
    ensures forall v | Converted(cs, v) :: Converted(more, v)
  {
    forall v | Converted(cs, v) ensures Converted(more, v) {
      var k :| 0 <= k < |cs| && cs[k].value == v;
      assert more[k].value == v;
    }
  }

  lemma GrowsTransitive(r: Region, m: Region, n: Region)
    requires Grows(r, m) && Grows(m, n)
    ensures Grows(r, n)
  {
  }

  lemma ArgumentStillExists(r: Region, m: Region, b: nat, i: nat)
    requires Grows(r, m) && b < |r| && i < r[b].numArgs
    ensures Exists(m, BlockArg(b, i))
  {
  }

  lemma ResultStillExists(r: Region, m: Region, b: nat, o: nat, i: nat)
    requires Grows(r, m) && b < |r| && o < |r[b].ops| && i < r[b].ops[o].numResults
    ensures Exists(m, OpResult(b, o, i))
  {
  }

  /** The results of one operation. */
  method MaximizeOp(c: Converter, b: nat, o: nat, strategy: Strategy, ghost r: Region, ghost cs: seq<Conversion>)
    returns (ok: bool, ghost more: seq<Conversion>)
    requires c.blocks == Apply(r, cs) && Conversions(r, cs) && Valid(r) && b < |c.blocks| && o < |c.blocks[b].ops|
    modifies c
    ensures ok ==> c.blocks == Apply(r, more) && Conversions(r, more) && cs <= more && Grows(old(c.blocks), c.blocks)
    ensures ok ==> forall i | 0 <= i < old(c.blocks)[b].ops[o].numResults && strategy.maximizeResult(b, o, i) ::
                     Converted(more, OpResult(b, o, i))
    ensures ok ==> NewAre(cs, more, v => IsSelectedResult(strategy, b, o, v))
    ensures !ok ==> !AllBranchLike(r)
  {
    more := cs;
    var n := c.blocks[b].ops[o].numResults;
    for i := 0 to n
      invariant c.blocks == Apply(r, more) && Conversions(r, more) && cs <= more && Grows(old(c.blocks), c.blocks)
      invariant NewAre(cs, more, v => IsSelectedResult(strategy, b, o, v))
      invariant forall j | 0 <= j < i && strategy.maximizeResult(b, o, j) :: Converted(more, OpResult(b, o, j))
    {
      if strategy.maximizeResult(b, o, i) {
        ghost var before, was := more, c.blocks;
        ResultStillExists(old(c.blocks), c.blocks, b, o, i);
        ok, more := ConvertValue(c, OpResult(b, o, i), r, more);
        if !ok {
          return;
        }
        ConvertedMore(before, more);
        NewGrow(cs, before, more, v => IsSelectedResult(strategy, b, o, v));
        GrowsTransitive(old(c.blocks), was, c.blocks);
      }
    }
    ok := true;
  }

  method MaximizeArguments(c: Converter, b: nat, strategy: Strategy, ghost r: Region, ghost cs: seq<Conversion>)
    returns (ok: bool, ghost more: seq<Conversion>)
    requires c.blocks == Apply(r, cs) && Conversions(r, cs) && Valid(r) && b < |c.blocks|
    modifies c
    ensures ok ==> c.blocks == Apply(r, more) && Conversions(r, more) && cs <= more && Grows(old(c.blocks), c.blocks)
    ensures ok ==> forall i | 0 <= i < old(c.blocks)[b].numArgs && strategy.maximizeArgument(b, i) :: Converted(more, BlockArg(b, i))
    ensures ok ==> NewArguments(strategy, b, cs, more)
    ensures !ok ==> !AllBranchLike(r)
  {
    more := cs;
    var n := c.blocks[b].numArgs;
    for i := 0 to n
      invariant c.blocks == Apply(r, more) && Conversions(r, more) && cs <= more && Grows(old(c.blocks), c.blocks)
      invariant NewArguments(strategy, b, cs, more)
      invariant forall j | 0 <= j < i && strategy.maximizeArgument(b, j) :: Converted(more, BlockArg(b, j))
    {
      if strategy.maximizeArgument(b, i) {
        ghost var before, was := more, c.blocks;
        ArgumentStillExists(old(c.blocks), c.blocks, b, i);
        ok, more := ConvertValue(c, BlockArg(b, i), r, more);
        if !ok {
          return;
        }
        ConvertedMore(before, more);
        OneMoreArgument(strategy, b, cs, before, more, i);
        GrowsTransitive(old(c.blocks), was, c.blocks);
      }
    }
    ok := true;
  }

  /** The arguments, then the operations of one block. */
  method MaximizeBlock(c: Converter, b: nat, strategy: Strategy, ghost r: Region, ghost cs: seq<Conversion>)
    returns (ok: bool, ghost more: seq<Conversion>)
    requires c.blocks == Apply(r, cs) && Conversions(r, cs) && Valid(r) && b < |c.blocks|
    modifies c
    ensures ok ==> c.blocks == Apply(r, more) && Conversions(r, more) && cs <= more && Grows(old(c.blocks), c.blocks)
    ensures ok ==> forall i | 0 <= i < old(c.blocks)[b].numArgs && strategy.maximizeArgument(b, i) :: Converted(more, BlockArg(b, i))
    ensures ok ==> forall o, i | 0 <= o < |old(c.blocks)[b].ops| && 0 <= i < old(c.blocks)[b].ops[o].numResults
                                 && strategy.maximizeOp(b, o) && strategy.maximizeResult(b, o, i) ::
                     Converted(more, OpResult(b, o, i))
    ensures ok ==> NewAre(cs, more, v => IsSelectedIn(strategy, b, v))
    ensures !ok ==> !AllBranchLike(r)
  {
    ok, more := MaximizeArguments(c, b, strategy, r, cs);
    if !ok {
      return;
    }
    ghost var args := more;
    ArgumentsAreIn(strategy, b, cs, more);
    var k := |c.blocks[b].ops|;
    for o := 0 to k
      invariant c.blocks == Apply(r, more) && Conversions(r, more) && args <= more && Grows(old(c.blocks), c.blocks)
      invariant cs <= more && NewAre(cs, more, v => IsSelectedIn(strategy, b, v))
      invariant forall p, i | 0 <= p < o && 0 <= i < old(c.blocks)[b].ops[p].numResults
                              && strategy.maximizeOp(b, p) && strategy.maximizeResult(b, p, i) ::
                  Converted(more, OpResult(b, p, i))
    {
      if strategy.maximizeOp(b, o) {
        ghost var before := more;
        ok, more := MaximizeOp(c, b, o, strategy, r, more);
        if !ok {
          return;
        }
        ConvertedMore(before, more);
        NewWeaker(before, more, v => IsSelectedResult(strategy, b, o, v), v => IsSelectedIn(strategy, b, v));
        NewGrow(cs, before, more, v => IsSelectedIn(strategy, b, v));
      }
    }
    ConvertedMore(args, more);
    ok := true;
  }

  /** All values the strategy selects in the blocks before `b` are converted. */
  ghost predicate ConvertedUpTo(r: Region, strategy: Strategy, b: nat, cs: seq<Conversion>) {
    forall v | Exists(r, v) && v.block < b && strategy.Selects(v) :: Converted(cs, v)
  }

  /** And no others are. */
  ghost predicate OnlySelected(strategy: Strategy, cs: seq<Conversion>) {
    forall k | 0 <= k < |cs| :: strategy.Selects(cs[k].value)
  }

  lemma BlockConverted(r: Region, m: Region, strategy: Strategy, b: nat, before: seq<Conversion>, more: seq<Conversion>)
    requires ConvertedUpTo(r, strategy, b, before) && before <= more && Grows(r, m) && b < |m|
    requires strategy.maximizeBlock(b) ==>
               forall i | 0 <= i < m[b].numArgs && strategy.maximizeArgument(b, i) :: Converted(more, BlockArg(b, i))
    requires strategy.maximizeBlock(b) ==>
               forall o, i | 0 <= o < |m[b].ops| && 0 <= i < m[b].ops[o].numResults
                             && strategy.maximizeOp(b, o) && strategy.maximizeResult(b, o, i) :: Converted(more, OpResult(b, o, i))
    ensures ConvertedUpTo(r, strategy, b + 1, more)
  {
    ConvertedMore(before, more);
    forall v | Exists(r, v) && v.block < b + 1 && strategy.Selects(v) ensures Converted(more, v) {
      if v.block < b {
        assert Converted(before, v);
      }
    }
  }

  /** A whole region. On success no run can tell the result from the original; what the strategy does not select is used where it
      was, and blocks gain exactly the arguments that pass selected values on; with every hook of the strategy returning true
      every operand is defined in the block that uses it. It can only fail on a terminator that cannot pass operands. */
  method MaximizeRegion(c: Converter, strategy: Strategy) returns (ok: bool)
    requires Valid(c.blocks)
    modifies c
    ensures ok ==> Valid(c.blocks) && Equivalent(old(c.blocks), c.blocks)
    ensures ok ==> forall v | Exists(old(c.blocks), v) && strategy.Selects(v) :: Local(c.blocks, v)
    ensures ok && (forall v :: strategy.Selects(v)) ==> IsMaximized(c.blocks)
    ensures ok ==> forall v | Exists(old(c.blocks), v) && !strategy.Selects(v) :: SameUses(old(c.blocks), c.blocks, v)
    ensures ok ==> exists cs :: Threads(old(c.blocks), c.blocks, strategy, cs)
    ensures AllBranchLike(old(c.blocks)) ==> ok
  {
    ghost var more;
    ok, more := ConvertBlocks(c, strategy);
    if ok {
      RegionConverted(old(c.blocks), more, strategy);
    }
  }

  /** The loop over the blocks, with the series of conversions it amounts to. */
  method ConvertBlocks(c: Converter, strategy: Strategy) returns (ok: bool, ghost more: seq<Conversion>)
    requires Valid(c.blocks)
    modifies c
    ensures ok ==> c.blocks == Apply(old(c.blocks), more) && Conversions(old(c.blocks), more)
    ensures ok ==> ConvertedUpTo(old(c.blocks), strategy, |old(c.blocks)|, more) && OnlySelected(strategy, more)
    ensures !ok ==> !AllBranchLike(old(c.blocks))
  {
    ghost var r := c.blocks;
    more := [];
    var n := |c.blocks|;
    for b := 0 to n
      invariant c.blocks == Apply(r, more) && Conversions(r, more) && Grows(r, c.blocks)
      invariant ConvertedUpTo(r, strategy, b, more) && NewAre([], more, v => strategy.Selects(v))
    {
      ghost var before, was := more, c.blocks;
      if strategy.maximizeBlock(b) {
        ok, more := MaximizeBlock(c, b, strategy, r, more);
        if !ok {
          return;
        }
        GrowsTransitive(r, was, c.blocks);
        NewWeaker(before, more, v => IsSelectedIn(strategy, b, v), v => strategy.Selects(v));
        NewGrow([], before, more, v => strategy.Selects(v));
      }
      BlockConverted(r, was, strategy, b, before, more);
    }
    ok := true;
  }

  lemma RegionConverted(r: Region, cs: seq<Conversion>, strategy: Strategy)
    requires Valid(r) && Conversions(r, cs) && ConvertedUpTo(r, strategy, |r|, cs) && OnlySelected(strategy, cs)
    ensures Valid(Apply(r, cs)) && Equivalent(r, Apply(r, cs))
    ensures forall v | Exists(r, v) && strategy.Selects(v) :: Local(Apply(r, cs), v)
    ensures (forall v :: strategy.Selects(v)) ==> IsMaximized(Apply(r, cs))
    ensures forall v | Exists(r, v) && !strategy.Selects(v) :: SameUses(r, Apply(r, cs), v)
    ensures Threads(r, Apply(r, cs), strategy, cs)
  {
    ConversionsRefine(r, cs);
    var m := Apply(r, cs);
    ValidAndEquivalent(r, m);
    forall v | Exists(r, v) && strategy.Selects(v) ensures Local(m, v) {
      assert Converted(cs, v);
      ConvertedIsLocal(r, cs, v);
    }
    if forall v :: strategy.Selects(v) {
      AllLocalIsMaximized(r, m);
    }
    forall v | Exists(r, v) && !strategy.Selects(v) ensures SameUses(r, m, v) {
      assert !Converted(cs, v);
      UnconvertedSameUses(r, cs, v);
    }
    forall b: nat | b < |r| ensures m[b].numArgs == r[b].numArgs + Received(cs, b) {
      ArgumentsCount(r, cs, b);
    }
  }

  lemma ValidAndEquivalent(r: Region, m: Region)
    requires Refines(r, m)
    ensures Valid(m) && Equivalent(r, m)
  {
  }

  /** Old values are local by conversion, new ones from the start. */
  lemma AllLocalIsMaximized(r: Region, m: Region)
    requires Refines(r, m) && forall v | Exists(r, v) :: Local(m, v)
    ensures IsMaximized(m)
  {
    forall b, v | 0 <= b < |m| && Uses(m[b], v) ensures v.block == b {
      assert Local(m, v);
    }
  }
}
