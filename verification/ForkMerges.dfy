/** Rewrites that bypass single-output forks and merge forks that feed forks. */
module ForkMerges {
  import opened Netlists
  import opened MaterializeValues
  import opened ForkRewrites

  // ----- EraseSingleOutputForks -----

  function Bypass(n: Netlist, f: nat, v: Value): Value
    requires f in n.ops && |n.ops[f].operands| == 1
  {
    if v.Result? && v.op == f then n.ops[f].operands[0] else v
  }

  ghost predicate BypassStep(n: Netlist, m: Netlist, f: nat) {
    && n.WellFormed() && n.Grounded() && f in n.ops && n.ops[f].kind.Fork? && |n.ops[f].results| == 1
    && Rewired(n, m, {f}, map[], v => Bypass(n, f, v))
  }

  lemma BypassKeeps(n: Netlist, m: Netlist, f: nat, rho: Value -> Value)
    requires BypassStep(n, m, f) && forall v :: rho(v) == Bypass(n, f, v)
    ensures KeepsSources(n, m, {f}, map[], rho)
  {
    FeedsOther(n, f);
    assert n.HasOperand(f, 0);
    forall v | n.Exists(v) && n.IsForkResult(v) ensures m.Follows(rho(v), rho(n.ForkInput(v))) {
      if v.op != f {
        m.TraceStep(v);
      }
    }
  }

  lemma BypassSound(n: Netlist, m: Netlist, f: nat)
    requires BypassStep(n, m, f)
    ensures SameSources(n, m) && m.Grounded() && m.WellFormed()
  {
    var rho := v => Bypass(n, f, v);
    BypassKeeps(n, m, f, rho);
    RewiredSameSources(n, m, {f}, map[], rho);
    RewiredGrounded(n, m, {f}, map[], rho);
    FeedsOther(n, f);
    forall o: nat, i: nat | m.HasOperand(o, i) ensures m.GoodOperand(o, i) {
      assert n.HasOperand(o, i) && n.HasOperand(f, 0);
    }
  }

  // ----- EliminateForksToForks -----

  /** A fork `f` fed by result `k` of a fork `d`. */
  ghost predicate Feeds(n: Netlist, d: nat, k: nat, f: nat) {
    && n.WellFormed() && n.Grounded()
    && f in n.ops && n.ops[f].kind.Fork? && d in n.ops && n.ops[d].kind.Fork?
    && n.ops[f].operands[0] == Result(d, k)
  }

  /** The merged fork has a result for each result of both, the one between them only if it has other uses. */
  function Merge(n: Netlist, d: nat, k: nat, f: nat, big: nat, single: bool, v: Value): Value
    requires d in n.ops
  {
    var first := |n.ops[d].results| - if single then 1 else 0;
    if v.Result? && v.op == f && first >= 0 then Result(big, first + v.idx)
    else if v.Result? && v.op == d && !(single && v.idx == k) then Result(big, if single && v.idx > k then v.idx - 1 else v.idx)
    else v
  }

  function BigFork(n: Netlist, d: nat, f: nat, big: nat, single: bool): Ops
    requires d in n.ops && f in n.ops && |n.ops[d].results| > 0
  {
    map[big := Op(Fork, n.ops[d].operands,
                  seq(|n.ops[d].results| + |n.ops[f].results| - (if single then 1 else 0), _ => true))]
  }

  /** The fork in front, `d`, stays in place without uses. */
  ghost predicate MergeStep(n: Netlist, m: Netlist, d: nat, k: nat, f: nat, big: nat, single: bool) {
    && Feeds(n, d, k, f) && big !in n.ops
    && single == (forall o: nat, i: nat | n.IsUse(Result(d, k), o, i) :: o == f)
    && Rewired(n, m, {f}, BigFork(n, d, f, big, single), v => Merge(n, d, k, f, big, single, v))
  }

  lemma {:induction false} NoCycleOfTwo(n: Netlist, d: nat, f: nat, k: nat, s: Value, depth: nat)
    requires d in n.ops && n.ops[d].kind.Fork? && |n.ops[d].operands| == 1 && n.ops[d].operands[0].Result? && n.ops[d].operands[0].op == f
    requires f in n.ops && n.ops[f].kind.Fork? && |n.ops[f].operands| == 1 && n.ops[f].operands[0].Result? && n.ops[f].operands[0].op == d
    ensures !n.TracesIn(Result(f, k), s, depth)
    decreases depth
  {
    if depth > 1 {
      NoCycleOfTwo(n, d, f, n.ops[d].operands[0].idx, s, depth - 2);
    }
  }

  /** The two forks differ, and the value behind them comes from neither. */
  lemma FedFromElsewhere(n: Netlist, d: nat, k: nat, f: nat)
    requires Feeds(n, d, k, f)
    ensures d != f && |n.ops[d].operands| == 1 && |n.ops[d].results| > k && n.Exists(n.ops[d].operands[0])
    ensures n.ops[d].operands[0].Result? ==> n.ops[d].operands[0].op != d && n.ops[d].operands[0].op != f
  {
    FeedsOther(n, f);
    FeedsOther(n, d);
    assert n.HasOperand(f, 0) && n.HasOperand(d, 0);
    if n.ops[d].operands[0].Result? && n.ops[d].operands[0].op == f {
      assert n.Exists(Result(f, 0));
      assert n.HasProducer(Result(f, 0));
      var s :| n.Traces(Result(f, 0), s);
      var depth: nat :| n.TracesIn(Result(f, 0), s, depth);
      NoCycleOfTwo(n, d, f, 0, s, depth);
    }
  }

  lemma SameForkFollows(m: Netlist, v: Value, w: Value)
    requires m.IsForkResult(v) && m.IsForkResult(w) && m.ForkInput(v) == m.ForkInput(w)
    ensures m.Follows(v, w)
  {
    forall s | m.Traces(w, s) ensures m.Traces(v, s) {
      var n: nat :| m.TracesIn(w, s, n);
      assert m.TracesIn(v, s, n);
    }
  }

  /** The result between the two forks, if nothing else uses it, stands for what feeds both. */
  function MergeOrSkip(n: Netlist, d: nat, k: nat, f: nat, big: nat, single: bool, v: Value): Value
    requires d in n.ops && |n.ops[d].operands| == 1
  {
    if single && v == Result(d, k) then n.ops[d].operands[0] else Merge(n, d, k, f, big, single, v)
  }

  lemma MergeKeeps(n: Netlist, m: Netlist, d: nat, k: nat, f: nat, big: nat, single: bool, rho: Value -> Value)
    requires MergeStep(n, m, d, k, f, big, single) && |n.ops[d].operands| == 1
    requires forall v :: rho(v) == MergeOrSkip(n, d, k, f, big, single, v)
    ensures KeepsSources(n, m, {f}, BigFork(n, d, f, big, single), rho)
  {
    FedFromElsewhere(n, d, k, f);
    forall o | o in n.ops && o !in {f} ensures m.ops[o] == Mapped(n.ops[o], rho) {
      forall i: nat | n.HasOperand(o, i) ensures rho(n.ops[o].operands[i]) == Merge(n, d, k, f, big, single, n.ops[o].operands[i]) {
        assert n.IsUse(n.ops[o].operands[i], o, i);
      }
    }
    forall v | n.Exists(v) && n.IsForkResult(v) ensures m.Follows(rho(v), rho(n.ForkInput(v))) {
      if v.op == f {
        SecondForkFollows(n, m, d, k, f, big, single, v);
      } else if v.op == d {
        if rho(v) != n.ops[d].operands[0] {
          m.TraceStep(rho(v));
        }
      } else {
        m.TraceStep(v);
      }
    }
  }

  lemma SecondForkFollows(n: Netlist, m: Netlist, d: nat, k: nat, f: nat, big: nat, single: bool, v: Value)
    requires MergeStep(n, m, d, k, f, big, single) && |n.ops[d].operands| == 1 && n.Exists(v) && v.Result? && v.op == f
    ensures m.Follows(MergeOrSkip(n, d, k, f, big, single, v), MergeOrSkip(n, d, k, f, big, single, Result(d, k)))
  {
    FedFromElsewhere(n, d, k, f);
    var w := MergeOrSkip(n, d, k, f, big, single, v);
    m.TraceStep(w);
    if !single {
      SameForkFollows(m, w, MergeOrSkip(n, d, k, f, big, single, Result(d, k)));
    }
  }

  lemma MergeSources(n: Netlist, m: Netlist, d: nat, k: nat, f: nat, big: nat, single: bool)
    requires MergeStep(n, m, d, k, f, big, single)
    ensures SameSources(n, m) && m.Grounded()
  {
    FedFromElsewhere(n, d, k, f);
    var added, x := BigFork(n, d, f, big, single), n.ops[d].operands[0];
    var rho := v => if |n.ops[d].operands| == 1 then MergeOrSkip(n, d, k, f, big, single, v) else v;
    MergeKeeps(n, m, d, k, f, big, single, rho);
    RewiredSameSources(n, m, {f}, added, rho);
    assert n.HasProducer(x);
    var s :| n.Traces(x, s);
    RewiredTraces(n, m, {f}, added, rho, x);
    assert m.Traces(rho(x), s);
    RewiredGrounded(n, m, {f}, added, rho);
  }

  lemma MergedOperand(n: Netlist, m: Netlist, d: nat, k: nat, f: nat, big: nat, single: bool, o: nat, i: nat)
    requires MergeStep(n, m, d, k, f, big, single) && n.HasOperand(o, i) && m.HasOperand(o, i)
    ensures m.GoodOperand(o, i)
  {
    FedFromElsewhere(n, d, k, f);
    var v := n.ops[o].operands[i];
    assert n.Exists(v) && n.IsUse(v, o, i);
  }

  lemma MergeWellFormed(n: Netlist, m: Netlist, d: nat, k: nat, f: nat, big: nat, single: bool)
    requires MergeStep(n, m, d, k, f, big, single)
    ensures m.WellFormed()
  {
    FedFromElsewhere(n, d, k, f);
    assert n.HasOperand(d, 0);
    forall o: nat, i: nat | m.HasOperand(o, i) ensures m.GoodOperand(o, i) {
      if o in n.ops {
        assert n.HasOperand(o, i);
        MergedOperand(n, m, d, k, f, big, single, o, i);
      }
    }
  }
}
