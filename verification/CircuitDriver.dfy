/** The driver of the bitwidth optimization pass on circuits: forward and backward passes alternate until neither applies. */
module CircuitDriver {
  import opened Basics
  import opened Circuits
  import opened CircuitSteps
  import opened IdleExtensions
  import opened CircuitShrinks
  import opened CircuitPass
  import opened CircuitOptimizer
  import opened CircuitPasses
  import opened CircuitTight

  /** Finds something the pass can do with the number, as a value or as an operation. */
  method StepAt(c: Circuit, v: nat, forward: bool) returns (d: Option<Circuit>)
    requires Valid(c) && v < |c.defs|
    ensures if d.Some? then PassStep(c, d.value) else NodeStep(c, v, forward).None? && ForwarderStep(c, v, forward).None?
  {
    d := NodeStep(c, v, forward);
    if d.Some? {
      NodeStepIsStep(c, v, forward);
      return;
    }
    d := ForwarderStep(c, v, forward);
    if d.Some? {
      ForwarderStepIsStep(c, v, forward);
    }
  }

  lemma SettledNext(c: Circuit, forward: bool, k: nat)
    requires SettledBelow(c, forward, k) && k < |c.defs|
    requires NodeStep(c, k, forward).None? && ForwarderStep(c, k, forward).None?
    ensures SettledBelow(c, forward, k + 1)
  {
  }

  /** Finds something the pass can do, or nothing is left to do. */
  method FindStep(c: Circuit, forward: bool) returns (d: Option<Circuit>)
    requires Valid(c)
    ensures if d.Some? then PassStep(c, d.value) else Settled(c, forward)
  {
    for v := 0 to |c.defs|
      invariant SettledBelow(c, forward, v)
    {
      d := StepAt(c, v, forward);
      if d.Some? {
        return;
      }
      SettledNext(c, forward, v);
    }
    d := None;
  }

  /** One greedy pass. */
  method ApplyPass(c: Circuit, forward: bool) returns (d: Circuit, changed: bool)
    requires Valid(c) && !HasIdleCycle(c.defs)
    ensures KeepsAll(c, d) && Settled(d, forward) && !HasIdleCycle(d.defs)
    ensures if changed then SizeOf(d.defs).Below(SizeOf(c.defs)) else d == c
  {
    d, changed := c, false;
    KeepsItself(c);
    var step := FindStep(d, forward);
    while step.Some?
      invariant KeepsAll(c, d) && !HasIdleCycle(d.defs)
      invariant if step.Some? then PassStep(d, step.value) else Settled(d, forward)
      invariant if changed then SizeOf(d.defs).Below(SizeOf(c.defs)) else d == c
      decreases SizeOf(d.defs).compute, SizeOf(d.defs).trunc, SizeOf(d.defs).rank
    {
      Progress(d, step.value);
      PassStepKeeps(d, step.value);
      KeepsTransitive(c, d, step.value);
      d, changed := step.value, true;
      step := FindStep(d, forward);
    }
  }

  lemma Progress(c: Circuit, d: Circuit)
    requires PassStep(c, d) && !HasIdleCycle(c.defs)
    ensures !HasIdleCycle(d.defs) && SizeOf(d.defs).Below(SizeOf(c.defs))
  {
    PassStepShrinks(c, d);
    NoNewCycle(c, d);
    if CutsIdleCycle(c.defs) {
      CutCycleIsCycle(c.defs);
    }
    StepShrinks(c, d);
  }

  /** The whole pass on a circuit: unless extensions to their own width form a cycle it terminates; it neither loses nor adds
      anything to what the circuit hands out, leaves no pattern of either pass applicable, and so nothing that computes on more bits
      than the extensions of its operands and its users need. */
  method Optimize(c: Circuit) returns (d: Circuit)
    requires Valid(c) && !HasIdleCycle(c.defs)
    ensures KeepsAll(c, d) && Settled(d, true) && Settled(d, false) && Tight(d)
  {
    d := c;
    var fwChanged, bwChanged := true, true;
    KeepsItself(c);
    while fwChanged || bwChanged
      invariant KeepsAll(c, d) && !HasIdleCycle(d.defs)
      invariant !fwChanged && !bwChanged ==> Settled(d, true) && Settled(d, false)
      decreases SizeOf(d.defs).compute, SizeOf(d.defs).trunc, SizeOf(d.defs).rank, fwChanged || bwChanged
    {
      var e;
      e, fwChanged := ApplyPass(d, true);
      KeepsTransitive(c, d, e);
      ghost var middle := e;
      d, bwChanged := ApplyPass(e, false);
      KeepsTransitive(c, middle, d);
    }
    SettledIsTight(d);
  }
}
