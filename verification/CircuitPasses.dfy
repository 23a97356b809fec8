/** What the forward and the backward pass do at each value and operation of a circuit, and when they are done. */
module CircuitPasses {
  import opened Basics
  import opened Words
  import opened Transfer
  import opened DataForward
  import opened Expressions
  import opened RewriteSound
  import opened PatternCosts
  import opened Circuits
  import opened CircuitSteps
  import opened IdleExtensions
  import opened CircuitShrinks
  import opened CircuitMeaning
  import opened CircuitKeeps
  import opened CircuitPass
  import opened CircuitCycles
  import opened CircuitOptimizer
  import Cycles = ForwardingCycles
  import CycleNarrowing

  // ----- the shape of a cycle, computed -----

  /** Operands of operations are values of the circuit. */
  predicate IsValue(defs: seq<Def>, x: Cycles.Value) {
    exists u | 0 <= u < |defs| :: ToValue(defs, u) == x
  }

  ghost predicate OperandsAreValues(defs: seq<Def>, g: Cycles.Graph) {
    forall k, x | k in g && x in Cycles.DataOperands(g[k]) :: IsValue(defs, x)
  }

  lemma GraphOperands(c: Circuit)
    requires Valid(c)
    ensures OperandsAreValues(c.defs, ToGraph(c.defs))
  {
    forall k, x | k in ToGraph(c.defs) && x in Cycles.DataOperands(ToGraph(c.defs)[k]) ensures IsValue(c.defs, x) {
      OpOperands(c.defs, k, x);
    }
  }

  lemma OpOperands(defs: seq<Def>, k: nat, x: Cycles.Value)
    requires AllGood(defs) && HasOp(defs, k) && x in Cycles.DataOperands(GraphOp(defs, k))
    ensures IsValue(defs, x)
  {
    if k < |defs| {
      ForwardOperands(defs, ForwarderDef(defs, k), x);
    } else {
      assert GoodDef(defs, defs[k - |defs|]);
      SelectOperands(defs, defs[k - |defs|].e, x);
    }
  }

  lemma ForwardOperands(defs: seq<Def>, d: Def, x: Cycles.Value)
    requires d.Choice? && GoodDef(defs, d) && x in Cycles.DataOperands(ForwardOp(defs, d))
    ensures IsValue(defs, x)
  {
    var j :| 0 <= j < |d.data| && ToValue(defs, d.data[j]) == x;
  }

  lemma SelectOperands(defs: seq<Def>, e: Expr, x: Cycles.Value)
    requires IsFlat(defs, e) && x in Cycles.DataOperands(NodeOp(defs, e))
    ensures IsValue(defs, x)
  {
    ChildrenAreRefs(defs, e);
    assert e.Select?;
  }

  lemma {:induction false} MergedAreValues(defs: seq<Def>, g: Cycles.Graph, val: Cycles.Value, res: Cycles.Value, visited: set<nat>, m: Cycles.Value)
    requires OperandsAreValues(defs, g) && m in Cycles.Merged(g, val, res, visited)
    ensures IsValue(defs, m)
    decreases g.Keys - visited
  {
    var seen := visited + {val.op};
    var os := Cycles.DataOperands(g[val.op]);
    if m !in os {
      var o :| o in os && Cycles.InCycle(g, o, res, seen) && m in Cycles.Merged(g, o, res, seen);
      MergedAreValues(defs, g, o, res, seen, m);
    }
  }

  lemma EnteringAreValues(c: Circuit, op: nat, m: Cycles.Value)
    requires Valid(c) && IsForwarder(c.defs, op) && m in EnteringOf(c, op)
    ensures IsValue(c.defs, m)
  {
    var g, d := ToGraph(c.defs), ForwarderDef(c.defs, op);
    var res := ToValue(c.defs, Results(c.defs, op, |c.defs|)[0]);
    var os := ToValues(c.defs, d.data);
    GraphOperands(c);
    if m in os {
      var j :| 0 <= j < |os| && os[j] == m;
      assert ToValue(c.defs, d.data[j]) == m;
    } else {
      var o :| o in os && Cycles.InCycle(g, o, res, {}) && m in Cycles.Merged(g, o, res, {});
      MergedAreValues(c.defs, g, o, res, {}, m);
    }
  }

  function ShapeBehind(c: Circuit, u: nat): ExtWidth
    requires Valid(c) && u < |c.defs|
  {
    GraphTyped(c);
    CycleNarrowing.MinimalShape(ToGraph(c.defs), ToWidths(c.defs), CycleNarrowing.Backtrack(ToGraph(c.defs), ToValue(c.defs, u), {}))
  }

  /** The shapes behind those of the first `k` values that enter. */
  function ShapesBelow(c: Circuit, entering: set<Cycles.Value>, k: nat): (shapes: seq<ExtWidth>)
    requires Valid(c) && k <= |c.defs|
  {
    if k == 0 then []
    else ShapesBelow(c, entering, k - 1) + if ToValue(c.defs, k - 1) in entering then [ShapeBehind(c, k - 1)] else []
  }

  lemma {:induction false} EnteringHasShape(c: Circuit, entering: set<Cycles.Value>, k: nat, u: nat)
    requires Valid(c) && u < k <= |c.defs| && ToValue(c.defs, u) in entering
    ensures ShapeBehind(c, u) in ShapesBelow(c, entering, k)
    decreases k
  {
    if u < k - 1 {
      EnteringHasShape(c, entering, k - 1, u);
    }
  }

  lemma {:induction false} ShapeIsOfEntering(c: Circuit, entering: set<Cycles.Value>, k: nat, s: ExtWidth) returns (u: nat)
    requires Valid(c) && k <= |c.defs| && s in ShapesBelow(c, entering, k)
    ensures u < k && ToValue(c.defs, u) in entering && s == ShapeBehind(c, u)
    decreases k
  {
    if s in ShapesBelow(c, entering, k - 1) {
      u := ShapeIsOfEntering(c, entering, k - 1, s);
    } else {
      u := k - 1;
    }
  }

  lemma ShapesAreOf(c: Circuit, op: nat)
    requires Valid(c) && IsForwarder(c.defs, op) && Cycles.WellTyped(ToGraph(c.defs), ToWidths(c.defs))
    ensures CycleNarrowing.ShapesOf(ToGraph(c.defs), ToWidths(c.defs), EnteringOf(c, op), ShapesBelow(c, EnteringOf(c, op), |c.defs|))
  {
    var g, w, entering := ToGraph(c.defs), ToWidths(c.defs), EnteringOf(c, op);
    var shapes := ShapesBelow(c, entering, |c.defs|);
    forall v | v in entering ensures CycleNarrowing.MinimalShape(g, w, CycleNarrowing.Backtrack(g, v, {})) in shapes {
      EnteringAreValues(c, op, v);
      var u :| 0 <= u < |c.defs| && ToValue(c.defs, u) == v;
      EnteringHasShape(c, entering, |c.defs|, u);
    }
    forall s | s in shapes ensures exists v | v in entering :: s == CycleNarrowing.MinimalShape(g, w, CycleNarrowing.Backtrack(g, v, {})) {
      var u := ShapeIsOfEntering(c, entering, |c.defs|, s);
      assert ToValue(c.defs, u) in entering;
    }
  }

  /** The cycle pattern on a merge-like operation. */
  function CycleStep(c: Circuit, op: nat): Option<Circuit>
    requires Valid(c) && IsForwarder(c.defs, op)
  {
    var shapes := ShapesBelow(c, EnteringOf(c, op), |c.defs|);
    if !ForwarderDef(c.defs, op).kind.MergeLike? || shapes == [] then None
    else
      var t := ForwardShape(shapes);
      if Narrows(c, op, t) then Some(NarrowForwarder(c, op, t)) else None
  }

  lemma CycleStepIsStep(c: Circuit, op: nat)
    requires Valid(c) && IsForwarder(c.defs, op) && CycleStep(c, op).Some?
    ensures PassStep(c, CycleStep(c, op).value)
  {
    GraphTyped(c);
    ShapesAreOf(c, op);
    var t := ForwardShape(ShapesBelow(c, EnteringOf(c, op), |c.defs|));
    assert IsCycleShape(c, op, t);
  }

  // ----- a pass -----

  /** What a pass does to a value: multiplications, bitwise operations and truncations have one pattern for both passes. */
  function NodeStep(c: Circuit, v: nat, forward: bool): Option<Circuit>
    requires Valid(c) && v < |c.defs|
  {
    if !c.defs[v].Node? then None
    else if forward || c.defs[v].e.Trunc? then ForwardNode(c, v)
    else BackwardNode(c, v)
  }

  /** What a pass does to a forwarding operation. */
  function ForwarderStep(c: Circuit, op: nat, forward: bool): Option<Circuit>
    requires Valid(c)
  {
    if !IsForwarder(c.defs, op) then None
    else if !forward then BackwardForwarder(c, op)
    else if ForwardForwarder(c, op).Some? then ForwardForwarder(c, op)
    else CycleStep(c, op)
  }

  /** The pass can do nothing with the values, nor with the operations, below `k`. */
  ghost predicate SettledBelow(c: Circuit, forward: bool, k: nat) {
    && Valid(c) && k <= |c.defs|
    && (forall v: nat | v < k :: NodeStep(c, v, forward).None?)
    && forall op: nat | op < k :: ForwarderStep(c, op, forward).None?
  }

  /** No pattern of the pass applies anywhere. */
  ghost predicate Settled(c: Circuit, forward: bool) {
    Valid(c) && SettledBelow(c, forward, |c.defs|)
  }

  lemma NodeStepIsStep(c: Circuit, v: nat, forward: bool)
    requires Valid(c) && v < |c.defs| && NodeStep(c, v, forward).Some?
    ensures PassStep(c, NodeStep(c, v, forward).value)
  {
    if forward || c.defs[v].e.Trunc? {
      assert IsNode(c.defs, v) && ForwardNode(c, v) == NodeStep(c, v, forward);
    } else {
      assert IsNode(c.defs, v) && BackwardNode(c, v) == NodeStep(c, v, forward);
    }
  }

  lemma ForwarderStepIsStep(c: Circuit, op: nat, forward: bool)
    requires Valid(c) && ForwarderStep(c, op, forward).Some?
    ensures PassStep(c, ForwarderStep(c, op, forward).value)
  {
    if !forward {
      assert IsForwarder(c.defs, op) && BackwardForwarder(c, op) == ForwarderStep(c, op, forward);
    } else if ForwardForwarder(c, op).Some? {
      assert IsForwarder(c.defs, op) && ForwardForwarder(c, op) == ForwarderStep(c, op, forward);
    } else {
      CycleStepIsStep(c, op);
    }
  }
}
