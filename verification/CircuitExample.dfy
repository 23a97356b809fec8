/** A loop that only the cycle pattern narrows. */
module CircuitExample {
  import opened Basics
  import opened Words
  import opened Transfer
  import opened DataForward
  import opened Expressions
  import opened PatternCosts
  import opened Circuits
  import opened CircuitSteps
  import opened CircuitShrinks
  import opened CircuitMeaning
  import opened CircuitCycles
  import opened CircuitOptimizer
  import opened CircuitEnds
  import opened CircuitPasses
  import Cycles = ForwardingCycles
  import CycleNarrowing

  /** A four-bit input, extended to eight bits, enters a loop of a mux and a buffer that hands out what goes round; the first
      source is the select. */
  function Loop(): Circuit {
    Circuit(
      [Source(1, 0, 2), Source(4, 1, 2), Node(Ext(ZEXT, 8, Var(1, 4))), Choice(8, [2, 4], 3, MergeLike(0)), Choice(8, [3], 4, Single)],
      {4})
  }

  ghost predicate IsLoop(c: Circuit) {
    && |c.defs| == 5 && c.outputs == {4}
    && c.defs[0] == Source(1, 0, 2) && c.defs[1] == Source(4, 1, 2) && c.defs[2] == Node(Ext(ZEXT, 8, Var(1, 4)))
    && c.defs[3] == Choice(8, [2, 4], 3, MergeLike(0)) && c.defs[4] == Choice(8, [3], 4, Single)
  }

  lemma LoopValid(c: Circuit)
    requires IsLoop(c)
    ensures Valid(c) && Live(c.defs)
  {
    var defs := c.defs;
    assert Child(defs[2].e, 0) == Var(1, 4);
    forall v | 0 <= v < |defs| ensures GoodDef(defs, defs[v]) {
      assert v == 0 || v == 1 || v == 2 || v == 3 || v == 4;
    }
  }

  lemma LoopOps(c: Circuit)
    requires IsLoop(c) && Valid(c)
    ensures Results(c.defs, 3, 5) == [3] && IsForwarder(c.defs, 3) && ForwarderDef(c.defs, 3) == c.defs[3]
    ensures ToValue(c.defs, 2) == Cycles.Result(7, 0) && ToValue(c.defs, 3) == Cycles.Result(3, 0)
    ensures ToValue(c.defs, 4) == Cycles.Result(4, 0)
  {
    var defs := c.defs;
    assert Results(defs, 3, 3) == Results(defs, 3, 2) == Results(defs, 3, 1) == Results(defs, 3, 0) == [];
    assert Results(defs, 4, 4) == Results(defs, 4, 3) == Results(defs, 4, 2) == Results(defs, 4, 1) == Results(defs, 4, 0) == [];
    assert Results(defs, 3, 5) == Results(defs, 3, 4) == [3];
  }

  /** The graph around the loop. */
  ghost predicate IsLoopGraph(g: Cycles.Graph) {
    && 7 in g && g[7] == Cycles.Extend(ZEXT, 4, 8, Cycles.FuncArg(1))
    && 4 in g && g[4] == Cycles.Single(Cycles.Result(3, 0))
  }

  lemma LoopGraph(c: Circuit)
    requires IsLoop(c) && Valid(c)
    ensures IsLoopGraph(ToGraph(c.defs))
  {
    LoopOps(c);
    GraphNodes(c);
    GraphChoices(c);
    assert c.defs[2].Node? && c.defs[4].Choice?;
  }

  /** Only the extended input enters. */
  lemma LoopEntering(g: Cycles.Graph)
    requires IsLoopGraph(g)
    ensures Cycles.Entering(g, [Cycles.Result(7, 0), Cycles.Result(4, 0)], Cycles.Result(3, 0)) == {Cycles.Result(7, 0)}
  {
    var x, y, r := Cycles.Result(7, 0), Cycles.Result(4, 0), Cycles.Result(3, 0);
    assert !Cycles.InCycle(g, x, r, {});
    assert Cycles.DataOperands(g[4]) == [r] && Cycles.InCycle(g, r, r, {} + {4}) && Cycles.InCycle(g, y, r, {});
    Cycles.MergedOfSingle(g, y, r, {}, r);
    assert Cycles.Merged(g, y, r, {}) == {};
    assert Cycles.OutOfCycle(g, [x, y], r, {}) == {x} && Cycles.MergedBelow(g, [x, y], r, {}) == {};
  }

  lemma LoopEnters(c: Circuit)
    requires IsLoop(c) && Valid(c)
    ensures IsForwarder(c.defs, 3) && EnteringOf(c, 3) == {Cycles.Result(7, 0)}
  {
    LoopOps(c);
    LoopGraph(c);
    LoopEntering(ToGraph(c.defs));
    assert ToValues(c.defs, c.defs[3].data) == [Cycles.Result(7, 0), Cycles.Result(4, 0)];
  }

  lemma ExtendShape(g: Cycles.Graph, w: Cycles.Widths, v: Cycles.Value)
    requires Cycles.HasDef(g, v) && g[v.op].Extend?
    ensures CycleNarrowing.Backtrack(g, v, {}) == v && CycleNarrowing.MinimalShape(g, w, v) == ExtWidth(g[v.op].kind, g[v.op].from)
  {
  }

  lemma LoopShape(c: Circuit)
    requires IsLoop(c) && Valid(c)
    ensures ShapeBehind(c, 2) == ExtWidth(ZEXT, 4)
  {
    LoopOps(c);
    LoopGraph(c);
    ExtendShape(ToGraph(c.defs), ToWidths(c.defs), Cycles.Result(7, 0));
  }

  lemma LoopShapes(c: Circuit, entering: set<Cycles.Value>)
    requires IsLoop(c) && Valid(c) && entering == {Cycles.Result(7, 0)}
    ensures ShapesBelow(c, entering, 5) == [ExtWidth(ZEXT, 4)]
  {
    LoopOps(c);
    LoopShape(c);
    assert ShapesBelow(c, entering, 2) == ShapesBelow(c, entering, 1) == ShapesBelow(c, entering, 0) == [];
    assert ShapesBelow(c, entering, 3) == [ExtWidth(ZEXT, 4)];
    assert ShapesBelow(c, entering, 5) == ShapesBelow(c, entering, 4) == ShapesBelow(c, entering, 3);
  }

  /** The forward pattern sees a full-width operand, the one from the buffer. */
  lemma LoopStays(c: Circuit)
    requires IsLoop(c) && Valid(c)
    ensures IsForwarder(c.defs, 3) && ForwardForwarder(c, 3).None?
  {
    LoopOps(c);
    var shapes := DataShapes(c.defs, c.defs[3].data);
    assert shapes[1] == ExtWidth(NONE, 8);
    MaxWidthBounds(shapes, 1);
  }

  lemma OneShape(t: ExtWidth)
    ensures ForwardShape([t]) == t
  {
    assert [t][..0] == [];
    assert MaxWidth([t]) == Max(MaxWidth([]), t.bitWidth);
  }

  /** The cycle pattern sees four bits. */
  lemma LoopCycle(c: Circuit, shapes: seq<ExtWidth>)
    requires IsLoop(c) && Valid(c) && IsForwarder(c.defs, 3) && shapes == ShapesBelow(c, EnteringOf(c, 3), 5) == [ExtWidth(ZEXT, 4)]
    ensures CycleStep(c, 3) == Some(NarrowForwarder(c, 3, ExtWidth(ZEXT, 4)))
  {
    LoopOps(c);
    OneShape(ExtWidth(ZEXT, 4));
  }

  lemma LoopNarrows(c: Circuit)
    requires IsLoop(c)
    ensures Valid(c) && Live(c.defs) && IsForwarder(c.defs, 3) && ForwardForwarder(c, 3).None?
    ensures CycleStep(c, 3) == Some(NarrowForwarder(c, 3, ExtWidth(ZEXT, 4)))
    ensures PassStep(c, NarrowForwarder(c, 3, ExtWidth(ZEXT, 4)))
  {
    LoopValid(c);
    LoopStays(c);
    LoopEnters(c);
    LoopShapes(c, EnteringOf(c, 3));
    LoopCycle(c, [ExtWidth(ZEXT, 4)]);
    CycleStepIsStep(c, 3);
  }

  lemma LoopIsLoop()
    ensures IsLoop(Loop())
  {
  }

  lemma ExtensionHistory(c: Circuit, v: nat, e: Expr)
    requires v < |c.defs| && c.defs[v].Node? && c.defs[v].e.Ext? && SameOp(c.defs[v].e, e)
    requires c.defs[v].e.arg.Var? && Unrolls(c.defs, c.defs[v].e.arg.id, e.arg)
    ensures Unrolls(c.defs, v, e)
  {
    assert Child(c.defs[v].e, 0) == c.defs[v].e.arg && Child(e, 0) == e.arg;
  }

  lemma LoopSources(c: Circuit)
    requires IsLoop(c)
    ensures Unrolls(c.defs, 0, Var(0, 1)) && Unrolls(c.defs, 0, Var(2, 1)) && Unrolls(c.defs, 2, Ext(ZEXT, 8, Var(1, 4)))
  {
    SourceHistory(c.defs, 0, 0);
    SourceHistory(c.defs, 0, 1);
    SourceHistory(c.defs, 1, 0);
    ExtensionHistory(c, 2, Ext(ZEXT, 8, Var(1, 4)));
  }

  /** A token that goes round once before it is handed out. */
  lemma LoopHistory(c: Circuit)
    requires IsLoop(c)
    ensures var first := Steered(0, Var(0, 1), Ext(ZEXT, 8, Var(1, 4)));
      Unrolls(c.defs, 4, Forward(Steered(1, Var(2, 1), Forward(first))))
  {
    var first := Steered(0, Var(0, 1), Ext(ZEXT, 8, Var(1, 4)));
    var second := Steered(1, Var(2, 1), Forward(first));
    LoopSources(c);
    HandsItOn(c.defs, 3, first, 0);
    HandsItOn(c.defs, 4, Forward(first), 0);
    HandsItOn(c.defs, 3, second, 1);
    HandsItOn(c.defs, 4, Forward(second), 0);
  }
}
