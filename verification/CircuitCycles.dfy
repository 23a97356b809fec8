/** Forwarding cycles in circuits: the cycle pattern narrows a merge-like operation to what enters its cycle. */
module CircuitCycles {
  import opened Basics
  import opened Words
  import opened Transfer
  import opened DataForward
  import opened Expressions
  import opened PatternCosts
  import opened Circuits
  import opened CircuitSteps
  import opened CircuitShrinks
  import opened CircuitMeaning
  import opened CircuitKeeps
  import opened CircuitForwarders
  import opened CircuitTranslation
  import opened CircuitPass
  import Cycles = ForwardingCycles
  import CycleNarrowing

  // ----- a circuit as the cycle search sees it -----

  /** Forwarding operations keep their numbers, operations on values come behind them. */
  function ToValue(defs: seq<Def>, v: nat): Cycles.Value
    requires v < |defs|
  {
    match defs[v]
    case Source(_, _, _) => Cycles.FuncArg(v)
    case Node(_) => Cycles.Result(|defs| + v, 0)
    case Choice(_, _, op, _) => Cycles.Result(op, |Results(defs, op, v)|)
  }

  function ToValues(defs: seq<Def>, data: seq<nat>): seq<Cycles.Value>
    requires forall i | 0 <= i < |data| :: data[i] < |defs|
  {
    seq(|data|, i requires 0 <= i < |data| => ToValue(defs, data[i]))
  }

  function NodeOp(defs: seq<Def>, e: Expr): Cycles.Op
    requires IsFlat(defs, e)
  {
    ChildrenAreRefs(defs, e);
    match e
    case Select(c, t, f) => Cycles.Select(ToValue(defs, c.id), ToValue(defs, t.id), ToValue(defs, f.id))
    case Ext(k, to, a) => Cycles.Extend(k, a.width, to, ToValue(defs, a.id))
    case Const(w, x) => Cycles.Constant(w, x)
    case _ => Cycles.Compute
  }

  function ForwardOp(defs: seq<Def>, d: Def): Cycles.Op
    requires d.Choice? && GoodDef(defs, d)
  {
    match d.kind
    case Single => Cycles.Single(ToValue(defs, d.data[0]))
    case Branch(condition) => Cycles.CondBranch(ToValue(defs, condition), ToValue(defs, d.data[0]))
    case MergeLike(select) => Cycles.Mux(ToValue(defs, select), ToValues(defs, d.data))
  }

  predicate HasOp(defs: seq<Def>, k: nat) {
    if k < |defs| then IsForwarder(defs, k) else IsNode(defs, k - |defs|)
  }

  function GraphOp(defs: seq<Def>, k: nat): Cycles.Op
    requires AllGood(defs) && HasOp(defs, k)
  {
    if k < |defs| then ForwardOp(defs, ForwarderDef(defs, k))
    else
      assert GoodDef(defs, defs[k - |defs|]);
      NodeOp(defs, defs[k - |defs|].e)
  }

  function ToGraph(defs: seq<Def>): Cycles.Graph
    requires AllGood(defs)
  {
    map k: nat | k < 2 * |defs| && HasOp(defs, k) :: GraphOp(defs, k)
  }

  function WidthIn(defs: seq<Def>, v: Cycles.Value): nat {
    match v
    case FuncArg(i) => if i < |defs| then defs[i].Width() else 0
    case Result(k, _) =>
      if k < |defs| then if IsForwarder(defs, k) then ForwarderDef(defs, k).width else 0
      else if k < 2 * |defs| then defs[k - |defs|].Width() else 0
  }

  function ToWidths(defs: seq<Def>): Cycles.Widths {
    v => WidthIn(defs, v)
  }

  lemma NodeIsThere(defs: seq<Def>, v: nat)
    requires IsNode(defs, v)
    ensures |defs| + v in ToGraph(defs) && IsFlat(defs, defs[v].e) && ToGraph(defs)[|defs| + v] == NodeOp(defs, defs[v].e)
    ensures ToWidths(defs)(ToValue(defs, v)) == defs[v].Width()
  {
    assert GoodDef(defs, defs[v]);
    assert HasOp(defs, |defs| + v);
  }

  lemma ForwarderIsThere(defs: seq<Def>, v: nat)
    requires AllGood(defs) && v < |defs| && defs[v].Choice?
    requires forall u | 0 <= u < |defs| && defs[u].Choice? && defs[u].op == defs[v].op :: defs[u] == defs[v]
    ensures var k := defs[v].op;
      && IsForwarder(defs, k) && ForwarderDef(defs, k) == defs[v] && GoodDef(defs, defs[v])
      && k in ToGraph(defs) && ToGraph(defs)[k] == ForwardOp(defs, defs[v])
    ensures ToWidths(defs)(ToValue(defs, v)) == defs[v].Width()
  {
    assert GoodDef(defs, defs[v]);
    assert v in Results(defs, defs[v].op, |defs|);
    assert HasOp(defs, defs[v].op);
  }

  lemma WidthIs(c: Circuit, v: nat)
    requires Valid(c) && v < |c.defs|
    ensures ToWidths(c.defs)(ToValue(c.defs, v)) == c.defs[v].Width()
  {
    match c.defs[v]
    case Source(_, _, _) =>
    case Node(_) => NodeIsThere(c.defs, v);
    case Choice(_, _, _, _) => ForwarderIsThere(c.defs, v);
  }

  lemma SelectWidths(c: Circuit, v: nat, o: Cycles.Value)
    requires Valid(c) && IsNode(c.defs, v) && IsFlat(c.defs, c.defs[v].e) && o in Cycles.DataOperands(NodeOp(c.defs, c.defs[v].e))
    ensures ToWidths(c.defs)(o) == c.defs[v].Width() >= 1
  {
    var e := c.defs[v].e;
    ChildrenAreRefs(c.defs, e);
    assert e.Select? && GoodDef(c.defs, c.defs[v]);
    WidthIs(c, e.onTrue.id);
    WidthIs(c, e.onFalse.id);
  }

  lemma ChoiceWidths(c: Circuit, d: Def, o: Cycles.Value)
    requires Valid(c) && d.Choice? && GoodDef(c.defs, d) && o in Cycles.DataOperands(ForwardOp(c.defs, d))
    ensures ToWidths(c.defs)(o) == d.width >= 1
  {
    var j :| 0 <= j < |d.data| && ToValue(c.defs, d.data[j]) == o;
    WidthIs(c, d.data[j]);
  }

  lemma ForwarderWidths(c: Circuit, k: nat, r: nat, o: Cycles.Value)
    requires Valid(c) && k < |c.defs| && HasOp(c.defs, k) && o in Cycles.DataOperands(GraphOp(c.defs, k))
    ensures ToWidths(c.defs)(o) == ToWidths(c.defs)(Cycles.Result(k, r)) >= 1
  {
    ChoiceWidths(c, ForwarderDef(c.defs, k), o);
  }

  lemma NodeWidths(c: Circuit, k: nat, r: nat, o: Cycles.Value)
    requires Valid(c) && |c.defs| <= k < 2 * |c.defs| && HasOp(c.defs, k) && o in Cycles.DataOperands(GraphOp(c.defs, k))
    ensures ToWidths(c.defs)(o) == ToWidths(c.defs)(Cycles.Result(k, r)) >= 1
  {
    var v := k - |c.defs|;
    assert GoodDef(c.defs, c.defs[v]);
    SelectWidths(c, v, o);
    assert WidthIn(c.defs, Cycles.Result(k, r)) == c.defs[v].Width();
  }

  lemma NoControlMerge(defs: seq<Def>)
    requires AllGood(defs)
    ensures forall k | k in ToGraph(defs) :: !ToGraph(defs)[k].ControlMerge?
  {
  }

  lemma GraphForwards(c: Circuit)
    requires Valid(c)
    ensures forall v | Cycles.Forwards(ToGraph(c.defs), v) :: forall o | o in Cycles.DataOperands(ToGraph(c.defs)[v.op]) ::
              ToWidths(c.defs)(v) == ToWidths(c.defs)(o) >= 1
  {
    var g, w := ToGraph(c.defs), ToWidths(c.defs);
    forall v, o | Cycles.Forwards(g, v) && o in Cycles.DataOperands(g[v.op]) ensures w(v) == w(o) >= 1 {
      if v.op < |c.defs| {
        ForwarderWidths(c, v.op, v.res, o);
      } else {
        NodeWidths(c, v.op, v.res, o);
      }
    }
  }

  /** What extensions and constants of the graph are in the circuit. */
  lemma GraphOperation(c: Circuit, v: Cycles.Value)
    requires Valid(c) && Cycles.HasDef(ToGraph(c.defs), v) && (ToGraph(c.defs)[v.op].Extend? || ToGraph(c.defs)[v.op].Constant?)
    ensures var op := ToGraph(c.defs)[v.op]; var w := ToWidths(c.defs)(v);
      && (op.Extend? ==> op.kind != NONE && 1 <= op.from <= op.to == w)
      && (op.Constant? ==> op.width >= 1 && op.value < Pow2(op.width) && w == op.width)
  {
    assert HasOp(c.defs, v.op) && v.op >= |c.defs|;
    var u := v.op - |c.defs|;
    assert GoodDef(c.defs, c.defs[u]);
    ChildrenAreRefs(c.defs, c.defs[u].e);
  }

  lemma AreTyped(g: Cycles.Graph, w: Cycles.Widths)
    requires forall k | k in g :: !g[k].ControlMerge?
    requires forall v | Cycles.Forwards(g, v) :: forall o | o in Cycles.DataOperands(g[v.op]) :: w(v) == w(o) >= 1
    requires forall v | Cycles.HasDef(g, v) && g[v.op].Extend? :: g[v.op].kind != NONE && 1 <= g[v.op].from <= g[v.op].to == w(v)
    requires forall v | Cycles.HasDef(g, v) && g[v.op].Constant? ::
               g[v.op].width >= 1 && g[v.op].value < Pow2(g[v.op].width) && w(v) == g[v.op].width
    ensures Cycles.WellTyped(g, w)
  {
  }

  lemma GraphTyped(c: Circuit)
    requires Valid(c)
    ensures Cycles.WellTyped(ToGraph(c.defs), ToWidths(c.defs))
  {
    var g, w := ToGraph(c.defs), ToWidths(c.defs);
    NoControlMerge(c.defs);
    GraphForwards(c);
    forall v | Cycles.HasDef(g, v) && (g[v.op].Extend? || g[v.op].Constant?)
      ensures g[v.op].Extend? ==> g[v.op].kind != NONE && 1 <= g[v.op].from <= g[v.op].to == w(v)
      ensures g[v.op].Constant? ==> g[v.op].width >= 1 && g[v.op].value < Pow2(g[v.op].width) && w(v) == g[v.op].width
    {
      GraphOperation(c, v);
    }
    AreTyped(g, w);
  }

  /** The graph shows every value of the circuit as made by what makes it. */
  ghost predicate Shows(c: Circuit, g: Cycles.Graph, w: Cycles.Widths) {
    && AllGood(c.defs) && Cycles.WellTyped(g, w) && (forall k | k in g :: !g[k].ControlMerge?)
    && (forall v: nat | v < |c.defs| :: w(ToValue(c.defs, v)) == c.defs[v].Width())
    && (forall v: nat | v < |c.defs| && c.defs[v].Node? :: |c.defs| + v in g && IsFlat(c.defs, c.defs[v].e) && g[|c.defs| + v] == NodeOp(c.defs, c.defs[v].e))
    && forall v: nat | v < |c.defs| && c.defs[v].Choice? ::
         c.defs[v].op in g && GoodDef(c.defs, c.defs[v]) && g[c.defs[v].op] == ForwardOp(c.defs, c.defs[v])
  }

  lemma GraphWidths(c: Circuit)
    requires Valid(c)
    ensures forall v: nat | v < |c.defs| :: ToWidths(c.defs)(ToValue(c.defs, v)) == c.defs[v].Width()
  {
    forall v: nat | v < |c.defs| ensures ToWidths(c.defs)(ToValue(c.defs, v)) == c.defs[v].Width() {
      WidthIs(c, v);
    }
  }

  lemma GraphNodes(c: Circuit)
    requires Valid(c)
    ensures forall v: nat | v < |c.defs| && c.defs[v].Node? ::
              |c.defs| + v in ToGraph(c.defs) && IsFlat(c.defs, c.defs[v].e) && ToGraph(c.defs)[|c.defs| + v] == NodeOp(c.defs, c.defs[v].e)
  {
    forall v: nat | v < |c.defs| && c.defs[v].Node?
      ensures |c.defs| + v in ToGraph(c.defs) && IsFlat(c.defs, c.defs[v].e) && ToGraph(c.defs)[|c.defs| + v] == NodeOp(c.defs, c.defs[v].e)
    {
      NodeIsThere(c.defs, v);
    }
  }

  lemma GraphChoices(c: Circuit)
    requires Valid(c)
    ensures forall v: nat | v < |c.defs| && c.defs[v].Choice? ::
              c.defs[v].op in ToGraph(c.defs) && GoodDef(c.defs, c.defs[v]) && ToGraph(c.defs)[c.defs[v].op] == ForwardOp(c.defs, c.defs[v])
  {
    forall v: nat | v < |c.defs| && c.defs[v].Choice?
      ensures c.defs[v].op in ToGraph(c.defs) && GoodDef(c.defs, c.defs[v]) && ToGraph(c.defs)[c.defs[v].op] == ForwardOp(c.defs, c.defs[v])
    {
      ForwarderIsThere(c.defs, v);
    }
  }

  lemma GraphShows(c: Circuit)
    requires Valid(c)
    ensures Shows(c, ToGraph(c.defs), ToWidths(c.defs))
  {
    GraphTyped(c);
    GraphWidths(c);
    GraphNodes(c);
    GraphChoices(c);
    NoControlMerge(c.defs);
    AreShown(c, ToGraph(c.defs), ToWidths(c.defs));
  }

  lemma AreShown(c: Circuit, g: Cycles.Graph, w: Cycles.Widths)
    requires AllGood(c.defs) && Cycles.WellTyped(g, w) && (forall k | k in g :: !g[k].ControlMerge?)
    requires forall v: nat | v < |c.defs| :: w(ToValue(c.defs, v)) == c.defs[v].Width()
    requires forall v: nat | v < |c.defs| && c.defs[v].Node? ::
               |c.defs| + v in g && IsFlat(c.defs, c.defs[v].e) && g[|c.defs| + v] == NodeOp(c.defs, c.defs[v].e)
    requires forall v: nat | v < |c.defs| && c.defs[v].Choice? ::
               c.defs[v].op in g && GoodDef(c.defs, c.defs[v]) && g[c.defs[v].op] == ForwardOp(c.defs, c.defs[v])
    ensures Shows(c, g, w)
  {
  }

  // ----- histories as runs -----

  ghost predicate RunYields(g: Cycles.Graph, w: Cycles.Widths, run: Cycles.Run, v: Cycles.Value, token: nat) {
    run != [] && Cycles.IsRun(g, w, run) && run[|run| - 1].channel == v && Cycles.Token(run, |run| - 1) == token
  }

  /** A token that is forwarded once more. */
  lemma RunForward(g: Cycles.Graph, w: Cycles.Widths, run: Cycles.Run, from: Cycles.Value, v: Cycles.Value, token: nat)
    requires RunYields(g, w, run, from, token) && Cycles.Forwards(g, v) && from in Cycles.DataOperands(g[v.op])
    ensures RunYields(g, w, run + [Cycles.Forwarded(v, |run| - 1)], v, token)
  {
    Cycles.SameToken(run, run + [Cycles.Forwarded(v, |run| - 1)], |run| - 1);
  }

  /** The last forwards of a history are a run. */
  lemma {:induction false} HistoryRun(c: Circuit, g: Cycles.Graph, w: Cycles.Widths, v: nat, e: Expr, env: Env) returns (run: Cycles.Run)
    requires Shows(c, g, w) && Unrolls(c.defs, v, e) && WellTyped(e)
    ensures RunYields(g, w, run, ToValue(c.defs, v), Eval(e, env))
    decreases e, 1
  {
    UnrollTyped(c.defs, v, e);
    if c.defs[v].Choice? {
      var j := HandedOn(c.defs, v, e);
      run := HistoryRun(c, g, w, c.defs[v].data[j], e.arg, env);
      ForwardedFrom(c, g, w, v, j);
      RunForward(g, w, run, ToValue(c.defs, c.defs[v].data[j]), ToValue(c.defs, v), Eval(e, env));
      run := run + [Cycles.Forwarded(ToValue(c.defs, v), |run| - 1)];
    } else if c.defs[v].Node? && c.defs[v].e.Select? {
      run := SelectRun(c, g, w, v, e, env);
    } else {
      ProducedBy(c, g, w, v, e, env);
      run := [Cycles.Produced(ToValue(c.defs, v), Eval(e, env))];
    }
  }

  lemma ForwardedFrom(c: Circuit, g: Cycles.Graph, w: Cycles.Widths, v: nat, j: nat)
    requires Shows(c, g, w) && v < |c.defs| && c.defs[v].Choice? && j < |c.defs[v].data|
    ensures c.defs[v].data[j] < |c.defs| && Cycles.Forwards(g, ToValue(c.defs, v))
    ensures ToValue(c.defs, c.defs[v].data[j]) in Cycles.DataOperands(g[ToValue(c.defs, v).op])
  {
    var d := c.defs[v];
    assert GoodDef(c.defs, d);
    if d.kind.MergeLike? {
      assert ToValues(c.defs, d.data)[j] == ToValue(c.defs, d.data[j]);
    }
  }

  lemma SelectedFrom(c: Circuit, g: Cycles.Graph, w: Cycles.Widths, v: nat)
    requires Shows(c, g, w) && v < |c.defs| && c.defs[v].Node? && c.defs[v].e.Select?
    ensures var e := c.defs[v].e; e.onTrue.Var? && e.onTrue.id < |c.defs| && e.onFalse.Var? && e.onFalse.id < |c.defs|
    ensures var f, r := c.defs[v].e, ToValue(c.defs, v);
      && Cycles.Forwards(g, r)
      && ToValue(c.defs, f.onTrue.id) in Cycles.DataOperands(g[r.op]) && ToValue(c.defs, f.onFalse.id) in Cycles.DataOperands(g[r.op])
  {
    var f := c.defs[v].e;
    assert GoodDef(c.defs, c.defs[v]);
    ChildrenAreRefs(c.defs, f);
    assert Child(f, 1) == f.onTrue && Child(f, 2) == f.onFalse;
    var data := Cycles.DataOperands(g[ToValue(c.defs, v).op]);
    assert data == [ToValue(c.defs, f.onTrue.id), ToValue(c.defs, f.onFalse.id)];
    assert data[0] in data && data[1] in data;
  }

  lemma {:induction false} SelectRun(c: Circuit, g: Cycles.Graph, w: Cycles.Widths, v: nat, e: Expr, env: Env) returns (run: Cycles.Run)
    requires Shows(c, g, w) && Unrolls(c.defs, v, e) && WellTyped(e) && c.defs[v].Node? && c.defs[v].e.Select?
    ensures RunYields(g, w, run, ToValue(c.defs, v), Eval(e, env))
    decreases e, 0
  {
    var f := c.defs[v].e;
    SelectedFrom(c, g, w, v);
    assert SameOp(f, e) && Child(e, 1) == e.onTrue && Child(e, 2) == e.onFalse && Child(f, 1) == f.onTrue && Child(f, 2) == f.onFalse;
    var x, a := f.onFalse.id, e.onFalse;
    if Eval(e.cond, env) != 0 {
      x, a := f.onTrue.id, e.onTrue;
    }
    assert Unrolls(c.defs, x, a);
    run := HistoryRun(c, g, w, x, a, env);
    RunForward(g, w, run, ToValue(c.defs, x), ToValue(c.defs, v), Eval(e, env));
    run := run + [Cycles.Forwarded(ToValue(c.defs, v), |run| - 1)];
  }

  /** What does not forward may produce what its history yields. */
  lemma ProducedBy(c: Circuit, g: Cycles.Graph, w: Cycles.Widths, v: nat, e: Expr, env: Env)
    requires Shows(c, g, w) && Unrolls(c.defs, v, e) && WellTyped(e) && !c.defs[v].Choice? && !(c.defs[v].Node? && c.defs[v].e.Select?)
    ensures Cycles.MayProduce(g, w, ToValue(c.defs, v), Eval(e, env))
  {
    UnrollTyped(c.defs, v, e);
    if c.defs[v].Node? {
      assert GoodDef(c.defs, c.defs[v]) && SameOp(c.defs[v].e, e);
      if c.defs[v].e.Ext? {
        ExtendedToken(c.defs, c.defs[v].e, e, env);
      }
    }
  }

  lemma ExtendedToken(defs: seq<Def>, f: Expr, e: Expr, env: Env)
    requires AllGood(defs) && IsFlat(defs, f) && f.Ext? && SameOp(f, e) && WellTyped(e)
    requires forall i: nat | i < Arity(e) :: Child(f, i).Var? && Unrolls(defs, Child(f, i).id, Child(e, i))
    ensures f.arg.Var? && exists u: nat :: u < Pow2(f.arg.width) && Eval(e, env) == ModBitWidth(ExtWidth(f.kind, f.arg.width), u, f.to)
  {
    ChildrenAreRefs(defs, f);
    assert Child(f, 0) == f.arg && Child(e, 0) == e.arg;
    UnrollTyped(defs, f.arg.id, e.arg);
    var u := Eval(e.arg, env);
    assert Eval(e, env) == ModBitWidth(ExtWidth(f.kind, f.arg.width), u, f.to);
  }

  // ----- the cycle pattern -----

  /** The values that enter the cycle of a merge-like operation, as the search collects them. */
  function EnteringOf(c: Circuit, op: nat): set<Cycles.Value>
    requires IsForwarder(c.defs, op)
  {
    var r := Results(c.defs, op, |c.defs|)[0];
    Cycles.Entering(ToGraph(c.defs), ToValues(c.defs, ForwarderDef(c.defs, op).data), ToValue(c.defs, r))
  }

  /** The shape the pattern computes: that of the minimal values behind what enters the cycle. */
  ghost predicate IsCycleShape(c: Circuit, op: nat, t: ExtWidth) {
    && Valid(c) && Narrows(c, op, t) && ForwarderDef(c.defs, op).kind.MergeLike?
    && Cycles.WellTyped(ToGraph(c.defs), ToWidths(c.defs))
    && exists shapes: seq<ExtWidth> :: shapes != [] && t == ForwardShape(shapes)
         && CycleNarrowing.ShapesOf(ToGraph(c.defs), ToWidths(c.defs), EnteringOf(c, op), shapes)
  }

  lemma NoIndexLeads(c: Circuit, g: Cycles.Graph, w: Cycles.Widths, v: Cycles.Value)
    requires Shows(c, g, w)
    ensures !Cycles.IndexLeads(g, {}, v)
  {
  }

  /** What a data operand may carry survives the shape of the cycle. */
  lemma CycleToken(c: Circuit, g: Cycles.Graph, w: Cycles.Widths, r: nat, j: nat, a: Expr, env: Env, shapes: seq<ExtWidth>)
    requires Shows(c, g, w) && r < |c.defs| && c.defs[r].Choice? && c.defs[r].kind.MergeLike?
    requires j < |c.defs[r].data| && Unrolls(c.defs, c.defs[r].data[j], a) && WellTyped(a)
    requires (forall i | 0 <= i < |c.defs[r].data| :: c.defs[r].data[i] < |c.defs|) && shapes != []
    requires CycleNarrowing.ShapesOf(g, w, Cycles.Entering(g, ToValues(c.defs, c.defs[r].data), ToValue(c.defs, r)), shapes)
    requires 1 <= ForwardShape(shapes).bitWidth < c.defs[r].Width()
    ensures ModBitWidth(ForwardShape(shapes), Wrap(Eval(a, env), ForwardShape(shapes).bitWidth), c.defs[r].Width()) == Eval(a, env)
  {
    var res := ToValue(c.defs, r);
    var run := HistoryRun(c, g, w, c.defs[r].data[j], a, env);
    ForwardedFrom(c, g, w, r, j);
    RunForward(g, w, run, ToValue(c.defs, c.defs[r].data[j]), res, Eval(a, env));
    var more := run + [Cycles.Forwarded(res, |run| - 1)];
    NoIndexLeads(c, g, w, res);
    assert GoodDef(c.defs, c.defs[r]);
    assert Cycles.DataOperands(g[res.op]) == ToValues(c.defs, c.defs[r].data);
    CycleNarrowing.ResultTokensNarrow(g, w, more, |more| - 1, res, shapes);
  }

  /** The cycle pattern is sound in every circuit: whatever arrives on the operation's operands survives. */
  lemma CycleSurvives(c: Circuit, op: nat, t: ExtWidth)
    requires IsCycleShape(c, op, t)
    ensures AllSurvive(c.defs, ForwarderDef(c.defs, op).data, t, ForwarderDef(c.defs, op).width, Narrowing(ResultSet(c, op), 0, true))
  {
    var g, w, d, r := ToGraph(c.defs), ToWidths(c.defs), ForwarderDef(c.defs, op), Results(c.defs, op, |c.defs|)[0];
    GraphShows(c);
    var shapes: seq<ExtWidth> :| shapes != [] && t == ForwardShape(shapes) && CycleNarrowing.ShapesOf(g, w, EnteringOf(c, op), shapes);
    forall j: nat, a: Expr, env: Env | j < |d.data| && Unrolls(c.defs, d.data[j], a) && WellTyped(a)
      ensures Survives(t, d.width, Eval(a, env), Narrowing(ResultSet(c, op), 0, true))
    {
      CycleToken(c, g, w, r, j, a, env, shapes);
    }
  }

  lemma CycleSound(c: Circuit, op: nat, t: ExtWidth) returns (s: Rewriting, n: Narrowing)
    requires IsCycleShape(c, op, t)
    ensures KeepsOutputs(c, s, n, NarrowForwarder(c, op, t))
  {
    CycleSurvives(c, op, t);
    s, n := Forwarding(op, t), Narrowing(ResultSet(c, op), 0, true);
    SurvivingSound(c, op, t, n);
  }
}
