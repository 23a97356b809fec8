/** Narrowing inside data-forwarding cycles of a dataflow circuit.

The circuit is a graph of operations; a run is a history of tokens appearing on channels, each one either produced by
an operation that computes or forwarded from an earlier token. Merges choose freely, so every interleaving is a run.
 */
module ForwardingCycles {
  import opened Words
  import opened Transfer
  import opened Scalar

  // ----- circuits -----

  datatype Value = FuncArg(index: nat) | Result(op: nat, res: nat)

  /** `Single` stands for buffers, forks, lazy forks and unconditional branches; `Merge` and `Mux` are merge-like. Result 0
      of a control merge is the merged data, its other result the index of the chosen operand. */
  datatype Op =
    | Single(operand: Value)
    | CondBranch(condition: Value, data: Value)
    | Merge(operands: seq<Value>)
    | Mux(select: Value, operands: seq<Value>)
    | ControlMerge(operands: seq<Value>)
    | Select(condition: Value, onTrue: Value, onFalse: Value)
    | Extend(kind: ExtType, from: nat, to: nat, operand: Value)
    | Constant(width: nat, value: nat)
    | Compute

  type Graph = map<nat, Op>

  predicate HasDef(g: Graph, v: Value) {
    v.Result? && v.op in g
  }

  predicate MergeLike(op: Op) {
    op.Merge? || op.Mux? || op.ControlMerge?
  }

  /** The operands one of which an operation hands on unchanged. */
  function DataOperands(op: Op): seq<Value> {
    match op
    case Single(o) => [o]
    case CondBranch(_, d) => [d]
    case Merge(os) => os
    case Mux(_, os) => os
    case ControlMerge(os) => os
    case Select(_, t, f) => [t, f]
    case _ => []
  }

  predicate IsForwarder(op: Op) {
    MergeLike(op) || op.Single? || op.CondBranch? || op.Select?
  }

  predicate IsIndex(g: Graph, v: Value) {
    HasDef(g, v) && g[v.op].ControlMerge? && v.res != 0
  }

  /** The value really carries a forwarded token. */
  predicate Forwards(g: Graph, v: Value) {
    HasDef(g, v) && IsForwarder(g[v.op]) && !IsIndex(g, v)
  }

  /** The operation that defines `next` may hand a token on `v` on to it. */
  predicate HandsOn(g: Graph, v: Value, next: Value) {
    Forwards(g, next) && v in DataOperands(g[next.op])
  }

  /** A token on `v` can be forwarded to `u` in `n` steps, without being on a value of `stop` before it gets there. */
  ghost predicate Leads(g: Graph, stop: set<Value>, v: Value, u: Value, n: nat)
    decreases n
  {
    if n == 0 then v == u
    else v !in stop && exists next :: HandsOn(g, v, next) && Leads(g, stop, next, u, n - 1)
  }

  /** The index of some control merge can be forwarded, as data, to `u`. */
  ghost predicate IndexLeads(g: Graph, stop: set<Value>, u: Value) {
    exists x, n: nat :: IsIndex(g, x) && Leads(g, stop, x, u, n)
  }

  // ----- the search -----

  /** Whether `val` is in a forwarding cycle with `res`; `visited` holds the operations on the way from the first value. */
  predicate InCycle(g: Graph, val: Value, res: Value, visited: set<nat>)
    decreases g.Keys - visited
  {
    || val == res
    || (HasDef(g, val)
        && (val.op in visited
            || exists o | o in DataOperands(g[val.op]) :: InCycle(g, o, res, visited + {val.op})))
  }

  /** The values fed into the cycle along the way. */
  function Merged(g: Graph, val: Value, res: Value, visited: set<nat>): set<Value>
    decreases g.Keys - visited, 0
  {
    if val == res || !HasDef(g, val) || val.op in visited then {}
    else
      var seen := visited + {val.op};
      MergedBelow(g, DataOperands(g[val.op]), res, seen)
      + (if InCycle(g, val, res, visited) then OutOfCycle(g, DataOperands(g[val.op]), res, seen) else {})
  }

  /** What the searches of the operands that are in the cycle have merged. */
  function MergedBelow(g: Graph, operands: seq<Value>, res: Value, seen: set<nat>): set<Value>
    decreases g.Keys - seen, 1
  {
    set o, m | o in operands && InCycle(g, o, res, seen) && m in Merged(g, o, res, seen) :: m
  }

  function OutOfCycle(g: Graph, operands: seq<Value>, res: Value, seen: set<nat>): set<Value> {
    set o | o in operands && !InCycle(g, o, res, seen)
  }

  lemma MergedOutOfCycle(g: Graph, val: Value, res: Value, visited: set<nat>)
    requires !InCycle(g, val, res, visited)
    ensures Merged(g, val, res, visited) == {}
  {
  }

  lemma MergedOfSingle(g: Graph, val: Value, res: Value, visited: set<nat>, o: Value)
    requires HasDef(g, val) && val != res && val.op !in visited && DataOperands(g[val.op]) == [o]
    ensures InCycle(g, val, res, visited) == InCycle(g, o, res, visited + {val.op})
    ensures Merged(g, val, res, visited) == Merged(g, o, res, visited + {val.op})
  {
    var seen := visited + {val.op};
    assert o in DataOperands(g[val.op]);
    if InCycle(g, o, res, seen) {
      assert MergedBelow(g, [o], res, seen) == Merged(g, o, res, seen);
    } else {
      MergedOutOfCycle(g, o, res, seen);
    }
  }

  /** The recursive search, accumulating merged values in place. */
  class CycleSearch {
    const graph: Graph
    var mergedValues: set<Value>

    constructor (g: Graph)
      ensures graph == g && mergedValues == {}
    {
      graph := g;
      mergedValues := {};
    }

    method IsOperandInCycle(val: Value, res: Value, visited: set<nat>) returns (inCycle: bool)
      modifies this
      ensures inCycle == InCycle(graph, val, res, visited)
      ensures mergedValues == old(mergedValues) + Merged(graph, val, res, visited)
      decreases graph.Keys - visited, 1
    {
      // The result of the merge-like operation has been reached
      if val == res {
        return true;
      }
      // Function arguments have no defining operation
      if !HasDef(graph, val) {
        return false;
      }
      if val.op in visited {
        return true;
      }
      var op := graph[val.op];
      var seen := visited + {val.op};
      match op
      case Single(operand) =>
        MergedOfSingle(graph, val, res, visited, operand);
        inCycle := IsOperandInCycle(operand, res, seen);
      case CondBranch(_, data) =>
        MergedOfSingle(graph, val, res, visited, data);
        inCycle := IsOperandInCycle(data, res, seen);
      case Extend(_, _, _, _) => return false;
      case Constant(_, _) => return false;
      case Compute => return false;
      case _ =>
        inCycle := RecurseMergeLike(DataOperands(op), res, seen);
    }

    /** Explores every data operand; when one is in the cycle, the others feed it. */
    method RecurseMergeLike(operands: seq<Value>, res: Value, seen: set<nat>) returns (oneInCycle: bool)
      modifies this
      ensures oneInCycle == exists o | o in operands :: InCycle(graph, o, res, seen)
      ensures mergedValues == old(mergedValues) + MergedBelow(graph, operands, res, seen)
              + (if oneInCycle then OutOfCycle(graph, operands, res, seen) else {})
      decreases graph.Keys - seen, 2, |operands|
    {
      oneInCycle := false;
      var outside: set<Value> := {};
      for i := 0 to |operands|
        invariant oneInCycle == exists o | o in operands[..i] :: InCycle(graph, o, res, seen)
        invariant outside == OutOfCycle(graph, operands[..i], res, seen)
        invariant mergedValues == old(mergedValues) + MergedBelow(graph, operands[..i], res, seen)
      {
        assert operands[..i + 1] == operands[..i] + [operands[i]];
        var inCycle := IsOperandInCycle(operands[i], res, seen);
        if !inCycle {
          MergedOutOfCycle(graph, operands[i], res, seen);
        }
        if inCycle {
          oneInCycle := true;
        } else {
          outside := outside + {operands[i]};
        }
      }
      assert operands[..|operands|] == operands;
      if oneInCycle {
        mergedValues := mergedValues + outside;
      }
    }
  }

  // ----- runs -----

  /** A token appears on a channel: computed by a non-forwarding operation, or forwarded from an earlier event. */
  datatype Event = Produced(channel: Value, token: nat) | Forwarded(channel: Value, from: nat)

  type Run = seq<Event>

  /** Widths of the channels, and what the verifiers of the operations guarantee about them. */
  type Widths = Value -> nat

  /** The width that holds the indices of `n` operands, at least one bit. */
  predicate IsIndexWidth(n: nat, w: nat) {
    n >= 1 && w >= 1 && n <= Pow2(w) && (w >= 2 ==> Pow2(w - 1) < n)
  }

  ghost predicate WellTyped(g: Graph, w: Widths) {
    && (forall v | IsIndex(g, v) :: IsIndexWidth(|g[v.op].operands|, w(v)))
    && (forall v | Forwards(g, v) :: forall o | o in DataOperands(g[v.op]) :: w(v) == w(o) >= 1)
    && (forall v | HasDef(g, v) && g[v.op].Extend? ::
          g[v.op].kind != NONE && 1 <= g[v.op].from <= g[v.op].to == w(v))
    && (forall v | HasDef(g, v) && g[v.op].Constant? ::
          g[v.op].width >= 1 && g[v.op].value < Pow2(g[v.op].width) && w(v) == g[v.op].width)
  }

  /** Tokens the operation defining a channel may produce on it. */
  ghost predicate MayProduce(g: Graph, w: Widths, v: Value, token: nat) {
    && !Forwards(g, v)
    && token < Pow2(w(v))
    && (IsIndex(g, v) ==> token < |g[v.op].operands|)
    && (HasDef(g, v) && g[v.op].Extend? && g[v.op].from >= 1 ==>
          exists u: nat :: u < Pow2(g[v.op].from) && token == ModBitWidth(ExtWidth(g[v.op].kind, g[v.op].from), u, g[v.op].to))
    && (HasDef(g, v) && g[v.op].Constant? ==> token == g[v.op].value)
  }

  ghost predicate IsRun(g: Graph, w: Widths, run: Run) {
    forall i | 0 <= i < |run| ::
      match run[i]
      case Produced(v, t) => MayProduce(g, w, v, t)
      case Forwarded(v, j) => j < i && Forwards(g, v) && run[j].channel in DataOperands(g[v.op])
  }

  /** The token of an event. */
  function Token(run: Run, i: nat): nat
    requires i < |run|
  {
    match run[i]
    case Produced(_, t) => t
    case Forwarded(_, j) => if j < i then Token(run, j) else 0
  }

  // ----- histories -----

  /** Event `k` is event `i` or one that its token was forwarded from. */
  ghost predicate InHistory(run: Run, k: nat, i: nat)
    requires i < |run|
  {
    k == i || (run[i].Forwarded? && run[i].from < i && InHistory(run, k, run[i].from))
  }

  lemma {:induction false} HistoryToken(run: Run, k: nat, i: nat)
    requires i < |run| && InHistory(run, k, i)
    ensures k <= i && Token(run, k) == Token(run, i)
    decreases i
  {
    if k != i {
      HistoryToken(run, k, run[i].from);
    }
  }

  lemma {:induction false} HistoryTransitive(run: Run, k: nat, j: nat, i: nat)
    requires k <= j <= i < |run| && InHistory(run, k, j) && InHistory(run, j, i)
    ensures InHistory(run, k, i)
    decreases i
  {
    if j != i {
      HistoryToken(run, j, run[i].from);
      HistoryTransitive(run, k, j, run[i].from);
    }
  }

  ghost predicate Avoids(run: Run, i: nat, stop: set<Value>)
    requires i < |run|
  {
    forall j: nat | j < i && InHistory(run, j, i) :: run[j].channel !in stop
  }

  lemma AvoidsBefore(run: Run, i: nat, stop: set<Value>)
    requires i < |run| && Avoids(run, i, stop) && run[i].Forwarded? && run[i].from < i
    ensures run[run[i].from].channel !in stop && Avoids(run, run[i].from, stop)
  {
    var from := run[i].from;
    assert InHistory(run, from, from) && InHistory(run, from, i);
    forall j: nat | j < from && InHistory(run, j, from) ensures run[j].channel !in stop {
      assert InHistory(run, j, i);
    }
  }

  lemma LeadsFurther(g: Graph, stop: set<Value>, v: Value, next: Value, u: Value, n: nat)
    requires HandsOn(g, v, next) && v !in stop && Leads(g, stop, next, u, n)
    ensures Leads(g, stop, v, u, n + 1)
  {
  }

  /** Where the events in a history happen leads to where its last event happens, unless a value of `stop` is met. */
  lemma {:induction false} HistoryLeads(g: Graph, w: Widths, run: Run, k: nat, i: nat, stop: set<Value>, u: Value, n: nat)
    requires IsRun(g, w, run) && k <= i < |run| && InHistory(run, k, i) && Leads(g, stop, run[i].channel, u, n)
    requires Avoids(run, i, stop)
    ensures exists m: nat :: Leads(g, stop, run[k].channel, u, m)
    decreases i
  {
    if k != i {
      var from := run[i].from;
      HistoryToken(run, k, from);
      AvoidsBefore(run, i, stop);
      LeadsFurther(g, stop, run[from].channel, run[i].channel, u, n);
      HistoryLeads(g, w, run, k, from, stop, u, n + 1);
    }
  }

  // ----- where the tokens on a value in a cycle come from -----

  /** The token of event `i` was earlier on `res`, on one of `sources`, on a result of a visited operation, or is an index. */
  ghost predicate Sourced(g: Graph, run: Run, i: nat, res: Value, sources: set<Value>, visited: set<nat>)
    requires i < |run|
  {
    exists j: nat | j <= i :: InHistory(run, j, i) && IsSource(g, run[j].channel, res, sources, visited)
  }

  predicate IsSource(g: Graph, v: Value, res: Value, sources: set<Value>, visited: set<nat>) {
    v == res || v in sources || IsIndex(g, v) || (Forwards(g, v) && v.op in visited)
  }

  lemma {:induction false} InCycleSourced(g: Graph, w: Widths, run: Run, i: nat, val: Value, res: Value, visited: set<nat>)
    requires IsRun(g, w, run)
    requires i < |run| && run[i].channel == val
    requires InCycle(g, val, res, visited)
    requires forall id | id in visited :: id in g && IsForwarder(g[id])
    ensures Sourced(g, run, i, res, Merged(g, val, res, visited), visited)
    decreases i
  {
    var merged := Merged(g, val, res, visited);
    if val == res || val.op in visited || IsIndex(g, val) {
      assert InHistory(run, i, i) && IsSource(g, val, res, merged, visited);
    } else {
      InCycleForwards(g, val, res, visited);
      var seen := visited + {val.op};
      var j := run[i].from;
      var o := run[j].channel;
      assert InHistory(run, j, j) && InHistory(run, j, i);
      MergedContains(g, val, res, visited, o);
      if !InCycle(g, o, res, seen) {
        assert IsSource(g, o, res, merged, visited);
      } else {
        InCycleSourced(g, w, run, j, o, res, seen);
        var k: nat :| k <= j && InHistory(run, k, j)
                      && IsSource(g, run[k].channel, res, Merged(g, o, res, seen), seen);
        HistoryTransitive(run, k, j, i);
        var v := run[k].channel;
        if !IsSource(g, v, res, merged, visited) {
          // Back at a result of the operation itself, earlier in the run
          assert v.op == val.op;
          SameOpSameCycle(g, val, v, res, visited);
          InCycleSourced(g, w, run, k, v, res, visited);
          var l: nat :| l <= k && InHistory(run, l, k) && IsSource(g, run[l].channel, res, merged, visited);
          HistoryTransitive(run, l, k, i);
        }
      }
    }
  }

  lemma MergedContains(g: Graph, val: Value, res: Value, visited: set<nat>, o: Value)
    requires HasDef(g, val) && val != res && val.op !in visited && o in DataOperands(g[val.op])
    ensures InCycle(g, val, res, visited) && !InCycle(g, o, res, visited + {val.op}) ==> o in Merged(g, val, res, visited)
    ensures InCycle(g, o, res, visited + {val.op}) ==>
              Merged(g, o, res, visited + {val.op}) <= Merged(g, val, res, visited)
  {
    var seen := visited + {val.op};
    if InCycle(g, o, res, seen) {
      assert Merged(g, o, res, seen) <= MergedBelow(g, DataOperands(g[val.op]), res, seen);
    }
  }

  lemma InCycleForwards(g: Graph, val: Value, res: Value, visited: set<nat>)
    requires InCycle(g, val, res, visited) && val != res && !IsIndex(g, val)
    ensures HasDef(g, val)
    ensures val.op !in visited ==> Forwards(g, val)
  {
  }

  lemma SameOpSameCycle(g: Graph, val: Value, v: Value, res: Value, visited: set<nat>)
    requires HasDef(g, val) && HasDef(g, v) && v.op == val.op && v != res && val != res && val.op !in visited
    ensures InCycle(g, v, res, visited) == InCycle(g, val, res, visited)
    ensures Merged(g, v, res, visited) == Merged(g, val, res, visited)
  {
  }

  /** Cycle soundness: when the search says that an operand is in a forwarding cycle with `res`, then in every run every
      token on that operand was, no later and unchanged, on `res` or on one of the merged values, or is an index. */
  lemma CycleSound(g: Graph, w: Widths, run: Run, i: nat, val: Value, res: Value)
    requires IsRun(g, w, run) && i < |run| && run[i].channel == val
    requires InCycle(g, val, res, {})
    ensures exists j: nat | j <= i :: InHistory(run, j, i)
              && (run[j].channel == res || run[j].channel in Merged(g, val, res, {}) || IsIndex(g, run[j].channel))
  {
    InCycleSourced(g, w, run, i, val, res, {});
    var j: nat :| j <= i && InHistory(run, j, i) && IsSource(g, run[j].channel, res, Merged(g, val, res, {}), {});
  }

  /** The search goes through the index of a control merge as if it were the merged data. A circuit in which such an index is
      leads to the result has a run whose token is neither from the result nor from a merged value. */
  lemma ForwardedIndexEscapes() returns (g: Graph, w: Widths, run: Run, val: Value, res: Value)
    ensures WellTyped(g, w) && IsRun(g, w, run) && |run| == 2 && run[1].channel == res && run[0].channel == val
    ensures g.Keys == {0, 1} && g[0] == Merge([FuncArg(0), val]) && res == Result(0, 0)
    ensures InCycle(g, val, res, {})
    ensures forall j: nat | j <= 1 && Token(run, j) == Token(run, 1) :: run[j].channel !in Merged(g, val, res, {}) + {FuncArg(0)}
    ensures Leads(g, {}, val, res, 1) && IsIndex(g, val)
  {
    val, res := Result(1, 1), Result(0, 0);
    g := map[0 := Merge([FuncArg(0), val]), 1 := ControlMerge([res, FuncArg(1)])];
    w := (v: Value) => 1;
    run := [Produced(val, 1), Forwarded(res, 0)];
    assert DataOperands(g[0]) == [FuncArg(0), val] && DataOperands(g[1]) == [res, FuncArg(1)];
    assert res in DataOperands(g[1]) && InCycle(g, res, res, {1});
    assert !InCycle(g, FuncArg(1), res, {1});
    assert MayProduce(g, w, val, 1);
    assert MergedBelow(g, DataOperands(g[1]), res, {1}) == {};
    assert {} + {val.op} == {1};
    assert OutOfCycle(g, DataOperands(g[1]), res, {1}) == {FuncArg(1)};
    assert HandsOn(g, val, res) && Leads(g, {}, res, res, 0);
  }

  // ----- narrowing the merge -----

  /** All values entering the cycle of a merge-like operation with result `res`. */
  function Entering(g: Graph, operands: seq<Value>, res: Value): set<Value> {
    OutOfCycle(g, operands, res, {}) + MergedBelow(g, operands, res, {})
  }

  /** Collects the entering values operand by operand. */
  method CollectEntering(g: Graph, operands: seq<Value>, res: Value) returns (all: set<Value>)
    ensures all == Entering(g, operands, res)
  {
    all := {};
    for i := 0 to |operands|
      invariant all == Entering(g, operands[..i], res)
    {
      assert operands[..i + 1] == operands[..i] + [operands[i]];
      var search := new CycleSearch(g);
      var inCycle := search.IsOperandInCycle(operands[i], res, {});
      if inCycle {
        all := all + search.mergedValues;
      } else {
        all := all + {operands[i]};
      }
    }
    assert operands[..|operands|] == operands;
  }

  /** The token of event `i` was, earlier and unchanged, on a value that enters the cycle of `res`. */
  ghost predicate Entered(g: Graph, run: Run, i: nat, res: Value)
    requires i < |run| && HasDef(g, res)
  {
    exists j: nat | j < i :: InHistory(run, j, i) && run[j].channel in Entering(g, DataOperands(g[res.op]), res)
  }

  ghost predicate AllEntered(g: Graph, w: Widths, res: Value)
    requires HasDef(g, res)
  {
    forall run: Run, i: nat | IsRun(g, w, run) && i < |run| && run[i].channel == res :: Entered(g, run, i, res)
  }

  /** A token on the result of a merge-like operation entered its cycle, or is an index. */
  lemma {:induction false} ResultTokensEntered(g: Graph, w: Widths, run: Run, i: nat, res: Value)
    requires IsRun(g, w, run) && i < |run| && run[i].channel == res && Forwards(g, res)
    ensures Entered(g, run, i, res) || exists j: nat | j < i :: InHistory(run, j, i) && IsIndex(g, run[j].channel)
    decreases i
  {
    var k := run[i].from;
    var o := run[k].channel;
    assert InHistory(run, k, k) && InHistory(run, k, i);
    if InCycle(g, o, res, {}) {
      CycleSound(g, w, run, k, o, res);
      var j: nat :| j <= k && InHistory(run, j, k)
                    && (run[j].channel == res || run[j].channel in Merged(g, o, res, {}) || IsIndex(g, run[j].channel));
      HistoryTransitive(run, j, k, i);
      if run[j].channel == res {
        ResultTokensEntered(g, w, run, j, res);
        var l: nat :| l < j && InHistory(run, l, j)
                      && (run[l].channel in Entering(g, DataOperands(g[res.op]), res) || IsIndex(g, run[l].channel));
        HistoryTransitive(run, l, j, i);
      }
    }
  }

  /** The run ends with a token on `v` and has no earlier one on a value of `stop`. */
  ghost predicate Carries(g: Graph, w: Widths, stop: set<Value>, run: Run, v: Value, token: nat) {
    && IsRun(g, w, run) && run != [] && run[|run| - 1].channel == v && Token(run, |run| - 1) == token
    && forall j | 0 <= j < |run| - 1 :: run[j].channel !in stop
  }

  ghost predicate Arrives(g: Graph, w: Widths, stop: set<Value>, v: Value, token: nat) {
    exists run :: Carries(g, w, stop, run, v, token)
  }

  lemma ArrivesNext(g: Graph, w: Widths, stop: set<Value>, v: Value, token: nat, next: Value)
    requires Arrives(g, w, stop, v, token) && HandsOn(g, v, next) && v !in stop
    ensures Arrives(g, w, stop, next, token)
  {
    var run: Run :| Carries(g, w, stop, run, v, token);
    var longer := run + [Forwarded(next, |run| - 1)];
    SameToken(run, longer, |run| - 1);
    assert Carries(g, w, stop, longer, next, token);
  }

  /** Whatever token arrives on a value arrives wherever the value leads. */
  lemma {:induction false} LeadsArrives(g: Graph, w: Widths, stop: set<Value>, v: Value, token: nat, u: Value, n: nat)
    requires Arrives(g, w, stop, v, token) && Leads(g, stop, v, u, n)
    ensures Arrives(g, w, stop, u, token)
    decreases n
  {
    if n > 0 {
      var next :| HandsOn(g, v, next) && Leads(g, stop, next, u, n - 1);
      ArrivesNext(g, w, stop, v, token, next);
      LeadsArrives(g, w, stop, next, token, u, n - 1);
    }
  }

  lemma {:induction false} SameToken(run: Run, longer: Run, i: nat)
    requires i < |run| && run <= longer
    ensures Token(longer, i) == Token(run, i)
    decreases i
  {
    if run[i].Forwarded? && run[i].from < i {
      SameToken(run, longer, run[i].from);
    }
  }

  /** An index may arrive wherever it leads, with the lowest and, from two bits on, with the highest bit's value. */
  lemma IndexArrives(g: Graph, w: Widths, stop: set<Value>, u: Value, token: nat)
    requires WellTyped(g, w) && IndexLeads(g, stop, u) && (token == 0 || (w(u) >= 2 && token == Pow2(w(u) - 1)))
    ensures Arrives(g, w, stop, u, token)
  {
    var x, n: nat :| IsIndex(g, x) && Leads(g, stop, x, u, n);
    LeadsWidth(g, w, stop, x, u, n);
    assert IsIndexWidth(|g[x.op].operands|, w(x));
    assert MayProduce(g, w, x, token);
    assert Carries(g, w, stop, [Produced(x, token)], x, token);
    LeadsArrives(g, w, stop, x, token, u, n);
  }

  lemma {:induction false} LeadsWidth(g: Graph, w: Widths, stop: set<Value>, v: Value, u: Value, n: nat)
    requires WellTyped(g, w) && Leads(g, stop, v, u, n)
    ensures w(v) == w(u)
    decreases n
  {
    if n > 0 {
      var next :| HandsOn(g, v, next) && Leads(g, stop, next, u, n - 1);
      LeadsWidth(g, w, stop, next, u, n - 1);
    }
  }

  /** Every token on the result of a merge-like operation entered its cycle, in every run, if and only if no index of a
      control merge can be forwarded there past the entering values. */
  lemma EnteredExactly(g: Graph, w: Widths, res: Value)
    requires WellTyped(g, w) && Forwards(g, res)
    ensures AllEntered(g, w, res) <==> !IndexLeads(g, Entering(g, DataOperands(g[res.op]), res), res)
  {
    var entering := Entering(g, DataOperands(g[res.op]), res);
    if IndexLeads(g, entering, res) {
      IndexArrives(g, w, entering, res, 0);
      var run: Run :| Carries(g, w, entering, run, res, 0);
      assert !Entered(g, run, |run| - 1, res);
    } else {
      forall run: Run, i: nat | IsRun(g, w, run) && i < |run| && run[i].channel == res ensures Entered(g, run, i, res) {
        EnteredUnlessIndexLeads(g, w, run, i, res);
      }
    }
  }

  lemma EnteredUnlessIndexLeads(g: Graph, w: Widths, run: Run, i: nat, res: Value)
    requires IsRun(g, w, run) && i < |run| && run[i].channel == res && Forwards(g, res)
    requires !IndexLeads(g, Entering(g, DataOperands(g[res.op]), res), res)
    ensures Entered(g, run, i, res)
  {
    ResultTokensEntered(g, w, run, i, res);
    if !Entered(g, run, i, res) {
      var entering := Entering(g, DataOperands(g[res.op]), res);
      var j: nat :| j < i && InHistory(run, j, i) && IsIndex(g, run[j].channel);
      assert Leads(g, entering, res, res, 0);
      HistoryLeads(g, w, run, j, i, entering, res, 0);
      assert false;
    }
  }
}
