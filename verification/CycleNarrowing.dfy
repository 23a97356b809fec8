/** Narrowing a merge-like operation to the width of the values that enter its cycle changes no token of any run. */
module CycleNarrowing {
  import opened Words
  import opened Transfer
  import opened Scalar
  import opened DataForward
  import opened ForwardingCycles

  // ----- minimal values behind forwarders -----

  /** Backtracking stops behind the first buffer, fork, lazy fork or unconditional branch; it goes on behind conditional
      branches and merge-like operations with a single data operand. */
  function Backtrack(g: Graph, v: Value, visited: set<nat>): Value
    decreases g.Keys - visited
  {
    if !HasDef(g, v) || v.op in visited then v
    else
      var op := g[v.op];
      match op
      case Single(o) => o
      case CondBranch(_, d) => Backtrack(g, d, visited + {v.op})
      case _ => if MergeLike(op) && |DataOperands(op)| == 1 then Backtrack(g, DataOperands(op)[0], visited + {v.op}) else v
  }

  method BacktrackLoop(g: Graph, v: Value) returns (val: Value)
    ensures val == Backtrack(g, v, {})
  {
    val := v;
    var visited: set<nat> := {};
    while HasDef(g, val)
      invariant Backtrack(g, val, visited) == Backtrack(g, v, {})
      decreases g.Keys - visited
    {
      var id := val.op;
      if id in visited {
        return;
      }
      var op := g[id];
      ghost var before := visited;
      visited := visited + {id};
      if op.Single? {
        val := op.operand;
      }
      if op.CondBranch? {
        val := op.data;
      } else if MergeLike(op) {
        if |DataOperands(op)| == 1 {
          val := DataOperands(op)[0];
        }
      } else {
        return;
      }
    }
  }

  /** The narrow form of a value as far as its defining operation tells. */
  function MinimalShape(g: Graph, w: Widths, v: Value): ExtWidth
    requires HasDef(g, v) && g[v.op].Constant? ==> g[v.op].width >= 1 && g[v.op].value < Pow2(g[v.op].width)
  {
    if HasDef(g, v) && g[v.op].Extend? then ExtWidth(g[v.op].kind, g[v.op].from)
    else if HasDef(g, v) && g[v.op].Constant? then
      ExtWidth(ConstantExt(g[v.op].value, g[v.op].width), RequiredBits(g[v.op].value, g[v.op].width))
    else ExtWidth(NONE, w(v))
  }

  /** Tokens fit their channels. */
  lemma {:induction false} TokenBound(g: Graph, w: Widths, run: Run, i: nat)
    requires WellTyped(g, w) && IsRun(g, w, run) && i < |run|
    ensures Token(run, i) < Pow2(w(run[i].channel))
    decreases i
  {
    if run[i].Forwarded? {
      TokenBound(g, w, run, run[i].from);
    }
  }

  /** Every token on a value is the extension of a word of its minimal shape. */
  lemma MinimalTokens(g: Graph, w: Widths, run: Run, i: nat)
    requires WellTyped(g, w) && IsRun(g, w, run) && i < |run| && w(run[i].channel) >= 1
    ensures var v := run[i].channel;
      && IsShape(MinimalShape(g, w, v), w(v))
      && exists u: nat :: u < Pow2(MinimalShape(g, w, v).bitWidth) && Token(run, i) == ModBitWidth(MinimalShape(g, w, v), u, w(v))
  {
    var v := run[i].channel;
    var shape := MinimalShape(g, w, v);
    TokenBound(g, w, run, i);
    if HasDef(g, v) && g[v.op].Extend? {
      assert MayProduce(g, w, v, Token(run, i));
    } else if HasDef(g, v) && g[v.op].Constant? {
      var c, width := g[v.op].value, g[v.op].width;
      var b := shape.bitWidth;
      RequiredBitsIsLeast(c, width, b);
      assert Token(run, i) == c;
      ConstantNarrows(c, width);
      assert Wrap(c, b) < Pow2(b);
    } else {
      assert Token(run, i) == ModBitWidth(shape, Token(run, i), w(v));
    }
  }

  lemma ConstantNarrows(c: nat, width: nat)
    requires width >= 1 && c < Pow2(width)
    ensures var b := RequiredBits(c, width);
      ModBitWidth(ExtWidth(ConstantExt(c, width), b), Wrap(c, b), width) == c
  {
    var b := RequiredBits(c, width);
    RequiredBitsIsLeast(c, width, b);
    WrapSigned(c, width);
    if b < width {
      NarrowThenExtend(ExtWidth(ConstantExt(c, width), b), Signed(c, width), width);
      WrapWrap(Signed(c, width), b, width);
    } else {
      WrapSmall(c, width);
    }
  }

  /** Backtracking from `v` goes through the index of a control merge. */
  predicate BacktracksIndex(g: Graph, v: Value, visited: set<nat>)
    decreases g.Keys - visited
  {
    && HasDef(g, v) && v.op !in visited
    && var op := g[v.op];
       match op
       case Single(_) => false
       case CondBranch(_, d) => BacktracksIndex(g, d, visited + {v.op})
       case _ =>
         && MergeLike(op) && |DataOperands(op)| == 1
         && (IsIndex(g, v) || BacktracksIndex(g, DataOperands(op)[0], visited + {v.op}))
  }

  lemma {:induction false} BacktracksIndexLeads(g: Graph, v: Value, visited: set<nat>, u: Value, n: nat)
    requires BacktracksIndex(g, v, visited) && Leads(g, {}, v, u, n)
    ensures IndexLeads(g, {}, u)
    decreases g.Keys - visited
  {
    if !IsIndex(g, v) {
      var o := DataOperands(g[v.op])[0];
      assert HandsOn(g, o, v);
      assert Leads(g, {}, o, u, n + 1);
      BacktracksIndexLeads(g, o, visited + {v.op}, u, n + 1);
    }
  }

  /** A token on a value was on the value backtracking leads to. */
  lemma {:induction false} BacktrackTokens(g: Graph, w: Widths, run: Run, i: nat, visited: set<nat>)
    requires IsRun(g, w, run) && i < |run| && !BacktracksIndex(g, run[i].channel, visited)
    ensures exists j: nat | j <= i :: InHistory(run, j, i) && run[j].channel == Backtrack(g, run[i].channel, visited)
    decreases i
  {
    var v := run[i].channel;
    assert InHistory(run, i, i);
    if Backtrack(g, v, visited) != v {
      var k := run[i].from;
      var o := run[k].channel;
      assert InHistory(run, k, k) && InHistory(run, k, i);
      assert o == DataOperands(g[v.op])[0];
      if !g[v.op].Single? {
        BacktrackTokens(g, w, run, k, visited + {v.op});
        var j: nat :| j <= k && InHistory(run, j, k) && run[j].channel == Backtrack(g, o, visited + {v.op});
        HistoryTransitive(run, j, k, i);
      }
    }
  }

  // ----- the rewritten circuit -----

  /** Tokens of the circuit in which the merge-like operation with result `res` works at width `t.bitWidth`:
      what it forwards is truncated to that width, its result extended back. */
  function NarrowToken(w: Widths, res: Value, t: ExtWidth, run: Run, i: nat): nat
    requires i < |run| && t.bitWidth >= 1
  {
    match run[i]
    case Produced(_, x) => x
    case Forwarded(v, j) =>
      if j >= i then 0
      else
        var x := NarrowToken(w, res, t, run, j);
        if v == res then ModBitWidth(t, Wrap(x, t.bitWidth), w(res)) else x
  }

  /** Bringing the minimal word of a token to a narrower width, as is done for each data operand, gives the low bits of the token:
      what is forwarded in `NarrowToken`. */
  lemma OperandNarrowed(g: Graph, w: Widths, run: Run, i: nat, k: nat)
    requires WellTyped(g, w) && IsRun(g, w, run) && i < |run| && 1 <= k <= w(run[i].channel)
    ensures var v := run[i].channel; var m := MinimalShape(g, w, v);
      exists u: nat :: u < Pow2(m.bitWidth) && Token(run, i) == ModBitWidth(m, u, w(v)) && ModBitWidth(m, u, k) == Wrap(Token(run, i), k)
  {
    var v := run[i].channel;
    var m := MinimalShape(g, w, v);
    MinimalTokens(g, w, run, i);
    var u: nat :| u < Pow2(m.bitWidth) && Token(run, i) == ModBitWidth(m, u, w(v));
    ModBitWidthIsWrap(m, u, w(v));
    ModBitWidthIsWrap(m, u, k);
    WrapWrap(Meaning(m, u), k, w(v));
  }

  /** The shapes the cycle pattern computes its width from: those of the values that enter the cycle. */
  ghost predicate ShapesOf(g: Graph, w: Widths, entering: set<Value>, shapes: seq<ExtWidth>)
    requires WellTyped(g, w)
  {
    && (forall v | v in entering :: MinimalShape(g, w, Backtrack(g, v, {})) in shapes)
    && (forall m | m in shapes :: exists v | v in entering :: m == MinimalShape(g, w, Backtrack(g, v, {})))
  }

  /** Every token on the result of the merge survives truncation to the width computed for the cycle and re-extension. */
  lemma ResultTokensNarrow(g: Graph, w: Widths, run: Run, i: nat, res: Value, shapes: seq<ExtWidth>)
    requires WellTyped(g, w) && IsRun(g, w, run) && !IndexLeads(g, {}, res)
    requires i < |run| && run[i].channel == res && Forwards(g, res)
    requires shapes != [] && ShapesOf(g, w, Entering(g, DataOperands(g[res.op]), res), shapes)
    requires ForwardShape(shapes).bitWidth < w(res)
    ensures var t := ForwardShape(shapes);
      t.bitWidth >= 1 && ModBitWidth(t, Wrap(Token(run, i), t.bitWidth), w(res)) == Token(run, i)
  {
    var entering := Entering(g, DataOperands(g[res.op]), res);
    var k := CameFromBacktracked(g, w, run, i, res);
    MinimalTokens(g, w, run, k);
    var shape := MinimalShape(g, w, run[k].channel);
    var u: nat :| u < Pow2(shape.bitWidth) && Token(run, k) == ModBitWidth(shape, u, w(res));
    assert shape in shapes;
    var n :| 0 <= n < |shapes| && shapes[n] == shape;
    ForwardShapeSound(shapes, n, u, w(res));
  }

  lemma CameFromBacktracked(g: Graph, w: Widths, run: Run, i: nat, res: Value) returns (k: nat)
    requires WellTyped(g, w) && IsRun(g, w, run) && !IndexLeads(g, {}, res)
    requires i < |run| && run[i].channel == res && Forwards(g, res)
    ensures k < i && Token(run, k) == Token(run, i) && w(run[k].channel) == w(res) >= 1
    ensures exists m | m in Entering(g, DataOperands(g[res.op]), res) :: run[k].channel == Backtrack(g, m, {})
  {
    assert Leads(g, {}, res, res, 0);
    ResultTokensEntered(g, w, run, i, res);
    if j: nat :| j < i && InHistory(run, j, i) && IsIndex(g, run[j].channel) {
      HistoryLeads(g, w, run, j, i, {}, res, 0);
      assert false;
    }
    var j: nat :| j < i && InHistory(run, j, i) && run[j].channel in Entering(g, DataOperands(g[res.op]), res);
    var m := run[j].channel;
    HistoryLeads(g, w, run, j, i, {}, res, 0);
    var n: nat :| Leads(g, {}, m, res, n);
    if BacktracksIndex(g, m, {}) {
      BacktracksIndexLeads(g, m, {}, res, n);
      assert false;
    }
    BacktrackTokens(g, w, run, j, {});
    k :| k <= j && InHistory(run, k, j) && run[k].channel == Backtrack(g, m, {});
    HistoryTransitive(run, k, j, i);
    HistoryToken(run, k, i);
    HistoryLeads(g, w, run, k, i, {}, res, 0);
    var l: nat :| Leads(g, {}, run[k].channel, res, l);
    LeadsWidth(g, w, {}, run[k].channel, res, l);
    assert run[run[i].from].channel in DataOperands(g[res.op]);
  }

  ghost predicate PreservesRuns(g: Graph, w: Widths, res: Value, t: ExtWidth)
    requires t.bitWidth >= 1
  {
    forall run: Run, i: nat | IsRun(g, w, run) && i < |run| :: NarrowToken(w, res, t, run, i) == Token(run, i)
  }

  /** Cycle narrowing is invisible: in every run, every token on every channel is the same before and after the rewrite. */
  lemma {:induction false} CycleNarrowingKeepsToken(g: Graph, w: Widths, run: Run, i: nat, res: Value, shapes: seq<ExtWidth>)
    requires WellTyped(g, w) && IsRun(g, w, run) && !IndexLeads(g, {}, res)
    requires i < |run| && Forwards(g, res)
    requires shapes != [] && ShapesOf(g, w, Entering(g, DataOperands(g[res.op]), res), shapes)
    requires 1 <= ForwardShape(shapes).bitWidth < w(res)
    ensures NarrowToken(w, res, ForwardShape(shapes), run, i) == Token(run, i)
    decreases i
  {
    if run[i].Forwarded? {
      CycleNarrowingKeepsToken(g, w, run, run[i].from, res, shapes);
      if run[i].channel == res {
        ResultTokensNarrow(g, w, run, i, res, shapes);
      }
    }
  }

  /** A word with only its top bit set does not survive any narrowing. */
  lemma TopBitIsLost(t: ExtWidth, full: nat)
    requires 1 <= t.bitWidth < full
    ensures Pow2(full - 1) < Pow2(full) && ModBitWidth(t, Wrap(Pow2(full - 1), t.bitWidth), full) != Pow2(full - 1)
  {
    Pow2Adds(t.bitWidth, full - 1 - t.bitWidth);
    WrapUnique(Pow2(full - 1), t.bitWidth, Pow2(full - 1 - t.bitWidth), 0);
    assert Meaning(t, 0) == 0;
    ModBitWidthIsWrap(t, 0, full);
    WrapSmall(0, full);
  }

  /** Every index that leads to the merge gives a run in which narrowing changes a token. */
  lemma IndexIsLost(g: Graph, w: Widths, res: Value, t: ExtWidth)
    requires WellTyped(g, w) && Forwards(g, res) && IndexLeads(g, {}, res) && 1 <= t.bitWidth < w(res)
    ensures !PreservesRuns(g, w, res, t)
  {
    TopBitIsLost(t, w(res));
    IndexArrives(g, w, {}, res, Pow2(w(res) - 1));
    var run: Run :| Carries(g, w, {}, run, res, Pow2(w(res) - 1));
    var i := |run| - 1;
    var j := run[i].from;
    if NarrowToken(w, res, t, run, j) == Token(run, j) {
      assert NarrowToken(w, res, t, run, i) == ModBitWidth(t, Wrap(Token(run, i), t.bitWidth), w(res));
    }
  }

  /** Cycle narrowing is invisible in all runs if and only if no index of a control merge can be forwarded to the merge. */
  lemma CycleNarrowingExactly(g: Graph, w: Widths, res: Value, shapes: seq<ExtWidth>)
    requires WellTyped(g, w) && Forwards(g, res)
    requires shapes != [] && ShapesOf(g, w, Entering(g, DataOperands(g[res.op]), res), shapes)
    requires 1 <= ForwardShape(shapes).bitWidth < w(res)
    ensures PreservesRuns(g, w, res, ForwardShape(shapes)) <==> !IndexLeads(g, {}, res)
  {
    var t := ForwardShape(shapes);
    if IndexLeads(g, {}, res) {
      IndexIsLost(g, w, res, t);
    } else {
      forall run: Run, i: nat | IsRun(g, w, run) && i < |run| ensures NarrowToken(w, res, t, run, i) == Token(run, i) {
        CycleNarrowingKeepsToken(g, w, run, i, res, shapes);
      }
    }
  }

  /** A merge whose cycle nothing enters, so that no width can be computed, gets a token in some run if and only if an index
      leads to it. */
  lemma ClosedCycleIsDead(g: Graph, w: Widths, res: Value)
    requires WellTyped(g, w) && Forwards(g, res) && Entering(g, DataOperands(g[res.op]), res) == {}
    ensures (forall run: Run, i: nat | IsRun(g, w, run) && i < |run| :: run[i].channel != res) <==> !IndexLeads(g, {}, res)
  {
    EnteredExactly(g, w, res);
    if AllEntered(g, w, res) {
      forall run: Run, i: nat | IsRun(g, w, run) && i < |run| ensures run[i].channel != res {
        assert run[i].channel == res ==> Entered(g, run, i, res);
      }
    } else {
      var run: Run, i: nat :| IsRun(g, w, run) && i < |run| && run[i].channel == res && !Entered(g, run, i, res);
    }
  }
}
