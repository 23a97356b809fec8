/** Maximizing a value does not change what any run computes. */
module SSASimulation {
  import opened Basics
  import opened Regions
  import opened MaximizeSSA

  // ----- shape of the maximized region -----

  lemma EdgesOfMaximized(r: Region, v: Value, u: set<nat>, b: nat, k: nat)
    requires b < |r| && k < |r[b].term.edges|
    ensures |Maximized(r, v, u)| == |r| && |Maximized(r, v, u)[b].term.edges| == |r[b].term.edges|
    ensures Maximized(r, v, u)[b].term.edges[k] == MaxEdge(r, v, u, b, r[b].term.edges[k])
  {
  }

  lemma SameRuns(r: Region, v: Value, u: set<nat>, run: Run)
    ensures IsRun(Maximized(r, v, u), run) == IsRun(r, run)
  {
  }

  lemma MaximizedWellFormed(r: Region, v: Value, u: set<nat>)
    requires WellFormed(r)
    ensures WellFormed(Maximized(r, v, u))
  {
  }

  // ----- the entry needs no argument -----

  /** Blocks other than `d` that every path from the entry reaches through `d`. */
  ghost predicate Below(r: Region, d: nat, b: nat) {
    b != d && Dominates(r, d, b)
  }

  lemma PredecessorBelow(r: Region, d: nat, p: nat, b: nat)
    requires p < |r| && b < |r| && HasEdge(r, p, b) && Below(r, d, b) && p != d
    ensures Below(r, d, p)
  {
    forall path | IsPath(r, path) && path[0] == 0 && path[|path| - 1] == p ensures d in path {
      var longer := path + [b];
      assert IsPath(r, longer) && longer[|longer| - 1] == b;
      assert d in longer;
    }
  }

  /** If the definition dominates all uses, the blocks that receive an argument all lie below the definition. */
  lemma ClosureBelow(r: Region, v: Value, u: set<nat>)
    requires WellFormed(r) && IsClosure(r, v, u) && UsesDominated(r)
    ensures forall b | b in u :: Below(r, v.block, b)
    ensures 0 !in u
  {
    var all := Ids(|r|);
    var s := set b | b in all && Below(r, v.block, b);
    forall b | 0 <= b < |r| && UsedOutside(r, v, b) ensures b in s {
      assert Uses(r[b], v);
    }
    forall p, b | 0 <= p < |r| && b in s && HasEdge(r, p, b) && p != v.block ensures p in s {
      PredecessorBelow(r, v.block, p, b);
    }
    assert IsClosed(r, v, s);
    if |r| > 0 && 0 != v.block {
      assert IsPath(r, [0]);
      assert !Below(r, v.block, 0);
    }
  }

  // ----- simulation -----

  ghost predicate Setup(r: Region, v: Value, u: set<nat>) {
    && WellFormed(r) && UsesDominated(r) && IsClosure(r, v, u) && 0 !in u && Original(r, v)
  }

  /** Not an argument added by the conversion. */
  predicate Original(r: Region, x: Value) {
    x.BlockArg? && x.block < |r| ==> x.idx < r[x.block].numArgs
  }

  lemma UsedValue(r: Region, v: Value, u: set<nat>, b: nat, x: Value)
    requires Setup(r, v, u) && b < |r| && Uses(r[b], x)
    ensures Original(r, x) && (x == v ==> b == v.block || b in u)
  {
    if x == v && b != v.block {
      assert UsedOutside(r, v, b);
    }
  }

  /** The operand that an original argument receives: a use of the predecessor, replaced in the maximized region. */
  lemma PassedOperand(r: Region, v: Value, u: set<nat>, run: Run, t: nat, i: nat) returns (x: Value)
    requires Setup(r, v, u) && IsRun(r, run) && 0 < t < |run.blocks| && i < r[run.blocks[t]].numArgs
    ensures var p, k := run.blocks[t - 1], run.taken[t - 1];
            var e, f := r[p].term.edges[k], MaxEdge(r, v, u, p, r[p].term.edges[k]);
            && Maximized(r, v, u)[p].term.edges[k] == f && Uses(r[p], x)
            && i < |e.operands| && e.operands[i] == x && i < |f.operands| && f.operands[i] == Replace(r, v, p, x)
  {
    var p, k := run.blocks[t - 1], run.taken[t - 1];
    EdgesOfMaximized(r, v, u, p, k);
    x := r[p].term.edges[k].operands[i];
    assert x in r[p].term.edges[k].operands;
  }

  /** In every run, at every moment, original values keep their value. */
  lemma {:induction false} Simulation(r: Region, v: Value, u: set<nat>, sem: Semantics, inputs: Inputs, run: Run, t: nat, x: Value)
    requires Setup(r, v, u) && IsRun(r, run) && IsRun(Maximized(r, v, u), run) && t < |run.blocks|
    requires Original(r, x)
    ensures ValueAt(Maximized(r, v, u), sem, inputs, run, t, x) == ValueAt(r, sem, inputs, run, t, x)
    decreases t, x.Rank(), 0
  {
    var m, b := Maximized(r, v, u), run.blocks[t];
    if b != x.block {
      if t > 0 {
        Simulation(r, v, u, sem, inputs, run, t - 1, x);
      }
    } else {
      match x
      case BlockArg(_, i) =>
        if t > 0 {
          var passed := PassedOperand(r, v, u, run, t, i);
          ReplacedSame(r, v, u, sem, inputs, run, t - 1, passed);
        }
      case OpResult(_, o, i) =>
        if o < |r[b].ops| {
          OperandsSame(r, v, u, sem, inputs, run, t, o);
        }
    }
  }

  /** At every visit to a block, an operand has the value of the operand it replaces. */
  lemma {:induction false} ReplacedSame(r: Region, v: Value, u: set<nat>, sem: Semantics, inputs: Inputs, run: Run, t: nat, x: Value)
    requires Setup(r, v, u) && IsRun(r, run) && IsRun(Maximized(r, v, u), run) && t < |run.blocks|
    requires Uses(r[run.blocks[t]], x) || (x == v && (run.blocks[t] == v.block || run.blocks[t] in u))
    ensures ValueAt(Maximized(r, v, u), sem, inputs, run, t, Replace(r, v, run.blocks[t], x)) == ValueAt(r, sem, inputs, run, t, x)
    decreases t, x.Rank(), 2
  {
    if Uses(r[run.blocks[t]], x) {
      UsedValue(r, v, u, run.blocks[t], x);
    }
    if x == v && run.blocks[t] != v.block {
      ArgumentHoldsValue(r, v, u, sem, inputs, run, t);
    } else {
      Simulation(r, v, u, sem, inputs, run, t, x);
    }
  }

  /** Whenever control is in a block that received an argument, the argument holds the value from the latest visit to the
      defining block. */
  lemma {:induction false} ArgumentHoldsValue(r: Region, v: Value, u: set<nat>, sem: Semantics, inputs: Inputs, run: Run, t: nat)
    requires Setup(r, v, u) && IsRun(r, run) && IsRun(Maximized(r, v, u), run) && t < |run.blocks|
    requires run.blocks[t] in u
    ensures ValueAt(Maximized(r, v, u), sem, inputs, run, t, BlockArg(run.blocks[t], r[run.blocks[t]].numArgs))
            == ValueAt(r, sem, inputs, run, t, v)
    decreases t, 0, 1
  {
    var b, p, k := run.blocks[t], run.blocks[t - 1], run.taken[t - 1];
    var e := r[p].term.edges[k];
    EdgesOfMaximized(r, v, u, p, k);
    assert HasEdge(r, p, b);
    var passed := Maximized(r, v, u)[p].term.edges[k].operands;
    assert |e.operands| == r[b].numArgs && passed[r[b].numArgs] == SeenFrom(r, v, p);
    ReplacedSame(r, v, u, sem, inputs, run, t - 1, v);
  }

  /** Every operation of a visited block, the terminator included, reads the same operand values. */
  lemma {:induction false} OperandsSame(r: Region, v: Value, u: set<nat>, sem: Semantics, inputs: Inputs, run: Run, t: nat, o: nat)
    requires Setup(r, v, u) && IsRun(r, run) && IsRun(Maximized(r, v, u), run) && t < |run.blocks|
    requires o <= |r[run.blocks[t]].ops|
    ensures |Maximized(r, v, u)[run.blocks[t]].ops| == |r[run.blocks[t]].ops|
    ensures Observed(Maximized(r, v, u), sem, inputs, run, t, o) == Observed(r, sem, inputs, run, t, o)
    decreases t, o, 3
  {
    var b, m := run.blocks[t], Maximized(r, v, u);
    var xs := OperandsOf(r[b], o);
    assert OperandsOf(m[b], o) == ReplaceAll(r, v, b, xs);
    forall k | 0 <= k < |xs|
      ensures OperandAt(m, sem, inputs, run, t, o, Replace(r, v, b, xs[k])) == OperandAt(r, sem, inputs, run, t, o, xs[k])
    {
      var x := xs[k];
      assert Uses(r[b], x) by {
        if o < |r[b].ops| { assert OpUses(r[b].ops[o], x); }
      }
      UsedValue(r, v, u, b, x);
      if x == v && b != v.block {
        ArgumentHoldsValue(r, v, u, sem, inputs, run, t);
      } else if x.block != b {
        if t > 0 {
          Simulation(r, v, u, sem, inputs, run, t - 1, x);
        }
      } else if x.Rank() <= o {
        Simulation(r, v, u, sem, inputs, run, t, x);
      }
    }
  }
}
