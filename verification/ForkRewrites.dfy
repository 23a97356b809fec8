/** Rewrites that shrink, merge and erase forks. */
module ForkRewrites {
  import opened Netlists
  import opened MaterializeValues

  // ----- rewiring in general -----

  function Mapped(op: Op, rho: Value -> Value): Op {
    op.(operands := seq(|op.operands|, i requires 0 <= i < |op.operands| => rho(op.operands[i])))
  }

  /** Some operations are erased, some added, and the others use `rho(v)` where they used `v`. */
  predicate Rewired(n: Netlist, m: Netlist, gone: set<nat>, added: Ops, rho: Value -> Value) {
    && m.args == n.args && m.throughLazy == n.throughLazy
    && gone <= n.ops.Keys && added.Keys !! n.ops.Keys && m.ops.Keys == n.ops.Keys - gone + added.Keys
    && (forall o | o in n.ops && o !in gone :: m.ops[o] == Mapped(n.ops[o], rho))
    && forall o | o in added :: m.ops[o] == added[o]
  }

  /** Forks and sinks come and go; a fork result is replaced by a value that draws from what its fork's operand became. */
  ghost predicate KeepsSources(n: Netlist, m: Netlist, gone: set<nat>, added: Ops, rho: Value -> Value) {
    && n.WellFormed() && Rewired(n, m, gone, added, rho)
    && (forall o | o in gone :: !n.Stays(n.ops[o].kind))
    && (forall o | o in added :: n.SeesThrough(added[o].kind))
    && (forall v | n.Exists(v) && !n.IsForkResult(v) :: rho(v) == v)
    && forall v | n.Exists(v) && n.IsForkResult(v) :: m.Follows(rho(v), rho(n.ForkInput(v)))
  }

  lemma RewiredSimulates(n: Netlist, m: Netlist, gone: set<nat>, added: Ops, rho: Value -> Value, related: (Value, Value) -> bool)
    requires KeepsSources(n, m, gone, added, rho)
    requires forall v, w :: related(v, w) <==> n.Exists(v) && w == rho(v)
    ensures Simulates(n, m, related)
  {
    forall v, w | related(v, w)
      ensures if n.IsForkResult(v) then exists x :: related(n.ForkInput(v), x) && m.Follows(w, x) else m.Traces(w, v)
    {
      if n.IsForkResult(v) {
        assert n.HasOperand(v.op, 0);
        assert related(n.ForkInput(v), rho(n.ForkInput(v)));
      } else {
        assert m.TracesIn(v, v, 0);
      }
    }
  }

  lemma RewiredTraces(n: Netlist, m: Netlist, gone: set<nat>, added: Ops, rho: Value -> Value, v: Value)
    requires KeepsSources(n, m, gone, added, rho) && n.Exists(v)
    ensures DrawsAlike(n, v, m, rho(v))
  {
    var related := (v, w) => n.Exists(v) && w == rho(v);
    RewiredSimulates(n, m, gone, added, rho, related);
    DrawsAlikeBy(n, m, related, v, rho(v));
  }

  lemma RewiredSameSources(n: Netlist, m: Netlist, gone: set<nat>, added: Ops, rho: Value -> Value)
    requires KeepsSources(n, m, gone, added, rho)
    ensures SameSources(n, m)
  {
    forall o, i | o in n.ops && n.Stays(n.ops[o].kind) && 0 <= i < |n.ops[o].operands|
      ensures DrawsAlike(n, n.ops[o].operands[i], m, m.ops[o].operands[i])
    {
      assert n.HasOperand(o, i);
      RewiredTraces(n, m, gone, added, rho, n.ops[o].operands[i]);
    }
  }

  /** Nothing but the added forks can lose its producer. */
  lemma RewiredGrounded(n: Netlist, m: Netlist, gone: set<nat>, added: Ops, rho: Value -> Value)
    requires KeepsSources(n, m, gone, added, rho) && n.Grounded()
    requires forall o | o in added :: |added[o].operands| == 1 && m.HasProducer(added[o].operands[0])
    ensures m.Grounded()
  {
    forall v | m.Exists(v) ensures m.HasProducer(v) {
      if m.IsForkResult(v) {
        m.TraceStep(v);
        if v.op in n.ops {
          var x := n.ops[v.op].operands[0];
          assert n.HasOperand(v.op, 0);
          assert n.HasProducer(x);
          var s :| n.Traces(x, s);
          RewiredTraces(n, m, gone, added, rho, x);
          assert m.ForkInput(v) == rho(x) && m.Traces(rho(x), s);
          assert m.Traces(v, s);
        } else {
          assert m.HasProducer(added[v.op].operands[0]);
          var s :| m.Traces(added[v.op].operands[0], s);
          assert m.Traces(v, s);
        }
      } else {
        assert m.TracesIn(v, v, 0);
        assert m.Traces(v, v);
      }
    }
  }

  /** A use of `v` by an operation that stays becomes the only use of `w` if nothing else becomes one. */
  lemma UseMoves(n: Netlist, m: Netlist, gone: set<nat>, added: Ops, rho: Value -> Value, v: Value, w: Value, o: nat, i: nat)
    requires Rewired(n, m, gone, added, rho) && n.UsedAt(v, o, i) && o !in gone && rho(v) == w
    requires forall x, p: nat, j: nat | n.IsUse(x, p, j) && p !in gone && rho(x) == w :: x == v
    requires forall p | p in added :: w !in added[p].operands
    ensures m.UsedAt(w, o, i)
  {
    forall p: nat, j: nat | m.IsUse(w, p, j) ensures p == o && j == i {
      if p in n.ops {
        assert n.IsUse(n.ops[p].operands[j], p, j);
      }
    }
    assert n.IsUse(v, o, i);
  }

  /** The same if `v` is the only value that becomes `w`. */
  lemma UseRenamed(n: Netlist, m: Netlist, gone: set<nat>, added: Ops, rho: Value -> Value, v: Value, w: Value)
    requires n.WellFormed() && Rewired(n, m, gone, added, rho) && n.UsedOnce(v) && rho(v) == w
    requires forall o: nat, i: nat | n.IsUse(v, o, i) :: o !in gone
    requires forall x | n.Exists(x) && rho(x) == w :: x == v
    requires forall p | p in added :: w !in added[p].operands
    ensures m.UsedOnce(w)
  {
    var o, i :| n.UsedAt(v, o, i);
    forall x, p: nat, j: nat | n.IsUse(x, p, j) && p !in gone && rho(x) == w ensures x == v {
      assert n.HasOperand(p, j);
    }
    UseMoves(n, m, gone, added, rho, v, w, o, i);
  }

  lemma RealUseRenamed(n: Netlist, m: Netlist, gone: set<nat>, added: Ops, rho: Value -> Value, v: Value, user: nat)
    requires Rewired(n, m, gone, added, rho) && user in n.ops && user !in gone
    requires v in n.ops[user].operands && !n.ops[user].kind.Sink?
    ensures HasRealUses(m, rho(v))
  {
    var r: nat :| r < |n.ops[user].operands| && n.ops[user].operands[r] == v;
    assert m.ops[user].operands[r] == rho(v);
  }

  /** An added operation becomes the only user of `w` if the operations that stay do not use it. */
  lemma UseAdded(n: Netlist, m: Netlist, gone: set<nat>, added: Ops, rho: Value -> Value, w: Value, o: nat)
    requires Rewired(n, m, gone, added, rho) && o in added && added[o].operands == [w]
    requires forall x, p: nat, j: nat | n.IsUse(x, p, j) && p !in gone :: rho(x) != w
    requires forall p | p in added && p != o :: w !in added[p].operands
    ensures m.UsedAt(w, o, 0)
  {
    forall p: nat, j: nat | m.IsUse(w, p, j) ensures p == o && j == 0 {
      if p in n.ops {
        assert n.IsUse(n.ops[p].operands[j], p, j);
      }
    }
  }

  /** Forks are not fed by themselves. */
  lemma {:induction false} NoSelfFeeding(n: Netlist, f: nat, k: nat, s: Value, depth: nat)
    requires f in n.ops && n.ops[f].kind.Fork? && |n.ops[f].operands| == 1 && n.ops[f].operands[0].Result? && n.ops[f].operands[0].op == f
    ensures !n.TracesIn(Result(f, k), s, depth)
    decreases depth
  {
    if depth > 0 {
      NoSelfFeeding(n, f, n.ops[f].operands[0].idx, s, depth - 1);
    }
  }

  lemma FeedsOther(n: Netlist, f: nat)
    requires n.WellFormed() && n.Grounded() && f in n.ops && n.ops[f].kind.Fork?
    ensures n.ops[f].operands[0].Result? ==> n.ops[f].operands[0].op != f
  {
    if n.ops[f].operands[0].Result? && n.ops[f].operands[0].op == f {
      assert n.Exists(Result(f, 0));
      assert n.HasProducer(Result(f, 0));
      var s :| n.Traces(Result(f, 0), s);
      var depth: nat :| n.TracesIn(Result(f, 0), s, depth);
      NoSelfFeeding(n, f, 0, s, depth);
    }
  }

  // ----- MinimizeForkSizes -----

  /** The results among the first `k` that have real uses, in order. */
  function UsedResults(n: Netlist, f: nat, k: nat): (used: seq<nat>)
    ensures |used| <= k
    ensures forall i | 0 <= i < k :: i in used <==> HasRealUses(n, Result(f, i))
    ensures forall i | i in used :: i < k
  {
    if k == 0 then []
    else UsedResults(n, f, k - 1) + if HasRealUses(n, Result(f, k - 1)) then [k - 1] else []
  }

  lemma {:induction false} UsedPosition(n: Netlist, f: nat, i: nat, k: nat)
    requires i < k && HasRealUses(n, Result(f, i))
    ensures |UsedResults(n, f, i)| < |UsedResults(n, f, k)| && UsedResults(n, f, k)[|UsedResults(n, f, i)|] == i
  {
    if i < k - 1 {
      UsedPosition(n, f, i, k - 1);
    }
  }

  lemma {:induction false} UsedAtPosition(n: Netlist, f: nat, j: nat, k: nat)
    requires j < |UsedResults(n, f, k)|
    ensures UsedResults(n, f, k)[j] < k && |UsedResults(n, f, UsedResults(n, f, k)[j])| == j
    ensures HasRealUses(n, Result(f, UsedResults(n, f, k)[j]))
  {
    if j < |UsedResults(n, f, k - 1)| {
      UsedAtPosition(n, f, j, k - 1);
    }
  }

  /** Sinks of fork results that nothing else uses. */
  function SinksOf(n: Netlist, f: nat, k: nat): set<nat> {
    set o | o in n.ops && n.ops[o].kind.Sink? && |n.ops[o].operands| == 1 && IsSpare(n, f, k, n.ops[o].operands[0])
  }

  predicate IsSpare(n: Netlist, f: nat, k: nat, v: Value) {
    v.Result? && v.op == f && v.idx < k && !HasRealUses(n, v)
  }

  /** A used result becomes the result of the new fork at its position among the used ones. */
  function ToSmaller(n: Netlist, f: nat, smaller: nat, v: Value): Value {
    if v.Result? && v.op == f && HasRealUses(n, v) then Result(smaller, |UsedResults(n, f, v.idx)|)
    else v
  }

  function SmallerFork(n: Netlist, f: nat, smaller: nat): Ops
    requires f in n.ops
  {
    var used := UsedResults(n, f, |n.ops[f].results|);
    if used == [] then map[] else map[smaller := Op(Fork, n.ops[f].operands, seq(|used|, _ => true))]
  }

  predicate Minimized(n: Netlist, m: Netlist, f: nat, smaller: nat)
    requires f in n.ops
  {
    && smaller !in n.ops
    && Rewired(n, m, {f} + SinksOf(n, f, |n.ops[f].results|), SmallerFork(n, f, smaller), v => ToSmaller(n, f, smaller, v))
  }

  /** A fork to be minimized, with `k` results. */
  ghost predicate MinimizeStep(n: Netlist, m: Netlist, f: nat, smaller: nat, k: nat) {
    && n.WellFormed() && n.Grounded() && f in n.ops && n.ops[f].kind.Fork? && k == |n.ops[f].results|
    && Minimized(n, m, f, smaller)
  }

  lemma SpareUsers(n: Netlist, f: nat, k: nat, p: nat, j: nat)
    requires n.WellFormed() && n.HasOperand(p, j) && IsSpare(n, f, k, n.ops[p].operands[j])
    ensures p in SinksOf(n, f, k)
  {
    assert n.ops[p].operands[j] in n.ops[p].operands;
  }

  /** With spare results standing for the fork's operand, which no operation that stays can notice, sources are kept. */
  lemma MinimizedKeeps(n: Netlist, m: Netlist, f: nat, smaller: nat, k: nat, rho: Value -> Value)
    requires MinimizeStep(n, m, f, smaller, k)
    requires forall v :: rho(v) == if IsSpare(n, f, k, v) then n.ops[f].operands[0] else ToSmaller(n, f, smaller, v)
    ensures KeepsSources(n, m, {f} + SinksOf(n, f, k), SmallerFork(n, f, smaller), rho)
  {
    var gone := {f} + SinksOf(n, f, k);
    var x := n.ops[f].operands[0];
    FeedsOther(n, f);
    forall o | o in n.ops && o !in gone ensures m.ops[o] == Mapped(n.ops[o], rho) {
      forall j: nat | n.HasOperand(o, j) ensures rho(n.ops[o].operands[j]) == ToSmaller(n, f, smaller, n.ops[o].operands[j]) {
        if IsSpare(n, f, k, n.ops[o].operands[j]) {
          SpareUsers(n, f, k, o, j);
        }
      }
    }
    forall v | n.Exists(v) && n.IsForkResult(v) ensures m.Follows(rho(v), rho(n.ForkInput(v))) {
      if v.op == f {
        if !IsSpare(n, f, k, v) {
          m.TraceStep(rho(v));
        }
      } else {
        m.TraceStep(v);
      }
    }
  }

  lemma MinimizedSources(n: Netlist, m: Netlist, f: nat, smaller: nat, k: nat)
    requires MinimizeStep(n, m, f, smaller, k)
    ensures SameSources(n, m) && m.Grounded()
  {
    var x := n.ops[f].operands[0];
    var rho := v => if IsSpare(n, f, k, v) then x else ToSmaller(n, f, smaller, v);
    MinimizedKeeps(n, m, f, smaller, k, rho);
    RewiredSameSources(n, m, {f} + SinksOf(n, f, k), SmallerFork(n, f, smaller), rho);
    FeedsOther(n, f);
    assert n.HasOperand(f, 0);
    assert n.HasProducer(x);
    var s :| n.Traces(x, s);
    RewiredTraces(n, m, {f} + SinksOf(n, f, k), SmallerFork(n, f, smaller), rho, x);
    assert m.Traces(x, s);
    RewiredGrounded(n, m, {f} + SinksOf(n, f, k), SmallerFork(n, f, smaller), rho);
  }

  lemma UsedIsNotEmpty(n: Netlist, f: nat)
    requires f in n.ops
    ensures UsedResults(n, f, |n.ops[f].results|) != [] <==> HasRealUse(n, f)
  {
    var k := |n.ops[f].results|;
    if HasRealUse(n, f) {
      var i :| 0 <= i < k && HasRealUses(n, Result(f, i));
      assert i in UsedResults(n, f, k);
    }
    if UsedResults(n, f, k) != [] {
      assert UsedResults(n, f, k)[0] in UsedResults(n, f, k);
    }
  }

  lemma MinimizedWellFormed(n: Netlist, m: Netlist, f: nat, smaller: nat, k: nat)
    requires MinimizeStep(n, m, f, smaller, k)
    ensures m.WellFormed()
  {
    FeedsOther(n, f);
    forall o: nat, i: nat | m.HasOperand(o, i) ensures m.GoodOperand(o, i) {
      if o in n.ops {
        MinimizedOperand(n, m, f, smaller, k, o, i);
      } else {
        assert n.HasOperand(f, 0);
      }
    }
  }

  lemma MinimizedOperand(n: Netlist, m: Netlist, f: nat, smaller: nat, k: nat, o: nat, i: nat)
    requires MinimizeStep(n, m, f, smaller, k) && n.HasOperand(o, i) && m.HasOperand(o, i)
    ensures m.GoodOperand(o, i)
  {
    var v := n.ops[o].operands[i];
    assert n.Exists(v);
    if v.Result? && v.op == f {
      if IsSpare(n, f, k, v) {
        SpareUsers(n, f, k, o, i);
      } else {
        UsedPosition(n, f, v.idx, k);
      }
    }
  }

  /** Which result of the old fork the `j`th result of the new one replaces. */
  lemma ReplacedResult(n: Netlist, f: nat, smaller: nat, k: nat, j: nat) returns (i: nat)
    requires f in n.ops && k == |n.ops[f].results| && smaller !in n.ops && j < |UsedResults(n, f, k)|
    ensures i < k && HasRealUses(n, Result(f, i)) && ToSmaller(n, f, smaller, Result(f, i)) == Result(smaller, j)
    ensures forall x | n.Exists(x) && ToSmaller(n, f, smaller, x) == Result(smaller, j) :: x == Result(f, i)
  {
    UsedAtPosition(n, f, j, k);
    i := UsedResults(n, f, k)[j];
    forall x | n.Exists(x) && ToSmaller(n, f, smaller, x) == Result(smaller, j) ensures x == Result(f, i) {
      if x.idx < i {
        UsedPosition(n, f, x.idx, i);
      } else if i < x.idx {
        UsedPosition(n, f, i, x.idx);
      }
    }
  }

  /** Operations that stay: all but the fork and sinks of spare results. */
  lemma UserOfUsedStays(n: Netlist, f: nat, k: nat, i: nat, o: nat)
    requires n.WellFormed() && n.Grounded() && f in n.ops && n.ops[f].kind.Fork? && HasRealUses(n, Result(f, i))
    requires o in n.ops && Result(f, i) in n.ops[o].operands
    ensures o !in {f} + SinksOf(n, f, k)
  {
    FeedsOther(n, f);
  }

  lemma MinimizedNewResult(n: Netlist, m: Netlist, f: nat, smaller: nat, k: nat, j: nat)
    requires MinimizeStep(n, m, f, smaller, k) && n.Materialized() && j < |UsedResults(n, f, k)|
    ensures m.UsedOnce(Result(smaller, j)) && HasRealUses(m, Result(smaller, j))
  {
    var i := ReplacedResult(n, f, smaller, k, j);
    var gone, added, rho := {f} + SinksOf(n, f, k), SmallerFork(n, f, smaller), v => ToSmaller(n, f, smaller, v);
    NewResultUsed(n, m, f, smaller, k, gone, added, rho, i, Result(smaller, j));
  }

  lemma NewResultUsed(n: Netlist, m: Netlist, f: nat, smaller: nat, k: nat, gone: set<nat>, added: Ops, rho: Value -> Value, i: nat, w: Value)
    requires n.WellFormed() && n.Grounded() && n.Materialized() && f in n.ops && n.ops[f].kind.Fork? && i < |n.ops[f].results|
    requires Rewired(n, m, gone, added, rho) && gone == {f} + SinksOf(n, f, k) && w.Result? && w.op == smaller && smaller !in n.ops
    requires HasRealUses(n, Result(f, i)) && rho(Result(f, i)) == w
    requires forall p | p in added :: added[p].operands == n.ops[f].operands
    requires forall x | n.Exists(x) && rho(x) == w :: x == Result(f, i)
    ensures m.UsedOnce(w) && HasRealUses(m, w)
  {
    var v := Result(f, i);
    assert n.Exists(v) && n.Eligible(v) && n.HasOperand(f, 0) && n.Exists(n.ops[f].operands[0]);
    forall o: nat, q: nat | n.IsUse(v, o, q) ensures o !in gone {
      assert v in n.ops[o].operands;
      UserOfUsedStays(n, f, k, i, o);
    }
    UseRenamed(n, m, gone, added, rho, v, w);
    var user :| user in n.ops && v in n.ops[user].operands && !n.ops[user].kind.Sink?;
    UserOfUsedStays(n, f, k, i, user);
    RealUseRenamed(n, m, gone, added, rho, v, user);
  }

  lemma MinimizedOtherValue(n: Netlist, m: Netlist, f: nat, smaller: nat, k: nat, v: Value)
    requires MinimizeStep(n, m, f, smaller, k) && n.UsedOnce(v) && n.Exists(v) && !(v.Result? && v.op == f)
    requires HasRealUse(n, f) || v != n.ops[f].operands[0]
    ensures m.UsedOnce(v)
  {
    var gone, rho := {f} + SinksOf(n, f, k), v => ToSmaller(n, f, smaller, v);
    UsedIsNotEmpty(n, f);
    var o, q :| n.UsedAt(v, o, q);
    assert n.IsUse(v, o, q);
    forall x, p: nat, r: nat | n.IsUse(x, p, r) && p !in gone && rho(x) == v ensures x == v {
    }
    if o == f {
      assert n.ops[f].operands == [v];
      UseAdded(n, m, gone, SmallerFork(n, f, smaller), rho, v, smaller);
    } else {
      assert v != n.ops[f].operands[0] by {
        if v == n.ops[f].operands[0] {
          assert n.IsUse(v, f, 0);
        }
      }
      UseMoves(n, m, gone, SmallerFork(n, f, smaller), rho, v, v, o, q);
    }
  }

  lemma MinimizedMaterialized(n: Netlist, m: Netlist, f: nat, smaller: nat, k: nat)
    requires n.Materialized() && MinimizeStep(n, m, f, smaller, k) && HasRealUse(n, f)
    ensures m.Materialized()
  {
    forall v | m.Exists(v) && m.Eligible(v) ensures m.UsedOnce(v) {
      if v.Result? && v.op == smaller {
        MinimizedNewResult(n, m, f, smaller, k, v.idx);
      } else {
        MinimizedOtherValue(n, m, f, smaller, k, v);
      }
    }
  }

  /** Minimizing a fork where every value has one use leaves it so exactly when the fork has a real use; otherwise the value it
      forked is left without any. */
  lemma MinimizedExactly(n: Netlist, m: Netlist, f: nat, smaller: nat, k: nat)
    requires n.Materialized() && MinimizeStep(n, m, f, smaller, k)
    ensures m.Materialized() <==> HasRealUse(n, f)
    ensures !HasRealUse(n, f) ==> m.Unused(n.ops[f].operands[0])
  {
    if HasRealUse(n, f) {
      MinimizedMaterialized(n, m, f, smaller, k);
    } else {
      MinimizedAway(n, m, f, smaller, k);
    }
  }

  lemma MinimizedAway(n: Netlist, m: Netlist, f: nat, smaller: nat, k: nat)
    requires n.Materialized() && MinimizeStep(n, m, f, smaller, k) && !HasRealUse(n, f)
    ensures m.Unused(n.ops[f].operands[0]) && !m.Materialized()
  {
    var x := n.ops[f].operands[0];
    UsedIsNotEmpty(n, f);
    FeedsOther(n, f);
    assert n.HasOperand(f, 0) && n.Eligible(x);
    assert n.UsedOnce(x);
    var o, q :| n.UsedAt(x, o, q);
    assert n.IsUse(x, f, 0);
    forall p: nat, j: nat ensures !m.IsUse(x, p, j) {
      if p in n.ops && p != f && j < |n.ops[p].operands| {
        assert !n.IsUse(x, p, j);
        assert ToSmaller(n, f, smaller, n.ops[p].operands[j]) != x;
      }
    }
    assert m.Exists(x) && m.Eligible(x) && !m.UsedOnce(x);
  }
}
