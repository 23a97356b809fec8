/** Dataflow circuits as netlists: operations, their operands, and the producers found behind forks. */
module Netlists {

  datatype Value = FuncArg(idx: nat) | Result(op: nat, idx: nat)

  datatype Kind = Fork | LazyFork | Sink | Other

  /** `results` tells for each result whether it carries dataflow and so must have a single use. */
  datatype Op = Op(kind: Kind, operands: seq<Value>, results: seq<bool>) {
    predicate IsFork() {
      kind.Fork? || kind.LazyFork?
    }
  }

  type Ops = map<nat, Op>

  /** `throughLazy` tells whether lazy forks, like eager ones, are followed back, or count as operations of their own. */
  datatype Netlist = Netlist(args: seq<bool>, ops: Ops, throughLazy: bool) {
    predicate Exists(v: Value) {
      match v
      case FuncArg(i) => i < |args|
      case Result(o, i) => o in ops && i < |ops[o].results|
    }

    predicate Eligible(v: Value)
      requires Exists(v)
    {
      if v.FuncArg? then args[v.idx] else ops[v.op].results[v.idx]
    }

    predicate HasOperand(o: nat, i: nat) {
      o in ops && i < |ops[o].operands|
    }

    /** Operands exist; forks handle dataflow values only. */
    predicate GoodOperand(o: nat, i: nat)
      requires HasOperand(o, i)
    {
      Exists(ops[o].operands[i]) && (ops[o].IsFork() ==> Eligible(ops[o].operands[i]))
    }

    /** Forks and sinks have one operand; forks have results, all of them dataflow values; sinks have none. */
    predicate GoodShape(o: nat)
      requires o in ops
    {
      && (ops[o].IsFork() ==>
            |ops[o].operands| == 1 && |ops[o].results| > 0 && forall k | 0 <= k < |ops[o].results| :: ops[o].results[k])
      && (ops[o].kind.Sink? ==> |ops[o].operands| == 1 && ops[o].results == [])
    }

    ghost predicate WellFormed() {
      && (forall o: nat, i: nat {:trigger HasOperand(o, i)} | HasOperand(o, i) :: GoodOperand(o, i))
      && (forall o | o in ops :: GoodShape(o))
    }

    // ----- uses -----

    predicate IsUse(v: Value, o: nat, i: nat) {
      HasOperand(o, i) && ops[o].operands[i] == v
    }

    /** The only use of the value. */
    ghost predicate UsedAt(v: Value, o: nat, i: nat) {
      IsUse(v, o, i) && forall p: nat, j: nat | IsUse(v, p, j) :: p == o && j == i
    }

    ghost predicate UsedOnce(v: Value) {
      exists o: nat, i: nat :: UsedAt(v, o, i)
    }

    ghost predicate Unused(v: Value) {
      forall o: nat, i: nat :: !IsUse(v, o, i)
    }

    /** Every dataflow value has exactly one use. */
    ghost predicate Materialized() {
      forall v {:trigger UsedOnce(v)} | Exists(v) && Eligible(v) :: UsedOnce(v)
    }

    // ----- producers -----

    predicate SeesThrough(kind: Kind) {
      kind.Fork? || (kind.LazyFork? && throughLazy)
    }

    /** Operations that stay while forks and sinks come and go. */
    predicate Stays(kind: Kind) {
      kind.Other? || (kind.LazyFork? && !throughLazy)
    }

    predicate IsForkResult(v: Value) {
      v.Result? && v.op in ops && SeesThrough(ops[v.op].kind) && |ops[v.op].operands| == 1
    }

    function ForkInput(v: Value): Value
      requires IsForkResult(v)
    {
      ops[v.op].operands[0]
    }

    /** Following forks back from `v` leads to `s` in less than `n` steps. */
    predicate TracesIn(v: Value, s: Value, n: nat)
      decreases n
    {
      if IsForkResult(v) then n > 0 && TracesIn(ForkInput(v), s, n - 1) else v == s
    }

    /** The value draws its tokens from `s` once forks are followed back. */
    ghost predicate Traces(v: Value, s: Value) {
      exists n: nat :: TracesIn(v, s, n)
    }

    /** Whatever `w` draws from, `v` draws from. */
    ghost predicate Follows(v: Value, w: Value) {
      forall s | Traces(w, s) :: Traces(v, s)
    }

    ghost predicate HasProducer(v: Value) {
      exists s :: Traces(v, s)
    }

    /** No cycle consists of forks only. */
    ghost predicate Grounded() {
      forall v {:trigger HasProducer(v)} | Exists(v) :: HasProducer(v)
    }

    lemma TraceStep(v: Value)
      requires IsForkResult(v)
      ensures Follows(v, ForkInput(v))
    {
      forall s | Traces(ForkInput(v), s) ensures Traces(v, s) {
        var n: nat :| TracesIn(ForkInput(v), s, n);
        assert TracesIn(v, s, n + 1);
      }
    }

    lemma {:induction false} TraceIsUnique(v: Value, s: Value, n: nat, t: Value, k: nat)
      requires TracesIn(v, s, n) && TracesIn(v, t, k)
      ensures s == t
      decreases n
    {
      if IsForkResult(v) {
        TraceIsUnique(ForkInput(v), s, n - 1, t, k - 1);
      }
    }

    /** A value draws from one producer at most. */
    lemma OneProducer(v: Value, s: Value, t: Value)
      requires Traces(v, s) && Traces(v, t)
      ensures s == t
    {
      var n: nat :| TracesIn(v, s, n);
      var k: nat :| TracesIn(v, t, k);
      TraceIsUnique(v, s, n, t, k);
    }
  }

  // ----- relating netlists -----

  /** Related values draw from the same producer: step by step, a fork behind one is matched behind the other. */
  ghost predicate Simulates(n: Netlist, m: Netlist, related: (Value, Value) -> bool) {
    forall v, w {:trigger related(v, w)} | related(v, w) ::
      if n.IsForkResult(v) then exists x :: related(n.ForkInput(v), x) && m.Follows(w, x) else m.Traces(w, v)
  }

  lemma {:induction false} TraceFollows(n: Netlist, m: Netlist, related: (Value, Value) -> bool, v: Value, w: Value, s: Value, k: nat)
    requires Simulates(n, m, related) && related(v, w) && n.TracesIn(v, s, k)
    ensures m.Traces(w, s)
    decreases k
  {
    if n.IsForkResult(v) {
      var x :| related(n.ForkInput(v), x) && m.Follows(w, x);
      TraceFollows(n, m, related, n.ForkInput(v), x, s, k - 1);
    }
  }

  /** Operations other than forks and sinks stay, and each of their operands still draws from its producer. */
  ghost predicate SameSources(n: Netlist, m: Netlist) {
    && m.args == n.args && m.throughLazy == n.throughLazy
    && (forall o :: o in n.ops && n.Stays(n.ops[o].kind) <==> o in m.ops && n.Stays(m.ops[o].kind))
    && forall o | o in n.ops && n.Stays(n.ops[o].kind) ::
         SameOp(n.ops[o], m.ops[o]) && forall i | 0 <= i < |n.ops[o].operands| :: DrawsAlike(n, n.ops[o].operands[i], m, m.ops[o].operands[i])
  }

  predicate SameOp(a: Op, b: Op) {
    a.kind == b.kind && a.results == b.results && |a.operands| == |b.operands|
  }

  /** What `v` draws from in one netlist, `w` draws from in the other. */
  ghost predicate DrawsAlike(n: Netlist, v: Value, m: Netlist, w: Value) {
    forall s | n.Traces(v, s) :: m.Traces(w, s)
  }

  lemma DrawsAlikeBy(n: Netlist, m: Netlist, related: (Value, Value) -> bool, v: Value, w: Value)
    requires Simulates(n, m, related) && related(v, w)
    ensures DrawsAlike(n, v, m, w)
  {
    forall s | n.Traces(v, s) ensures m.Traces(w, s) {
      var k: nat :| n.TracesIn(v, s, k);
      TraceFollows(n, m, related, v, w, s, k);
    }
  }

  lemma SameSourcesSelf(n: Netlist)
    ensures SameSources(n, n)
  {
  }

  lemma SameSourcesTransitive(n: Netlist, m: Netlist, k: Netlist)
    requires SameSources(n, m) && SameSources(m, k)
    ensures SameSources(n, k)
  {
    forall o, i | o in n.ops && n.Stays(n.ops[o].kind) && 0 <= i < |n.ops[o].operands|
      ensures DrawsAlike(n, n.ops[o].operands[i], k, k.ops[o].operands[i])
    {
      assert DrawsAlike(n, n.ops[o].operands[i], m, m.ops[o].operands[i]);
      assert DrawsAlike(m, m.ops[o].operands[i], k, k.ops[o].operands[i]);
    }
  }

  // ----- values that reach real operations -----

  predicate HasRealUses(n: Netlist, v: Value) {
    exists o | o in n.ops :: v in n.ops[o].operands && !n.ops[o].kind.Sink?
  }

  predicate HasRealUse(n: Netlist, f: nat) {
    f in n.ops && exists k | 0 <= k < |n.ops[f].results| :: HasRealUses(n, Result(f, k))
  }

  /** The same netlist with lazy forks counted as operations of their own. */
  function Eager(n: Netlist): Netlist {
    n.(throughLazy := false)
  }

  /** A dataflow value that is not the result of an eager fork. */
  predicate IsBase(n: Netlist, x: Value) {
    n.Exists(x) && n.Eligible(x) && (x.Result? ==> !n.ops[x.op].kind.Fork?)
  }

  /** The operand of something other than an eager fork or a sink draws from `x` through eager forks. */
  ghost predicate DrawsAt(n: Netlist, x: Value, o: nat, i: nat) {
    n.HasOperand(o, i) && Eager(n).Stays(n.ops[o].kind) && Eager(n).Traces(n.ops[o].operands[i], x)
  }

  ghost predicate FeedsReal(n: Netlist, x: Value) {
    exists o: nat, i: nat :: DrawsAt(n, x, o, i)
  }

  /** The value is or will be forked: it has a use by a fork, or one besides others. */
  ghost predicate HeadsFork(n: Netlist, x: Value) {
    exists o: nat, i: nat :: n.IsUse(x, o, i) && (n.ops[o].kind.Fork? || !n.UsedAt(x, o, i))
  }

  ghost predicate SameHeads(n: Netlist, m: Netlist) {
    forall v {:trigger HeadsFork(n, v)} {:trigger HeadsFork(m, v)} | n.Exists(v) :: HeadsFork(n, v) <==> HeadsFork(m, v)
  }

  /** A forked value all of whose tokens end in sinks. */
  ghost predicate Wasted(n: Netlist, x: Value) {
    HeadsFork(n, x) && !FeedsReal(n, x)
  }

  lemma {:induction false} EagerTrace(n: Netlist, v: Value, s: Value, k: nat)
    requires n.TracesIn(v, s, k)
    ensures exists t :: Eager(n).TracesIn(v, t, k)
    decreases k
  {
    if Eager(n).IsForkResult(v) {
      EagerTrace(n, n.ForkInput(v), s, k - 1);
      var t :| Eager(n).TracesIn(n.ForkInput(v), t, k - 1);
      assert Eager(n).TracesIn(v, t, k);
    } else {
      assert Eager(n).TracesIn(v, v, k);
    }
  }

  lemma EagerWellFormed(n: Netlist)
    requires n.WellFormed()
    ensures Eager(n).WellFormed()
  {
    forall o: nat, i: nat | Eager(n).HasOperand(o, i) ensures Eager(n).GoodOperand(o, i) {
      assert n.HasOperand(o, i);
    }
  }

  lemma EagerGrounded(n: Netlist)
    requires n.Grounded()
    ensures Eager(n).Grounded()
  {
    forall v | n.Exists(v) ensures Eager(n).HasProducer(v) {
      assert n.HasProducer(v);
      var s :| n.Traces(v, s);
      var k: nat :| n.TracesIn(v, s, k);
      EagerTrace(n, v, s, k);
      var t :| Eager(n).TracesIn(v, t, k);
      assert Eager(n).Traces(v, t);
    }
  }

  /** If operands draw alike, real operations are fed alike. */
  lemma FedAlike(n: Netlist, m: Netlist, x: Value)
    requires SameSources(Eager(n), Eager(m)) && n.WellFormed() && n.Grounded()
    ensures FeedsReal(n, x) <==> FeedsReal(m, x)
  {
    if FeedsReal(n, x) {
      var o: nat, i: nat :| DrawsAt(n, x, o, i);
      assert DrawsAlike(Eager(n), n.ops[o].operands[i], Eager(m), m.ops[o].operands[i]);
      assert DrawsAt(m, x, o, i);
    }
    if FeedsReal(m, x) {
      var o: nat, i: nat :| DrawsAt(m, x, o, i);
      EagerGrounded(n);
      assert n.HasOperand(o, i) && n.Exists(n.ops[o].operands[i]);
      assert Eager(n).HasProducer(n.ops[o].operands[i]);
      var s :| Eager(n).Traces(n.ops[o].operands[i], s);
      assert DrawsAlike(Eager(n), n.ops[o].operands[i], Eager(m), m.ops[o].operands[i]);
      Eager(m).OneProducer(m.ops[o].operands[i], s, x);
      assert DrawsAt(n, x, o, i);
    }
  }
}
