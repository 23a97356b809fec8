/** When the materialization pass ends with every dataflow value used exactly once. */
module ForkOutcome {
  import opened Basics
  import opened Netlists
  import opened MaterializeValues
  import opened ForkRewrites
  import opened ForkMerges
  import opened ForkPatterns
  import opened ForkRuns
  import opened ForkHusks

  // ----- sinks -----

  ghost predicate UsedBySink(n: Netlist, v: Value) {
    exists o: nat, i: nat :: n.IsUse(v, o, i) && n.ops[o].kind.Sink?
  }

  ghost predicate UsedByFork(n: Netlist, v: Value) {
    exists o: nat, i: nat :: n.IsUse(v, o, i) && n.ops[o].kind.Fork?
  }

  /** No value is used by a sink and a fork. */
  ghost predicate Unmixed(n: Netlist) {
    forall v {:trigger UsedBySink(n, v)} {:trigger UsedByFork(n, v)} :: !(UsedBySink(n, v) && UsedByFork(n, v))
  }

  /** What sinks and forks use after a step, they used before it, possibly under another name. */
  ghost predicate UsesFrom(n: Netlist, m: Netlist, back: Value -> Value) {
    forall w {:trigger back(w)} ::
      (UsedBySink(m, w) ==> UsedBySink(n, back(w))) && (UsedByFork(m, w) ==> UsedByFork(n, back(w)))
  }

  lemma MinimizedUsesFrom(n: Netlist, m: Netlist, f: nat, smaller: nat, back: Value -> Value)
    requires Minimizes(n, m, f, smaller) && forall w :: back(w) == BackSmaller(n, f, smaller, w)
    ensures UsesFrom(n, m, back)
  {
    forall w, p: nat, j: nat | m.IsUse(w, p, j)
      ensures n.IsUse(back(w), Behind(f, smaller, p), j) && m.ops[p].kind == n.ops[Behind(f, smaller, p)].kind
    {
      MinimizedUse(n, m, f, smaller, w, p, j);
    }
  }

  lemma MergedUsesFrom(n: Netlist, m: Netlist, d: nat, k: nat, f: nat, big: nat, single: bool, back: Value -> Value)
    requires MergeStep(n, m, d, k, f, big, single) && forall w :: back(w) == BackBig(n, d, k, f, big, single, w)
    ensures UsesFrom(n, m, back)
  {
    forall w, p: nat, j: nat | m.IsUse(w, p, j)
      ensures n.IsUse(back(w), Behind(d, big, p), j) && m.ops[p].kind == n.ops[Behind(d, big, p)].kind
    {
      MergedUse(n, m, d, k, f, big, single, w, p, j);
    }
  }

  /** A fork result with a real use has no sink among its users. */
  lemma ReallyUsedNotSunk(n: Netlist, v: Value)
    requires HasHusks(n) && Unmixed(n) && n.Exists(v) && n.Eligible(v) && HasRealUses(n, v)
    ensures !UsedBySink(n, v)
  {
    var husks :| Affine(n, husks);
    var o :| o in n.ops && v in n.ops[o].operands && !n.ops[o].kind.Sink?;
    var i: nat :| i < |n.ops[o].operands| && n.ops[o].operands[i] == v;
    assert n.IsUse(v, o, i);
  }

  lemma BypassedUsesFrom(n: Netlist, m: Netlist, f: nat, back: Value -> Value)
    requires HasHusks(n) && Unmixed(n) && BypassStep(n, m, f) && AllUsed(n, f) && forall w :: back(w) == w
    ensures UsesFrom(n, m, back) && Unmixed(m)
  {
    var x, r := n.ops[f].operands[0], Result(f, 0);
    FeedsOther(n, f);
    assert n.HasOperand(f, 0) && n.IsUse(x, f, 0) && UsedByFork(n, x);
    assert n.Eligible(r);
    ReallyUsedNotSunk(n, r);
    forall w, p: nat, j: nat | m.IsUse(w, p, j)
      ensures n.IsUse(w, p, j) || (w == x && n.IsUse(r, p, j))
      ensures m.ops[p].kind == n.ops[p].kind
    {
      assert n.HasOperand(p, j) && n.Exists(n.ops[p].operands[j]);
    }
    forall w ensures (UsedBySink(m, w) ==> UsedBySink(n, w)) && (UsedByFork(m, w) ==> UsedByFork(n, w)) {
    }
  }

  lemma UnmixedStays(n: Netlist, m: Netlist, back: Value -> Value)
    requires Unmixed(n) && UsesFrom(n, m, back)
    ensures Unmixed(m)
  {
    forall w ensures !(UsedBySink(m, w) && UsedByFork(m, w)) {
      assert !(UsedBySink(n, back(w)) && UsedByFork(n, back(w)));
    }
  }

  // ----- base values -----

  /** The values that are not fork results are the same. */
  lemma SameBases(n: Netlist, m: Netlist, x: Value)
    requires n.WellFormed() && m.WellFormed() && SameSources(Eager(n), Eager(m))
    ensures IsBase(n, x) <==> IsBase(m, x)
  {
    if x.Result? && x.op in n.ops {
      assert n.GoodShape(x.op);
    }
    if x.Result? && x.op in m.ops {
      assert m.GoodShape(x.op);
    }
  }

  lemma MinimizedSink(n: Netlist, m: Netlist, f: nat, smaller: nat, x: Value)
    requires Minimizes(n, m, f, smaller) && IsBase(n, x) && UsedBySink(n, x)
    ensures UsedBySink(m, x)
  {
    var o: nat, i: nat :| n.IsUse(x, o, i) && n.ops[o].kind.Sink?;
    assert n.GoodShape(o);
    assert o !in SinksOf(n, f, |n.ops[f].results|);
    assert m.IsUse(x, o, i);
  }

  lemma BypassedSink(n: Netlist, m: Netlist, f: nat, x: Value)
    requires BypassStep(n, m, f) && IsBase(n, x) && UsedBySink(n, x)
    ensures UsedBySink(m, x)
  {
    var o: nat, i: nat :| n.IsUse(x, o, i) && n.ops[o].kind.Sink?;
    assert m.IsUse(x, o, i);
  }

  lemma MergedSink(n: Netlist, m: Netlist, d: nat, k: nat, f: nat, big: nat, single: bool, x: Value)
    requires MergeStep(n, m, d, k, f, big, single) && IsBase(n, x) && UsedBySink(n, x)
    ensures UsedBySink(m, x)
  {
    var o: nat, i: nat :| n.IsUse(x, o, i) && n.ops[o].kind.Sink?;
    assert m.IsUse(x, o, i);
  }

  lemma SinksStay(n: Netlist, m: Netlist, x: Value)
    requires Rewrites(n, m) && IsBase(n, x) && UsedBySink(n, x)
    ensures UsedBySink(m, x)
  {
    if f, smaller :| Minimizes(n, m, f, smaller) {
      MinimizedSink(n, m, f, smaller, x);
    } else if f :| BypassStep(n, m, f) {
      BypassedSink(n, m, f, x);
    } else {
      var d, k, f, big, single :| MergeStep(n, m, d, k, f, big, single);
      MergedSink(n, m, d, k, f, big, single, x);
    }
  }

  // ----- what runs keep -----

  ghost predicate Reached(n: Netlist, m: Netlist) {
    && SameSources(Eager(n), Eager(m)) && m.WellFormed() && m.Grounded() && HasHusks(m)
    && forall x {:trigger UsedBySink(m, x)} | IsBase(n, x) && UsedBySink(n, x) :: UsedBySink(m, x)
  }

  /** In listed order, sinks never come to a base value. */
  ghost predicate ReachedInOrder(n: Netlist, m: Netlist) {
    && Reached(n, m) && Unmixed(m)
    && forall x {:trigger UsedBySink(m, x)} | IsBase(n, x) && UsedBySink(m, x) :: UsedBySink(n, x)
  }

  lemma OneMoreReached(n: Netlist, m: Netlist, next: Netlist)
    requires n.WellFormed() && Reached(n, m) && Rewrites(m, next)
    ensures Reached(n, next)
  {
    RewriteSound(m, next);
    EagerRewrites(m, next);
    RewriteSound(Eager(m), Eager(next));
    SameSourcesTransitive(Eager(n), Eager(m), Eager(next));
    RewritesAffine(m, next);
    forall x | IsBase(n, x) && UsedBySink(n, x) ensures UsedBySink(next, x) {
      SameBases(n, m, x);
      SinksStay(m, next, x);
    }
  }

  /** A base value keeps its name. */
  lemma OrderedUsesFrom(n: Netlist, m: Netlist) returns (back: Value -> Value)
    requires HasHusks(n) && Unmixed(n) && OrderedRewrites(n, m)
    ensures Rewrites(n, m) && UsesFrom(n, m, back) && Unmixed(m) && forall x | IsBase(n, x) :: back(x) == x
  {
    if f, smaller :| Minimizes(n, m, f, smaller) {
      back := w => if f in n.ops then BackSmaller(n, f, smaller, w) else w;
      MinimizedUsesFrom(n, m, f, smaller, back);
      UnmixedStays(n, m, back);
    } else if f :| BypassStep(n, m, f) && AllUsed(n, f) {
      back := w => w;
      BypassedUsesFrom(n, m, f, back);
    } else {
      var d, k, f, big, single :| MergeStep(n, m, d, k, f, big, single) && AllUsed(n, f);
      back := w => if d in n.ops then BackBig(n, d, k, f, big, single, w) else w;
      MergedUsesFrom(n, m, d, k, f, big, single, back);
      UnmixedStays(n, m, back);
    }
  }

  lemma OneMoreInOrder(n: Netlist, m: Netlist, next: Netlist)
    requires n.WellFormed() && ReachedInOrder(n, m) && OrderedRewrites(m, next)
    ensures ReachedInOrder(n, next)
  {
    var back := OrderedUsesFrom(m, next);
    OneMoreReached(n, m, next);
    forall x | IsBase(n, x) && UsedBySink(next, x) ensures UsedBySink(n, x) {
      SameBases(n, m, x);
      assert UsedBySink(m, back(x));
    }
  }

  lemma StartOfRun(n: Netlist)
    requires n.WellFormed() && n.Grounded() && n.Materialized()
    ensures ReachedInOrder(n, n)
  {
    SameSourcesSelf(Eager(n));
    MaterializedIsAffine(n);
    forall v ensures !(UsedBySink(n, v) && UsedByFork(n, v)) {
      if UsedByFork(n, v) {
        var o: nat, i: nat :| n.IsUse(v, o, i) && n.ops[o].kind.Fork?;
        assert n.HasOperand(o, i) && n.GoodOperand(o, i);
        assert n.UsedOnce(v);
      }
    }
  }

  lemma RunReaches(run: seq<Netlist>)
    requires Evolves(run, (n, m) => Rewrites(n, m)) && run[0].WellFormed() && run[0].Grounded() && run[0].Materialized()
    ensures Reached(run[0], run[|run| - 1])
  {
    var step, inv := (n, m) => Rewrites(n, m), m => Reached(run[0], m);
    StartOfRun(run[0]);
    forall m, next | inv(m) && step(m, next) ensures inv(next) {
      OneMoreReached(run[0], m, next);
    }
    RunInvariant(run, step, inv);
  }

  lemma OrderedRunReaches(run: seq<Netlist>)
    requires Evolves(run, (n, m) => OrderedRewrites(n, m)) && run[0].WellFormed() && run[0].Grounded() && run[0].Materialized()
    ensures ReachedInOrder(run[0], run[|run| - 1])
  {
    var step, inv := (n, m) => OrderedRewrites(n, m), m => ReachedInOrder(run[0], m);
    StartOfRun(run[0]);
    forall m, next | inv(m) && step(m, next) ensures inv(next) {
      OneMoreInOrder(run[0], m, next);
    }
    RunInvariant(run, step, inv);
  }

  // ----- where runs end -----

  /** A husk would be a fork fed by a fork, or have a result without real use. */
  lemma SettledHasNoHusks(n: Netlist)
    requires n.WellFormed() && HasHusks(n) && Settled(n)
    ensures Affine(n, {})
  {
    var husks :| Affine(n, husks);
    if h :| h in husks {
      assert n.GoodShape(h);
      var v := Result(h, 0);
      assert AllUsed(n, h) && HasRealUses(n, v);
      var o :| o in n.ops && v in n.ops[o].operands && !n.ops[o].kind.Sink?;
      var i: nat :| i < |n.ops[o].operands| && n.ops[o].operands[i] == v;
      assert n.IsUse(v, o, i);
      assert false;
    }
    assert husks == {};
  }

  /** At the end every fork result has exactly one use, and so has every other dataflow value that is used at all. */
  lemma SettledUses(n: Netlist, v: Value)
    requires n.WellFormed() && Affine(n, {}) && Settled(n) && n.Exists(v) && n.Eligible(v)
    ensures n.UsedOnce(v) <==> !(IsBase(n, v) && n.Unused(v))
  {
    if !IsBase(n, v) {
      assert n.GoodShape(v.op) && AllUsed(n, v.op);
      var o :| o in n.ops && v in n.ops[o].operands && !n.ops[o].kind.Sink?;
      var i: nat :| i < |n.ops[o].operands| && n.ops[o].operands[i] == v;
      assert n.IsUse(v, o, i);
    }
    if o: nat, i: nat :| n.IsUse(v, o, i) {
      assert n.UsedAt(v, o, i);
    }
  }

  /** At the end a value that is used feeds a sink directly or something real. */
  lemma SettledFeeds(n: Netlist, x: Value)
    requires n.WellFormed() && Settled(n) && IsBase(n, x) && !n.Unused(x)
    ensures UsedBySink(n, x) || FeedsReal(n, x)
  {
    var o: nat, i: nat :| n.IsUse(x, o, i);
    assert Eager(n).TracesIn(x, x, 0);
    if n.ops[o].kind.Fork? {
      var r := Result(o, 0);
      assert n.GoodShape(o) && AllUsed(n, o) && HasRealUses(n, r);
      var p :| p in n.ops && r in n.ops[p].operands && !n.ops[p].kind.Sink?;
      var j: nat :| j < |n.ops[p].operands| && n.ops[p].operands[j] == r;
      assert n.GoodShape(p) && !n.ops[p].kind.Fork?;
      assert Eager(n).TracesIn(r, x, 1);
      assert Eager(n).Traces(r, x);
      assert DrawsAt(n, x, p, j);
    } else if !n.ops[o].kind.Sink? {
      assert Eager(n).Traces(x, x);
      assert DrawsAt(n, x, o, i);
    }
  }

  /** What something draws from is used. */
  lemma FeedingIsUsed(n: Netlist, x: Value)
    requires FeedsReal(n, x)
    ensures !n.Unused(x)
  {
    var o: nat, i: nat :| DrawsAt(n, x, o, i);
    var v := n.ops[o].operands[i];
    var k: nat :| Eager(n).TracesIn(v, x, k);
    assert n.IsUse(v, o, i);
    TraceIsUsed(n, v, x, k);
  }

  lemma {:induction false} TraceIsUsed(n: Netlist, v: Value, x: Value, k: nat)
    requires Eager(n).TracesIn(v, x, k) && !n.Unused(v)
    ensures !n.Unused(x)
    decreases k
  {
    if Eager(n).IsForkResult(v) {
      var u := Eager(n).ForkInput(v);
      assert n.IsUse(u, v.op, 0);
      TraceIsUsed(n, u, x, k - 1);
    }
  }

  /** Where every value has one use, a wasted value is one that only forks use and nothing real draws from. */
  lemma WastedMaterialized(n: Netlist, x: Value)
    requires n.WellFormed() && n.Materialized() && IsBase(n, x)
    ensures Wasted(n, x) <==> !UsedBySink(n, x) && !FeedsReal(n, x)
  {
    assert n.UsedOnce(x);
    var o, i :| n.UsedAt(x, o, i);
    assert n.IsUse(x, o, i);
    if !UsedBySink(n, x) && !n.ops[o].kind.Fork? {
      assert Eager(n).TracesIn(x, x, 0);
      assert Eager(n).Traces(x, x);
      assert DrawsAt(n, x, o, i);
    }
  }

  ghost predicate NothingWasted(n: Netlist) {
    forall x | IsBase(n, x) :: !Wasted(n, x)
  }

  lemma SettledExactly(n: Netlist)
    requires n.WellFormed() && Affine(n, {}) && Settled(n)
    ensures n.Materialized() <==> forall x | IsBase(n, x) :: !n.Unused(x)
  {
    forall v | n.Exists(v) && n.Eligible(v) ensures n.UsedOnce(v) <==> !(IsBase(n, v) && n.Unused(v)) {
      SettledUses(n, v);
    }
  }

  /** In whatever order the patterns are applied: if nothing is wasted, every value has exactly one use when none applies. */
  lemma RunsEndMaterialized(run: seq<Netlist>)
    requires Evolves(run, (n, m) => Rewrites(n, m)) && Settled(run[|run| - 1])
    requires run[0].WellFormed() && run[0].Grounded() && run[0].Materialized() && NothingWasted(run[0])
    ensures run[|run| - 1].Materialized()
  {
    var n, m := run[0], run[|run| - 1];
    RunReaches(run);
    SettledHasNoHusks(m);
    SettledExactly(m);
    forall x | IsBase(m, x) ensures !m.Unused(x) {
      SameBases(n, m, x);
      WastedMaterialized(n, x);
      if UsedBySink(n, x) {
        assert UsedBySink(m, x);
      } else {
        FedAlike(n, m, x);
        FeedingIsUsed(m, x);
      }
    }
  }

  lemma WastedEndsUnused(n: Netlist, m: Netlist, x: Value)
    requires n.WellFormed() && n.Grounded() && n.Materialized() && ReachedInOrder(n, m) && Settled(m) && IsBase(n, x)
    ensures Wasted(n, x) <==> m.Unused(x)
  {
    SameBases(n, m, x);
    WastedMaterialized(n, x);
    FedAlike(n, m, x);
    assert UsedBySink(m, x) <==> UsedBySink(n, x);
    if FeedsReal(m, x) {
      FeedingIsUsed(m, x);
    }
    if !m.Unused(x) {
      SettledFeeds(m, x);
    }
  }

  /** With the patterns tried in listed order on each fork, exactly then. */
  lemma RunsEndExactly(run: seq<Netlist>)
    requires Evolves(run, (n, m) => OrderedRewrites(n, m)) && Settled(run[|run| - 1])
    requires run[0].WellFormed() && run[0].Grounded() && run[0].Materialized()
    ensures run[|run| - 1].Materialized() <==> NothingWasted(run[0])
  {
    var n, m := run[0], run[|run| - 1];
    OrderedRunReaches(run);
    SettledHasNoHusks(m);
    SettledExactly(m);
    forall x | IsBase(n, x) ensures Wasted(n, x) <==> m.Unused(x) {
      WastedEndsUnused(n, m, x);
    }
    forall x | IsBase(m, x) ensures IsBase(n, x) {
      SameBases(n, m, x);
    }
  }

  /** The pass: once forks and sinks are inserted and no pattern applies any more, every dataflow value has exactly one use if
      and only if no value of the original netlist is forked to sinks only. */
  lemma PassExactly(n: Netlist, run: seq<Netlist>)
    requires n.WellFormed() && n.Grounded() && run != [] && Improves(n, run[0]) && run[0].Materialized()
    requires Evolves(run, (n, m) => OrderedRewrites(n, m)) && Settled(run[|run| - 1])
    ensures run[|run| - 1].Materialized() <==> NothingWasted(n)
  {
    RunsEndExactly(run);
    forall x ensures IsBase(n, x) <==> IsBase(run[0], x) {
      SameBases(n, run[0], x);
    }
    forall x | IsBase(n, x) ensures Wasted(n, x) <==> Wasted(run[0], x) {
      FedAlike(n, run[0], x);
    }
  }

  /** From a netlist without forks and sinks nothing is wasted. */
  lemma NeitherForksNorSinks(n: Netlist)
    requires forall o | o in n.ops :: n.ops[o].kind.Other?
    ensures n.Grounded() && NothingWasted(n)
  {
    forall v | n.Exists(v) ensures n.HasProducer(v) {
      assert n.TracesIn(v, v, 0);
      assert n.Traces(v, v);
    }
    forall x | IsBase(n, x) && HeadsFork(n, x) ensures FeedsReal(n, x) {
      var o: nat, i: nat :| n.IsUse(x, o, i);
      assert Eager(n).TracesIn(x, x, 0);
      assert Eager(n).Traces(x, x);
      assert DrawsAt(n, x, o, i);
    }
  }

  // ----- an input on which the pass fails -----

  /** One argument that feeds two sinks. */
  function TwoSinks(): Netlist {
    Netlist([true], map[0 := Op(Sink, [FuncArg(0)], []), 1 := Op(Sink, [FuncArg(0)], [])], true)
  }

  /** The fork inserted for them. */
  function TwoSinksForked(): Netlist {
    Netlist([true], map[0 := Op(Sink, [Result(2, 0)], []), 1 := Op(Sink, [Result(2, 1)], []), 2 := Op(Fork, [FuncArg(0)], [true, true])], true)
  }

  lemma TwoSinksTraces(n: Netlist)
    requires n == TwoSinks() || n == TwoSinksForked()
    ensures n.WellFormed() && n.Grounded()
  {
    forall v | n.Exists(v) ensures n.HasProducer(v) {
      assert n.TracesIn(FuncArg(0), FuncArg(0), 0);
      assert n.TracesIn(v, FuncArg(0), 1);
      assert n.Traces(v, FuncArg(0));
    }
  }

  lemma TwoSinksRedirected()
    ensures Redirected(TwoSinks(), TwoSinksForked(), FuncArg(0), 2) && TwoSinksForked().Materialized()
  {
    var forked := TwoSinksForked();
    assert forked.UsedAt(Result(2, 0), 0, 0) && forked.UsedAt(Result(2, 1), 1, 0) && forked.UsedAt(FuncArg(0), 2, 0);
  }

  lemma TwoSinksSpare()
    ensures UsedResults(TwoSinksForked(), 2, 2) == [] && SinksOf(TwoSinksForked(), 2, 2) == {0, 1}
  {
    var forked := TwoSinksForked();
    assert !HasRealUses(forked, Result(2, 0)) && !HasRealUses(forked, Result(2, 1));
    assert UsedResults(forked, 2, 1) == UsedResults(forked, 2, 0) == [];
    assert IsSpare(forked, 2, 2, Result(2, 0)) && IsSpare(forked, 2, 2, Result(2, 1));
  }

  /** Minimizing removes the fork with the sinks, and the argument is left without a use. */
  lemma TwoSinksMinimized()
    ensures Minimizes(TwoSinksForked(), TwoSinks().(ops := map[]), 2, 3) && !TwoSinks().(ops := map[]).Materialized()
  {
    TwoSinksTraces(TwoSinksForked());
    TwoSinksSpare();
    assert {2} + {0, 1} == TwoSinksForked().ops.Keys;
    var m := TwoSinks().(ops := map[]);
    assert m.Exists(FuncArg(0)) && m.Eligible(FuncArg(0)) && !m.UsedOnce(FuncArg(0));
  }

  lemma TwoSinksWasted()
    ensures IsBase(TwoSinks(), FuncArg(0)) && Wasted(TwoSinks(), FuncArg(0))
  {
    var n := TwoSinks();
    assert n.IsUse(FuncArg(0), 0, 0) && n.IsUse(FuncArg(0), 1, 0);
    assert !n.UsedAt(FuncArg(0), 0, 0);
  }

  /** However the pass goes on from there, it does not end well. */
  lemma TwoSinksFail(run: seq<Netlist>)
    requires run != [] && Improves(TwoSinks(), run[0]) && run[0].Materialized()
    requires Evolves(run, (n, m) => OrderedRewrites(n, m)) && Settled(run[|run| - 1])
    ensures !run[|run| - 1].Materialized()
  {
    TwoSinksTraces(TwoSinks());
    TwoSinksWasted();
    PassExactly(TwoSinks(), run);
  }
}
