/** Any sequence of fork rewrites after materialization: what it keeps, and when every value ends with exactly one use. */
module ForkRuns {
  import opened Basics
  import opened Netlists
  import opened MaterializeValues
  import opened ForkRewrites
  import opened ForkMerges
  import opened ForkPatterns

  // ----- steps and runs -----

  /** One application of a pattern; erasing an unused fork is a case of the first. */
  ghost predicate Rewrites(n: Netlist, m: Netlist) {
    || (exists f, smaller :: Minimizes(n, m, f, smaller))
    || (exists f :: BypassStep(n, m, f))
    || exists d, k, f, big, single :: MergeStep(n, m, d, k, f, big, single)
  }

  ghost predicate Minimizes(n: Netlist, m: Netlist, f: nat, smaller: nat) {
    f in n.ops && !AllUsed(n, f) && MinimizeStep(n, m, f, smaller, |n.ops[f].results|)
  }

  /** Minimizing does not apply to a fork all of whose results have real uses. */
  predicate AllUsed(n: Netlist, f: nat)
    requires f in n.ops
  {
    forall k | 0 <= k < |n.ops[f].results| :: HasRealUses(n, Result(f, k))
  }

  /** A step of a driver that tries the patterns on each fork in the order they are listed, minimizing first. */
  ghost predicate OrderedRewrites(n: Netlist, m: Netlist) {
    || (exists f, smaller :: Minimizes(n, m, f, smaller))
    || (exists f :: BypassStep(n, m, f) && AllUsed(n, f))
    || exists d, k, f, big, single :: MergeStep(n, m, d, k, f, big, single) && AllUsed(n, f)
  }

  predicate FedByFork(n: Netlist, f: nat)
    requires f in n.ops && |n.ops[f].operands| == 1
  {
    var x := n.ops[f].operands[0];
    x.Result? && x.op in n.ops && n.ops[x.op].kind.Fork?
  }

  /** No pattern applies: the conditions under which the three patterns fail on every fork. */
  ghost predicate Settled(n: Netlist) {
    forall f | f in n.ops && n.ops[f].kind.Fork? && |n.ops[f].operands| == 1 ::
      AllUsed(n, f) && !FedByFork(n, f) && !(|n.ops[f].results| == 1 && !FedByLazyFork(n, f))
  }

  // ----- sources -----

  lemma RewriteSound(n: Netlist, m: Netlist)
    requires Rewrites(n, m)
    ensures SameSources(n, m) && m.WellFormed() && m.Grounded()
  {
    if f, smaller :| Minimizes(n, m, f, smaller) {
      MinimizedSources(n, m, f, smaller, |n.ops[f].results|);
      MinimizedWellFormed(n, m, f, smaller, |n.ops[f].results|);
    } else if f :| BypassStep(n, m, f) {
      BypassSound(n, m, f);
    } else {
      var d, k, f, big, single :| MergeStep(n, m, d, k, f, big, single);
      MergeSources(n, m, d, k, f, big, single);
      MergeWellFormed(n, m, d, k, f, big, single);
    }
  }

  ghost predicate Keeps(n: Netlist, m: Netlist) {
    SameSources(n, m) && m.WellFormed() && m.Grounded()
  }

  lemma OneMoreRewrite(n: Netlist, m: Netlist, next: Netlist)
    requires Keeps(n, m) && Rewrites(m, next)
    ensures Keeps(n, next)
  {
    RewriteSound(m, next);
    SameSourcesTransitive(n, m, next);
  }

  /** Any interleaving of the three patterns keeps the producer of every operand of every operation that is not a fork or sink. */
  lemma RewritesKeepSources(run: seq<Netlist>)
    requires Evolves(run, (n, m) => Rewrites(n, m)) && run[0].WellFormed() && run[0].Grounded()
    ensures Keeps(run[0], run[|run| - 1])
  {
    var step, inv := (n, m) => Rewrites(n, m), m => Keeps(run[0], m);
    SameSourcesSelf(run[0]);
    forall m, next | inv(m) && step(m, next) ensures inv(next) {
      OneMoreRewrite(run[0], m, next);
    }
    RunInvariant(run, step, inv);
  }

  // ----- steps with lazy forks as operations of their own -----

  lemma {:induction false} EagerUsedResults(n: Netlist, f: nat, k: nat)
    ensures UsedResults(Eager(n), f, k) == UsedResults(n, f, k)
  {
    if k > 0 {
      EagerUsedResults(n, f, k - 1);
    }
  }

  lemma EagerMinimizes(n: Netlist, m: Netlist, f: nat, smaller: nat)
    requires Minimizes(n, m, f, smaller)
    ensures Minimizes(Eager(n), Eager(m), f, smaller)
  {
    var e := Eager(n);
    EagerWellFormed(n);
    EagerGrounded(n);
    forall k: nat ensures UsedResults(e, f, k) == UsedResults(n, f, k) {
      EagerUsedResults(n, f, k);
    }
    assert SmallerFork(e, f, smaller) == SmallerFork(n, f, smaller);
    assert SinksOf(e, f, |n.ops[f].results|) == SinksOf(n, f, |n.ops[f].results|);
    forall o | o in n.ops ensures Mapped(n.ops[o], v => ToSmaller(e, f, smaller, v)) == Mapped(n.ops[o], v => ToSmaller(n, f, smaller, v)) {
      SameMapped(n.ops[o], v => ToSmaller(e, f, smaller, v), v => ToSmaller(n, f, smaller, v));
    }
  }

  lemma EagerBypass(n: Netlist, m: Netlist, f: nat)
    requires BypassStep(n, m, f)
    ensures BypassStep(Eager(n), Eager(m), f)
  {
    EagerWellFormed(n);
    EagerGrounded(n);
    forall o | o in n.ops ensures Mapped(n.ops[o], v => Bypass(Eager(n), f, v)) == Mapped(n.ops[o], v => Bypass(n, f, v)) {
      SameMapped(n.ops[o], v => Bypass(Eager(n), f, v), v => Bypass(n, f, v));
    }
  }

  lemma EagerMerge(n: Netlist, m: Netlist, d: nat, k: nat, f: nat, big: nat, single: bool)
    requires MergeStep(n, m, d, k, f, big, single)
    ensures MergeStep(Eager(n), Eager(m), d, k, f, big, single)
  {
    var e := Eager(n);
    EagerWellFormed(n);
    EagerGrounded(n);
    forall o: nat, i: nat ensures e.IsUse(Result(d, k), o, i) <==> n.IsUse(Result(d, k), o, i) {
    }
    forall o | o in n.ops
      ensures Mapped(n.ops[o], v => Merge(e, d, k, f, big, single, v)) == Mapped(n.ops[o], v => Merge(n, d, k, f, big, single, v))
    {
      SameMapped(n.ops[o], v => Merge(e, d, k, f, big, single, v), v => Merge(n, d, k, f, big, single, v));
    }
  }

  lemma EagerRewrites(n: Netlist, m: Netlist)
    requires Rewrites(n, m)
    ensures Rewrites(Eager(n), Eager(m))
  {
    if f, smaller :| Minimizes(n, m, f, smaller) {
      EagerMinimizes(n, m, f, smaller);
    } else if f :| BypassStep(n, m, f) {
      EagerBypass(n, m, f);
    } else {
      var d, k, f, big, single :| MergeStep(n, m, d, k, f, big, single);
      EagerMerge(n, m, d, k, f, big, single);
    }
  }
}
