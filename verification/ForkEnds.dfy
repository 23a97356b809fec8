/** Fork rewriting ends: no sequence of applications of the three patterns goes on forever. */
module ForkEnds {
  import opened Basics
  import opened Netlists
  import opened MaterializeValues
  import opened ForkRewrites
  import opened ForkMerges
  import opened ForkPatterns
  import opened ForkRuns

  // ----- sums over sets -----

  ghost function Sum(s: set<nat>, w: nat -> nat): nat {
    if s == {} then 0 else var x :| x in s; w(x) + Sum(s - {x}, w)
  }

  lemma {:induction false} SumWithout(s: set<nat>, w: nat -> nat, x: nat)
    requires x in s
    ensures Sum(s, w) == w(x) + Sum(s - {x}, w)
    decreases |s|
  {
    var y :| y in s && Sum(s, w) == w(y) + Sum(s - {y}, w);
    if y != x {
      SumWithout(s - {y}, w, x);
      SumWithout(s - {x}, w, y);
      assert s - {y} - {x} == s - {x} - {y};
    }
  }

  lemma {:induction false} SumSame(s: set<nat>, w: nat -> nat, u: nat -> nat)
    requires forall x | x in s :: w(x) == u(x)
    ensures Sum(s, w) == Sum(s, u)
    decreases |s|
  {
    if s != {} {
      var x :| x in s;
      SumWithout(s, w, x);
      SumWithout(s, u, x);
      SumSame(s - {x}, w, u);
    }
  }

  /** One element is taken out and maybe another put in. */
  lemma SumExchanged(s: set<nat>, f: nat, added: set<nat>, g: nat, w: nat -> nat, u: nat -> nat)
    requires f in s && added <= {g} - s && forall x | x in s && x != f :: u(x) == w(x)
    ensures Sum(s - {f} + added, u) + w(f) == Sum(s, w) + if g in added then u(g) else 0
  {
    SumWithout(s, w, f);
    SumSame(s - {f}, w, u);
    if g in added {
      SumWithout(s - {f} + added, u, g);
      assert s - {f} + added - {g} == s - {f};
    } else {
      assert s - {f} + added == s - {f};
    }
  }

  // ----- the measure -----

  function Forks(n: Netlist): set<nat> {
    set f | f in n.ops && n.ops[f].kind.Fork?
  }

  function ResultsOf(n: Netlist): nat -> nat {
    (f: nat) => if f in n.ops then |n.ops[f].results| else 0
  }

  /** A fork is fed by a fork. */
  predicate IsBehind(n: Netlist, f: nat) {
    f in Forks(n) && |n.ops[f].operands| == 1 && FedByFork(n, f)
  }

  function InFront(n: Netlist, f: nat): nat
    requires IsBehind(n, f)
  {
    n.ops[f].operands[0].op
  }

  /** How far behind its producer a fork is, in forks, or more. */
  ghost predicate Ranked(n: Netlist, rank: nat -> nat) {
    forall f | IsBehind(n, f) :: rank(InFront(n, f)) < rank(f)
  }

  /** Forks behind forks first, then forks, then their results. */
  datatype Size = Size(ranks: nat, forks: nat, results: nat) {
    predicate Below(o: Size) {
      ranks < o.ranks || (ranks == o.ranks && (forks < o.forks || (forks == o.forks && results < o.results)))
    }
  }

  ghost function SizeOf(n: Netlist, rank: nat -> nat): Size {
    Size(Sum(Forks(n), rank), Sum(Forks(n), (f: nat) => 1), Sum(Forks(n), ResultsOf(n)))
  }

  ghost predicate Shrinks(n: Netlist, rank: nat -> nat, m: Netlist, next: nat -> nat) {
    Ranked(m, next) && SizeOf(m, next).Below(SizeOf(n, rank))
  }

  /** The fork `g` takes the place of `f`, or nothing does. */
  function Placed(rank: nat -> nat, g: nat, r: nat): nat -> nat {
    (x: nat) => if x == g then r else rank(x)
  }

  /** Less behind, or not more and fewer, or not more and as many with fewer results. */
  lemma ExchangeShrinks(n: Netlist, rank: nat -> nat, m: Netlist, f: nat, added: set<nat>, g: nat, r: nat)
    requires f in Forks(n) && added <= {g} - n.ops.Keys && Forks(m) == Forks(n) - {f} + added
    requires g !in Forks(n) - {f} && forall x | x in Forks(n) && x != f :: ResultsOf(m)(x) == ResultsOf(n)(x)
    requires r <= rank(f) && (r == rank(f) ==> added == {} || ResultsOf(m)(g) < ResultsOf(n)(f))
    ensures SizeOf(m, Placed(rank, g, r)).Below(SizeOf(n, rank))
  {
    SumExchanged(Forks(n), f, added, g, rank, Placed(rank, g, r));
    SumExchanged(Forks(n), f, added, g, (x: nat) => 1, (x: nat) => 1);
    SumExchanged(Forks(n), f, added, g, ResultsOf(n), ResultsOf(m));
  }

  // ----- the patterns -----

  lemma MinimizeForks(n: Netlist, m: Netlist, f: nat, smaller: nat)
    requires Minimizes(n, m, f, smaller)
    ensures var added := SmallerFork(n, f, smaller).Keys;
      && Forks(m) == Forks(n) - {f} + added && added <= {smaller} && smaller !in n.ops && f in Forks(n)
      && (added != {} ==> ResultsOf(m)(smaller) < ResultsOf(n)(f))
      && forall x | x in Forks(n) && x != f :: ResultsOf(m)(x) == ResultsOf(n)(x)
  {
    AllOrSome(n, f, |n.ops[f].results|);
  }

  /** What is in front of a fork is in front of what takes its place. */
  lemma MinimizeBehind(n: Netlist, m: Netlist, f: nat, smaller: nat, rank: nat -> nat, h: nat)
    requires Minimizes(n, m, f, smaller) && Ranked(n, rank) && IsBehind(m, h)
    ensures Placed(rank, smaller, rank(f))(InFront(m, h)) < Placed(rank, smaller, rank(f))(h)
  {
    var was := if h == smaller then f else h;
    assert n.HasOperand(was, 0) && n.GoodOperand(was, 0);
    var v := n.ops[was].operands[0];
    assert m.ops[h].operands[0] == if h == smaller then v else ToSmaller(n, f, smaller, v);
    assert IsBehind(n, was) && rank(v.op) < rank(was);
  }

  lemma MinimizeShrinks(n: Netlist, m: Netlist, f: nat, smaller: nat, rank: nat -> nat) returns (next: nat -> nat)
    requires Minimizes(n, m, f, smaller) && Ranked(n, rank)
    ensures Shrinks(n, rank, m, next)
  {
    var added := SmallerFork(n, f, smaller).Keys;
    next := Placed(rank, smaller, rank(f));
    MinimizeForks(n, m, f, smaller);
    ExchangeShrinks(n, rank, m, f, added, smaller, rank(f));
    forall h | IsBehind(m, h) ensures next(InFront(m, h)) < next(h) {
      MinimizeBehind(n, m, f, smaller, rank, h);
    }
  }

  lemma BypassBehind(n: Netlist, m: Netlist, f: nat, rank: nat -> nat, h: nat)
    requires BypassStep(n, m, f) && Ranked(n, rank) && IsBehind(m, h)
    ensures rank(InFront(m, h)) < rank(h)
  {
    assert n.HasOperand(f, 0) && n.GoodOperand(f, 0) && n.HasOperand(h, 0) && n.GoodOperand(h, 0);
    var v := n.ops[h].operands[0];
    assert m.ops[h].operands[0] == Bypass(n, f, v);
    assert IsBehind(n, h) && rank(v.op) < rank(h);
    assert v.op == f ==> IsBehind(n, f);
  }

  lemma BypassShrinks(n: Netlist, m: Netlist, f: nat, rank: nat -> nat)
    requires BypassStep(n, m, f) && Ranked(n, rank)
    ensures Shrinks(n, rank, m, rank)
  {
    assert Forks(m) == Forks(n) - {f} + {};
    ExchangeShrinks(n, rank, m, f, {}, f, rank(f));
    SumSame(Forks(m), rank, Placed(rank, f, rank(f)));
    forall h | IsBehind(m, h) ensures rank(InFront(m, h)) < rank(h) {
      BypassBehind(n, m, f, rank, h);
    }
  }

  lemma MergeBehind(n: Netlist, m: Netlist, d: nat, k: nat, f: nat, big: nat, single: bool, rank: nat -> nat, h: nat)
    requires MergeStep(n, m, d, k, f, big, single) && Ranked(n, rank) && IsBehind(m, h)
    ensures Placed(rank, big, rank(d))(InFront(m, h)) < Placed(rank, big, rank(d))(h)
  {
    assert IsBehind(n, f) && InFront(n, f) == d;
    var was := if h == big then d else h;
    assert n.HasOperand(was, 0) && n.GoodOperand(was, 0);
    var v := n.ops[was].operands[0];
    assert m.ops[h].operands[0] == if h == big then v else Merge(n, d, k, f, big, single, v);
    assert IsBehind(n, was) && rank(v.op) < rank(was);
  }

  lemma MergeForks(n: Netlist, m: Netlist, d: nat, k: nat, f: nat, big: nat, single: bool)
    requires MergeStep(n, m, d, k, f, big, single)
    ensures Forks(m) == Forks(n) - {f} + {big} && big !in n.ops && f in Forks(n) && IsBehind(n, f) && InFront(n, f) == d
    ensures forall x | x in Forks(n) && x != f :: ResultsOf(m)(x) == ResultsOf(n)(x)
  {
  }

  lemma MergeShrinks(n: Netlist, m: Netlist, d: nat, k: nat, f: nat, big: nat, single: bool, rank: nat -> nat) returns (next: nat -> nat)
    requires MergeStep(n, m, d, k, f, big, single) && Ranked(n, rank)
    ensures Shrinks(n, rank, m, next)
  {
    next := Placed(rank, big, rank(d));
    MergeForks(n, m, d, k, f, big, single);
    ExchangeShrinks(n, rank, m, f, {big}, big, rank(d));
    forall h | IsBehind(m, h) ensures next(InFront(m, h)) < next(h) {
      MergeBehind(n, m, d, k, f, big, single, rank, h);
    }
  }

  lemma RewriteShrinks(n: Netlist, m: Netlist, rank: nat -> nat) returns (next: nat -> nat)
    requires Rewrites(n, m) && Ranked(n, rank)
    ensures Shrinks(n, rank, m, next)
  {
    if f, smaller :| Minimizes(n, m, f, smaller) {
      next := MinimizeShrinks(n, m, f, smaller, rank);
    } else if f :| BypassStep(n, m, f) {
      BypassShrinks(n, m, f, rank);
      next := rank;
    } else {
      var d, k, f, big, single :| MergeStep(n, m, d, k, f, big, single);
      next := MergeShrinks(n, m, d, k, f, big, single, rank);
    }
  }

  // ----- every netlist without cycles of forks has such ranks -----

  lemma {:induction false} SameDepth(n: Netlist, f: nat, i: nat, j: nat, s: Value, depth: nat)
    requires f in Forks(n) && |n.ops[f].operands| == 1
    ensures n.TracesIn(Result(f, i), s, depth) <==> n.TracesIn(Result(f, j), s, depth)
  {
  }

  /** The least depth at which a producer is found, above `from`. */
  ghost function LeastDepth(n: Netlist, v: Value, s: Value, from: nat, depth: nat): (k: nat)
    requires from <= depth && n.TracesIn(v, s, depth) && forall i: nat | i < from :: !n.TracesIn(v, s, i)
    ensures n.TracesIn(v, s, k) && forall i: nat | i < k :: !n.TracesIn(v, s, i)
    decreases depth - from
  {
    if n.TracesIn(v, s, from) then from else LeastDepth(n, v, s, from + 1, depth)
  }

  ghost predicate IsDepth(n: Netlist, v: Value, k: nat) {
    exists s :: n.TracesIn(v, s, k) && forall i: nat | i < k :: !n.TracesIn(v, s, i)
  }

  ghost function DepthOf(n: Netlist, f: nat): (k: nat)
    ensures n.HasProducer(Result(f, 0)) ==> IsDepth(n, Result(f, 0), k)
  {
    if n.HasProducer(Result(f, 0)) then
      var s :| n.Traces(Result(f, 0), s);
      var depth: nat :| n.TracesIn(Result(f, 0), s, depth);
      var k := LeastDepth(n, Result(f, 0), s, 0, depth);
      assert IsDepth(n, Result(f, 0), k);
      k
    else 0
  }

  lemma GroundedIsRanked(n: Netlist)
    requires n.WellFormed() && n.Grounded()
    ensures Ranked(n, (f: nat) => DepthOf(n, f))
  {
    forall f | IsBehind(n, f) ensures DepthOf(n, InFront(n, f)) < DepthOf(n, f) {
      var d, v := InFront(n, f), n.ops[f].operands[0];
      assert n.Exists(Result(f, 0)) && n.Exists(Result(d, 0));
      assert n.HasProducer(Result(f, 0)) && n.HasProducer(Result(d, 0));
      var k := DepthOf(n, f);
      var s :| n.TracesIn(Result(f, 0), s, k) && forall i: nat | i < k :: !n.TracesIn(Result(f, 0), s, i);
      SameDepth(n, d, v.idx, 0, s, k - 1);
      var l := DepthOf(n, d);
      var t :| n.TracesIn(Result(d, 0), t, l) && forall i: nat | i < l :: !n.TracesIn(Result(d, 0), t, i);
      n.TraceIsUnique(Result(d, 0), s, k - 1, t, l);
    }
  }

  /** There is no infinite sequence of fork rewrites. */
  lemma {:induction false} RankedRewritingEnds(s: nat -> Netlist, i: nat, rank: nat -> nat)
    requires Ranked(s(i), rank)
    ensures exists j: nat :: !Rewrites(s(j), s(j + 1))
    decreases SizeOf(s(i), rank).ranks, SizeOf(s(i), rank).forks, SizeOf(s(i), rank).results
  {
    if Rewrites(s(i), s(i + 1)) {
      var next := RewriteShrinks(s(i), s(i + 1), rank);
      RankedRewritingEnds(s, i + 1, next);
    }
  }

  lemma RewritingEnds(s: nat -> Netlist)
    ensures exists j: nat :: !Rewrites(s(j), s(j + 1))
  {
    if Rewrites(s(0), s(1)) {
      assert s(0).WellFormed() && s(0).Grounded();
      GroundedIsRanked(s(0));
      RankedRewritingEnds(s, 0, (f: nat) => DepthOf(s(0), f));
    }
  }
}
