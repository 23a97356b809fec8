/** When sequences of applications of the bitwidth patterns to a circuit end. */
module CircuitEnds {
  import opened Basics
  import opened Transfer
  import opened Expressions
  import opened PatternCosts
  import opened Circuits
  import opened CircuitSteps
  import opened IdleExtensions
  import opened CircuitShrinks
  import opened CircuitMeaning
  import opened CircuitOptimizer

  ghost predicate Infinite(s: nat -> Circuit) {
    forall i: nat :: PassStep(s(i), s(i + 1))
  }

  ghost predicate RunsForever(c: Circuit) {
    exists s: nat -> Circuit :: s(0) == c && Infinite(s)
  }

  ghost predicate IsRun(run: seq<Circuit>, c: Circuit, d: Circuit) {
    Evolves(run, (c, d) => PassStep(c, d)) && run[0] == c && run[|run| - 1] == d
  }

  ghost predicate Reaches(c: Circuit, d: Circuit) {
    exists run :: IsRun(run, c, d)
  }

  // ----- it goes on -----

  /** A truncation that reads a cycle of extensions that do not extend moves along it. */
  lemma CycleGoesOn(c: Circuit)
    requires Valid(c) && CutsIdleCycle(c.defs)
    ensures exists d :: PassStep(c, d) && CutsIdleCycle(d.defs)
  {
    var v: nat, s: set<nat> :| IsCut(c.defs, v) && c.defs[v].e.arg.id in s && ClosedUnder(c.defs, s);
    IdleIsSkipped(c, v);
    IdleSkipped(c, v);
    var d := ForwardNode(c, v).value;
    assert GoodDef(c.defs, c.defs[v]);
    ChildrenAreRefs(c.defs, c.defs[v].e);
    assert Child(c.defs[v].e, 0) == c.defs[v].e.arg;
    var a := c.defs[v].e.arg.id;
    assert IdleAt(c.defs, a) && Extended(c.defs, a) in s && !IdleAt(c.defs, v);
    assert c.defs[v].e.arg.width == c.defs[a].e.to == c.defs[a].e.arg.width;
    assert d.defs[v] == Node(Trunc(c.defs[v].e.to, c.defs[a].e.arg)) && IsCut(d.defs, v);
    forall x | x in s ensures IdleAt(d.defs, x) && Extended(d.defs, x) in s {
      assert IdleAt(c.defs, x) && Extended(c.defs, x) in s;
      assert x != v && d.defs[x] == c.defs[x];
    }
    assert ClosedUnder(d.defs, s);
  }

  ghost function Onward(c: Circuit, i: nat): (d: Circuit)
    requires Valid(c) && CutsIdleCycle(c.defs)
    ensures Valid(d) && CutsIdleCycle(d.defs)
  {
    if i == 0 then c
    else
      var before := Onward(c, i - 1);
      CycleGoesOn(before);
      var d :| PassStep(before, d) && CutsIdleCycle(d.defs);
      PassStepValid(before, d);
      d
  }

  lemma OnwardStep(c: Circuit, i: nat)
    requires Valid(c) && CutsIdleCycle(c.defs)
    ensures PassStep(Onward(c, i), Onward(c, i + 1))
  {
  }

  lemma RunValid(run: seq<Circuit>, c: Circuit, d: Circuit)
    requires IsRun(run, c, d) && Valid(c)
    ensures Valid(d)
  {
    var step := (c, d) => PassStep(c, d);
    forall x, y | Valid(x) && step(x, y) ensures Valid(y) {
      PassStepValid(x, y);
    }
    RunInvariant(run, step, x => Valid(x));
  }

  ghost function Continued(run: seq<Circuit>, d: Circuit, i: nat): Circuit
    requires run != [] && Valid(d) && CutsIdleCycle(d.defs)
  {
    if i < |run| then run[i] else Onward(d, i + 1 - |run|)
  }

  lemma ContinuedStep(run: seq<Circuit>, c: Circuit, d: Circuit, i: nat)
    requires IsRun(run, c, d) && Valid(d) && CutsIdleCycle(d.defs)
    ensures PassStep(Continued(run, d, i), Continued(run, d, i + 1))
  {
    if i + 1 < |run| {
      EvolvesAt(run, (c, d) => PassStep(c, d), i);
    } else {
      assert Onward(d, 0) == d;
      OnwardStep(d, i + 1 - |run|);
    }
  }

  /** From wherever such a truncation can be reached. */
  lemma CycleForever(c: Circuit, d: Circuit)
    requires Valid(c) && Reaches(c, d) && CutsIdleCycle(d.defs)
    ensures RunsForever(c)
  {
    var run :| IsRun(run, c, d);
    RunValid(run, c, d);
    var s := (i: nat) => if run != [] && Valid(d) && CutsIdleCycle(d.defs) then Continued(run, d, i) else d;
    forall i: nat ensures PassStep(s(i), s(i + 1)) {
      ContinuedStep(run, c, d, i);
    }
    assert s(0) == c && Infinite(s);
  }

  // ----- it ends -----

  lemma {:induction false} Prefix(s: nat -> Circuit, j: nat)
    requires Infinite(s)
    ensures IsRun(seq(j + 1, i requires 0 <= i => s(i)), s(0), s(j))
  {
    if j > 0 {
      Prefix(s, j - 1);
      assert seq(j + 1, i requires 0 <= i => s(i))[..j] == seq(j, i requires 0 <= i => s(i));
    }
  }

  lemma ForeverMeetsCycle(c: Circuit)
    requires RunsForever(c)
    ensures exists d :: Reaches(c, d) && CutsIdleCycle(d.defs)
  {
    var s: nat -> Circuit :| s(0) == c && Infinite(s);
    forall j: nat ensures Step(s(j), s(j + 1)) {
      PassStepShrinks(s(j), s(j + 1));
    }
    EndlessMeetsCycle(s, 0);
    var j: nat :| CutsIdleCycle(s(j).defs);
    Prefix(s, j);
    assert Reaches(c, s(j));
  }

  /** A circuit can be rewritten forever exactly if a circuit can be reached from it in which a truncation reads a cycle of
      extensions that do not extend. */
  lemma ForeverExactly(c: Circuit)
    requires Valid(c)
    ensures RunsForever(c) <==> exists d :: Reaches(c, d) && CutsIdleCycle(d.defs)
  {
    if RunsForever(c) {
      ForeverMeetsCycle(c);
    }
    if d :| Reaches(c, d) && CutsIdleCycle(d.defs) {
      CycleForever(c, d);
    }
  }

  lemma ReachedHasNoCycle(run: seq<Circuit>, c: Circuit, d: Circuit)
    requires IsRun(run, c, d) && !HasIdleCycle(c.defs)
    ensures !HasIdleCycle(d.defs)
  {
    var step := (c, d) => PassStep(c, d);
    forall x: Circuit, y: Circuit | !HasIdleCycle(x.defs) && step(x, y) ensures !HasIdleCycle(y.defs) {
      PassStepShrinks(x, y);
      NoNewCycle(x, y);
    }
    RunInvariant(run, step, (x: Circuit) => !HasIdleCycle(x.defs));
  }

  /** Without a cycle of extensions that do not extend, every sequence of pattern applications ends. */
  lemma PassEnds(c: Circuit)
    requires !HasIdleCycle(c.defs)
    ensures !RunsForever(c)
  {
    if RunsForever(c) {
      ForeverMeetsCycle(c);
      var d :| Reaches(c, d) && CutsIdleCycle(d.defs);
      var run :| IsRun(run, c, d);
      ReachedHasNoCycle(run, c, d);
      CutCycleIsCycle(d.defs);
    }
  }

  // ----- tokens on such a cycle -----

  /** No token can be on one of them. */
  lemma {:induction false} NoHistory(defs: seq<Def>, s: set<nat>, x: nat, e: Expr)
    requires ClosedUnder(defs, s) && x in s
    ensures !Unrolls(defs, x, e)
    decreases e
  {
    if Unrolls(defs, x, e) {
      assert IdleAt(defs, x) && Extended(defs, x) in s;
      var f := defs[x].e;
      assert SameOp(f, e) && Child(f, 0) == f.arg && Child(e, 0) == e.arg;
      NoHistory(defs, s, f.arg.id, e.arg);
    }
  }

  /** Every extension that does not extend may carry a token. */
  ghost predicate Live(defs: seq<Def>) {
    forall x: nat | IdleAt(defs, x) :: exists e :: Unrolls(defs, x, e)
  }

  lemma LivePassEnds(c: Circuit)
    requires Live(c.defs)
    ensures !RunsForever(c)
  {
    if s: set<nat> :| s != {} && ClosedUnder(c.defs, s) {
      var x :| x in s;
      var e :| Unrolls(c.defs, x, e);
      NoHistory(c.defs, s, x, e);
    }
    PassEnds(c);
  }

  // ----- an instance -----

  /** An extension of itself to its own width, and a truncation of it. */
  function SelfExtension(): Circuit {
    Circuit([Node(Ext(ZEXT, 2, Var(0, 2))), Node(Trunc(1, Var(0, 2)))], {1})
  }

  lemma SelfExtensionForever()
    ensures Valid(SelfExtension()) && RunsForever(SelfExtension())
  {
    var c := SelfExtension();
    assert Child(c.defs[0].e, 0) == Var(0, 2) && Child(c.defs[1].e, 0) == Var(0, 2);
    assert GoodDef(c.defs, c.defs[0]) && GoodDef(c.defs, c.defs[1]);
    assert IsCut(c.defs, 1) && ClosedUnder(c.defs, {0});
    assert IsRun([c], c, c);
    CycleForever(c, c);
  }
}
