/** Any sequence of applications of the bitwidth patterns keeps what a circuit hands out. */
module CircuitOptimizer {
  import opened Basics
  import opened Words
  import opened Transfer
  import opened DataForward
  import opened Expressions
  import opened RewriteSound
  import opened PatternCosts
  import opened Circuits
  import opened CircuitSteps
  import opened CircuitShrinks
  import opened CircuitMeaning
  import opened CircuitKeeps
  import opened CircuitForwarders
  import opened CircuitTranslation
  import opened CircuitPass
  import opened CircuitCycles
  import opened CircuitMatches
  import opened CircuitConverse
  import opened CircuitTokens

  /** One pattern application, with the width that the pattern finds. */
  ghost predicate PassStep(c: Circuit, d: Circuit) {
    && Valid(c)
    && (|| (exists v :: IsNode(c.defs, v) && ForwardNode(c, v) == Some(d))
        || (exists v :: IsNode(c.defs, v) && BackwardNode(c, v) == Some(d))
        || (exists op :: IsForwarder(c.defs, op) && ForwardForwarder(c, op) == Some(d))
        || (exists op :: IsForwarder(c.defs, op) && BackwardForwarder(c, op) == Some(d))
        || exists op: nat, t: ExtWidth :: IsCycleShape(c, op, t) && d == NarrowForwarder(c, op, t))
  }

  lemma PassStepShrinks(c: Circuit, d: Circuit)
    requires PassStep(c, d)
    ensures Step(c, d)
  {
    if op :| IsForwarder(c.defs, op) && ForwardForwarder(c, op) == Some(d) {
      ForwardNarrows(c, op);
    } else if op :| IsForwarder(c.defs, op) && BackwardForwarder(c, op) == Some(d) {
      BackwardNarrows(c, op);
    }
  }

  lemma ForwardNarrows(c: Circuit, op: nat)
    requires Valid(c) && IsForwarder(c.defs, op) && ForwardForwarder(c, op).Some?
    ensures exists t: ExtWidth :: Narrows(c, op, t) && ForwardForwarder(c, op).value == NarrowForwarder(c, op, t)
  {
    ForwardSurvives(c, op);
    assert Narrows(c, op, ForwardShape(DataShapes(c.defs, ForwarderDef(c.defs, op).data)));
  }

  lemma BackwardNarrows(c: Circuit, op: nat)
    requires Valid(c) && IsForwarder(c.defs, op) && BackwardForwarder(c, op).Some?
    ensures exists t: ExtWidth :: Narrows(c, op, t) && BackwardForwarder(c, op).value == NarrowForwarder(c, op, t)
  {
    ResultsUseful(c, op);
    assert Narrows(c, op, ExtWidth(ZEXT, UsefulOf(c, Results(c.defs, op, |c.defs|))));
  }

  lemma PassStepSound(c: Circuit, d: Circuit) returns (s: Rewriting, n: Narrowing)
    requires PassStep(c, d)
    ensures KeepsOutputs(c, s, n, d)
  {
    if v :| IsNode(c.defs, v) && ForwardNode(c, v) == Some(d) {
      s, n := ForwardNodeSound(c, v);
    } else if v :| IsNode(c.defs, v) && BackwardNode(c, v) == Some(d) {
      s, n := BackwardNodeSound(c, v);
    } else if op :| IsForwarder(c.defs, op) && ForwardForwarder(c, op) == Some(d) {
      s, n := ForwardForwarderSound(c, op);
    } else if op :| IsForwarder(c.defs, op) && BackwardForwarder(c, op) == Some(d) {
      s, n := BackwardForwarderSound(c, op);
    } else {
      var op: nat, t: ExtWidth :| IsCycleShape(c, op, t) && d == NarrowForwarder(c, op, t);
      s, n := CycleSound(c, op, t);
    }
  }

  lemma PassStepValid(c: Circuit, d: Circuit)
    requires PassStep(c, d)
    ensures Valid(d) && d.outputs == c.outputs
  {
    var s, n := PassStepSound(c, d);
    ResultValid(c, s, n);
  }

  // ----- what is handed out -----

  /** A history of `v` that yields what `e` yields, whatever the sources deliver. */
  ghost predicate Answers(c: Circuit, v: nat, e: Expr, f: Expr) {
    Unrolls(c.defs, v, f) && WellTyped(e) && SameMeaning(e, f)
  }

  ghost predicate AllAnswered(c: Circuit, d: Circuit) {
    forall v, e | v in c.outputs && Unrolls(c.defs, v, e) :: exists f :: Answers(d, v, e, f)
  }

  /** The same tokens can be handed out, before and after. */
  ghost predicate SameTokens(c: Circuit, d: Circuit, env: Env) {
    forall v, x: nat | v in c.outputs :: MayYield(c.defs, v, env, x) <==> MayYield(d.defs, v, env, x)
  }

  /** Nothing is lost: every history of what is handed out has a counterpart. And nothing is added: wherever shifts yield
      something, exactly the same tokens can be handed out. */
  ghost predicate KeepsAll(c: Circuit, d: Circuit) {
    && Valid(d) && d.outputs == c.outputs && AllAnswered(c, d)
    && forall env: Env | ShiftsCarry(c.defs, env) :: ShiftsCarry(d.defs, env) && SameTokens(c, d, env)
  }

  lemma KeepsItself(c: Circuit)
    requires Valid(c)
    ensures KeepsAll(c, c)
  {
    forall v, e | v in c.outputs && Unrolls(c.defs, v, e) ensures exists f :: Answers(c, v, e, f) {
      UnrollTyped(c.defs, v, e);
      assert Answers(c, v, e, e);
    }
  }

  lemma AnswersFurther(c: Circuit, v: nat, e: Expr, g: Expr, f: Expr)
    requires WellTyped(e) && SameMeaning(e, g) && Answers(c, v, g, f)
    ensures Answers(c, v, e, f)
  {
    SameMeaningTransitive(e, g, f);
  }

  lemma AnsweredTransitive(c: Circuit, d: Circuit, e: Circuit)
    requires AllAnswered(c, d) && AllAnswered(d, e) && d.outputs == c.outputs
    ensures AllAnswered(c, e)
  {
    forall v, x | v in c.outputs && Unrolls(c.defs, v, x) ensures exists f :: Answers(e, v, x, f) {
      var g :| Answers(d, v, x, g);
      var f :| Answers(e, v, g, f);
      AnswersFurther(e, v, x, g, f);
    }
  }

  lemma KeepsTransitive(c: Circuit, d: Circuit, e: Circuit)
    requires KeepsAll(c, d) && KeepsAll(d, e)
    ensures KeepsAll(c, e)
  {
    AnsweredTransitive(c, d, e);
    forall env: Env | ShiftsCarry(c.defs, env) ensures ShiftsCarry(e.defs, env) && SameTokens(c, e, env) {
      assert ShiftsCarry(d.defs, env) && SameTokens(c, d, env) && SameTokens(d, e, env);
    }
  }

  lemma PassStepAnswers(c: Circuit, d: Circuit)
    requires PassStep(c, d)
    ensures AllAnswered(c, d)
  {
    var s, n := PassStepSound(c, d);
    forall v, e | v in c.outputs && Unrolls(c.defs, v, e) ensures exists f :: Answers(d, v, e, f) {
      var f := Translate(c, s, n, v, e);
      assert Answers(d, v, e, f);
    }
  }

  lemma PassStepTokens(c: Circuit, d: Circuit, env: Env)
    requires PassStep(c, d) && ShiftsCarry(c.defs, env)
    ensures ShiftsCarry(d.defs, env) && SameTokens(c, d, env)
  {
    var s, n := PassStepSound(c, d);
    ShiftsStillCarry(c, s, n, env);
    forall v, x: nat | v in c.outputs ensures MayYield(c.defs, v, env, x) <==> MayYield(d.defs, v, env, x) {
      assert ShiftWaits(c, s, n, env);
      YieldsSame(c, s, n, v, env, x);
    }
  }

  /** One pattern application of either pass. */
  lemma PassStepKeeps(c: Circuit, d: Circuit)
    requires PassStep(c, d)
    ensures KeepsAll(c, d)
  {
    PassStepValid(c, d);
    PassStepAnswers(c, d);
    forall env: Env | ShiftsCarry(c.defs, env) ensures ShiftsCarry(d.defs, env) && SameTokens(c, d, env) {
      PassStepTokens(c, d, env);
    }
  }

  /** Any sequence of pattern applications, of both passes, cycles included. */
  lemma PassKeepsOutputs(run: seq<Circuit>)
    requires Evolves(run, (c, d) => PassStep(c, d)) && Valid(run[0])
    ensures KeepsAll(run[0], run[|run| - 1])
  {
    var step := (c, d) => PassStep(c, d);
    KeepsItself(run[0]);
    forall d: Circuit, next: Circuit | KeepsAll(run[0], d) && step(d, next) ensures KeepsAll(run[0], next) {
      PassStepKeeps(d, next);
      KeepsTransitive(run[0], d, next);
    }
    RunInvariant(run, step, (d: Circuit) => KeepsAll(run[0], d));
  }
}
