/** Circuits in which nothing is handed on and each source delivers one token: there the pass keeps the meaning exactly. */
module CircuitStraight {
  import opened Basics
  import opened Expressions
  import opened PatternCosts
  import opened Circuits
  import opened CircuitSteps
  import opened CircuitShrinks
  import opened CircuitMeaning
  import opened CircuitKeeps
  import opened CircuitForwarders
  import opened CircuitTranslation
  import opened CircuitMatches
  import opened CircuitOptimizer

  ghost predicate Straight(defs: seq<Def>) {
    forall v | 0 <= v < |defs| :: !defs[v].Choice? && (defs[v].Source? ==> defs[v].stride == 0)
  }

  /** A value has one history at most. */
  lemma {:induction false} OneHistory(defs: seq<Def>, v: nat, e: Expr, f: Expr)
    requires Straight(defs) && Unrolls(defs, v, e) && Unrolls(defs, v, f)
    ensures e == f
    decreases e
  {
    if defs[v].Node? {
      var d := defs[v].e;
      SameOpShared(d, e, f);
      SameArity(e, f);
      forall i: nat | i < Arity(e) ensures Child(e, i) == Child(f, i) {
        OneHistory(defs, Child(d, i).id, Child(e, i), Child(f, i));
      }
      SameParts(e, f);
    } else {
      var k: nat, l: nat :| e.id == TokenNumber(defs[v].first, defs[v].stride, k) && f.id == TokenNumber(defs[v].first, defs[v].stride, l);
    }
  }

  lemma StepStraight(c: Circuit, d: Circuit)
    requires PassStep(c, d) && Straight(c.defs)
    ensures Straight(d.defs)
  {
    var s, n := PassStepSound(c, d);
    if s.Operation? {
      RewrittenIs(c, s.v, s.behind, s.r, n);
    }
  }

  /** After any sequence of pattern applications, the only history of what is handed out has the value that the only one had
      before, whatever the sources deliver. */
  lemma StraightExactly(run: seq<Circuit>, v: nat, e: Expr, f: Expr)
    requires Evolves(run, (c, d) => PassStep(c, d)) && Valid(run[0]) && Straight(run[0].defs)
    requires v in run[0].outputs && Unrolls(run[0].defs, v, e) && Unrolls(run[|run| - 1].defs, v, f)
    ensures WellTyped(e) && SameMeaning(e, f)
  {
    var step, last := (c, d) => PassStep(c, d), run[|run| - 1];
    forall c: Circuit, d: Circuit | Straight(c.defs) && step(c, d) ensures Straight(d.defs) {
      StepStraight(c, d);
    }
    RunInvariant(run, step, (c: Circuit) => Straight(c.defs));
    PassKeepsOutputs(run);
    var g :| Answers(last, v, e, g);
    OneHistory(last.defs, v, g, f);
  }
}
