/** A rewrite neither adds nor loses tokens. */
module CircuitTokens {
  import opened Basics
  import opened Words
  import opened Transfer
  import opened Scalar
  import opened DataForward
  import opened Expressions
  import opened RewriteSound
  import opened PatternCosts
  import opened Circuits
  import opened CircuitSteps
  import opened CircuitShrinks
  import opened CircuitMeaning
  import opened CircuitKeeps
  import opened CircuitForwarders
  import opened CircuitTranslation
  import opened CircuitMatches
  import opened CircuitLinear
  import opened CircuitConverse

  // ----- tokens carry over -----

  lemma KeptAt(n: Narrowing, v: nat, e: Expr, f: Expr, env: Env)
    requires WellTyped(e) && Defined(e, env) && Kept(n, v, e, f)
    ensures WellTyped(f) && Defined(f, env) && SameToken(n, v, Eval(e, env), Eval(f, env))
  {
    if v in n.values && !n.exact {
      assert ReplacesLow(e, f, n.k, env);
    } else {
      assert Replaces(e, f, env);
    }
  }

  lemma StillCarries(c: Circuit, s: Rewriting, n: Narrowing, v: nat, env: Env)
    requires IsSound(c, s, n) && Carries(c.defs, v, env)
    ensures Carries(Result(c, s, n).defs, v, env)
  {
    var e :| IsToken(c.defs, v, env, e);
    var f := Translate(c, s, n, v, e);
    KeptAt(n, v, e, f, env);
    assert IsToken(Result(c, s, n).defs, v, env, f);
  }

  // ----- shifts after a rewrite -----

  lemma {:induction false} PutAllNoShift(defs: seq<Def>, data: seq<nat>, w: nat, u: nat)
    requires AllGood(defs) && (forall i | 0 <= i < |data| :: data[i] < |defs|) && |defs| <= u < |PutAll(defs, data, w).0|
    ensures !IsShift(PutAll(defs, data, w).0[u])
    decreases |data|
  {
    if data != [] {
      var last := |data| - 1;
      var more := PutAll(defs, data[..last], w).0;
      OperandPositioned(defs, data[last], 0);
      SimpleVars(OperandView(defs, data[last], 0), w);
      PutGrows(more, Resized(defs, data[last], w));
      if u < |more| {
        PutAllNoShift(defs, data[..last], w, u);
      } else {
        PutNoShift(more, Modify(GetMinimalValue(OperandView(defs, data[last], 0)), w), DataLeaf(defs, data[last]), u);
      }
    }
  }

  lemma ForwardingNoShift(c: Circuit, op: nat, t: ExtWidth, u: nat)
    requires Valid(c) && Narrows(c, op, t) && u < |NarrowForwarder(c, op, t).defs| && IsShift(NarrowForwarder(c, op, t).defs[u])
    ensures u < |c.defs| && NarrowForwarder(c, op, t).defs[u] == c.defs[u]
  {
    var d, rs, more, narrow := NarrowForwarderIs(c, op, t);
    assert forall i | 0 <= i < |rs| :: !IsShift(NarrowForwarder(c, op, t).defs[rs[i]]);
    if |c.defs| <= u < |more| {
      assert GoodDef(c.defs, d);
      PutAllNoShift(c.defs, d.data, t.bitWidth, u);
    }
  }

  lemma PlacedNoShift(c: Circuit, s: Rewriting, n: Narrowing, u: nat)
    requires IsReversible(c, s, n) && s.Operation? && !c.defs[s.v].e.Shr? && u < |Result(c, s, n).defs| && IsShift(Result(c, s, n).defs[u])
    ensures u < |c.defs| && u != s.v && Result(c, s, n).defs[u] == c.defs[u]
  {
    var leaf := LeafOf(c.defs, s.v);
    RewrittenIs(c, s.v, s.behind, s.r, n);
    FlatNoShift(c.defs, s.r, leaf);
    var (more, flat) := PutChildren(c.defs, Rename(s.r, leaf));
    if u >= |c.defs| {
      PutChildrenNoShift(c.defs, s.r, leaf, u);
    }
  }

  /** All that is placed for a rewritten shift carries tokens if the shift does. */
  lemma PlacedCarry(c: Circuit, s: Rewriting, n: Narrowing, u: nat, env: Env)
    requires IsReversible(c, s, n) && s.Operation? && Carries(c.defs, s.v, env) && u < |Result(c, s, n).defs|
    requires u >= |c.defs| || u == s.v
    ensures Carries(Result(c, s, n).defs, u, env)
  {
    StillCarries(c, s, n, s.v, env);
    var leaf, all := LeafOf(c.defs, s.v), Result(c, s, n).defs;
    RewrittenIs(c, s.v, s.behind, s.r, n);
    if u != s.v {
      var f :| IsToken(all, s.v, env, f);
      PutChildrenCarry(c.defs, s.r, leaf, f, all, env);
    }
  }

  lemma ShiftsStillCarry(c: Circuit, s: Rewriting, n: Narrowing, env: Env)
    requires IsReversible(c, s, n) && ShiftsCarry(c.defs, env)
    ensures ShiftsCarry(Result(c, s, n).defs, env)
  {
    var all := Result(c, s, n).defs;
    forall u: nat | u < |all| && IsShift(all[u]) ensures Carries(all, u, env) {
      if u < |c.defs| && all[u] == c.defs[u] {
        StillCarries(c, s, n, u, env);
      } else if s.Forwarding? {
        ForwardingNoShift(c, s.op, s.t, u);
      } else if c.defs[s.v].e.Shr? {
        if u < |c.defs| && u != s.v {
          StaysSame(c, s, n, u);
        }
        assert IsShift(c.defs[s.v]);
        PlacedCarry(c, s, n, u, env);
      } else {
        PlacedNoShift(c, s, n, u);
      }
    }
  }

  // ----- both directions -----

  /** Some history of the value yields the token in the environment. */
  ghost predicate MayYield(defs: seq<Def>, v: nat, env: Env, x: nat) {
    exists e :: IsToken(defs, v, env, e) && Eval(e, env) == x
  }

  /** A rewrite lets some value carry tokens that carried none exactly if that is the shift it rewrites. */
  lemma StartsExactly(c: Circuit, s: Rewriting, n: Narrowing, env: Env)
    requires IsReversible(c, s, n)
    ensures ShiftWaits(c, s, n, env) <==> forall v: nat | v < |c.defs| :: Carries(Result(c, s, n).defs, v, env) ==> Carries(c.defs, v, env)
  {
    if ShiftWaits(c, s, n, env) {
      forall v: nat | v < |c.defs| && Carries(Result(c, s, n).defs, v, env) ensures Carries(c.defs, v, env) {
        var f :| IsToken(Result(c, s, n).defs, v, env, f);
        var e := Recover(c, s, n, v, f, env);
      }
    }
  }

  /** A rewrite changes what a value may yield at most above the bits that are kept. */
  lemma YieldsSame(c: Circuit, s: Rewriting, n: Narrowing, v: nat, env: Env, x: nat)
    requires IsReversible(c, s, n) && ShiftWaits(c, s, n, env) && v < |c.defs| && (n.exact || v !in n.values)
    ensures MayYield(c.defs, v, env, x) <==> MayYield(Result(c, s, n).defs, v, env, x)
  {
    if MayYield(c.defs, v, env, x) {
      var e :| IsToken(c.defs, v, env, e) && Eval(e, env) == x;
      var f := Translate(c, s, n, v, e);
      KeptAt(n, v, e, f, env);
      assert IsToken(Result(c, s, n).defs, v, env, f);
    }
    if MayYield(Result(c, s, n).defs, v, env, x) {
      var f :| IsToken(Result(c, s, n).defs, v, env, f) && Eval(f, env) == x;
      var e := Recover(c, s, n, v, f, env);
    }
  }
}
