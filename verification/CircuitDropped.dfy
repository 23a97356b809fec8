/** A shift that no longer waits for its operand: where the shift never yields anything, a token is added. */
module CircuitDropped {
  import opened Basics
  import opened Words
  import opened Transfer
  import opened Expressions
  import opened RewriteSound
  import opened PatternCosts
  import opened Circuits
  import opened CircuitSteps
  import opened CircuitMeaning
  import opened CircuitMatches
  import opened CircuitConverse
  import opened CircuitTokens
  import opened CircuitOptimizer

  /** Four bits that a conditional branch hands on are extended to eight and shifted by five. */
  ghost predicate IsSteeredShift(c: Circuit) {
    && |c.defs| == 6 && c.outputs == {5}
    && c.defs[0] == Source(1, 0, 2) && c.defs[1] == Source(4, 1, 2) && c.defs[2] == Choice(4, [1], 2, Branch(0))
    && c.defs[3] == Node(Ext(ZEXT, 8, Var(2, 4))) && c.defs[4] == Node(Const(8, 5)) && c.defs[5] == Node(Shr(false, Var(3, 8), Var(4, 8)))
  }

  function SteeredShift(): Circuit {
    Circuit(
      [Source(1, 0, 2), Source(4, 1, 2), Choice(4, [1], 2, Branch(0)), Node(Ext(ZEXT, 8, Var(2, 4))), Node(Const(8, 5)),
       Node(Shr(false, Var(3, 8), Var(4, 8)))],
      {5})
  }

  lemma SteeredShiftIs()
    ensures IsSteeredShift(SteeredShift())
  {
  }

  lemma EightBits()
    ensures Pow2(8) == 256 && Pow2(4) == 16
  {
  }

  lemma ShiftValid(c: Circuit)
    requires IsSteeredShift(c)
    ensures Valid(c)
  {
    EightBits();
    var defs := c.defs;
    assert Child(defs[3].e, 0) == Var(2, 4) && Child(defs[5].e, 0) == Var(3, 8) && Child(defs[5].e, 1) == Var(4, 8);
    forall v | 0 <= v < |defs| ensures GoodDef(defs, defs[v]) {
      assert v == 0 || v == 1 || v == 2 || v == 3 || v == 4 || v == 5;
    }
  }

  /** The circuit after the forward pattern on the shift. */
  function Shifted(c: Circuit): Circuit
    requires |c.defs| == 6
  {
    c.(defs := c.defs[5 := Node(Const(8, 0))])
  }

  lemma ShiftStep(c: Circuit)
    requires IsSteeredShift(c) && Valid(c)
    ensures PassStep(c, Shifted(c))
  {
    EightBits();
    var view := View(c.defs, 5, false);
    ViewTyped(c.defs, 5, false);
    assert view == Shr(false, Ext(ZEXT, 8, Var(0, 4)), Const(8, 5));
    assert ForwardPattern(view) == Some(Const(8, 0));
    assert PutChildren(c.defs, Const(8, 0)) == (c.defs, Const(8, 0));
    assert ForwardNode(c, 5) == Some(Shifted(c)) && IsNode(c.defs, 5);
  }

  /** Nothing is steered to a branch's first result where all its control tokens are zero. */
  lemma NothingSteered(defs: seq<Def>, v: nat, env: Env, e: Expr)
    requires v < |defs| && defs[v].Choice? && defs[v].kind.Branch? && Earlier(defs, defs[v].op, v) == 0
    requires defs[v].kind.control < |defs| && defs[defs[v].kind.control].Source? && forall i :: env(i) == 0
    ensures !IsToken(defs, v, env, e)
  {
    if Unrolls(defs, v, e) {
      var j := HandedOn(defs, v, e);
      assert e.port == 1 && e.control.Var?;
      WrapSmall(0, e.control.width);
    }
  }

  lemma NothingShifted(c: Circuit, env: Env)
    requires IsSteeredShift(c) && forall i :: env(i) == 0
    ensures !Carries(c.defs, 5, env)
  {
    if e :| IsToken(c.defs, 5, env, e) {
      assert Child(c.defs[5].e, 0) == Var(3, 8) && Child(e, 0) == e.lhs && Unrolls(c.defs, 3, e.lhs);
      assert Child(c.defs[3].e, 0) == Var(2, 4) && Child(e.lhs, 0) == e.lhs.arg && Unrolls(c.defs, 2, e.lhs.arg);
      ChildDefined(e, 0, env);
      ChildDefined(e.lhs, 0, env);
      assert Earlier(c.defs, 2, 2) == Earlier(c.defs, 2, 1) == Earlier(c.defs, 2, 0) == 0;
      NothingSteered(c.defs, 2, env, e.lhs.arg);
    }
  }

  lemma YieldingCarries(defs: seq<Def>, v: nat, env: Env, x: nat)
    ensures MayYield(defs, v, env, x) ==> Carries(defs, v, env)
  {
  }

  /** The shift of a token that never comes is replaced by a constant. */
  lemma OperandDropped(c: Circuit, env: Env)
    requires c == SteeredShift() && forall i :: env(i) == 0
    ensures |c.defs| == 6 && PassStep(c, Shifted(c)) && !ShiftsCarry(c.defs, env) && !SameTokens(c, Shifted(c), env)
  {
    SteeredShiftIs();
    ShiftValid(c);
    ShiftStep(c);
    NothingShifted(c, env);
    assert IsShift(c.defs[5]);
    EightBits();
    var d := Shifted(c);
    assert Unrolls(d.defs, 5, Const(8, 0)) && IsToken(d.defs, 5, env, Const(8, 0));
    assert MayYield(d.defs, 5, env, 0);
    YieldingCarries(c.defs, 5, env, 0);
  }

  // ----- what keeping everything excludes -----

  /** Data of eight bits, handed on under a control of one. */
  ghost predicate IsSteering(c: Circuit, kind: ForwardKind) {
    && |c.defs| == 3 && c.outputs == {2}
    && c.defs[0] == Source(8, 0, 1) && c.defs[1] == Source(1, 100, 1) && c.defs[2] == Choice(8, [0], 2, kind)
  }

  lemma SingleYields(d: Circuit, env: Env)
    requires IsSteering(d, Single)
    ensures Carries(d.defs, 2, env)
  {
    var f := Forward(Var(TokenNumber(0, 1, 0), 8));
    SourceHistory(d.defs, 0, 0);
    HandsItOn(d.defs, 2, f, 0);
    assert IsToken(d.defs, 2, env, f);
  }

  lemma BranchYieldsNothing(c: Circuit, env: Env)
    requires IsSteering(c, Branch(1)) && forall i :: env(i) == 0
    ensures !Carries(c.defs, 2, env) && ShiftsCarry(c.defs, env)
  {
    assert Earlier(c.defs, 2, 2) == Earlier(c.defs, 2, 1) == Earlier(c.defs, 2, 0) == 0;
    forall e ensures !IsToken(c.defs, 2, env, e) {
      NothingSteered(c.defs, 2, env, e);
    }
    assert forall v: nat | v < 3 :: !IsShift(c.defs[v]);
  }

  /** A conditional branch must not become an unconditional one. */
  lemma BranchIsNotSingle(c: Circuit, d: Circuit)
    requires IsSteering(c, Branch(1)) && IsSteering(d, Single)
    ensures !KeepsAll(c, d)
  {
    var env: Env := i => 0;
    SingleYields(d, env);
    BranchYieldsNothing(c, env);
    var f :| IsToken(d.defs, 2, env, f);
    assert MayYield(d.defs, 2, env, Eval(f, env));
    YieldingCarries(c.defs, 2, env, Eval(f, env));
    assert !SameTokens(c, d, env);
  }
}
