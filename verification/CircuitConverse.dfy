/** No rewrite adds a token: whatever a history yields after it, some history yielded before it. */
module CircuitConverse {
  import opened Basics
  import opened Words
  import opened Transfer
  import opened Scalar
  import opened DataForward
  import opened Expressions
  import opened RewriteSound
  import opened PatternCosts
  import opened Circuits
  import opened CircuitSteps
  import opened CircuitShrinks
  import opened CircuitMeaning
  import opened CircuitKeeps
  import opened CircuitForwarders
  import opened CircuitTranslation
  import opened CircuitMatches
  import opened CircuitLinear

  ghost predicate IsReversible(c: Circuit, s: Rewriting, n: Narrowing) {
    IsSound(c, s, n) && (s.Operation? ==> ReadsOnce(View(c.defs, s.v, s.behind), s.r))
  }

  /** Every shift yields some token. */
  ghost predicate ShiftsCarry(defs: seq<Def>, env: Env) {
    forall v: nat | v < |defs| && IsShift(defs[v]) :: Carries(defs, v, env)
  }

  /** A shift by a constant may be rewritten so that it no longer waits for an operand. It does not carry tokens thereby where it
      carried none. */
  ghost predicate ShiftWaits(c: Circuit, s: Rewriting, n: Narrowing, env: Env)
    requires IsSound(c, s, n)
  {
    s.Operation? && IsShift(c.defs[s.v]) && Carries(Result(c, s, n).defs, s.v, env) ==> Carries(c.defs, s.v, env)
  }

  ghost predicate SameToken(n: Narrowing, v: nat, x: nat, y: nat) {
    if v in n.values && !n.exact then Wrap(x, n.k) == Wrap(y, n.k) else x == y
  }

  /** A history before the rewrite that yields what `f` does. */
  ghost predicate Recovers(c: Circuit, n: Narrowing, v: nat, e: Expr, f: Expr, env: Env)
    requires WellTyped(f)
  {
    IsToken(c.defs, v, env, e) && Width(e) == Width(f) && SameToken(n, v, Eval(e, env), Eval(f, env))
  }

  /** Values keep their widths. */
  lemma WidthOfToken(c: Circuit, s: Rewriting, n: Narrowing, v: nat, f: Expr)
    requires IsSound(c, s, n) && v < |c.defs| && Unrolls(Result(c, s, n).defs, v, f)
    ensures WellTyped(f) && Width(f) == c.defs[v].Width()
    ensures forall e | Unrolls(c.defs, v, e) :: WellTyped(e) && Width(e) == Width(f)
  {
    ResultValid(c, s, n);
    UnrollTyped(Result(c, s, n).defs, v, f);
    forall e | Unrolls(c.defs, v, e) ensures WellTyped(e) && Width(e) == c.defs[v].Width() {
      UnrollTyped(c.defs, v, e);
    }
  }

  lemma {:induction false} Recover(c: Circuit, s: Rewriting, n: Narrowing, v: nat, f: Expr, env: Env) returns (e: Expr)
    requires IsReversible(c, s, n) && ShiftWaits(c, s, n, env) && v < |c.defs| && IsToken(Result(c, s, n).defs, v, env, f)
    ensures Recovers(c, n, v, e, f, env)
    decreases f, 3
  {
    if c.defs[v].Source? {
      NotRewritten(c, s, n, v);
      StaysSame(c, s, n, v);
      e := f;
    } else if c.defs[v].Choice? {
      if v in n.values {
        e := RecoverResult(c, s, n, v, f, env);
      } else {
        e := RecoverChoice(c, s, n, v, f, env);
      }
    } else if v in n.values {
      e := RecoverRewritten(c, s, n, v, f, env);
    } else {
      e := RecoverNode(c, s, n, v, f, env);
    }
  }

  // ----- forwarding operations that stay -----

  lemma RoutedParts(f: Expr, env: Env)
    requires WellTyped(f) && IsRouted(f) && Defined(f, env)
    ensures WellTyped(f.arg) && Defined(f.arg, env) && (f.Steered? ==> WellTyped(f.control) && Defined(f.control, env) && Eval(f.control, env) == f.port)
  {
  }

  lemma HandOnToken(f: Expr, control: Expr, a: Expr, env: Env)
    requires WellTyped(f) && IsRouted(f) && Defined(f, env) && WellTyped(a) && Defined(a, env)
    requires f.Steered? ==> WellTyped(control) && Defined(control, env) && Eval(control, env) == Eval(f.control, env)
    ensures var e := HandOn(f, control, a); WellTyped(e) && Defined(e, env) && Eval(e, env) == Eval(a, env)
  {
  }

  lemma {:induction false} RecoverChoice(c: Circuit, s: Rewriting, n: Narrowing, v: nat, f: Expr, env: Env) returns (e: Expr)
    requires IsReversible(c, s, n) && ShiftWaits(c, s, n, env) && v < |c.defs| && IsToken(Result(c, s, n).defs, v, env, f)
    requires c.defs[v].Choice? && v !in n.values
    ensures Recovers(c, n, v, e, f, env)
    decreases f, 2
  {
    var all := Result(c, s, n).defs;
    PortStays(c, s, n, v);
    assert GoodDef(c.defs, c.defs[v]);
    var j := HandedOn(all, v, f);
    RoutedParts(f, env);
    var a := Recover(c, s, n, c.defs[v].data[j], f.arg, env);
    var control := f;
    if f.Steered? {
      control := Recover(c, s, n, c.defs[v].kind.control, f.control, env);
    }
    if !n.exact {
      DataNotNarrowed(c.defs, v, j, n);
    }
    ChoiceRecovered(c, n, v, f, j, control, a, env);
    e := HandOn(f, control, a);
    WidthOfToken(c, s, n, v, f);
  }

  /** The recovered operand, handed on like the token. */
  lemma ChoiceRecovered(c: Circuit, n: Narrowing, v: nat, f: Expr, j: nat, control: Expr, a: Expr, env: Env)
    requires v < |c.defs| && c.defs[v].Choice? && v !in n.values && HandsOn(c.defs, v, f, j)
    requires WellTyped(f) && IsRouted(f) && Defined(f, env)
    requires IsToken(c.defs, c.defs[v].data[j], env, a) && Eval(a, env) == Eval(f.arg, env)
    requires f.Steered? ==>
               !c.defs[v].kind.Single? && IsToken(c.defs, c.defs[v].kind.control, env, control) && Eval(control, env) == Eval(f.control, env)
    ensures IsToken(c.defs, v, env, HandOn(f, control, a)) && Eval(HandOn(f, control, a), env) == Eval(f, env)
  {
    HandOnToken(f, control, a, env);
    HandsItOn(c.defs, v, HandOn(f, control, a), j);
  }

  // ----- operations that stay -----

  lemma {:induction false} RecoverNode(c: Circuit, s: Rewriting, n: Narrowing, v: nat, f: Expr, env: Env) returns (e: Expr)
    requires IsReversible(c, s, n) && ShiftWaits(c, s, n, env) && v < |c.defs| && IsToken(Result(c, s, n).defs, v, env, f)
    requires c.defs[v].Node? && v !in n.values
    ensures Recovers(c, n, v, e, f, env)
    decreases f, 2
  {
    StaysSame(c, s, n, v);
    SoundAgrees(c, s, n);
    var g := RecoverOperands(c, s, n, v, f, env);
    WidthOfToken(c, s, n, v, f);
    NodeRecovered(c, n, v, f, g, env);
    e := Rebuild(f, g);
  }

  ghost predicate OperandRecovered(c: Circuit, n: Narrowing, v: nat, f: Expr, i: nat, g: Expr, env: Env)
    requires v < |c.defs| && c.defs[v].Node? && i < Arity(f) && i < Arity(c.defs[v].e)
  {
    && Child(c.defs[v].e, i).Var? && WellTyped(Child(f, i)) && Recovers(c, n, Child(c.defs[v].e, i).id, g, Child(f, i), env)
  }

  lemma {:induction false} RecoverOperands(c: Circuit, s: Rewriting, n: Narrowing, v: nat, f: Expr, env: Env) returns (g: nat -> Expr)
    requires IsReversible(c, s, n) && ShiftWaits(c, s, n, env) && v < |c.defs| && IsToken(Result(c, s, n).defs, v, env, f)
    requires c.defs[v].Node? && v !in n.values
    ensures SameOp(c.defs[v].e, f) && Arity(f) == Arity(c.defs[v].e)
    ensures forall i: nat | i < Arity(f) :: OperandRecovered(c, n, v, f, i, g(i), env)
    decreases f, 1
  {
    StaysSame(c, s, n, v);
    assert SameOp(c.defs[v].e, f) && Arity(f) <= 3;
    var x, y, z := f, f, f;
    if Arity(f) >= 1 { x := RecoverOperand(c, s, n, v, f, 0, env); }
    if Arity(f) >= 2 { y := RecoverOperand(c, s, n, v, f, 1, env); }
    if Arity(f) >= 3 { z := RecoverOperand(c, s, n, v, f, 2, env); }
    g := Three(x, y, z);
    forall i: nat | i < Arity(f) ensures OperandRecovered(c, n, v, f, i, g(i), env) {
      assert i == 0 || i == 1 || i == 2;
    }
  }

  lemma {:induction false} RecoverOperand(c: Circuit, s: Rewriting, n: Narrowing, v: nat, f: Expr, i: nat, env: Env) returns (g: Expr)
    requires IsReversible(c, s, n) && ShiftWaits(c, s, n, env) && v < |c.defs| && IsToken(Result(c, s, n).defs, v, env, f)
    requires c.defs[v].Node? && v !in n.values && i < Arity(f) && i < Arity(c.defs[v].e)
    ensures OperandRecovered(c, n, v, f, i, g, env)
    decreases f, 0
  {
    StaysSame(c, s, n, v);
    SoundAgrees(c, s, n);
    assert GoodDef(c.defs, c.defs[v]);
    ChildrenAreRefs(c.defs, c.defs[v].e);
    ChildDefined(f, i, env);
    g := Recover(c, s, n, Child(c.defs[v].e, i).id, Child(f, i), env);
  }

  /** The operation on recovered operands. */
  lemma NodeRecovered(c: Circuit, n: Narrowing, v: nat, f: Expr, g: nat -> Expr, env: Env)
    requires AllGood(c.defs) && UsersAgree(c.defs, n) && v < |c.defs| && c.defs[v].Node? && v !in n.values
    requires WellTyped(f) && Defined(f, env) && SameOp(c.defs[v].e, f) && Arity(f) == Arity(c.defs[v].e) && Width(f) == c.defs[v].Width()
    requires forall i: nat | i < Arity(f) :: OperandRecovered(c, n, v, f, i, g(i), env)
    ensures Recovers(c, n, v, Rebuild(f, g), f, env)
  {
    var d, e := c.defs[v].e, Rebuild(f, g);
    RebuildIs(f, g);
    assert GoodDef(c.defs, c.defs[v]);
    ChildrenAreRefs(c.defs, d);
    SameOpShared(d, f, d);
    RebuiltUnrolls(c.defs, v, f, g);
    UnrollTyped(c.defs, v, e);
    if n.exact || forall i: nat | i < Arity(d) && Child(d, i).Var? :: Child(d, i).id !in n.values {
      OperandsEqual(c, n, v, f, g, env);
    } else {
      assert UserAgrees(c.defs[v], n);
      assert d.Trunc? && f.Trunc? && Child(f, 0) == f.arg && Child(d, 0) == d.arg && Child(e, 0) == e.arg;
      assert OperandRecovered(c, n, v, f, 0, g(0), env);
      WrapWrap(Eval(e.arg, env), e.to, n.k);
      WrapWrap(Eval(f.arg, env), e.to, n.k);
    }
  }

  lemma RebuiltUnrolls(defs: seq<Def>, v: nat, f: Expr, g: nat -> Expr)
    requires v < |defs| && defs[v].Node? && SameOp(defs[v].e, f) && Arity(f) == Arity(defs[v].e)
    requires forall i: nat | i < Arity(f) :: Child(defs[v].e, i).Var? && Unrolls(defs, Child(defs[v].e, i).id, g(i))
    ensures Unrolls(defs, v, Rebuild(f, g))
  {
    RebuildIs(f, g);
  }

  lemma OperandsEqual(c: Circuit, n: Narrowing, v: nat, f: Expr, g: nat -> Expr, env: Env)
    requires AllGood(c.defs) && v < |c.defs| && c.defs[v].Node? && v !in n.values
    requires WellTyped(f) && Defined(f, env) && SameOp(c.defs[v].e, f) && Arity(f) == Arity(c.defs[v].e) && Width(f) == c.defs[v].Width()
    requires forall i: nat | i < Arity(f) :: OperandRecovered(c, n, v, f, i, g(i), env)
    requires n.exact || forall i: nat | i < Arity(f) && Child(c.defs[v].e, i).Var? :: Child(c.defs[v].e, i).id !in n.values
    requires WellTyped(Rebuild(f, g)) && Width(Rebuild(f, g)) == Width(f)
    ensures Defined(Rebuild(f, g), env) && Eval(Rebuild(f, g), env) == Eval(f, env)
  {
    var e := Rebuild(f, g);
    RebuildIs(f, g);
    forall i: nat | i < Arity(f)
      ensures WellTyped(Child(e, i)) && WellTyped(Child(f, i)) && Width(Child(e, i)) == Width(Child(f, i))
      ensures Eval(Child(e, i), env) == Eval(Child(f, i), env) && Defined(Child(e, i), env)
    {
      assert OperandRecovered(c, n, v, f, i, g(i), env);
    }
    SameOpEval(e, f, env, env);
  }

  // ----- a rewritten operation -----

  /** What the token was made from, taken back. */
  ghost predicate LeafRecovered(c: Circuit, s: Rewriting, f: Expr, i: nat, g: Expr, env: Env)
    requires s.Operation? && IsNode(c.defs, s.v)
  {
    Uses(s.r, i) ==>
      && IsToken(c.defs, Leaf(c.defs, s.v, i), env, g) && WellTyped(Grab(s.r, f, i)) && Width(g) == Width(Grab(s.r, f, i))
      && Eval(g, env) == Eval(Grab(s.r, f, i), env)
  }

  /** The token is what is placed for the rewritten operation, put together from what that reads. */
  lemma TokenMatches(c: Circuit, s: Rewriting, n: Narrowing, f: Expr)
    requires IsReversible(c, s, n) && s.Operation? && Unrolls(Result(c, s, n).defs, s.v, f)
    ensures Matches(s.r, f, Result(c, s, n).defs, LeafOf(c.defs, s.v)) && f == Subst(s.r, GrabAll(s.r, f))
  {
    var leaf, all := LeafOf(c.defs, s.v), Result(c, s, n).defs;
    RewrittenIs(c, s.v, s.behind, s.r, n);
    PutChildrenMatches(c.defs, s.r, leaf, f, all);
    MatchedIsSubst(s.r, f, all, leaf);
  }

  lemma {:induction false} RecoverLeaf(c: Circuit, s: Rewriting, n: Narrowing, f: Expr, i: nat, env: Env) returns (g: Expr)
    requires IsReversible(c, s, n) && ShiftWaits(c, s, n, env) && s.Operation? && IsToken(Result(c, s, n).defs, s.v, env, f)
    requires i < Arity(c.defs[s.v].e)
    ensures LeafRecovered(c, s, f, i, g, env)
    decreases f, 0
  {
    g := f;
    if Uses(s.r, i) {
      TokenMatches(c, s, n, f);
      GrabUnrolls(s.r, f, Result(c, s, n).defs, LeafOf(c.defs, s.v), i);
      GrabDefined(s.r, f, i, env);
      LeavesAre(c.defs, s.v);
      LeafIsValue(c.defs, s.v, i);
      if !n.exact {
        LeafNotNarrowed(c.defs, s.v, i, n);
      }
      g := Recover(c, s, n, Leaf(c.defs, s.v, i), Grab(s.r, f, i), env);
    }
  }

  lemma LeafIsValue(defs: seq<Def>, v: nat, i: nat)
    requires IsNode(defs, v) && i < Arity(defs[v].e)
    ensures Leaf(defs, v, i) < |defs|
  {
    assert GoodDef(defs, defs[v]);
    ChildrenAreRefs(defs, defs[v].e);
    OperandViewTyped(defs, Child(defs[v].e, i).id, i);
  }

  lemma {:induction false} RecoverLeaves(c: Circuit, s: Rewriting, n: Narrowing, f: Expr, env: Env) returns (g: nat -> Expr)
    requires IsReversible(c, s, n) && ShiftWaits(c, s, n, env) && s.Operation? && IsToken(Result(c, s, n).defs, s.v, env, f)
    ensures forall i: nat | i < Arity(c.defs[s.v].e) :: LeafRecovered(c, s, f, i, g(i), env)
    decreases f, 1
  {
    var d := c.defs[s.v].e;
    var x, y, z := f, f, f;
    if Arity(d) >= 1 { x := RecoverLeaf(c, s, n, f, 0, env); }
    if Arity(d) >= 2 { y := RecoverLeaf(c, s, n, f, 1, env); }
    if Arity(d) >= 3 { z := RecoverLeaf(c, s, n, f, 2, env); }
    g := Three(x, y, z);
    forall i: nat | i < Arity(d) ensures LeafRecovered(c, s, f, i, g(i), env) {
      assert i == 0 || i == 1 || i == 2;
    }
  }

  /** The history of an operand: of what the rewritten operation reads, or if it does not read it, of a constant or, for a shift,
      the one of the token that the shift carries. */
  function OperandOf(defs: seq<Def>, v: nat, r: Expr, g: nat -> Expr, carried: Expr, i: nat): Expr
    requires IsNode(defs, v)
  {
    var d := defs[v].e;
    if i >= Arity(d) || !Child(d, i).Var? || Child(d, i).id >= |defs| then d
    else
      var x := defs[Child(d, i).id];
      if Uses(r, i) then if SeenThrough(defs, v, i) then Ext(x.e.kind, x.e.to, g(i)) else g(i)
      else if d.Shr? then if i < Arity(carried) then Child(carried, i) else d
      else if x.Node? then x.e
      else d
  }

  function OperandsOf(defs: seq<Def>, v: nat, r: Expr, g: nat -> Expr, carried: Expr): nat -> Expr {
    (i: nat) => if IsNode(defs, v) then OperandOf(defs, v, r, g, carried, i) else carried
  }

  /** What is not read is a constant, unless the operation is a shift. */
  lemma UnreadIsConst(defs: seq<Def>, v: nat, behind: bool, i: nat)
    requires IsNode(defs, v) && !defs[v].e.Shr? && i < Arity(defs[v].e) && !Uses(View(defs, v, behind), i)
    ensures IsRef(defs, Child(defs[v].e, i)) && var x := defs[Child(defs[v].e, i).id]; x.Node? && x.e.Const?
  {
    var view := View(defs, v, behind);
    ViewChildIs(defs, v, behind, i);
    assert !Uses(Child(view, i), i);
    assert Child(view, i).Ext? ==> Uses(Child(Child(view, i), 0), i);
  }

  /** The operand's history is a token of the operand. */
  lemma OperandIsToken(c: Circuit, s: Rewriting, n: Narrowing, f: Expr, g: nat -> Expr, carried: Expr, i: nat, env: Env)
    requires IsReversible(c, s, n) && s.Operation? && i < Arity(c.defs[s.v].e) && LeafRecovered(c, s, f, i, g(i), env)
    requires c.defs[s.v].e.Shr? ==> IsToken(c.defs, s.v, env, carried)
    ensures Child(c.defs[s.v].e, i).Var?
    ensures IsToken(c.defs, Child(c.defs[s.v].e, i).id, env, OperandOf(c.defs, s.v, s.r, g, carried, i))
  {
    var defs, v := c.defs, s.v;
    var d := defs[v].e;
    assert GoodDef(defs, defs[v]);
    ChildrenAreRefs(defs, d);
    var x := Child(d, i).id;
    if Uses(s.r, i) {
      if SeenThrough(defs, v, i) {
        ExtensionToken(defs, x, g(i), env);
      }
    } else if d.Shr? {
      assert SameOp(d, carried);
      ChildDefined(carried, i, env);
    } else {
      UnreadIsConst(defs, v, s.behind, i);
      assert GoodDef(defs, defs[x]) && Unrolls(defs, x, defs[x].e);
    }
  }

  lemma ExtensionToken(defs: seq<Def>, x: nat, g: Expr, env: Env)
    requires AllGood(defs) && IsExtension(defs, x) && IsToken(defs, defs[x].e.arg.id, env, g)
    ensures IsToken(defs, x, env, Ext(defs[x].e.kind, defs[x].e.to, g))
  {
    var e := Ext(defs[x].e.kind, defs[x].e.to, g);
    assert Child(defs[x].e, 0) == defs[x].e.arg && Child(e, 0) == g;
    assert Unrolls(defs, x, e);
    UnrollTyped(defs, x, e);
  }

  /** The original operation on these operands. */
  function Original(defs: seq<Def>, v: nat, r: Expr, g: nat -> Expr, carried: Expr): Expr
    requires IsNode(defs, v)
  {
    Rebuild(defs[v].e, OperandsOf(defs, v, r, g, carried))
  }

  ghost predicate OperandsAreTokens(defs: seq<Def>, v: nat, h: nat -> Expr, env: Env)
    requires v < |defs| && defs[v].Node?
  {
    forall i: nat | i < Arity(defs[v].e) :: Child(defs[v].e, i).Var? && IsToken(defs, Child(defs[v].e, i).id, env, h(i))
  }

  lemma OriginalUnrolls(defs: seq<Def>, v: nat, h: nat -> Expr, env: Env)
    requires IsNode(defs, v) && OperandsAreTokens(defs, v, h, env)
    ensures Unrolls(defs, v, Rebuild(defs[v].e, h)) && WellTyped(Rebuild(defs[v].e, h))
    ensures Width(Rebuild(defs[v].e, h)) == defs[v].Width() && Arity(Rebuild(defs[v].e, h)) == Arity(defs[v].e)
    ensures forall i: nat | i < Arity(defs[v].e) :: Child(Rebuild(defs[v].e, h), i) == h(i)
  {
    assert GoodDef(defs, defs[v]);
    RebuildIs(defs[v].e, h);
    SameOpItself(defs[v].e);
    RebuiltUnrolls(defs, v, defs[v].e, h);
    UnrollTyped(defs, v, Rebuild(defs[v].e, h));
  }

  lemma SameOpItself(e: Expr)
    requires !e.Var?
    ensures SameOp(e, e)
  {
  }

  /** Only a shift by too much is not defined, and that does not depend on tokens. */
  lemma ViewDefined(defs: seq<Def>, v: nat, behind: bool, carried: Expr, env: Env, inner: Env)
    requires IsNode(defs, v) && WellTyped(View(defs, v, behind))
    requires defs[v].e.Shr? ==> View(defs, v, behind).amount.Const? && IsToken(defs, v, env, carried)
    ensures Defined(View(defs, v, behind), inner)
  {
    var view := View(defs, v, behind);
    ViewSimple(defs, v, behind);
    forall i: nat | i < Arity(view) ensures WellTyped(Child(view, i)) && Defined(Child(view, i), inner) {
      ChildrenTyped(view, i);
    }
    if defs[v].e.Shr? {
      assert Child(view, 0) == view.lhs && Child(view, 1) == view.amount;
      var other := EnvOf(SubsOf(defs, v, carried), Arity(carried), env);
      CarriedInner(defs, v, carried, env);
      ViewEval(defs, v, behind, carried, env, other);
    } else {
      SimpleDefined(view, inner);
    }
  }

  lemma SimpleDefined(view: Expr, inner: Env)
    requires WellTyped(view) && !view.Shr? && !IsRouted(view)
    requires forall i: nat | i < Arity(view) :: WellTyped(Child(view, i)) && Defined(Child(view, i), inner)
    ensures Defined(view, inner)
  {
    match view {
      case Var(_, _) =>
      case Const(_, _) =>
      case Ext(_, _, a) => assert Child(view, 0) == a;
      case Trunc(_, a) => assert Child(view, 0) == a;
      case Bin(_, l, r) => assert Child(view, 0) == l && Child(view, 1) == r;
      case Select(c, t, f) => assert Child(view, 0) == c && Child(view, 1) == t && Child(view, 2) == f;
      case Cmp(_, l, r) => assert Child(view, 0) == l && Child(view, 1) == r;
    }
  }

  /** The environment in which the view evaluates like a history. */
  lemma CarriedInner(defs: seq<Def>, v: nat, e: Expr, env: Env)
    requires IsNode(defs, v) && Unrolls(defs, v, e)
    ensures Arity(e) == Arity(defs[v].e) && Inner(defs, v, e, env, EnvOf(SubsOf(defs, v, e), Arity(e), env))
    ensures forall i: nat | i < Arity(e) :: WellTyped(SubOf(defs, v, e, i)) && Width(SubOf(defs, v, e, i)) == WidthOf(defs, v)(i)
  {
    assert SameOp(defs[v].e, e);
    forall i: nat | i < Arity(e) ensures WellTyped(SubOf(defs, v, e, i)) && Width(SubOf(defs, v, e, i)) == WidthOf(defs, v)(i) {
      SubUnrolls(defs, v, e, i);
      UnrollTyped(defs, Leaf(defs, v, i), SubOf(defs, v, e, i));
    }
  }

  /** What the original operation reads, seen from the rewritten one. */
  function ReadFrom(r: Expr, f: Expr, defs: seq<Def>, v: nat, e: Expr): nat -> Expr
    requires IsNode(defs, v)
  {
    (i: nat) => if Uses(r, i) then Grab(r, f, i) else SubsOf(defs, v, e)(i)
  }

  lemma SubIsLeaf(c: Circuit, s: Rewriting, g: nat -> Expr, carried: Expr, e: Expr, i: nat)
    requires s.Operation? && IsNode(c.defs, s.v) && i < Arity(c.defs[s.v].e) && Arity(e) == Arity(c.defs[s.v].e) && Uses(s.r, i)
    requires Child(c.defs[s.v].e, i).Var? && Child(c.defs[s.v].e, i).id < |c.defs|
    requires Child(e, i) == OperandOf(c.defs, s.v, s.r, g, carried, i)
    ensures SubOf(c.defs, s.v, e, i) == g(i)
  {
  }

  lemma ReadEvaluates(c: Circuit, s: Rewriting, n: Narrowing, f: Expr, g: nat -> Expr, carried: Expr, e: Expr, env: Env)
    requires IsReversible(c, s, n) && s.Operation? && Unrolls(c.defs, s.v, e) && Arity(e) == Arity(c.defs[s.v].e)
    requires forall i: nat | i < Arity(e) :: LeafRecovered(c, s, f, i, g(i), env)
    requires forall i: nat | i < Arity(e) :: Child(e, i) == OperandOf(c.defs, s.v, s.r, g, carried, i)
    ensures Evaluates(ReadFrom(s.r, f, c.defs, s.v, e), WidthOf(c.defs, s.v), env, EnvOf(SubsOf(c.defs, s.v, e), Arity(e), env))
  {
    var sub, w, inner := ReadFrom(s.r, f, c.defs, s.v, e), WidthOf(c.defs, s.v), EnvOf(SubsOf(c.defs, s.v, e), Arity(e), env);
    CarriedInner(c.defs, s.v, e, env);
    assert GoodDef(c.defs, c.defs[s.v]);
    ChildrenAreRefs(c.defs, c.defs[s.v].e);
    forall i: nat | w(i) >= 1 ensures WellTyped(sub(i)) && Width(sub(i)) == w(i) && inner(i) == Eval(sub(i), env) {
      assert i < Arity(e) && LeafRecovered(c, s, f, i, g(i), env);
      if Uses(s.r, i) {
        SubIsLeaf(c, s, g, carried, e, i);
      }
    }
  }

  /** The token yields what the rewritten expression does in the view's environment. */
  lemma TokenYields(c: Circuit, s: Rewriting, n: Narrowing, f: Expr, e: Expr, env: Env, inner: Env)
    requires IsReversible(c, s, n) && s.Operation? && IsToken(Result(c, s, n).defs, s.v, env, f)
    requires Evaluates(ReadFrom(s.r, f, c.defs, s.v, e), WidthOf(c.defs, s.v), env, inner)
    ensures Eval(f, env) == Eval(s.r, inner)
  {
    TokenMatches(c, s, n, f);
    var sub := ReadFrom(s.r, f, c.defs, s.v, e);
    SubstSame(s.r, sub, GrabAll(s.r, f));
    SubstEval(s.r, sub, WidthOf(c.defs, s.v), env, inner);
  }

  lemma ViewIsOp(defs: seq<Def>, v: nat, behind: bool, e: Expr)
    requires IsNode(defs, v) && Unrolls(defs, v, e)
    ensures SameOp(e, View(defs, v, behind)) && Arity(e) == Arity(View(defs, v, behind))
  {
    var view := View(defs, v, behind);
    assert GoodDef(defs, defs[v]);
    assert SameOp(defs[v].e, e) && SameOp(view, e);
    SameOpItself(view);
    SameOpShared(view, e, view);
  }

  /** The original operation on the operands found yields what its view does, and is defined. */
  lemma OriginalYields(c: Circuit, s: Rewriting, n: Narrowing, e: Expr, carried: Expr, env: Env, inner: Env)
    requires IsReversible(c, s, n) && s.Operation? && Unrolls(c.defs, s.v, e) && Inner(c.defs, s.v, e, env, inner)
    requires forall i: nat | i < Arity(e) :: WellTyped(Child(e, i)) && Defined(Child(e, i), env)
    requires c.defs[s.v].e.Shr? ==> IsToken(c.defs, s.v, env, carried)
    ensures var view := View(c.defs, s.v, s.behind);
      WellTyped(e) && Defined(e, env) && WellTyped(view) && Defined(view, inner) && Eval(view, inner) == Eval(e, env)
  {
    var view := View(c.defs, s.v, s.behind);
    ViewTyped(c.defs, s.v, s.behind);
    ViewDefined(c.defs, s.v, s.behind, carried, env, inner);
    ViewEval(c.defs, s.v, s.behind, e, env, inner);
    ViewIsOp(c.defs, s.v, s.behind, e);
    forall i: nat | i < Arity(view)
      ensures WellTyped(Child(e, i)) && WellTyped(Child(view, i)) && Width(Child(e, i)) == Width(Child(view, i))
      ensures Eval(Child(e, i), env) == Eval(Child(view, i), inner)
    {
      ViewChildEval(c.defs, s.v, s.behind, e, i, env, inner);
    }
    SameOpEval(e, view, env, inner);
  }

  lemma RewrittenRecovered(c: Circuit, s: Rewriting, n: Narrowing, f: Expr, g: nat -> Expr, carried: Expr, env: Env)
    requires IsReversible(c, s, n) && s.Operation? && IsToken(Result(c, s, n).defs, s.v, env, f)
    requires forall i: nat | i < Arity(c.defs[s.v].e) :: LeafRecovered(c, s, f, i, g(i), env)
    requires c.defs[s.v].e.Shr? ==> IsToken(c.defs, s.v, env, carried)
    ensures Recovers(c, n, s.v, Original(c.defs, s.v, s.r, g, carried), f, env)
  {
    var h, e := OperandsOf(c.defs, s.v, s.r, g, carried), Original(c.defs, s.v, s.r, g, carried);
    forall i: nat | i < Arity(c.defs[s.v].e)
      ensures Child(c.defs[s.v].e, i).Var? && IsToken(c.defs, Child(c.defs[s.v].e, i).id, env, h(i))
    {
      OperandIsToken(c, s, n, f, g, carried, i, env);
    }
    OriginalUnrolls(c.defs, s.v, h, env);
    var inner := EnvOf(SubsOf(c.defs, s.v, e), Arity(e), env);
    CarriedInner(c.defs, s.v, e, env);
    OriginalYields(c, s, n, e, carried, env, inner);
    ReadEvaluates(c, s, n, f, g, carried, e, env);
    TokenYields(c, s, n, f, e, env, inner);
    KeepsAt(View(c.defs, s.v, s.behind), s.r, n, inner);
    WidthOfToken(c, s, n, s.v, f);
  }

  lemma {:induction false} RecoverRewritten(c: Circuit, s: Rewriting, n: Narrowing, v: nat, f: Expr, env: Env) returns (e: Expr)
    requires IsReversible(c, s, n) && ShiftWaits(c, s, n, env) && v < |c.defs| && IsToken(Result(c, s, n).defs, v, env, f)
    requires c.defs[v].Node? && v in n.values
    ensures Recovers(c, n, v, e, f, env)
    decreases f, 2
  {
    assert s.Operation? && s.v == v;
    var g := RecoverLeaves(c, s, n, f, env);
    var carried := f;
    if IsShift(c.defs[v]) {
      assert Carries(Result(c, s, n).defs, v, env);
      carried :| IsToken(c.defs, v, env, carried);
    }
    RewrittenRecovered(c, s, n, f, g, carried, env);
    e := Original(c.defs, v, s.r, g, carried);
  }

  // ----- a narrowed forwarding operation -----

  function Cut(defs: seq<Def>, x: nat, w: nat): Expr
    requires AllGood(defs) && x < |defs|
  {
    OperandViewTyped(defs, x, 0);
    Modify(GetMinimalValue(OperandView(defs, x, 0)), w)
  }

  /** What has been placed for the `j`th operand. */
  lemma {:induction false} PutAllMatches(defs: seq<Def>, data: seq<nat>, w: nat, j: nat, g: Expr, all: seq<Def>)
    requires AllGood(defs) && w >= 1 && (forall i | 0 <= i < |data| :: data[i] < |defs|) && j < |data|
    requires KeepsNew(|defs|, PutAll(defs, data, w).0, all)
    requires |PutAll(defs, data, w).1| == |data| && Unrolls(all, PutAll(defs, data, w).1[j], g)
    ensures Matches(Cut(defs, data[j], w), g, all, DataLeaf(defs, data[j]))
    decreases |data|
  {
    var last := |data| - 1;
    PutAllStep(defs, data, w, all);
    OperandViewTyped(defs, data[j], 0);
    if j < last {
      PutAllMatches(defs, data[..last], w, j, g, all);
    } else {
      var more := PutAll(defs, data[..last], w).0;
      PutGrows(more, Resized(defs, data[last], w));
      PutMatches(more, Cut(defs, data[last], w), DataLeaf(defs, data[last]), g, all);
    }
  }

  lemma CutVars(defs: seq<Def>, x: nat, w: nat)
    requires AllGood(defs) && x < |defs|
    ensures Linear(Cut(defs, x, w)) && forall i: nat | Uses(Cut(defs, x, w), i) :: i == 0
    ensures !Uses(Cut(defs, x, w), 0) ==> defs[x].Node? && defs[x].e.Const? && OperandLeaf(defs, x) == x
  {
    OperandPositioned(defs, x, 0);
    var view := OperandView(defs, x, 0);
    SimpleVars(view, w);
    assert view.Ext? ==> Uses(Child(view, 0), 0);
  }

  /** The operand's history from that of what is behind it. */
  function DataOf(defs: seq<Def>, x: nat, g: Expr): Expr
    requires x < |defs|
  {
    if defs[x].Node? && defs[x].e.Const? then defs[x].e
    else if IsExtension(defs, x) then Ext(defs[x].e.kind, defs[x].e.to, g)
    else g
  }

  lemma DataIsToken(defs: seq<Def>, x: nat, g: Expr, env: Env)
    requires AllGood(defs) && x < |defs|
    requires (defs[x].Node? && defs[x].e.Const?) || IsToken(defs, OperandLeaf(defs, x), env, g)
    ensures IsToken(defs, x, env, DataOf(defs, x, g))
    ensures !(defs[x].Node? && defs[x].e.Const?) ==> Behind(defs, x, DataOf(defs, x, g)) == g
  {
    assert GoodDef(defs, defs[x]);
    if IsExtension(defs, x) {
      ExtensionToken(defs, x, g, env);
    } else if defs[x].Node? && defs[x].e.Const? {
      assert Unrolls(defs, x, defs[x].e);
    } else if defs[x].Node? && defs[x].e.Ext? {
      ChildrenAreRefs(defs, defs[x].e);
      assert false;
    }
  }

  /** What the cut operand yields. */
  lemma DataYields(defs: seq<Def>, x: nat, w: nat, g: Expr, back: Expr, all: seq<Def>, env: Env)
    requires AllGood(defs) && x < |defs| && 1 <= w <= defs[x].Width() && OperandLeaf(defs, x) < |defs|
    requires Matches(Cut(defs, x, w), g, all, DataLeaf(defs, x))
    requires IsToken(defs, x, env, DataOf(defs, x, back))
    requires var part := Grab(Cut(defs, x, w), g, 0);
      Uses(Cut(defs, x, w), 0) ==>
        && WellTyped(part) && Width(part) == defs[OperandLeaf(defs, x)].Width() && IsToken(defs, OperandLeaf(defs, x), env, back)
        && Eval(back, env) == Eval(part, env)
    ensures WellTyped(g) && Eval(g, env) == Wrap(Eval(DataOf(defs, x, back), env), w)
  {
    var r, a := Cut(defs, x, w), DataOf(defs, x, back);
    CutVars(defs, x, w);
    MatchedIsSubst(r, g, all, DataLeaf(defs, x));
    var part := if Uses(r, 0) then Grab(r, g, 0) else a;
    UnrollTyped(defs, x, a);
    var inner: Env := (i: nat) => if WellTyped(part) then Eval(part, env) else 0;
    SubstSame(r, GrabAll(r, g), (i: nat) => part);
    LeafWidthIs(defs, x, a);
    if Uses(r, 0) {
      DataIsToken(defs, x, back, env);
      CutConst(defs, x, w);
    }
    NarrowEval(defs, x, w, part, env, inner);
    OperandEval(defs, x, 0, a, env, inner);
  }

  lemma CutConst(defs: seq<Def>, x: nat, w: nat)
    requires AllGood(defs) && x < |defs| && Uses(Cut(defs, x, w), 0)
    ensures !(defs[x].Node? && defs[x].e.Const?)
  {
    OperandViewTyped(defs, x, 0);
    var view := OperandView(defs, x, 0);
    OperandPositioned(defs, x, 0);
    SimpleVars(view, w);
  }

  lemma {:induction false} RecoverData(c: Circuit, s: Rewriting, n: Narrowing, x: nat, w: nat, g: Expr, env: Env) returns (a: Expr)
    requires IsReversible(c, s, n) && ShiftWaits(c, s, n, env) && x < |c.defs| && (n.exact || x !in n.values)
    requires 1 <= w <= c.defs[x].Width() && WellTyped(g) && Defined(g, env)
    requires Matches(Cut(c.defs, x, w), g, Result(c, s, n).defs, DataLeaf(c.defs, x))
    ensures IsToken(c.defs, x, env, a) && Eval(g, env) == Wrap(Eval(a, env), w)
    decreases g, 4
  {
    var r, all := Cut(c.defs, x, w), Result(c, s, n).defs;
    OperandViewTyped(c.defs, x, 0);
    CutVars(c.defs, x, w);
    var back := g;
    if Uses(r, 0) {
      GrabUnrolls(r, g, all, DataLeaf(c.defs, x), 0);
      GrabDefined(r, g, 0, env);
      if !n.exact {
        BehindNotNarrowed(c.defs, x, n);
      }
      back := Recover(c, s, n, OperandLeaf(c.defs, x), Grab(r, g, 0), env);
      WidthOfToken(c, s, n, OperandLeaf(c.defs, x), Grab(r, g, 0));
    }
    DataIsToken(c.defs, x, back, env);
    DataYields(c.defs, x, w, g, back, all, env);
    a := DataOf(c.defs, x, back);
  }

  /** Extended back, a narrow token. */
  lemma ExtendedBack(t: ExtWidth, f: Expr, env: Env)
    requires WellTyped(f) && f.Ext? && f.kind == KindOf(t) && Width(f.arg) == t.bitWidth < f.to
    ensures Eval(f, env) == ModBitWidth(t, Eval(f.arg, env), f.to)
  {
  }

  /** What a token on a result of the narrowed operation was made from. */
  lemma ResultParts(c: Circuit, op: nat, t: ExtWidth, v: nat, f: Expr) returns (j: nat)
    requires Valid(c) && Narrows(c, op, t) && v in Results(c.defs, op, |c.defs|) && Unrolls(NarrowForwarder(c, op, t).defs, v, f)
    ensures v < |c.defs| && c.defs[v] == ForwarderDef(c.defs, op) && GoodDef(c.defs, c.defs[v])
    ensures f.Ext? && f.kind == KindOf(t) && f.to == c.defs[v].width && IsRouted(f.arg) && HandsOn(c.defs, v, f.arg, j)
    ensures Matches(Cut(c.defs, c.defs[v].data[j], t.bitWidth), f.arg.arg, NarrowForwarder(c, op, t).defs, DataLeaf(c.defs, c.defs[v].data[j]))
    ensures f.arg.Steered? ==> !c.defs[v].kind.Single? && Unrolls(NarrowForwarder(c, op, t).defs, c.defs[v].kind.control, f.arg.control)
    ensures WellTyped(f) && Width(f.arg) == t.bitWidth && c.defs[v].data[j] < |c.defs|
    ensures 1 <= t.bitWidth < c.defs[v].width == c.defs[c.defs[v].data[j]].Width()
  {
    var all, d := NarrowForwarder(c, op, t).defs, ForwarderDef(c.defs, op);
    var y, narrow := ResultIs(c, op, t, v);
    assert SameOp(all[v].e, f) && Child(all[v].e, 0) == all[v].e.arg && Child(f, 0) == f.arg;
    j := HandedOn(all, y, f.arg);
    PutAllGrows(c.defs, d.data, t.bitWidth);
    PutAllMatches(c.defs, d.data, t.bitWidth, j, f.arg.arg, all);
    NarrowForwarderValid(c, op, t);
    UnrollTyped(all, v, f);
    UnrollTyped(all, y, f.arg);
    assert GoodDef(c.defs, d) && GoodDef(all, all[v]);
    ChildrenAreRefs(all, all[v].e);
  }

  lemma {:induction false} RecoverControl(c: Circuit, s: Rewriting, n: Narrowing, x: nat, f: Expr, env: Env) returns (control: Expr)
    requires IsReversible(c, s, n) && ShiftWaits(c, s, n, env) && x < |c.defs| && (n.exact || x !in n.values)
    requires f.Steered? ==> IsToken(Result(c, s, n).defs, x, env, f.control)
    ensures f.Steered? ==> WellTyped(f.control) && IsToken(c.defs, x, env, control) && Eval(control, env) == Eval(f.control, env)
    decreases f, 4
  {
    control := f;
    if f.Steered? {
      control := Recover(c, s, n, x, f.control, env);
    }
  }

  lemma {:induction false} RecoverResult(c: Circuit, s: Rewriting, n: Narrowing, v: nat, f: Expr, env: Env) returns (e: Expr)
    requires IsReversible(c, s, n) && ShiftWaits(c, s, n, env) && v < |c.defs| && IsToken(Result(c, s, n).defs, v, env, f)
    requires c.defs[v].Choice? && v in n.values
    ensures Recovers(c, n, v, e, f, env)
    decreases f, 2
  {
    assert s.Forwarding? && v in Results(c.defs, s.op, |c.defs|);
    var j := ResultParts(c, s.op, s.t, v, f);
    RoutedParts(f.arg, env);
    var x := c.defs[v].data[j];
    if !n.exact {
      DataNotNarrowed(c.defs, v, j, n);
    }
    var a := RecoverData(c, s, n, x, s.t.bitWidth, f.arg.arg, env);
    var control := f;
    if f.arg.Steered? {
      control := RecoverControl(c, s, n, c.defs[v].kind.control, f.arg, env);
    }
    ResultRecovered(c, s.op, s.t, n, v, f, j, control, a, env);
    e := HandOn(f.arg, control, a);
    WidthOfToken(c, s, n, v, f);
  }

  lemma ResultRecovered(c: Circuit, op: nat, t: ExtWidth, n: Narrowing, v: nat, f: Expr, j: nat, control: Expr, a: Expr, env: Env)
    requires IsNarrowing(c, op, t, n) && v < |c.defs| && v in n.values && c.defs[v] == ForwarderDef(c.defs, op)
    requires WellTyped(f) && Defined(f, env) && f.Ext? && f.kind == KindOf(t) && f.to == c.defs[v].width && IsRouted(f.arg)
    requires HandsOn(c.defs, v, f.arg, j) && IsToken(c.defs, c.defs[v].data[j], env, a) && WellTyped(f.arg.arg)
    requires Width(f.arg) == t.bitWidth && Eval(f.arg.arg, env) == Wrap(Eval(a, env), t.bitWidth)
    requires f.arg.Steered? ==> !c.defs[v].kind.Single? && WellTyped(f.arg.control)
                                && IsToken(c.defs, c.defs[v].kind.control, env, control) && Eval(control, env) == Eval(f.arg.control, env)
    ensures IsToken(c.defs, v, env, HandOn(f.arg, control, a)) && SameToken(n, v, Eval(HandOn(f.arg, control, a), env), Eval(f, env))
  {
    HandOnToken(f.arg, control, a, env);
    HandsItOn(c.defs, v, HandOn(f.arg, control, a), j);
    ExtendedBack(t, f, env);
    assert Survives(t, c.defs[v].width, Eval(a, env), n);
  }
}
