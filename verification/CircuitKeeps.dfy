/** Every rewrite of a circuit keeps what its values may carry: each history has a counterpart that yields the same token. */
module CircuitKeeps {
  import opened Basics
  import opened Words
  import opened Transfer
  import opened Scalar
  import opened DataForward
  import opened Expressions
  import opened RewriteSound
  import opened PatternCosts
  import opened Circuits
  import opened CircuitSteps
  import opened CircuitShrinks
  import opened CircuitMeaning

  // ----- a history and the view of its last operation -----

  predicate SeenThrough(defs: seq<Def>, v: nat, i: nat)
    requires IsNode(defs, v)
  {
    var f := defs[v].e;
    && i < Arity(f) && !(f.Select? && i == 0) && !(f.Shr? && i == 1) && !f.Ext?
    && Child(f, i).Var? && Child(f, i).id < |defs|
    && defs[Child(f, i).id].Node? && defs[Child(f, i).id].e.Ext? && defs[Child(f, i).id].e.arg.Var?
  }

  /** The history behind a variable of the view. */
  function SubOf(defs: seq<Def>, v: nat, e: Expr, i: nat): (s: Expr)
    requires IsNode(defs, v) && i < Arity(e)
    ensures s < e
  {
    if SeenThrough(defs, v, i) && Child(e, i).Ext? then Child(e, i).arg else Child(e, i)
  }

  lemma SubUnrolls(defs: seq<Def>, v: nat, e: Expr, i: nat)
    requires IsNode(defs, v) && Unrolls(defs, v, e) && i < Arity(e)
    ensures Unrolls(defs, Leaf(defs, v, i), SubOf(defs, v, e, i))
  {
    var f := defs[v].e;
    assert GoodDef(defs, defs[v]);
    ChildrenAreRefs(defs, f);
    assert Unrolls(defs, Child(f, i).id, Child(e, i));
    if SeenThrough(defs, v, i) {
      var g := defs[Child(f, i).id].e;
      assert SameOp(g, Child(e, i)) && Child(g, 0) == g.arg && Child(Child(e, i), 0) == Child(e, i).arg;
      assert Unrolls(defs, g.arg.id, Child(e, i).arg);
    }
  }

  /** Behind forwarding operations of one operand there is the constant, in every history. */
  lemma {:induction false} BacktrackEval(defs: seq<Def>, x: nat, visited: set<nat>, a: Expr, env: Env)
    requires AllGood(defs) && Unrolls(defs, x, a)
    requires var y := BacktrackTo(defs, x, visited); y < |defs| && defs[y].Node? && defs[y].e.Const?
    ensures WellTyped(a) && Eval(a, env) == defs[BacktrackTo(defs, x, visited)].e.value
    decreases a
  {
    UnrollTyped(defs, x, a);
    if BacktrackTo(defs, x, visited) != x {
      var j := HandedOn(defs, x, a);
      if defs[x].kind.Single? {
        assert SameOp(defs[defs[x].data[0]].e, a.arg);
      } else {
        BacktrackEval(defs, defs[x].data[0], visited + {defs[x].op}, a.arg, env);
      }
    } else {
      assert SameOp(defs[x].e, a);
    }
  }

  /** The environment in which a view evaluates like the history. */
  ghost predicate Inner(defs: seq<Def>, v: nat, e: Expr, env: Env, inner: Env)
    requires IsNode(defs, v)
  {
    forall i: nat | i < Arity(e) :: WellTyped(SubOf(defs, v, e, i)) && inner(i) == Eval(SubOf(defs, v, e, i), env)
  }

  predicate IsExtension(defs: seq<Def>, x: nat) {
    x < |defs| && defs[x].Node? && defs[x].e.Ext? && defs[x].e.arg.Var?
  }

  /** A history of an operand and the operand's view. */
  lemma OperandEval(defs: seq<Def>, x: nat, i: nat, a: Expr, env: Env, inner: Env)
    requires AllGood(defs) && Unrolls(defs, x, a)
    requires var s := if IsExtension(defs, x) && a.Ext? then a.arg else a; WellTyped(s) && inner(i) == Eval(s, env)
    ensures var view := OperandView(defs, x, i);
      && WellTyped(a) && WellTyped(view) && Width(view) == Width(a) && Eval(view, inner) == Eval(a, env)
      && (Defined(a, env) ==> Defined(view, inner) && Defined(if IsExtension(defs, x) && a.Ext? then a.arg else a, env))
  {
    UnrollTyped(defs, x, a);
    OperandViewTyped(defs, x, i);
    assert GoodDef(defs, defs[x]);
    if IsExtension(defs, x) {
      var g := defs[x].e;
      ChildrenAreRefs(defs, g);
      assert SameOp(g, a) && Child(g, 0) == g.arg && Child(a, 0) == a.arg;
      assert Unrolls(defs, g.arg.id, a.arg);
      UnrollTyped(defs, g.arg.id, a.arg);
      WrapSmall(Eval(a.arg, env), Width(a.arg));
    } else {
      WrapSmall(Eval(a, env), Width(a));
      if defs[x].Node? && defs[x].e.Const? {
        assert SameOp(defs[x].e, a);
      }
    }
  }

  lemma ViewChildIs(defs: seq<Def>, v: nat, behind: bool, i: nat)
    requires IsNode(defs, v) && i < Arity(defs[v].e)
    ensures IsRef(defs, Child(defs[v].e, i))
    ensures var f := defs[v].e; var x := Child(f, i).id;
      Child(View(defs, v, behind), i) ==
         (if f.Shr? && i == 1 then AmountView(defs, x, 1, behind)
          else if (f.Select? && i == 0) || f.Ext? then Var(0, Child(f, i).width)
          else OperandView(defs, x, i))
  {
    assert GoodDef(defs, defs[v]);
    ChildrenAreRefs(defs, defs[v].e);
  }

  lemma ViewChildEval(defs: seq<Def>, v: nat, behind: bool, e: Expr, i: nat, env: Env, inner: Env)
    requires IsNode(defs, v) && Unrolls(defs, v, e) && i < Arity(e) && Inner(defs, v, e, env, inner)
    ensures WellTyped(Child(e, i)) && i < Arity(View(defs, v, behind)) && WellTyped(Child(View(defs, v, behind), i))
    ensures Width(Child(View(defs, v, behind), i)) == Width(Child(e, i))
    ensures Eval(Child(View(defs, v, behind), i), inner) == Eval(Child(e, i), env)
    ensures Defined(Child(e, i), env) ==> Defined(Child(View(defs, v, behind), i), inner) && Defined(SubOf(defs, v, e, i), env)
  {
    var f := defs[v].e;
    assert SameOp(f, e);
    ViewChildIs(defs, v, behind, i);
    var x, a := Child(f, i).id, Child(e, i);
    assert Unrolls(defs, x, a);
    UnrollTyped(defs, x, a);
    if f.Shr? && i == 1 {
      AmountEval(defs, x, behind, a, env, inner);
      BacktrackWidth(defs, x, {});
    } else if (f.Select? && i == 0) || f.Ext? {
      WrapSmall(Eval(a, env), Width(a));
    } else {
      assert SeenThrough(defs, v, i) <==> IsExtension(defs, x);
      OperandEval(defs, x, i, a, env, inner);
    }
  }

  lemma AmountEval(defs: seq<Def>, x: nat, behind: bool, a: Expr, env: Env, inner: Env)
    requires AllGood(defs) && Unrolls(defs, x, a) && WellTyped(a) && inner(1) == Eval(a, env) && Width(a) == defs[x].Width()
    ensures WellTyped(AmountView(defs, x, 1, behind)) && Width(AmountView(defs, x, 1, behind)) == Width(a)
    ensures Eval(AmountView(defs, x, 1, behind), inner) == Eval(a, env)
    ensures Defined(AmountView(defs, x, 1, behind), inner)
  {
    var y := if behind then BacktrackTo(defs, x, {}) else x;
    WrapSmall(Eval(a, env), Width(a));
    BacktrackWidth(defs, x, {});
    if y < |defs| && defs[y].Node? && defs[y].e.Const? {
      assert GoodDef(defs, defs[y]);
      if behind {
        BacktrackEval(defs, x, {}, a, env);
      } else {
        assert SameOp(defs[x].e, a);
      }
    }
  }

  /** An operation yields the same on operands that do. */
  lemma SameOpEval(f: Expr, e: Expr, inner: Env, env: Env)
    requires WellTyped(f) && WellTyped(e) && SameOp(f, e) && Width(f) == Width(e)
    requires forall i: nat | i < Arity(e) :: WellTyped(Child(f, i)) && WellTyped(Child(e, i)) && Width(Child(f, i)) == Width(Child(e, i))
                                             && Eval(Child(f, i), inner) == Eval(Child(e, i), env)
    ensures Eval(f, inner) == Eval(e, env)
    ensures (forall i: nat | i < Arity(e) :: Defined(Child(e, i), env) ==> Defined(Child(f, i), inner)) ==>
              (Defined(e, env) ==> Defined(f, inner))
    ensures Defined(e, env) ==> forall i: nat | i < Arity(e) :: Defined(Child(e, i), env)
  {
    match f {
      case Ext(_, _, a) => assert Child(f, 0) == a && Child(e, 0) == e.arg;
      case Trunc(_, a) => assert Child(f, 0) == a && Child(e, 0) == e.arg;
      case Bin(_, l, r) => assert Child(f, 0) == l && Child(f, 1) == r && Child(e, 0) == e.lhs && Child(e, 1) == e.rhs;
      case Select(c, t, x) =>
        assert Child(f, 0) == c && Child(f, 1) == t && Child(f, 2) == x;
        assert Child(e, 0) == e.cond && Child(e, 1) == e.onTrue && Child(e, 2) == e.onFalse;
      case Shr(_, l, r) => assert Child(f, 0) == l && Child(f, 1) == r && Child(e, 0) == e.lhs && Child(e, 1) == e.amount;
      case Cmp(_, l, r) => assert Child(f, 0) == l && Child(f, 1) == r && Child(e, 0) == e.lhs && Child(e, 1) == e.rhs;
      case Forward(a) => assert Child(f, 0) == a && Child(e, 0) == e.arg;
      case Steered(_, c, a) => assert Child(f, 0) == a && Child(f, 1) == c && Child(e, 0) == e.arg && Child(e, 1) == e.control;
      case _ =>
    }
  }

  lemma ViewEval(defs: seq<Def>, v: nat, behind: bool, e: Expr, env: Env, inner: Env)
    requires IsNode(defs, v) && Unrolls(defs, v, e) && Inner(defs, v, e, env, inner)
    ensures WellTyped(e) && WellTyped(View(defs, v, behind)) && Width(View(defs, v, behind)) == Width(e)
    ensures Eval(View(defs, v, behind), inner) == Eval(e, env)
    ensures Defined(e, env) ==> Defined(View(defs, v, behind), inner) && forall i: nat | i < Arity(e) :: Defined(SubOf(defs, v, e, i), env)
  {
    UnrollTyped(defs, v, e);
    ViewTyped(defs, v, behind);
    assert GoodDef(defs, defs[v]);
    assert SameOp(defs[v].e, e) && SameOp(View(defs, v, behind), e);
    forall i: nat | i < Arity(e)
      ensures WellTyped(Child(e, i)) && WellTyped(Child(View(defs, v, behind), i))
      ensures Width(Child(View(defs, v, behind), i)) == Width(Child(e, i))
      ensures Eval(Child(View(defs, v, behind), i), inner) == Eval(Child(e, i), env)
      ensures Defined(Child(e, i), env) ==> Defined(Child(View(defs, v, behind), i), inner) && Defined(SubOf(defs, v, e, i), env)
    {
      ViewChildEval(defs, v, behind, e, i, env, inner);
    }
    SameOpEval(View(defs, v, behind), e, inner, env);
  }

  // ----- rewriting an operation -----

  ghost predicate KeepsView(view: Expr, r: Expr, n: Narrowing)
    requires WellTyped(view)
  {
    if n.exact then SameMeaning(view, r) else SameLow(view, r, n.k)
  }

  /** Operation `v` of `c` is replaced by `r`, which keeps what its users need. */
  ghost predicate IsRewrite(c: Circuit, v: nat, behind: bool, r: Expr, n: Narrowing) {
    && Valid(c) && IsNode(c.defs, v) && n.values == {v} && (n.exact || !c.defs[v].e.Trunc?)
    && WellTyped(View(c.defs, v, behind)) && KeepsView(View(c.defs, v, behind), r, n)
    && WellTyped(r) && Width(r) == c.defs[v].Width() && !r.Var? && Closed(r, WidthOf(c.defs, v))
    && UsersAgree(c.defs, n)
  }

  function Rewritten(c: Circuit, v: nat, r: Expr): Circuit
    requires IsNode(c.defs, v)
  {
    Replace(c, v, Rename(r, LeafOf(c.defs, v)))
  }

  lemma {:induction false} ClosedBound(r: Expr, w: nat -> nat, defs: seq<Def>, leaf: nat -> nat, sub: nat -> Expr)
    requires WellTyped(r) && Closed(r, w) && forall i | w(i) >= 1 :: Unrolls(defs, leaf(i), sub(i))
    ensures Bound(r, defs, leaf, sub)
  {
    forall i: nat | i < Arity(r) ensures Bound(Child(r, i), defs, leaf, sub) {
      ChildrenTyped(r, i);
      ClosedBound(Child(r, i), w, defs, leaf, sub);
    }
  }

  /** What a rewritten operation is placed as. */
  lemma RewrittenIs(c: Circuit, v: nat, behind: bool, r: Expr, n: Narrowing)
    requires IsRewrite(c, v, behind, r, n)
    ensures Valid(Rewritten(c, v, r)) && SameWidths(c.defs, Rewritten(c, v, r).defs)
    ensures var (more, flat) := PutChildren(c.defs, Rename(r, LeafOf(c.defs, v)));
      && Extends(c.defs, more) && Rewritten(c, v, r).defs == more[v := Node(flat)]
  {
    LeavesAre(c.defs, v);
    RenamedPlaceable(c.defs, r, LeafOf(c.defs, v), WidthOf(c.defs, v));
    RenameKeeps(r, LeafOf(c.defs, v));
    ReplaceValid(c, v, Rename(r, LeafOf(c.defs, v)));
  }

  lemma RewrittenUnrolls(c: Circuit, v: nat, behind: bool, r: Expr, n: Narrowing, e: Expr, f: nat -> Expr)
    requires IsRewrite(c, v, behind, r, n) && Arity(e) == Arity(c.defs[v].e)
    requires forall i: nat | i < Arity(e) :: Unrolls(Rewritten(c, v, r).defs, Leaf(c.defs, v, i), f(i))
    ensures Unrolls(Rewritten(c, v, r).defs, v, Subst(r, f))
  {
    var leaf, w := LeafOf(c.defs, v), WidthOf(c.defs, v);
    var all := Rewritten(c, v, r).defs;
    RewrittenIs(c, v, behind, r, n);
    ClosedBound(r, w, all, leaf, f);
    PutChildrenUnrolls(c.defs, r, leaf, f, all);
    SubstChildren(r, leaf, f);
  }

  /** The rewritten operation on the same histories of its leaves. */
  lemma RewrittenSame(c: Circuit, v: nat, behind: bool, r: Expr, n: Narrowing, e: Expr, f: nat -> Expr)
    requires IsRewrite(c, v, behind, r, n) && Unrolls(c.defs, v, e)
    requires forall i: nat | i < Arity(e) :: WellTyped(SubOf(c.defs, v, e, i)) && SameMeaning(SubOf(c.defs, v, e, i), f(i))
    ensures WellTyped(e) && Kept(n, v, e, Subst(r, f))
  {
    var w := WidthOf(c.defs, v);
    UnrollTyped(c.defs, v, e);
    assert SameOp(c.defs[v].e, e);
    forall i: nat | i < Arity(e) ensures Width(f(i)) == w(i) {
      SubUnrolls(c.defs, v, e, i);
      UnrollTyped(c.defs, Leaf(c.defs, v, i), SubOf(c.defs, v, e, i));
    }
    RewrittenAt(c, v, behind, r, n, e, f, (i: nat) => 0);
    if n.exact {
      forall env: Env ensures Replaces(e, Subst(r, f), env) {
        RewrittenAt(c, v, behind, r, n, e, f, env);
      }
    } else {
      forall env: Env ensures ReplacesLow(e, Subst(r, f), n.k, env) {
        RewrittenAt(c, v, behind, r, n, e, f, env);
      }
    }
  }

  /** What the first few expressions evaluate to. */
  function EnvOf(f: nat -> Expr, k: nat, env: Env): Env {
    (i: nat) => if i < k && WellTyped(f(i)) then Eval(f(i), env) else 0
  }

  function SubsOf(defs: seq<Def>, v: nat, e: Expr): nat -> Expr
    requires IsNode(defs, v)
  {
    (i: nat) => if IsNode(defs, v) && i < Arity(e) then SubOf(defs, v, e, i) else e
  }

  lemma RewrittenAt(c: Circuit, v: nat, behind: bool, r: Expr, n: Narrowing, e: Expr, f: nat -> Expr, env: Env)
    requires IsRewrite(c, v, behind, r, n) && Unrolls(c.defs, v, e) && WellTyped(e)
    requires forall i: nat | i < Arity(e) :: WellTyped(SubOf(c.defs, v, e, i)) && SameMeaning(SubOf(c.defs, v, e, i), f(i))
    requires forall i: nat | i < Arity(e) :: Width(f(i)) == WidthOf(c.defs, v)(i)
    ensures WellTyped(Subst(r, f)) && Width(Subst(r, f)) == Width(e)
    ensures if n.exact then Replaces(e, Subst(r, f), env) else ReplacesLow(e, Subst(r, f), n.k, env)
  {
    RewrittenTyped(c, v, behind, r, n, e, f);
    if Defined(e, env) {
      RewrittenDefined(c, v, behind, r, n, e, f, env);
    }
  }

  lemma RewrittenTyped(c: Circuit, v: nat, behind: bool, r: Expr, n: Narrowing, e: Expr, f: nat -> Expr)
    requires IsRewrite(c, v, behind, r, n) && Unrolls(c.defs, v, e)
    requires forall i: nat | i < Arity(e) :: WellTyped(f(i)) && Width(f(i)) == WidthOf(c.defs, v)(i)
    ensures WellTyped(Subst(r, f)) && WellTyped(e) && Width(Subst(r, f)) == Width(e)
  {
    var env: Env := (i: nat) => 0;
    UnrollTyped(c.defs, v, e);
    assert SameOp(c.defs[v].e, e) && Arity(e) == Arity(c.defs[v].e);
    SubstEval(r, f, WidthOf(c.defs, v), env, EnvOf(f, Arity(e), env));
  }

  lemma RewrittenDefined(c: Circuit, v: nat, behind: bool, r: Expr, n: Narrowing, e: Expr, f: nat -> Expr, env: Env)
    requires IsRewrite(c, v, behind, r, n) && Unrolls(c.defs, v, e) && WellTyped(e) && Defined(e, env)
    requires forall i: nat | i < Arity(e) :: WellTyped(SubOf(c.defs, v, e, i)) && SameMeaning(SubOf(c.defs, v, e, i), f(i))
    requires forall i: nat | i < Arity(e) :: Width(f(i)) == WidthOf(c.defs, v)(i)
    ensures WellTyped(Subst(r, f)) && Defined(Subst(r, f), env)
    ensures if n.exact then Eval(Subst(r, f), env) == Eval(e, env) else Wrap(Eval(Subst(r, f), env), n.k) == Wrap(Eval(e, env), n.k)
  {
    var inner := EnvOf(SubsOf(c.defs, v, e), Arity(e), env);
    ViewEval(c.defs, v, behind, e, env, inner);
    LeavesEvaluate(c.defs, v, e, f, env, inner);
    SubstKeeps(View(c.defs, v, behind), r, n, WidthOf(c.defs, v), env, inner, f);
  }

  lemma LeavesEvaluate(defs: seq<Def>, v: nat, e: Expr, f: nat -> Expr, env: Env, inner: Env)
    requires IsNode(defs, v) && Arity(e) == Arity(defs[v].e)
    requires forall i: nat | i < Arity(e) :: WellTyped(SubOf(defs, v, e, i)) && SameMeaning(SubOf(defs, v, e, i), f(i))
    requires forall i: nat | i < Arity(e) :: Width(f(i)) == WidthOf(defs, v)(i) && Defined(SubOf(defs, v, e, i), env)
    requires forall i: nat | i < Arity(e) :: inner(i) == Eval(SubOf(defs, v, e, i), env)
    ensures Evaluates(f, WidthOf(defs, v), env, inner) && AllDefined(f, WidthOf(defs, v), env)
  {
    forall i: nat | i < Arity(e) ensures WellTyped(f(i)) && Eval(f(i), env) == inner(i) && Defined(f(i), env) {
      assert Replaces(SubOf(defs, v, e, i), f(i), env);
    }
  }

  lemma SubstKeeps(view: Expr, r: Expr, n: Narrowing, w: nat -> nat, env: Env, inner: Env, f: nat -> Expr)
    requires WellTyped(view) && KeepsView(view, r, n) && WellTyped(r) && Closed(r, w) && Defined(view, inner)
    requires Evaluates(f, w, env, inner) && AllDefined(f, w, env)
    ensures WellTyped(Subst(r, f)) && Defined(Subst(r, f), env)
    ensures if n.exact then Eval(Subst(r, f), env) == Eval(view, inner)
            else Wrap(Eval(Subst(r, f), env), n.k) == Wrap(Eval(view, inner), n.k)
  {
    SubstEval(r, f, w, env, inner);
    KeepsAt(view, r, n, inner);
  }

  lemma KeepsAt(view: Expr, r: Expr, n: Narrowing, env: Env)
    requires WellTyped(view) && KeepsView(view, r, n)
    ensures if n.exact then Replaces(view, r, env) else ReplacesLow(view, r, n.k, env)
  {
  }

  /** What feeds an operation that is narrowed is not narrowed itself. */
  lemma LeafNotNarrowed(defs: seq<Def>, v: nat, i: nat, n: Narrowing)
    requires IsNode(defs, v) && UsersAgree(defs, n) && !n.exact && v in n.values && !defs[v].e.Trunc? && i < Arity(defs[v].e)
    ensures Leaf(defs, v, i) !in n.values
  {
    var f := defs[v].e;
    assert GoodDef(defs, defs[v]);
    ChildrenAreRefs(defs, f);
    assert UserAgrees(defs[v], n);
    var x := Child(f, i).id;
    assert UserAgrees(defs[x], n);
    if SeenThrough(defs, v, i) {
      assert Child(defs[x].e, 0) == defs[x].e.arg;
    }
  }
}
