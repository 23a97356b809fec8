/** What a circuit means: the histories of the tokens on its values, and that every rewrite keeps them. */
module CircuitMeaning {
  import opened Basics
  import opened Words
  import opened Transfer
  import opened Scalar
  import opened DataForward
  import opened Expressions
  import opened RewriteSound
  import opened PatternCosts
  import opened Circuits
  import opened CircuitSteps
  import opened CircuitShrinks

  // ----- histories -----

  /** The same operation, with operands of any kind. */
  predicate SameOp(f: Expr, e: Expr) {
    match f
    case Var(_, _) => false
    case Const(_, _) => e == f
    case Ext(k, to, _) => e.Ext? && e.kind == k && e.to == to
    case Trunc(to, _) => e.Trunc? && e.to == to
    case Bin(op, _, _) => e.Bin? && e.op == op
    case Select(_, _, _) => e.Select?
    case Shr(arithmetic, _, _) => e.Shr? && e.arithmetic == arithmetic
    case Cmp(p, _, _) => e.Cmp? && e.pred == p
    case Forward(_) => e.Forward?
    case Steered(p, _, _) => e.Steered? && e.port == p
  }

  function TokenNumber(first: nat, stride: nat, k: nat): nat {
    first + k * stride
  }

  predicate IsResult(defs: seq<Def>, op: nat, v: nat) {
    v < |defs| && defs[v].Choice? && defs[v].op == op
  }

  /** How many of the first `k` values are results of an operation. */
  function Earlier(defs: seq<Def>, op: nat, k: nat): nat {
    if k == 0 then 0 else Earlier(defs, op, k - 1) + if IsResult(defs, op, k - 1) then 1 else 0
  }

  /** The control token with which operand `j` of an operation is handed on to its result `v`. */
  function Port(defs: seq<Def>, v: nat, j: nat): nat
    requires v < |defs| && defs[v].Choice?
  {
    if defs[v].kind.MergeLike? then j else if Earlier(defs, defs[v].op, v) == 0 then 1 else 0
  }

  predicate HandsOn(defs: seq<Def>, v: nat, e: Expr, j: nat)
    requires v < |defs| && defs[v].Choice?
  {
    j < |defs[v].data| && if defs[v].kind.Single? then e.Forward? else e.Steered? && e.port == Port(defs, v, j)
  }

  /** How a token on value `v` came to be, as an expression over tokens of sources: which operand was handed on is resolved,
      cycles are unrolled, and every use of a value has a history of its own. */
  ghost predicate Unrolls(defs: seq<Def>, v: nat, e: Expr)
    decreases e
  {
    && v < |defs|
    && match defs[v]
       case Source(w, first, stride) => e.Var? && e.width == w && exists k: nat :: e.id == TokenNumber(first, stride, k)
       case Node(f) => SameOp(f, e) && forall i: nat | i < Arity(e) :: Child(f, i).Var? && Unrolls(defs, Child(f, i).id, Child(e, i))
       case Choice(_, data, _, kind) =>
         && (exists j: nat :: HandsOn(defs, v, e, j) && Unrolls(defs, data[j], e.arg))
         && (e.Steered? ==> Unrolls(defs, kind.control, e.control))
  }

  lemma HandedOn(defs: seq<Def>, v: nat, e: Expr) returns (j: nat)
    requires Unrolls(defs, v, e) && defs[v].Choice?
    ensures HandsOn(defs, v, e, j) && IsRouted(e) && Unrolls(defs, defs[v].data[j], e.arg)
    ensures e.Steered? <==> !defs[v].kind.Single?
    ensures e.Steered? ==> Unrolls(defs, defs[v].kind.control, e.control)
  {
    j :| HandsOn(defs, v, e, j) && Unrolls(defs, defs[v].data[j], e.arg);
  }

  lemma SourceHistory(defs: seq<Def>, v: nat, k: nat)
    requires v < |defs| && defs[v].Source?
    ensures Unrolls(defs, v, Var(TokenNumber(defs[v].first, defs[v].stride, k), defs[v].width))
  {
  }

  lemma HandsItOn(defs: seq<Def>, v: nat, e: Expr, j: nat)
    requires v < |defs| && defs[v].Choice? && HandsOn(defs, v, e, j) && Unrolls(defs, defs[v].data[j], e.arg)
    requires e.Steered? ==> Unrolls(defs, defs[v].kind.control, e.control)
    ensures Unrolls(defs, v, e)
  {
  }

  lemma {:induction false} UnrollTyped(defs: seq<Def>, v: nat, e: Expr)
    requires AllGood(defs) && Unrolls(defs, v, e)
    ensures WellTyped(e) && Width(e) == defs[v].Width()
    decreases e
  {
    assert GoodDef(defs, defs[v]);
    match defs[v]
    case Source(_, _, _) =>
    case Node(f) =>
      ChildrenAreRefs(defs, f);
      forall i: nat | i < Arity(e) ensures WellTyped(Child(e, i)) && Width(Child(e, i)) == Child(f, i).width {
        UnrollTyped(defs, Child(f, i).id, Child(e, i));
      }
      SameOpTyped(f, e);
    case Choice(_, data, _, _) =>
      var j := HandedOn(defs, v, e);
      UnrollTyped(defs, data[j], e.arg);
      if e.Steered? {
        UnrollTyped(defs, defs[v].kind.control, e.control);
      }
  }

  lemma SameOpTyped(f: Expr, e: Expr)
    requires WellTyped(f) && SameOp(f, e) && Arity(f) == Arity(e)
    requires forall i: nat | i < Arity(e) :: WellTyped(Child(e, i)) && Width(Child(e, i)) == Width(Child(f, i))
    ensures WellTyped(e) && Width(e) == Width(f)
  {
    match f {
      case Ext(_, _, a) => assert Child(f, 0) == a && Child(e, 0) == e.arg;
      case Trunc(_, a) => assert Child(f, 0) == a && Child(e, 0) == e.arg;
      case Bin(_, l, r) => assert Child(f, 0) == l && Child(f, 1) == r && Child(e, 0) == e.lhs && Child(e, 1) == e.rhs;
      case Select(c, t, x) =>
        assert Child(f, 0) == c && Child(f, 1) == t && Child(f, 2) == x;
        assert Child(e, 0) == e.cond && Child(e, 1) == e.onTrue && Child(e, 2) == e.onFalse;
      case Shr(_, l, r) => assert Child(f, 0) == l && Child(f, 1) == r && Child(e, 0) == e.lhs && Child(e, 1) == e.amount;
      case Cmp(_, l, r) => assert Child(f, 0) == l && Child(f, 1) == r && Child(e, 0) == e.lhs && Child(e, 1) == e.rhs;
      case Forward(a) => assert Child(f, 0) == a && Child(e, 0) == e.arg;
      case Steered(_, c, a) => assert Child(f, 0) == a && Child(f, 1) == c && Child(e, 0) == e.arg && Child(e, 1) == e.control;
      case _ =>
    }
  }

  // ----- agreement -----

  /** The low `k` bits of both are the same, whatever the sources deliver. */
  ghost predicate SameLow(e: Expr, f: Expr, k: nat)
    requires WellTyped(e)
  {
    WellTyped(f) && Width(f) == Width(e) && forall env: Env :: ReplacesLow(e, f, k, env)
  }

  lemma SameMeaningTransitive(e: Expr, f: Expr, g: Expr)
    requires WellTyped(e) && SameMeaning(e, f) && SameMeaning(f, g)
    ensures SameMeaning(e, g)
  {
    forall env: Env ensures Replaces(e, g, env) {
      assert Replaces(e, f, env) && Replaces(f, g, env);
    }
  }

  // ----- substitution -----

  /** Variables replaced by expressions. */
  function Subst(e: Expr, sub: nat -> Expr): Expr {
    match e
    case Var(i, _) => sub(i)
    case Const(_, _) => e
    case Ext(k, to, a) => Ext(k, to, Subst(a, sub))
    case Trunc(to, a) => Trunc(to, Subst(a, sub))
    case Bin(op, l, r) => Bin(op, Subst(l, sub), Subst(r, sub))
    case Select(c, t, f) => Select(Subst(c, sub), Subst(t, sub), Subst(f, sub))
    case Shr(arithmetic, l, a) => Shr(arithmetic, Subst(l, sub), Subst(a, sub))
    case Cmp(p, l, r) => Cmp(p, Subst(l, sub), Subst(r, sub))
    case Forward(a) => Forward(Subst(a, sub))
    case Steered(p, c, a) => Steered(p, Subst(c, sub), Subst(a, sub))
  }

  /** What the expressions evaluate to, as an environment. */
  ghost predicate Evaluates(sub: nat -> Expr, w: nat -> nat, env: Env, inner: Env) {
    forall i | w(i) >= 1 :: WellTyped(sub(i)) && Width(sub(i)) == w(i) && inner(i) == Eval(sub(i), env)
  }

  ghost predicate AllDefined(sub: nat -> Expr, w: nat -> nat, env: Env) {
    forall i | w(i) >= 1 :: WellTyped(sub(i)) && Defined(sub(i), env)
  }

  lemma {:induction false} SubstEval(e: Expr, sub: nat -> Expr, w: nat -> nat, env: Env, inner: Env)
    requires WellTyped(e) && Closed(e, w) && Evaluates(sub, w, env, inner)
    ensures WellTyped(Subst(e, sub)) && Width(Subst(e, sub)) == Width(e) && Eval(Subst(e, sub), env) == Eval(e, inner)
    ensures AllDefined(sub, w, env) ==> (Defined(Subst(e, sub), env) <==> Defined(e, inner))
    decreases e
  {
    match e {
      case Var(i, width) =>
        assert w(i) >= 1;
        WrapSmall(Eval(sub(i), env), width);
      case Const(_, _) =>
      case Ext(_, _, a) => assert Child(e, 0) == a; SubstEval(a, sub, w, env, inner);
      case Trunc(_, a) => assert Child(e, 0) == a; SubstEval(a, sub, w, env, inner);
      case Bin(_, l, r) => assert Child(e, 0) == l && Child(e, 1) == r; SubstEval(l, sub, w, env, inner); SubstEval(r, sub, w, env, inner);
      case Select(c, t, f) =>
        assert Child(e, 0) == c && Child(e, 1) == t && Child(e, 2) == f;
        SubstEval(c, sub, w, env, inner); SubstEval(t, sub, w, env, inner); SubstEval(f, sub, w, env, inner);
      case Shr(_, l, r) => assert Child(e, 0) == l && Child(e, 1) == r; SubstEval(l, sub, w, env, inner); SubstEval(r, sub, w, env, inner);
      case Cmp(_, l, r) => assert Child(e, 0) == l && Child(e, 1) == r; SubstEval(l, sub, w, env, inner); SubstEval(r, sub, w, env, inner);
    }
  }

  /** A placed expression has the histories of its variables put into it. */
  ghost predicate Bound(e: Expr, defs: seq<Def>, leaf: nat -> nat, sub: nat -> Expr)
  {
    (e.Var? ==> Unrolls(defs, leaf(e.id), sub(e.id))) && forall i: nat | i < Arity(e) :: Bound(Child(e, i), defs, leaf, sub)
  }

  /** The definitions placed after the first `n` are kept. */
  predicate KeepsNew(n: nat, more: seq<Def>, defs: seq<Def>) {
    |more| <= |defs| && forall u | n <= u < |more| :: defs[u] == more[u]
  }

  lemma {:induction false} PutGrows(defs: seq<Def>, e: Expr)
    ensures defs <= Put(defs, e).0 && Put(defs, e).1.Var?
    decreases e, 1
  {
    if !e.Var? {
      PutChildrenGrows(defs, e);
    }
  }

  lemma {:induction false} PutChildrenGrows(defs: seq<Def>, e: Expr)
    ensures defs <= PutChildren(defs, e).0
    decreases e, 0
  {
    if Arity(e) >= 1 {
      PutGrows(defs, Child(e, 0));
      var one := Put(defs, Child(e, 0)).0;
      if Arity(e) >= 2 {
        PutGrows(one, Child(e, 1));
        if Arity(e) == 3 {
          PutGrows(Put(one, Child(e, 1)).0, Child(e, 2));
        }
      }
    }
  }

  lemma SubstChildren(e: Expr, leaf: nat -> nat, sub: nat -> Expr)
    requires !e.Var?
    ensures SameOp(e, Subst(e, sub)) && Arity(Subst(e, sub)) == Arity(e)
    ensures forall i: nat | i < Arity(e) :: Child(Subst(e, sub), i) == Subst(Child(e, i), sub)
  {
  }

  /** The value placed for an expression has its history. */
  lemma {:induction false} PutUnrolls(defs: seq<Def>, e: Expr, leaf: nat -> nat, sub: nat -> Expr, all: seq<Def>)
    requires KeepsNew(|defs|, Put(defs, Rename(e, leaf)).0, all) && Bound(e, all, leaf, sub)
    ensures Put(defs, Rename(e, leaf)).1.Var? && Unrolls(all, Put(defs, Rename(e, leaf)).1.id, Subst(e, sub))
    decreases e, 1
  {
    if !e.Var? {
      RenameKeeps(e, leaf);
      PutChildrenGrows(defs, Rename(e, leaf));
      var (more, flat) := PutChildren(defs, Rename(e, leaf));
      assert Put(defs, Rename(e, leaf)) == (more + [Node(flat)], Var(|more|, Width(Rename(e, leaf))));
      assert all[|more|] == Node(flat);
      PutChildrenUnrolls(defs, e, leaf, sub, all);
      SubstChildren(e, leaf, sub);
    }
  }

  /** The root refers to values with the histories of the operands. */
  ghost predicate RootUnrolls(defs: seq<Def>, flat: Expr, e: Expr) {
    SameOp(flat, e) && forall i: nat | i < Arity(e) :: Child(flat, i).Var? && Unrolls(defs, Child(flat, i).id, Child(e, i))
  }

  lemma {:induction false} PutChildrenUnrolls(defs: seq<Def>, e: Expr, leaf: nat -> nat, sub: nat -> Expr, all: seq<Def>)
    requires KeepsNew(|defs|, PutChildren(defs, Rename(e, leaf)).0, all) && Bound(e, all, leaf, sub) && !e.Var?
    ensures RootUnrolls(all, PutChildren(defs, Rename(e, leaf)).1, Subst(e, sub))
    decreases e, 0
  {
    var r := Rename(e, leaf);
    RenameKeeps(e, leaf);
    SubstChildren(e, leaf, sub);
    if Arity(e) >= 1 {
      var (one, a) := Put(defs, Child(r, 0));
      PutGrows(defs, Child(r, 0));
      WithChildShape(r, 0, a);
      if Arity(e) >= 2 {
        var (two, b) := Put(one, Child(r, 1));
        PutGrows(one, Child(r, 1));
        WithChildShape(WithChild(r, 0, a), 1, b);
        if Arity(e) == 3 {
          var (three, d) := Put(two, Child(r, 2));
          PutGrows(two, Child(r, 2));
          WithChildShape(WithChild(WithChild(r, 0, a), 1, b), 2, d);
          PutUnrolls(two, Child(e, 2), leaf, sub, all);
        }
        PutUnrolls(one, Child(e, 1), leaf, sub, all);
      }
      PutUnrolls(defs, Child(e, 0), leaf, sub, all);
    }
    RootSameOp(defs, e, leaf, sub);
  }

  lemma RootSameOp(defs: seq<Def>, e: Expr, leaf: nat -> nat, sub: nat -> Expr)
    requires !e.Var?
    ensures SameOp(PutChildren(defs, Rename(e, leaf)).1, Subst(e, sub))
  {
  }

  // ----- operations that stay -----

  /** The same operation on other operands. */
  function Rebuild(e: Expr, f: nat -> Expr): Expr {
    match e
    case Var(_, _) => e
    case Const(_, _) => e
    case Ext(k, to, _) => Ext(k, to, f(0))
    case Trunc(to, _) => Trunc(to, f(0))
    case Bin(op, _, _) => Bin(op, f(0), f(1))
    case Select(_, _, _) => Select(f(0), f(1), f(2))
    case Shr(arithmetic, _, _) => Shr(arithmetic, f(0), f(1))
    case Cmp(p, _, _) => Cmp(p, f(0), f(1))
    case Forward(_) => Forward(f(0))
    case Steered(p, _, _) => Steered(p, f(1), f(0))
  }

  lemma RebuildIs(e: Expr, f: nat -> Expr)
    ensures Arity(Rebuild(e, f)) == Arity(e) && forall i: nat | i < Arity(e) :: Child(Rebuild(e, f), i) == f(i)
    ensures !e.Var? ==> SameOp(e, Rebuild(e, f))
    ensures Rebuild(e, f) == if Arity(e) == 0 then e
                             else if Arity(e) == 1 then WithChild(e, 0, f(0))
                             else if Arity(e) == 2 then WithChild(WithChild(e, 0, f(0)), 1, f(1))
                             else WithChild(WithChild(WithChild(e, 0, f(0)), 1, f(1)), 2, f(2))
  {
  }

  lemma WithChildSame(e: Expr, i: nat, x: Expr)
    requires WellTyped(e) && i < Arity(e) && WellTyped(Child(e, i)) && SameMeaning(Child(e, i), x)
    ensures SameMeaning(e, WithChild(e, i, x))
  {
    forall env: Env ensures Replaces(e, WithChild(e, i, x), env) {
      assert Replaces(Child(e, i), x, env);
      WithChildOk(e, i, x, env);
    }
    var env: Env := n => 0;
    assert Replaces(e, WithChild(e, i, x), env);
  }

  lemma RebuildSame(e: Expr, f: nat -> Expr)
    requires WellTyped(e) && forall i: nat | i < Arity(e) :: WellTyped(Child(e, i)) && SameMeaning(Child(e, i), f(i))
    ensures SameMeaning(e, Rebuild(e, f))
  {
    RebuildIs(e, f);
    if Arity(e) >= 1 {
      var one := WithChild(e, 0, f(0));
      WithChildSame(e, 0, f(0));
      WithChildShape(e, 0, f(0));
      if Arity(e) >= 2 {
        var two := WithChild(one, 1, f(1));
        WithChildSame(one, 1, f(1));
        WithChildShape(one, 1, f(1));
        SameMeaningTransitive(e, one, two);
        if Arity(e) == 3 {
          WithChildSame(two, 2, f(2));
          SameMeaningTransitive(e, two, WithChild(two, 2, f(2)));
        }
      }
    }
  }

  lemma TruncSame(to: nat, a: Expr, f: Expr, k: nat)
    requires WellTyped(Trunc(to, a)) && SameLow(a, f, k) && to <= k
    ensures SameMeaning(Trunc(to, a), Trunc(to, f))
  {
    forall env: Env ensures Replaces(Trunc(to, a), Trunc(to, f), env) {
      assert ReplacesLow(a, f, k, env);
      WrapWrap(Eval(a, env), to, k);
      WrapWrap(Eval(f, env), to, k);
    }
  }

  /** Which values are rewritten, and how many of their low bits are kept. */
  datatype Narrowing = Narrowing(values: set<nat>, k: nat, exact: bool)

  ghost predicate Kept(n: Narrowing, v: nat, e: Expr, f: Expr)
    requires WellTyped(e)
  {
    if v in n.values && !n.exact then SameLow(e, f, n.k) else SameMeaning(e, f)
  }

  /** Unless everything is kept, rewritten values are used only by truncations to what is kept. */
  ghost predicate UsersAgree(defs: seq<Def>, n: Narrowing) {
    n.exact || forall u | 0 <= u < |defs| :: UserAgrees(defs[u], n)
  }

  predicate UserAgrees(d: Def, n: Narrowing) {
    match d
    case Source(_, _, _) => true
    case Choice(_, data, _, kind) => (forall x | x in data :: x !in n.values) && (!kind.Single? ==> kind.control !in n.values)
    case Node(f) => forall i: nat | i < Arity(f) && Child(f, i).Var? && Child(f, i).id in n.values :: f.Trunc? && f.to <= n.k
  }

  /** An operation that is not rewritten, on operands of which what it uses is kept. */
  lemma Congruence(c: Circuit, n: Narrowing, v: nat, e: Expr, f: nat -> Expr, all: seq<Def>)
    requires AllGood(c.defs) && Unrolls(c.defs, v, e) && c.defs[v].Node? && UsersAgree(c.defs, n)
    requires v < |all| && all[v] == c.defs[v]
    requires forall i: nat | i < Arity(e) :: Unrolls(all, Child(c.defs[v].e, i).id, f(i))
    requires forall i: nat | i < Arity(e) :: WellTyped(Child(e, i)) && Kept(n, Child(c.defs[v].e, i).id, Child(e, i), f(i))
    ensures WellTyped(e) && Unrolls(all, v, Rebuild(e, f)) && SameMeaning(e, Rebuild(e, f))
  {
    var g := c.defs[v].e;
    UnrollTyped(c.defs, v, e);
    RebuildIs(e, f);
    assert GoodDef(c.defs, c.defs[v]);
    ChildrenAreRefs(c.defs, g);
    if n.exact || forall i: nat | i < Arity(g) :: Child(g, i).id !in n.values {
      RebuildSame(e, f);
    } else {
      assert UserAgrees(c.defs[v], n);
      assert g.Trunc? && e.Trunc? && Child(e, 0) == e.arg && Child(g, 0) == g.arg;
      TruncSame(e.to, e.arg, f(0), n.k);
    }
  }
}
