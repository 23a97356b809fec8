/** From the history of what a rewrite has placed in a circuit back to the histories of what it reads. */
module CircuitMatches {
  import opened Basics
  import opened Expressions
  import opened RewriteSound
  import opened PatternCosts
  import opened Circuits
  import opened CircuitSteps
  import opened CircuitShrinks
  import opened CircuitMeaning

  // ----- variables of an expression -----

  predicate Uses(e: Expr, i: nat) {
    (e.Var? && e.id == i) || exists j: nat | j < Arity(e) :: Uses(Child(e, j), i)
  }

  /** No variable occurs twice. */
  ghost predicate Linear(e: Expr) {
    && (forall j: nat | j < Arity(e) :: Linear(Child(e, j)))
    && forall j: nat, k: nat, i: nat | j < k < Arity(e) :: !(Uses(Child(e, j), i) && Uses(Child(e, k), i))
  }

  /** The part of `f` at the place of a variable of `r`. */
  function Grab(r: Expr, f: Expr, i: nat): (g: Expr)
    ensures g == f || g < f
    decreases f
  {
    if r.Var? || Arity(f) != Arity(r) then f
    else if Arity(r) >= 1 && Uses(Child(r, 0), i) then Grab(Child(r, 0), Child(f, 0), i)
    else if Arity(r) >= 2 && Uses(Child(r, 1), i) then Grab(Child(r, 1), Child(f, 1), i)
    else if Arity(r) >= 3 && Uses(Child(r, 2), i) then Grab(Child(r, 2), Child(f, 2), i)
    else f
  }

  function GrabAll(r: Expr, f: Expr): nat -> Expr {
    (i: nat) => Grab(r, f, i)
  }

  lemma {:induction false} SubstSame(e: Expr, sub: nat -> Expr, other: nat -> Expr)
    requires forall i: nat | Uses(e, i) :: sub(i) == other(i)
    ensures Subst(e, sub) == Subst(e, other)
  {
    forall j: nat | j < Arity(e) ensures Subst(Child(e, j), sub) == Subst(Child(e, j), other) {
      SubstSame(Child(e, j), sub, other);
    }
    if !e.Var? {
      SubstParts(e, sub, other);
    } else {
      assert Uses(e, e.id);
    }
  }

  /** Operations are the same if their operands are. */
  lemma SameParts(e: Expr, f: Expr)
    requires SameOp(e, f) && forall j: nat | j < Arity(e) :: Child(e, j) == Child(f, j)
    ensures e == f
  {
    match e {
      case Const(_, _) =>
      case Ext(_, _, a) => assert Child(e, 0) == a && Child(f, 0) == f.arg;
      case Trunc(_, a) => assert Child(e, 0) == a && Child(f, 0) == f.arg;
      case Bin(_, l, r) => assert Child(e, 0) == l && Child(e, 1) == r && Child(f, 0) == f.lhs && Child(f, 1) == f.rhs;
      case Select(c, t, x) =>
        assert Child(e, 0) == c && Child(e, 1) == t && Child(e, 2) == x;
        assert Child(f, 0) == f.cond && Child(f, 1) == f.onTrue && Child(f, 2) == f.onFalse;
      case Shr(_, l, r) => assert Child(e, 0) == l && Child(e, 1) == r && Child(f, 0) == f.lhs && Child(f, 1) == f.amount;
      case Cmp(_, l, r) => assert Child(e, 0) == l && Child(e, 1) == r && Child(f, 0) == f.lhs && Child(f, 1) == f.rhs;
      case Forward(a) => assert Child(e, 0) == a && Child(f, 0) == f.arg;
      case Steered(_, c, a) => assert Child(e, 0) == a && Child(e, 1) == c && Child(f, 0) == f.arg && Child(f, 1) == f.control;
    }
  }

  lemma SubstParts(e: Expr, sub: nat -> Expr, other: nat -> Expr)
    requires !e.Var? && forall j: nat | j < Arity(e) :: Subst(Child(e, j), sub) == Subst(Child(e, j), other)
    ensures Subst(e, sub) == Subst(e, other)
  {
    SubstChildren(e, n => n, sub);
    SubstChildren(e, n => n, other);
    SameParts(Subst(e, sub), Subst(e, other));
  }

  // ----- matching -----

  /** `f` is `r` with histories at the places of its variables. */
  ghost predicate Matches(r: Expr, f: Expr, all: seq<Def>, leaf: nat -> nat) {
    if r.Var? then Unrolls(all, leaf(r.id), f)
    else SameOp(r, f) && forall j: nat | j < Arity(r) :: Matches(Child(r, j), Child(f, j), all, leaf)
  }

  lemma SameArity(r: Expr, f: Expr)
    requires SameOp(r, f)
    ensures Arity(r) == Arity(f) && !r.Var? && !f.Var?
  {
  }

  lemma {:induction false} GrabUnrolls(r: Expr, f: Expr, all: seq<Def>, leaf: nat -> nat, i: nat)
    requires Matches(r, f, all, leaf) && Uses(r, i)
    ensures Unrolls(all, leaf(i), Grab(r, f, i)) && (!r.Var? ==> Grab(r, f, i) < f)
  {
    if !r.Var? {
      SameArity(r, f);
      if Uses(Child(r, 0), i) {
        GrabUnrolls(Child(r, 0), Child(f, 0), all, leaf, i);
      } else if Uses(Child(r, 1), i) {
        GrabUnrolls(Child(r, 1), Child(f, 1), all, leaf, i);
      } else {
        GrabUnrolls(Child(r, 2), Child(f, 2), all, leaf, i);
      }
    }
  }

  lemma {:induction false} GrabDefined(r: Expr, f: Expr, i: nat, env: Env)
    requires WellTyped(f) && Defined(f, env)
    ensures WellTyped(Grab(r, f, i)) && Defined(Grab(r, f, i), env)
    decreases f
  {
    if !r.Var? && Arity(f) == Arity(r) {
      forall j: nat | j < Arity(f) ensures WellTyped(Grab(Child(r, j), Child(f, j), i)) && Defined(Grab(Child(r, j), Child(f, j), i), env) {
        ChildrenTyped(f, j);
        ChildDefined(f, j, env);
        GrabDefined(Child(r, j), Child(f, j), i, env);
      }
    }
  }

  lemma ChildDefined(f: Expr, j: nat, env: Env)
    requires WellTyped(f) && Defined(f, env) && j < Arity(f)
    ensures WellTyped(Child(f, j)) && Defined(Child(f, j), env)
  {
  }

  /** What a variable of one operand is in the whole. */
  lemma GrabOfChild(r: Expr, f: Expr, j: nat, i: nat)
    requires Linear(r) && !r.Var? && Arity(f) == Arity(r) && j < Arity(r) && Uses(Child(r, j), i)
    ensures Grab(r, f, i) == Grab(Child(r, j), Child(f, j), i)
  {
    assert forall k: nat | k < j :: !(Uses(Child(r, k), i) && Uses(Child(r, j), i));
  }

  /** Without repetitions, what matches is made by putting in what is at the variables' places. */
  lemma {:induction false} MatchedIsSubst(r: Expr, f: Expr, all: seq<Def>, leaf: nat -> nat)
    requires Matches(r, f, all, leaf) && Linear(r)
    ensures f == Subst(r, GrabAll(r, f))
  {
    if !r.Var? {
      SameArity(r, f);
      var sub := GrabAll(r, f);
      SubstChildren(r, leaf, sub);
      forall j: nat | j < Arity(r) ensures Child(f, j) == Child(Subst(r, sub), j) {
        MatchedIsSubst(Child(r, j), Child(f, j), all, leaf);
        forall i: nat | Uses(Child(r, j), i) ensures sub(i) == GrabAll(Child(r, j), Child(f, j))(i) {
          GrabOfChild(r, f, j, i);
        }
        SubstSame(Child(r, j), sub, GrabAll(Child(r, j), Child(f, j)));
      }
      SameOpShared(r, f, Subst(r, sub));
      SameParts(f, Subst(r, sub));
    }
  }

  lemma SameOpShared(r: Expr, e: Expr, f: Expr)
    requires SameOp(r, e) && SameOp(r, f)
    ensures SameOp(e, f)
  {
  }

  // ----- what has been placed -----

  lemma {:induction false} PutMatches(defs: seq<Def>, r: Expr, leaf: nat -> nat, f: Expr, all: seq<Def>)
    requires KeepsNew(|defs|, Put(defs, Rename(r, leaf)).0, all)
    requires Put(defs, Rename(r, leaf)).1.Var? && Unrolls(all, Put(defs, Rename(r, leaf)).1.id, f)
    ensures Matches(r, f, all, leaf)
    decreases r, 1
  {
    if !r.Var? {
      RenameKeeps(r, leaf);
      PutChildrenGrows(defs, Rename(r, leaf));
      var (more, flat) := PutChildren(defs, Rename(r, leaf));
      assert Put(defs, Rename(r, leaf)) == (more + [Node(flat)], Var(|more|, Width(Rename(r, leaf))));
      assert all[|more|] == Node(flat);
      PutChildrenMatches(defs, r, leaf, f, all);
    }
  }

  lemma {:induction false} PutChildrenMatches(defs: seq<Def>, r: Expr, leaf: nat -> nat, f: Expr, all: seq<Def>)
    requires KeepsNew(|defs|, PutChildren(defs, Rename(r, leaf)).0, all) && !r.Var?
    requires RootUnrolls(all, PutChildren(defs, Rename(r, leaf)).1, f)
    ensures Matches(r, f, all, leaf)
    decreases r, 0
  {
    var e := Rename(r, leaf);
    RenameKeeps(r, leaf);
    RootOp(defs, r, leaf, f);
    SameArity(r, f);
    if Arity(r) >= 1 {
      var (one, a) := Put(defs, Child(e, 0));
      PutGrows(defs, Child(e, 0));
      WithChildShape(e, 0, a);
      if Arity(r) >= 2 {
        var (two, b) := Put(one, Child(e, 1));
        PutGrows(one, Child(e, 1));
        WithChildShape(WithChild(e, 0, a), 1, b);
        if Arity(r) == 3 {
          var (three, d) := Put(two, Child(e, 2));
          PutGrows(two, Child(e, 2));
          WithChildShape(WithChild(WithChild(e, 0, a), 1, b), 2, d);
          PutMatches(two, Child(r, 2), leaf, Child(f, 2), all);
        }
        PutMatches(one, Child(r, 1), leaf, Child(f, 1), all);
      }
      PutMatches(defs, Child(r, 0), leaf, Child(f, 0), all);
    }
  }

  lemma RootOp(defs: seq<Def>, r: Expr, leaf: nat -> nat, f: Expr)
    requires !r.Var? && SameOp(PutChildren(defs, Rename(r, leaf)).1, f)
    ensures SameOp(r, f)
  {
  }

  // ----- tokens -----

  /** A history that is possible in the environment. */
  ghost predicate IsToken(defs: seq<Def>, v: nat, env: Env, e: Expr) {
    Unrolls(defs, v, e) && WellTyped(e) && Defined(e, env)
  }

  /** Some token can be on the value. */
  ghost predicate Carries(defs: seq<Def>, v: nat, env: Env) {
    exists e :: IsToken(defs, v, env, e)
  }

  ghost predicate NewCarry(n: nat, more: seq<Def>, all: seq<Def>, env: Env) {
    forall u: nat | n <= u < |more| :: Carries(all, u, env)
  }

  /** If a token is on the value placed for an expression, some are on all values placed for it. */
  lemma {:induction false} PutCarries(defs: seq<Def>, r: Expr, leaf: nat -> nat, f: Expr, all: seq<Def>, env: Env)
    requires KeepsNew(|defs|, Put(defs, Rename(r, leaf)).0, all)
    requires Put(defs, Rename(r, leaf)).1.Var? && IsToken(all, Put(defs, Rename(r, leaf)).1.id, env, f)
    ensures NewCarry(|defs|, Put(defs, Rename(r, leaf)).0, all, env)
    decreases r, 1
  {
    if !r.Var? {
      RenameKeeps(r, leaf);
      PutChildrenGrows(defs, Rename(r, leaf));
      var (more, flat) := PutChildren(defs, Rename(r, leaf));
      assert Put(defs, Rename(r, leaf)) == (more + [Node(flat)], Var(|more|, Width(Rename(r, leaf))));
      assert all[|more|] == Node(flat);
      PutChildrenCarry(defs, r, leaf, f, all, env);
    }
  }

  lemma {:induction false} PutChildrenCarry(defs: seq<Def>, r: Expr, leaf: nat -> nat, f: Expr, all: seq<Def>, env: Env)
    requires KeepsNew(|defs|, PutChildren(defs, Rename(r, leaf)).0, all) && !r.Var?
    requires RootUnrolls(all, PutChildren(defs, Rename(r, leaf)).1, f) && WellTyped(f) && Defined(f, env)
    ensures NewCarry(|defs|, PutChildren(defs, Rename(r, leaf)).0, all, env)
    decreases r, 0
  {
    var e := Rename(r, leaf);
    RenameKeeps(r, leaf);
    RootOp(defs, r, leaf, f);
    SameArity(r, f);
    forall j: nat | j < Arity(f) ensures WellTyped(Child(f, j)) && Defined(Child(f, j), env) {
      ChildDefined(f, j, env);
    }
    if Arity(r) >= 1 {
      var (one, a) := Put(defs, Child(e, 0));
      PutGrows(defs, Child(e, 0));
      WithChildShape(e, 0, a);
      if Arity(r) >= 2 {
        var (two, b) := Put(one, Child(e, 1));
        PutGrows(one, Child(e, 1));
        WithChildShape(WithChild(e, 0, a), 1, b);
        if Arity(r) == 3 {
          var (three, d) := Put(two, Child(e, 2));
          PutGrows(two, Child(e, 2));
          WithChildShape(WithChild(WithChild(e, 0, a), 1, b), 2, d);
          PutCarries(two, Child(r, 2), leaf, Child(f, 2), all, env);
        }
        PutCarries(one, Child(r, 1), leaf, Child(f, 1), all, env);
      }
      PutCarries(defs, Child(r, 0), leaf, Child(f, 0), all, env);
    }
  }

  // ----- shifts -----

  /** No operation in the expression is a shift. */
  predicate NoShift(e: Expr) {
    !e.Shr? && forall j: nat | j < Arity(e) :: NoShift(Child(e, j))
  }

  predicate IsShift(d: Def) {
    d.Node? && d.e.Shr?
  }

  lemma {:induction false} PutNoShift(defs: seq<Def>, r: Expr, leaf: nat -> nat, u: nat)
    requires NoShift(r) && |defs| <= u < |Put(defs, Rename(r, leaf)).0|
    ensures !IsShift(Put(defs, Rename(r, leaf)).0[u])
    decreases r, 1
  {
    if !r.Var? {
      RenameKeeps(r, leaf);
      PutChildrenGrows(defs, Rename(r, leaf));
      var (more, flat) := PutChildren(defs, Rename(r, leaf));
      assert Put(defs, Rename(r, leaf)).0 == more + [Node(flat)];
      FlatNoShift(defs, r, leaf);
      if u < |more| {
        PutChildrenNoShift(defs, r, leaf, u);
      }
    }
  }

  lemma FlatNoShift(defs: seq<Def>, r: Expr, leaf: nat -> nat)
    requires NoShift(r)
    ensures !PutChildren(defs, Rename(r, leaf)).1.Shr?
  {
  }

  lemma {:induction false} PutChildrenNoShift(defs: seq<Def>, r: Expr, leaf: nat -> nat, u: nat)
    requires NoShift(r) && |defs| <= u < |PutChildren(defs, Rename(r, leaf)).0|
    ensures !IsShift(PutChildren(defs, Rename(r, leaf)).0[u])
    decreases r, 0
  {
    var e := Rename(r, leaf);
    RenameKeeps(r, leaf);
    if Arity(r) >= 1 {
      var one := Put(defs, Child(e, 0)).0;
      PutGrows(defs, Child(e, 0));
      if Arity(r) >= 2 {
        var two := Put(one, Child(e, 1)).0;
        PutGrows(one, Child(e, 1));
        if Arity(r) == 3 {
          PutGrows(two, Child(e, 2));
          if |two| <= u {
            PutNoShift(two, Child(r, 2), leaf, u);
          }
        }
        if |one| <= u < |two| {
          PutNoShift(one, Child(r, 1), leaf, u);
        }
      }
      if u < |one| {
        PutNoShift(defs, Child(r, 0), leaf, u);
      }
    }
  }
}
