/** Every history of a circuit has a counterpart after a rewrite. */
module CircuitTranslation {
  import opened Basics
  import opened Words
  import opened Transfer
  import opened Expressions
  import opened RewriteSound
  import opened PatternCosts
  import opened Circuits
  import opened CircuitSteps
  import opened CircuitShrinks
  import opened CircuitMeaning
  import opened CircuitKeeps
  import opened CircuitForwarders

  /** An operation is replaced, or a forwarding operation narrowed. */
  datatype Rewriting = Operation(v: nat, behind: bool, r: Expr) | Forwarding(op: nat, t: ExtWidth)

  ghost predicate IsSound(c: Circuit, s: Rewriting, n: Narrowing) {
    match s
    case Operation(v, behind, r) => IsRewrite(c, v, behind, r, n)
    case Forwarding(op, t) => IsNarrowing(c, op, t, n)
  }

  ghost function Result(c: Circuit, s: Rewriting, n: Narrowing): Circuit
    requires IsSound(c, s, n)
  {
    match s
    case Operation(v, _, r) => Rewritten(c, v, r)
    case Forwarding(op, t) => NarrowForwarder(c, op, t)
  }

  lemma ResultValid(c: Circuit, s: Rewriting, n: Narrowing)
    requires IsSound(c, s, n)
    ensures Valid(Result(c, s, n)) && SameWidths(c.defs, Result(c, s, n).defs) && Result(c, s, n).outputs == c.outputs
  {
    match s
    case Operation(v, behind, r) => RewrittenIs(c, v, behind, r, n);
    case Forwarding(op, t) => NarrowForwarderValid(c, op, t); var d, rs, more, narrow := NarrowForwarderIs(c, op, t);
  }

  lemma StaysSame(c: Circuit, s: Rewriting, n: Narrowing, v: nat)
    requires IsSound(c, s, n) && v < |c.defs| && v !in n.values
    ensures v < |Result(c, s, n).defs| && Result(c, s, n).defs[v] == c.defs[v]
  {
    match s
    case Operation(u, behind, r) => RewrittenIs(c, u, behind, r, n);
    case Forwarding(op, t) =>
      var d, rs, more, narrow := NarrowForwarderIs(c, op, t);
      assert v !in rs;
      assert more[v] == c.defs[v];
  }

  lemma DataNotNarrowed(defs: seq<Def>, v: nat, j: nat, n: Narrowing)
    requires UsersAgree(defs, n) && !n.exact && v < |defs| && defs[v].Choice? && j < |defs[v].data|
    ensures defs[v].data[j] !in n.values && (!defs[v].kind.Single? ==> defs[v].kind.control !in n.values)
  {
    assert UserAgrees(defs[v], n);
    assert defs[v].data[j] in defs[v].data;
  }

  lemma HandedOnSame(e: Expr, control: Expr, a: Expr)
    requires WellTyped(e) && IsRouted(e) && SameMeaning(e.arg, a) && (e.Steered? ==> SameMeaning(e.control, control))
    ensures SameMeaning(e, HandOn(e, control, a))
  {
    assert Child(e, 0) == e.arg;
    if e.Steered? {
      assert Child(e, 1) == e.control;
    }
    RebuildSame(e, Three(a, control, a));
  }

  /** An operation that is not rewritten has its results in the same order. */
  lemma PortStays(c: Circuit, s: Rewriting, n: Narrowing, v: nat)
    requires IsSound(c, s, n) && v < |c.defs| && v !in n.values && c.defs[v].Choice?
    ensures v < |Result(c, s, n).defs| && Result(c, s, n).defs[v] == c.defs[v]
    ensures forall j: nat :: Port(Result(c, s, n).defs, v, j) == Port(c.defs, v, j)
  {
    StaysSame(c, s, n, v);
    var all, op := Result(c, s, n).defs, c.defs[v].op;
    forall u: nat | u < v ensures IsResult(c.defs, op, u) <==> IsResult(all, op, u) {
      if u in n.values {
        RewrittenIsNode(c, s, n, u);
      } else {
        StaysSame(c, s, n, u);
      }
    }
    EarlierStays(c.defs, all, op, v);
  }

  lemma RewrittenIsNode(c: Circuit, s: Rewriting, n: Narrowing, u: nat)
    requires IsSound(c, s, n) && u in n.values
    ensures u < |c.defs| && u < |Result(c, s, n).defs| && Result(c, s, n).defs[u].Node?
    ensures forall op, v: nat | v !in n.values && IsResult(c.defs, op, v) :: !IsResult(c.defs, op, u)
  {
    match s
    case Operation(v, behind, r) => RewrittenIs(c, v, behind, r, n);
    case Forwarding(op, t) =>
      var d, rs, more, narrow := NarrowForwarderIs(c, op, t);
      var y, other := ResultIs(c, op, t, u);
  }

  function Three(a: Expr, b: Expr, c: Expr): nat -> Expr {
    (i: nat) => if i == 0 then a else if i == 1 then b else c
  }

  /** Every history has a counterpart in the rewritten circuit, which yields the same token, or at narrowed values the low bits
      their users need, whatever the sources deliver. */
  lemma {:induction false} Translate(c: Circuit, s: Rewriting, n: Narrowing, v: nat, e: Expr) returns (f: Expr)
    requires IsSound(c, s, n) && Unrolls(c.defs, v, e)
    ensures WellTyped(e) && Unrolls(Result(c, s, n).defs, v, f) && Kept(n, v, e, f)
    decreases e, 3
  {
    UnrollTyped(c.defs, v, e);
    if c.defs[v].Source? {
      NotRewritten(c, s, n, v);
      StaysSame(c, s, n, v);
      f := e;
    } else if c.defs[v].Choice? {
      if v in n.values {
        f := TranslateResult(c, s, n, v, e);
      } else {
        f := TranslateChoice(c, s, n, v, e);
      }
    } else if v in n.values {
      f := TranslateRewritten(c, s, n, v, e);
    } else {
      f := TranslateNode(c, s, n, v, e);
    }
  }

  lemma NotRewritten(c: Circuit, s: Rewriting, n: Narrowing, v: nat)
    requires IsSound(c, s, n) && v < |c.defs| && c.defs[v].Source?
    ensures v !in n.values
  {
  }

  lemma {:induction false} TranslateNode(c: Circuit, s: Rewriting, n: Narrowing, v: nat, e: Expr) returns (f: Expr)
    requires IsSound(c, s, n) && Unrolls(c.defs, v, e) && c.defs[v].Node? && v !in n.values && WellTyped(e)
    ensures Unrolls(Result(c, s, n).defs, v, f) && Kept(n, v, e, f)
    decreases e, 2
  {
    var g := TranslateOperands(c, s, n, v, e);
    StaysSame(c, s, n, v);
    SoundAgrees(c, s, n);
    Congruence(c, n, v, e, g, Result(c, s, n).defs);
    f := Rebuild(e, g);
  }

  lemma {:induction false} TranslateOperands(c: Circuit, s: Rewriting, n: Narrowing, v: nat, e: Expr) returns (f: nat -> Expr)
    requires IsSound(c, s, n) && Unrolls(c.defs, v, e) && c.defs[v].Node?
    ensures Arity(e) == Arity(c.defs[v].e)
    ensures forall i: nat | i < Arity(e) :: OperandAnswered(c, s, n, v, e, i, f(i))
    decreases e, 1
  {
    assert SameOp(c.defs[v].e, e) && Arity(e) <= 3;
    var x, y, z := e, e, e;
    if Arity(e) >= 1 { x := TranslateOperand(c, s, n, v, e, 0); }
    if Arity(e) >= 2 { y := TranslateOperand(c, s, n, v, e, 1); }
    if Arity(e) >= 3 { z := TranslateOperand(c, s, n, v, e, 2); }
    f := Three(x, y, z);
    forall i: nat | i < Arity(e) ensures OperandAnswered(c, s, n, v, e, i, f(i)) {
      assert i == 0 || i == 1 || i == 2;
    }
  }

  ghost predicate OperandAnswered(c: Circuit, s: Rewriting, n: Narrowing, v: nat, e: Expr, i: nat, f: Expr)
    requires IsSound(c, s, n) && v < |c.defs| && c.defs[v].Node? && i < Arity(e) && i < Arity(c.defs[v].e)
  {
    && Child(c.defs[v].e, i).Var? && Unrolls(Result(c, s, n).defs, Child(c.defs[v].e, i).id, f)
    && WellTyped(Child(e, i)) && Kept(n, Child(c.defs[v].e, i).id, Child(e, i), f)
  }

  lemma SoundAgrees(c: Circuit, s: Rewriting, n: Narrowing)
    requires IsSound(c, s, n)
    ensures AllGood(c.defs) && UsersAgree(c.defs, n)
  {
  }

  lemma {:induction false} TranslateOperand(c: Circuit, s: Rewriting, n: Narrowing, v: nat, e: Expr, i: nat) returns (f: Expr)
    requires IsSound(c, s, n) && Unrolls(c.defs, v, e) && c.defs[v].Node? && i < Arity(e) && i < Arity(c.defs[v].e)
    ensures OperandAnswered(c, s, n, v, e, i, f)
    decreases e, 0
  {
    f := Translate(c, s, n, Child(c.defs[v].e, i).id, Child(e, i));
  }

  lemma {:induction false} TranslateChoice(c: Circuit, s: Rewriting, n: Narrowing, v: nat, e: Expr) returns (f: Expr)
    requires IsSound(c, s, n) && Unrolls(c.defs, v, e) && c.defs[v].Choice? && v !in n.values && WellTyped(e)
    ensures Unrolls(Result(c, s, n).defs, v, f) && Kept(n, v, e, f)
    decreases e, 2
  {
    var j := HandedOn(c.defs, v, e);
    var a := Translate(c, s, n, c.defs[v].data[j], e.arg);
    var control := TranslateControl(c, s, n, v, e);
    if !n.exact {
      DataNotNarrowed(c.defs, v, j, n);
    }
    PortStays(c, s, n, v);
    HandedOnSame(e, control, a);
    f := HandOn(e, control, a);
    assert HandsOn(Result(c, s, n).defs, v, f, j);
  }

  lemma {:induction false} TranslateControl(c: Circuit, s: Rewriting, n: Narrowing, v: nat, e: Expr) returns (f: Expr)
    requires IsSound(c, s, n) && Unrolls(c.defs, v, e) && c.defs[v].Choice?
    ensures e.Steered? ==> !c.defs[v].kind.Single? && Unrolls(Result(c, s, n).defs, c.defs[v].kind.control, f)
    ensures e.Steered? ==> WellTyped(e.control) && SameMeaning(e.control, f)
    decreases e, 1
  {
    f := e;
    var j := HandedOn(c.defs, v, e);
    if e.Steered? {
      if !n.exact {
        DataNotNarrowed(c.defs, v, j, n);
      }
      f := Translate(c, s, n, c.defs[v].kind.control, e.control);
    }
  }

  lemma {:induction false} TranslateRewritten(c: Circuit, s: Rewriting, n: Narrowing, v: nat, e: Expr) returns (f: Expr)
    requires IsSound(c, s, n) && Unrolls(c.defs, v, e) && c.defs[v].Node? && v in n.values && WellTyped(e)
    ensures Unrolls(Result(c, s, n).defs, v, f) && Kept(n, v, e, f)
    decreases e, 2
  {
    assert s.Operation? && s.v == v;
    var g := TranslateLeaves(c, s, n, e);
    RewrittenUnrolls(c, v, s.behind, s.r, n, e, g);
    RewrittenSame(c, v, s.behind, s.r, n, e, g);
    f := Subst(s.r, g);
  }

  lemma {:induction false} TranslateLeaves(c: Circuit, s: Rewriting, n: Narrowing, e: Expr) returns (f: nat -> Expr)
    requires IsSound(c, s, n) && s.Operation? && Unrolls(c.defs, s.v, e)
    ensures Arity(e) == Arity(c.defs[s.v].e)
    ensures forall i: nat | i < Arity(e) :: LeafAnswered(c, s, n, e, i, f(i))
    decreases e, 1
  {
    assert SameOp(c.defs[s.v].e, e) && Arity(e) <= 3;
    var x, y, z := e, e, e;
    if Arity(e) >= 1 { x := TranslateLeaf(c, s, n, e, 0); }
    if Arity(e) >= 2 { y := TranslateLeaf(c, s, n, e, 1); }
    if Arity(e) >= 3 { z := TranslateLeaf(c, s, n, e, 2); }
    f := Three(x, y, z);
    forall i: nat | i < Arity(e) ensures LeafAnswered(c, s, n, e, i, f(i)) {
      assert i == 0 || i == 1 || i == 2;
    }
  }

  ghost predicate LeafAnswered(c: Circuit, s: Rewriting, n: Narrowing, e: Expr, i: nat, f: Expr)
    requires IsSound(c, s, n) && s.Operation? && i < Arity(e)
  {
    && Unrolls(Result(c, s, n).defs, Leaf(c.defs, s.v, i), f)
    && WellTyped(SubOf(c.defs, s.v, e, i)) && SameMeaning(SubOf(c.defs, s.v, e, i), f)
  }

  lemma {:induction false} TranslateLeaf(c: Circuit, s: Rewriting, n: Narrowing, e: Expr, i: nat) returns (f: Expr)
    requires IsSound(c, s, n) && s.Operation? && Unrolls(c.defs, s.v, e) && i < Arity(e)
    ensures LeafAnswered(c, s, n, e, i, f)
    decreases e, 0
  {
    assert SameOp(c.defs[s.v].e, e);
    SubUnrolls(c.defs, s.v, e, i);
    if !n.exact {
      LeafNotNarrowed(c.defs, s.v, i, n);
    }
    f := Translate(c, s, n, Leaf(c.defs, s.v, i), SubOf(c.defs, s.v, e, i));
  }

  lemma {:induction false} TranslateResult(c: Circuit, s: Rewriting, n: Narrowing, v: nat, e: Expr) returns (f: Expr)
    requires IsSound(c, s, n) && Unrolls(c.defs, v, e) && c.defs[v].Choice? && v in n.values && WellTyped(e)
    ensures Unrolls(Result(c, s, n).defs, v, f) && Kept(n, v, e, f)
    decreases e, 2
  {
    assert s.Forwarding? && v in Results(c.defs, s.op, |c.defs|);
    var d := ForwarderDef(c.defs, s.op);
    assert c.defs[v] == d;
    var j := HandedOn(c.defs, v, e);
    LeafWidthIs(c.defs, d.data[j], e.arg);
    if !n.exact {
      DataNotNarrowed(c.defs, v, j, n);
      BehindNotNarrowed(c.defs, d.data[j], n);
    }
    var a := Translate(c, s, n, OperandLeaf(c.defs, d.data[j]), Behind(c.defs, d.data[j], e.arg));
    var control := TranslateControl(c, s, n, v, e);
    ForwarderUnrolls(c, s.op, s.t, v, e, j, control, a);
    ForwarderSame(c, s.op, s.t, n, v, j, e, control, a);
    f := NarrowHistory(c, s.op, s.t, j, e, control, a);
  }

  lemma BehindNotNarrowed(defs: seq<Def>, x: nat, n: Narrowing)
    requires AllGood(defs) && UsersAgree(defs, n) && !n.exact && x < |defs| && x !in n.values
    ensures OperandLeaf(defs, x) !in n.values
  {
    assert GoodDef(defs, defs[x]) && UserAgrees(defs[x], n);
    if IsExtension(defs, x) {
      assert Child(defs[x].e, 0) == defs[x].e.arg;
    }
  }
}
