/** The operands of expressions, and that every rewrite pattern narrows what it matches. */
module PatternCosts {
  import opened Basics
  import opened Words
  import opened Bits
  import opened Transfer
  import opened Scalar
  import opened Expressions
  import opened RewriteSound

  // ----- operands -----

  function Arity(e: Expr): nat {
    match e
    case Var(_, _) => 0
    case Const(_, _) => 0
    case Ext(_, _, _) => 1
    case Trunc(_, _) => 1
    case Bin(_, _, _) => 2
    case Select(_, _, _) => 3
    case Shr(_, _, _) => 2
    case Cmp(_, _, _) => 2
    case Forward(_) => 1
    case Steered(_, _, _) => 2
  }

  function Child(e: Expr, i: nat): (c: Expr)
    requires i < Arity(e)
    ensures c < e
  {
    match e
    case Ext(_, _, a) => a
    case Trunc(_, a) => a
    case Bin(_, l, r) => if i == 0 then l else r
    case Select(c, t, f) => if i == 0 then c else if i == 1 then t else f
    case Shr(_, l, a) => if i == 0 then l else a
    case Cmp(_, l, r) => if i == 0 then l else r
    case Forward(a) => a
    case Steered(_, s, a) => if i == 0 then a else s
  }

  function WithChild(e: Expr, i: nat, c: Expr): Expr
    requires i < Arity(e)
  {
    match e
    case Ext(k, to, _) => Ext(k, to, c)
    case Trunc(to, _) => Trunc(to, c)
    case Bin(op, l, r) => if i == 0 then Bin(op, c, r) else Bin(op, l, c)
    case Select(s, t, f) => if i == 0 then Select(c, t, f) else if i == 1 then Select(s, c, f) else Select(s, t, c)
    case Shr(arithmetic, l, a) => if i == 0 then Shr(arithmetic, c, a) else Shr(arithmetic, l, c)
    case Cmp(p, l, r) => if i == 0 then Cmp(p, c, r) else Cmp(p, l, c)
    case Forward(_) => Forward(c)
    case Steered(port, s, a) => if i == 0 then Steered(port, s, c) else Steered(port, c, a)
  }

  lemma ChildrenTyped(e: Expr, i: nat)
    requires WellTyped(e) && i < Arity(e)
    ensures WellTyped(Child(e, i))
  {
  }

  lemma {:induction false} WithChildOk(e: Expr, i: nat, c: Expr, env: Env)
    requires WellTyped(e) && i < Arity(e)
    requires WellTyped(Child(e, i)) && Replaces(Child(e, i), c, env)
    ensures Replaces(e, WithChild(e, i, c), env)
  {
    match e {
      case Ext(_, _, _) =>
      case Trunc(_, _) =>
      case Bin(_, _, _) => ComputedChildOk(e, i, c, env);
      case Select(_, _, _) => SelectChildOk(e, i, c, env);
      case Shr(_, _, _) => ShiftChildOk(e, i, c, env);
      case Cmp(_, _, _) => ComputedChildOk(e, i, c, env);
      case Forward(_) =>
      case Steered(_, s, a) => if i == 0 { assert Child(e, i) == a; } else { assert Child(e, i) == s; }
    }
  }

  lemma {:induction false} ComputedChildOk(e: Expr, i: nat, c: Expr, env: Env)
    requires WellTyped(e) && (e.Bin? || e.Cmp?) && i < 2
    requires WellTyped(Child(e, i)) && Replaces(Child(e, i), c, env)
    ensures Replaces(e, WithChild(e, i, c), env)
  {
    match e {
      case Bin(_, l, r) => if i == 0 { assert Child(e, i) == l; } else { assert Child(e, i) == r; }
      case Cmp(_, l, r) => if i == 0 { assert Child(e, i) == l; } else { assert Child(e, i) == r; }
    }
  }

  lemma {:induction false} ShiftChildOk(e: Expr, i: nat, c: Expr, env: Env)
    requires WellTyped(e) && e.Shr? && i < 2
    requires Replaces(Child(e, i), c, env)
    ensures Replaces(e, WithChild(e, i, c), env)
  {
    if i == 0 {
      assert Child(e, i) == e.lhs;
    } else {
      assert Child(e, i) == e.amount;
    }
  }

  lemma {:induction false} SelectChildOk(e: Expr, i: nat, c: Expr, env: Env)
    requires WellTyped(e) && e.Select? && i < 3
    requires Replaces(Child(e, i), c, env)
    ensures Replaces(e, WithChild(e, i, c), env)
  {
    if i == 0 {
      assert Child(e, i) == e.cond;
    } else if i == 1 {
      assert Child(e, i) == e.onTrue;
    } else {
      assert Child(e, i) == e.onFalse;
    }
  }

  /** Sums a quantity of the nodes of an expression. */
  function Total(own: Expr -> nat, e: Expr): nat {
    own(e)
    + (if Arity(e) >= 1 then Total(own, Child(e, 0)) else 0)
    + (if Arity(e) >= 2 then Total(own, Child(e, 1)) else 0)
    + (if Arity(e) >= 3 then Total(own, Child(e, 2)) else 0)
  }

  /** The data width of a computing operation. */
  function OwnCompute(e: Expr): nat {
    match e
    case Bin(_, l, _) => Width(l)
    case Select(_, t, _) => Width(t)
    case Shr(_, l, _) => Width(l)
    case Cmp(_, l, _) => Width(l)
    case _ => 0
  }

  /** The input width of a truncation. */
  function OwnTrunc(e: Expr): nat {
    if e.Trunc? then Width(e.arg) else 0
  }

  /** Summed data widths of the computing operations. */
  function ComputeWidth(e: Expr): nat {
    Total(OwnCompute, e)
  }

  /** Summed input widths of the truncations. */
  function TruncWidth(e: Expr): nat {
    Total(OwnTrunc, e)
  }

  lemma ResizeTotals(kind: ExtType, to: nat, a: Expr)
    ensures ComputeWidth(Ext(kind, to, a)) == ComputeWidth(Trunc(to, a)) == ComputeWidth(a)
    ensures TruncWidth(Ext(kind, to, a)) == TruncWidth(a) && TruncWidth(Trunc(to, a)) == Width(a) + TruncWidth(a)
  {
    assert Child(Ext(kind, to, a), 0) == a && Child(Trunc(to, a), 0) == a;
  }

  lemma ResultCompute(m: MinimalValue, w: nat)
    ensures ComputeWidth(Modify(m, w)) == ComputeWidth(m.repr)
  {
    ResizeTotals(if m.extType == ZEXT then ZEXT else SEXT, w, m.repr);
  }

  lemma ModifiedCompute(e: Expr, w: nat)
    requires WellTyped(e)
    ensures ComputeWidth(GetMinimalValue(e).repr) == ComputeWidth(e)
    ensures ComputeWidth(Modify(GetMinimalValue(e), w)) == ComputeWidth(e)
    ensures Width(Modify(GetMinimalValue(e), w)) == w
  {
    if e.Ext? {
      ResizeTotals(e.kind, e.to, e.arg);
    }
    ResultCompute(GetMinimalValue(e), w);
  }

  lemma BinCompute(op: BinOp, l: Expr, r: Expr)
    ensures ComputeWidth(Bin(op, l, r)) == Width(l) + ComputeWidth(l) + ComputeWidth(r)
  {
    assert Child(Bin(op, l, r), 0) == l && Child(Bin(op, l, r), 1) == r;
  }

  lemma ShrCompute(arithmetic: bool, l: Expr, r: Expr)
    ensures ComputeWidth(Shr(arithmetic, l, r)) == Width(l) + ComputeWidth(l) + ComputeWidth(r)
  {
    assert Child(Shr(arithmetic, l, r), 0) == l && Child(Shr(arithmetic, l, r), 1) == r;
  }

  lemma CmpCompute(p: Pred, l: Expr, r: Expr)
    ensures ComputeWidth(Cmp(p, l, r)) == Width(l) + ComputeWidth(l) + ComputeWidth(r)
  {
    assert Child(Cmp(p, l, r), 0) == l && Child(Cmp(p, l, r), 1) == r;
  }

  lemma SelectCompute(c: Expr, t: Expr, f: Expr)
    ensures ComputeWidth(Select(c, t, f)) == Width(t) + ComputeWidth(c) + ComputeWidth(t) + ComputeWidth(f)
  {
    var s := Select(c, t, f);
    assert Child(s, 0) == c && Child(s, 1) == t && Child(s, 2) == f;
  }

  /** A shift of the narrow word computes on fewer bits than the shift of the extended one. */
  lemma NarrowShiftCompute(e: Expr, amount: Expr)
    requires WellTyped(e) && e.Shr? && ComputeWidth(amount) <= ComputeWidth(e.amount)
    requires Width(GetMinimalValue(e.lhs).repr) < Width(e)
    ensures ComputeWidth(Shr(e.arithmetic, GetMinimalValue(e.lhs).repr, amount)) < ComputeWidth(e)
  {
    ModifiedCompute(e.lhs, 1);
    ShrCompute(e.arithmetic, e.lhs, e.amount);
    ShrCompute(e.arithmetic, GetMinimalValue(e.lhs).repr, amount);
  }

  lemma SignChainCompute(shifted: Expr, cut: nat, signs: nat, full: nat)
    ensures ComputeWidth(Ext(ZEXT, full, Ext(SEXT, signs, Trunc(cut, shifted)))) == ComputeWidth(shifted)
  {
    ResizeTotals(ZEXT, cut, shifted);
    ResizeTotals(SEXT, signs, Trunc(cut, shifted));
    ResizeTotals(ZEXT, full, Ext(SEXT, signs, Trunc(cut, shifted)));
  }

  lemma ShrUISmaller(e: Expr)
    requires WellTyped(e) && e.Shr? && !e.arithmetic && ArithShrUIFW(e).Some?
    ensures ComputeWidth(ArithShrUIFW(e).value) < ComputeWidth(e)
  {
    var l := GetMinimalValue(e.lhs);
    var m, full, c := Width(l.repr), Width(e), e.amount.value;
    ResultCompute(MinimalValue(NONE, e.amount), m);
    var amount := if c < m then Modify(MinimalValue(NONE, e.amount), m) else Const(m, m - 1);
    NarrowShiftCompute(e, amount);
    var shifted := Shr(false, l.repr, amount);
    if l.extType == ZEXT {
      ResultCompute(MinimalValue(ZEXT, shifted), full);
    } else {
      SignChainCompute(shifted, if c < m then m - c else 1, full - c, full);
    }
  }

  lemma ShrSISmaller(e: Expr)
    requires WellTyped(e) && e.Shr? && e.arithmetic && ArithShrSIFW(e).Some?
    ensures ComputeWidth(ArithShrSIFW(e).value) < ComputeWidth(e)
  {
    var u := GetMinimalValue(e.lhs).repr;
    var m, c := Width(u), e.amount.value;
    ResultCompute(MinimalValue(NONE, e.amount), m);
    var amount := if c < m then Modify(MinimalValue(NONE, e.amount), m) else Const(m, m - 1);
    NarrowShiftCompute(e, amount);
    ResultCompute(MinimalValue(SEXT, Shr(true, u, amount)), Width(e));
  }

  lemma CmpSmaller(e: Expr)
    requires WellTyped(e) && e.Cmp? && ArithCmpFW(e).Some?
    ensures ComputeWidth(ArithCmpFW(e).value) < ComputeWidth(e)
  {
    var l, r := GetMinimalValue(e.lhs), GetMinimalValue(e.rhs);
    var w := CmpWidth(e.pred, l.Shape(), r.Shape());
    ModifiedCompute(e.lhs, w);
    ModifiedCompute(e.rhs, w);
    CmpCompute(e.pred, e.lhs, e.rhs);
    CmpCompute(e.pred, Modify(l, w), Modify(r, w));
  }

  lemma BinSmaller(e: Expr, w: nat, ext: ExtType)
    requires WellTyped(e) && e.Bin? && w < Width(e)
    ensures ComputeWidth(NarrowBin(e.op, GetMinimalValue(e.lhs), GetMinimalValue(e.rhs), w, ext, Width(e))) < ComputeWidth(e)
  {
    var l, r := GetMinimalValue(e.lhs), GetMinimalValue(e.rhs);
    ModifiedCompute(e.lhs, w);
    ModifiedCompute(e.rhs, w);
    BinCompute(e.op, e.lhs, e.rhs);
    BinCompute(e.op, Modify(l, w), Modify(r, w));
    ResultCompute(MinimalValue(ext, Bin(e.op, Modify(l, w), Modify(r, w))), Width(e));
  }

  lemma SelectSmaller(e: Expr, w: nat)
    requires WellTyped(e) && e.Select? && ArithSelect(e, w).Some?
    ensures ComputeWidth(ArithSelect(e, w).value) < ComputeWidth(e)
  {
    var l, r := GetMinimalValue(e.onTrue), GetMinimalValue(e.onFalse);
    ModifiedCompute(e.onTrue, w);
    ModifiedCompute(e.onFalse, w);
    SelectCompute(e.cond, e.onTrue, e.onFalse);
    SelectCompute(e.cond, Modify(l, w), Modify(r, w));
    ResultCompute(MinimalValue(l.extType, Select(e.cond, Modify(l, w), Modify(r, w))), Width(e));
  }

  lemma NarrowShrSmaller(e: Expr, l: MinimalValue, c: MinimalValue, w: nat, ext: ExtType)
    requires WellTyped(e) && e.Shr? && w < Width(e)
    requires ComputeWidth(l.repr) == ComputeWidth(e.lhs) && ComputeWidth(c.repr) <= ComputeWidth(e.amount)
    ensures ComputeWidth(NarrowShr(e.arithmetic, l, c, w, ext, Width(e))) < ComputeWidth(e)
  {
    ResultCompute(l, w);
    ResultCompute(c, w);
    ShrCompute(e.arithmetic, e.lhs, e.amount);
    ShrCompute(e.arithmetic, Modify(l, w), Modify(c, w));
    ResultCompute(MinimalValue(ext, Shr(e.arithmetic, Modify(l, w), Modify(c, w))), Width(e));
  }

  lemma ShiftBWSmaller(e: Expr, useful: nat)
    requires WellTyped(e) && e.Shr? && ArithShiftBW(e, useful).Some?
    ensures ComputeWidth(ArithShiftBW(e, useful).value) < ComputeWidth(e)
  {
    var l, c := GetMinimalValue(e.lhs), GetMinimalValue(e.amount);
    ModifiedCompute(e.amount, 1);
    ModifiedCompute(e.lhs, 1);
    NarrowShrSmaller(e, l, c, useful + c.repr.value, l.extType);
  }

  /** Every forward pattern but the one on truncations narrows a computation. */
  lemma ForwardComputesLess(e: Expr)
    requires WellTyped(e) && ForwardPattern(e).Some? && !e.Trunc?
    ensures ComputeWidth(ForwardPattern(e).value) < ComputeWidth(e)
  {
    match e {
      case Bin(op, l, r) =>
        var t := TransferOf(op, GetMinimalValue(l).Shape(), GetMinimalValue(r).Shape());
        BinSmaller(e, t.bitWidth, t.extType);
      case Select(_, t, f) =>
        SelectSmaller(e, Max(GetMinimalValue(t).Shape().bitWidth, GetMinimalValue(f).Shape().bitWidth));
      case Shr(arithmetic, _, _) => if arithmetic { ShrSISmaller(e); } else { ShrUISmaller(e); }
      case Cmp(_, _, _) => CmpSmaller(e);
      case _ =>
    }
  }

  /** So does every backward pattern. */
  lemma BackwardComputesLess(e: Expr, useful: nat)
    requires WellTyped(e) && BackwardPattern(e, useful).Some?
    ensures ComputeWidth(BackwardPattern(e, useful).value) < ComputeWidth(e)
  {
    match e {
      case Bin(op, l, r) =>
        if op.Add? || op.Sub? {
          BinSmaller(e, useful, ZEXT);
        } else {
          var t := TransferOf(op, GetMinimalValue(l).Shape(), GetMinimalValue(r).Shape());
          BinSmaller(e, t.bitWidth, t.extType);
        }
      case Select(_, _, _) => SelectSmaller(e, useful);
      case Shr(_, _, _) => ShiftBWSmaller(e, useful);
    }
  }

  lemma WithChildShape(e: Expr, i: nat, c: Expr)
    requires i < Arity(e)
    ensures Arity(WithChild(e, i, c)) == Arity(e)
    ensures forall j: nat | j < Arity(e) :: Child(WithChild(e, i, c), j) == if j == i then c else Child(e, j)
    ensures Width(c) == Width(Child(e, i)) ==>
              OwnCompute(WithChild(e, i, c)) == OwnCompute(e) && OwnTrunc(WithChild(e, i, c)) == OwnTrunc(e)
  {
  }

  ghost predicate SameMeaning(e: Expr, f: Expr)
    requires WellTyped(e)
  {
    WellTyped(f) && Width(f) == Width(e) && forall env: Env :: Replaces(e, f, env)
  }
}
