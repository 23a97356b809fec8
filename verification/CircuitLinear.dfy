/** What the patterns make of an operation: which of its operands they read, each at most once. */
module CircuitLinear {
  import opened Basics
  import opened Transfer
  import opened Scalar
  import opened Expressions
  import opened PatternCosts
  import opened Circuits
  import opened CircuitSteps
  import opened CircuitShrinks
  import opened CircuitMatches

  /** Operand `j` is a constant, variable `j` or an extension of it. */
  ghost predicate Positioned(view: Expr) {
    forall j: nat | j < Arity(view) :: IsSimple(Child(view, j)) && forall i: nat | Uses(Child(view, j), i) :: i == j
  }

  /** Every operand is read once; shifts by a constant may read less. */
  ghost predicate ReadsOnce(view: Expr, r: Expr) {
    && Linear(r)
    && if view.Shr? then view.amount.Const? else NoShift(r) && forall i: nat :: Uses(r, i) <==> Uses(view, i)
  }

  ghost predicate SameVars(e: Expr, f: Expr) {
    (Linear(e) <==> Linear(f)) && (NoShift(e) <==> NoShift(f)) && forall i: nat :: Uses(e, i) <==> Uses(f, i)
  }

  lemma UnaryVars(e: Expr)
    requires e.Ext? || e.Trunc?
    ensures SameVars(e, e.arg)
  {
    assert Child(e, 0) == e.arg;
  }

  lemma ModifyVars(m: MinimalValue, k: nat)
    ensures SameVars(Modify(m, k), m.repr)
  {
    if Modify(m, k) != m.repr {
      UnaryVars(Modify(m, k));
    }
  }

  lemma SimpleVars(e: Expr, k: nat)
    requires IsSimple(e)
    ensures Linear(e) && NoShift(e) && SameVars(GetMinimalValue(e).repr, e) && SameVars(Modify(GetMinimalValue(e), k), e)
  {
    if e.Ext? {
      UnaryVars(e);
      assert Linear(e.arg) && NoShift(e.arg);
    }
    ModifyVars(GetMinimalValue(e), k);
  }

  ghost predicate Disjoint(l: Expr, r: Expr) {
    forall i: nat :: !(Uses(l, i) && Uses(r, i))
  }

  lemma PairVars(e: Expr, l: Expr, r: Expr)
    requires Arity(e) == 2 && Child(e, 0) == l && Child(e, 1) == r && Linear(l) && Linear(r) && Disjoint(l, r)
    ensures Linear(e) && (forall i: nat :: Uses(e, i) <==> Uses(l, i) || Uses(r, i))
    ensures !e.Shr? ==> (NoShift(e) <==> NoShift(l) && NoShift(r))
  {
    forall i: nat ensures Uses(e, i) <==> Uses(l, i) || Uses(r, i) {
      if Uses(e, i) {
        var j: nat :| j < Arity(e) && Uses(Child(e, j), i);
        assert j == 0 || j == 1;
      }
    }
  }

  /** An operation on two operands that read the same variables as those of the view. */
  lemma PairReads(view: Expr, e: Expr, l: Expr, r: Expr)
    requires Positioned(view) && Arity(view) == 2 && Arity(e) == 2 && Child(e, 0) == l && Child(e, 1) == r
    requires SameVars(l, Child(view, 0)) && SameVars(r, Child(view, 1))
    ensures Linear(e) && (!e.Shr? ==> NoShift(e)) && forall i: nat :: Uses(e, i) <==> Uses(view, i)
  {
    SimpleVars(Child(view, 0), 0);
    SimpleVars(Child(view, 1), 0);
    PairVars(view, Child(view, 0), Child(view, 1));
    PairVars(e, l, r);
  }

  lemma NarrowBinReads(view: Expr, k: nat, ext: ExtType)
    requires WellTyped(view) && view.Bin? && Positioned(view)
    ensures ReadsOnce(view, NarrowBin(view.op, GetMinimalValue(view.lhs), GetMinimalValue(view.rhs), k, ext, Width(view)))
  {
    var l, r := Modify(GetMinimalValue(view.lhs), k), Modify(GetMinimalValue(view.rhs), k);
    assert Child(view, 0) == view.lhs && Child(view, 1) == view.rhs;
    SimpleVars(view.lhs, k);
    SimpleVars(view.rhs, k);
    var e := Bin(view.op, l, r);
    assert Child(e, 0) == l && Child(e, 1) == r;
    PairReads(view, e, l, r);
    ModifyVars(MinimalValue(ext, e), Width(view));
  }

  lemma CmpReads(view: Expr, k: nat)
    requires WellTyped(view) && view.Cmp? && Positioned(view)
    ensures ReadsOnce(view, Cmp(view.pred, Modify(GetMinimalValue(view.lhs), k), Modify(GetMinimalValue(view.rhs), k)))
  {
    var l, r := Modify(GetMinimalValue(view.lhs), k), Modify(GetMinimalValue(view.rhs), k);
    assert Child(view, 0) == view.lhs && Child(view, 1) == view.rhs;
    SimpleVars(view.lhs, k);
    SimpleVars(view.rhs, k);
    var e := Cmp(view.pred, l, r);
    assert Child(e, 0) == l && Child(e, 1) == r;
    PairReads(view, e, l, r);
  }

  lemma TripleVars(e: Expr, c: Expr, l: Expr, r: Expr)
    requires e == Select(c, l, r) && Linear(c) && Linear(l) && Linear(r) && Disjoint(c, l) && Disjoint(c, r) && Disjoint(l, r)
    ensures Linear(e) && (forall i: nat :: Uses(e, i) <==> Uses(c, i) || Uses(l, i) || Uses(r, i))
    ensures NoShift(e) <==> NoShift(c) && NoShift(l) && NoShift(r)
  {
    assert Child(e, 0) == c && Child(e, 1) == l && Child(e, 2) == r;
    forall i: nat ensures Uses(e, i) <==> Uses(c, i) || Uses(l, i) || Uses(r, i) {
      if Uses(e, i) {
        var j: nat :| j < Arity(e) && Uses(Child(e, j), i);
        assert j == 0 || j == 1 || j == 2;
      }
    }
  }

  lemma SelectReads(view: Expr, k: nat)
    requires WellTyped(view) && view.Select? && Positioned(view) && ArithSelect(view, k).Some?
    ensures ReadsOnce(view, ArithSelect(view, k).value)
  {
    var l, r := Modify(GetMinimalValue(view.onTrue), k), Modify(GetMinimalValue(view.onFalse), k);
    assert Child(view, 0) == view.cond && Child(view, 1) == view.onTrue && Child(view, 2) == view.onFalse;
    SimpleVars(view.cond, k);
    SimpleVars(view.onTrue, k);
    SimpleVars(view.onFalse, k);
    TripleVars(view, view.cond, view.onTrue, view.onFalse);
    var e := Select(view.cond, l, r);
    TripleVars(e, view.cond, l, r);
    ModifyVars(MinimalValue(GetMinimalValue(view.onTrue).extType, e), Width(view));
  }

  lemma ConstVars(w: nat, v: nat)
    ensures Linear(Const(w, v)) && forall i: nat :: !Uses(Const(w, v), i)
  {
  }

  /** A shift of what one operand reads by a constant. */
  lemma ShiftLinear(arithmetic: bool, l: Expr, amount: Expr)
    requires Linear(l) && Linear(amount) && forall i: nat :: !Uses(amount, i)
    ensures Linear(Shr(arithmetic, l, amount))
  {
    var e := Shr(arithmetic, l, amount);
    assert Child(e, 0) == l && Child(e, 1) == amount;
    PairVars(e, l, amount);
  }

  lemma ShrReads(view: Expr)
    requires WellTyped(view) && view.Shr? && Positioned(view) && ForwardPattern(view).Some?
    ensures ReadsOnce(view, ForwardPattern(view).value)
  {
    var l := GetMinimalValue(view.lhs);
    var m, c, full := Width(l.repr), view.amount.value, Width(view);
    assert Child(view, 0) == view.lhs;
    SimpleVars(view.lhs, m);
    ConstVars(view.amount.width, c);
    ModifyVars(MinimalValue(NONE, view.amount), m);
    ConstVars(m, if m > 0 then m - 1 else 0);
    ConstVars(full, 0);
    assert Modify(l, m) == l.repr;
    var amount := if c < m then Modify(MinimalValue(NONE, view.amount), m) else Const(m, m - 1);
    ShiftLinear(view.arithmetic, l.repr, amount);
    var s := Shr(view.arithmetic, l.repr, amount);
    ModifyVars(MinimalValue(if view.arithmetic then SEXT else ZEXT, s), full);
    ChainVars(s, if c < m then m - c else 1, full - c, full);
  }

  lemma ChainVars(s: Expr, cut: nat, signs: nat, full: nat)
    ensures SameVars(Ext(ZEXT, full, Ext(SEXT, signs, Trunc(cut, s))), s) && SameVars(Ext(SEXT, full, s), s)
  {
    UnaryVars(Trunc(cut, s));
    UnaryVars(Ext(SEXT, signs, Trunc(cut, s)));
    UnaryVars(Ext(ZEXT, full, Ext(SEXT, signs, Trunc(cut, s))));
    UnaryVars(Ext(SEXT, full, s));
  }

  lemma ForwardReads(view: Expr)
    requires WellTyped(view) && Positioned(view) && ForwardPattern(view).Some?
    ensures ReadsOnce(view, ForwardPattern(view).value)
  {
    match view {
      case Bin(op, l, r) =>
        var t := TransferOf(op, GetMinimalValue(l).Shape(), GetMinimalValue(r).Shape());
        NarrowBinReads(view, t.bitWidth, t.extType);
      case Select(_, t, f) =>
        SelectReads(view, Max(GetMinimalValue(t).Shape().bitWidth, GetMinimalValue(f).Shape().bitWidth));
      case Shr(_, _, _) => ShrReads(view);
      case Cmp(p, l, r) => CmpReads(view, CmpWidth(p, GetMinimalValue(l).Shape(), GetMinimalValue(r).Shape()));
      case Trunc(to, a) =>
        assert Child(view, 0) == a;
        SimpleVars(a, to);
        UnaryVars(view);
    }
  }

  lemma BackwardReads(view: Expr, useful: nat)
    requires WellTyped(view) && Positioned(view) && BackwardPattern(view, useful).Some?
    ensures ReadsOnce(view, BackwardPattern(view, useful).value)
  {
    match view {
      case Bin(op, _, _) =>
        if op.Add? || op.Sub? {
          NarrowBinReads(view, useful, ZEXT);
        } else {
          ForwardReads(view);
        }
      case Select(_, _, _) => SelectReads(view, useful);
      case Shr(_, _, _) => ShiftBWReads(view, useful);
    }
  }

  lemma ShiftBWReads(view: Expr, useful: nat)
    requires WellTyped(view) && view.Shr? && Positioned(view) && ArithShiftBW(view, useful).Some?
    ensures ReadsOnce(view, ArithShiftBW(view, useful).value)
  {
    var m, c := GetMinimalValue(view.lhs), GetMinimalValue(view.amount);
    var k := useful + c.repr.value;
    assert Child(view, 0) == view.lhs;
    SimpleVars(view.lhs, k);
    ConstVars(c.repr.width, c.repr.value);
    ModifyVars(c, k);
    ShiftLinear(view.arithmetic, Modify(m, k), Modify(c, k));
    ModifyVars(MinimalValue(m.extType, Shr(view.arithmetic, Modify(m, k), Modify(c, k))), Width(view));
  }

  // ----- views -----

  lemma OperandPositioned(defs: seq<Def>, x: nat, i: nat)
    requires AllGood(defs) && x < |defs|
    ensures IsSimple(OperandView(defs, x, i)) && forall k: nat | Uses(OperandView(defs, x, i), k) :: k == i
  {
    OperandViewTyped(defs, x, i);
    assert GoodDef(defs, defs[x]);
    var view := OperandView(defs, x, i);
    if view.Ext? {
      UnaryVars(view);
    }
  }

  lemma ViewPositioned(defs: seq<Def>, v: nat, behind: bool)
    requires IsNode(defs, v)
    ensures Positioned(View(defs, v, behind))
  {
    var view, e := View(defs, v, behind), defs[v].e;
    assert GoodDef(defs, defs[v]);
    ChildrenAreRefs(defs, e);
    ViewSimple(defs, v, behind);
    forall j: nat, i: nat | j < Arity(view) && Uses(Child(view, j), i) ensures i == j {
      OperandPositioned(defs, Child(e, j).id, j);
    }
  }
}
