/** Every rewrite pattern of the bitwidth optimization pass preserves the value of the expression it matches. */
module RewriteSound {
  import opened Basics
  import opened Words
  import opened Bits
  import opened Transfer
  import opened Scalar
  import opened Expressions

  /** No arithmetic shift in the expression is by its width or more (the result of such a shift is poison), and every steered
      token is where its control token sends it. */
  predicate Defined(e: Expr, env: Env)
    requires WellTyped(e)
  {
    match e
    case Var(_, _) => true
    case Const(_, _) => true
    case Ext(_, _, a) => Defined(a, env)
    case Trunc(_, a) => Defined(a, env)
    case Bin(_, l, r) => Defined(l, env) && Defined(r, env)
    case Select(c, t, f) => Defined(c, env) && Defined(t, env) && Defined(f, env)
    case Shr(arithmetic, l, a) =>
      Defined(l, env) && Defined(a, env) && (arithmetic ==> Eval(a, env) < Width(l))
    case Cmp(_, l, r) => Defined(l, env) && Defined(r, env)
    case Forward(a) => Defined(a, env)
    case Steered(port, c, a) => Defined(c, env) && Defined(a, env) && Eval(c, env) == port
  }

  /** `f` may replace `e`: same type, same value, and defined wherever `e` is. */
  predicate Replaces(e: Expr, f: Expr, env: Env)
    requires WellTyped(e)
  {
    && WellTyped(f)
    && Width(f) == Width(e)
    && (Defined(e, env) ==> Defined(f, env) && Eval(f, env) == Eval(e, env))
  }

  /** `f` may replace `e` where only the `k` low bits are used. */
  predicate ReplacesLow(e: Expr, f: Expr, k: nat, env: Env)
    requires WellTyped(e)
  {
    && WellTyped(f)
    && Width(f) == Width(e)
    && (Defined(e, env) ==> Defined(f, env) && Wrap(Eval(f, env), k) == Wrap(Eval(e, env), k))
  }

  lemma MinimalValueOk(e: Expr, env: Env)
    requires WellTyped(e)
    ensures var m := GetMinimalValue(e);
      && WellTyped(m.repr)
      && IsMinimal(m.Shape(), Eval(m.repr, env), Width(e))
      && ModBitWidth(m.Shape(), Eval(m.repr, env), Width(e)) == Eval(e, env)
      && (Defined(e, env) ==> Defined(m.repr, env))
  {
    var m := GetMinimalValue(e);
    match e {
      case Const(w, v) =>
        var b := RequiredBits(v, w);
        RequiredBitsIsLeast(v, w, b);
        if b < w {
          NarrowThenExtend(m.Shape(), Signed(v, w), w);
          WrapSigned(v, w);
          WrapWrap(Signed(v, w), b, w);
        } else {
          WrapSmall(v, w);
        }
      case _ =>
    }
  }

  lemma ModifyOk(m: MinimalValue, target: nat, env: Env)
    requires WellTyped(m.repr) && target >= 1
    ensures WellTyped(Modify(m, target)) && Width(Modify(m, target)) == target
    ensures Eval(Modify(m, target), env) == ModBitWidth(m.Shape(), Eval(m.repr, env), target)
    ensures Eval(Modify(m, target), env) == Wrap(Meaning(m.Shape(), Eval(m.repr, env)), target)
    ensures Defined(m.repr, env) ==> Defined(Modify(m, target), env)
  {
    ModBitWidthIsWrap(m.Shape(), Eval(m.repr, env), target);
  }

  /** What an operand contributes to a rewritten operation, at whatever width it is brought to. */
  lemma OperandOk(e: Expr, w: nat, env: Env)
    requires WellTyped(e) && w >= 1
    ensures var m := GetMinimalValue(e);
      && WellTyped(m.repr)
      && WellTyped(Modify(m, w)) && Width(Modify(m, w)) == w
      && IsMinimal(m.Shape(), Eval(m.repr, env), Width(e))
      && Eval(Modify(m, w), env) == ModBitWidth(m.Shape(), Eval(m.repr, env), w)
      && Eval(e, env) == ModBitWidth(m.Shape(), Eval(m.repr, env), Width(e))
      && Eval(Modify(m, w), env) == Wrap(Meaning(m.Shape(), Eval(m.repr, env)), w)
      && Eval(e, env) == Wrap(Meaning(m.Shape(), Eval(m.repr, env)), Width(e))
      && (w <= Width(e) ==> Eval(Modify(m, w), env) == Wrap(Eval(e, env), w))
      && (Defined(e, env) ==> Defined(Modify(m, w), env))
  {
    var m := GetMinimalValue(e);
    MinimalValueOk(e, env);
    ModifyOk(m, w, env);
    ModBitWidthIsWrap(m.Shape(), Eval(m.repr, env), Width(e));
    if w <= Width(e) {
      WrapWrap(Meaning(m.Shape(), Eval(m.repr, env)), w, Width(e));
    }
  }

  // ----- forward patterns -----

  lemma SingleTypeOk(e: Expr, env: Env)
    requires WellTyped(e) && e.Bin? && ArithSingleType(e).Some?
    ensures Replaces(e, ArithSingleType(e).value, env)
  {
    var l, r := GetMinimalValue(e.lhs), GetMinimalValue(e.rhs);
    var full := Width(e);
    var t := TransferOf(e.op, l.Shape(), r.Shape());
    MinimalValueOk(e.lhs, env);
    MinimalValueOk(e.rhs, env);
    ForwardSound(e.op, l.Shape(), r.Shape(), Eval(l.repr, env), Eval(r.repr, env), full);
    OperandOk(e.lhs, t.bitWidth, env);
    OperandOk(e.rhs, t.bitWidth, env);
    ModifyOk(MinimalValue(t.extType, Bin(e.op, Modify(l, t.bitWidth), Modify(r, t.bitWidth))), full, env);
  }

  /** Narrowing two forwarded values to a width neither exceeds and extending with their common extension is exact. */
  lemma SelectOk(e: Expr, env: Env)
    requires WellTyped(e) && e.Select? && ArithSelectFW(e).Some?
    ensures Replaces(e, ArithSelectFW(e).value, env)
  {
    var l, r := GetMinimalValue(e.onTrue), GetMinimalValue(e.onFalse);
    var w := Max(Width(l.repr), Width(r.repr));
    ForwardedExtends(e.onTrue, w, env);
    ForwardedExtends(e.onFalse, w, env);
    NarrowSelectOk(e, w, env);
    ModifyOk(MinimalValue(l.extType, Select(e.cond, Modify(l, w), Modify(r, w))), Width(e), env);
  }

  /** The narrow selection chooses the narrow form of what the selection chooses. */
  lemma NarrowSelectOk(e: Expr, w: nat, env: Env)
    requires WellTyped(e) && e.Select? && w >= 1
    ensures var l, r := GetMinimalValue(e.onTrue), GetMinimalValue(e.onFalse);
      var narrow := Select(e.cond, Modify(l, w), Modify(r, w));
      && WellTyped(narrow) && Width(narrow) == w && (Defined(e, env) ==> Defined(narrow, env))
      && (|| (Eval(narrow, env) == Eval(Modify(l, w), env) && Eval(e, env) == Eval(e.onTrue, env))
          || (Eval(narrow, env) == Eval(Modify(r, w), env) && Eval(e, env) == Eval(e.onFalse, env)))
  {
    OperandOk(e.onTrue, w, env);
    OperandOk(e.onFalse, w, env);
  }

  /** A forwarded value brought to a width at least its minimal one extends to the value. */
  lemma ForwardedExtends(e: Expr, w: nat, env: Env)
    requires WellTyped(e) && GetMinimalValue(e).extType != NONE && Width(GetMinimalValue(e).repr) <= w
    ensures var m := GetMinimalValue(e);
            w >= 1 && ModBitWidth(ExtWidth(m.extType, w), Eval(Modify(m, w), env), Width(e)) == Eval(e, env)
  {
    var m := GetMinimalValue(e);
    OperandOk(e, w, env);
    var x := Meaning(m.Shape(), Eval(m.repr, env));
    MeaningFits(m.Shape(), Eval(m.repr, env));
    FitsWider(x, Width(m.repr), w);
    NarrowThenExtend(ExtWidth(m.extType, w), x, Width(e));
  }

  /** A shift amount below a width survives truncation to that width. */
  lemma AmountOk(amount: Expr, m: nat, env: Env)
    requires WellTyped(amount) && amount.Const? && 1 <= m <= Width(amount) && amount.value < m
    ensures var a := Modify(MinimalValue(NONE, amount), m);
      WellTyped(a) && Width(a) == m && Eval(a, env) == amount.value && Defined(a, env)
  {
    ModifyOk(MinimalValue(NONE, amount), m, env);
    Pow2Exceeds(m);
    WrapSmall(amount.value, m);
  }

  /** The amount of the narrowed shift: the given one, or the sign position if that shifts everything out. */
  lemma NarrowAmountOk(amount: Expr, m: nat, env: Env) returns (narrow: Expr)
    requires WellTyped(amount) && amount.Const? && 1 <= m <= Width(amount)
    ensures narrow == if amount.value < m then Modify(MinimalValue(NONE, amount), m) else Const(m, m - 1)
    ensures WellTyped(narrow) && Width(narrow) == m && Eval(narrow, env) == Min(amount.value, m - 1) && Defined(narrow, env)
  {
    narrow := if amount.value < m then Modify(MinimalValue(NONE, amount), m) else Const(m, m - 1);
    if amount.value < m {
      AmountOk(amount, m, env);
    } else {
      SignPositionOk(m, env);
    }
  }

  /** The constant that selects the sign bit of a word. */
  lemma SignPositionOk(m: nat, env: Env)
    requires m >= 1
    ensures WellTyped(Const(m, m - 1)) && Eval(Const(m, m - 1), env) == m - 1
  {
    Pow2Exceeds(m - 1);
    Pow2Monotone(m - 1, m);
  }

  lemma ShrOk(arithmetic: bool, u: Expr, amount: Expr, env: Env)
    requires WellTyped(u) && WellTyped(amount) && Width(amount) == Width(u)
    requires Defined(amount, env) && Eval(amount, env) < Width(u)
    ensures var s := Shr(arithmetic, u, amount);
      && WellTyped(s) && Width(s) == Width(u)
      && (Defined(u, env) ==> Defined(s, env))
      && Eval(s, env) == (if arithmetic then ArithmeticShr(Eval(u, env), Width(u), Eval(amount, env))
                          else LogicalShr(Eval(u, env), Eval(amount, env)))
  {
  }

  /** Shift, cut down to the sign bit, sign-extend, zero-extend: a logical shift of a sign-extended value. */
  lemma ShrUISextOk(u: Expr, full: nat, c: nat, amount: Expr, env: Env)
    requires WellTyped(u) && WellTyped(amount) && Width(amount) == Width(u) && Width(u) < full && c < full
    requires Defined(amount, env) && Eval(amount, env) == Min(c, Width(u) - 1)
    ensures var chain := Ext(ZEXT, full, Ext(SEXT, full - c, Trunc(Width(u) - Min(c, Width(u) - 1), Shr(false, u, amount))));
      && WellTyped(chain)
      && (Defined(u, env) ==> Defined(chain, env))
      && Eval(chain, env) == LogicalShr(SignExtend(Eval(u, env), Width(u), full), c)
  {
    var m, narrow := Width(u), Min(c, Width(u) - 1);
    var shifted := Shr(false, u, amount);
    ShrOk(false, u, amount, env);
    var cut := Trunc(m - narrow, shifted);
    assert WellTyped(cut) && Width(cut) == m - narrow;
    assert Eval(cut, env) == Wrap(LogicalShr(Eval(u, env), narrow), m - narrow);
    var signs := Ext(SEXT, full - c, cut);
    assert WellTyped(signs) && Eval(signs, env) == SignExtend(Eval(cut, env), m - narrow, full - c);
    LogicalShrOfSext(Eval(u, env), m, full, c, narrow);
    assert Defined(shifted, env) ==> Defined(cut, env) && Defined(signs, env);
  }

  lemma ShrUIZextOk(e: Expr, env: Env)
    requires WellTyped(e) && e.Shr? && !e.arithmetic && ArithShrUIFW(e).Some?
    requires GetMinimalValue(e.lhs).extType == ZEXT
    ensures Replaces(e, ArithShrUIFW(e).value, env)
  {
    var l := GetMinimalValue(e.lhs);
    var m, c := Width(l.repr), e.amount.value;
    MinimalValueOk(e.lhs, env);
    assert Eval(e, env) == LogicalShr(Eval(l.repr, env), c);
    if c < m {
      var amount := Modify(MinimalValue(NONE, e.amount), m);
      AmountOk(e.amount, m, env);
      ShrOk(false, l.repr, amount, env);
      ModifyOk(MinimalValue(ZEXT, Shr(false, l.repr, amount)), Width(e), env);
    } else {
      LogicalShrFits(Eval(l.repr, env), m, c);
    }
  }

  /** What the pattern builds for a sign-extended operand. */
  lemma ShrUISextForm(e: Expr, m: nat, amount: Expr)
    requires WellTyped(e) && e.Shr? && !e.arithmetic && ArithShrUIFW(e).Some? && GetMinimalValue(e.lhs).extType != ZEXT
    requires m == Width(GetMinimalValue(e.lhs).repr) && e.amount.Const?
    requires amount == if e.amount.value < m then Modify(MinimalValue(NONE, e.amount), m) else Const(m, m - 1)
    ensures e.amount.value < Width(e) && m < Width(e)
    ensures var c := e.amount.value;
      ArithShrUIFW(e).value ==
      Ext(ZEXT, Width(e), Ext(SEXT, Width(e) - c, Trunc(m - Min(c, m - 1), Shr(false, GetMinimalValue(e.lhs).repr, amount))))
  {
  }

  lemma SextShifted(e: Expr, u: Expr, env: Env)
    requires WellTyped(e) && e.Shr? && !e.arithmetic && e.amount.Const? && u == GetMinimalValue(e.lhs).repr
    requires GetMinimalValue(e.lhs).extType != ZEXT && WellTyped(u) && Width(u) < Width(e)
    ensures Eval(e, env) == LogicalShr(SignExtend(Eval(u, env), Width(u), Width(e)), e.amount.value)
    ensures Defined(e, env) ==> Defined(u, env)
  {
    MinimalValueOk(e.lhs, env);
  }

  lemma SameReplaces(e: Expr, f: Expr, u: Expr, env: Env)
    requires WellTyped(e) && WellTyped(f) && WellTyped(u) && Width(f) == Width(e)
    requires (Defined(e, env) ==> Defined(u, env)) && (Defined(u, env) ==> Defined(f, env)) && Eval(f, env) == Eval(e, env)
    ensures Replaces(e, f, env)
  {
  }

  /** The chain replaces any expression with the value of the shifted operand. */
  lemma ChainReplaces(e: Expr, f: Expr, u: Expr, c: nat, amount: Expr, env: Env)
    requires WellTyped(e) && WellTyped(u) && WellTyped(amount) && Width(amount) == Width(u) < Width(e) && c < Width(e)
    requires Defined(amount, env) && Eval(amount, env) == Min(c, Width(u) - 1) && (Defined(e, env) ==> Defined(u, env))
    requires f == Ext(ZEXT, Width(e), Ext(SEXT, Width(e) - c, Trunc(Width(u) - Min(c, Width(u) - 1), Shr(false, u, amount))))
    requires Eval(e, env) == LogicalShr(SignExtend(Eval(u, env), Width(u), Width(e)), c)
    ensures Replaces(e, f, env)
  {
    ShrUISextOk(u, Width(e), c, amount, env);
    SameReplaces(e, f, u, env);
  }

  lemma ShrUISextCaseOk(e: Expr, env: Env)
    requires WellTyped(e) && e.Shr? && !e.arithmetic && ArithShrUIFW(e).Some?
    requires GetMinimalValue(e.lhs).extType != ZEXT
    ensures Replaces(e, ArithShrUIFW(e).value, env)
  {
    var u := GetMinimalValue(e.lhs).repr;
    MinimalValueOk(e.lhs, env);
    var amount := NarrowAmountOk(e.amount, Width(u), env);
    ShrUISextForm(e, Width(u), amount);
    SextShifted(e, u, env);
    ChainReplaces(e, ArithShrUIFW(e).value, u, e.amount.value, amount, env);
  }

  lemma ShrUIOk(e: Expr, env: Env)
    requires WellTyped(e) && e.Shr? && !e.arithmetic && ArithShrUIFW(e).Some?
    ensures Replaces(e, ArithShrUIFW(e).value, env)
  {
    if GetMinimalValue(e.lhs).extType == ZEXT {
      ShrUIZextOk(e, env);
    } else {
      ShrUISextCaseOk(e, env);
    }
  }

  lemma ShrSISextOk(u: Expr, full: nat, c: nat, amount: Expr, env: Env)
    requires WellTyped(u) && WellTyped(amount) && Width(amount) == Width(u) && Width(u) < full
    requires Defined(amount, env) && Eval(amount, env) == Min(c, Width(u) - 1)
    ensures var narrow := Ext(SEXT, full, Shr(true, u, amount));
      && WellTyped(narrow)
      && (Defined(u, env) ==> Defined(narrow, env))
      && Eval(narrow, env) == ArithmeticShr(SignExtend(Eval(u, env), Width(u), full), full, c)
  {
    ArithmeticShrOfSext(Eval(u, env), Width(u), full, c);
  }

  lemma ShrSISextForm(e: Expr, m: nat, amount: Expr)
    requires WellTyped(e) && e.Shr? && e.arithmetic && ArithShrSIFW(e).Some? && m == Width(GetMinimalValue(e.lhs).repr) && e.amount.Const?
    requires amount == if e.amount.value < m then Modify(MinimalValue(NONE, e.amount), m) else Const(m, m - 1)
    ensures m < Width(e) && GetMinimalValue(e.lhs).extType != ZEXT
    ensures ArithShrSIFW(e).value == Ext(SEXT, Width(e), Shr(true, GetMinimalValue(e.lhs).repr, amount))
  {
  }

  lemma SextShiftedArithmetically(e: Expr, u: Expr, env: Env)
    requires WellTyped(e) && e.Shr? && e.arithmetic && e.amount.Const? && u == GetMinimalValue(e.lhs).repr
    requires GetMinimalValue(e.lhs).extType != ZEXT && WellTyped(u) && Width(u) < Width(e)
    ensures Eval(e, env) == ArithmeticShr(SignExtend(Eval(u, env), Width(u), Width(e)), Width(e), e.amount.value)
    ensures Defined(e, env) ==> Defined(u, env)
  {
    MinimalValueOk(e.lhs, env);
  }

  lemma ShrSIOk(e: Expr, env: Env)
    requires WellTyped(e) && e.Shr? && e.arithmetic && ArithShrSIFW(e).Some?
    ensures Replaces(e, ArithShrSIFW(e).value, env)
  {
    var u := GetMinimalValue(e.lhs).repr;
    MinimalValueOk(e.lhs, env);
    var amount := NarrowAmountOk(e.amount, Width(u), env);
    ShrSISextForm(e, Width(u), amount);
    SextShiftedArithmetically(e, u, env);
    ShrSISextOk(u, Width(e), e.amount.value, amount, env);
    SameReplaces(e, ArithShrSIFW(e).value, u, env);
  }

  lemma CmpOk(e: Expr, env: Env)
    requires WellTyped(e) && e.Cmp? && ArithCmpFW(e).Some?
    ensures Replaces(e, ArithCmpFW(e).value, env)
  {
    var l, r := GetMinimalValue(e.lhs), GetMinimalValue(e.rhs);
    var w := CmpWidth(e.pred, l.Shape(), r.Shape());
    MinimalValueOk(e.lhs, env);
    MinimalValueOk(e.rhs, env);
    CmpForwardSound(e.pred, l.Shape(), r.Shape(), Eval(l.repr, env), Eval(r.repr, env), Width(e.lhs));
    OperandOk(e.lhs, w, env);
    OperandOk(e.rhs, w, env);
  }

  lemma ExtToTruncOk(e: Expr, env: Env)
    requires WellTyped(e) && e.Trunc? && ArithExtToTrunc(e).Some?
    ensures Replaces(e, ArithExtToTrunc(e).value, env)
  {
    OperandOk(e.arg, e.to, env);
  }

  lemma ForwardPatternOk(e: Expr, env: Env)
    requires WellTyped(e) && ForwardPattern(e).Some?
    ensures Replaces(e, ForwardPattern(e).value, env)
  {
    match e {
      case Bin(_, _, _) => SingleTypeOk(e, env);
      case Select(_, _, _) => SelectOk(e, env);
      case Shr(arithmetic, _, _) => if arithmetic { ShrSIOk(e, env); } else { ShrUIOk(e, env); }
      case Cmp(_, _, _) => CmpOk(e, env);
      case Trunc(_, _) => ExtToTruncOk(e, env);
      case _ =>
    }
  }

  // ----- backward patterns -----

  lemma ExtendKeepsLow(m: MinimalValue, full: nat, env: Env)
    requires WellTyped(m.repr) && Width(m.repr) <= full
    ensures WellTyped(Modify(m, full)) && Width(Modify(m, full)) == full
    ensures Wrap(Eval(Modify(m, full), env), Width(m.repr)) == Eval(m.repr, env)
    ensures Defined(m.repr, env) ==> Defined(Modify(m, full), env)
  {
    ModifyOk(m, full, env);
    WrapWrap(Meaning(m.Shape(), Eval(m.repr, env)), Width(m.repr), full);
    MeaningFits(m.Shape(), Eval(m.repr, env));
  }

  lemma AddSubBWOk(e: Expr, k: nat, env: Env)
    requires WellTyped(e) && e.Bin? && (e.op.Add? || e.op.Sub?) && 1 <= k < Width(e)
    ensures ReplacesLow(e, NarrowBin(e.op, GetMinimalValue(e.lhs), GetMinimalValue(e.rhs), k, ZEXT, Width(e)), k, env)
  {
    var l, r := GetMinimalValue(e.lhs), GetMinimalValue(e.rhs);
    var full := Width(e);
    OperandOk(e.lhs, k, env);
    OperandOk(e.rhs, k, env);
    ExtendKeepsLow(MinimalValue(ZEXT, Bin(e.op, Modify(l, k), Modify(r, k))), full, env);
    OpAtIsWrapOfExact(e.op, k, Eval(e.lhs, env), Eval(e.rhs, env));
    WrapWrap(Exact(e.op, Eval(e.lhs, env), Eval(e.rhs, env)), k, full);
  }

  lemma SelectBWOk(e: Expr, k: nat, env: Env)
    requires WellTyped(e) && e.Select? && k >= 1 && ArithSelect(e, k).Some?
    ensures ReplacesLow(e, ArithSelect(e, k).value, k, env)
  {
    var l, r := GetMinimalValue(e.onTrue), GetMinimalValue(e.onFalse);
    OperandOk(e.onTrue, k, env);
    OperandOk(e.onFalse, k, env);
    ExtendKeepsLow(MinimalValue(l.extType, Select(e.cond, Modify(l, k), Modify(r, k))), Width(e), env);
  }

  /** The narrow shift the backward pass builds, before it is extended back. */
  lemma ShiftBWNarrowOk(e: Expr, cst: Expr, k: nat, w: nat, env: Env)
    requires WellTyped(e) && e.Shr? && k >= 1 && cst == e.amount && cst.Const?
    requires w == k + GetMinimalValue(cst).repr.value && w < Width(e)
    ensures var narrow := Shr(e.arithmetic, Modify(GetMinimalValue(e.lhs), w), Modify(GetMinimalValue(cst), w));
      && WellTyped(narrow) && Width(narrow) == w
      && (Defined(e, env) ==> Defined(narrow, env) && Wrap(Eval(narrow, env), k) == Wrap(Eval(e, env), k))
  {
    OperandOk(e.lhs, w, env);
    OperandOk(cst, w, env);
    ShiftAmountBW(cst.value, Width(e), k, RequiredBits(cst.value, Width(e)), w);
    var narrow := Shr(e.arithmetic, Modify(GetMinimalValue(e.lhs), w), Modify(GetMinimalValue(cst), w));
    if Defined(e, env) {
      ShiftBWLow(e, narrow, k, env);
    }
  }

  /** The backward form of a right shift by a constant: at width `k + c` the `k` low bits are those of the full width. */
  lemma ShiftBWOk(e: Expr, k: nat, env: Env)
    requires WellTyped(e) && e.Shr? && k >= 1 && ArithShiftBW(e, k).Some?
    ensures ReplacesLow(e, ArithShiftBW(e, k).value, k, env)
  {
    var cst := e.amount;
    var l, c := GetMinimalValue(e.lhs), GetMinimalValue(cst);
    var w := k + c.repr.value;
    ShiftBWNarrowOk(e, cst, k, w, env);
    var narrow := Shr(e.arithmetic, Modify(l, w), Modify(c, w));
    ExtendKeepsLow(MinimalValue(l.extType, narrow), Width(e), env);
    WrapWrap(Eval(Modify(MinimalValue(l.extType, narrow), Width(e)), env), k, w);
  }

  lemma ShiftBWLow(e: Expr, narrow: Expr, k: nat, env: Env)
    requires WellTyped(e) && e.Shr? && WellTyped(narrow) && narrow.Shr? && narrow.arithmetic == e.arithmetic
    requires k <= Width(narrow) <= Width(e)
    requires Eval(narrow.lhs, env) == Wrap(Eval(e.lhs, env), Width(narrow))
    requires var c := Eval(e.amount, env);
      if c < Width(e) then Eval(narrow.amount, env) == c && Width(narrow) == k + c
      else !e.arithmetic && Eval(narrow.amount, env) >= Width(narrow)
    ensures Wrap(Eval(narrow, env), k) == Wrap(Eval(e, env), k)
  {
    var u, c, w := Eval(e.lhs, env), Eval(e.amount, env), Width(narrow);
    if c < Width(e) {
      ShrLow(e.arithmetic, u, Width(e), w, k, c);
    } else {
      LogicalShrFits(u, Width(e), c);
      LogicalShrFits(Wrap(u, w), w, Eval(narrow.amount, env));
    }
  }

  lemma BackwardPatternOk(e: Expr, k: nat, env: Env)
    requires WellTyped(e) && k >= 1 && BackwardPattern(e, k).Some?
    ensures ReplacesLow(e, BackwardPattern(e, k).value, k, env)
  {
    match e {
      case Bin(op, _, _) =>
        if op.Add? || op.Sub? { AddSubBWOk(e, k, env); } else { SingleTypeOk(e, env); }
      case Select(_, _, _) => SelectBWOk(e, k, env);
      case Shr(_, _, _) => ShiftBWOk(e, k, env);
      case _ =>
    }
  }
}
