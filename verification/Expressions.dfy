/** Dataflow expressions over channels of arbitrary width, and the rewrite patterns of the bitwidth optimization pass on them. */
module Expressions {
  import opened Basics
  import opened Words
  import opened Bits
  import opened Transfer
  import opened Scalar

  /** `Forward` is a token that was handed on, by a buffer, fork, lazy fork or unconditional branch. `Steered` is one that was
      handed on because the control token was `port`: by a merge-like operation from its operand of this number, or by a
      conditional branch to the result for this condition. */
  datatype Expr =
    | Var(id: nat, width: nat)
    | Const(width: nat, value: nat)
    | Ext(kind: ExtType, to: nat, arg: Expr)
    | Trunc(to: nat, arg: Expr)
    | Bin(op: BinOp, lhs: Expr, rhs: Expr)
    | Select(cond: Expr, onTrue: Expr, onFalse: Expr)
    | Shr(arithmetic: bool, lhs: Expr, amount: Expr)
    | Cmp(pred: Pred, lhs: Expr, rhs: Expr)
    | Forward(arg: Expr)
    | Steered(port: nat, control: Expr, arg: Expr)

  /** Handed on, not computed. */
  predicate IsRouted(e: Expr) {
    e.Forward? || e.Steered?
  }

  type Env = nat -> nat

  function Width(e: Expr): nat {
    match e
    case Var(_, w) => w
    case Const(w, _) => w
    case Ext(_, to, _) => to
    case Trunc(to, _) => to
    case Bin(_, l, _) => Width(l)
    case Select(_, t, _) => Width(t)
    case Shr(_, l, _) => Width(l)
    case Cmp(_, _, _) => 1
    case Forward(a) => Width(a)
    case Steered(_, _, a) => Width(a)
  }

  /** The operation verifiers: extensions never narrow, truncations never widen, other operands share their width. */
  predicate WellTyped(e: Expr)
    ensures WellTyped(e) ==> Width(e) >= 1
  {
    match e
    case Var(_, w) => w >= 1
    case Const(w, v) => w >= 1 && v < Pow2(w)
    case Ext(k, to, a) => k != NONE && WellTyped(a) && Width(a) <= to
    case Trunc(to, a) => WellTyped(a) && 1 <= to <= Width(a)
    case Bin(_, l, r) => WellTyped(l) && WellTyped(r) && Width(l) == Width(r)
    case Select(c, t, f) => WellTyped(c) && WellTyped(t) && WellTyped(f) && Width(c) == 1 && Width(t) == Width(f)
    case Shr(_, l, a) => WellTyped(l) && WellTyped(a) && Width(l) == Width(a)
    case Cmp(_, l, r) => WellTyped(l) && WellTyped(r) && Width(l) == Width(r)
    case Forward(a) => WellTyped(a)
    case Steered(_, c, a) => WellTyped(c) && WellTyped(a)
  }

  function Eval(e: Expr, env: Env): (r: nat)
    requires WellTyped(e)
    ensures r < Pow2(Width(e))
  {
    match e
    case Var(id, w) => Wrap(env(id), w)
    case Const(_, v) => v
    case Ext(k, to, a) =>
      var u := Eval(a, env);
      Pow2Monotone(Width(a), to);
      if k == ZEXT then ZeroExtend(u) else SignExtend(u, Width(a), to)
    case Trunc(to, a) => Wrap(Eval(a, env), to)
    case Bin(op, l, r) => OpAt(op, Width(l), Eval(l, env), Eval(r, env))
    case Select(c, t, f) => if Eval(c, env) != 0 then Eval(t, env) else Eval(f, env)
    case Shr(arithmetic, l, a) =>
      var u, c := Eval(l, env), Eval(a, env);
      LogicalShrFits(u, Width(l), c);
      if arithmetic then ArithmeticShr(u, Width(l), c) else LogicalShr(u, c)
    case Cmp(p, l, r) => if CmpAt(p, Width(l), Eval(l, env), Eval(r, env)) then 1 else 0
    case Forward(a) => Eval(a, env)
    case Steered(_, _, a) => Eval(a, env)
  }

  // ----- minimal values -----

  datatype MinimalValue = MinimalValue(extType: ExtType, repr: Expr)
  {
    function Shape(): ExtWidth {
      ExtWidth(extType, Width(repr))
    }
  }

  function GetMinimalValue(e: Expr): MinimalValue
    requires WellTyped(e)
  {
    match e
    case Ext(k, _, a) => MinimalValue(k, a)
    case Const(w, v) => MinimalValue(ConstantExt(v, w), Const(RequiredBits(v, w), Wrap(v, RequiredBits(v, w))))
    case _ => MinimalValue(NONE, e)
  }

  function Modify(m: MinimalValue, target: nat): Expr {
    var w := Width(m.repr);
    if w == target then m.repr
    else if w < target then Ext(if m.extType == ZEXT then ZEXT else SEXT, target, m.repr)
    else Trunc(target, m.repr)
  }

  // ----- rewrite patterns -----

  function NarrowBin(op: BinOp, l: MinimalValue, r: MinimalValue, w: nat, ext: ExtType, full: nat): Expr {
    Modify(MinimalValue(ext, Bin(op, Modify(l, w), Modify(r, w))), full)
  }

  function NarrowShr(arithmetic: bool, l: MinimalValue, amount: MinimalValue, w: nat, ext: ExtType, full: nat): Expr {
    Modify(MinimalValue(ext, Shr(arithmetic, Modify(l, w), Modify(amount, w))), full)
  }

  function ArithSingleType(e: Expr): Option<Expr>
    requires WellTyped(e) && e.Bin?
  {
    var l, r := GetMinimalValue(e.lhs), GetMinimalValue(e.rhs);
    var t := TransferOf(e.op, l.Shape(), r.Shape());
    if t.bitWidth >= Width(e) then None
    else Some(NarrowBin(e.op, l, r, t.bitWidth, t.extType, Width(e)))
  }

  function ArithSelect(e: Expr, optWidth: nat): Option<Expr>
    requires WellTyped(e) && e.Select?
  {
    var l, r := GetMinimalValue(e.onTrue), GetMinimalValue(e.onFalse);
    if optWidth >= Width(e) then None
    else if (l.extType == ZEXT && r.extType == SEXT) || (l.extType == SEXT && r.extType == ZEXT) then None
    else Some(Modify(MinimalValue(l.extType, Select(e.cond, Modify(l, optWidth), Modify(r, optWidth))), Width(e)))
  }

  function ArithSelectFW(e: Expr): Option<Expr>
    requires WellTyped(e) && e.Select?
  {
    ArithSelect(e, Max(GetMinimalValue(e.onTrue).Shape().bitWidth, GetMinimalValue(e.onFalse).Shape().bitWidth))
  }

  function ArithShrUIFW(e: Expr): Option<Expr>
    requires WellTyped(e) && e.Shr? && !e.arithmetic
  {
    var l := GetMinimalValue(e.lhs);
    var m, full := Width(l.repr), Width(e);
    if m >= full || !e.amount.Const? then None
    else
      var c := e.amount.value;
      if c >= full then None
      else if l.extType == ZEXT then
        if c >= m then Some(Const(full, 0))
        else Some(NarrowShr(false, l, MinimalValue(NONE, e.amount), m, ZEXT, full))
      else
        var top :=
          if c < m then Trunc(m - c, Shr(false, l.repr, Modify(MinimalValue(NONE, e.amount), m)))
          else Trunc(1, Shr(false, l.repr, Const(m, m - 1)));
        Some(Ext(ZEXT, full, Ext(SEXT, full - c, top)))
  }

  function ArithShrSIFW(e: Expr): Option<Expr>
    requires WellTyped(e) && e.Shr? && e.arithmetic
  {
    var l := GetMinimalValue(e.lhs);
    var m, full := Width(l.repr), Width(e);
    if m >= full || !e.amount.Const? then None
    else
      var c := e.amount.value;
      if c >= full || l.extType == ZEXT then None
      else if c < m then Some(NarrowShr(true, l, MinimalValue(NONE, e.amount), m, SEXT, full))
      else Some(Ext(SEXT, full, Shr(true, l.repr, Const(m, m - 1))))
  }

  function ArithCmpFW(e: Expr): Option<Expr>
    requires WellTyped(e) && e.Cmp?
  {
    var l, r := GetMinimalValue(e.lhs), GetMinimalValue(e.rhs);
    var w := CmpWidth(e.pred, l.Shape(), r.Shape());
    if w >= Width(e.lhs) then None else Some(Cmp(e.pred, Modify(l, w), Modify(r, w)))
  }

  function ArithExtToTrunc(e: Expr): Option<Expr>
    requires WellTyped(e) && e.Trunc?
  {
    var m := GetMinimalValue(e.arg);
    if m.extType == NONE || e.to == Width(m.repr) then None else Some(Modify(m, e.to))
  }

  function ArithShiftBW(e: Expr, useful: nat): Option<Expr>
    requires WellTyped(e) && e.Shr?
  {
    if !e.amount.Const? then None
    else
      var l, c := GetMinimalValue(e.lhs), GetMinimalValue(e.amount);
      var optWidth := useful + c.repr.value;
      if optWidth >= Width(e) then None
      else Some(NarrowShr(e.arithmetic, l, c, optWidth, l.extType, Width(e)))
  }

  /** All forward patterns at the root of an expression. */
  function ForwardPattern(e: Expr): Option<Expr>
    requires WellTyped(e)
  {
    match e
    case Bin(_, _, _) => ArithSingleType(e)
    case Select(_, _, _) => ArithSelectFW(e)
    case Shr(arithmetic, _, _) => if arithmetic then ArithShrSIFW(e) else ArithShrUIFW(e)
    case Cmp(_, _, _) => ArithCmpFW(e)
    case Trunc(_, _) => ArithExtToTrunc(e)
    case _ => None
  }

  /** The backward patterns on an operation of whose result the users need `useful` low bits. */
  function BackwardPattern(e: Expr, useful: nat): Option<Expr>
    requires WellTyped(e)
  {
    match e
    case Bin(op, l, r) =>
      if op.Add? || op.Sub? then
        if useful >= Width(e) then None
        else Some(NarrowBin(op, GetMinimalValue(l), GetMinimalValue(r), useful, ZEXT, Width(e)))
      else ArithSingleType(e)
    case Select(_, _, _) => ArithSelect(e, useful)
    case Shr(_, _, _) => ArithShiftBW(e, useful)
    case _ => None
  }
}
