/** Minimal values and the transfer functions of the bitwidth optimization pass.

A minimal value is a narrower word together with the extension that gives the original word
back. A transfer function picks, from the minimal widths of two operands, the width at which
an operation may be performed and the extension to apply to its result.
 */
module Transfer {
  import opened Basics
  import opened Words
  import opened Bits

  datatype ExtType = NONE | ZEXT | SEXT
  {
    function Rank(): nat {
      match this
      case NONE => 0
      case ZEXT => 1
      case SEXT => 2
    }
  }

  datatype ExtWidth = ExtWidth(extType: ExtType, bitWidth: nat)

  datatype BinOp = Add | Sub | Mul | Bits(op: BitOp)

  // ----- extension, truncation and the operations at a given width -----

  function ZeroExtend(u: nat): nat {
    u
  }

  function SignExtend(u: nat, from: nat, to: nat): nat
    requires 1 <= from <= to
  {
    Pow2Monotone(from, to);
    if u < Pow2(from - 1) then u else u + Pow2(to) - Pow2(from)
  }

  /** The word computed by a binary operation on two words of width `w`. */
  function OpAt(op: BinOp, w: nat, a: nat, b: nat): (r: nat)
    ensures r < Pow2(w)
  {
    match op
    case Add => Wrap(a + b, w)
    case Sub => Wrap(a - b, w)
    case Mul => Wrap(a * b, w)
    case Bits(bop) => Bitwise(bop, w, a, b)
  }

  /** The word that `modBitWidth` produces: unknown signedness extends arithmetically. */
  function ModBitWidth(m: ExtWidth, u: nat, target: nat): nat
    requires m.bitWidth >= 1
  {
    if m.bitWidth == target then u
    else if m.bitWidth < target then
      if m.extType == ZEXT then ZeroExtend(u) else SignExtend(u, m.bitWidth, target)
    else Wrap(u, target)
  }

  // ----- transfer functions -----

  function CanonicalizeCommutative(lhs: ExtWidth, rhs: ExtWidth): (ExtWidth, ExtWidth) {
    if lhs.extType.Rank() > rhs.extType.Rank() then (rhs, lhs) else (lhs, rhs)
  }

  function AddWidth(l: ExtWidth, r: ExtWidth): ExtWidth {
    var (lhs, rhs) := CanonicalizeCommutative(l, r);
    var m := Max(lhs.bitWidth, rhs.bitWidth);
    if rhs.extType.Rank() <= ZEXT.Rank() then ExtWidth(ZEXT, m + 1)
    else if lhs.extType == SEXT || lhs.bitWidth < rhs.bitWidth then ExtWidth(SEXT, m + 1)
    else ExtWidth(SEXT, m + 2)
  }

  function SubWidth(l: ExtWidth, r: ExtWidth): ExtWidth {
    if l.extType == r.extType then ExtWidth(SEXT, Max(l.bitWidth, r.bitWidth) + 1) else AddWidth(l, r)
  }

  function MulWidth(l: ExtWidth, r: ExtWidth): ExtWidth {
    var (lhs, rhs) := CanonicalizeCommutative(l, r);
    ExtWidth(rhs.extType, lhs.bitWidth + rhs.bitWidth)
  }

  function AndWidth(l: ExtWidth, r: ExtWidth): ExtWidth {
    var (lhs, rhs) := CanonicalizeCommutative(l, r);
    if rhs.extType.Rank() <= ZEXT.Rank() then ExtWidth(ZEXT, Min(lhs.bitWidth, rhs.bitWidth))
    else if lhs.extType == ZEXT then ExtWidth(ZEXT, lhs.bitWidth)
    else ExtWidth(SEXT, Max(lhs.bitWidth, rhs.bitWidth))
  }

  function OrWidth(l: ExtWidth, r: ExtWidth): ExtWidth {
    var (lhs, rhs) := CanonicalizeCommutative(l, r);
    var m := Max(lhs.bitWidth, rhs.bitWidth);
    if rhs.extType.Rank() <= ZEXT.Rank() then ExtWidth(ZEXT, m)
    else if lhs.extType == ZEXT && lhs.bitWidth >= rhs.bitWidth then ExtWidth(SEXT, 1 + lhs.bitWidth)
    else ExtWidth(SEXT, m)
  }

  /** The transfer function registered for each operation. */
  function TransferOf(op: BinOp, l: ExtWidth, r: ExtWidth): ExtWidth {
    match op
    case Add => AddWidth(l, r)
    case Sub => SubWidth(l, r)
    case Mul => MulWidth(l, r)
    case Bits(And) => AndWidth(l, r)
    case Bits(_) => OrWidth(l, r)
  }

  // ----- what a minimal value stands for -----

  /** The integer a minimal word stands for, at every width it may be extended to. */
  function Meaning(m: ExtWidth, u: nat): int
    requires m.bitWidth >= 1
  {
    if m.extType == ZEXT then u else Signed(u, m.bitWidth)
  }

  predicate Fits(e: ExtType, i: int, w: nat) {
    if e == ZEXT then FitsUnsigned(i, w) else FitsSigned(i, w)
  }

  /** A minimal operand of an operation of width `full`; without an extension it has the full width. */
  predicate IsMinimal(m: ExtWidth, u: nat, full: nat) {
    && 1 <= m.bitWidth <= full
    && u < Pow2(m.bitWidth)
    && (m.extType == NONE ==> m.bitWidth == full)
  }

  lemma MeaningFits(m: ExtWidth, u: nat)
    requires m.bitWidth >= 1 && u < Pow2(m.bitWidth)
    ensures Fits(m.extType, Meaning(m, u), m.bitWidth)
    ensures Wrap(Meaning(m, u), m.bitWidth) == u
  {
    WrapSigned(u, m.bitWidth);
    WrapSmall(u, m.bitWidth);
  }

  /** Whatever the target width, `modBitWidth` yields the word of the integer the minimal value stands for. */
  lemma ModBitWidthIsWrap(m: ExtWidth, u: nat, target: nat)
    requires m.bitWidth >= 1 && u < Pow2(m.bitWidth)
    ensures ModBitWidth(m, u, target) == Wrap(Meaning(m, u), target)
  {
    var i := Meaning(m, u);
    MeaningFits(m, u);
    if target < m.bitWidth {
      WrapWrap(i, target, m.bitWidth);
    } else if m.bitWidth < target {
      Pow2Monotone(m.bitWidth, target);
      if i >= 0 {
        WrapSmall(i, target);
      } else {
        NegativeWraps(i, target);
      }
    }
  }

  lemma NegativeWraps(i: int, w: nat)
    requires -(Pow2(w) as int) <= i < 0
    ensures Wrap(i, w) == i + Pow2(w)
  {
    WrapUnique(i, w, -1, i + Pow2(w));
  }

  /** Narrowing to a width at which the integer fits, then extending, loses nothing. */
  lemma NarrowThenExtend(m: ExtWidth, i: int, target: nat)
    requires m.bitWidth >= 1 && Fits(m.extType, i, m.bitWidth)
    ensures Meaning(m, Wrap(i, m.bitWidth)) == i
    ensures ModBitWidth(m, Wrap(i, m.bitWidth), target) == Wrap(i, target)
  {
    if m.extType == ZEXT {
      WrapSmall(i, m.bitWidth);
    } else {
      SignedOfWrap(i, m.bitWidth);
    }
    ModBitWidthIsWrap(m, Wrap(i, m.bitWidth), target);
  }

  // ----- forward soundness -----

  /** The exact integer result of an arithmetic operation. */
  function Exact(op: BinOp, x: int, y: int): int
    requires !op.Bits?
  {
    match op
    case Add => x + y
    case Sub => x - y
    case Mul => x * y
  }

  lemma OpAtIsWrapOfExact(op: BinOp, w: nat, x: int, y: int)
    requires !op.Bits?
    ensures OpAt(op, w, Wrap(x, w), Wrap(y, w)) == Wrap(Exact(op, x, y), w)
  {
    match op
    case Add => WrapAdd(x, y, w);
    case Sub => WrapSub(x, y, w);
    case Mul => WrapMul(x, y, w);
  }

  lemma ProductBounds(x: int, y: int, a: int, b: int)
    requires a >= 0 && b >= 0
    requires -a <= x <= a && -b <= y <= b
    ensures -(a * b) <= x * y <= a * b
    ensures x >= 0 && y >= 0 && x < a && y < b ==> 0 <= x * y < a * b
    ensures 0 <= x < a && b > 0 ==> -(a * b) < x * y < a * b
  {
    if x >= 0 {
      Scale(-b, y, x);
      Scale(y, b, x);
      Scale(x, a, b);
      if x < a && b > 0 {
        ScaleStrictly(x, a, b);
      }
    } else {
      Scale(-b, y, -x);
      Scale(y, b, -x);
      Scale(-x, a, b);
    }
    if x >= 0 && y >= 0 {
      Scale(0, y, x);
    }
  }

  lemma Scale(x: int, y: int, k: int)
    requires x <= y && k >= 0
    ensures x * k <= y * k
  {
    assert (y - x) * k >= 0;
  }

  lemma ScaleStrictly(x: int, y: int, k: int)
    requires x < y && k > 0
    ensures x * k < y * k
  {
    assert (y - x) * k > 0;
  }

  lemma MulFits(l: ExtWidth, r: ExtWidth, x: int, y: int)
    requires l.bitWidth >= 1 && r.bitWidth >= 1 && l.extType != NONE && r.extType != NONE
    requires Fits(l.extType, x, l.bitWidth) && Fits(r.extType, y, r.bitWidth)
    ensures Fits(MulWidth(l, r).extType, x * y, l.bitWidth + r.bitWidth)
  {
    var m, n := l.bitWidth, r.bitWidth;
    var a := if l.extType == ZEXT then Pow2(m) else Pow2(m - 1);
    var b := if r.extType == ZEXT then Pow2(n) else Pow2(n - 1);
    ProductBounds(x, y, a, b);
    ProductBounds(y, x, b, a);
    Pow2Adds(m, n);
    Pow2Adds(m - 1, n);
    Pow2Adds(m, n - 1);
    Pow2Adds(m - 1, n - 1);
  }

  /** Everything about the powers of two around the wider of two widths. */
  lemma WidthsAround(a: nat, b: nat, m: nat)
    requires a >= 1 && b >= 1 && m == Max(a, b)
    ensures Pow2(a) <= Pow2(m) && Pow2(b) <= Pow2(m)
    ensures Pow2(a) == 2 * Pow2(a - 1) && Pow2(b) == 2 * Pow2(b - 1) && Pow2(m) == 2 * Pow2(m - 1)
    ensures Pow2(m + 1) == 2 * Pow2(m) && Pow2(m + 2) == 4 * Pow2(m)
    ensures a < b ==> 2 * Pow2(a) <= Pow2(b)
    ensures b < a ==> 2 * Pow2(b) <= Pow2(a)
  {
    Pow2Monotone(a, m);
    Pow2Monotone(b, m);
    assert Pow2(m + 2) == 2 * Pow2(m + 1);
    if a < b { Pow2Monotone(a, b); }
    if b < a { Pow2Monotone(b, a); }
  }

  lemma AddFits(l: ExtWidth, r: ExtWidth, x: int, y: int)
    requires l.bitWidth >= 1 && r.bitWidth >= 1 && l.extType != NONE && r.extType != NONE
    requires Fits(l.extType, x, l.bitWidth) && Fits(r.extType, y, r.bitWidth)
    ensures Fits(AddWidth(l, r).extType, x + y, AddWidth(l, r).bitWidth)
  {
    WidthsAround(l.bitWidth, r.bitWidth, Max(l.bitWidth, r.bitWidth));
  }

  lemma SubFits(l: ExtWidth, r: ExtWidth, x: int, y: int)
    requires l.bitWidth >= 1 && r.bitWidth >= 1 && l.extType != NONE && r.extType != NONE
    requires Fits(l.extType, x, l.bitWidth) && Fits(r.extType, y, r.bitWidth)
    ensures Fits(SubWidth(l, r).extType, x - y, SubWidth(l, r).bitWidth)
  {
    WidthsAround(l.bitWidth, r.bitWidth, Max(l.bitWidth, r.bitWidth));
  }

  /** If a transfer function finds a narrower width then no operand it depends on lacks an extension. */
  lemma NarrowMeansExtended(op: BinOp, l: ExtWidth, r: ExtWidth, u: nat, v: nat, full: nat)
    requires IsMinimal(l, u, full) && IsMinimal(r, v, full)
    requires TransferOf(op, l, r).bitWidth < full
    ensures TransferOf(op, l, r).extType != NONE && TransferOf(op, l, r).bitWidth >= 1
    ensures op != Bits(And) ==> l.extType != NONE && r.extType != NONE
  {
  }

  /** For every bitwise operation, the exact result's bits from the narrow width on are what the extension adds. */
  lemma BitsAbove(op: BitOp, l: ExtWidth, r: ExtWidth, x: int, y: int, full: nat, k: nat)
    requires 1 <= l.bitWidth <= full && 1 <= r.bitWidth <= full
    requires Fits(l.extType, x, l.bitWidth) && Fits(r.extType, y, r.bitWidth)
    requires l.extType == NONE ==> l.bitWidth == full
    requires r.extType == NONE ==> r.bitWidth == full
    requires TransferOf(BinOp.Bits(op), l, r).bitWidth <= k < full
    ensures ApplyBit(op, Bit(x, k), Bit(y, k)) ==
            var t := TransferOf(BinOp.Bits(op), l, r);
            if t.extType == ZEXT then false else ApplyBit(op, Bit(x, t.bitWidth - 1), Bit(y, t.bitWidth - 1))
  {
    var top := TransferOf(BinOp.Bits(op), l, r).bitWidth - 1;
    BitsAboveOperand(l, x, k);
    BitsAboveOperand(r, y, k);
    BitsAboveOperand(l, x, top);
    BitsAboveOperand(r, y, top);
  }

  lemma BitsAboveOperand(m: ExtWidth, x: int, k: nat)
    requires 1 <= m.bitWidth && Fits(m.extType, x, m.bitWidth)
    ensures m.extType == ZEXT && k >= m.bitWidth ==> !Bit(x, k)
    ensures m.extType != ZEXT && k >= m.bitWidth - 1 ==> Bit(x, k) == (x < 0)
  {
    if m.extType == ZEXT && k >= m.bitWidth {
      BitBeyondUnsigned(x, m.bitWidth, k);
    }
    if m.extType != ZEXT && k >= m.bitWidth - 1 {
      BitBeyondSigned(x, m.bitWidth, k);
    }
  }

  lemma BitsOfExtended(m: ExtWidth, u: nat, full: nat, k: nat)
    requires 1 <= m.bitWidth <= full && u < Pow2(m.bitWidth) && k < full
    ensures Bit(ModBitWidth(m, u, full), k) ==
            if k < m.bitWidth then Bit(u, k) else if m.extType == ZEXT then false else Bit(u, m.bitWidth - 1)
  {
    var i := Meaning(m, u);
    ModBitWidthIsWrap(m, u, full);
    MeaningFits(m, u);
    BitOfWrap(i, full, k);
    if k < m.bitWidth {
      BitOfWrap(i, m.bitWidth, k);
    } else {
      BitsAboveOperand(m, i, k);
      BitsAboveOperand(m, i, m.bitWidth - 1);
      BitOfWrap(i, m.bitWidth, m.bitWidth - 1);
    }
  }

  lemma BitwiseForward(op: BitOp, l: ExtWidth, r: ExtWidth, u: nat, v: nat, full: nat)
    requires IsMinimal(l, u, full) && IsMinimal(r, v, full)
    requires TransferOf(BinOp.Bits(op), l, r).bitWidth < full
    ensures var t := TransferOf(BinOp.Bits(op), l, r);
      && t.bitWidth >= 1
      && ModBitWidth(t, Bitwise(op, t.bitWidth, ModBitWidth(l, u, t.bitWidth), ModBitWidth(r, v, t.bitWidth)), full)
         == Bitwise(op, full, ModBitWidth(l, u, full), ModBitWidth(r, v, full))
  {
    var t := TransferOf(BinOp.Bits(op), l, r);
    var w := t.bitWidth;
    var x, y := Meaning(l, u), Meaning(r, v);
    MeaningFits(l, u);
    MeaningFits(r, v);
    ModBitWidthIsWrap(l, u, w);
    ModBitWidthIsWrap(r, v, w);
    ModBitWidthIsWrap(l, u, full);
    ModBitWidthIsWrap(r, v, full);
    var narrow := Bitwise(op, w, Wrap(x, w), Wrap(y, w));
    var wide := Bitwise(op, full, Wrap(x, full), Wrap(y, full));
    forall k: nat | k < full ensures Bit(ModBitWidth(t, narrow, full), k) == Bit(wide, k) {
      BitOfExact(op, full, x, y, k);
      BitsOfExtended(t, narrow, full, k);
      if k < w {
        BitOfExact(op, w, x, y, k);
      } else {
        BitOfExact(op, w, x, y, w - 1);
        BitsAbove(op, l, r, x, y, full, k);
      }
    }
    ModBitWidthIsWrap(t, narrow, full);
    BitsDetermine(full, ModBitWidth(t, narrow, full), wide);
  }

  lemma BitOfExact(op: BitOp, w: nat, x: int, y: int, k: nat)
    requires k < w
    ensures Bit(Bitwise(op, w, Wrap(x, w), Wrap(y, w)), k) == ApplyBit(op, Bit(x, k), Bit(y, k))
  {
    BitOfBitwise(op, w, Wrap(x, w), Wrap(y, w), k);
    BitOfWrap(x, w, k);
    BitOfWrap(y, w, k);
  }

  /** Forward soundness: whenever a transfer function picks a narrower width, the operation at that width,
      re-extended by the extension it picks, is the operation at full width. */
  lemma ForwardSound(op: BinOp, l: ExtWidth, r: ExtWidth, u: nat, v: nat, full: nat)
    requires IsMinimal(l, u, full) && IsMinimal(r, v, full)
    requires TransferOf(op, l, r).bitWidth < full
    ensures var t := TransferOf(op, l, r);
      && t.bitWidth >= 1
      && ModBitWidth(t, OpAt(op, t.bitWidth, ModBitWidth(l, u, t.bitWidth), ModBitWidth(r, v, t.bitWidth)), full)
         == OpAt(op, full, ModBitWidth(l, u, full), ModBitWidth(r, v, full))
  {
    var t := TransferOf(op, l, r);
    match op {
      case Bits(bop) =>
        BitwiseForward(bop, l, r, u, v, full);
      case _ =>
        var x, y := Meaning(l, u), Meaning(r, v);
        NarrowMeansExtended(op, l, r, u, v, full);
        MeaningFits(l, u);
        MeaningFits(r, v);
        AddFits(l, r, x, y);
        SubFits(l, r, x, y);
        MulFits(l, r, x, y);
        assert Fits(t.extType, Exact(op, x, y), t.bitWidth);
        ModBitWidthIsWrap(l, u, t.bitWidth);
        ModBitWidthIsWrap(r, v, t.bitWidth);
        ModBitWidthIsWrap(l, u, full);
        ModBitWidthIsWrap(r, v, full);
        OpAtIsWrapOfExact(op, t.bitWidth, x, y);
        OpAtIsWrapOfExact(op, full, x, y);
        NarrowThenExtend(t, Exact(op, x, y), full);
    }
  }
}
