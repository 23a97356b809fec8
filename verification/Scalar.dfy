/** Width requirements of constants, shifts and comparisons on words of symbolic width. */
module Scalar {
  import opened Basics
  import opened Words
  import opened Transfer

  // ----- constants -----

  /** Position of the highest set bit plus one. */
  function ActiveBits(v: nat): nat {
    if v == 0 then 0 else 1 + ActiveBits(v / 2)
  }

  predicate IsNegative(v: nat, w: nat)
    requires w >= 1
  {
    v >= Pow2(w - 1)
  }

  /** Bits required to represent a constant of declared width `w`: active bits when non-negative,
      significant bits (active bits of the complement plus the sign) when negative, at least one. */
  function RequiredBits(v: nat, w: nat): (n: nat)
    requires w >= 1 && v < Pow2(w)
    ensures n >= 1
  {
    if IsNegative(v, w) then ActiveBits(Pow2(w) - 1 - v) + 1 else Max(ActiveBits(v), 1)
  }

  lemma {:induction false} ActiveBitsIsLeast(v: nat, n: nat)
    ensures v < Pow2(n) <==> n >= ActiveBits(v)
  {
    if n > 0 && v > 0 {
      ActiveBitsIsLeast(v / 2, n - 1);
    }
  }

  function ConstantExt(v: nat, w: nat): ExtType
    requires w >= 1 && v < Pow2(w)
  {
    if RequiredBits(v, w) >= w then NONE else if IsNegative(v, w) then SEXT else ZEXT
  }

  /** `RequiredBits` is the least width at which the constant fits its extension, and it never exceeds the declared width. */
  lemma RequiredBitsIsLeast(v: nat, w: nat, n: nat)
    requires w >= 1 && v < Pow2(w) && n >= 1
    ensures IsNegative(v, w) ==> (FitsSigned(Signed(v, w), n) <==> n >= RequiredBits(v, w))
    ensures !IsNegative(v, w) ==> (FitsUnsigned(Signed(v, w), n) <==> n >= RequiredBits(v, w))
    ensures RequiredBits(v, w) <= w
  {
    if IsNegative(v, w) {
      var c := Pow2(w) - 1 - v;
      ActiveBitsIsLeast(c, n - 1);
      ActiveBitsIsLeast(c, w - 1);
    } else {
      ActiveBitsIsLeast(v, n);
      ActiveBitsIsLeast(v, w);
    }
  }

  // ----- right shifts -----

  /** Shift amounts at or above the width shift everything out. */
  function LogicalShr(u: nat, c: nat): int {
    ShiftRight(u, c)
  }

  function ArithmeticShr(u: nat, w: nat, c: nat): nat
    requires w >= 1
  {
    Wrap(ShiftRight(Signed(u, w), c), w)
  }

  lemma {:induction false} LogicalShrFits(u: nat, w: nat, c: nat)
    requires u < Pow2(w)
    ensures 0 <= LogicalShr(u, c) < Pow2(w)
    ensures c >= w ==> LogicalShr(u, c) == 0
    decreases c
  {
    if c > 0 {
      LogicalShrFits(u / 2, if w == 0 then 0 else w - 1, c - 1);
    }
  }

  /** A signed word shifted right by `c` fits on `c` bits fewer, or on its sign bit alone. */
  lemma {:induction false} SignedShrFits(s: int, m: nat, c: nat)
    requires FitsSigned(s, m)
    ensures c < m ==> FitsSigned(ShiftRight(s, c), m - c)
    ensures c >= m - 1 ==> ShiftRight(s, c) == (if s < 0 then -1 else 0)
    decreases c
  {
    if c > 0 {
      SignedShrFits(s / 2, if m == 1 then 1 else m - 1, c - 1);
    }
  }

  /** The word of a signed integer, shifted right logically, is the word of the shifted integer on fewer bits. */
  lemma LogicalShrOfWrap(s: int, w: nat, c: nat)
    requires c <= w
    ensures LogicalShr(Wrap(s, w), c) == Wrap(ShiftRight(s, c), w - c)
  {
    WrapShiftRight(s, w, c);
  }

  lemma SignExtendIsWrap(u: nat, from: nat, to: nat)
    requires 1 <= from <= to && u < Pow2(from)
    ensures SignExtend(u, from, to) == Wrap(Signed(u, from), to)
    ensures Wrap(Signed(u, from), from) == u && FitsSigned(Signed(u, from), from)
  {
    WrapSigned(u, from);
    ModBitWidthIsWrap(ExtWidth(SEXT, from), u, to);
  }

  lemma SignExtendOfWrap(i: int, from: nat, to: nat)
    requires from <= to && FitsSigned(i, from)
    ensures SignExtend(Wrap(i, from), from, to) == Wrap(i, to)
  {
    NarrowThenExtend(ExtWidth(SEXT, from), i, to);
  }

  lemma ShrBelowSign(s: int, m: nat, c: nat)
    requires FitsSigned(s, m)
    ensures ShiftRight(s, Min(c, m - 1)) == ShiftRight(s, c)
    ensures FitsSigned(ShiftRight(s, c), m - Min(c, m - 1))
  {
    SignedShrFits(s, m, c);
    SignedShrFits(s, m, Min(c, m - 1));
  }

  /** Logical shift of a sign-extended value: shift the narrow word by at most its width less one, cut it so that the
      sign bit is on top again, sign-extend up to the `c` top bits; zero-extending over those is implicit. */
  lemma LogicalShrOfSext(u: nat, m: nat, full: nat, c: nat, narrow: nat)
    requires 1 <= m <= full && u < Pow2(m) && c < full && narrow == Min(c, m - 1)
    ensures LogicalShr(SignExtend(u, m, full), c)
            == SignExtend(Wrap(LogicalShr(u, narrow), m - narrow), m - narrow, full - c)
  {
    var s := Signed(u, m);
    SignExtendIsWrap(u, m, full);
    LogicalShrOfWrap(s, full, c);
    LogicalShrOfWrap(s, m, narrow);
    ShrBelowSign(s, m, c);
    SignExtendOfWrap(ShiftRight(s, c), m - narrow, full - c);
    WrapWrap(ShiftRight(s, c), m - narrow, m - narrow);
  }

  /** Arithmetic shift of a sign-extended value: shift the narrow word (by at most its width less one), then sign-extend. */
  lemma ArithmeticShrOfSext(u: nat, m: nat, full: nat, c: nat)
    requires 1 <= m <= full && u < Pow2(m)
    ensures ArithmeticShr(SignExtend(u, m, full), full, c)
            == SignExtend(ArithmeticShr(u, m, Min(c, m - 1)), m, full)
  {
    var s := Signed(u, m);
    var narrow := Min(c, m - 1);
    SignExtendIsWrap(u, m, full);
    FitsWider(s, m, full);
    SignedOfWrap(s, full);
    SignedShrFits(s, m, c);
    SignedShrFits(s, m, narrow);
    FitsWider(ShiftRight(s, c), m - narrow, m);
    SignExtendOfWrap(ShiftRight(s, c), m, full);
  }

  /** The low `k` bits of a right shift by `c` depend on the low `k + c` bits of the word only. */
  lemma ShrLowBits(i: int, k: nat, c: nat, w: nat)
    requires k + c <= w
    ensures Wrap(ShiftRight(Wrap(i, w), c), k) == Wrap(ShiftRight(i, c), k)
  {
    WrapShiftRight(i, w, c);
    WrapWrap(ShiftRight(i, c), k, w - c);
  }

  /** A negative integer's word is large: at least its own width. */
  lemma WrapNegative(s: int, w: nat)
    requires s < 0 && FitsSigned(s, w)
    ensures Wrap(s, w) == s + Pow2(w) && Wrap(s, w) >= w
  {
    SignedOfWrap(s, w);
    NegativeWord(Wrap(s, w), w);
  }

  lemma NegativeWord(u: nat, w: nat)
    requires w >= 1 && u < Pow2(w) && Signed(u, w) < 0
    ensures u == Signed(u, w) + Pow2(w) && u >= w
  {
    Pow2Exceeds(w - 1);
  }

  /** The constant amount of a right shift as the backward pass sees it: unchanged when the shift is defined,
      otherwise still at or above the reduced width. */
  lemma ShiftAmountBW(v: nat, full: nat, k: nat, b: nat, w: nat)
    requires full >= 1 && v < Pow2(full) && k >= 1
    requires b == RequiredBits(v, full) && w == k + Wrap(v, b) && w < full
    ensures var amount := ModBitWidth(ExtWidth(ConstantExt(v, full), b), Wrap(v, b), w);
      if v < full then amount == v && Wrap(v, b) == v else amount >= w
  {
    RequiredBitsFit(v, full);
    if IsNegative(v, full) {
      NegativeIsLarge(v, full);
      NegativeAmountBW(v, full, b, w, k);
    } else {
      PositiveAmountBW(v, full, b, w, k);
    }
  }

  lemma RequiredBitsFit(v: nat, full: nat)
    requires full >= 1 && v < Pow2(full)
    ensures var b := RequiredBits(v, full); b <= full && if IsNegative(v, full) then FitsSigned(Signed(v, full), b) else v < Pow2(b)
  {
    RequiredBitsIsLeast(v, full, RequiredBits(v, full));
  }

  lemma NegativeIsLarge(v: nat, full: nat)
    requires full >= 1 && IsNegative(v, full)
    ensures v >= full
  {
    Pow2Exceeds(full - 1);
  }

  lemma PositiveAmountBW(v: nat, full: nat, b: nat, w: nat, k: nat)
    requires full >= 1 && v < Pow2(full) && !IsNegative(v, full) && b == RequiredBits(v, full) && b <= full && v < Pow2(b)
    requires w == k + Wrap(v, b) && w < full && k >= 1
    ensures v < full && Wrap(v, b) == v && ModBitWidth(ExtWidth(ConstantExt(v, full), b), Wrap(v, b), w) == v
  {
    WrapSmall(v, b);
    Pow2Exceeds(w);
    WrapSmall(v, w);
  }

  lemma NegativeAmountBW(v: nat, full: nat, b: nat, w: nat, k: nat)
    requires full >= 1 && v < Pow2(full) && IsNegative(v, full) && 1 <= b <= full && FitsSigned(Signed(v, full), b)
    requires w == k + Wrap(v, b) && w < full && k >= 1
    ensures b < w && ModBitWidth(ExtWidth(SEXT, b), Wrap(v, b), w) >= w
  {
    var s := Signed(v, full);
    WrapSigned(v, full);
    WrapWrap(s, b, full);
    WrapNegative(s, b);
    NarrowThenExtend(ExtWidth(SEXT, b), s, w);
    FitsWider(s, b, w);
    WrapNegative(s, w);
  }

  /** The `k` low bits of a right shift by `c` come out right at width `k + c`, logical or arithmetic. */
  lemma ShrLow(arithmetic: bool, u: nat, full: nat, w: nat, k: nat, c: nat)
    requires 1 <= w <= full && u < Pow2(full) && w == k + c
    ensures Wrap(if arithmetic then ArithmeticShr(Wrap(u, w), w, c) else LogicalShr(Wrap(u, w), c), k)
            == Wrap(if arithmetic then ArithmeticShr(u, full, c) else LogicalShr(u, c), k)
  {
    if arithmetic {
      var s, t := Signed(u, full), Signed(Wrap(u, w), w);
      WrapSigned(u, full);
      WrapSigned(Wrap(u, w), w);
      WrapWrap(s, w, full);
      WrapWrap(ShiftRight(s, c), k, full);
      WrapWrap(ShiftRight(t, c), k, w);
      ShrLowBits(s, k, c, w);
      ShrLowBits(t, k, c, w);
    } else {
      ShrLowBits(u, k, c, w);
    }
  }

  // ----- comparisons -----

  datatype Pred = EQ | NE | SLT | SLE | SGT | SGE | ULT | ULE | UGT | UGE
  {
    predicate IsSigned() {
      SLT? || SLE? || SGT? || SGE?
    }
  }

  predicate Compare(p: Pred, a: int, b: int) {
    match p
    case EQ => a == b
    case NE => a != b
    case SLT => a < b
    case ULT => a < b
    case SLE => a <= b
    case ULE => a <= b
    case SGT => a > b
    case UGT => a > b
    case SGE => a >= b
    case UGE => a >= b
  }

  /** The comparison performed on two words of width `w`. */
  predicate CmpAt(p: Pred, w: nat, a: nat, b: nat)
    requires w >= 1
  {
    if p.IsSigned() then Compare(p, Signed(a, w), Signed(b, w)) else Compare(p, a, b)
  }

  /** Width at which a comparison is performed in the forward pass. */
  function CmpWidth(p: Pred, l: ExtWidth, r: ExtWidth): nat {
    var w := Max(l.bitWidth, r.bitWidth);
    if p.IsSigned() then
      if (l.extType == ZEXT && l.bitWidth >= r.bitWidth) || (r.extType == ZEXT && r.bitWidth >= l.bitWidth) then w + 1
      else w
    else
      if (l.extType == ZEXT && r.extType == SEXT && l.bitWidth >= r.bitWidth)
         || (r.extType == ZEXT && l.extType == SEXT && r.bitWidth >= l.bitWidth) then w + 1
      else w
  }

  /** Unsigned order of two wrapped signed integers: negative ones come after non-negative ones. */
  lemma UnsignedOrder(x: int, y: int, w: nat)
    requires FitsSigned(x, w) && FitsSigned(y, w)
    ensures Wrap(x, w) < Wrap(y, w) <==> (if (x < 0) == (y < 0) then x < y else y < 0)
    ensures Wrap(x, w) == Wrap(y, w) <==> x == y
  {
    SignedOfWrap(x, w);
    SignedOfWrap(y, w);
  }

  /** Both operands fit, as signed integers, the width picked for a comparison, or both are plain unsigned words there. */
  lemma CmpWidthFits(p: Pred, l: ExtWidth, r: ExtWidth, x: int, y: int)
    requires l.bitWidth >= 1 && r.bitWidth >= 1
    requires Fits(l.extType, x, l.bitWidth) && Fits(r.extType, y, r.bitWidth)
    requires l.extType != NONE && r.extType != NONE
    ensures var w := CmpWidth(p, l, r);
      || (FitsSigned(x, w) && FitsSigned(y, w))
      || (!p.IsSigned() && FitsUnsigned(x, w) && FitsUnsigned(y, w))
  {
    var w := CmpWidth(p, l, r);
    FitsWider(x, l.bitWidth, w);
    FitsWider(y, r.bitWidth, w);
  }

  /** At any width at which both operands fit as signed integers, a comparison has the same answer. */
  lemma CmpOfFitting(p: Pred, x: int, y: int, w: nat, full: nat)
    requires w <= full && FitsSigned(x, w) && FitsSigned(y, w)
    ensures CmpAt(p, w, Wrap(x, w), Wrap(y, w)) <==> CmpAt(p, full, Wrap(x, full), Wrap(y, full))
  {
    FitsWider(x, w, full);
    FitsWider(y, w, full);
    if p.IsSigned() {
      SignedOfWrap(x, w);
      SignedOfWrap(y, w);
      SignedOfWrap(x, full);
      SignedOfWrap(y, full);
    } else {
      UnsignedOrder(x, y, w);
      UnsignedOrder(y, x, w);
      UnsignedOrder(x, y, full);
      UnsignedOrder(y, x, full);
    }
  }

  /** Comparing at the width picked in the forward pass gives the answer of the full width, for every predicate. */
  lemma CmpForwardSound(p: Pred, l: ExtWidth, r: ExtWidth, u: nat, v: nat, full: nat)
    requires IsMinimal(l, u, full) && IsMinimal(r, v, full)
    requires CmpWidth(p, l, r) < full
    ensures CmpWidth(p, l, r) >= 1
    ensures CmpAt(p, CmpWidth(p, l, r), ModBitWidth(l, u, CmpWidth(p, l, r)), ModBitWidth(r, v, CmpWidth(p, l, r)))
            <==> CmpAt(p, full, ModBitWidth(l, u, full), ModBitWidth(r, v, full))
  {
    var w := CmpWidth(p, l, r);
    var x, y := Meaning(l, u), Meaning(r, v);
    MeaningFits(l, u);
    MeaningFits(r, v);
    ModBitWidthIsWrap(l, u, w);
    ModBitWidthIsWrap(r, v, w);
    ModBitWidthIsWrap(l, u, full);
    ModBitWidthIsWrap(r, v, full);
    CmpWidthFits(p, l, r, x, y);
    if FitsSigned(x, w) && FitsSigned(y, w) {
      CmpOfFitting(p, x, y, w, full);
    } else {
      FitsWider(x, w, full);
      FitsWider(y, w, full);
      WrapSmall(x, w);
      WrapSmall(y, w);
      WrapSmall(x, full);
      WrapSmall(y, full);
    }
  }
}
