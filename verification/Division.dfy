/** The width that the bitwidth optimization pass picks for divisions, and exactly when it keeps their results. */
module Division {
  import opened Words
  import opened Transfer
  import opened DataForward

  datatype DivOp = DivU | DivS | RemU

  /** Signed division rounds toward zero. */
  function Quotient(x: int, y: int): int
    requires y != 0
  {
    if y > 0 then if x >= 0 then x / y else -(-x / y)
    else if x >= 0 then -(x / -y) else -x / -y
  }

  /** The word computed by a division of two words of width `w`. */
  function DivAt(op: DivOp, w: nat, a: nat, b: nat): nat
    requires w >= 1 && 0 < b < Pow2(w)
  {
    match op
    case DivU => a / b
    case DivS => Wrap(Quotient(Signed(a, w), Signed(b, w)), w)
    case RemU => a % b
  }

  /** The transfer function of divisions and remainders looks at the dividend only. */
  function DivWidth(l: ExtWidth, r: ExtWidth): ExtWidth {
    ExtWidth(ZEXT, l.bitWidth + 1)
  }

  function Cut(m: ExtWidth, u: nat, w: nat): (r: nat)
    requires m.bitWidth >= 1 && u < Pow2(m.bitWidth)
    ensures r < Pow2(w) && r == Wrap(Meaning(m, u), w)
  {
    ModBitWidthIsWrap(m, u, w);
    ModBitWidth(m, u, w)
  }

  /** The narrow operation is defined if the original one is, and re-extended yields the same word. */
  predicate KeepsOn(op: DivOp, l: ExtWidth, r: ExtWidth, full: nat, u: nat, v: nat)
    requires IsShape(l, full) && IsShape(r, full)
    requires u < Pow2(l.bitWidth) && v < Pow2(r.bitWidth)
  {
    var t := DivWidth(l, r);
    Cut(r, v, full) != 0 ==>
      && Cut(r, v, t.bitWidth) != 0
      && ModBitWidth(t, DivAt(op, t.bitWidth, Cut(l, u, t.bitWidth), Cut(r, v, t.bitWidth)), full)
         == DivAt(op, full, Cut(l, u, full), Cut(r, v, full))
  }

  ghost predicate Keeps(op: DivOp, l: ExtWidth, r: ExtWidth, full: nat)
    requires IsShape(l, full) && IsShape(r, full)
  {
    forall u: nat, v: nat | u < Pow2(l.bitWidth) && v < Pow2(r.bitWidth) :: KeepsOn(op, l, r, full, u, v)
  }

  /** The number divides the distance between the words of a negative integer at the two widths. */
  predicate Divides(d: nat, narrow: nat, full: nat) {
    d > 0 && (Pow2(full) - Pow2(narrow)) % d == 0
  }

  predicate AllDivide(b: nat, narrow: nat, full: nat) {
    forall d: nat | 1 <= d < Pow2(b) :: Divides(d, narrow, full)
  }

  /** What the operands must look like for a narrowed division to be right on all words. */
  predicate Admits(op: DivOp, l: ExtWidth, r: ExtWidth, full: nat) {
    match op
    case DivU => (l.extType == ZEXT && r.bitWidth <= l.bitWidth + 1) || (l.extType == SEXT && r == ExtWidth(SEXT, 1))
    case DivS => (l.extType == ZEXT && r.extType == ZEXT && r.bitWidth <= l.bitWidth)
                 || (l == ExtWidth(SEXT, 1) && r == ExtWidth(SEXT, 1))
    case RemU =>
      if l.extType == ZEXT then r.bitWidth <= l.bitWidth + 1
      else if r.extType == ZEXT then r.bitWidth <= l.bitWidth + 1 && AllDivide(r.bitWidth, l.bitWidth + 1, full)
      else l.bitWidth == 1 && r.bitWidth <= 2
  }

  // ----- words of small integers -----

  lemma WrapOnes(w: nat)
    requires w >= 1
    ensures Pow2(w) >= 2 && Wrap(1, w) == 1 && Wrap(-1, w) == Pow2(w) - 1
  {
    WrapSmall(1, w);
    WrapUnique(-1, w, -1, Pow2(w) - 1);
  }

  /** A word that stands for one. */
  function One(m: ExtWidth): (u: nat)
    requires m.bitWidth >= 1 && m != ExtWidth(SEXT, 1) && m != ExtWidth(NONE, 1)
    ensures u < Pow2(m.bitWidth) && Meaning(m, u) == 1
  {
    if m.bitWidth > 1 then
      assert Pow2(m.bitWidth) == 2 * Pow2(m.bitWidth - 1) && Pow2(m.bitWidth - 1) == 2 * Pow2(m.bitWidth - 2);
      1
    else 1
  }

  function MinusOne(m: ExtWidth): (u: nat)
    requires m.bitWidth >= 1 && m.extType != ZEXT
    ensures u < Pow2(m.bitWidth) && Meaning(m, u) == -1
  {
    assert Pow2(m.bitWidth) == 2 * Pow2(m.bitWidth - 1);
    Pow2(m.bitWidth) - 1
  }

  // ----- operands that are admitted -----

  lemma NegativeWord(i: int, a: nat, w: nat)
    requires i < 0 <= i + Pow2(a) && a < w
    ensures Wrap(i, w) >= Pow2(a)
  {
    Pow2Monotone(a, w);
    WrapUnique(i, w, -1, i + Pow2(w));
  }

  /** A zero-extended dividend is below the word of every negative divisor at any width that holds both. */
  lemma UnsignedDivisor(l: ExtWidth, r: ExtWidth, u: nat, v: nat, w: nat)
    requires l.bitWidth >= 1 && l.extType == ZEXT && u < Pow2(l.bitWidth)
    requires 1 <= r.bitWidth <= l.bitWidth + 1 <= w && r.extType != NONE && v < Pow2(r.bitWidth)
    ensures Cut(l, u, w) == u
    ensures if Meaning(r, v) >= 0 then Cut(r, v, w) == Meaning(r, v) else Cut(r, v, w) > u
  {
    var i := Meaning(r, v);
    MeaningFits(r, v);
    Pow2Monotone(l.bitWidth, w);
    Pow2Monotone(r.bitWidth - 1, l.bitWidth);
    Pow2Monotone(r.bitWidth, w);
    WrapSmall(u, w);
    if i >= 0 {
      WrapSmall(i, w);
    } else {
      NegativeWord(i, l.bitWidth, w);
    }
  }

  lemma SmallQuotient(u: nat, d: nat)
    requires d > u
    ensures u / d == 0 && u % d == u
  {
  }

  lemma UnsignedKept(op: DivOp, l: ExtWidth, r: ExtWidth, full: nat, u: nat, v: nat)
    requires IsShape(l, full) && IsShape(r, full) && l.bitWidth + 1 < full
    requires u < Pow2(l.bitWidth) && v < Pow2(r.bitWidth)
    requires op != DivS && l.extType == ZEXT && r.bitWidth <= l.bitWidth + 1
    ensures KeepsOn(op, l, r, full, u, v)
  {
    var w := l.bitWidth + 1;
    UnsignedDivisor(l, r, u, v, w);
    UnsignedDivisor(l, r, u, v, full);
    if Meaning(r, v) < 0 {
      SmallQuotient(u, Cut(r, v, w));
      SmallQuotient(u, Cut(r, v, full));
    }
  }

  lemma ByAllOnes(x: nat, p: nat)
    requires x <= p && p >= 1
    ensures x / p == if x == p then 1 else 0
  {
  }

  /** Dividing by a sign-extended bit asks whether the dividend is -1. */
  lemma ByMinusOneKept(l: ExtWidth, r: ExtWidth, full: nat, u: nat, v: nat)
    requires IsShape(l, full) && IsShape(r, full) && l.bitWidth + 1 < full
    requires u < Pow2(l.bitWidth) && v < Pow2(r.bitWidth)
    requires l.extType == SEXT && r == ExtWidth(SEXT, 1)
    ensures KeepsOn(DivU, l, r, full, u, v)
  {
    var w, i := l.bitWidth + 1, Meaning(l, u);
    if v == 0 {
      WrapSmall(0, full);
    } else {
      assert Meaning(r, v) == -1;
      WrapOnes(w);
      WrapOnes(full);
      MeaningFits(l, u);
      FitsWider(i, l.bitWidth, w);
      FitsWider(i, l.bitWidth, full);
      SignedOfWrap(i, w);
      SignedOfWrap(i, full);
      assert Signed(Pow2(w) - 1, w) == -1 && Signed(Pow2(full) - 1, full) == -1;
      ByAllOnes(Cut(l, u, w), Pow2(w) - 1);
      ByAllOnes(Cut(l, u, full), Pow2(full) - 1);
    }
  }

  lemma ProductAbove(y: nat, q: nat)
    requires y > 0
    ensures q <= y * q
  {
    assert y * q == (y - 1) * q + q;
  }

  lemma QuotientBelow(x: nat, y: nat)
    requires y > 0
    ensures 0 <= x / y <= x
  {
    ProductAbove(y, x / y);
  }

  lemma SignedKept(l: ExtWidth, r: ExtWidth, full: nat, u: nat, v: nat)
    requires IsShape(l, full) && IsShape(r, full) && l.bitWidth + 1 < full
    requires u < Pow2(l.bitWidth) && v < Pow2(r.bitWidth)
    requires l.extType == ZEXT && r.extType == ZEXT && r.bitWidth <= l.bitWidth
    ensures KeepsOn(DivS, l, r, full, u, v)
  {
    var w := l.bitWidth + 1;
    Pow2Monotone(r.bitWidth, l.bitWidth);
    Pow2Monotone(l.bitWidth, full - 1);
    assert Pow2(w) == 2 * Pow2(l.bitWidth) && Pow2(full) == 2 * Pow2(full - 1);
    WrapSmall(u, w);
    WrapSmall(u, full);
    WrapSmall(v, w);
    WrapSmall(v, full);
    if v != 0 {
      QuotientBelow(u, v);
      WrapSmall(u / v, w);
      WrapSmall(u / v, full);
    }
  }

  lemma SignBitsKept(l: ExtWidth, full: nat, u: nat, v: nat)
    requires l == ExtWidth(SEXT, 1) && 2 < full && u < 2 && v < 2
    ensures KeepsOn(DivS, l, l, full, u, v)
  {
    WrapOnes(2);
    WrapOnes(full);
    WrapSmall(0, 2);
    WrapSmall(0, full);
    assert Pow2(full) == 2 * Pow2(full - 1) && Pow2(full - 1) == 2 * Pow2(full - 2);
    assert Signed(0, full) == 0 && Signed(Pow2(full) - 1, full) == -1;
    assert Pow2(2) == 4 && Pow2(1) == 2;
    assert Meaning(l, u) + u == 0 && Meaning(l, v) + v == 0;
  }

  // ----- remainders of sign-extended dividends -----

  /** Remainders are the same where the divisor divides the distance, and only there. */
  lemma SameRemainder(a: nat, b: nat, d: nat)
    requires d > 0 && b <= a
    ensures a % d == b % d <==> (a - b) % d == 0
  {
    var qa, qb, q := a / d, b / d, (a - b) / d;
    if a % d == b % d {
      assert a - b == (qa - qb) * d + 0;
      DivModUnique(a - b, d, qa - qb, 0);
    }
    if (a - b) % d == 0 {
      assert a == (qb + q) * d + b % d;
      DivModUnique(a, d, qb + q, b % d);
    }
  }

  /** The words of a negative integer at two widths. */
  lemma NegativeCut(l: ExtWidth, u: nat, w: nat)
    requires 1 <= l.bitWidth <= w && l.extType == SEXT && u < Pow2(l.bitWidth) && Meaning(l, u) < 0
    ensures Cut(l, u, w) == Pow2(w) + Meaning(l, u)
  {
    MeaningFits(l, u);
    Pow2Monotone(l.bitWidth, w);
    WrapUnique(Meaning(l, u), w, -1, Pow2(w) + Meaning(l, u));
  }

  lemma PositiveCut(m: ExtWidth, u: nat, w: nat)
    requires 1 <= m.bitWidth <= w && u < Pow2(m.bitWidth) && Meaning(m, u) >= 0
    ensures Cut(m, u, w) == Meaning(m, u)
  {
    MeaningFits(m, u);
    FitsWider(Meaning(m, u), m.bitWidth, w);
    WrapSmall(Meaning(m, u), w);
  }

  lemma SextRemainder(l: ExtWidth, r: ExtWidth, full: nat, u: nat, v: nat)
    requires IsShape(l, full) && IsShape(r, full) && l.bitWidth + 1 < full && u < Pow2(l.bitWidth) && v < Pow2(r.bitWidth)
    requires l.extType == SEXT && r.extType == ZEXT && r.bitWidth <= l.bitWidth + 1
    ensures KeepsOn(RemU, l, r, full, u, v) <==>
            (v == 0 || Meaning(l, u) >= 0 || Divides(v, l.bitWidth + 1, full))
  {
    var w := l.bitWidth + 1;
    PositiveCut(r, v, w);
    PositiveCut(r, v, full);
    Pow2Monotone(w, full);
    if Meaning(l, u) >= 0 {
      PositiveCut(l, u, w);
      PositiveCut(l, u, full);
    } else if v != 0 {
      NegativeCut(l, u, w);
      NegativeCut(l, u, full);
      SameRemainder(Cut(l, u, full), Cut(l, u, w), v);
    }
  }

  lemma AllOnesRemainder(p: nat)
    requires p >= 4
    ensures (p - 1) % 1 == 0 && (p - 1) % (p - 1) == 0 && (p - 1) % (p - 2) == 1
  {
    DivModUnique(p - 1, p - 2, 1, 1);
    DivModUnique(p - 1, p - 1, 1, 0);
  }

  /** A sign bit, divided by at most two sign-extended bits. */
  lemma SignBitRemainder(l: ExtWidth, r: ExtWidth, full: nat, u: nat, v: nat)
    requires IsShape(l, full) && IsShape(r, full) && 2 < full && u < Pow2(l.bitWidth) && v < Pow2(r.bitWidth)
    requires l == ExtWidth(SEXT, 1) && r.extType == SEXT && r.bitWidth <= 2
    ensures KeepsOn(RemU, l, r, full, u, v)
  {
    assert Pow2(1) == 2 && Pow2(2) == 4;
    Pow2Monotone(2, full);
    var x, d := Meaning(l, u), Meaning(r, v);
    MeaningFits(l, u);
    MeaningFits(r, v);
    assert -1 <= x <= 0 && -2 <= d <= 1;
    if x == 0 {
      PositiveCut(l, u, 2);
      PositiveCut(l, u, full);
    } else {
      NegativeCut(l, u, 2);
      NegativeCut(l, u, full);
      AllOnesRemainder(4);
      AllOnesRemainder(Pow2(full));
    }
    if d >= 0 {
      PositiveCut(r, v, 2);
      PositiveCut(r, v, full);
    } else {
      NegativeCut(r, v, 2);
      NegativeCut(r, v, full);
    }
  }

  /** A divisor cut to nothing. */
  lemma CutToZero(l: ExtWidth, r: ExtWidth, full: nat)
    requires IsShape(l, full) && IsShape(r, full) && l.bitWidth + 1 < full && r.bitWidth > l.bitWidth + 1
    ensures !Keeps(RemU, l, r, full)
  {
    var w := l.bitWidth + 1;
    Pow2Monotone(w, r.bitWidth);
    Pow2Monotone(r.bitWidth, full);
    var v := Pow2(w);
    WrapUnique(v, w, 1, 0);
    ModBitWidthIsWrap(r, v, w);
    assert Cut(r, v, w) == 0 && Cut(r, v, full) != 0;
    assert Pow2(0) == 1;
    Pow2Monotone(0, l.bitWidth);
    assert !KeepsOn(RemU, l, r, full, 0, v);
  }

  lemma SmallRemainder(p: nat)
    requires p >= 2
    ensures (p - 2) % (p - 1) == p - 2
  {
  }

  /** The remainder of minus two by minus one is the word of minus two. */
  lemma MinusTwoByMinusOne(l: ExtWidth, r: ExtWidth, full: nat)
    requires IsShape(l, full) && IsShape(r, full) && l.bitWidth + 1 < full
    requires l.extType == SEXT && l.bitWidth >= 2 && r.extType == SEXT && r.bitWidth <= l.bitWidth + 1
    ensures !Keeps(RemU, l, r, full)
  {
    var w := l.bitWidth + 1;
    assert Pow2(l.bitWidth) == 2 * Pow2(l.bitWidth - 1) && Pow2(l.bitWidth - 1) == 2 * Pow2(l.bitWidth - 2);
    var u, v := Pow2(l.bitWidth) - 2, MinusOne(r);
    Pow2Monotone(w, full);
    assert Meaning(l, u) == -2 && Meaning(r, v) == -1;
    NegativeCut(l, u, w);
    NegativeCut(l, u, full);
    NegativeCut(r, v, w);
    NegativeCut(r, v, full);
    SmallRemainder(Pow2(w));
    SmallRemainder(Pow2(full));
    assert !KeepsOn(RemU, l, r, full, u, v);
  }

  lemma UnsignedDivisors(l: ExtWidth, r: ExtWidth, full: nat)
    requires IsShape(l, full) && IsShape(r, full) && l.bitWidth + 1 < full
    requires l.extType == SEXT && r.extType == ZEXT && r.bitWidth <= l.bitWidth + 1
    ensures Keeps(RemU, l, r, full) <==> AllDivide(r.bitWidth, l.bitWidth + 1, full)
  {
    if AllDivide(r.bitWidth, l.bitWidth + 1, full) {
      forall u: nat, v: nat | u < Pow2(l.bitWidth) && v < Pow2(r.bitWidth) ensures KeepsOn(RemU, l, r, full, u, v) {
        SextRemainder(l, r, full, u, v);
      }
    } else {
      var d: nat :| 1 <= d < Pow2(r.bitWidth) && !Divides(d, l.bitWidth + 1, full);
      SextRemainder(l, r, full, MinusOne(l), d);
    }
  }

  lemma SextRemainderExactly(l: ExtWidth, r: ExtWidth, full: nat)
    requires IsShape(l, full) && IsShape(r, full) && l.bitWidth + 1 < full && l.extType == SEXT
    ensures Keeps(RemU, l, r, full) <==> Admits(RemU, l, r, full)
  {
    var w := l.bitWidth + 1;
    if r.bitWidth > w {
      CutToZero(l, r, full);
    } else if r.extType == SEXT {
      if l.bitWidth >= 2 {
        MinusTwoByMinusOne(l, r, full);
      } else {
        forall u: nat, v: nat | u < Pow2(l.bitWidth) && v < Pow2(r.bitWidth) ensures KeepsOn(RemU, l, r, full, u, v) {
          SignBitRemainder(l, r, full, u, v);
        }
      }
    } else {
      UnsignedDivisors(l, r, full);
    }
  }

  // ----- operands on which some input goes wrong -----

  /** A divisor cut to one. */
  lemma CutDivisor(op: DivOp, l: ExtWidth, r: ExtWidth, full: nat)
    requires IsShape(l, full) && IsShape(r, full) && l.bitWidth + 1 < full
    requires op != DivS && l.extType == ZEXT && r.bitWidth > l.bitWidth + 1
    ensures !Keeps(op, l, r, full)
  {
    var w := l.bitWidth + 1;
    var v := Pow2(w) + 1;
    Pow2Monotone(w, r.bitWidth);
    WrapUnique(v, w, 1, 1);
    Pow2Monotone(r.bitWidth, full);
    WrapOnes(w);
    WrapOnes(full);
    SmallQuotient(1, Cut(r, v, full));
    assert !KeepsOn(op, l, r, full, One(l), v);
  }

  lemma ByOne(x: nat)
    ensures x / 1 == x
  {
  }

  lemma NegativeDividend(l: ExtWidth, r: ExtWidth, full: nat)
    requires IsShape(l, full) && IsShape(r, full) && l.bitWidth + 1 < full
    requires l.extType == SEXT && r != ExtWidth(SEXT, 1)
    ensures !Keeps(DivU, l, r, full)
  {
    var w := l.bitWidth + 1;
    WrapOnes(w);
    WrapOnes(full);
    Pow2Monotone(w, full);
    var u, v := MinusOne(l), One(r);
    ByOne(Cut(l, u, w));
    ByOne(Cut(l, u, full));
    assert Cut(r, v, w) == 1 && Cut(r, v, full) == 1;
    assert DivAt(DivU, full, Cut(l, u, full), 1) == Pow2(full) - 1;
    assert DivAt(DivU, w, Cut(l, u, w), 1) == Pow2(w) - 1;
    assert !KeepsOn(DivU, l, r, full, u, v);
  }

  /** A quotient of minus one is zero-extended. */
  lemma MinusOneQuotient(l: ExtWidth, r: ExtWidth, full: nat, u: nat, v: nat)
    requires IsShape(l, full) && IsShape(r, full) && l.bitWidth + 1 < full
    requires u < Pow2(l.bitWidth) && v < Pow2(r.bitWidth)
    requires (Meaning(l, u) == 1 && Meaning(r, v) == -1) || (Meaning(l, u) == -1 && Meaning(r, v) == 1)
    ensures !Keeps(DivS, l, r, full)
  {
    var w := l.bitWidth + 1;
    WrapOnes(w);
    WrapOnes(full);
    SignedOfWrap(1, w);
    SignedOfWrap(-1, w);
    SignedOfWrap(1, full);
    SignedOfWrap(-1, full);
    Pow2Monotone(1, w - 1);
    Pow2Monotone(w, full);
    assert !KeepsOn(DivS, l, r, full, u, v);
  }

  lemma OneBy(y: int)
    requires y == -1 || y > 1
    ensures Quotient(1, y) == if y == -1 then -1 else 0
  {
  }

  lemma OneByMinusOne(w: nat, v: nat)
    requires w >= 2 && v == Pow2(w) - 1
    ensures v > 1 && DivAt(DivS, w, 1, v) == v
  {
    Pow2Monotone(1, w - 1);
    WrapOnes(w);
    assert Signed(1, w) == 1 && Signed(v, w) == -1;
    OneBy(-1);
  }

  lemma OneByMore(w: nat, v: nat)
    requires w >= 1 && 1 < v < Pow2(w - 1)
    ensures v < Pow2(w) && DivAt(DivS, w, 1, v) == 0
  {
    assert Signed(1, w) == 1 && Signed(v, w) == v;
    OneBy(v);
    WrapSmall(0, w);
  }

  /** A positive divisor cut to minus one. */
  lemma CutToMinusOne(l: ExtWidth, r: ExtWidth, full: nat)
    requires IsShape(l, full) && IsShape(r, full) && l.bitWidth + 1 < full
    requires l.extType == ZEXT && r.extType != SEXT && r.bitWidth > l.bitWidth
    ensures !Keeps(DivS, l, r, full)
  {
    var w := l.bitWidth + 1;
    var v: nat := Pow2(w) - 1;
    Pow2Monotone(w, full - 1);
    OneByMinusOne(w, v);
    OneByMore(full, v);
    Pow2Monotone(w, r.bitWidth);
    WrapOnes(w);
    WrapOnes(full);
    WrapSmall(v, w);
    WrapSmall(v, full);
    assert !KeepsOn(DivS, l, r, full, One(l), v);
  }

  // ----- exactly when -----

  /** Narrowing a division or remainder to one bit more than the dividend is right on all operand words if and only if the
      operands are admitted. */
  lemma DivisionExactly(op: DivOp, l: ExtWidth, r: ExtWidth, full: nat)
    requires IsShape(l, full) && IsShape(r, full) && DivWidth(l, r).bitWidth < full
    ensures Keeps(op, l, r, full) <==> Admits(op, l, r, full)
  {
    if op == RemU && l.extType == SEXT {
      SextRemainderExactly(l, r, full);
    } else if Admits(op, l, r, full) {
      forall u: nat, v: nat | u < Pow2(l.bitWidth) && v < Pow2(r.bitWidth) ensures KeepsOn(op, l, r, full, u, v) {
        AdmittedKept(op, l, r, full, u, v);
      }
    } else if op == DivS {
      SignedNotAdmitted(l, r, full);
    } else if l.extType == ZEXT {
      CutDivisor(op, l, r, full);
    } else {
      NegativeDividend(l, r, full);
    }
  }

  lemma AdmittedKept(op: DivOp, l: ExtWidth, r: ExtWidth, full: nat, u: nat, v: nat)
    requires IsShape(l, full) && IsShape(r, full) && l.bitWidth + 1 < full && Admits(op, l, r, full)
    requires op == RemU ==> l.extType == ZEXT
    requires u < Pow2(l.bitWidth) && v < Pow2(r.bitWidth)
    ensures KeepsOn(op, l, r, full, u, v)
  {
    if op == DivS {
      if l.extType == ZEXT {
        SignedKept(l, r, full, u, v);
      } else {
        SignBitsKept(l, full, u, v);
      }
    } else if l.extType == ZEXT {
      UnsignedKept(op, l, r, full, u, v);
    } else {
      ByMinusOneKept(l, r, full, u, v);
    }
  }

  lemma SignedNotAdmitted(l: ExtWidth, r: ExtWidth, full: nat)
    requires IsShape(l, full) && IsShape(r, full) && l.bitWidth + 1 < full && !Admits(DivS, l, r, full)
    ensures !Keeps(DivS, l, r, full)
  {
    if l.extType == ZEXT {
      if r.extType == SEXT {
        MinusOneQuotient(l, r, full, One(l), MinusOne(r));
      } else {
        CutToMinusOne(l, r, full);
      }
    } else if r == ExtWidth(SEXT, 1) {
      MinusOneQuotient(l, r, full, One(l), MinusOne(r));
    } else {
      MinusOneQuotient(l, r, full, MinusOne(l), One(r));
    }
  }
}
