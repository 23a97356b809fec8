/** The widths that are picked for comparisons are the least at which they have the answer of the full width. */
module LeastComparisons {
  import opened Basics
  import opened Words
  import opened Transfer
  import opened Scalar
  import opened DataForward
  import opened LeastWidths

  /** Performed at width `w`, the comparison has the answer of the full width. */
  predicate CmpRightOn(p: Pred, l: ExtWidth, r: ExtWidth, full: nat, w: nat, u: nat, v: nat)
    requires l.bitWidth >= 1 && r.bitWidth >= 1 && w >= 1 && full >= 1
  {
    CmpAt(p, w, ModBitWidth(l, u, w), ModBitWidth(r, v, w)) <==> CmpAt(p, full, ModBitWidth(l, u, full), ModBitWidth(r, v, full))
  }

  ghost predicate CmpRight(p: Pred, l: ExtWidth, r: ExtWidth, full: nat, w: nat)
    requires l.bitWidth >= 1 && r.bitWidth >= 1 && w >= 1 && full >= 1
  {
    forall u: nat, v: nat | u < Pow2(l.bitWidth) && v < Pow2(r.bitWidth) :: CmpRightOn(p, l, r, full, w, u, v)
  }

  function Mirror(p: Pred): Pred {
    match p
    case EQ => EQ
    case NE => NE
    case SLT => SGT
    case SLE => SGE
    case SGT => SLT
    case SGE => SLE
    case ULT => UGT
    case ULE => UGE
    case UGT => ULT
    case UGE => ULE
  }

  /** One bit more than needed is picked where only the greatest unsigned word or zero can be on the other side. */
  function CmpSlack(p: Pred, l: ExtWidth, r: ExtWidth): nat {
    if ((p == ULE || p == UGT) && l.extType == ZEXT && r == ExtWidth(SEXT, 1))
       || ((p == UGE || p == ULT) && r.extType == ZEXT && l == ExtWidth(SEXT, 1)) then 1 else 0
  }

  /** The two integers compare differently as words of the two widths. */
  predicate Differs(p: Pred, x: int, y: int, w: nat, full: nat)
    requires w >= 1 && full >= 1
  {
    CmpAt(p, w, Wrap(x, w), Wrap(y, w)) != CmpAt(p, full, Wrap(x, full), Wrap(y, full))
  }

  lemma DiffersIsWrong(p: Pred, l: ExtWidth, r: ExtWidth, full: nat, w: nat, x: int, y: int)
    requires l.bitWidth >= 1 && r.bitWidth >= 1 && 1 <= w < full
    requires Fits(l.extType, x, l.bitWidth) && Fits(r.extType, y, r.bitWidth) && Differs(p, x, y, w, full)
    ensures !CmpRight(p, l, r, full, w)
  {
    NarrowThenExtend(l, x, w);
    NarrowThenExtend(l, x, full);
    NarrowThenExtend(r, y, w);
    NarrowThenExtend(r, y, full);
    assert !CmpRightOn(p, l, r, full, w, Wrap(x, l.bitWidth), Wrap(y, r.bitWidth));
  }

  lemma Mirrored(p: Pred, l: ExtWidth, r: ExtWidth, full: nat, w: nat)
    requires l.bitWidth >= 1 && r.bitWidth >= 1 && 1 <= w && full >= 1 && !CmpRight(Mirror(p), r, l, full, w)
    ensures !CmpRight(p, l, r, full, w)
  {
    var v: nat, u: nat :| v < Pow2(r.bitWidth) && u < Pow2(l.bitWidth) && !CmpRightOn(Mirror(p), r, l, full, w, v, u);
    assert !CmpRightOn(p, l, r, full, w, u, v);
  }

  /** The left operand decides the width. */
  predicate Leads(l: ExtWidth, r: ExtWidth) {
    l.bitWidth > r.bitWidth || (l.bitWidth == r.bitWidth && (l.extType == ZEXT || r.extType != ZEXT))
  }

  lemma SignedProbe(p: Pred, w: nat, full: nat)
    requires p.IsSigned() && 1 <= w < full
    ensures Differs(p, Pow2(w - 1), 0, w, full)
  {
    WordsAround(w, full);
    WordsAround(full, full);
    PowersAround(full, full);
  }

  lemma UnsignedProbe(p: Pred, w: nat, full: nat)
    requires !p.IsSigned() && 1 <= w < full
    ensures p != ULE && p != UGT ==> Differs(p, High(w), -1, w, full)
    ensures p != ULT && p != UGE ==> Differs(p, Pow2(w), 0, w, full) && Differs(p, -(Pow2(w) as int), 0, w, full)
    ensures p == ULT || p == UGE ==> Differs(p, Pow2(w), 1, w, full) && Differs(p, -(Pow2(w) as int), 1, w, full)
  {
    WordsAround(w, full);
    WordsAround(full, full);
  }

  lemma TopProbe(p: Pred, w: nat, b: nat, full: nat)
    requires (p == ULE || p == UGT) && 2 <= b <= w < full
    ensures Differs(p, High(w), Low(b), w, full)
  {
    WordsAround(w, full);
    PowersAround(b, w);
    WrapUnique(Low(b), w, -1, Pow2(w) + Low(b));
    Pow2Monotone(w, full);
    WrapUnique(Low(b), full, -1, Pow2(full) + Low(b));
  }

  lemma SignedCmpProbe(p: Pred, l: ExtWidth, r: ExtWidth, full: nat, w: nat)
    requires IsShape(l, full) && IsShape(r, full) && Leads(l, r) && p.IsSigned() && 1 <= w < full && w < CmpWidth(p, l, r)
    ensures !CmpRight(p, l, r, full, w)
  {
    SignedProbe(p, w, full);
    HalfFits(SEXT, l, w);
    DiffersIsWrong(p, l, r, full, w, Pow2(w - 1), 0);
  }

  /** Where the operands of an unsigned comparison come from if the left one decides its width. */
  lemma UnsignedOperands(p: Pred, l: ExtWidth, r: ExtWidth, full: nat, w: nat) returns (x: int, y: int)
    requires IsShape(l, full) && IsShape(r, full) && Leads(l, r) && !p.IsSigned() && 1 <= w < full
    requires w + CmpSlack(p, l, r) < CmpWidth(p, l, r)
    ensures Fits(l.extType, x, l.bitWidth) && Fits(r.extType, y, r.bitWidth)
    ensures || (x == High(w) && y == -1 && p != ULE && p != UGT)
            || (x == High(w) && y == Low(r.bitWidth) && (p == ULE || p == UGT) && 2 <= r.bitWidth <= w)
            || ((x == Pow2(w) || x == -(Pow2(w) as int)) && y == if p == ULT || p == UGE then 1 else 0)
  {
    PowersAround(l.bitWidth, r.bitWidth);
    PowersAround(w, w);
    if w < l.bitWidth {
      PowersAround(w, l.bitWidth - 1);
    }
    if r.extType != ZEXT && p != ULE && p != UGT {
      x, y := High(w), -1;
    } else if w == l.bitWidth {
      x, y := High(w), Low(r.bitWidth);
    } else {
      x, y := if l.extType == ZEXT then Pow2(w) else -(Pow2(w) as int), if p == ULT || p == UGE then 1 else 0;
    }
  }

  lemma UnsignedDiffers(p: Pred, x: int, y: int, w: nat, b: nat, full: nat)
    requires !p.IsSigned() && 1 <= w < full && b >= 1
    requires || (x == High(w) && y == -1 && p != ULE && p != UGT)
             || (x == High(w) && y == Low(b) && (p == ULE || p == UGT) && 2 <= b <= w)
             || ((x == Pow2(w) || x == -(Pow2(w) as int)) && y == if p == ULT || p == UGE then 1 else 0)
    ensures Differs(p, x, y, w, full)
  {
    if x == High(w) && y == Low(b) && (p == ULE || p == UGT) && 2 <= b <= w {
      TopProbe(p, w, b, full);
    } else {
      UnsignedProbe(p, w, full);
    }
  }

  lemma UnsignedCmpProbe(p: Pred, l: ExtWidth, r: ExtWidth, full: nat, w: nat)
    requires IsShape(l, full) && IsShape(r, full) && Leads(l, r) && !p.IsSigned() && 1 <= w < full
    requires w + CmpSlack(p, l, r) < CmpWidth(p, l, r)
    ensures !CmpRight(p, l, r, full, w)
  {
    var x, y := UnsignedOperands(p, l, r, full, w);
    UnsignedDiffers(p, x, y, w, r.bitWidth, full);
    DiffersIsWrong(p, l, r, full, w, x, y);
  }

  /** At no smaller width than the one picked, up to the named slack, does a comparison have the answer of the full width on all
      operands. */
  lemma LeastCmp(p: Pred, l: ExtWidth, r: ExtWidth, full: nat, w: nat)
    requires IsShape(l, full) && IsShape(r, full) && 1 <= w < full && w + CmpSlack(p, l, r) < CmpWidth(p, l, r)
    ensures !CmpRight(p, l, r, full, w)
  {
    if !Leads(l, r) {
      if p.IsSigned() {
        SignedCmpProbe(Mirror(p), r, l, full, w);
      } else {
        UnsignedCmpProbe(Mirror(p), r, l, full, w);
      }
      Mirrored(p, l, r, full, w);
    } else if p.IsSigned() {
      SignedCmpProbe(p, l, r, full, w);
    } else {
      UnsignedCmpProbe(p, l, r, full, w);
    }
  }

  lemma SlackWords(x: int, y: int, w: nat, full: nat)
    requires 1 <= w <= full && FitsUnsigned(x, w) && (y == 0 || y == -1)
    ensures Wrap(x, w) <= Wrap(y, w) <==> Wrap(x, full) <= Wrap(y, full)
  {
    Pow2Monotone(w, full);
    WordsAround(w, w);
    WordsAround(full, full);
    WrapSmall(x, w);
    WrapSmall(x, full);
  }

  lemma SlackKeeps(p: Pred, x: int, y: int, w: nat, full: nat)
    requires 1 <= w <= full
    requires || ((p == ULE || p == UGT) && FitsUnsigned(x, w) && (y == 0 || y == -1))
             || ((p == UGE || p == ULT) && FitsUnsigned(y, w) && (x == 0 || x == -1))
    ensures !Differs(p, x, y, w, full)
  {
    if p == ULE || p == UGT {
      SlackWords(x, y, w, full);
    } else {
      SlackWords(y, x, w, full);
    }
  }

  lemma SameAnswer(p: Pred, l: ExtWidth, r: ExtWidth, full: nat, w: nat, u: nat, v: nat)
    requires l.bitWidth >= 1 && r.bitWidth >= 1 && w >= 1 && full >= 1 && u < Pow2(l.bitWidth) && v < Pow2(r.bitWidth)
    requires !Differs(p, Meaning(l, u), Meaning(r, v), w, full)
    ensures CmpRightOn(p, l, r, full, w, u, v)
  {
    ModBitWidthIsWrap(l, u, w);
    ModBitWidthIsWrap(r, v, w);
    ModBitWidthIsWrap(l, u, full);
    ModBitWidthIsWrap(r, v, full);
  }

  lemma CmpSlackOn(p: Pred, l: ExtWidth, r: ExtWidth, full: nat, w: nat, u: nat, v: nat)
    requires IsShape(l, full) && IsShape(r, full) && CmpSlack(p, l, r) == 1 && w == Max(l.bitWidth, r.bitWidth)
    requires u < Pow2(l.bitWidth) && v < Pow2(r.bitWidth)
    ensures CmpRightOn(p, l, r, full, w, u, v)
  {
    MeaningFits(l, u);
    MeaningFits(r, v);
    assert Pow2(1) == 2 && Pow2(0) == 1;
    SlackKeeps(p, Meaning(l, u), Meaning(r, v), w, full);
    SameAnswer(p, l, r, full, w, u, v);
  }

  /** Where there is slack, one bit less suffices for all operands. */
  lemma CmpSlackIsRight(p: Pred, l: ExtWidth, r: ExtWidth, full: nat)
    requires IsShape(l, full) && IsShape(r, full) && CmpSlack(p, l, r) == 1
    ensures CmpWidth(p, l, r) >= 2 && CmpRight(p, l, r, full, CmpWidth(p, l, r) - 1)
  {
    var w := CmpWidth(p, l, r) - 1;
    forall u: nat, v: nat | u < Pow2(l.bitWidth) && v < Pow2(r.bitWidth) ensures CmpRightOn(p, l, r, full, w, u, v) {
      CmpSlackOn(p, l, r, full, w, u, v);
    }
  }
}
