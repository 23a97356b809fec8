/** Narrowing the outputs of a conditional branch from the comparisons that decide it. */
module BranchBounds {
  import opened Basics
  import opened Words
  import opened Transfer
  import opened Scalar

  // ----- comparisons that decide a branch -----

  /** A minimal value behind an operand: its shape, the channel that carries it and, for a constant operation, the
      value at its declared width. Two operands are the same data when their minimal values are equal. */
  datatype Minimal = Minimal(shape: ExtWidth, repr: nat, constant: Option<nat>)

  datatype Comparison = Comparison(pred: Pred, width: nat, lhs: Minimal, rhs: Minimal)

  datatype Condition = Compared(cmp: Comparison) | Both(left: Condition, right: Condition) | Unknown(id: nat)

  type Channels = nat -> nat

  /** A minimal value of an operand of the given width (an extension that does not widen is folded away). */
  predicate IsMinimalAt(m: Minimal, width: nat) {
    && 1 <= m.shape.bitWidth <= width
    && (m.shape.extType == NONE <==> m.shape.bitWidth == width)
    && (m.constant.Some? ==>
          m.constant.value < Pow2(width)
          && m.shape == ExtWidth(ConstantExt(m.constant.value, width), RequiredBits(m.constant.value, width)))
  }

  predicate WellTyped(cmp: Comparison) {
    IsMinimalAt(cmp.lhs, cmp.width) && IsMinimalAt(cmp.rhs, cmp.width)
  }

  function WordOf(m: Minimal, words: Channels): (u: nat)
    ensures u < Pow2(m.shape.bitWidth)
  {
    Wrap(if m.constant.Some? then m.constant.value else words(m.repr), m.shape.bitWidth)
  }

  function ValueAt(m: Minimal, width: nat, words: Channels): nat
    requires m.shape.bitWidth >= 1
  {
    ModBitWidth(m.shape, WordOf(m, words), width)
  }

  predicate Outcome(cmp: Comparison, words: Channels)
    requires WellTyped(cmp)
  {
    CmpAt(cmp.pred, cmp.width, ValueAt(cmp.lhs, cmp.width, words), ValueAt(cmp.rhs, cmp.width, words))
  }

  predicate ConditionTyped(c: Condition) {
    match c
    case Compared(cmp) => WellTyped(cmp)
    case Both(l, r) => ConditionTyped(l) && ConditionTyped(r)
    case Unknown(_) => true
  }

  predicate Holds(c: Condition, words: Channels, unknown: nat -> bool)
    requires ConditionTyped(c)
  {
    match c
    case Compared(cmp) => Outcome(cmp, words)
    case Both(l, r) => Holds(l, words, unknown) && Holds(r, words, unknown)
    case Unknown(id) => unknown(id)
  }

  // ----- the choices of the pattern -----

  /** All comparisons whose conjunction implies nothing less than the condition. */
  function CmpOps(c: Condition): seq<Comparison> {
    match c
    case Compared(cmp) => [cmp]
    case Both(l, r) => CmpOps(l) + CmpOps(r)
    case Unknown(_) => []
  }

  /** Without any conjunction. */
  predicate Single(c: Condition) {
    c.Compared?
  }

  /** The constant moved one towards zero, in a machine word (of 64 bits; any word the constant fits does). */
  function TowardsZero(v: nat, width: nat, word: nat): nat
    requires width >= 1
  {
    Wrap(if IsNegative(v, width) then Signed(v, width) + 1 else v - 1, word)
  }

  /** Whether being strictly closer to zero than the constant saves a bit, judged on its signed reading. */
  predicate IsBoundTight(m: Minimal, width: nat, word: nat)
    requires IsMinimalAt(m, width) && width <= word
  {
    m.constant.Some? &&
    RequiredBits(m.constant.value, width) == RequiredBits(TowardsZero(m.constant.value, width, word), word) + 1
  }

  /** The branch side (true or false) on which the comparison bounds the data from above. */
  function BranchToOptimize(p: Pred, isDataLhs: bool): Option<bool> {
    match p
    case EQ => Some(true)
    case NE => Some(false)
    case ULT => Some(isDataLhs)
    case ULE => Some(isDataLhs)
    case UGT => Some(!isDataLhs)
    case UGE => Some(!isDataLhs)
    case _ => None
  }

  function RealOptWidth(p: Pred, optWidth: nat, isDataLhs: bool): int {
    match p
    case ULT => if isDataLhs then optWidth - 1 else optWidth
    case UGE => if isDataLhs then optWidth - 1 else optWidth
    case ULE => if isDataLhs then optWidth else optWidth - 1
    case UGT => if isDataLhs then optWidth else optWidth - 1
    case _ => optWidth
  }

  datatype Choice = Choice(side: bool, width: int, ext: ExtType)

  /** What one comparison offers: a branch side, a width and an extension. */
  function Offer(cmp: Comparison, data: Minimal, word: nat): Option<Choice>
    requires WellTyped(cmp) && cmp.width <= word
  {
    if data != cmp.lhs && data != cmp.rhs then None
    else
      var isDataLhs := data == cmp.lhs;
      var bound := if isDataLhs then cmp.rhs else cmp.lhs;
      var side := BranchToOptimize(cmp.pred, isDataLhs);
      if side.None? then None
      else
        var width := if IsBoundTight(bound, cmp.width, word) then RealOptWidth(cmp.pred, bound.shape.bitWidth, isDataLhs)
                     else bound.shape.bitWidth;
        if cmp.pred.EQ? || cmp.pred.NE? then Some(Choice(side.value, width, bound.shape.extType))
        else if bound.shape.extType == SEXT then None
        else Some(Choice(side.value, width, ZEXT))
  }

  predicate FitsWord(c: Condition, word: nat) {
    forall cmp | cmp in CmpOps(c) :: cmp.width <= word
  }

  /** The narrowest offers for both sides. */
  method BestOffers(c: Condition, data: Minimal, word: nat) returns (onTrue: Option<Choice>, onFalse: Option<Choice>)
    requires ConditionTyped(c) && FitsWord(c, word)
    ensures onTrue.Some? ==> onTrue.value.side && exists cmp | cmp in CmpOps(c) :: WellTyped(cmp) && cmp.width <= word && Offer(cmp, data, word) == onTrue
    ensures onFalse.Some? ==>
              !onFalse.value.side && c.Compared? && exists cmp | cmp in CmpOps(c) :: WellTyped(cmp) && cmp.width <= word && Offer(cmp, data, word) == onFalse
    ensures forall cmp | cmp in CmpOps(c) && WellTyped(cmp) && cmp.width <= word && Offer(cmp, data, word).Some? ::
              var o := Offer(cmp, data, word).value;
              && (o.side ==> onTrue.Some? && onTrue.value.width <= o.width)
              && (!o.side && c.Compared? ==> onFalse.Some? && onFalse.value.width <= o.width)
  {
    onTrue, onFalse := None, None;
    var ops := CmpOps(c);
    CmpOpsTyped(c);
    for i := 0 to |ops|
      invariant onTrue.Some? ==> onTrue.value.side && exists cmp | cmp in ops :: WellTyped(cmp) && cmp.width <= word && Offer(cmp, data, word) == onTrue
      invariant onFalse.Some? ==>
                  !onFalse.value.side && Single(c) && exists cmp | cmp in ops :: WellTyped(cmp) && cmp.width <= word && Offer(cmp, data, word) == onFalse
      invariant forall j | 0 <= j < i && Offer(ops[j], data, word).Some? ::
                  var o := Offer(ops[j], data, word).value;
                  && (o.side ==> onTrue.Some? && onTrue.value.width <= o.width)
                  && (!o.side && Single(c) ==> onFalse.Some? && onFalse.value.width <= o.width)
    {
      assert ops[i] in ops;
      var offer := Offer(ops[i], data, word);
      if offer.Some? {
        if offer.value.side {
          if onTrue.None? || offer.value.width < onTrue.value.width {
            onTrue := offer;
          }
        } else if Single(c) {
          if onFalse.None? || offer.value.width < onFalse.value.width {
            onFalse := offer;
          }
        }
      }
    }
  }

  lemma {:induction false} CmpOpsTyped(c: Condition)
    requires ConditionTyped(c)
    ensures forall cmp | cmp in CmpOps(c) :: WellTyped(cmp)
  {
    if c.Both? {
      CmpOpsTyped(c.left);
      CmpOpsTyped(c.right);
    }
  }

  /** When a condition holds, so does every comparison in it. */
  lemma {:induction false} HoldsImpliesOps(c: Condition, words: Channels, unknown: nat -> bool)
    requires ConditionTyped(c) && Holds(c, words, unknown)
    ensures forall cmp | cmp in CmpOps(c) :: WellTyped(cmp) && Outcome(cmp, words)
  {
    if c.Both? {
      HoldsImpliesOps(c.left, words, unknown);
      HoldsImpliesOps(c.right, words, unknown);
    }
  }

  // ----- losslessness -----

  /** Truncating the data to the chosen width and extending it back changes nothing. */
  predicate Lossless(data: Minimal, dataWidth: nat, choice: Choice, words: Channels)
    requires data.shape.bitWidth >= 1
  {
    choice.width >= 1 &&
    var x := ValueAt(data, dataWidth, words);
    ModBitWidth(ExtWidth(choice.ext, choice.width), Wrap(x, choice.width), dataWidth) == x
  }

  function Bound(cmp: Comparison, data: Minimal): Minimal {
    if data == cmp.lhs then cmp.rhs else cmp.lhs
  }

  predicate Equality(p: Pred) {
    p.EQ? || p.NE?
  }

  /** The bound is approached strictly on the side that is optimized. */
  predicate Strict(cmp: Comparison, data: Minimal) {
    if data == cmp.lhs then cmp.pred.ULT? || cmp.pred.UGE? else cmp.pred.ULE? || cmp.pred.UGT?
  }

  /** The tightness test reads the constant as signed: a tight constant that is negative at its declared width is misjudged
      when the data fills that width too (except on two bits, where the answer happens to be right). */
  predicate Misjudged(cmp: Comparison, data: Minimal, word: nat)
    requires WellTyped(cmp) && cmp.width <= word
  {
    var b := Bound(cmp, data);
    && Strict(cmp, data) && IsBoundTight(b, cmp.width, word) && IsNegative(b.constant.value, cmp.width)
    && data.shape.extType == NONE && cmp.width != 2
    && (data.constant.Some? ==> data.constant.value < b.constant.value)
  }

  /** A sign-extended data operand is compared, at a width below its own, with a variable bound that fills that width: then
      the bound admits a negative word, which the narrowed data is taken to be positive for. */
  predicate Wider(cmp: Comparison, data: Minimal, dataWidth: nat) {
    var b := Bound(cmp, data);
    && !Equality(cmp.pred) && data.shape.extType == SEXT && b.shape.extType == NONE && cmp.width < dataWidth
    && b.constant.None? && (!Strict(cmp, data) || data.shape.bitWidth >= 2)
  }

  /** The offers that lose bits for some contents of the channels. */
  predicate Lossy(cmp: Comparison, data: Minimal, dataWidth: nat, word: nat)
    requires WellTyped(cmp) && cmp.width <= word
  {
    Misjudged(cmp, data, word) || Wider(cmp, data, dataWidth)
  }

  /** A channel has one width. */
  predicate OneWidth(cmp: Comparison) {
    cmp.lhs.constant.None? && cmp.rhs.constant.None? && cmp.lhs.repr == cmp.rhs.repr ==>
      cmp.lhs.shape.bitWidth == cmp.rhs.shape.bitWidth
  }

  lemma MeaningOf(m: Minimal, width: nat, words: Channels)
    requires IsMinimalAt(m, width)
    ensures var i := Meaning(m.shape, WordOf(m, words));
      && Fits(m.shape.extType, i, m.shape.bitWidth)
      && FitsSigned(i, width)
      && ValueAt(m, width, words) == Wrap(i, width)
  {
    var i := Meaning(m.shape, WordOf(m, words));
    MeaningFits(m.shape, WordOf(m, words));
    ModBitWidthIsWrap(m.shape, WordOf(m, words), width);
    FitsWider(i, m.shape.bitWidth, width);
  }

  /** If the data's integer fits the chosen shape, narrowing is lossless. */
  lemma FittingIsLossless(data: Minimal, dataWidth: nat, choice: Choice, words: Channels)
    requires IsMinimalAt(data, dataWidth) && 1 <= choice.width < dataWidth
    requires Fits(choice.ext, Meaning(data.shape, WordOf(data, words)), choice.width)
    ensures Lossless(data, dataWidth, choice, words)
  {
    var i := Meaning(data.shape, WordOf(data, words));
    MeaningOf(data, dataWidth, words);
    WrapWrap(i, choice.width, dataWidth);
    NarrowThenExtend(ExtWidth(choice.ext, choice.width), i, dataWidth);
  }

  lemma PredecessorBits(v: nat, width: nat, w: nat)
    requires 1 <= width <= w && 1 <= v < Pow2(width - 1)
    ensures Wrap(v - 1, w) == v - 1 < Pow2(RequiredBits(v - 1, w)) && !IsNegative(v - 1, w)
  {
    Pow2Monotone(width - 1, w - 1);
    WrapSmall(v - 1, w);
    ActiveBitsIsLeast(v - 1, RequiredBits(v - 1, w));
  }

  lemma AllOnesBits(i: int, w: nat)
    requires w >= 1 && i == -1
    ensures RequiredBits(Wrap(i, w), w) == 1
  {
    WrapNegative(i, w);
    assert ActiveBits(0) == 0;
  }

  /** A tight non-negative constant is one bit wider than its predecessor. */
  lemma TightConstant(v: nat, width: nat, word: nat)
    requires 1 <= width <= word && v < Pow2(width) && !IsNegative(v, width)
    requires RequiredBits(v, width) == RequiredBits(TowardsZero(v, width, word), word) + 1
    ensures RequiredBits(v, width) >= 2 && v <= Pow2(RequiredBits(v, width) - 1)
  {
    if v == 0 {
      AllOnesBits(v - 1, word);
    } else {
      PredecessorBits(v, width, word);
    }
  }

  /** On the optimized side an order comparison bounds the data word by the bound word. */
  lemma OptimizedSideBounds(cmp: Comparison, data: Minimal, word: nat, words: Channels)
    requires WellTyped(cmp) && cmp.width <= word && Offer(cmp, data, word).Some? && Outcome(cmp, words) == Offer(cmp, data, word).value.side
    ensures var x, b := ValueAt(data, cmp.width, words), ValueAt(Bound(cmp, data), cmp.width, words);
      if Equality(cmp.pred) then x == b else x <= b && (Strict(cmp, data) ==> x < b)
  {
  }

  lemma NonNegativeBelow(i: int, w: nat, b: nat)
    requires FitsSigned(i, w) && Wrap(i, w) <= b && b < Pow2(w - 1)
    ensures 0 <= i == Wrap(i, w)
  {
    SignedOfWrap(i, w);
  }

  /** The word of a constant bound is the constant. */
  lemma ConstantWord(m: Minimal, width: nat, words: Channels)
    requires IsMinimalAt(m, width) && m.constant.Some?
    ensures ValueAt(m, width, words) == m.constant.value
  {
    var v, b := m.constant.value, m.shape.bitWidth;
    RequiredBitsIsLeast(v, width, b);
    WrapSigned(v, width);
    if b < width {
      WrapWrap(Signed(v, width), b, width);
      NarrowThenExtend(m.shape, Signed(v, width), width);
    } else {
      WrapSmall(v, width);
    }
  }

  lemma TightLossless(cmp: Comparison, data: Minimal, dataWidth: nat, word: nat, words: Channels)
    requires WellTyped(cmp) && IsMinimalAt(data, dataWidth) && cmp.width <= word
    requires Offer(cmp, data, word).Some? && !Equality(cmp.pred)
    requires Strict(cmp, data) && IsBoundTight(Bound(cmp, data), cmp.width, word)
    requires !IsNegative(Bound(cmp, data).constant.value, cmp.width)
    requires Outcome(cmp, words) == Offer(cmp, data, word).value.side
    requires Offer(cmp, data, word).value.width < dataWidth
    ensures Lossless(data, dataWidth, Offer(cmp, data, word).value, words)
  {
    var bound := Bound(cmp, data);
    var v, n := bound.constant.value, bound.shape.bitWidth;
    TightConstant(v, cmp.width, word);
    OptimizedSideBounds(cmp, data, word, words);
    ConstantWord(bound, cmp.width, words);
    MeaningOf(data, cmp.width, words);
    NonNegativeBelow(Meaning(data.shape, WordOf(data, words)), cmp.width, v);
    FittingIsLossless(data, dataWidth, Offer(cmp, data, word).value, words);
  }

  /** The two-bit constant 2 reads as negative, is tight, and its strict bound does fit one bit. */
  lemma TwoBitsLossless(cmp: Comparison, data: Minimal, dataWidth: nat, word: nat, words: Channels)
    requires WellTyped(cmp) && IsMinimalAt(data, dataWidth) && cmp.width == 2 <= word
    requires Offer(cmp, data, word).Some? && !Equality(cmp.pred) && data.shape.extType == NONE
    requires Strict(cmp, data) && IsBoundTight(Bound(cmp, data), cmp.width, word)
    requires IsNegative(Bound(cmp, data).constant.value, cmp.width)
    requires Outcome(cmp, words) == Offer(cmp, data, word).value.side && Offer(cmp, data, word).value.width < dataWidth
    ensures Lossless(data, dataWidth, Offer(cmp, data, word).value, words)
  {
    var bound := Bound(cmp, data);
    var v := bound.constant.value;
    OptimizedSideBounds(cmp, data, word, words);
    ConstantWord(bound, cmp.width, words);
    MeaningOf(data, cmp.width, words);
    assert Pow2(2) == 4 && Pow2(1) == 2;
    var i := Meaning(data.shape, WordOf(data, words));
    SignedOfWrap(i, 2);
    assert v == 2 && bound.shape == ExtWidth(NONE, 2) by {
      assert v == 2 || v == 3;
      assert ActiveBits(0) == 0 && ActiveBits(1) == 1 + ActiveBits(0);
    }
    FittingIsLossless(data, dataWidth, Offer(cmp, data, word).value, words);
  }

  lemma LooseLossless(cmp: Comparison, data: Minimal, dataWidth: nat, word: nat, words: Channels)
    requires WellTyped(cmp) && IsMinimalAt(data, dataWidth) && cmp.width <= word
    requires Offer(cmp, data, word).Some? && !Wider(cmp, data, dataWidth)
    requires Offer(cmp, data, word).value.width == Bound(cmp, data).shape.bitWidth < dataWidth
    requires Outcome(cmp, words) == Offer(cmp, data, word).value.side
    ensures Lossless(data, dataWidth, Offer(cmp, data, word).value, words)
  {
    var bound, w := Bound(cmp, data), cmp.width;
    var i, j := Meaning(data.shape, WordOf(data, words)), Meaning(bound.shape, WordOf(bound, words));
    OptimizedSideBounds(cmp, data, word, words);
    MeaningOf(data, w, words);
    MeaningOf(bound, w, words);
    if Equality(cmp.pred) {
      SignedOfWrap(i, w);
      SignedOfWrap(j, w);
    } else if bound.shape.extType == ZEXT {
      Pow2Monotone(bound.shape.bitWidth, w - 1);
      WrapSmall(j, w);
      NonNegativeBelow(i, w, j);
    } else if data.shape.extType == SEXT {
      NotWiderIsNonNegative(cmp, data, dataWidth, words);
      FitsWider(i, data.shape.bitWidth, w);
    } else {
      Pow2Monotone(data.shape.bitWidth, w);
    }
    FittingIsLossless(data, dataWidth, Offer(cmp, data, word).value, words);
  }

  /** A constant that needs all bits of its width is below the words of all narrower negative integers. */
  lemma FullConstantIsBelow(v: nat, w: nat, i: int, m: nat)
    requires 1 <= m < w && v < Pow2(w) && RequiredBits(v, w) == w && i < 0 && FitsSigned(i, m)
    ensures Wrap(i, w) > v
  {
    FitsWider(i, m, w - 1);
    FitsWider(i, m, w);
    WrapNegative(i, w);
    RequiredBitsIsLeast(v, w, w - 1);
    if IsNegative(v, w) {
      assert Signed(v, w) == v - Pow2(w);
    }
  }

  /** Below a bound that is constant, or strictly below one with a single sign bit, sign-extended data is not negative. */
  lemma NotWiderIsNonNegative(cmp: Comparison, data: Minimal, dataWidth: nat, words: Channels)
    requires WellTyped(cmp) && IsMinimalAt(data, cmp.width) && data.shape.extType == SEXT && !Equality(cmp.pred)
    requires Bound(cmp, data).shape.extType == NONE && cmp.width < dataWidth && !Wider(cmp, data, dataWidth)
    requires var x, b := ValueAt(data, cmp.width, words), ValueAt(Bound(cmp, data), cmp.width, words);
      x <= b && (Strict(cmp, data) ==> x < b)
    ensures Meaning(data.shape, WordOf(data, words)) >= 0
  {
    var bound, w := Bound(cmp, data), cmp.width;
    var i := Meaning(data.shape, WordOf(data, words));
    MeaningOf(data, w, words);
    MeaningOf(bound, w, words);
    if i < 0 {
      if bound.constant.Some? {
        ConstantWord(bound, w, words);
        FullConstantIsBelow(bound.constant.value, w, i, data.shape.bitWidth);
      } else {
        MinusOneWord(i, w);
      }
      assert false;
    }
  }

  lemma OneMoreBit(c: nat)
    requires c >= 1 && ActiveBits(c) == ActiveBits(c - 1) + 1
    ensures c == Pow2(ActiveBits(c - 1))
  {
    ActiveBitsIsLeast(c - 1, ActiveBits(c - 1));
    ActiveBitsIsLeast(c, ActiveBits(c - 1));
  }

  /** Moving a negative constant towards zero: one active bit pattern down. */
  lemma TowardsZeroBits(v: nat, width: nat, word: nat, c: nat)
    requires 1 <= width <= word && IsNegative(v, width) && c == Pow2(width) - 1 - v && c >= 1 && v < Pow2(width)
    ensures RequiredBits(TowardsZero(v, width, word), word) == ActiveBits(c - 1) + 1
  {
    Pow2Monotone(width - 1, word - 1);
    WrapNegative(-(c as int), word);
    assert Signed(v, width) + 1 == -(c as int);
  }

  /** A tight negative constant that fills its width is the complement of a power of two. */
  lemma NegativeTight(v: nat, width: nat, word: nat)
    requires 1 <= width <= word && v < Pow2(width) && IsNegative(v, width) && RequiredBits(v, width) == width
    requires RequiredBits(v, width) == RequiredBits(TowardsZero(v, width, word), word) + 1
    ensures width >= 2 && v == Pow2(width) - 1 - Pow2(width - 2)
  {
    var c := Pow2(width) - 1 - v;
    AllOnesNotTight(Pow2(width) - 1, width, word);
    TowardsZeroBits(v, width, word, c);
    OneMoreBit(c);
  }

  lemma AllOnesNotTight(v: nat, width: nat, word: nat)
    requires 1 <= width <= word && v == Pow2(width) - 1
    ensures RequiredBits(v, width) == 1 == RequiredBits(TowardsZero(v, width, word), word)
  {
    assert ActiveBits(0) == 0;
    ZeroBits(Signed(v, width) + 1, word);
  }

  lemma ZeroBits(i: int, w: nat)
    requires w >= 1 && i == 0
    ensures RequiredBits(Wrap(i, w), w) == 1
  {
    WrapSmall(i, w);
  }

  /** A misjudged constant does no harm to data that is itself an extension of something narrower. */
  lemma NegativeTightLossless(cmp: Comparison, data: Minimal, dataWidth: nat, word: nat, words: Channels)
    requires WellTyped(cmp) && IsMinimalAt(data, dataWidth) && cmp.width <= word
    requires Offer(cmp, data, word).Some? && !Equality(cmp.pred) && data.shape.extType != NONE
    requires Strict(cmp, data) && IsBoundTight(Bound(cmp, data), cmp.width, word)
    requires IsNegative(Bound(cmp, data).constant.value, cmp.width)
    requires Outcome(cmp, words) == Offer(cmp, data, word).value.side && Offer(cmp, data, word).value.width < dataWidth
    ensures Lossless(data, dataWidth, Offer(cmp, data, word).value, words)
  {
    NegativeTight(Bound(cmp, data).constant.value, cmp.width, word);
    BelowNegativeTight(cmp, data, dataWidth, word, words);
    FittingIsLossless(data, dataWidth, Offer(cmp, data, word).value, words);
  }

  /** On the optimized side of such a bound the data is non-negative one bit below the comparison's width. */
  lemma BelowNegativeTight(cmp: Comparison, data: Minimal, dataWidth: nat, word: nat, words: Channels)
    requires WellTyped(cmp) && IsMinimalAt(data, dataWidth) && cmp.width <= word
    requires Offer(cmp, data, word).Some? && !Equality(cmp.pred) && data.shape.extType != NONE
    requires Strict(cmp, data) && Bound(cmp, data).constant.Some? && cmp.width >= 2
    requires Bound(cmp, data).constant.value == Pow2(cmp.width) - 1 - Pow2(cmp.width - 2)
    requires data.shape.bitWidth <= cmp.width - 1
    requires Outcome(cmp, words) == Offer(cmp, data, word).value.side
    ensures FitsUnsigned(Meaning(data.shape, WordOf(data, words)), cmp.width - 1)
  {
    var i := Meaning(data.shape, WordOf(data, words));
    StrictlyBelow(cmp, data, dataWidth, word, words);
    MeaningFits(data.shape, WordOf(data, words));
    NarrowBelowComplement(data.shape, i, cmp.width, Bound(cmp, data).constant.value);
  }

  lemma NarrowBelowComplement(m: ExtWidth, i: int, w: nat, v: nat)
    requires w >= 2 && v == Pow2(w) - 1 - Pow2(w - 2) && m.extType != NONE && m.bitWidth <= w - 1
    requires Fits(m.extType, i, m.bitWidth) && Wrap(i, w) < v
    ensures FitsUnsigned(i, w - 1)
  {
    FitsWider(i, m.bitWidth, w - 1);
    NonNegativeBelowComplement(i, w, v);
  }

  lemma StrictlyBelow(cmp: Comparison, data: Minimal, dataWidth: nat, word: nat, words: Channels)
    requires WellTyped(cmp) && IsMinimalAt(data, dataWidth) && cmp.width <= word
    requires Offer(cmp, data, word).Some? && !Equality(cmp.pred) && Strict(cmp, data) && Bound(cmp, data).constant.Some?
    requires Outcome(cmp, words) == Offer(cmp, data, word).value.side
    ensures Wrap(Meaning(data.shape, WordOf(data, words)), cmp.width) < Bound(cmp, data).constant.value
  {
    OptimizedSideBounds(cmp, data, word, words);
    ConstantWord(Bound(cmp, data), cmp.width, words);
    MeaningOf(data, cmp.width, words);
  }

  lemma NonNegativeBelowComplement(i: int, w: nat, v: nat)
    requires w >= 2 && v == Pow2(w) - 1 - Pow2(w - 2)
    requires FitsUnsigned(i, w - 1) || FitsSigned(i, w - 1)
    requires Wrap(i, w) < v
    ensures FitsUnsigned(i, w - 1)
  {
    if i < 0 {
      FitsWider(i, w - 1, w);
      SignedOfWrap(i, w);
      NegativeWord(Wrap(i, w), w);
    }
  }

  /** What an offer of a single comparison promises on its side of the branch. */
  lemma OfferLossless(cmp: Comparison, data: Minimal, dataWidth: nat, word: nat, words: Channels)
    requires WellTyped(cmp) && IsMinimalAt(data, dataWidth) && cmp.width <= word
    requires Offer(cmp, data, word).Some? && Offer(cmp, data, word).value.width < dataWidth
    requires !Lossy(cmp, data, dataWidth, word)
    requires Outcome(cmp, words) == Offer(cmp, data, word).value.side
    ensures Lossless(data, dataWidth, Offer(cmp, data, word).value, words)
  {
    var bound := Bound(cmp, data);
    if IsBoundTight(bound, cmp.width, word) && Strict(cmp, data) {
      if !IsNegative(bound.constant.value, cmp.width) {
        TightLossless(cmp, data, dataWidth, word, words);
      } else if data.shape.extType == NONE && cmp.width != 2 {
        StrictlyBelow(cmp, data, dataWidth, word, words);
        MeaningOf(data, cmp.width, words);
        ConstantWord(data, cmp.width, words);
        assert false;
      } else if data.shape.extType == NONE {
        TwoBitsLossless(cmp, data, dataWidth, word, words);
      } else {
        NegativeTightLossless(cmp, data, dataWidth, word, words);
      }
    } else {
      LooseLossless(cmp, data, dataWidth, word, words);
    }
  }

  /** Witness against a misjudged constant: the data word that is only its top bit. */
  lemma MisjudgedIsLossy(cmp: Comparison, data: Minimal, dataWidth: nat, word: nat) returns (words: Channels)
    requires WellTyped(cmp) && IsMinimalAt(data, dataWidth) && cmp.width <= word
    requires Offer(cmp, data, word).Some? && Offer(cmp, data, word).value.width < dataWidth
    requires Misjudged(cmp, data, word)
    ensures Outcome(cmp, words) == Offer(cmp, data, word).value.side
    ensures !Lossless(data, dataWidth, Offer(cmp, data, word).value, words)
  {
    var w, bound := cmp.width, Bound(cmp, data);
    var half := Pow2(w - 1);
    words := (id: nat) => half;
    NegativeTight(bound.constant.value, w, word);
    ConstantWord(bound, w, words);
    assert Pow2(w) == 2 * half && half == 2 * Pow2(w - 2);
    if data.constant.Some? {
      ConstantWord(data, w, words);
      FullConstantIsHigh(data.constant.value, w);
    } else {
      WrapSmall(half, w);
      if w > 2 { Pow2Monotone(1, w - 2); }
      assert ValueAt(data, w, words) == half;
    }
  }

  lemma FullConstantIsHigh(v: nat, w: nat)
    requires w >= 2 && v < Pow2(w) && RequiredBits(v, w) == w
    ensures v >= Pow2(w - 1)
  {
    RequiredBitsIsLeast(v, w, w - 1);
  }

  lemma Tight191(word: nat)
    requires word >= 8
    ensures Pow2(8) == 256 && RequiredBits(191, 8) == 8 && RequiredBits(TowardsZero(191, 8, word), word) == 7
  {
    SomeActiveBits();
    Pow2Monotone(7, word - 1);
    TowardsZero191(word);
  }

  lemma SomeActiveBits()
    ensures ActiveBits(64) == 7 && ActiveBits(63) == 6 && Pow2(8) == 256 && Pow2(7) == 128
  {
  }

  /** Extended to the machine word, 191 reads as -65; towards zero is -64. */
  lemma TowardsZero191(word: nat)
    requires word >= 8 && Pow2(8) == 256 && Pow2(7) == 128 && Pow2(7) <= Pow2(word - 1)
    ensures TowardsZero(191, 8, word) == Wrap(-64, word)
    ensures IsNegative(Wrap(-64, word), word) && Pow2(word) - 1 - Wrap(-64, word) == 63
  {
    WrapNegative(-64, word);
  }

  /** A concrete misjudged bound: data of eight bits, compared below 191, is cut to seven bits. */
  lemma BoundOf191IsLossy(cmp: Comparison, word: nat, words: Channels)
    requires word >= 8
    requires cmp == Comparison(ULT, 8, Minimal(ExtWidth(NONE, 8), 0, None), Minimal(ExtWidth(NONE, 8), 1, Some(191)))
    requires words(0) == 130
    ensures Pow2(8) == 256 && WellTyped(cmp)
    ensures Offer(cmp, cmp.lhs, word) == Some(Choice(true, 7, ZEXT))
    ensures Outcome(cmp, words) && !Lossless(cmp.lhs, 8, Choice(true, 7, ZEXT), words)
  {
    Tight191(word);
    ConstantWord(cmp.rhs, 8, words);
    WrapSmall(130, 8);
    assert ValueAt(cmp.lhs, 8, words) == 130;
    WrapUnique(130, 7, 1, 2);
  }

  lemma AllOnesIsMinusOne(m: nat, to: nat)
    requires 1 <= m <= to
    ensures Wrap(Pow2(m) - 1, m) == Pow2(m) - 1 && Signed(Pow2(m) - 1, m) == -1
    ensures Wrap(-1, to) == Pow2(to) - 1
  {
    WrapSmall(Pow2(m) - 1, m);
    AllOnesSigned(m);
    MinusOneWord(-1, to);
  }

  lemma AllOnesSigned(m: nat)
    requires m >= 1
    ensures Signed(Pow2(m) - 1, m) == -1
  {
    assert Pow2(m) == 2 * Pow2(m - 1);
  }

  lemma MinusOneWord(i: int, w: nat)
    requires i == -1
    ensures Wrap(i, w) == Pow2(w) - 1
  {
    WrapUnique(i, w, -1, Pow2(w) - 1);
  }

  /** Witness against a wider comparison: data that is minus one, or minus two where it must stay strictly below, compared
      with a bound of all ones. */
  lemma WiderIsLossy(cmp: Comparison, data: Minimal, dataWidth: nat, word: nat) returns (words: Channels)
    requires WellTyped(cmp) && OneWidth(cmp) && IsMinimalAt(data, dataWidth) && cmp.width <= word
    requires Offer(cmp, data, word).Some? && Wider(cmp, data, dataWidth)
    ensures Outcome(cmp, words) == Offer(cmp, data, word).value.side
    ensures !Lossless(data, dataWidth, Offer(cmp, data, word).value, words)
  {
    var w, m, bound := cmp.width, data.shape.bitWidth, Bound(cmp, data);
    var i := if m >= 2 then -2 else -1;
    var x: nat, b: nat := Wrap(i, m), Pow2(w) - 1;
    words := (id: nat) => if id == data.repr && data.constant.None? then x else b;
    AllOnesIsMinusOne(w, w);
    AllOnesValue(bound, w, words);
    var j := Meaning(data.shape, WordOf(data, words));
    NegativeMeaning(data, w, i, words);
    MeaningOf(data, w, words);
    MeaningOf(data, dataWidth, words);
    WrapNegative(j, w);
    WrapNegative(j, dataWidth);
    Pow2Monotone(w, dataWidth);
  }

  lemma AllOnesValue(m: Minimal, width: nat, words: Channels)
    requires IsMinimalAt(m, width) && WordOf(m, words) == Pow2(m.shape.bitWidth) - 1 && m.shape.extType != ZEXT
    ensures ValueAt(m, width, words) == Pow2(width) - 1
  {
    AllOnesIsMinusOne(m.shape.bitWidth, width);
    MeaningOf(m, width, words);
  }

  /** Sign-extended data can be negative, and other than minus one if it has two bits; a constant is. */
  lemma NegativeMeaning(data: Minimal, width: nat, i: int, words: Channels)
    requires IsMinimalAt(data, width) && data.shape.extType == SEXT
    requires i == if data.shape.bitWidth >= 2 then -2 else -1
    requires data.constant.None? ==> words(data.repr) == Wrap(i, data.shape.bitWidth)
    ensures var j := Meaning(data.shape, WordOf(data, words));
      j < 0 && (data.shape.bitWidth >= 2 ==> j != -1)
  {
    var m := data.shape.bitWidth;
    if data.constant.None? {
      WrapWrap(i, m, m);
      if m >= 2 { Pow2Monotone(1, m - 1); }
      SignedOfWrap(i, m);
    } else {
      var v := data.constant.value;
      RequiredBitsIsLeast(v, width, m);
      RequiredBitsIsLeast(v, width, 1);
      WrapSigned(v, width);
      WrapWrap(Signed(v, width), m, width);
      SignedOfWrap(Signed(v, width), m);
    }
  }

  /** Exactness: at every width of the comparison, an offer is lossless for all channel contents on its side of the branch
      if and only if its bound is neither misjudged nor wider than the data. */
  lemma OfferLosslessIff(cmp: Comparison, data: Minimal, dataWidth: nat, word: nat)
    requires WellTyped(cmp) && OneWidth(cmp) && IsMinimalAt(data, dataWidth) && cmp.width <= word
    requires Offer(cmp, data, word).Some? && Offer(cmp, data, word).value.width < dataWidth
    ensures (forall words: Channels | Outcome(cmp, words) == Offer(cmp, data, word).value.side ::
               Lossless(data, dataWidth, Offer(cmp, data, word).value, words))
            <==> !Lossy(cmp, data, dataWidth, word)
  {
    if Misjudged(cmp, data, word) {
      var words := MisjudgedIsLossy(cmp, data, dataWidth, word);
    } else if Wider(cmp, data, dataWidth) {
      var words := WiderIsLossy(cmp, data, dataWidth, word);
    } else {
      forall words: Channels | Outcome(cmp, words) == Offer(cmp, data, word).value.side
        ensures Lossless(data, dataWidth, Offer(cmp, data, word).value, words)
      {
        OfferLossless(cmp, data, dataWidth, word, words);
      }
    }
  }

  // ----- the rewritten branch -----

  /** All branches of a typed condition: an offer chosen for one side never changes the data that side hands on, unless the
      one comparison it comes from is lossy. */
  lemma BranchLossless(c: Condition, cmp: Comparison, data: Minimal, dataWidth: nat, choice: Choice, word: nat, words: Channels,
                       unknown: nat -> bool)
    requires ConditionTyped(c) && FitsWord(c, word) && IsMinimalAt(data, dataWidth)
    requires cmp in CmpOps(c) && WellTyped(cmp) && cmp.width <= word && Offer(cmp, data, word) == Some(choice)
    requires !choice.side ==> c.Compared?
    requires choice.width < dataWidth && !Lossy(cmp, data, dataWidth, word)
    requires Holds(c, words, unknown) == choice.side
    ensures Lossless(data, dataWidth, choice, words)
  {
    if choice.side {
      HoldsImpliesOps(c, words, unknown);
    }
    OfferLossless(cmp, data, dataWidth, word, words);
  }

  /** The pattern extends back only to the width the users need: every truncation among them sees the same bits. */
  lemma UsersUnaffected(data: Minimal, dataWidth: nat, choice: Choice, useful: nat, t: nat, words: Channels)
    requires IsMinimalAt(data, dataWidth) && 1 <= choice.width < useful <= dataWidth && t <= useful
    requires Lossless(data, dataWidth, choice, words)
    ensures var x := ValueAt(data, dataWidth, words);
      var extended := ModBitWidth(ExtWidth(choice.ext, choice.width), Wrap(x, choice.width), useful);
      Wrap(extended, t) == Wrap(x, t)
  {
    var x := ValueAt(data, dataWidth, words);
    var shape := ExtWidth(choice.ext, choice.width);
    var u := Wrap(x, choice.width);
    ModBitWidthIsWrap(shape, u, useful);
    ModBitWidthIsWrap(shape, u, dataWidth);
    WrapWrap(Meaning(shape, u), t, useful);
    WrapWrap(Meaning(shape, u), t, dataWidth);
  }
}
