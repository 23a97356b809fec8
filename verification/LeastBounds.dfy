/** Which comparisons bound a branch, when they do, and that the widths they offer are the least ones. */
module LeastBounds {
  import opened Basics
  import opened Words
  import opened Transfer
  import opened Scalar
  import opened BranchBounds
  import opened LeastWidths

  // ----- which comparisons are collected -----

  /** What is found by going left (true) or right through conjunctions only. */
  function SubAt(c: Condition, path: seq<bool>): Option<Condition> {
    if path == [] then Some(c)
    else if c.Both? then SubAt(if path[0] then c.left else c.right, path[1..])
    else None
  }

  lemma SubBelow(c: Condition, left: bool, path: seq<bool>)
    requires c.Both?
    ensures SubAt(c, [left] + path) == SubAt(if left then c.left else c.right, path)
  {
    assert ([left] + path)[1..] == path;
  }

  lemma {:induction false} FoundAt(c: Condition, cmp: Comparison) returns (path: seq<bool>)
    requires cmp in CmpOps(c)
    ensures SubAt(c, path) == Some(Compared(cmp))
  {
    if c.Both? {
      var left := cmp in CmpOps(c.left);
      var rest := FoundAt(if left then c.left else c.right, cmp);
      SubBelow(c, left, rest);
      path := [left] + rest;
    } else {
      path := [];
    }
  }

  lemma {:induction false} FoundIsCollected(c: Condition, cmp: Comparison, path: seq<bool>)
    requires SubAt(c, path) == Some(Compared(cmp))
    ensures cmp in CmpOps(c)
  {
    if path != [] {
      FoundIsCollected(if path[0] then c.left else c.right, cmp, path[1..]);
    }
  }

  /** Exactly the comparisons that conjunctions alone lead to. */
  lemma CmpOpsExactly(c: Condition, cmp: Comparison)
    ensures cmp in CmpOps(c) <==> exists path :: SubAt(c, path) == Some(Compared(cmp))
  {
    if cmp in CmpOps(c) {
      var path := FoundAt(c, cmp);
    }
    if path :| SubAt(c, path) == Some(Compared(cmp)) {
      FoundIsCollected(c, cmp, path);
    }
  }

  // ----- when a comparison offers -----

  /** A comparison offers exactly if the data is an operand and the other operand bounds it as an unsigned word or equals it. */
  lemma OfferExactly(cmp: Comparison, data: Minimal, word: nat)
    requires WellTyped(cmp) && cmp.width <= word
    ensures Offer(cmp, data, word).Some? <==>
            (data == cmp.lhs || data == cmp.rhs) && !cmp.pred.IsSigned() && (Equality(cmp.pred) || Bound(cmp, data).shape.extType != SEXT)
    ensures Offer(cmp, data, word).Some? ==>
              Offer(cmp, data, word).value.ext == if Equality(cmp.pred) then Bound(cmp, data).shape.extType else ZEXT
  {
  }

  /** What the outcome on the optimized side says, and nothing else does. */
  lemma SideExactly(cmp: Comparison, data: Minimal, word: nat, words: Channels)
    requires WellTyped(cmp) && cmp.width <= word && Offer(cmp, data, word).Some?
    ensures var x, b := ValueAt(data, cmp.width, words), ValueAt(Bound(cmp, data), cmp.width, words);
      Outcome(cmp, words) == Offer(cmp, data, word).value.side <==>
      if Equality(cmp.pred) then x == b else x <= b && (Strict(cmp, data) ==> x < b)
  {
  }

  // ----- the width a comparison offers -----

  /** Data that may be any word of the comparison's width, whatever is on the bound. */
  predicate Unconstrained(cmp: Comparison, data: Minimal) {
    data.shape == ExtWidth(NONE, cmp.width) && data.constant.None? && (Bound(cmp, data).constant.Some? || Bound(cmp, data).repr != data.repr)
  }

  /** The data stays strictly below the constant that only has the sign bit, which the test for tightness reads as negative. */
  predicate BelowSignBit(cmp: Comparison, data: Minimal) {
    Strict(cmp, data) && cmp.width >= 3 && Bound(cmp, data).constant == Some(Pow2(cmp.width - 1))
  }

  /** Contents of the channels on the optimized side with which a width loses the data. */
  ghost predicate Loses(cmp: Comparison, data: Minimal, side: bool, w: nat, e: ExtType)
    requires WellTyped(cmp) && IsMinimalAt(data, cmp.width)
  {
    exists words: Channels :: Outcome(cmp, words) == side && !Lossless(data, cmp.width, Choice(side, w, e), words)
  }

  function Kind(e: ExtType): ExtType {
    if e == ZEXT then ZEXT else SEXT
  }

  lemma LostIsLossy(cmp: Comparison, data: Minimal, word: nat, e: ExtType, w: nat, z: int, words: Channels)
    requires WellTyped(cmp) && cmp.width <= word && Offer(cmp, data, word).Some? && Unconstrained(cmp, data)
    requires 1 <= w < cmp.width && words(data.repr) == Wrap(z, cmp.width) && Lost(Kind(e), z, w, cmp.width)
    requires Outcome(cmp, words) == Offer(cmp, data, word).value.side
    ensures Loses(cmp, data, Offer(cmp, data, word).value.side, w, e)
  {
    WrapWrap(z, cmp.width, cmp.width);
    WrapWrap(z, w, cmp.width);
    assert ValueAt(data, cmp.width, words) == Wrap(z, cmp.width);
    assert !Lossless(data, cmp.width, Choice(Offer(cmp, data, word).value.side, w, e), words);
  }

  /** The greatest word of a bound. */
  lemma GreatestBound(m: Minimal, width: nat, words: Channels)
    requires IsMinimalAt(m, width) && m.constant.None? && m.shape.extType != SEXT && words(m.repr) == Pow2(m.shape.bitWidth) - 1
    ensures ValueAt(m, width, words) == Pow2(m.shape.bitWidth) - 1
  {
    WrapSmall(Pow2(m.shape.bitWidth) - 1, m.shape.bitWidth);
  }

  /** An order with a variable bound of `n` bits admits data of `n` bits. */
  lemma OrderOfVariable(cmp: Comparison, data: Minimal, word: nat, w: nat)
    requires WellTyped(cmp) && cmp.width <= word && Offer(cmp, data, word).Some? && Unconstrained(cmp, data)
    requires !Equality(cmp.pred) && Bound(cmp, data).constant.None? && 1 <= w < Bound(cmp, data).shape.bitWidth
    ensures Loses(cmp, data, Offer(cmp, data, word).value.side, w, ZEXT)
  {
    var bound, n := Bound(cmp, data), Bound(cmp, data).shape.bitWidth;
    var x: nat, top: nat := Pow2(w), Pow2(n) - 1;
    var words: Channels := (id: nat) => if id == data.repr then x else top;
    GreatestBound(bound, cmp.width, words);
    PowersAround(w + 1, n);
    PowersAround(n, cmp.width);
    WrapSmall(Pow2(w), cmp.width);
    ProbeIsLost(ZEXT, ZEXT, w, cmp.width);
    assert ValueAt(data, cmp.width, words) == Pow2(w);
    SideExactly(cmp, data, word, words);
    LostIsLossy(cmp, data, word, ZEXT, w, Pow2(w), words);
  }

  lemma {:induction false} ActiveBitsOfPower(n: nat)
    requires n >= 1
    ensures ActiveBits(Pow2(n)) == n + 1 && ActiveBits(Pow2(n) - 1) == n
  {
    ActiveBitsIsLeast(Pow2(n), n + 1);
    ActiveBitsIsLeast(Pow2(n), n);
    ActiveBitsIsLeast(Pow2(n) - 1, n);
    ActiveBitsIsLeast(Pow2(n) - 1, n - 1);
  }

  lemma NonNegativeBits(v: nat, w: nat, n: nat)
    requires w >= 1 && v < Pow2(w - 1) && n >= 1 && ActiveBits(v) == n
    ensures v < Pow2(w) && RequiredBits(v, w) == n
  {
  }

  lemma PredecessorNeeds(v: nat, width: nat, word: nat, n: nat)
    requires 1 <= width <= word && 1 <= v < Pow2(width - 1) && n >= 1 && ActiveBits(v - 1) == n
    ensures v < Pow2(width) && RequiredBits(TowardsZero(v, width, word), word) == n
  {
    PredecessorBits(v, width, word);
    NonNegativeBits(v - 1, word, n);
  }

  /** A power of two is tight, unless it reads as negative. */
  lemma PowerIsTight(v: nat, n: nat, width: nat, word: nat)
    requires 1 <= n < width - 1 && width <= word && v == Pow2(n)
    ensures v < Pow2(width) && RequiredBits(v, width) == n + 1 && RequiredBits(TowardsZero(v, width, word), word) == n
  {
    assert v < Pow2(width - 1) && ActiveBits(v) == n + 1 && ActiveBits(v - 1) == n by {
      Pow2Monotone(n, width - 1);
      ActiveBitsOfPower(n);
    }
    NonNegativeBits(v, width, n + 1);
    PredecessorNeeds(v, width, word, n);
  }

  /** A constant bound is above every power of two that its offered width does not hold. */
  lemma BoundAbove(cmp: Comparison, data: Minimal, word: nat, w: nat)
    requires WellTyped(cmp) && cmp.width <= word && Offer(cmp, data, word).Some? && !Equality(cmp.pred)
    requires Bound(cmp, data).constant.Some? && 1 <= w < Offer(cmp, data, word).value.width
    requires !(BelowSignBit(cmp, data) && w == cmp.width - 1)
    ensures w < cmp.width && Pow2(w) <= Bound(cmp, data).constant.value && (Strict(cmp, data) ==> Pow2(w) < Bound(cmp, data).constant.value)
  {
    var v, n := Bound(cmp, data).constant.value, Bound(cmp, data).shape.bitWidth;
    RequiredBitsIsLeast(v, cmp.width, n);
    RequiredBitsIsLeast(v, cmp.width, w);
    PowersAround(w + 1, cmp.width);
    if Strict(cmp, data) && v == Pow2(w) {
      if w == cmp.width - 1 {
        SignBitBound(v, cmp.width, word);
      } else {
        PowerIsTight(v, w, cmp.width, word);
      }
    }
  }

  /** On two bits the sign bit alone is tight. */
  lemma SignBitBound(v: nat, width: nat, word: nat)
    requires width == 2 <= word && v == Pow2(1)
    ensures v < Pow2(width) && RequiredBits(v, width) == 2 && RequiredBits(TowardsZero(v, width, word), word) == 1
  {
    assert Pow2(1) == 2 && Pow2(2) == 4;
    assert ActiveBits(1) == 1 && ActiveBits(0) == 0;
    TowardsZeroBits(v, width, word, 1);
  }

  lemma OrderOfConstant(cmp: Comparison, data: Minimal, word: nat, w: nat)
    requires WellTyped(cmp) && cmp.width <= word && Offer(cmp, data, word).Some? && Unconstrained(cmp, data)
    requires !Equality(cmp.pred) && Bound(cmp, data).constant.Some? && 1 <= w < Offer(cmp, data, word).value.width
    requires !(BelowSignBit(cmp, data) && w == cmp.width - 1)
    ensures Loses(cmp, data, Offer(cmp, data, word).value.side, w, ZEXT)
  {
    var bound := Bound(cmp, data);
    var words: Channels := (id: nat) => Pow2(w);
    BoundAbove(cmp, data, word, w);
    ConstantWord(bound, cmp.width, words);
    PowersAround(w + 1, cmp.width);
    WrapSmall(Pow2(w), cmp.width);
    ProbeIsLost(ZEXT, ZEXT, w, cmp.width);
    assert ValueAt(data, cmp.width, words) == Pow2(w);
    SideExactly(cmp, data, word, words);
    LostIsLossy(cmp, data, word, ZEXT, w, Pow2(w), words);
  }

  lemma EqualToVariable(cmp: Comparison, data: Minimal, word: nat, w: nat)
    requires WellTyped(cmp) && cmp.width <= word && Offer(cmp, data, word).Some? && Unconstrained(cmp, data)
    requires Equality(cmp.pred) && Bound(cmp, data).constant.None? && 1 <= w < Bound(cmp, data).shape.bitWidth
    ensures Loses(cmp, data, Offer(cmp, data, word).value.side, w, Bound(cmp, data).shape.extType)
  {
    var bound := Bound(cmp, data);
    var e := bound.shape.extType;
    var z := Probe(Kind(e), Kind(e), w);
    ProbeFits(Kind(e), ExtWidth(Kind(e), bound.shape.bitWidth), w);
    ProbeIsLost(Kind(e), Kind(e), w, cmp.width);
    FitsWider(z, bound.shape.bitWidth, cmp.width);
    var words: Channels := (id: nat) => z;
    PowersAround(bound.shape.bitWidth, cmp.width);
    WrapSmall(z, cmp.width);
    WrapSmall(z, bound.shape.bitWidth);
    assert ValueAt(bound, cmp.width, words) == z == ValueAt(data, cmp.width, words);
    SideExactly(cmp, data, word, words);
    LostIsLossy(cmp, data, word, e, w, z, words);
  }

  /** An integer of the full width that does not fit is not what comes back. */
  lemma UnfitIsLost(e: ExtType, z: int, w: nat, full: nat)
    requires e != NONE && 1 <= w < full && !Fits(e, z, w) && FitsSigned(z, full)
    ensures Lost(e, z, w, full)
  {
    var m := ExtWidth(e, w);
    MeaningFits(m, Wrap(z, w));
    ModBitWidthIsWrap(m, Wrap(z, w), full);
    FitsWider(Meaning(m, Wrap(z, w)), w, full);
    SignedOfWrap(z, full);
    SignedOfWrap(Meaning(m, Wrap(z, w)), full);
  }

  lemma EqualToConstant(cmp: Comparison, data: Minimal, word: nat, w: nat)
    requires WellTyped(cmp) && cmp.width <= word && Offer(cmp, data, word).Some? && Unconstrained(cmp, data)
    requires Equality(cmp.pred) && Bound(cmp, data).constant.Some? && 1 <= w < Bound(cmp, data).shape.bitWidth
    ensures Loses(cmp, data, Offer(cmp, data, word).value.side, w, Bound(cmp, data).shape.extType)
  {
    var bound, v := Bound(cmp, data), Bound(cmp, data).constant.value;
    var words: Channels := (id: nat) => v;
    RequiredBitsIsLeast(v, cmp.width, w);
    RequiredBitsIsLeast(v, cmp.width, cmp.width);
    WrapSigned(v, cmp.width);
    ConstantWord(bound, cmp.width, words);
    WrapSmall(v, cmp.width);
    UnfitIsLost(Kind(bound.shape.extType), Signed(v, cmp.width), w, cmp.width);
    SideExactly(cmp, data, word, words);
    LostIsLossy(cmp, data, word, bound.shape.extType, w, Signed(v, cmp.width), words);
  }

  /** Below the sign bit, a bit less than offered holds the data. */
  lemma BelowSignBitFits(cmp: Comparison, data: Minimal, word: nat)
    requires WellTyped(cmp) && cmp.width <= word && Offer(cmp, data, word).Some? && Unconstrained(cmp, data) && BelowSignBit(cmp, data)
    ensures !Loses(cmp, data, Offer(cmp, data, word).value.side, cmp.width - 1, ZEXT)
  {
    var side := Offer(cmp, data, word).value.side;
    forall words: Channels | Outcome(cmp, words) == side ensures Lossless(data, cmp.width, Choice(side, cmp.width - 1, ZEXT), words) {
      SideExactly(cmp, data, word, words);
      ConstantWord(Bound(cmp, data), cmp.width, words);
      WrapSmall(ValueAt(data, cmp.width, words), cmp.width - 1);
    }
  }

  /** The offered width is the least: any smaller one loses data that may be on the optimized side, except one bit less below the sign
      bit, where the offer is one bit wider than needed. */
  lemma OfferLeast(cmp: Comparison, data: Minimal, word: nat, w: nat)
    requires WellTyped(cmp) && cmp.width <= word && Offer(cmp, data, word).Some? && Unconstrained(cmp, data)
    requires 1 <= w < Offer(cmp, data, word).value.width
    ensures Loses(cmp, data, Offer(cmp, data, word).value.side, w, Offer(cmp, data, word).value.ext)
            <==> !(BelowSignBit(cmp, data) && w == cmp.width - 1)
  {
    if Bound(cmp, data).constant.None? {
      if Equality(cmp.pred) {
        EqualToVariable(cmp, data, word, w);
      } else {
        OrderOfVariable(cmp, data, word, w);
      }
    } else if Equality(cmp.pred) {
      EqualToConstant(cmp, data, word, w);
    } else if BelowSignBit(cmp, data) && w == cmp.width - 1 {
      BelowSignBitFits(cmp, data, word);
    } else {
      OrderOfConstant(cmp, data, word, w);
    }
  }
}
