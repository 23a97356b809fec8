/** Width and extension of operations that forward one of several operands. */
module DataForward {
  import opened Basics
  import opened Words
  import opened Transfer

  function MaxWidth(shapes: seq<ExtWidth>): nat {
    if shapes == [] then 0 else Max(MaxWidth(shapes[..|shapes| - 1]), shapes[|shapes| - 1].bitWidth)
  }

  predicate SameExt(shapes: seq<ExtWidth>) {
    forall i, j | 0 <= i < j < |shapes| :: shapes[i].extType == shapes[j].extType
  }

  /** Some zero-extended operand is as wide as the widest one. */
  predicate WidestIsZext(shapes: seq<ExtWidth>) {
    exists i | 0 <= i < |shapes| :: shapes[i].extType == ZEXT && shapes[i].bitWidth == MaxWidth(shapes)
  }

  function ForwardShape(shapes: seq<ExtWidth>): ExtWidth
    requires shapes != []
  {
    if SameExt(shapes) then ExtWidth(shapes[0].extType, MaxWidth(shapes))
    else ExtWidth(SEXT, MaxWidth(shapes) + if WidestIsZext(shapes) then 1 else 0)
  }

  lemma {:induction false} MaxWidthBounds(shapes: seq<ExtWidth>, k: nat)
    requires k < |shapes|
    ensures shapes[k].bitWidth <= MaxWidth(shapes)
  {
    if k < |shapes| - 1 {
      MaxWidthBounds(shapes[..|shapes| - 1], k);
    }
  }

  /** Widest operand first, then one more bit if sign extension could hit the top bit of a zero-extended operand. */
  method ComputeDataForwardResult(shapes: seq<ExtWidth>) returns (r: ExtWidth)
    requires shapes != []
    ensures r == ForwardShape(shapes)
  {
    var optWidth := 0;
    for i := 0 to |shapes|
      invariant optWidth == MaxWidth(shapes[..i])
    {
      assert shapes[..i + 1][..i] == shapes[..i];
      optWidth := Max(optWidth, shapes[i].bitWidth);
    }
    assert shapes[..|shapes|] == shapes;
    var allEqual := true;
    for i := 1 to |shapes|
      invariant allEqual == SameExt(shapes[..i])
    {
      if shapes[i].extType != shapes[0].extType {
        assert shapes[..i + 1][0].extType != shapes[..i + 1][i].extType;
        allEqual := false;
      }
    }
    if allEqual {
      return ExtWidth(shapes[0].extType, optWidth);
    }
    var widest := optWidth;
    for i := 0 to |shapes|
      invariant optWidth == widest
      invariant forall j | 0 <= j < i :: !(shapes[j].extType == ZEXT && shapes[j].bitWidth == widest)
    {
      if shapes[i].extType == ZEXT {
        if shapes[i].bitWidth == optWidth {
          optWidth := optWidth + 1;
          break;
        }
      }
    }
    return ExtWidth(SEXT, optWidth);
  }

  predicate IsShape(m: ExtWidth, full: nat) {
    1 <= m.bitWidth <= full && (m.extType == NONE ==> m.bitWidth == full)
  }

  /** Whichever operand is forwarded, bringing it to the common width and extending the result gives it back. */
  lemma ForwardShapeSound(shapes: seq<ExtWidth>, k: nat, u: nat, full: nat)
    requires k < |shapes| && IsShape(shapes[k], full) && u < Pow2(shapes[k].bitWidth)
    requires ForwardShape(shapes).bitWidth < full
    ensures var t, x := ForwardShape(shapes), ModBitWidth(shapes[k], u, full);
      && t.bitWidth >= 1
      && ModBitWidth(shapes[k], u, t.bitWidth) == Wrap(x, t.bitWidth)
      && ModBitWidth(t, Wrap(x, t.bitWidth), full) == x
  {
    var t := ForwardShape(shapes);
    var i := Meaning(shapes[k], u);
    MaxWidthBounds(shapes, k);
    MeaningFits(shapes[k], u);
    ModBitWidthIsWrap(shapes[k], u, full);
    ModBitWidthIsWrap(shapes[k], u, t.bitWidth);
    WrapWrap(i, t.bitWidth, full);
    FitsWider(i, shapes[k].bitWidth, t.bitWidth);
    assert Fits(t.extType, i, t.bitWidth);
    NarrowThenExtend(t, i, full);
  }
}
