/** Bits of integers in (infinite) two's complement, and bitwise operations on words of symbolic width. */
module Bits {
  import opened Words

  datatype BitOp = And | Or | Xor

  predicate Bit(i: int, k: nat)
    decreases k
  {
    if k == 0 then i % 2 == 1 else Bit(i / 2, k - 1)
  }

  predicate ApplyBit(op: BitOp, a: bool, b: bool) {
    match op
    case And => a && b
    case Or => a || b
    case Xor => a != b
  }

  /** The bitwise operation on two words of width `w`. */
  function Bitwise(op: BitOp, w: nat, a: nat, b: nat): (r: nat)
    ensures r < Pow2(w)
  {
    if w == 0 then 0
    else (if ApplyBit(op, a % 2 == 1, b % 2 == 1) then 1 else 0) + 2 * Bitwise(op, w - 1, a / 2, b / 2)
  }

  lemma {:induction false} BitOfWrap(i: int, w: nat, k: nat)
    requires k < w
    ensures Bit(Wrap(i, w), k) == Bit(i, k)
    decreases k
  {
    if k > 0 {
      BitOfWrap(i / 2, w - 1, k - 1);
      assert Wrap(i, w) / 2 == Wrap(i / 2, w - 1);
    }
  }

  lemma {:induction false} BitOfBitwise(op: BitOp, w: nat, a: nat, b: nat, k: nat)
    requires k < w
    ensures Bit(Bitwise(op, w, a, b), k) == ApplyBit(op, Bit(a, k), Bit(b, k))
  {
    if k > 0 {
      BitOfBitwise(op, w - 1, a / 2, b / 2, k - 1);
      assert Bitwise(op, w, a, b) / 2 == Bitwise(op, w - 1, a / 2, b / 2);
    }
  }

  /** A word is determined by its bits. */
  lemma {:induction false} BitsDetermine(w: nat, a: nat, b: nat)
    requires a < Pow2(w) && b < Pow2(w)
    requires forall k: nat | k < w :: Bit(a, k) == Bit(b, k)
    ensures a == b
  {
    if w > 0 {
      assert Bit(a, 0) == Bit(b, 0);
      forall k: nat | k < w - 1 ensures Bit(a / 2, k) == Bit(b / 2, k) {
        assert Bit(a, k + 1) == Bit(b, k + 1);
      }
      BitsDetermine(w - 1, a / 2, b / 2);
    }
  }

  /** The bits above the width of an unsigned word are clear. */
  lemma {:induction false} BitBeyondUnsigned(i: int, w: nat, k: nat)
    requires FitsUnsigned(i, w) && k >= w
    ensures !Bit(i, k)
    decreases k
  {
    if k > 0 {
      BitBeyondUnsigned(i / 2, if w == 0 then 0 else w - 1, k - 1);
    }
  }

  /** The bits from the top bit of a signed word on are copies of its sign. */
  lemma {:induction false} BitBeyondSigned(i: int, w: nat, k: nat)
    requires FitsSigned(i, w) && k >= w - 1
    ensures Bit(i, k) == (i < 0)
    decreases k
  {
    if k > 0 {
      BitBeyondSigned(i / 2, if w == 1 then 1 else w - 1, k - 1);
    }
  }
}
