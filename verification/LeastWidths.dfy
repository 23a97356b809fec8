/** The widths that the transfer functions pick are the least at which an operation can be performed. */
module LeastWidths {
  import opened Basics
  import opened Words
  import opened Bits
  import opened Transfer
  import opened DataForward

  /** Performed at width `w` and extended back by `e`, the operation yields what it does at full width. */
  predicate RightOn(op: BinOp, l: ExtWidth, r: ExtWidth, full: nat, e: ExtType, w: nat, u: nat, v: nat)
    requires l.bitWidth >= 1 && r.bitWidth >= 1 && w >= 1
  {
    ModBitWidth(ExtWidth(e, w), OpAt(op, w, ModBitWidth(l, u, w), ModBitWidth(r, v, w)), full)
    == OpAt(op, full, ModBitWidth(l, u, full), ModBitWidth(r, v, full))
  }

  /** For all words that the operands may be extended from. */
  ghost predicate Right(op: BinOp, l: ExtWidth, r: ExtWidth, full: nat, e: ExtType, w: nat)
    requires l.bitWidth >= 1 && r.bitWidth >= 1 && w >= 1
  {
    forall u: nat, v: nat | u < Pow2(l.bitWidth) && v < Pow2(r.bitWidth) :: RightOn(op, l, r, full, e, w, u, v)
  }

  predicate IsMixed(z: ExtWidth, s: ExtWidth) {
    z.extType == ZEXT && s.extType == SEXT
  }

  /** One bit more than needed is picked for sums and differences of a zero-extended operand and a sign-extended bit, and for
      products with one bit. */
  function Slack(op: BinOp, l: ExtWidth, r: ExtWidth): nat {
    match op
    case Bits(_) => 0
    case Mul =>
      if l == ExtWidth(ZEXT, 1) || r == ExtWidth(ZEXT, 1) || (l == ExtWidth(SEXT, 1) && r == ExtWidth(SEXT, 1)) then 1 else 0
    case _ =>
      if (IsMixed(l, r) && r.bitWidth == 1) || (IsMixed(r, l) && l.bitWidth == 1) then 1 else 0
  }

  // ----- results that do not come back -----

  /** The operation has this integer result at every width. */
  ghost predicate Yields(op: BinOp, x: int, y: int, z: int) {
    forall k: nat | k >= 1 :: OpAt(op, k, Wrap(x, k), Wrap(y, k)) == Wrap(z, k)
  }

  lemma ExactYields(op: BinOp, x: int, y: int)
    requires !op.Bits?
    ensures Yields(op, x, y, Exact(op, x, y))
  {
    forall k: nat | k >= 1 ensures OpAt(op, k, Wrap(x, k), Wrap(y, k)) == Wrap(Exact(op, x, y), k) {
      OpAtIsWrapOfExact(op, k, x, y);
    }
  }

  /** Cut to `w` bits and extended by `e`, the integer's word is not what comes back. */
  predicate Lost(e: ExtType, z: int, w: nat, full: nat)
    requires w >= 1
  {
    ModBitWidth(ExtWidth(e, w), Wrap(z, w), full) != Wrap(z, full)
  }

  /** Words of operands whose result does not come back. */
  lemma LostIsWrong(op: BinOp, l: ExtWidth, r: ExtWidth, full: nat, e: ExtType, w: nat, x: int, y: int, z: int)
    requires 1 <= w < full && l.bitWidth >= 1 && r.bitWidth >= 1
    requires Fits(l.extType, x, l.bitWidth) && Fits(r.extType, y, r.bitWidth) && Yields(op, x, y, z) && Lost(e, z, w, full)
    ensures !Right(op, l, r, full, e, w)
  {
    var u, v := Wrap(x, l.bitWidth), Wrap(y, r.bitWidth);
    NarrowThenExtend(l, x, w);
    NarrowThenExtend(l, x, full);
    NarrowThenExtend(r, y, w);
    NarrowThenExtend(r, y, full);
    assert !RightOn(op, l, r, full, e, w, u, v);
  }

  lemma PowersAround(a: nat, b: nat)
    requires a >= 1 && b >= 1
    ensures Pow2(a) == 2 * Pow2(a - 1) && Pow2(b) == 2 * Pow2(b - 1) && Pow2(a) >= 2 && Pow2(b) >= 2
    ensures a >= 2 ==> Pow2(a - 1) >= 2
    ensures b >= 2 ==> Pow2(b - 1) >= 2
    ensures a <= b ==> Pow2(a) <= Pow2(b) && Pow2(a - 1) <= Pow2(b - 1)
    ensures b <= a ==> Pow2(b) <= Pow2(a) && Pow2(b - 1) <= Pow2(a - 1)
    ensures Pow2(a + 1) == 2 * Pow2(a) && Pow2(b + 1) == 2 * Pow2(b)
  {
    if a <= b {
      Pow2Monotone(a, b);
      Pow2Monotone(a - 1, b - 1);
    }
    if b <= a {
      Pow2Monotone(b, a);
      Pow2Monotone(b - 1, a - 1);
    }
  }

  /** The least integer of a signed word, the greatest of an unsigned one. */
  function Low(w: nat): int
    requires w >= 1
  {
    -(Pow2(w - 1) as int)
  }

  function High(w: nat): int {
    Pow2(w) - 1
  }

  /** The words of some integers around `w` bits. */
  lemma WordsAround(w: nat, full: nat)
    requires 1 <= w <= full
    ensures Wrap(0, w) == 0 && Wrap(1, w) == 1 && Wrap(-1, w) == Pow2(w) - 1 && Wrap(High(w), w) == High(w)
    ensures Wrap(Pow2(w), w) == 0 && Wrap(-(Pow2(w) as int), w) == 0 && Wrap(Pow2(w - 1), w) == Pow2(w - 1)
    ensures Pow2(w) == 2 * Pow2(w - 1) && (w < full ==> 2 * Pow2(w) <= Pow2(full))
    ensures w < full ==> Wrap(Pow2(w), full) == Pow2(w) && Wrap(-(Pow2(w) as int), full) == Pow2(full) - Pow2(w)
    ensures w < full ==> Wrap(Pow2(w - 1), full) == Pow2(w - 1) && Wrap(High(w), full) == High(w)
  {
    Pow2Monotone(w, full);
    assert Pow2(w) == 2 * Pow2(w - 1);
    WrapSmall(0, w);
    WrapSmall(1, w);
    WrapSmall(High(w), w);
    WrapSmall(Pow2(w - 1), w);
    WrapUnique(-1, w, -1, Pow2(w) - 1);
    WrapUnique(Pow2(w), w, 1, 0);
    WrapUnique(-(Pow2(w) as int), w, -1, 0);
    if w < full {
      WrapSmall(Pow2(w), full);
      WrapSmall(Pow2(w - 1), full);
      WrapSmall(High(w), full);
      WrapUnique(-(Pow2(w) as int), full, -1, Pow2(full) - Pow2(w));
    }
  }

  /** An integer that an extension from `w` bits does not give back, as an operand of this kind may stand for. */
  function Probe(e: ExtType, kind: ExtType, w: nat): int
    requires w >= 1
  {
    if e != ZEXT then Pow2(w - 1) else if kind == ZEXT then Pow2(w) else -1
  }

  lemma ProbeIsLost(e: ExtType, kind: ExtType, w: nat, full: nat)
    requires 1 <= w < full && e != NONE
    ensures Lost(e, Probe(e, kind, w), w, full)
  {
    WordsAround(w, full);
    WordsAround(full, full);
  }

  lemma ProbeFits(e: ExtType, m: ExtWidth, w: nat)
    requires 1 <= w < m.bitWidth
    ensures Fits(m.extType, Probe(e, m.extType, w), m.bitWidth)
    ensures m.extType != ZEXT ==> FitsSigned(-Probe(e, m.extType, w), m.bitWidth)
  {
    PowersAround(w, m.bitWidth);
    PowersAround(w, m.bitWidth - 1);
  }

  lemma BitsYield(op: BitOp, x: int, y: int, z: int)
    requires forall k: nat :: Bit(z, k) == ApplyBit(op, Bit(x, k), Bit(y, k))
    ensures Yields(BinOp.Bits(op), x, y, z)
  {
    forall w: nat | w >= 1 ensures Bitwise(op, w, Wrap(x, w), Wrap(y, w)) == Wrap(z, w) {
      forall k: nat | k < w ensures Bit(Bitwise(op, w, Wrap(x, w), Wrap(y, w)), k) == Bit(Wrap(z, w), k) {
        BitOfExact(op, w, x, y, k);
        BitOfWrap(z, w, k);
      }
      BitsDetermine(w, Bitwise(op, w, Wrap(x, w), Wrap(y, w)), Wrap(z, w));
    }
  }

  /** Operands between which a bitwise operation chooses. */
  lemma BitsKeep(op: BitOp, x: int, y: int)
    ensures op == And && (y == x || y == -1) ==> Yields(BinOp.Bits(op), x, y, x)
    ensures op == And && x == -1 ==> Yields(BinOp.Bits(op), x, y, y)
    ensures op != And && y == 0 ==> Yields(BinOp.Bits(op), x, y, x)
    ensures op != And && x == 0 ==> Yields(BinOp.Bits(op), x, y, y)
  {
    forall k: nat ensures Bit(-1, k) && !Bit(0, k) {
      BitBeyondSigned(-1, 1, k);
      BitBeyondSigned(0, 1, k);
    }
    if op == And && (y == x || y == -1) {
      BitsYield(op, x, y, x);
    }
    if op == And && x == -1 {
      BitsYield(op, x, y, y);
    }
    if op != And && y == 0 {
      BitsYield(op, x, y, x);
    }
    if op != And && x == 0 {
      BitsYield(op, x, y, y);
    }
  }

  /** Operands of a conjunction whose result does not come back. */
  lemma AndProbe(l: ExtWidth, r: ExtWidth, full: nat, e: ExtType, w: nat) returns (x: int, y: int, z: int)
    requires IsShape(l, full) && IsShape(r, full) && e != NONE && 1 <= w < full && w < AndWidth(l, r).bitWidth
    ensures Fits(l.extType, x, l.bitWidth) && Fits(r.extType, y, r.bitWidth) && Yields(BinOp.Bits(And), x, y, z) && Lost(e, z, w, full)
  {
    PowersAround(l.bitWidth, r.bitWidth);
    if l.extType == ZEXT || (r.extType != ZEXT && l.bitWidth >= r.bitWidth) {
      x := Probe(e, l.extType, w);
      y := if r.extType == ZEXT then x else -1;
      z := x;
      ProbeFits(e, l, w);
    } else {
      y := Probe(e, r.extType, w);
      x, z := -1, y;
    }
    if r.extType == ZEXT || l.extType != ZEXT {
      ProbeFits(e, if r.extType == ZEXT || l.bitWidth < r.bitWidth then r else l, w);
    }
    BitsKeep(And, x, y);
    ProbeIsLost(e, l.extType, w, full);
    ProbeIsLost(e, r.extType, w, full);
  }

  /** Operands of another bitwise operation. */
  lemma OrProbe(op: BitOp, l: ExtWidth, r: ExtWidth, full: nat, e: ExtType, w: nat) returns (x: int, y: int, z: int)
    requires IsShape(l, full) && IsShape(r, full) && e != NONE && 1 <= w < full && w < OrWidth(l, r).bitWidth && op != And
    ensures Fits(l.extType, x, l.bitWidth) && Fits(r.extType, y, r.bitWidth) && Yields(BinOp.Bits(op), x, y, z) && Lost(e, z, w, full)
  {
    ProbeIsLost(e, ZEXT, w, full);
    ProbeIsLost(e, SEXT, w, full);
    PowersAround(l.bitWidth, r.bitWidth);
    if e == ZEXT && (l.extType == ZEXT) != (r.extType == ZEXT) {
      x, y := if l.extType == ZEXT then 0 else -1, if l.extType == ZEXT then -1 else 0;
      z := -1;
    } else if l.bitWidth > r.bitWidth || (l.bitWidth == r.bitWidth && l.extType == ZEXT) {
      x, y := Probe(e, l.extType, w), 0;
      z := x;
      HalfFits(e, l, w);
    } else {
      x, y := 0, Probe(e, r.extType, w);
      z := y;
      HalfFits(e, r, w);
    }
    BitsKeep(op, x, y);
  }

  lemma HalfFits(e: ExtType, m: ExtWidth, w: nat)
    requires 1 <= w <= m.bitWidth && (w < m.bitWidth || (e != ZEXT && m.extType == ZEXT))
    ensures Fits(m.extType, Probe(e, m.extType, w), m.bitWidth)
  {
    if w < m.bitWidth {
      ProbeFits(e, m, w);
    }
  }

  // ----- sums, differences and products -----

  lemma AddIntegers(l: ExtWidth, r: ExtWidth, e: ExtType) returns (x: int, y: int)
    requires l.bitWidth >= 1 && r.bitWidth >= 1 && l.extType != NONE && r.extType == l.extType && e != NONE
    ensures Fits(l.extType, x, l.bitWidth) && Fits(r.extType, y, r.bitWidth) && !Fits(e, x + y, Max(l.bitWidth, r.bitWidth))
  {
    var a, b := l.bitWidth, r.bitWidth;
    PowersAround(a, b);
    if l.extType == SEXT {
      x, y := Low(a), Low(b);
    } else if a >= b {
      x, y := High(a), 1;
    } else {
      x, y := 1, High(b);
    }
  }

  /** A zero-extended word of `a` bits and a sign-extended one of `b` bits. */
  lemma AddMixed(a: nat, b: nat, e: ExtType) returns (x: int, y: int)
    requires a >= 1 && b >= 1 && e != NONE
    ensures FitsUnsigned(x, a) && FitsSigned(y, b) && !Fits(e, x + y, if a < b then b else if b == 1 then a else a + 1)
  {
    PowersAround(a, b);
    if e == ZEXT {
      x, y := 0, -1;
    } else if a < b {
      x, y := 1, High(b - 1);
    } else {
      x, y := High(a), High(b - 1);
    }
  }

  lemma AddWitness(l: ExtWidth, r: ExtWidth, e: ExtType) returns (x: int, y: int)
    requires l.bitWidth >= 1 && r.bitWidth >= 1 && l.extType != NONE && r.extType != NONE && e != NONE
    ensures Fits(l.extType, x, l.bitWidth) && Fits(r.extType, y, r.bitWidth)
    ensures !Fits(e, x + y, AddWidth(l, r).bitWidth - 1 - Slack(Add, l, r))
  {
    if l.extType == r.extType {
      x, y := AddIntegers(l, r, e);
    } else if l.extType == ZEXT {
      x, y := AddMixed(l.bitWidth, r.bitWidth, e);
    } else {
      y, x := AddMixed(r.bitWidth, l.bitWidth, e);
    }
  }

  lemma SubUnsigned(a: nat, b: nat, e: ExtType) returns (x: int, y: int)
    requires a >= 1 && b >= 1 && e != NONE
    ensures FitsUnsigned(x, a) && FitsUnsigned(y, b) && !Fits(e, x - y, Max(a, b))
  {
    PowersAround(a, b);
    if e == ZEXT {
      x, y := 0, 1;
    } else if a >= b {
      x, y := High(a), 0;
    } else {
      x, y := 0, High(b);
    }
  }

  lemma SubSigned(a: nat, b: nat, e: ExtType) returns (x: int, y: int)
    requires a >= 1 && b >= 1 && e != NONE
    ensures FitsSigned(x, a) && FitsSigned(y, b) && !Fits(e, x - y, Max(a, b))
  {
    PowersAround(a, b);
    if e == ZEXT {
      x, y := -1, 0;
    } else {
      x, y := High(a - 1), Low(b);
    }
  }

  /** An unsigned word minus a signed one. */
  lemma SubMixed(a: nat, b: nat, e: ExtType) returns (x: int, y: int)
    requires a >= 1 && b >= 1 && e != NONE
    ensures FitsUnsigned(x, a) && FitsSigned(y, b) && !Fits(e, x - y, if a < b then b else if b == 1 then a else a + 1)
  {
    PowersAround(a, b);
    if b == 1 {
      x, y := High(a), -1;
    } else if e == ZEXT {
      x, y := 0, 1;
    } else {
      x, y := High(a), Low(b);
    }
  }

  /** A signed word minus an unsigned one. */
  lemma SubMixedBack(a: nat, b: nat, e: ExtType) returns (x: int, y: int)
    requires a >= 1 && b >= 1 && e != NONE
    ensures FitsSigned(x, a) && FitsUnsigned(y, b) && !Fits(e, x - y, if b < a then a else if a == 1 then b else b + 1)
  {
    PowersAround(a, b);
    x, y := Low(a), High(b);
  }

  lemma SubWitness(l: ExtWidth, r: ExtWidth, e: ExtType) returns (x: int, y: int)
    requires l.bitWidth >= 1 && r.bitWidth >= 1 && l.extType != NONE && r.extType != NONE && e != NONE
    ensures Fits(l.extType, x, l.bitWidth) && Fits(r.extType, y, r.bitWidth)
    ensures !Fits(e, x - y, SubWidth(l, r).bitWidth - 1 - Slack(Sub, l, r))
  {
    if l.extType == ZEXT && r.extType == ZEXT {
      x, y := SubUnsigned(l.bitWidth, r.bitWidth, e);
    } else if l.extType == SEXT && r.extType == SEXT {
      x, y := SubSigned(l.bitWidth, r.bitWidth, e);
    } else if l.extType == ZEXT {
      x, y := SubMixed(l.bitWidth, r.bitWidth, e);
    } else {
      x, y := SubMixedBack(l.bitWidth, r.bitWidth, e);
    }
  }

  lemma ProductOfPowers(a: nat, b: nat)
    requires a >= 1 && b >= 1
    ensures Pow2(a) * Pow2(b) == Pow2(a + b) == 2 * Pow2(a + b - 1) && Pow2(a - 1) * Pow2(b) == Pow2(a + b - 1)
    ensures Pow2(a) * Pow2(b - 1) == Pow2(a + b - 1) && Pow2(a - 1) * Pow2(b - 1) == Pow2(a + b - 2)
    ensures Pow2(a + b - 1) == 2 * Pow2(a + b - 2)
  {
    Pow2Adds(a, b);
    Pow2Adds(a - 1, b);
    Pow2Adds(a, b - 1);
    Pow2Adds(a - 1, b - 1);
  }

  lemma Distribute(p: int, q: int)
    ensures (p - 1) * (q - 1) == p * q - p - q + 1 && (p - 1) * -q == q - p * q && -p * -q == p * q
  {
  }

  lemma MulUnsigned(a: nat, b: nat, e: ExtType) returns (x: int, y: int)
    requires a >= 1 && b >= 1 && e != NONE
    ensures FitsUnsigned(x, a) && FitsUnsigned(y, b) && !Fits(e, x * y, if a == 1 || b == 1 then a + b - 2 else a + b - 1)
  {
    x, y := High(a), High(b);
    if a == 1 || b == 1 {
      assert x * y == High(a + b - 1);
      if a + b >= 3 {
        PowersAround(a + b - 2, a + b - 1);
      }
    } else {
      HighProduct(a, b);
      PowersAround(a + b - 1, a + b - 1);
    }
  }

  lemma HighProduct(a: nat, b: nat)
    requires a >= 2 && b >= 2
    ensures High(a) * High(b) >= Pow2(a + b - 1)
  {
    ProductOfPowers(a, b);
    Distribute(Pow2(a), Pow2(b));
    Pow2Monotone(a, a + b - 2);
    Pow2Monotone(b, a + b - 2);
  }

  lemma MulSigned(a: nat, b: nat, e: ExtType) returns (x: int, y: int)
    requires a >= 1 && b >= 1 && a + b >= 3 && e != NONE
    ensures FitsSigned(x, a) && FitsSigned(y, b) && !Fits(e, x * y, a + b - 1)
  {
    PowersAround(a, b);
    ProductOfPowers(a, b);
    Distribute(Pow2(a - 1), Pow2(b - 1));
    if e == SEXT {
      x, y := Low(a), Low(b);
    } else if b >= 2 {
      x, y := -1, 1;
    } else {
      x, y := 1, -1;
    }
  }

  lemma MulMixed(a: nat, b: nat, e: ExtType) returns (x: int, y: int)
    requires a >= 1 && b >= 1 && e != NONE
    ensures FitsUnsigned(x, a) && FitsSigned(y, b) && !Fits(e, x * y, if a == 1 then b - 1 else a + b - 1)
  {
    PowersAround(a, b);
    ProductOfPowers(a, b);
    Distribute(Pow2(a), Pow2(b - 1));
    x, y := High(a), Low(b);
    if a >= 2 {
      Pow2Monotone(b, a + b - 2);
    }
  }

  lemma MulWitness(l: ExtWidth, r: ExtWidth, e: ExtType) returns (x: int, y: int)
    requires l.bitWidth >= 1 && r.bitWidth >= 1 && l.extType != NONE && r.extType != NONE && e != NONE
    requires MulWidth(l, r).bitWidth - 1 - Slack(Mul, l, r) >= 1
    ensures Fits(l.extType, x, l.bitWidth) && Fits(r.extType, y, r.bitWidth)
    ensures !Fits(e, x * y, MulWidth(l, r).bitWidth - 1 - Slack(Mul, l, r))
  {
    if l.extType == ZEXT && r.extType == ZEXT {
      x, y := MulUnsigned(l.bitWidth, r.bitWidth, e);
    } else if l.extType == SEXT && r.extType == SEXT {
      x, y := MulSigned(l.bitWidth, r.bitWidth, e);
    } else if l.extType == ZEXT {
      x, y := MulMixed(l.bitWidth, r.bitWidth, e);
    } else {
      y, x := MulMixed(r.bitWidth, l.bitWidth, e);
    }
  }

  // ----- results just too large -----

  /** One step towards zero. */
  function Less(x: int): int {
    if x > 0 then x - 1 else if x < 0 then x + 1 else 0
  }

  predicate Between(x: int, y: int) {
    0 <= x <= y || y <= x <= 0
  }

  /** A result that does not fit, next to one that does. */
  predicate JustOutside(e: ExtType, z: int, near: int, w: nat) {
    Fits(e, near, w) && !Fits(e, z, w) && -(Pow2(w) as int) <= z - near <= Pow2(w)
  }

  /** A step of one operand changes a sum by one, and a product by the other operand. */
  lemma StepChanges(op: BinOp, x: int, y: int)
    requires !op.Bits?
    ensures op != Mul ==> -1 <= Exact(op, x, y) - Exact(op, Less(x), y) <= 1 && -1 <= Exact(op, x, y) - Exact(op, x, Less(y)) <= 1
    ensures op == Mul && x > 0 ==> x * y - Less(x) * y == y
    ensures op == Mul && x < 0 ==> x * y - Less(x) * y == -y
    ensures op == Mul && y > 0 ==> x * y - x * Less(y) == x
    ensures op == Mul && y < 0 ==> x * y - x * Less(y) == -x
  {
  }

  /** Both steps of a product lead to one that fits: the product is just outside. */
  lemma ProductJustOutside(e: ExtType, x: int, y: int, w: nat) returns (near: int)
    requires e != NONE && w >= 1 && !Fits(e, x * y, w) && Fits(e, Less(x) * y, w) && Fits(e, x * Less(y), w)
    ensures JustOutside(e, x * y, near, w)
  {
    StepChanges(Mul, x, y);
    PowersAround(w, w);
    var p := Pow2(w);
    assert x != 0 && y != 0;
    if -p <= y <= p {
      near := Less(x) * y;
    } else {
      near := x * Less(y);
      assert -p < near < p;
      if x > p || x < -p {
        TooLarge(x, Less(y), p);
      }
    }
  }

  lemma TooLarge(x: int, y: int, p: int)
    requires p >= 1 && y != 0 && (x > p || x < -p)
    ensures !(-p < x * y < p)
  {
    if y >= 1 {
      Scale(1, y, if x > p then x else -x);
    } else {
      Scale(1, -y, if x > p then x else -x);
    }
  }

  /** Operands nearer to zero whose result is just outside. */
  lemma {:induction false} Descend(op: BinOp, e: ExtType, x: int, y: int, w: nat) returns (u: int, v: int, near: int)
    requires !op.Bits? && e != NONE && w >= 1 && !Fits(e, Exact(op, x, y), w)
    ensures Between(u, x) && Between(v, y) && JustOutside(e, Exact(op, u, v), near, w)
    decreases (if x < 0 then -x else x) + if y < 0 then -y else y
  {
    assert Fits(e, 0, w);
    if x != 0 && !Fits(e, Exact(op, Less(x), y), w) {
      u, v, near := Descend(op, e, Less(x), y, w);
    } else if y != 0 && !Fits(e, Exact(op, x, Less(y)), w) {
      u, v, near := Descend(op, e, x, Less(y), w);
    } else {
      u, v := x, y;
      if op == Mul {
        near := ProductJustOutside(e, x, y, w);
      } else {
        StepChanges(op, x, y);
        near := if x != 0 then Exact(op, Less(x), y) else Exact(op, x, Less(y));
      }
    }
  }

  lemma MultipleOf(k: int, p: int)
    requires p >= 1 && -2 * p < k * p < 2 * p
    ensures -1 <= k <= 1
  {
    assert k >= 2 ==> (k - 2) * p >= 0;
    assert k <= -2 ==> (k + 2) * p <= 0;
  }

  lemma SameWord(x: int, y: int, w: nat) returns (k: int)
    requires Wrap(x, w) == Wrap(y, w)
    ensures x - y == k * Pow2(w)
  {
    SplitAt(x, w);
    SplitAt(y, w);
    var a, b, p := ShiftRight(x, w), ShiftRight(y, w), Pow2(w);
    k := a - b;
    assert a * p - b * p == k * p;
  }

  lemma SmallMultiple(d: int, k: int, p: int)
    requires p >= 1 && d == k * p && d != 0 && -2 * p < d < 2 * p
    ensures d == p || d == -p
  {
    MultipleOf(k, p);
  }

  /** Two integers with the same low bits and less than twice their range apart differ in any wider word. */
  lemma WiderWordsDiffer(x: int, y: int, w: nat, full: nat)
    requires w < full && x != y && Wrap(x, w) == Wrap(y, w) && -2 * Pow2(w) < x - y < 2 * Pow2(w)
    ensures Wrap(x, full) != Wrap(y, full)
  {
    var k := SameWord(x, y, w);
    SmallMultiple(x - y, k, Pow2(w));
    Pow2Monotone(w, full);
    if Wrap(x, full) == Wrap(y, full) {
      var j := SameWord(x, y, full);
      SmallMultiple(x - y, j, Pow2(full));
    }
  }

  lemma JustOutsideIsLost(e: ExtType, z: int, near: int, w: nat, full: nat)
    requires e != NONE && 1 <= w < full && JustOutside(e, z, near, w)
    ensures Lost(e, z, w, full)
  {
    var m := ExtWidth(e, w);
    var back := Meaning(m, Wrap(z, w));
    MeaningFits(m, Wrap(z, w));
    ModBitWidthIsWrap(m, Wrap(z, w), full);
    PowersAround(w, w);
    WiderWordsDiffer(z, back, w, full);
  }

  lemma NearerFits(m: ExtWidth, x: int, u: int)
    requires m.bitWidth >= 1 && Fits(m.extType, x, m.bitWidth) && Between(u, x)
    ensures Fits(m.extType, u, m.bitWidth)
  {
  }

  /** Operands of an arithmetic operation whose result does not come back. */
  lemma ExactProbe(op: BinOp, l: ExtWidth, r: ExtWidth, full: nat, e: ExtType, w: nat) returns (x: int, y: int)
    requires l.bitWidth >= 1 && r.bitWidth >= 1 && l.extType != NONE && r.extType != NONE && e != NONE && !op.Bits?
    requires 1 <= w < full && w + Slack(op, l, r) < TransferOf(op, l, r).bitWidth
    ensures Fits(l.extType, x, l.bitWidth) && Fits(r.extType, y, r.bitWidth) && Lost(e, Exact(op, x, y), w, full)
  {
    var far, away;
    match op {
      case Add => far, away := AddWitness(l, r, e);
      case Sub => far, away := SubWitness(l, r, e);
      case Mul => far, away := MulWitness(l, r, e);
    }
    FitsWider(Exact(op, far, away), w, TransferOf(op, l, r).bitWidth - 1 - Slack(op, l, r));
    var near;
    x, y, near := Descend(op, e, far, away, w);
    NearerFits(l, far, x);
    NearerFits(r, away, y);
    JustOutsideIsLost(e, Exact(op, x, y), near, w, full);
  }

  /** The same if an operand has no extension. */
  lemma PlainProbe(op: BinOp, l: ExtWidth, r: ExtWidth, full: nat, e: ExtType, w: nat) returns (x: int, y: int)
    requires IsShape(l, full) && IsShape(r, full) && (l.extType == NONE || r.extType == NONE) && e != NONE && !op.Bits? && 1 <= w < full
    ensures Fits(l.extType, x, l.bitWidth) && Fits(r.extType, y, r.bitWidth) && Lost(e, Exact(op, x, y), w, full)
  {
    var m, o := if l.extType == NONE then l else r, if l.extType == NONE then r else l;
    var z := Probe(e, NONE, w);
    ProbeIsLost(e, NONE, w, full);
    ProbeFits(e, m, w);
    PowersAround(o.bitWidth, o.bitWidth);
    var own, other := z, 0;
    if op == Mul {
      other := if o == ExtWidth(SEXT, 1) then -1 else 1;
      own := if o == ExtWidth(SEXT, 1) then -z else z;
    } else if op == Sub && l.extType != NONE {
      own := -z;
    }
    x, y := if l.extType == NONE then own else other, if l.extType == NONE then other else own;
    assert Exact(op, x, y) == z;
  }

  // ----- the least width -----

  /** At no smaller width than the one picked, up to the named slack, does an extension give the result back for all operands. */
  lemma LeastWidth(op: BinOp, l: ExtWidth, r: ExtWidth, full: nat, e: ExtType, w: nat)
    requires IsShape(l, full) && IsShape(r, full) && e != NONE
    requires 1 <= w < full && w + Slack(op, l, r) < TransferOf(op, l, r).bitWidth
    ensures !Right(op, l, r, full, e, w)
  {
    var x, y, z;
    match op {
      case Bits(And) =>
        x, y, z := AndProbe(l, r, full, e, w);
      case Bits(bop) =>
        x, y, z := OrProbe(bop, l, r, full, e, w);
      case _ =>
        if l.extType == NONE || r.extType == NONE {
          x, y := PlainProbe(op, l, r, full, e, w);
        } else {
          x, y := ExactProbe(op, l, r, full, e, w);
        }
        ExactYields(op, x, y);
        z := Exact(op, x, y);
    }
    LostIsWrong(op, l, r, full, e, w, x, y, z);
  }

  // ----- the slack -----

  /** The extension with which one bit less suffices. */
  function SlackExt(op: BinOp, l: ExtWidth, r: ExtWidth): ExtType {
    match op
    case Sub => if l.extType == ZEXT then ZEXT else SEXT
    case Mul => if l == ExtWidth(ZEXT, 1) then r.extType else if r == ExtWidth(ZEXT, 1) then l.extType else ZEXT
    case _ => SEXT
  }

  lemma SumSlack(op: BinOp, l: ExtWidth, r: ExtWidth, x: int, y: int)
    requires l.bitWidth >= 1 && r.bitWidth >= 1 && (op == Add || op == Sub) && Slack(op, l, r) == 1
    requires Fits(l.extType, x, l.bitWidth) && Fits(r.extType, y, r.bitWidth)
    ensures Fits(SlackExt(op, l, r), Exact(op, x, y), TransferOf(op, l, r).bitWidth - 1)
  {
    PowersAround(l.bitWidth, r.bitWidth);
    assert Pow2(0) == 1;
  }

  lemma ProductSlack(l: ExtWidth, r: ExtWidth, x: int, y: int)
    requires l.bitWidth >= 1 && r.bitWidth >= 1 && Slack(Mul, l, r) == 1
    requires Fits(l.extType, x, l.bitWidth) && Fits(r.extType, y, r.bitWidth)
    ensures Fits(SlackExt(Mul, l, r), x * y, l.bitWidth + r.bitWidth - 1)
  {
    PowersAround(l.bitWidth, r.bitWidth);
    assert Pow2(1) == 2 && Pow2(0) == 1;
    if l == ExtWidth(ZEXT, 1) {
      assert x == 0 || x == 1;
      assert x * y == if x == 0 then 0 else y;
    } else if r == ExtWidth(ZEXT, 1) {
      assert y == 0 || y == 1;
      assert x * y == if y == 0 then 0 else x;
    } else {
      assert (x == 0 || x == -1) && (y == 0 || y == -1);
    }
  }

  lemma ExactIsRight(op: BinOp, l: ExtWidth, r: ExtWidth, full: nat, e: ExtType, w: nat, u: nat, v: nat)
    requires l.bitWidth >= 1 && r.bitWidth >= 1 && w >= 1 && !op.Bits? && u < Pow2(l.bitWidth) && v < Pow2(r.bitWidth)
    requires Fits(e, Exact(op, Meaning(l, u), Meaning(r, v)), w)
    ensures RightOn(op, l, r, full, e, w, u, v)
  {
    var x, y := Meaning(l, u), Meaning(r, v);
    ModBitWidthIsWrap(l, u, w);
    ModBitWidthIsWrap(r, v, w);
    ModBitWidthIsWrap(l, u, full);
    ModBitWidthIsWrap(r, v, full);
    OpAtIsWrapOfExact(op, w, x, y);
    OpAtIsWrapOfExact(op, full, x, y);
    NarrowThenExtend(ExtWidth(e, w), Exact(op, x, y), full);
  }

  lemma SlackIsRightOn(op: BinOp, l: ExtWidth, r: ExtWidth, full: nat, w: nat, u: nat, v: nat)
    requires l.bitWidth >= 1 && r.bitWidth >= 1 && w >= 1 && w == TransferOf(op, l, r).bitWidth - 1 && Slack(op, l, r) == 1
    requires u < Pow2(l.bitWidth) && v < Pow2(r.bitWidth)
    ensures RightOn(op, l, r, full, SlackExt(op, l, r), w, u, v)
  {
    var x, y := Meaning(l, u), Meaning(r, v);
    MeaningFits(l, u);
    MeaningFits(r, v);
    if op == Mul {
      ProductSlack(l, r, x, y);
    } else {
      SumSlack(op, l, r, x, y);
    }
    ExactIsRight(op, l, r, full, SlackExt(op, l, r), w, u, v);
  }

  /** Where there is slack, one bit less suffices for all operands. */
  lemma SlackIsRight(op: BinOp, l: ExtWidth, r: ExtWidth, full: nat)
    requires l.bitWidth >= 1 && r.bitWidth >= 1 && l.extType != NONE && r.extType != NONE && Slack(op, l, r) == 1
    ensures TransferOf(op, l, r).bitWidth >= 2
    ensures SlackExt(op, l, r) != NONE && Right(op, l, r, full, SlackExt(op, l, r), TransferOf(op, l, r).bitWidth - 1)
  {
    var w := TransferOf(op, l, r).bitWidth - 1;
    forall u: nat, v: nat | u < Pow2(l.bitWidth) && v < Pow2(r.bitWidth) ensures RightOn(op, l, r, full, SlackExt(op, l, r), w, u, v) {
      SlackIsRightOn(op, l, r, full, w, u, v);
    }
  }

  // ----- forwarding -----

  /** Cut to `w` bits and extended back by `e`, a word of the operand arrives unchanged. */
  predicate Survives(m: ExtWidth, e: ExtType, w: nat, u: nat, full: nat)
    requires m.bitWidth >= 1 && w >= 1
  {
    ModBitWidth(ExtWidth(e, w), ModBitWidth(m, u, w), full) == ModBitWidth(m, u, full)
  }

  predicate AllShapes(shapes: seq<ExtWidth>, full: nat) {
    forall k {:trigger shapes[k]} | 0 <= k < |shapes| :: IsShape(shapes[k], full)
  }

  /** Some word of some operand does not. */
  ghost predicate SomeLost(shapes: seq<ExtWidth>, e: ExtType, w: nat, full: nat)
    requires w >= 1 && AllShapes(shapes, full)
  {
    exists k: nat, u: nat :: k < |shapes| && u < Pow2(shapes[k].bitWidth) && !Survives(shapes[k], e, w, u, full)
  }

  lemma LostShape(shapes: seq<ExtWidth>, k: nat, z: int, e: ExtType, w: nat, full: nat)
    requires k < |shapes| && 1 <= w < full && AllShapes(shapes, full)
    requires Fits(shapes[k].extType, z, shapes[k].bitWidth) && Lost(e, z, w, full)
    ensures SomeLost(shapes, e, w, full)
  {
    NarrowThenExtend(shapes[k], z, w);
    NarrowThenExtend(shapes[k], z, full);
    assert !Survives(shapes[k], e, w, Wrap(z, shapes[k].bitWidth), full);
  }

  lemma {:induction false} WidestExists(shapes: seq<ExtWidth>) returns (k: nat)
    requires shapes != []
    ensures k < |shapes| && shapes[k].bitWidth == MaxWidth(shapes)
  {
    var last := |shapes| - 1;
    k := last;
    if last > 0 {
      var other := WidestExists(shapes[..last]);
      if shapes[other].bitWidth > shapes[last].bitWidth {
        k := other;
      }
    } else {
      assert shapes[..last] == [];
    }
  }

  /** Below the common width no extension gives back every word of every operand. */
  lemma LeastForward(shapes: seq<ExtWidth>, e: ExtType, w: nat, full: nat)
    requires shapes != [] && AllShapes(shapes, full) && e != NONE
    requires 1 <= w < full && w < ForwardShape(shapes).bitWidth
    ensures SomeLost(shapes, e, w, full)
  {
    var k := WidestExists(shapes);
    if !SameExt(shapes) && e == ZEXT {
      k :| 0 <= k < |shapes| && shapes[k].extType != ZEXT;
      FitsWider(-1, 1, shapes[k].bitWidth);
    } else if !SameExt(shapes) && WidestIsZext(shapes) {
      k :| 0 <= k < |shapes| && shapes[k].extType == ZEXT && shapes[k].bitWidth == MaxWidth(shapes);
      HalfFits(e, shapes[k], w);
    } else {
      ProbeFits(e, shapes[k], w);
    }
    ProbeIsLost(e, shapes[k].extType, w, full);
    LostShape(shapes, k, Probe(e, shapes[k].extType, w), e, w, full);
  }
}
