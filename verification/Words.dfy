/** Machine words of symbolic width.

A `w`-bit word is a natural number below `Pow2(w)`. Integers are mapped to words by `Wrap`
(two's complement), and words are read back as integers by `Signed` or directly. All widths
are variables: nothing here fixes a width.
 */
module Words {

  function Pow2(n: nat): (p: nat)
    ensures p >= 1
  {
    if n == 0 then 1 else 2 * Pow2(n - 1)
  }

  /** The word made of the `w` low bits of `i`: what truncation and wrap-around arithmetic produce. */
  function Wrap(i: int, w: nat): (r: nat)
    ensures r < Pow2(w)
    decreases w
  {
    if w == 0 then 0 else i % 2 + 2 * Wrap(i / 2, w - 1)
  }

  /** The bits of `i` from position `c` on. */
  function ShiftRight(i: int, c: nat): int
    decreases c
  {
    if c == 0 then i else ShiftRight(i / 2, c - 1)
  }

  /** Two's complement reading of a `w`-bit word. */
  function Signed(u: nat, w: nat): int
    requires w >= 1
  {
    if u < Pow2(w - 1) then u else u - Pow2(w)
  }

  predicate FitsUnsigned(i: int, w: nat) {
    0 <= i < Pow2(w)
  }

  predicate FitsSigned(i: int, w: nat) {
    w >= 1 && -(Pow2(w - 1) as int) <= i < Pow2(w - 1)
  }

  // ----- powers of two -----

  lemma Pow2Monotone(a: nat, b: nat)
    requires a <= b
    ensures Pow2(a) <= Pow2(b)
    ensures a < b ==> 2 * Pow2(a) <= Pow2(b)
    decreases b - a
  {
    if a < b {
      Pow2Monotone(a, b - 1);
    }
  }

  lemma {:induction false} Pow2Adds(a: nat, b: nat)
    ensures Pow2(a + b) == Pow2(a) * Pow2(b)
  {
    if a > 0 {
      Pow2Adds(a - 1, b);
      assert Pow2(a + b) == 2 * Pow2(a - 1 + b);
    }
  }

  lemma Pow2Exceeds(n: nat)
    ensures n < Pow2(n)
  {
  }

  // ----- wrapping -----

  lemma DivModUnique(x: int, d: int, q: int, r: int)
    requires d > 0 && 0 <= r < d && x == q * d + r
    ensures x / d == q && x % d == r
  {
    var k := q - x / d;
    assert k * d == x % d - r;
    assert k >= 1 ==> (k - 1) * d >= 0;
    assert k <= -1 ==> (k + 1) * d <= 0;
  }

  /** `i` is its low `w` bits plus a multiple of `Pow2(w)`. */
  lemma {:induction false} SplitAt(i: int, w: nat)
    ensures i == ShiftRight(i, w) * Pow2(w) + Wrap(i, w)
    decreases w
  {
    if w > 0 {
      SplitAt(i / 2, w - 1);
      var q, p := ShiftRight(i, w), Pow2(w - 1);
      assert q * (2 * p) == 2 * (q * p);
    }
  }

  /** Wrapping is reduction modulo a power of two, shifting is division by one. */
  lemma WrapIsMod(i: int, w: nat)
    ensures Wrap(i, w) == i % Pow2(w)
    ensures ShiftRight(i, w) == i / Pow2(w)
  {
    SplitAt(i, w);
    DivModUnique(i, Pow2(w), ShiftRight(i, w), Wrap(i, w));
  }

  /** Congruent integers have the same word, and the word is the representative below `Pow2(w)`. */
  lemma WrapUnique(i: int, w: nat, q: int, r: nat)
    requires r < Pow2(w) && i == q * Pow2(w) + r
    ensures Wrap(i, w) == r && ShiftRight(i, w) == q
  {
    DivModUnique(i, Pow2(w), q, r);
    WrapIsMod(i, w);
  }

  lemma WrapShift(x: int, k: int, w: nat)
    ensures Wrap(x + k * Pow2(w), w) == Wrap(x, w)
  {
    var q, p := ShiftRight(x, w), Pow2(w);
    SplitAt(x, w);
    assert x + k * p == (q + k) * p + Wrap(x, w);
    WrapUnique(x + k * p, w, q + k, Wrap(x, w));
  }

  lemma WrapSmall(x: int, w: nat)
    requires 0 <= x < Pow2(w)
    ensures Wrap(x, w) == x
  {
    WrapUnique(x, w, 0, x);
  }

  /** Truncating in two steps is truncating once. */
  lemma {:induction false} WrapWrap(x: int, a: nat, b: nat)
    requires a <= b
    ensures Wrap(Wrap(x, b), a) == Wrap(x, a)
    decreases b
  {
    if a > 0 {
      WrapWrap(x / 2, a - 1, b - 1);
      assert Wrap(x, b) / 2 == Wrap(x / 2, b - 1);
    }
  }

  lemma SumModulo(x: int, y: int, a: int, b: int, p: int)
    ensures (x - a * p) + (y - b * p) == (x + y) + (-a - b) * p
    ensures (x - a * p) - (y - b * p) == (x - y) + (b - a) * p
  {
  }

  lemma WrapAdd(x: int, y: int, w: nat)
    ensures Wrap(Wrap(x, w) + Wrap(y, w), w) == Wrap(x + y, w)
  {
    var a, b := ShiftRight(x, w), ShiftRight(y, w);
    SplitAt(x, w);
    SplitAt(y, w);
    SumModulo(x, y, a, b, Pow2(w));
    WrapShift(x + y, -a - b, w);
  }

  lemma WrapSub(x: int, y: int, w: nat)
    ensures Wrap(Wrap(x, w) - Wrap(y, w), w) == Wrap(x - y, w)
  {
    var a, b := ShiftRight(x, w), ShiftRight(y, w);
    SplitAt(x, w);
    SplitAt(y, w);
    SumModulo(x, y, a, b, Pow2(w));
    WrapShift(x - y, b - a, w);
  }

  lemma ProductModulo(x: int, y: int, a: int, b: int, p: int)
    ensures (x - a * p) * (y - b * p) == x * y + (a * b * p - a * y - x * b) * p
  {
    calc {
      (x - a * p) * (y - b * p);
      x * y - (a * p) * y - x * (b * p) + (a * p) * (b * p);
      { assert (a * p) * y == a * y * p; assert x * (b * p) == x * b * p; assert (a * p) * (b * p) == a * b * p * p; }
      x * y - a * y * p - x * b * p + a * b * p * p;
      x * y + (a * b * p - a * y - x * b) * p;
    }
  }

  lemma WrapMul(x: int, y: int, w: nat)
    ensures Wrap(Wrap(x, w) * Wrap(y, w), w) == Wrap(x * y, w)
  {
    var p, a, b := Pow2(w), ShiftRight(x, w), ShiftRight(y, w);
    var k := a * b * p - a * y - x * b;
    assert Wrap(x, w) * Wrap(y, w) == x * y + k * p by {
      SplitAt(x, w);
      SplitAt(y, w);
      ProductModulo(x, y, a, b, p);
    }
    WrapShift(x * y, k, w);
  }

  // ----- reading words back -----

  /** Reading a wrapped integer back is exact precisely on the integers that fit. */
  lemma SignedOfWrap(i: int, w: nat)
    requires w >= 1
    ensures FitsSigned(Signed(Wrap(i, w), w), w)
    ensures Signed(Wrap(i, w), w) == i <==> FitsSigned(i, w)
    ensures Wrap(Signed(Wrap(i, w), w), w) == Wrap(i, w)
  {
    assert Pow2(w) == 2 * Pow2(w - 1);
    if FitsSigned(i, w) {
      if i >= 0 {
        WrapSmall(i, w);
      } else {
        WrapUnique(i, w, -1, i + Pow2(w));
      }
    }
    WrapOfSigned(Wrap(i, w), w);
  }

  lemma WrapOfSigned(u: nat, w: nat)
    requires w >= 1 && u < Pow2(w)
    ensures Wrap(Signed(u, w), w) == u
  {
    if u < Pow2(w - 1) {
      WrapSmall(u, w);
    } else {
      WrapUnique(u - Pow2(w), w, -1, u);
    }
  }

  lemma WrapSigned(u: nat, w: nat)
    requires w >= 1 && u < Pow2(w)
    ensures Wrap(Signed(u, w), w) == u && FitsSigned(Signed(u, w), w)
  {
    WrapOfSigned(u, w);
  }

  lemma FitsWider(i: int, a: nat, b: nat)
    requires a <= b
    ensures FitsUnsigned(i, a) ==> FitsUnsigned(i, b)
    ensures FitsSigned(i, a) ==> FitsSigned(i, b)
    ensures a < b && FitsUnsigned(i, a) ==> FitsSigned(i, b)
  {
    Pow2Monotone(a, b);
    if a >= 1 { Pow2Monotone(a - 1, b - 1); }
    if a < b { Pow2Monotone(a, b - 1); }
  }

  /** Shifting a word right is shifting the integer it came from. */
  lemma {:induction false} WrapShiftRight(s: int, w: nat, c: nat)
    requires c <= w
    ensures ShiftRight(Wrap(s, w), c) == Wrap(ShiftRight(s, c), w - c)
    decreases c
  {
    if c > 0 {
      WrapShiftRight(s / 2, w - 1, c - 1);
      assert Wrap(s, w) / 2 == Wrap(s / 2, w - 1);
    }
  }
}
