/** Uses of products with -1 rewritten to use the other factor. */
module NegatedProducts {
  import opened Words
  import opened Bits

  /** Operands of a user: the product or something else. */
  datatype Operand = Product | Other(value: nat)

  datatype User = AddI(lhs: Operand, rhs: Operand) | SubI(lhs: Operand, rhs: Operand)

  datatype Expr =
    | Factor
    | Use(operand: Operand)
    | Mask
    | One
    | Add(left: Expr, right: Expr)
    | Sub(left: Expr, right: Expr)
    | XorE(left: Expr, right: Expr)

  /** What the factor, the product and the other operands carry. */
  datatype Inputs = Inputs(factor: int, product: int, others: nat -> int)

  /** The product with the constant of all ones, which is -1. */
  predicate IsProduct(env: Inputs, w: nat) {
    env.product == Wrap(env.factor, w) * Wrap(-1, w)
  }

  function OperandInt(o: Operand, env: Inputs): int {
    match o
    case Product => env.product
    case Other(v) => env.others(v)
  }

  function UserValue(u: User, env: Inputs, w: nat): nat {
    match u
    case AddI(l, r) => Wrap(Wrap(OperandInt(l, env), w) + Wrap(OperandInt(r, env), w), w)
    case SubI(l, r) => Wrap(Wrap(OperandInt(l, env), w) - Wrap(OperandInt(r, env), w), w)
  }

  function AllOnes(w: nat): nat {
    Pow2(w) - 1
  }

  function Eval(e: Expr, env: Inputs, w: nat): (r: nat)
    ensures r < Pow2(w)
  {
    match e
    case Factor => Wrap(env.factor, w)
    case Use(o) => Wrap(OperandInt(o, env), w)
    case Mask => AllOnes(w)
    case One => Wrap(1, w)
    case Add(l, r) => Wrap(Eval(l, env, w) + Eval(r, env, w), w)
    case Sub(l, r) => Wrap(Eval(l, env, w) - Eval(r, env, w), w)
    case XorE(l, r) => Bitwise(Xor, w, Eval(l, env, w), Eval(r, env, w))
  }

  /** What replaces a user of the product. */
  function Replacement(u: User): Expr {
    match u
    case AddI(l, r) => Sub(Use(if l == Product then r else l), Factor)
    case SubI(l, r) => if r == Product then Add(Use(l), Factor) else Add(XorE(Add(Factor, Use(r)), Mask), One)
  }

  lemma ProductIsNegation(env: Inputs, w: nat)
    requires IsProduct(env, w)
    ensures CarriesNegation(env, w)
  {
    WrapMul(env.factor, -1, w);
  }

  /** Inverting all bits subtracts from the all-ones word. */
  lemma {:induction false} XorMask(a: nat, w: nat)
    requires a < Pow2(w)
    ensures Bitwise(Xor, w, a, AllOnes(w)) == AllOnes(w) - a
  {
    if w > 0 {
      XorMask(a / 2, w - 1);
      assert AllOnes(w) / 2 == AllOnes(w - 1) && AllOnes(w) % 2 == 1;
    }
  }

  lemma NegateWord(i: int, w: nat)
    ensures Wrap(AllOnes(w) - Wrap(i, w) + 1, w) == Wrap(-i, w)
  {
    var a := Wrap(i, w);
    assert AllOnes(w) - a + 1 == -a + 1 * Pow2(w);
    WrapShift(-a, 1, w);
    WrapSub(0, i, w);
    WrapSmall(0, w);
  }

  /** Inverting and adding one negates. */
  lemma NegateByXor(i: int, a: nat, w: nat)
    requires a == Wrap(i, w)
    ensures Wrap(Bitwise(Xor, w, a, AllOnes(w)) + Wrap(1, w), w) == Wrap(-i, w)
  {
    XorMask(a, w);
    WrapAdd(AllOnes(w) - a, 1, w);
    WrapSmall(AllOnes(w) - a, w);
    NegateWord(i, w);
  }

  lemma SubtractIsAddNegated(y: int, x: int, w: nat)
    ensures Wrap(Wrap(y, w) - Wrap(x, w), w) == Wrap(Wrap(y, w) + Wrap(-x, w), w)
  {
    WrapSub(y, x, w);
    WrapAdd(y, -x, w);
  }

  lemma AddIsSubtractNegated(y: int, x: int, w: nat)
    ensures Wrap(Wrap(y, w) + Wrap(x, w), w) == Wrap(Wrap(y, w) - Wrap(-x, w), w)
  {
    WrapAdd(y, x, w);
    WrapSub(y, -x, w);
  }

  lemma FlippedSum(x: int, y: int, w: nat)
    ensures Wrap(Bitwise(Xor, w, Wrap(Wrap(x, w) + Wrap(y, w), w), AllOnes(w)) + Wrap(1, w), w) == Wrap(-(x + y), w)
  {
    SumOfWords(x, y, w, Wrap(Wrap(x, w) + Wrap(y, w), w));
    NegateByXor(x + y, Wrap(Wrap(x, w) + Wrap(y, w), w), w);
  }

  lemma SumOfWords(x: int, y: int, w: nat, a: nat)
    requires a == Wrap(Wrap(x, w) + Wrap(y, w), w)
    ensures a == Wrap(x + y, w)
  {
    WrapAdd(x, y, w);
  }

  lemma NegatedDifference(x: int, y: int, w: nat)
    ensures Wrap(Wrap(-x, w) - Wrap(y, w), w) == Wrap(-(x + y), w)
  {
    WrapSub(-x, y, w);
  }

  predicate CarriesNegation(env: Inputs, w: nat) {
    Wrap(env.product, w) == Wrap(-env.factor, w)
  }

  lemma AddsNegation(p: int, x: int, y: int, w: nat)
    requires Wrap(p, w) == Wrap(-x, w)
    ensures Wrap(Wrap(y, w) - Wrap(x, w), w) == Wrap(Wrap(y, w) + Wrap(p, w), w)
  {
    SubtractIsAddNegated(y, x, w);
  }

  lemma SubtractsFromNegation(p: int, x: int, y: int, w: nat)
    requires Wrap(p, w) == Wrap(-x, w)
    ensures Wrap(Bitwise(Xor, w, Wrap(Wrap(x, w) + Wrap(y, w), w), AllOnes(w)) + Wrap(1, w), w) == Wrap(Wrap(p, w) - Wrap(y, w), w)
  {
    FlippedSum(x, y, w);
    NegatedDifference(x, y, w);
  }

  lemma DifferenceValue(o: Operand, env: Inputs, w: nat)
    ensures Eval(Sub(Use(o), Factor), env, w) == Wrap(Wrap(OperandInt(o, env), w) - Wrap(env.factor, w), w)
  {
  }

  lemma AdditionKeeps(l: Operand, r: Operand, env: Inputs, w: nat)
    requires CarriesNegation(env, w) && (l == Product || r == Product)
    ensures Eval(Replacement(AddI(l, r)), env, w) == UserValue(AddI(l, r), env, w)
  {
    var kept := if l == Product then r else l;
    DifferenceValue(kept, env, w);
    AddsNegation(env.product, env.factor, OperandInt(kept, env), w);
  }

  lemma SubtractionKeeps(l: Operand, env: Inputs, w: nat)
    requires CarriesNegation(env, w)
    ensures Eval(Replacement(SubI(l, Product)), env, w) == UserValue(SubI(l, Product), env, w)
  {
    AddIsSubtractNegated(OperandInt(l, env), env.factor, w);
  }

  lemma FlippedValue(o: Operand, env: Inputs, w: nat)
    ensures Eval(Add(XorE(Add(Factor, Use(o)), Mask), One), env, w) ==
            Wrap(Bitwise(Xor, w, Wrap(Wrap(env.factor, w) + Wrap(OperandInt(o, env), w), w), AllOnes(w)) + Wrap(1, w), w)
  {
    var sum := Add(Factor, Use(o));
    assert Eval(sum, env, w) == Wrap(Wrap(env.factor, w) + Wrap(OperandInt(o, env), w), w);
    assert Eval(XorE(sum, Mask), env, w) == Bitwise(Xor, w, Eval(sum, env, w), AllOnes(w));
  }

  lemma FlippedSubtractionKeeps(r: Operand, env: Inputs, w: nat)
    requires CarriesNegation(env, w) && r != Product
    ensures Eval(Replacement(SubI(Product, r)), env, w) == UserValue(SubI(Product, r), env, w)
  {
    FlippedValue(r, env, w);
    SubtractsFromNegation(env.product, env.factor, OperandInt(r, env), w);
  }

  /** Every user of the product is replaced by an operation with the same value, for all inputs at every width. */
  lemma ReplacementKeeps(u: User, env: Inputs, w: nat)
    requires IsProduct(env, w) && (u.lhs == Product || u.rhs == Product)
    ensures Eval(Replacement(u), env, w) == UserValue(u, env, w)
  {
    ProductIsNegation(env, w);
    match u
    case AddI(l, r) => AdditionKeeps(l, r, env, w);
    case SubI(l, r) => if r == Product { SubtractionKeeps(l, env, w); } else { FlippedSubtractionKeeps(r, env, w); }
  }

  // ----- that the product is used less -----

  function UsesOf(o: Operand): nat {
    if o == Product then 1 else 0
  }

  /** How often the product is used. */
  function ProductUses(e: Expr): nat {
    match e
    case Use(o) => UsesOf(o)
    case Add(l, r) => ProductUses(l) + ProductUses(r)
    case Sub(l, r) => ProductUses(l) + ProductUses(r)
    case XorE(l, r) => ProductUses(l) + ProductUses(r)
    case _ => 0
  }

  /** Every replacement uses the product once less: not at all, unless both operands were the product. */
  lemma UsesOneLess(u: User)
    requires u.lhs == Product || u.rhs == Product
    ensures ProductUses(Replacement(u)) == UsesOf(u.lhs) + UsesOf(u.rhs) - 1
  {
    match u
    case AddI(l, r) => assert ProductUses(Replacement(u)) == UsesOf(if l == Product then r else l);
    case SubI(l, r) =>
      if r != Product {
        assert ProductUses(Add(Factor, Use(r))) == 0;
        assert ProductUses(XorE(Add(Factor, Use(r)), Mask)) == 0;
      }
  }
}
