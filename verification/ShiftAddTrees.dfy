/** Multiplications by positive constants as trees of shifts and additions. */
module ShiftAddTrees {
  import opened Basics
  import opened Words
  import opened BalancedTrees

  datatype OpType = AddOp | SubOp | ShiftLeftOp

  /** A tree of two-operand operations over one value and constants. */
  datatype OpTree = OpTree(opType: OpType, left: TreeOperand, right: TreeOperand)

  datatype TreeOperand = Tree(tree: OpTree) | MulOperand | Constant(value: nat)

  /** On `w`-bit words. A shift by the width or more has no defined result. */
  function Apply(op: OpType, a: nat, b: nat, w: nat): (r: nat)
    ensures r < Pow2(w)
  {
    match op
    case AddOp => Wrap(a + b, w)
    case SubOp => Wrap(a - b, w)
    case ShiftLeftOp => if b < w then Wrap(a * Pow2(b), w) else 0
  }

  function Eval(t: OpTree, x: int, w: nat): nat
    decreases t, 0
  {
    Apply(t.opType, EvalOperand(t.left, x, w), EvalOperand(t.right, x, w), w)
  }

  function EvalOperand(o: TreeOperand, x: int, w: nat): nat
    decreases o, 1
  {
    match o
    case Tree(t) => Eval(t, x, w)
    case MulOperand => Wrap(x, w)
    case Constant(c) => Wrap(c, w)
  }

  /** The longest chain of additions and subtractions. */
  function AdderDepth(o: TreeOperand): nat {
    match o
    case Tree(t) => Max(AdderDepth(t.left), AdderDepth(t.right)) + (if t.opType.ShiftLeftOp? then 0 else 1)
    case _ => 0
  }

  // ----- the one-bits of the constant -----

  /** Positions of the one-bits of `value`, counted from `pos`. */
  function OneBits(value: nat, pos: nat): seq<nat>
    decreases value
  {
    if value == 0 then [] else (if value % 2 == 1 then [pos] else []) + OneBits(value / 2, pos + 1)
  }

  method GetOneBitPositions(cst: nat) returns (positions: seq<nat>)
    ensures positions == OneBits(cst, 0)
  {
    positions := [];
    var value, pos := cst, 0;
    while value != 0
      invariant positions + OneBits(value, pos) == OneBits(cst, 0)
      decreases value
    {
      ghost var rest := OneBits(value / 2, pos + 1);
      if value % 2 == 1 {
        assert positions + ([pos] + rest) == (positions + [pos]) + rest;
        positions := positions + [pos];
      } else {
        assert positions + ([] + rest) == positions + rest;
      }
      value, pos := value / 2, pos + 1;
    }
  }

  function SumOfPowers(positions: seq<nat>): nat {
    if positions == [] then 0 else Pow2(positions[0]) + SumOfPowers(positions[1..])
  }

  lemma {:induction false} SumAppend(a: seq<nat>, b: seq<nat>)
    ensures SumOfPowers(a + b) == SumOfPowers(a) + SumOfPowers(b)
  {
    if a == [] {
      assert a + b == b;
    } else {
      assert (a + b)[1..] == a[1..] + b;
      SumAppend(a[1..], b);
    }
  }

  /** The powers of two at the one-bits add up to the value. */
  lemma {:induction false} OneBitsSum(value: nat, pos: nat)
    ensures SumOfPowers(OneBits(value, pos)) == value * Pow2(pos)
    decreases value
  {
    if value > 0 {
      var rest := OneBits(value / 2, pos + 1);
      OneBitsSum(value / 2, pos + 1);
      HalveMul(value, value / 2, value % 2, Pow2(pos));
      if value % 2 == 1 {
        assert OneBits(value, pos) == [pos] + rest;
      } else {
        assert OneBits(value, pos) == rest;
      }
    }
  }

  lemma HalveMul(value: nat, half: nat, bit: nat, p: nat)
    requires value == 2 * half + bit
    ensures value * p == half * (2 * p) + bit * p
  {
    calc {
      value * p;
      (2 * half + bit) * p;
      (2 * half) * p + bit * p;
      { assert (2 * half) * p == half * (2 * p); }
      half * (2 * p) + bit * p;
    }
  }

  lemma {:induction false} OneBitsBelow(value: nat, pos: nat, w: nat)
    requires value < Pow2(w)
    ensures forall p | p in OneBits(value, pos) :: p < pos + w
    ensures value > 0 ==> OneBits(value, pos) != []
    decreases value
  {
    if value > 0 {
      OneBitsBelow(value / 2, pos + 1, w - 1);
    }
  }

  // ----- the tree -----

  /** The value shifted by a position, or itself for position 0. */
  function ShiftLeaf(pos: nat): TreeOperand {
    if pos != 0 then Tree(OpTree(ShiftLeftOp, MulOperand, Constant(pos))) else MulOperand
  }

  /** Additions over shifted copies of the value. */
  function AdderTree(t: BalancedTrees.Tree<nat>): TreeOperand {
    match t
    case Leaf(pos) => ShiftLeaf(pos)
    case Node(l, r) => Tree(OpTree(AddOp, AdderTree(l), AdderTree(r)))
  }

  lemma {:induction false} AdderTreeDepth(t: BalancedTrees.Tree<nat>)
    ensures AdderDepth(AdderTree(t)) == Height(t)
  {
    match t
    case Leaf(pos) =>
      assert AdderDepth(MulOperand) == 0 && AdderDepth(Constant(pos)) == 0;
    case Node(l, r) =>
      AdderTreeDepth(l);
      AdderTreeDepth(r);
  }

  lemma ShiftExact(x: int, pos: nat, w: nat)
    requires pos < w
    ensures Apply(ShiftLeftOp, Wrap(x, w), Wrap(pos, w), w) == Wrap(x * Pow2(pos), w)
  {
    Pow2Exceeds(w);
    WrapSmall(pos, w);
    WrapMul(Wrap(x, w), Pow2(pos), w);
    WrapSmall(Wrap(x, w), w);
    WrapMul(x, Pow2(pos), w);
  }

  lemma ShiftLeafValue(pos: nat, x: int, w: nat)
    requires pos < w
    ensures EvalOperand(ShiftLeaf(pos), x, w) == Wrap(x * Pow2(pos), w)
  {
    if pos != 0 {
      ShiftExact(x, pos, w);
      assert EvalOperand(MulOperand, x, w) == Wrap(x, w) && EvalOperand(Constant(pos), x, w) == Wrap(pos, w);
    }
  }

  /** `v` times the powers of two at the positions, on `w`-bit words. */
  ghost predicate IsScaled(v: nat, x: int, positions: seq<nat>, w: nat) {
    v == Wrap(x * SumOfPowers(positions), w)
  }

  lemma ScaledLeaf(pos: nat, x: int, w: nat)
    requires pos < w
    ensures IsScaled(EvalOperand(ShiftLeaf(pos), x, w), x, [pos], w)
  {
    assert SumOfPowers([pos]) == Pow2(pos) + SumOfPowers([]);
    ShiftLeafValue(pos, x, w);
  }

  lemma ScaledSum(u: nat, v: nat, x: int, a: seq<nat>, b: seq<nat>, w: nat)
    requires IsScaled(u, x, a, w) && IsScaled(v, x, b, w)
    ensures IsScaled(Wrap(u + v, w), x, a + b, w)
  {
    SumAppend(a, b);
    Distributes(x, SumOfPowers(a), SumOfPowers(b));
    WrapAdd(x * SumOfPowers(a), x * SumOfPowers(b), w);
  }

  lemma {:induction false} AdderTreeValue(t: BalancedTrees.Tree<nat>, x: int, w: nat)
    requires forall p | p in Leaves(t) :: p < w
    ensures IsScaled(EvalOperand(AdderTree(t), x, w), x, Leaves(t), w)
  {
    match t
    case Leaf(pos) =>
      assert pos in Leaves(t);
      ScaledLeaf(pos, x, w);
    case Node(l, r) =>
      forall p | p in Leaves(l) || p in Leaves(r) ensures p < w {
        assert p in Leaves(t);
      }
      AdderTreeValue(l, x, w);
      AdderTreeValue(r, x, w);
      EvalAddition(AdderTree(l), AdderTree(r), x, w);
      ScaledSum(EvalOperand(AdderTree(l), x, w), EvalOperand(AdderTree(r), x, w), x, Leaves(l), Leaves(r), w);
  }

  lemma EvalAddition(l: TreeOperand, r: TreeOperand, x: int, w: nat)
    ensures EvalOperand(Tree(OpTree(AddOp, l, r)), x, w) == Wrap(EvalOperand(l, x, w) + EvalOperand(r, x, w), w)
  {
  }

  lemma Distributes(x: int, a: nat, b: nat)
    ensures x * (a + b) == x * a + x * b
  {
  }

  // ----- choosing the tree -----

  function FloorLog2(n: nat): (k: nat)
    requires n > 0
    ensures Pow2(k) <= n < 2 * Pow2(k)
  {
    if n == 1 then 0 else 1 + FloorLog2(n / 2)
  }

  /** The depth as the pass computes it. */
  function TreeDepth(numBits: nat): nat
    requires numBits > 0
  {
    if numBits == Pow2(FloorLog2(numBits)) then FloorLog2(numBits) else FloorLog2(numBits) + 1
  }

  lemma TreeDepthIsCeil(numBits: nat)
    requires numBits > 0
    ensures TreeDepth(numBits) == CeilLog2(numBits)
  {
    var k := FloorLog2(numBits);
    forall j: nat | numBits <= Pow2(j) ensures TreeDepth(numBits) <= j {
      if j < k {
        Pow2Monotone(j, k);
      }
    }
    CeilLog2Unique(numBits, TreeDepth(numBits));
  }

  /** The tree computes the product on every input at every width in which the constant is positive. */
  ghost predicate Multiplies(t: OpTree, cst: nat) {
    forall x: int, w: nat | w > 0 && cst < Pow2(w - 1) :: Eval(t, x, w) == Wrap(x * cst, w)
  }

  lemma OneBitsScale(v: nat, x: int, cst: nat, w: nat)
    requires IsScaled(v, x, OneBits(cst, 0), w)
    ensures v == Wrap(x * cst, w)
  {
    OneBitsSum(cst, 0);
  }

  lemma TreeMultiplies(cst: nat, tree: BalancedTrees.Tree<nat>, t: OpTree)
    requires Leaves(tree) == OneBits(cst, 0) && AdderTree(tree) == Tree(t)
    ensures Multiplies(t, cst)
  {
    forall x: int, w: nat | w > 0 && cst < Pow2(w - 1) ensures Eval(t, x, w) == Wrap(x * cst, w) {
      TreeMultipliesAt(cst, tree, t, x, w);
    }
  }

  lemma TreeMultipliesAt(cst: nat, tree: BalancedTrees.Tree<nat>, t: OpTree, x: int, w: nat)
    requires Leaves(tree) == OneBits(cst, 0) && AdderTree(tree) == Tree(t) && w > 0 && cst < Pow2(w - 1)
    ensures Eval(t, x, w) == Wrap(x * cst, w)
  {
    OneBitsBelow(cst, 0, w - 1);
    AdderTreeValue(tree, x, w);
    OneBitsScale(EvalOperand(AdderTree(tree), x, w), x, cst, w);
  }

  lemma ShiftMultiplies(cst: nat, pos: nat)
    requires OneBits(cst, 0) == [pos]
    ensures Multiplies(OpTree(ShiftLeftOp, MulOperand, Constant(pos)), cst)
  {
    forall x: int, w: nat | w > 0 && cst < Pow2(w - 1)
      ensures Eval(OpTree(ShiftLeftOp, MulOperand, Constant(pos)), x, w) == Wrap(x * cst, w)
    {
      OneBitsBelow(cst, 0, w - 1);
      assert pos in OneBits(cst, 0);
      ShiftMultipliesAt(cst, pos, x, w);
    }
  }

  lemma ShiftMultipliesAt(cst: nat, pos: nat, x: int, w: nat)
    requires OneBits(cst, 0) == [pos] && pos < w
    ensures Eval(OpTree(ShiftLeftOp, MulOperand, Constant(pos)), x, w) == Wrap(x * cst, w)
  {
    var v := Eval(OpTree(ShiftLeftOp, MulOperand, Constant(pos)), x, w);
    assert EvalOperand(MulOperand, x, w) == Wrap(x, w) && EvalOperand(Constant(pos), x, w) == Wrap(pos, w);
    ShiftExact(x, pos, w);
    assert SumOfPowers([pos]) == Pow2(pos) + SumOfPowers([]);
    OneBitsScale(v, x, cst, w);
  }

  /** Fails exactly if more adders would have to be chained than allowed; no tree over as many copies of the value chains fewer
      than the one returned. */
  method GetBitwiseAdderTree(cst: nat, maxAdderDepth: nat) returns (answer: Option<OpTree>)
    requires cst > 0
    ensures answer.None? <==> CeilLog2(|OneBits(cst, 0)|) > maxAdderDepth
    ensures answer.Some? ==> Multiplies(answer.value, cst)
    ensures answer.Some? ==> AdderDepth(Tree(answer.value)) == CeilLog2(|OneBits(cst, 0)|)
    ensures answer.Some? ==> forall t: BalancedTrees.Tree<nat> | |Leaves(t)| == |OneBits(cst, 0)| ::
                               AdderDepth(Tree(answer.value)) <= AdderDepth(AdderTree(t))
  {
    var onePositions := GetOneBitPositions(cst);
    Pow2Exceeds(cst);
    OneBitsBelow(cst, 0, cst);
    var treeDepth := TreeDepth(|onePositions|);
    TreeDepthIsCeil(|onePositions|);
    if treeDepth > maxAdderDepth {
      return None;
    }
    forall t: BalancedTrees.Tree<nat> | |Leaves(t)| == |onePositions| ensures treeDepth <= AdderDepth(AdderTree(t)) {
      BuildHeight(onePositions);
      BuildIsLowest(onePositions, t);
      AdderTreeDepth(t);
    }
    if treeDepth == 0 {
      assert |onePositions| == 1;
      assert onePositions == [onePositions[0]];
      ShiftMultiplies(cst, onePositions[0]);
      return Some(OpTree(ShiftLeftOp, MulOperand, Constant(onePositions[0])));
    }
    BuildHeight(onePositions);
    BuildLeaves(onePositions);
    var tree := AdderTree(Build(onePositions));
    AdderTreeDepth(Build(onePositions));
    assert tree.Tree?;
    TreeMultiplies(cst, Build(onePositions), tree.tree);
    return Some(tree.tree);
  }

  // ----- building the operations -----

  /** The multiplied value or an operation created before. */
  datatype Ref = Input | Def(idx: nat)

  datatype Created = CreatedConstant(value: nat) | CreatedOp(op: OpType, left: Ref, right: Ref)

  predicate Before(r: Ref, n: nat) {
    r.Def? ==> r.idx < n
  }

  predicate Ordered(ops: seq<Created>) {
    forall i | 0 <= i < |ops| && ops[i].CreatedOp? :: Before(ops[i].left, i) && Before(ops[i].right, i)
  }

  function ValueOf(ops: seq<Created>, r: Ref, x: int, w: nat): nat
    requires Ordered(ops) && Before(r, |ops|)
    decreases if r.Def? then r.idx + 1 else 0
  {
    match r
    case Input => Wrap(x, w)
    case Def(i) =>
      match ops[i]
      case CreatedConstant(c) => Wrap(c, w)
      case CreatedOp(op, left, right) => Apply(op, ValueOf(ops, left, x, w), ValueOf(ops, right, x, w), w)
  }

  lemma {:induction false} LaterOpsDoNotMatter(ops: seq<Created>, more: seq<Created>, r: Ref, x: int, w: nat)
    requires Ordered(ops) && Ordered(more) && ops <= more && Before(r, |ops|)
    ensures ValueOf(more, r, x, w) == ValueOf(ops, r, x, w)
    decreases if r.Def? then r.idx + 1 else 0
  {
    if r.Def? && ops[r.idx].CreatedOp? {
      LaterOpsDoNotMatter(ops, more, ops[r.idx].left, x, w);
      LaterOpsDoNotMatter(ops, more, ops[r.idx].right, x, w);
    }
  }

  /** The created operations compute the operand. */
  ghost predicate Computes(ops: seq<Created>, r: Ref, o: TreeOperand) {
    && Ordered(ops) && Before(r, |ops|)
    && forall x: int, w: nat :: ValueOf(ops, r, x, w) == EvalOperand(o, x, w)
  }

  lemma StillComputes(ops: seq<Created>, more: seq<Created>, r: Ref, o: TreeOperand)
    requires Computes(ops, r, o) && Ordered(more) && ops <= more
    ensures Computes(more, r, o)
  {
    forall x: int, w: nat ensures ValueOf(more, r, x, w) == EvalOperand(o, x, w) {
      LaterOpsDoNotMatter(ops, more, r, x, w);
    }
  }

  // ----- how many operations are created -----

  /** The constants and trees an operand is made of, itself included; the multiplied value needs no operation. */
  function Parts(o: TreeOperand): (s: set<TreeOperand>)
    ensures o.MulOperand? <==> o !in s
  {
    match o
    case MulOperand => {}
    case Constant(_) => {o}
    case Tree(t) => Parts(t.left) + Parts(t.right) + {o}
  }

  /** The parts of a tree's operands. */
  function Below(t: OpTree): set<TreeOperand> {
    Parts(t.left) + Parts(t.right)
  }

  function Size(o: TreeOperand): nat {
    if o.Tree? then Size(o.tree.left) + Size(o.tree.right) + 1 else 0
  }

  lemma {:induction false} PartsAreSmaller(o: TreeOperand, part: TreeOperand)
    requires part in Parts(o)
    ensures Size(part) <= Size(o) && Parts(part) <= Parts(o)
  {
    if o.Tree? && part != o {
      if part in Parts(o.tree.left) {
        PartsAreSmaller(o.tree.left, part);
      } else {
        PartsAreSmaller(o.tree.right, part);
      }
    }
  }

  /** No tree is a part of its operands. */
  lemma NotBelow(t: OpTree)
    ensures Tree(t) !in Below(t) && Parts(Tree(t)) == Below(t) + {Tree(t)}
  {
    if Tree(t) in Parts(t.left) {
      PartsAreSmaller(t.left, Tree(t));
    }
    if Tree(t) in Parts(t.right) {
      PartsAreSmaller(t.right, Tree(t));
    }
  }

  /** One operation more for each of the parts that was not known, which then all are. */
  predicate Creates(known: set<TreeOperand>, count: nat, parts: set<TreeOperand>, more: set<TreeOperand>, total: nat) {
    more == known + parts && total == count + |parts - known|
  }

  lemma CreatesBoth(known: set<TreeOperand>, count: nat, a: set<TreeOperand>, mid: set<TreeOperand>, sum: nat, b: set<TreeOperand>,
                    more: set<TreeOperand>, total: nat)
    requires Creates(known, count, a, mid, sum) && Creates(mid, sum, b, more, total)
    ensures Creates(known, count, a + b, more, total)
  {
    assert (a + b) - known == (a - known) + (b - mid);
    assert (a - known) !! (b - mid);
  }

  lemma CreatesOneMore(known: set<TreeOperand>, count: nat, below: set<TreeOperand>, more: set<TreeOperand>, total: nat, o: TreeOperand)
    requires Creates(known, count, below, more, total) && o !in known && o !in below
    ensures Creates(known, count, below + {o}, more + {o}, total + 1)
  {
    assert (below + {o}) - known == (below - known) + {o};
  }

  lemma NothingNew(known: set<TreeOperand>, count: nat, parts: set<TreeOperand>)
    requires parts <= known
    ensures Creates(known, count, parts, known, count)
  {
    assert parts - known == {};
  }

  /** Everything below what is cached is cached. */
  predicate IsClosed(cached: set<TreeOperand>) {
    forall o | o in cached :: Parts(o) <= cached
  }

  /** The caches hold, for everything cached, an operation that computes it. */
  ghost predicate Caches(created: seq<Created>, constants: map<nat, Ref>, results: map<OpTree, Ref>, cached: set<TreeOperand>) {
    && Ordered(created) && IsClosed(cached)
    && (forall c | c in constants :: Computes(created, constants[c], Constant(c)) && Constant(c) in cached)
    && (forall t | t in results :: Computes(created, results[t], Tree(t)) && Tree(t) in cached)
    && forall o | o in cached :: if o.Tree? then o.tree in results else o.Constant? && o.value in constants
  }

  lemma ClosedFurther(cached: set<TreeOperand>, o: TreeOperand)
    requires IsClosed(cached) && Parts(o) <= cached + {o}
    ensures IsClosed(cached + {o})
  {
  }

  lemma CachesTree(created: seq<Created>, constants: map<nat, Ref>, results: map<OpTree, Ref>, cached: set<TreeOperand>, t: OpTree, r: Ref)
    requires Caches(created, constants, results, cached) && Computes(created, r, Tree(t)) && Below(t) <= cached
    ensures Caches(created, constants, results[t := r], cached + {Tree(t)})
  {
    NotBelow(t);
    ClosedFurther(cached, Tree(t));
  }

  lemma CachesConstant(created: seq<Created>, constants: map<nat, Ref>, results: map<OpTree, Ref>, cached: set<TreeOperand>, c: nat, r: Ref)
    requires Caches(created, constants, results, cached) && Computes(created, r, Constant(c))
    ensures Caches(created, constants[c := r], results, cached + {Constant(c)})
  {
    ClosedFurther(cached, Constant(c));
  }

  lemma CachesStay(created: seq<Created>, constants: map<nat, Ref>, results: map<OpTree, Ref>, cached: set<TreeOperand>, more: seq<Created>)
    requires Caches(created, constants, results, cached) && Ordered(more) && created <= more
    ensures Caches(more, constants, results, cached)
  {
    forall c | c in constants ensures Computes(more, constants[c], Constant(c)) {
      StillComputes(created, more, constants[c], Constant(c));
    }
    forall t | t in results ensures Computes(more, results[t], Tree(t)) {
      StillComputes(created, more, results[t], Tree(t));
    }
  }

  /** An operand is cached exactly if its cache has an entry, which then serves it. */
  lemma CachedExactly(created: seq<Created>, constants: map<nat, Ref>, results: map<OpTree, Ref>, cached: set<TreeOperand>, o: TreeOperand)
    requires Caches(created, constants, results, cached)
    ensures o.Tree? ==> (o in cached <==> o.tree in results) && (o in cached ==> Computes(created, results[o.tree], o))
    ensures o.Constant? ==> (o in cached <==> o.value in constants) && (o in cached ==> Computes(created, constants[o.value], o))
    ensures o.MulOperand? ==> Computes(created, Input, o)
    ensures o in cached || o.MulOperand? ==> Parts(o) <= cached
  {
    if o.MulOperand? {
      forall x: int, w: nat ensures ValueOf(created, Input, x, w) == EvalOperand(o, x, w) {
      }
    }
  }

  /** The operation of a tree, created from its operands. */
  lemma ComputesTree(created: seq<Created>, t: OpTree, left: Ref, right: Ref)
    requires Computes(created, left, t.left) && Computes(created, right, t.right)
    ensures Computes(created + [CreatedOp(t.opType, left, right)], Def(|created|), Tree(t))
  {
    var more := created + [CreatedOp(t.opType, left, right)];
    StillComputes(created, more, left, t.left);
    StillComputes(created, more, right, t.right);
  }

  /** Creates the operations of a tree, identical constants only once and a subtree only once, too. Subtrees are the same here if
      they look the same; the compiler compares their addresses, and creates equal ones at different addresses again. */
  class TreeBuilder {
    var created: seq<Created>
    var cstCache: map<nat, Ref>
    var resultCache: map<OpTree, Ref>
    /** What has been created for a constant or as an operand of a tree. */
    ghost var cached: set<TreeOperand>

    constructor ()
      ensures Valid() && created == [] && cached == {}
    {
      created, cstCache, resultCache, cached := [], map[], map[], {};
    }

    ghost predicate Valid()
      reads this
    {
      Caches(created, cstCache, resultCache, cached)
    }

    method Create(op: Created) returns (r: Ref)
      requires Valid() && (op.CreatedOp? ==> Before(op.left, |created|) && Before(op.right, |created|))
      modifies this`created
      ensures Valid() && created == old(created) + [op] && r == Def(|old(created)|)
    {
      r := Def(|created|);
      CachesStay(created, cstCache, resultCache, cached, created + [op]);
      created := created + [op];
    }

    /** A constant that is not in the cache. */
    method CreateConstant(c: nat) returns (r: Ref)
      requires Valid() && c !in cstCache
      modifies this
      ensures Valid() && old(created) <= created && Computes(created, r, Constant(c))
      ensures Creates(old(cached), |old(created)|, Parts(Constant(c)), cached, |created|)
    {
      NothingNew(cached, |created|, {});
      CreatesOneMore(cached, |created|, {}, cached, |created|, Constant(c));
      r := Create(CreatedConstant(c));
      CachesConstant(created, cstCache, resultCache, cached, c, r);
      cstCache, cached := cstCache[c := r], cached + {Constant(c)};
    }

    /** Creates one operation for each part that none has been created for. */
    method BuildTreeOperand(operand: TreeOperand) returns (r: Ref)
      requires Valid()
      modifies this
      ensures Valid() && old(created) <= created && Computes(created, r, operand)
      ensures Creates(old(cached), |old(created)|, Parts(operand), cached, |created|)
      decreases operand, 1
    {
      CachedExactly(created, cstCache, resultCache, cached, operand);
      match operand
      case Tree(t) =>
        if t in resultCache {
          NothingNew(cached, |created|, Parts(operand));
          return resultCache[t];
        }
        r := BuildTreeRecursive(t);
        NotBelow(t);
        CreatesOneMore(old(cached), |old(created)|, Below(t), cached, |created| - 1, operand);
        CachesTree(created, cstCache, resultCache, cached, t, r);
        resultCache, cached := resultCache[t := r], cached + {operand};
      case Constant(c) =>
        if c in cstCache {
          NothingNew(cached, |created|, Parts(operand));
          return cstCache[c];
        }
        r := CreateConstant(c);
      case MulOperand =>
        NothingNew(cached, |created|, Parts(operand));
        r := Input;
    }

    /** Creates one operation for each part of its operands that none has been created for, and one for the tree. */
    method BuildTreeRecursive(t: OpTree) returns (r: Ref)
      requires Valid()
      modifies this
      ensures Valid() && old(created) <= created && Computes(created, r, Tree(t))
      ensures |created| >= 1 && Creates(old(cached), |old(created)|, Below(t), cached, |created| - 1)
      decreases t, 0
    {
      var leftVal := BuildTreeOperand(t.left);
      ghost var was, known := created, cached;
      var rightVal := BuildTreeOperand(t.right);
      CreatesBoth(old(cached), |old(created)|, Parts(t.left), known, |was|, Parts(t.right), cached, |created|);
      StillComputes(was, created, leftVal, t.left);
      ComputesTree(created, t, leftVal, rightVal);
      r := Create(CreatedOp(t.opType, leftVal, rightVal));
    }
  }
}
