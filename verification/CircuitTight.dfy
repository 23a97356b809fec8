/** What is left when no pattern applies: told on the definitions of the circuit alone, nothing computes on more bits than the
extensions of its operands and its users need. */
module CircuitTight {
  import opened Basics
  import opened Words
  import opened Bits
  import opened Transfer
  import opened Scalar
  import opened DataForward
  import opened Expressions
  import opened PatternCosts
  import opened Circuits
  import opened CircuitSteps
  import opened CircuitCycles
  import opened CircuitPasses
  import opened LeastWidths
  import opened LeastComparisons
  import opened CycleWalks
  import Cycles = ForwardingCycles
  import CycleNarrowing
  import opened ResultUsers

  // ----- what an operand is extended from -----

  function KindOf(i: int): ExtType {
    if i < 0 then SEXT else ZEXT
  }

  /** The least word that a constant can be extended from; without an extension if that is all of it. */
  predicate ConstIs(v: nat, w: nat, m: ExtWidth)
    requires w >= 1 && v < Pow2(w)
  {
    var i := Signed(v, w);
    && m.bitWidth >= 1 && Fits(KindOf(i), i, m.bitWidth) && (m.bitWidth > 1 ==> !Fits(KindOf(i), i, m.bitWidth - 1))
    && m.extType == if m.bitWidth >= w then NONE else KindOf(i)
  }

  /** The word the value is the extension of, as far as its definition tells. */
  predicate OperandIs(defs: seq<Def>, x: nat, m: ExtWidth)
    requires AllGood(defs) && x < |defs|
  {
    assert GoodDef(defs, defs[x]);
    if defs[x].Node? && defs[x].e.Ext? then m == ExtWidth(defs[x].e.kind, Width(defs[x].e.arg))
    else if defs[x].Node? && defs[x].e.Const? then ConstIs(defs[x].e.value, defs[x].e.width, m)
    else m == ExtWidth(NONE, defs[x].Width())
  }

  lemma ConstFits(v: nat, w: nat, n: nat)
    requires w >= 1 && v < Pow2(w) && n >= 1
    ensures Fits(KindOf(Signed(v, w)), Signed(v, w), n) <==> n >= RequiredBits(v, w)
    ensures RequiredBits(v, w) <= w && IsNegative(v, w) == (Signed(v, w) < 0)
  {
    RequiredBitsIsLeast(v, w, n);
  }

  lemma ConstIsExactly(v: nat, w: nat, m: ExtWidth)
    requires w >= 1 && v < Pow2(w)
    ensures ConstIs(v, w, m) <==> m == ExtWidth(ConstantExt(v, w), RequiredBits(v, w))
  {
    ConstFits(v, w, Max(m.bitWidth, 1));
    if m.bitWidth > 1 {
      ConstFits(v, w, m.bitWidth - 1);
    }
  }

  function ShapeSeen(defs: seq<Def>, x: nat, i: nat): ExtWidth
    requires AllGood(defs) && x < |defs|
  {
    OperandViewTyped(defs, x, i);
    GetMinimalValue(OperandView(defs, x, i)).Shape()
  }

  lemma OperandIsExactly(defs: seq<Def>, x: nat, i: nat, m: ExtWidth)
    requires AllGood(defs) && x < |defs|
    ensures OperandIs(defs, x, m) <==> m == ShapeSeen(defs, x, i)
    ensures IsShape(ShapeSeen(defs, x, i), defs[x].Width())
  {
    OperandViewTyped(defs, x, i);
    assert GoodDef(defs, defs[x]);
    if defs[x].Node? && defs[x].e.Ext? {
      ChildrenAreRefs(defs, defs[x].e);
    } else if defs[x].Node? && defs[x].e.Const? {
      ConstIsExactly(defs[x].e.value, defs[x].e.width, m);
      RequiredBitsIsLeast(defs[x].e.value, defs[x].e.width, RequiredBits(defs[x].e.value, defs[x].e.width));
    }
  }

  /** Some word of the value does not come back when it is cut to `w` bits and extended by `e`. */
  ghost predicate LostAt(defs: seq<Def>, x: nat, e: ExtType, w: nat, full: nat)
    requires AllGood(defs) && w >= 1
  {
    exists m, u: nat :: x < |defs| && OperandIs(defs, x, m) && m.bitWidth >= 1 && u < Pow2(m.bitWidth) && !Survives(m, e, w, u, full)
  }

  // ----- what users need -----

  /** Nothing but truncations to at most `k` bits uses the value here. */
  predicate NeedsOnly(d: Def, v: nat, k: nat) {
    match d
    case Source(_, _, _) => true
    case Choice(_, data, _, kind) => v !in data && !kind.IsControl(v)
    case Node(e) => forall i: nat | i < Arity(e) && Child(e, i).Var? && Child(e, i).id == v :: e.Trunc? && e.to <= k
  }

  predicate UsedWithin(c: Circuit, v: nat, k: nat) {
    v !in c.outputs && forall u: nat | u < |c.defs| :: NeedsOnly(c.defs[u], v, k)
  }

  lemma {:induction false} UsefulBelowWithin(c: Circuit, v: nat, k: nat, n: nat)
    requires v < |c.defs| && n <= |c.defs| && UsedWithin(c, v, k)
    ensures UsefulBelow(c, v, n) <= k
    decreases n
  {
    if n > 0 {
      UsefulBelowWithin(c, v, k, n - 1);
      var d := c.defs[n - 1];
      assert NeedsOnly(d, v, k);
      if d.Node? && d.e.Trunc? {
        assert Child(d.e, 0) == d.e.arg;
      }
    }
  }

  lemma UsefulWithin(c: Circuit, v: nat, k: nat)
    requires v < |c.defs| && k >= 1 && UsedWithin(c, v, k)
    ensures Useful(c, v) <= k
  {
    UsefulBelowWithin(c, v, k, |c.defs|);
  }

  // ----- operations on values -----

  /** No smaller width gives the operation's result for all words that its operands are extended from. */
  ghost predicate BinTight(c: Circuit, v: nat, op: BinOp, l: nat, r: nat)
    requires AllGood(c.defs) && v < |c.defs| && l < |c.defs| && r < |c.defs|
  {
    var full := c.defs[v].Width();
    && (forall lm, rm, e, w: nat | OperandIs(c.defs, l, lm) && OperandIs(c.defs, r, rm) && lm.bitWidth >= 1 && rm.bitWidth >= 1
          && e != NONE && 1 <= w && w + Slack(op, lm, rm) < full :: !Right(op, lm, rm, full, e, w))
    && (op == Add || op == Sub ==> forall k: nat | 1 <= k < full :: !UsedWithin(c, v, k))
  }

  /** Unless one operand is zero-extended and the other sign-extended, both of which the pattern does not select between. */
  ghost predicate SelectTight(c: Circuit, v: nat, l: nat, r: nat)
    requires AllGood(c.defs) && v < |c.defs| && l < |c.defs| && r < |c.defs|
  {
    var full := c.defs[v].Width();
    (forall lm, rm | OperandIs(c.defs, l, lm) && OperandIs(c.defs, r, rm) :: !IsMixed(lm, rm) && !IsMixed(rm, lm)) ==>
      && (forall e, w: nat | e != NONE && 1 <= w < full :: LostAt(c.defs, l, e, w, full) || LostAt(c.defs, r, e, w, full))
      && forall k: nat | 1 <= k < full :: !UsedWithin(c, v, k)
  }

  /** Backtracking from `x` leads to `y`. */
  ghost predicate Behind(c: Circuit, x: nat, y: nat)
    requires Valid(c) && x < |c.defs| && y < |c.defs|
  {
    var g := ToGraph(c.defs);
    exists trail: seq<Cycles.Value> ::
      IsTrail(g, trail) && Ends(g, trail, {}) && trail[0] == ToValue(c.defs, x) && trail[|trail| - 1] == ToValue(c.defs, y)
  }

  predicate IsConst(defs: seq<Def>, y: nat, value: nat) {
    y < |defs| && defs[y].Node? && defs[y].e.Const? && defs[y].e.value == value
  }

  /** Shifting by a constant below the width, the operand is not extended, for an arithmetic shift not sign-extended; and whatever
      constant backtracking finds, users need the bits it shifts out together with the rest. */
  ghost predicate ShrTight(c: Circuit, v: nat, arithmetic: bool, l: nat, a: nat)
    requires Valid(c) && v < |c.defs| && l < |c.defs| && a < |c.defs|
  {
    var full := c.defs[v].Width();
    && (forall lm, value: nat | OperandIs(c.defs, l, lm) && IsConst(c.defs, a, value) && value < full ::
          lm.bitWidth >= full || (arithmetic && lm.extType == ZEXT))
    && (forall y: nat, value: nat, m, k: nat |
          IsConst(c.defs, y, value) && Behind(c, a, y) && OperandIs(c.defs, y, m) && k >= 1 && UsedWithin(c, v, k) ::
          k + Wrap(value, m.bitWidth) >= full)
  }

  ghost predicate CmpTight(c: Circuit, p: Pred, l: nat, r: nat)
    requires AllGood(c.defs) && l < |c.defs| && r < |c.defs|
  {
    var full := c.defs[l].Width();
    forall lm, rm, w: nat | OperandIs(c.defs, l, lm) && OperandIs(c.defs, r, rm) && lm.bitWidth >= 1 && rm.bitWidth >= 1
      && 1 <= w && w + CmpSlack(p, lm, rm) < full :: !CmpRight(p, lm, rm, full, w)
  }

  /** What is truncated is not extended, unless exactly from what is left of it. */
  ghost predicate TruncTight(c: Circuit, to: nat, a: nat)
    requires AllGood(c.defs) && a < |c.defs|
  {
    forall m | OperandIs(c.defs, a, m) :: m.extType == NONE || m.bitWidth == to
  }

  lemma OperandIds(defs: seq<Def>, e: Expr)
    requires IsFlat(defs, e)
    ensures Arity(e) >= 1 ==> IsRef(defs, Child(e, 0))
    ensures Arity(e) >= 2 ==> IsRef(defs, Child(e, 1))
    ensures Arity(e) >= 3 ==> IsRef(defs, Child(e, 2))
  {
  }

  ghost predicate NodeTight(c: Circuit, v: nat)
    requires Valid(c) && v < |c.defs| && c.defs[v].Node?
  {
    var e := c.defs[v].e;
    assert GoodDef(c.defs, c.defs[v]);
    OperandIds(c.defs, e);
    match e
    case Bin(op, l, r) => BinTight(c, v, op, l.id, r.id)
    case Select(_, t, f) => SelectTight(c, v, t.id, f.id)
    case Shr(arithmetic, l, a) => ShrTight(c, v, arithmetic, l.id, a.id)
    case Cmp(p, l, r) => CmpTight(c, p, l.id, r.id)
    case Trunc(to, a) => TruncTight(c, to, a.id)
    case _ => true
  }

  // ----- forwarding operations -----

  /** The first result of its operation. */
  predicate IsFirst(defs: seq<Def>, r: nat) {
    r < |defs| && defs[r].Choice? && forall u: nat | u < r :: !(defs[u].Choice? && defs[u].op == defs[r].op)
  }

  predicate SharesOp(defs: seq<Def>, r: nat, u: nat) {
    r < |defs| && u < |defs| && defs[r].Choice? && defs[u].Choice? && defs[u].op == defs[r].op
  }

  /** The value enters the cycle of the merge-like operation with result `r`: it is an operand no walk from which closes, or an operand
      of what such a walk passes. */
  ghost predicate Enters(c: Circuit, r: nat, x: Cycles.Value)
    requires Valid(c) && r < |c.defs| && c.defs[r].Choice?
  {
    assert GoodDef(c.defs, c.defs[r]);
    var g, operands, res := ToGraph(c.defs), ToValues(c.defs, c.defs[r].data), ToValue(c.defs, r);
    || (x in operands && !CanClose(g, [x], res, {}))
    || exists walk :: walk != [] && walk[0] in operands && Joins(g, walk, res, {}, x)
  }

  /** Some value behind one that enters has a word that does not come back. */
  ghost predicate EnteringLost(c: Circuit, r: nat, e: ExtType, w: nat)
    requires Valid(c) && r < |c.defs| && c.defs[r].Choice? && w >= 1
  {
    exists x: nat, y: nat :: x < |c.defs| && y < |c.defs|
      && Enters(c, r, ToValue(c.defs, x)) && Behind(c, x, y) && LostAt(c.defs, y, e, w, c.defs[r].width)
  }

  ghost predicate NothingEnters(c: Circuit, r: nat)
    requires Valid(c) && r < |c.defs| && c.defs[r].Choice?
  {
    forall x :: !Enters(c, r, x)
  }

  /** Some data operand has a word that does not come back. */
  ghost predicate DataLost(c: Circuit, r: nat, e: ExtType, w: nat)
    requires Valid(c) && r < |c.defs| && c.defs[r].Choice? && w >= 1
  {
    exists j: nat :: j < |c.defs[r].data| && LostAt(c.defs, c.defs[r].data[j], e, w, c.defs[r].width)
  }

  /** Some result of the operation is used by something that needs more than `k` bits. */
  ghost predicate SomeNeeds(c: Circuit, r: nat, k: nat) {
    exists u: nat :: SharesOp(c.defs, r, u) && !UsedWithin(c, u, k)
  }

  /** Words of the data operands need the whole width, so do users of some result, and so does what enters the cycle. */
  ghost predicate ForwarderTight(c: Circuit, r: nat)
    requires Valid(c) && r < |c.defs| && c.defs[r].Choice?
  {
    var d := c.defs[r];
    && (forall e, w: nat | e != NONE && 1 <= w < d.width :: DataLost(c, r, e, w))
    && (forall k: nat | 1 <= k < d.width :: SomeNeeds(c, r, k))
    && (d.kind.MergeLike? && IsFirst(c.defs, r) && !NothingEnters(c, r) ==>
          forall e, w: nat | e != NONE && 1 <= w < d.width :: EnteringLost(c, r, e, w))
  }

  /** Nothing computes on more bits than the extensions of its operands and its users need. */
  ghost predicate Tight(c: Circuit) {
    && Valid(c)
    && (forall v: nat | v < |c.defs| && c.defs[v].Node? :: NodeTight(c, v))
    && forall r: nat | r < |c.defs| && c.defs[r].Choice? :: ForwarderTight(c, r)
  }

  // ----- operations that no pattern changes -----

  lemma BinIsTight(c: Circuit, v: nat)
    requires Settled(c, true) && Settled(c, false) && v < |c.defs| && IsNode(c.defs, v) && IsFlat(c.defs, c.defs[v].e) && c.defs[v].e.Bin?
    ensures NodeTight(c, v)
  {
    var e := c.defs[v].e;
    ChildrenAreRefs(c.defs, e);
    assert Child(e, 0) == e.lhs && Child(e, 1) == e.rhs;
    ViewTyped(c.defs, v, true);
    ViewTyped(c.defs, v, false);
    var l, r, full := e.lhs.id, e.rhs.id, c.defs[v].Width();
    var a, b := ShapeSeen(c.defs, l, 0), ShapeSeen(c.defs, r, 1);
    assert NodeStep(c, v, true).None? && NodeStep(c, v, false).None?;
    OperandIsExactly(c.defs, l, 0, a);
    OperandIsExactly(c.defs, r, 1, b);
    assert TransferOf(e.op, a, b).bitWidth >= full;
    forall lm, rm, k, w: nat | OperandIs(c.defs, l, lm) && OperandIs(c.defs, r, rm) && lm.bitWidth >= 1 && rm.bitWidth >= 1
      && k != NONE && 1 <= w && w + Slack(e.op, lm, rm) < full
      ensures !Right(e.op, lm, rm, full, k, w)
    {
      OperandIsExactly(c.defs, l, 0, lm);
      OperandIsExactly(c.defs, r, 1, rm);
      LeastWidth(e.op, a, b, full, k, w);
    }
    NotWithin(c, v, e.op == Add || e.op == Sub);
  }

  lemma NotWithin(c: Circuit, v: nat, needed: bool)
    requires v < |c.defs| && (needed ==> Useful(c, v) >= c.defs[v].Width())
    ensures needed ==> forall k: nat | 1 <= k < c.defs[v].Width() :: !UsedWithin(c, v, k)
  {
    forall k: nat | needed && 1 <= k < c.defs[v].Width() ensures !UsedWithin(c, v, k) {
      if UsedWithin(c, v, k) {
        UsefulWithin(c, v, k);
      }
    }
  }

  lemma CmpIsTight(c: Circuit, v: nat)
    requires Settled(c, true) && v < |c.defs| && IsNode(c.defs, v) && IsFlat(c.defs, c.defs[v].e) && c.defs[v].e.Cmp?
    ensures NodeTight(c, v)
  {
    var e := c.defs[v].e;
    ChildrenAreRefs(c.defs, e);
    assert Child(e, 0) == e.lhs && Child(e, 1) == e.rhs;
    ViewTyped(c.defs, v, false);
    var l, r := e.lhs.id, e.rhs.id;
    var full := c.defs[l].Width();
    var a, b := ShapeSeen(c.defs, l, 0), ShapeSeen(c.defs, r, 1);
    assert NodeStep(c, v, true).None?;
    OperandIsExactly(c.defs, l, 0, a);
    OperandIsExactly(c.defs, r, 1, b);
    forall lm, rm, w: nat | OperandIs(c.defs, l, lm) && OperandIs(c.defs, r, rm) && lm.bitWidth >= 1 && rm.bitWidth >= 1
      && 1 <= w && w + CmpSlack(e.pred, lm, rm) < full
      ensures !CmpRight(e.pred, lm, rm, full, w)
    {
      OperandIsExactly(c.defs, l, 0, lm);
      OperandIsExactly(c.defs, r, 1, rm);
      LeastCmp(e.pred, a, b, full, w);
    }
  }

  lemma TruncIsTight(c: Circuit, v: nat)
    requires Settled(c, true) && v < |c.defs| && IsNode(c.defs, v) && IsFlat(c.defs, c.defs[v].e) && c.defs[v].e.Trunc?
    ensures NodeTight(c, v)
  {
    var e := c.defs[v].e;
    ChildrenAreRefs(c.defs, e);
    assert Child(e, 0) == e.arg;
    ViewTyped(c.defs, v, false);
    assert NodeStep(c, v, true).None?;
    forall m | OperandIs(c.defs, e.arg.id, m) ensures m.extType == NONE || m.bitWidth == e.to {
      OperandIsExactly(c.defs, e.arg.id, 0, m);
    }
  }

  /** A word of an operand that has no extension, or one to the same width. */
  lemma FullIsLost(defs: seq<Def>, x: nat, i: nat, e: ExtType, w: nat, full: nat)
    requires AllGood(defs) && x < |defs| && defs[x].Width() == full && ShapeSeen(defs, x, i).bitWidth >= full && e != NONE && 1 <= w < full
    ensures LostAt(defs, x, e, w, full)
  {
    var m := ShapeSeen(defs, x, i);
    OperandIsExactly(defs, x, i, m);
    var z := Probe(e, m.extType, w);
    ProbeFits(e, m, w);
    ProbeIsLost(e, m.extType, w, full);
    NarrowThenExtend(m, z, w);
    NarrowThenExtend(m, z, full);
    assert !Survives(m, e, w, Wrap(z, m.bitWidth), full);
  }

  lemma SelectIsTight(c: Circuit, v: nat)
    requires Settled(c, true) && Settled(c, false) && v < |c.defs| && IsNode(c.defs, v) && IsFlat(c.defs, c.defs[v].e)
    requires c.defs[v].e.Select?
    ensures NodeTight(c, v)
  {
    var e := c.defs[v].e;
    ChildrenAreRefs(c.defs, e);
    assert Child(e, 1) == e.onTrue && Child(e, 2) == e.onFalse;
    ViewTyped(c.defs, v, true);
    ViewTyped(c.defs, v, false);
    var l, r, full := e.onTrue.id, e.onFalse.id, c.defs[v].Width();
    var a, b := ShapeSeen(c.defs, l, 1), ShapeSeen(c.defs, r, 2);
    assert NodeStep(c, v, true).None? && NodeStep(c, v, false).None?;
    OperandIsExactly(c.defs, l, 1, a);
    OperandIsExactly(c.defs, r, 2, b);
    if forall lm, rm | OperandIs(c.defs, l, lm) && OperandIs(c.defs, r, rm) :: !IsMixed(lm, rm) && !IsMixed(rm, lm) {
      assert !IsMixed(a, b) && !IsMixed(b, a);
      forall k, w: nat | k != NONE && 1 <= w < full ensures LostAt(c.defs, l, k, w, full) || LostAt(c.defs, r, k, w, full) {
        if a.bitWidth >= full {
          FullIsLost(c.defs, l, 1, k, w, full);
        } else {
          FullIsLost(c.defs, r, 2, k, w, full);
        }
      }
      NotWithin(c, v, true);
    }
  }

  // ----- the circuit as a graph -----

  /** How many of the first `k` values are results of the operation. */
  function ResultsBefore(defs: seq<Def>, op: nat, k: nat): nat
    requires k <= |defs|
  {
    if k == 0 then 0 else ResultsBefore(defs, op, k - 1) + if defs[k - 1].Choice? && defs[k - 1].op == op then 1 else 0
  }

  lemma {:induction false} ResultsCounted(defs: seq<Def>, op: nat, k: nat)
    requires k <= |defs|
    ensures |Results(defs, op, k)| == ResultsBefore(defs, op, k)
  {
    if k > 0 {
      ResultsCounted(defs, op, k - 1);
    }
  }

  lemma {:induction false} ResultsGrow(defs: seq<Def>, op: nat, v: nat, u: nat)
    requires v < u <= |defs| && defs[v].Choice? && defs[v].op == op
    ensures ResultsBefore(defs, op, v) < ResultsBefore(defs, op, u)
    decreases u
  {
    if v < u - 1 {
      ResultsGrow(defs, op, v, u - 1);
    }
  }

  lemma ResultCounts(defs: seq<Def>, op: nat, v: nat, u: nat)
    requires v < u <= |defs| && defs[v].Choice? && defs[v].op == op
    ensures |Results(defs, op, v)| < |Results(defs, op, u)|
  {
    ResultsGrow(defs, op, v, u);
    ResultsCounted(defs, op, v);
    ResultsCounted(defs, op, u);
  }

  /** Different values of the circuit are different values of its graph. */
  lemma ToValueInjective(defs: seq<Def>, v: nat, u: nat)
    requires AllGood(defs) && v < |defs| && u < |defs| && ToValue(defs, v) == ToValue(defs, u)
    ensures v == u
  {
    assert GoodDef(defs, defs[v]) && GoodDef(defs, defs[u]);
    if defs[v].Choice? {
      if v < u {
        ResultCounts(defs, defs[v].op, v, u);
      } else if u < v {
        ResultCounts(defs, defs[v].op, u, v);
      }
    }
  }

  /** The values one of which is handed on. */
  function DataOf(d: Def): seq<nat> {
    match d
    case Source(_, _, _) => []
    case Node(e) => if e.Select? && e.onTrue.Var? && e.onFalse.Var? then [e.onTrue.id, e.onFalse.id] else []
    case Choice(_, data, _, _) => data
  }

  predicate AreValues(defs: seq<Def>, data: seq<nat>) {
    forall i | 0 <= i < |data| :: data[i] < |defs|
  }

  lemma NodeOpData(defs: seq<Def>, e: Expr)
    requires IsFlat(defs, e)
    ensures AreValues(defs, DataOf(Node(e))) && |DataOf(Node(e))| != 1 && !NodeOp(defs, e).Single?
    ensures Cycles.DataOperands(NodeOp(defs, e)) == ToValues(defs, DataOf(Node(e)))
  {
    ChildrenAreRefs(defs, e);
    assert e.Select? ==> Child(e, 1) == e.onTrue && Child(e, 2) == e.onFalse;
  }

  lemma ForwardOpData(defs: seq<Def>, d: Def)
    requires d.Choice? && GoodDef(defs, d)
    ensures AreValues(defs, d.data) && |d.data| >= 1 && d.op < |defs|
    ensures Cycles.IsForwarder(ForwardOp(defs, d)) && !ForwardOp(defs, d).Select? && (ForwardOp(defs, d).Single? <==> d.kind.Single?)
    ensures Cycles.DataOperands(ForwardOp(defs, d)) == ToValues(defs, d.data)
  {
  }

  lemma NodeShown(defs: seq<Def>, g: Cycles.Graph, v: nat, e: Expr)
    requires v < |defs| && defs[v] == Node(e) && IsFlat(defs, e) && |defs| + v in g && g[|defs| + v] == NodeOp(defs, e)
    ensures AreValues(defs, DataOf(defs[v]))
    ensures var x := ToValue(defs, v);
      && Cycles.HasDef(g, x) && !g[x.op].Single? && |Cycles.DataOperands(g[x.op])| != 1
      && Cycles.DataOperands(g[x.op]) == ToValues(defs, DataOf(defs[v]))
  {
    NodeOpData(defs, e);
  }

  lemma NodeInGraph(c: Circuit, g: Cycles.Graph, w: Cycles.Widths, v: nat)
    requires Shows(c, g, w) && v < |c.defs| && c.defs[v].Node?
    ensures AreValues(c.defs, DataOf(c.defs[v]))
    ensures var x := ToValue(c.defs, v);
      && Cycles.HasDef(g, x) && !g[x.op].Single? && |Cycles.DataOperands(g[x.op])| != 1
      && Cycles.DataOperands(g[x.op]) == ToValues(c.defs, DataOf(c.defs[v]))
  {
    NodeShown(c.defs, g, v, c.defs[v].e);
  }

  lemma ChoiceInGraph(c: Circuit, g: Cycles.Graph, w: Cycles.Widths, v: nat)
    requires Shows(c, g, w) && v < |c.defs| && c.defs[v].Choice?
    ensures AreValues(c.defs, c.defs[v].data) && c.defs[v].op < |c.defs| && |c.defs[v].data| >= 1
    ensures var x, d := ToValue(c.defs, v), c.defs[v];
      && Cycles.HasDef(g, x) && x.op == d.op && (g[x.op].Single? <==> d.kind.Single?)
      && Cycles.IsForwarder(g[x.op]) && !g[x.op].Select? && Cycles.DataOperands(g[x.op]) == ToValues(c.defs, d.data)
  {
    ForwardOpData(c.defs, c.defs[v]);
  }

  /** The graph shows of every value by which operation it is made, what that hands on, and whether it is a `Single` one. */
  lemma GraphExactly(c: Circuit, v: nat)
    requires Valid(c) && v < |c.defs|
    ensures AreValues(c.defs, DataOf(c.defs[v]))
    ensures var g, x := ToGraph(c.defs), ToValue(c.defs, v);
      && (Cycles.HasDef(g, x) <==> !c.defs[v].Source?)
      && (Cycles.HasDef(g, x) ==> Cycles.DataOperands(g[x.op]) == ToValues(c.defs, DataOf(c.defs[v])))
      && (Cycles.HasDef(g, x) ==> (g[x.op].Single? <==> c.defs[v].Choice? && c.defs[v].kind.Single?))
    ensures forall u: nat | u < |c.defs| && !c.defs[u].Source? && !c.defs[v].Source? ::
              ToValue(c.defs, u).op == ToValue(c.defs, v).op <==> u == v || SharesOp(c.defs, v, u)
  {
    GraphShows(c);
    if c.defs[v].Node? {
      NodeInGraph(c, ToGraph(c.defs), ToWidths(c.defs), v);
    } else if c.defs[v].Choice? {
      ChoiceInGraph(c, ToGraph(c.defs), ToWidths(c.defs), v);
    }
    if !c.defs[v].Source? {
      OpsAreNumbered(c, v);
    }
  }

  lemma OpsAreNumbered(c: Circuit, v: nat)
    requires AllGood(c.defs) && v < |c.defs| && !c.defs[v].Source?
    ensures forall u: nat | u < |c.defs| && !c.defs[u].Source? ::
              ToValue(c.defs, u).op == ToValue(c.defs, v).op <==> u == v || SharesOp(c.defs, v, u)
  {
    forall u: nat | u < |c.defs| && !c.defs[u].Source?
      ensures ToValue(c.defs, u).op == ToValue(c.defs, v).op <==> u == v || SharesOp(c.defs, v, u)
    {
      assert GoodDef(c.defs, c.defs[u]) && GoodDef(c.defs, c.defs[v]);
    }
  }

  /** One step of backtracking in a graph. */
  lemma BacktrackStep(g: Cycles.Graph, v: Cycles.Value, visited: set<nat>)
    requires Cycles.HasDef(g, v)
    ensures var op := g[v.op];
      var data := Cycles.DataOperands(op);
      CycleNarrowing.Backtrack(g, v, visited) ==
      if v.op in visited || |data| != 1 then v
      else if op.Single? then data[0]
      else CycleNarrowing.Backtrack(g, data[0], visited + {v.op})
  {
  }

  /** Backtracking in the circuit is backtracking in its graph. */
  lemma {:induction false} BacktrackInGraph(c: Circuit, g: Cycles.Graph, w: Cycles.Widths, x: nat, visited: set<nat>)
    requires Shows(c, g, w) && x < |c.defs|
    ensures BacktrackTo(c.defs, x, visited) < |c.defs|
    ensures CycleNarrowing.Backtrack(g, ToValue(c.defs, x), visited) == ToValue(c.defs, BacktrackTo(c.defs, x, visited))
    decreases Ids(|c.defs|) - visited
  {
    var d := c.defs[x];
    if d.Node? {
      NodeInGraph(c, g, w, x);
      BacktrackStep(g, ToValue(c.defs, x), visited);
    } else if d.Choice? {
      ChoiceInGraph(c, g, w, x);
      BacktrackStep(g, ToValue(c.defs, x), visited);
      assert ToValues(c.defs, d.data)[0] == ToValue(c.defs, d.data[0]);
      if d.op !in visited && |d.data| == 1 && !d.kind.Single? {
        assert d.op in Ids(|c.defs|) - visited && d.op !in Ids(|c.defs|) - (visited + {d.op});
        BacktrackInGraph(c, g, w, d.data[0], visited + {d.op});
      }
    }
  }

  lemma BehindIs(c: Circuit, x: nat, y: nat)
    requires Valid(c) && x < |c.defs| && y < |c.defs|
    ensures Behind(c, x, y) <==> y == BacktrackTo(c.defs, x, {})
  {
    GraphShows(c);
    BacktrackInGraph(c, ToGraph(c.defs), ToWidths(c.defs), x, {});
    BacktrackExactly(ToGraph(c.defs), ToValue(c.defs, x), ToValue(c.defs, y));
    if ToValue(c.defs, BacktrackTo(c.defs, x, {})) == ToValue(c.defs, y) {
      ToValueInjective(c.defs, BacktrackTo(c.defs, x, {}), y);
    }
  }

  // ----- shifts -----

  lemma ShrForwardTight(c: Circuit, v: nat, lm: ExtWidth, value: nat)
    requires Settled(c, true) && v < |c.defs| && IsNode(c.defs, v) && IsFlat(c.defs, c.defs[v].e) && c.defs[v].e.Shr?
    requires c.defs[v].e.lhs.Var? && c.defs[v].e.lhs.id < |c.defs| && OperandIs(c.defs, c.defs[v].e.lhs.id, lm)
    requires c.defs[v].e.amount.Var? && IsConst(c.defs, c.defs[v].e.amount.id, value) && value < c.defs[v].Width()
    ensures lm.bitWidth >= c.defs[v].Width() || (c.defs[v].e.arithmetic && lm.extType == ZEXT)
  {
    ViewTyped(c.defs, v, false);
    assert NodeStep(c, v, true).None?;
    OperandIsExactly(c.defs, c.defs[v].e.lhs.id, 0, lm);
  }

  lemma ShrBackwardTight(c: Circuit, v: nat, y: nat, value: nat, m: ExtWidth, k: nat)
    requires Settled(c, false) && v < |c.defs| && IsNode(c.defs, v) && IsFlat(c.defs, c.defs[v].e) && c.defs[v].e.Shr?
    requires c.defs[v].e.amount.Var? && c.defs[v].e.amount.id < |c.defs| && IsConst(c.defs, y, value) && OperandIs(c.defs, y, m)
    requires Behind(c, c.defs[v].e.amount.id, y) && k >= 1 && UsedWithin(c, v, k)
    ensures k + Wrap(value, m.bitWidth) >= c.defs[v].Width()
  {
    BehindIs(c, c.defs[v].e.amount.id, y);
    UsefulWithin(c, v, k);
    ViewTyped(c.defs, v, true);
    assert NodeStep(c, v, false).None?;
    assert GoodDef(c.defs, c.defs[y]);
    ConstIsExactly(value, c.defs[y].e.width, m);
  }

  lemma ShrIsTight(c: Circuit, v: nat)
    requires Settled(c, true) && Settled(c, false) && v < |c.defs| && IsNode(c.defs, v) && IsFlat(c.defs, c.defs[v].e) && c.defs[v].e.Shr?
    ensures NodeTight(c, v)
  {
    var e := c.defs[v].e;
    ChildrenAreRefs(c.defs, e);
    assert Child(e, 0) == e.lhs && Child(e, 1) == e.amount;
    forall lm, value: nat | OperandIs(c.defs, e.lhs.id, lm) && IsConst(c.defs, e.amount.id, value) && value < c.defs[v].Width()
      ensures lm.bitWidth >= c.defs[v].Width() || (e.arithmetic && lm.extType == ZEXT)
    {
      ShrForwardTight(c, v, lm, value);
    }
    forall y: nat, value: nat, m, k: nat |
      IsConst(c.defs, y, value) && Behind(c, e.amount.id, y) && OperandIs(c.defs, y, m) && k >= 1 && UsedWithin(c, v, k)
      ensures k + Wrap(value, m.bitWidth) >= c.defs[v].Width()
    {
      ShrBackwardTight(c, v, y, value, m, k);
    }
  }

  lemma NodeIsTight(c: Circuit, v: nat)
    requires Settled(c, true) && Settled(c, false) && v < |c.defs| && c.defs[v].Node?
    ensures NodeTight(c, v)
  {
    assert GoodDef(c.defs, c.defs[v]);
    match c.defs[v].e {
      case Bin(_, _, _) => BinIsTight(c, v);
      case Select(_, _, _) => SelectIsTight(c, v);
      case Shr(_, _, _) => ShrIsTight(c, v);
      case Cmp(_, _, _) => CmpIsTight(c, v);
      case Trunc(_, _) => TruncIsTight(c, v);
      case _ =>
    }
  }

  // ----- forwarding operations -----

  lemma ForwarderOf(c: Circuit, r: nat)
    requires Valid(c) && r < |c.defs| && c.defs[r].Choice?
    ensures GoodDef(c.defs, c.defs[r]) && c.defs[r].op < |c.defs| && IsForwarder(c.defs, c.defs[r].op)
    ensures ForwarderDef(c.defs, c.defs[r].op) == c.defs[r]
  {
    ForwarderIsThere(c.defs, r);
  }

  lemma DataIsLost(c: Circuit, r: nat, e: ExtType, w: nat)
    requires Settled(c, true) && r < |c.defs| && c.defs[r].Choice? && e != NONE && 1 <= w < c.defs[r].width
    ensures DataLost(c, r, e, w)
  {
    ForwarderOf(c, r);
    var d, defs := c.defs[r], c.defs;
    var shapes := DataShapes(defs, d.data);
    assert ForwarderStep(c, d.op, true).None?;
    forall i {:trigger shapes[i]} | 0 <= i < |shapes| ensures IsShape(shapes[i], d.width) && OperandIs(defs, d.data[i], shapes[i]) {
      OperandIsExactly(defs, d.data[i], 0, shapes[i]);
    }
    LeastForward(shapes, e, w, d.width);
    var k: nat, u: nat :| k < |shapes| && u < Pow2(shapes[k].bitWidth) && !Survives(shapes[k], e, w, u, d.width);
    assert LostAt(defs, d.data[k], e, w, d.width);
  }

  lemma {:induction false} UsefulOfReached(c: Circuit, rs: seq<nat>, w: nat) returns (i: nat)
    requires (forall i | 0 <= i < |rs| :: rs[i] < |c.defs|) && UsefulOf(c, rs) >= w >= 1
    ensures i < |rs| && Useful(c, rs[i]) >= w
  {
    var last := |rs| - 1;
    if Useful(c, rs[last]) >= w {
      i := last;
    } else {
      i := UsefulOfReached(c, rs[..last], w);
    }
  }

  lemma SomeResultNeeds(c: Circuit, r: nat, k: nat)
    requires Settled(c, false) && r < |c.defs| && c.defs[r].Choice? && 1 <= k < c.defs[r].width
    ensures SomeNeeds(c, r, k)
  {
    ForwarderOf(c, r);
    var d := c.defs[r];
    var rs := Results(c.defs, d.op, |c.defs|);
    assert ForwarderStep(c, d.op, false).None?;
    var i := UsefulOfReached(c, rs, d.width);
    if UsedWithin(c, rs[i], k) {
      UsefulWithin(c, rs[i], k);
    }
    assert SharesOp(c.defs, r, rs[i]);
  }

  // ----- cycles -----

  lemma {:induction false} FirstResult(defs: seq<Def>, r: nat, k: nat)
    requires IsFirst(defs, r) && k <= |defs|
    ensures k <= r ==> Results(defs, defs[r].op, k) == []
    ensures k > r ==> Results(defs, defs[r].op, k) != [] && Results(defs, defs[r].op, k)[0] == r
    decreases k
  {
    if k > 0 {
      FirstResult(defs, r, k - 1);
    }
  }

  lemma EntersExactly(c: Circuit, r: nat, x: Cycles.Value)
    requires Valid(c) && IsFirst(c.defs, r) && IsForwarder(c.defs, c.defs[r].op) && ForwarderDef(c.defs, c.defs[r].op) == c.defs[r]
    ensures Enters(c, r, x) <==> x in EnteringOf(c, c.defs[r].op)
  {
    FirstResult(c.defs, r, |c.defs|);
    assert GoodDef(c.defs, c.defs[r]);
    EnteringExactly(ToGraph(c.defs), ToValues(c.defs, c.defs[r].data), ToValue(c.defs, r), x);
  }

  /** All values of a walk have the same width. */
  lemma {:induction false} WalkWidths(g: Cycles.Graph, w: Cycles.Widths, walk: seq<Cycles.Value>)
    requires Cycles.WellTyped(g, w) && (forall k | k in g :: !g[k].ControlMerge?) && IsWalk(g, walk)
    ensures w(walk[0]) == w(walk[|walk| - 1])
    decreases |walk|
  {
    if |walk| > 1 {
      assert Cycles.HasDef(g, walk[0]) && walk[0 + 1] in Cycles.DataOperands(g[walk[0].op]);
      assert Cycles.Forwards(g, walk[0]);
      assert walk == [walk[0]] + walk[1..];
      WalkFrom(g, walk[0], walk[1..]);
      WalkWidths(g, w, walk[1..]);
    }
  }

  lemma DataWidths(c: Circuit, w: Cycles.Widths, r: nat, o: Cycles.Value)
    requires Valid(c) && r < |c.defs| && c.defs[r].Choice? && AreValues(c.defs, c.defs[r].data) && o in ToValues(c.defs, c.defs[r].data)
    requires forall v: nat | v < |c.defs| :: w(ToValue(c.defs, v)) == c.defs[v].Width()
    ensures w(o) == c.defs[r].width
  {
    assert GoodDef(c.defs, c.defs[r]);
    var i :| 0 <= i < |c.defs[r].data| && ToValues(c.defs, c.defs[r].data)[i] == o;
    assert o == ToValue(c.defs, c.defs[r].data[i]);
  }

  /** What joins the walks from some operands has their width. */
  lemma JoinsWidth(g: Cycles.Graph, w: Cycles.Widths, walk: seq<Cycles.Value>, res: Cycles.Value, m: Cycles.Value)
    requires Cycles.WellTyped(g, w) && (forall k | k in g :: !g[k].ControlMerge?) && walk != [] && Joins(g, walk, res, {}, m)
    ensures w(walk[0]) == w(m)
  {
    WalkOn(g, walk, m);
    WalkWidths(g, w, walk + [m]);
  }

  lemma EnteringWidth(c: Circuit, g: Cycles.Graph, w: Cycles.Widths, r: nat, x: nat)
    requires Valid(c) && Shows(c, g, w) && g == ToGraph(c.defs) && r < |c.defs| && c.defs[r].Choice? && x < |c.defs|
    requires Enters(c, r, ToValue(c.defs, x))
    ensures c.defs[x].Width() == c.defs[r].width
  {
    assert GoodDef(c.defs, c.defs[r]);
    var operands, res, m := ToValues(c.defs, c.defs[r].data), ToValue(c.defs, r), ToValue(c.defs, x);
    if m in operands {
      DataWidths(c, w, r, m);
    } else {
      var walk :| walk != [] && walk[0] in operands && Joins(g, walk, res, {}, m);
      JoinsWidth(g, w, walk, res, m);
      DataWidths(c, w, r, walk[0]);
    }
  }

  /** The minimal shape of a value in the graph is that of its definition. */
  lemma MinimalIs(c: Circuit, g: Cycles.Graph, w: Cycles.Widths, y: nat)
    requires Shows(c, g, w) && y < |c.defs|
    requires Cycles.HasDef(g, ToValue(c.defs, y)) && g[ToValue(c.defs, y).op].Constant? ==>
               g[ToValue(c.defs, y).op].width >= 1 && g[ToValue(c.defs, y).op].value < Pow2(g[ToValue(c.defs, y).op].width)
    ensures OperandIs(c.defs, y, CycleNarrowing.MinimalShape(g, w, ToValue(c.defs, y)))
  {
    var d := c.defs[y];
    assert GoodDef(c.defs, d);
    if d.Node? {
      ChildrenAreRefs(c.defs, d.e);
      if d.e.Const? {
        ConstIsExactly(d.e.value, d.e.width, CycleNarrowing.MinimalShape(g, w, ToValue(c.defs, y)));
      }
      if d.e.Ext? {
        assert Child(d.e, 0) == d.e.arg;
      }
    }
  }

  lemma ShapeBehindIs(c: Circuit, u: nat)
    requires Valid(c) && u < |c.defs|
    ensures var y := BacktrackTo(c.defs, u, {});
      && y < |c.defs| && Behind(c, u, y) && OperandIs(c.defs, y, ShapeBehind(c, u)) && IsShape(ShapeBehind(c, u), c.defs[u].Width())
  {
    var y := BacktrackTo(c.defs, u, {});
    BacktrackWidth(c.defs, u, {});
    BehindIs(c, u, y);
    GraphShows(c);
    BacktrackInGraph(c, ToGraph(c.defs), ToWidths(c.defs), u, {});
    GraphTyped(c);
    MinimalIs(c, ToGraph(c.defs), ToWidths(c.defs), y);
    OperandIsExactly(c.defs, y, 0, ShapeBehind(c, u));
  }

  /** Where a shape of the cycle comes from. */
  lemma EnteringShape(c: Circuit, r: nat, s: ExtWidth) returns (u: nat)
    requires Valid(c) && IsFirst(c.defs, r) && IsForwarder(c.defs, c.defs[r].op) && ForwarderDef(c.defs, c.defs[r].op) == c.defs[r]
    requires s in ShapesBelow(c, EnteringOf(c, c.defs[r].op), |c.defs|)
    ensures u < |c.defs| && Enters(c, r, ToValue(c.defs, u)) && IsShape(s, c.defs[r].width)
    ensures var y := BacktrackTo(c.defs, u, {}); y < |c.defs| && Behind(c, u, y) && OperandIs(c.defs, y, s)
  {
    u := ShapeIsOfEntering(c, EnteringOf(c, c.defs[r].op), |c.defs|, s);
    EntersExactly(c, r, ToValue(c.defs, u));
    ShapeBehindIs(c, u);
    GraphShows(c);
    EnteringWidth(c, ToGraph(c.defs), ToWidths(c.defs), r, u);
  }

  function ShapesOfCycle(c: Circuit, r: nat): seq<ExtWidth>
    requires Valid(c) && r < |c.defs| && c.defs[r].Choice? && IsForwarder(c.defs, c.defs[r].op)
  {
    ShapesBelow(c, EnteringOf(c, c.defs[r].op), |c.defs|)
  }

  lemma CycleHasShapes(c: Circuit, r: nat)
    requires Valid(c) && IsFirst(c.defs, r) && IsForwarder(c.defs, c.defs[r].op) && ForwarderDef(c.defs, c.defs[r].op) == c.defs[r]
    requires !NothingEnters(c, r)
    ensures ShapesOfCycle(c, r) != [] && AllShapes(ShapesOfCycle(c, r), c.defs[r].width)
  {
    var shapes := ShapesOfCycle(c, r);
    var x :| Enters(c, r, x);
    EntersExactly(c, r, x);
    EnteringAreValues(c, c.defs[r].op, x);
    var v :| 0 <= v < |c.defs| && ToValue(c.defs, v) == x;
    EnteringHasShape(c, EnteringOf(c, c.defs[r].op), |c.defs|, v);
    forall k {:trigger shapes[k]} | 0 <= k < |shapes| ensures IsShape(shapes[k], c.defs[r].width) {
      var u := EnteringShape(c, r, shapes[k]);
    }
  }

  lemma CycleNotNarrower(c: Circuit, r: nat)
    requires Settled(c, true) && IsFirst(c.defs, r) && IsForwarder(c.defs, c.defs[r].op) && ForwarderDef(c.defs, c.defs[r].op) == c.defs[r]
    requires c.defs[r].op < |c.defs| && c.defs[r].kind.MergeLike?
    requires ShapesOfCycle(c, r) != [] && AllShapes(ShapesOfCycle(c, r), c.defs[r].width)
    ensures ForwardShape(ShapesOfCycle(c, r)).bitWidth >= c.defs[r].width
  {
    assert ForwarderStep(c, c.defs[r].op, true).None?;
    var shapes := ShapesOfCycle(c, r);
    var k := WidestExists(shapes);
    assert IsShape(shapes[k], c.defs[r].width);
  }

  lemma EnteringIsLost(c: Circuit, r: nat, e: ExtType, w: nat)
    requires Settled(c, true) && IsFirst(c.defs, r) && c.defs[r].kind.MergeLike? && !NothingEnters(c, r)
    requires e != NONE && 1 <= w < c.defs[r].width
    ensures EnteringLost(c, r, e, w)
  {
    ForwarderOf(c, r);
    CycleHasShapes(c, r);
    CycleNotNarrower(c, r);
    var shapes, full := ShapesOfCycle(c, r), c.defs[r].width;
    LeastForward(shapes, e, w, full);
    var k: nat, word: nat :| k < |shapes| && word < Pow2(shapes[k].bitWidth) && !Survives(shapes[k], e, w, word, full);
    var u := EnteringShape(c, r, shapes[k]);
    assert LostAt(c.defs, BacktrackTo(c.defs, u, {}), e, w, full);
  }

  // ----- the circuit -----

  lemma ForwarderIsTight(c: Circuit, r: nat)
    requires Settled(c, true) && Settled(c, false) && r < |c.defs| && c.defs[r].Choice?
    ensures ForwarderTight(c, r)
  {
    var d := c.defs[r];
    forall e, w: nat | e != NONE && 1 <= w < d.width ensures DataLost(c, r, e, w) {
      DataIsLost(c, r, e, w);
    }
    forall k: nat | 1 <= k < d.width ensures SomeNeeds(c, r, k) {
      SomeResultNeeds(c, r, k);
    }
    if d.kind.MergeLike? && IsFirst(c.defs, r) && !NothingEnters(c, r) {
      forall e, w: nat | e != NONE && 1 <= w < d.width ensures EnteringLost(c, r, e, w) {
        EnteringIsLost(c, r, e, w);
      }
    }
  }

  /** Where no pattern of either pass applies, nothing computes on more bits than the extensions of its operands and its users need. */
  lemma SettledIsTight(c: Circuit)
    requires Settled(c, true) && Settled(c, false)
    ensures Tight(c)
  {
    forall v: nat | v < |c.defs| && c.defs[v].Node? ensures NodeTight(c, v) {
      NodeIsTight(c, v);
    }
    forall r: nat | r < |c.defs| && c.defs[r].Choice? ensures ForwarderTight(c, r) {
      ForwarderIsTight(c, r);
    }
  }

  /** For example: a conjunction has no more bits than one of its operands is zero-extended from. */
  lemma AndIsNarrow(c: Circuit, v: nat, n: nat)
    requires Tight(c) && v < |c.defs| && c.defs[v].Node? && c.defs[v].e.Bin? && c.defs[v].e.op == BinOp.Bits(And)
    requires IsFlat(c.defs, c.defs[v].e) && c.defs[v].e.lhs.Var? && c.defs[v].e.lhs.id < |c.defs| && c.defs[v].e.rhs.Var?
    requires c.defs[v].e.rhs.id < |c.defs|
    requires OperandIs(c.defs, c.defs[v].e.lhs.id, ExtWidth(ZEXT, n)) || OperandIs(c.defs, c.defs[v].e.rhs.id, ExtWidth(ZEXT, n))
    ensures c.defs[v].Width() <= n
  {
    var defs, l, r, full := c.defs, c.defs[v].e.lhs.id, c.defs[v].e.rhs.id, c.defs[v].Width();
    ChildrenAreRefs(defs, defs[v].e);
    assert Child(defs[v].e, 0) == defs[v].e.lhs && Child(defs[v].e, 1) == defs[v].e.rhs;
    var a, b := ShapeSeen(defs, l, 0), ShapeSeen(defs, r, 1);
    OperandIsExactly(defs, l, 0, a);
    OperandIsExactly(defs, r, 1, b);
    OperandIsExactly(defs, l, 0, ExtWidth(ZEXT, n));
    OperandIsExactly(defs, r, 1, ExtWidth(ZEXT, n));
    var t := TransferOf(BinOp.Bits(And), a, b);
    if t.bitWidth < full {
      forall x: nat, y: nat | x < Pow2(a.bitWidth) && y < Pow2(b.bitWidth)
        ensures RightOn(BinOp.Bits(And), a, b, full, ZEXT, t.bitWidth, x, y)
      {
        ForwardSound(BinOp.Bits(And), a, b, x, y, full);
      }
      assert NodeTight(c, v);
      assert Right(BinOp.Bits(And), a, b, full, ZEXT, t.bitWidth);
    }
  }
}
