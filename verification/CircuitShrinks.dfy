/** Every rewrite keeps a circuit valid and makes it smaller: no infinite sequence of rewrites exists. */
module CircuitShrinks {
  import opened Basics
  import opened Words
  import opened Transfer
  import opened Scalar
  import opened DataForward
  import opened Expressions
  import opened RewriteSound
  import opened PatternCosts
  import opened Circuits
  import opened CircuitSteps
  import opened IdleExtensions

  // ----- rewritten expressions can be placed -----

  /** Variables have the widths given; nothing forwards. */
  predicate Closed(e: Expr, w: nat -> nat) {
    && (e.Var? ==> e.width == w(e.id)) && !IsRouted(e)
    && forall i: nat | i < Arity(e) :: Closed(Child(e, i), w)
  }

  lemma MinimalClosed(e: Expr, w: nat -> nat, k: nat)
    requires WellTyped(e) && Closed(e, w)
    ensures Closed(GetMinimalValue(e).repr, w) && Closed(Modify(GetMinimalValue(e), k), w)
  {
    if e.Ext? {
      assert Closed(Child(e, 0), w);
    }
    ModifyClosed(GetMinimalValue(e), w, k);
  }

  lemma ModifyClosed(m: MinimalValue, w: nat -> nat, k: nat)
    requires Closed(m.repr, w)
    ensures Closed(Modify(m, k), w)
  {
  }

  lemma BinClosed(op: BinOp, p: Pred, arithmetic: bool, l: Expr, r: Expr, w: nat -> nat)
    requires Closed(l, w) && Closed(r, w)
    ensures Closed(Bin(op, l, r), w) && Closed(Cmp(p, l, r), w) && Closed(Shr(arithmetic, l, r), w)
  {
  }

  lemma SelectClosed(c: Expr, t: Expr, f: Expr, w: nat -> nat)
    requires Closed(c, w) && Closed(t, w) && Closed(f, w)
    ensures Closed(Select(c, t, f), w)
  {
  }

  lemma NarrowBinClosed(e: Expr, w: nat -> nat, k: nat, ext: ExtType)
    requires WellTyped(e) && e.Bin? && Closed(e, w)
    ensures Closed(NarrowBin(e.op, GetMinimalValue(e.lhs), GetMinimalValue(e.rhs), k, ext, Width(e)), w)
  {
    assert Closed(Child(e, 0), w) && Closed(Child(e, 1), w);
    var l, r := GetMinimalValue(e.lhs), GetMinimalValue(e.rhs);
    MinimalClosed(e.lhs, w, k);
    MinimalClosed(e.rhs, w, k);
    BinClosed(e.op, EQ, false, Modify(l, k), Modify(r, k), w);
    ModifyClosed(MinimalValue(ext, Bin(e.op, Modify(l, k), Modify(r, k))), w, Width(e));
  }

  lemma ArithSelectClosed(e: Expr, w: nat -> nat, k: nat)
    requires WellTyped(e) && e.Select? && Closed(e, w) && ArithSelect(e, k).Some?
    ensures Closed(ArithSelect(e, k).value, w)
  {
    assert Closed(Child(e, 0), w) && Closed(Child(e, 1), w) && Closed(Child(e, 2), w);
    var l, r := GetMinimalValue(e.onTrue), GetMinimalValue(e.onFalse);
    MinimalClosed(e.onTrue, w, k);
    MinimalClosed(e.onFalse, w, k);
    SelectClosed(e.cond, Modify(l, k), Modify(r, k), w);
    ModifyClosed(MinimalValue(l.extType, Select(e.cond, Modify(l, k), Modify(r, k))), w, Width(e));
  }

  lemma ShrClosed(e: Expr, w: nat -> nat)
    requires WellTyped(e) && e.Shr? && Closed(e, w) && ForwardPattern(e).Some?
    ensures Closed(ForwardPattern(e).value, w)
  {
    assert Closed(Child(e, 0), w) && Closed(Child(e, 1), w);
    var l := GetMinimalValue(e.lhs);
    var m, c, full := Width(l.repr), e.amount.value, Width(e);
    MinimalClosed(e.lhs, w, m);
    ModifyClosed(MinimalValue(NONE, e.amount), w, m);
    var amount := if c < m then Modify(MinimalValue(NONE, e.amount), m) else Const(m, m - 1);
    BinClosed(Add, EQ, e.arithmetic, l.repr, amount, w);
    var s := Shr(e.arithmetic, l.repr, amount);
    ChainClosed(s, w, if c < m then m - c else 1, full - c, full);
    ModifyClosed(MinimalValue(if e.arithmetic then SEXT else ZEXT, s), w, full);
  }

  lemma ChainClosed(s: Expr, w: nat -> nat, cut: nat, signs: nat, full: nat)
    requires Closed(s, w)
    ensures Closed(Ext(ZEXT, full, Ext(SEXT, signs, Trunc(cut, s))), w) && Closed(Ext(SEXT, full, s), w)
  {
    assert Closed(Trunc(cut, s), w);
    assert Closed(Ext(SEXT, signs, Trunc(cut, s)), w);
  }

  /** A pattern yields an operation on variables it was given. */
  lemma ForwardClosed(e: Expr, w: nat -> nat)
    requires WellTyped(e) && Closed(e, w) && ForwardPattern(e).Some?
    ensures Closed(ForwardPattern(e).value, w) && !ForwardPattern(e).value.Var?
  {
    match e {
      case Bin(op, l, r) =>
        var t := TransferOf(op, GetMinimalValue(l).Shape(), GetMinimalValue(r).Shape());
        NarrowBinClosed(e, w, t.bitWidth, t.extType);
        BinWidth(e, t.bitWidth);
      case Select(_, t, f) =>
        var k := Max(GetMinimalValue(t).Shape().bitWidth, GetMinimalValue(f).Shape().bitWidth);
        ArithSelectClosed(e, w, k);
      case Shr(_, _, _) => ShrClosed(e, w);
      case Cmp(p, l, r) =>
        assert Closed(Child(e, 0), w) && Closed(Child(e, 1), w);
        var k := CmpWidth(p, GetMinimalValue(l).Shape(), GetMinimalValue(r).Shape());
        MinimalClosed(l, w, k);
        MinimalClosed(r, w, k);
        BinClosed(Add, p, false, Modify(GetMinimalValue(l), k), Modify(GetMinimalValue(r), k), w);
      case Trunc(to, a) =>
        assert Closed(Child(e, 0), w);
        MinimalClosed(a, w, to);
      case _ =>
    }
  }

  lemma BinWidth(e: Expr, k: nat)
    requires WellTyped(e) && e.Bin?
    ensures Width(Modify(GetMinimalValue(e.lhs), k)) == k
  {
  }

  lemma BackwardClosed(e: Expr, useful: nat, w: nat -> nat)
    requires WellTyped(e) && Closed(e, w) && useful >= 1 && BackwardPattern(e, useful).Some?
    ensures Closed(BackwardPattern(e, useful).value, w) && !BackwardPattern(e, useful).value.Var?
  {
    match e {
      case Bin(op, l, r) =>
        if op.Add? || op.Sub? {
          NarrowBinClosed(e, w, useful, ZEXT);
          BinWidth(e, useful);
        } else {
          ForwardClosed(e, w);
        }
      case Select(_, _, _) => ArithSelectClosed(e, w, useful);
      case Shr(_, _, _) => ShiftBWClosed(e, useful, w);
      case _ =>
    }
  }

  lemma ShiftBWClosed(e: Expr, useful: nat, w: nat -> nat)
    requires WellTyped(e) && e.Shr? && Closed(e, w) && useful >= 1 && ArithShiftBW(e, useful).Some?
    ensures Closed(ArithShiftBW(e, useful).value, w) && !ArithShiftBW(e, useful).value.Var?
  {
    assert Closed(Child(e, 0), w) && Closed(Child(e, 1), w);
    var m, c := GetMinimalValue(e.lhs), GetMinimalValue(e.amount);
    var k := useful + c.repr.value;
    MinimalClosed(e.lhs, w, k);
    MinimalClosed(e.amount, w, k);
    BinClosed(Add, EQ, e.arithmetic, Modify(m, k), Modify(c, k), w);
    ModifyClosed(MinimalValue(m.extType, Shr(e.arithmetic, Modify(m, k), Modify(c, k))), w, Width(e));
  }

  ghost predicate Leaves(defs: seq<Def>, leaf: nat -> nat, w: nat -> nat) {
    forall i | w(i) >= 1 :: leaf(i) < |defs| && defs[leaf(i)].Width() == w(i)
  }

  lemma {:induction false} RenameKeeps(e: Expr, leaf: nat -> nat)
    ensures Width(Rename(e, leaf)) == Width(e) && Arity(Rename(e, leaf)) == Arity(e)
    ensures forall i: nat | i < Arity(e) :: Child(Rename(e, leaf), i) == Rename(Child(e, i), leaf)
    ensures (Rename(e, leaf).Var? <==> e.Var?) && (IsRouted(Rename(e, leaf)) <==> IsRouted(e))
    ensures OwnCompute(Rename(e, leaf)) == OwnCompute(e) && OwnTrunc(Rename(e, leaf)) == OwnTrunc(e)
    ensures IsIdle(Rename(e, leaf)) <==> IsIdle(e)
  {
    forall i: nat | i < Arity(e) ensures Width(Rename(Child(e, i), leaf)) == Width(Child(e, i)) {
      RenameKeeps(Child(e, i), leaf);
    }
    match e {
      case Ext(_, _, a) => assert Child(e, 0) == a;
      case Trunc(_, a) => assert Child(e, 0) == a;
      case Bin(_, l, _) => assert Child(e, 0) == l;
      case Select(_, t, _) => assert Child(e, 1) == t;
      case Shr(_, l, _) => assert Child(e, 0) == l;
      case Cmp(_, l, _) => assert Child(e, 0) == l;
      case Forward(a) => assert Child(e, 0) == a;
      case Steered(_, c, a) => assert Child(e, 0) == a && Child(e, 1) == c;
      case _ =>
    }
  }

  lemma {:induction false} RenamedPlaceable(defs: seq<Def>, e: Expr, leaf: nat -> nat, w: nat -> nat)
    requires WellTyped(e) && Closed(e, w) && Leaves(defs, leaf, w)
    ensures Placeable(defs, Rename(e, leaf))
  {
    RenameKeeps(e, leaf);
    forall i: nat | i < Arity(e) ensures Placeable(defs, Rename(Child(e, i), leaf)) {
      ChildrenTyped(e, i);
      RenamedPlaceable(defs, Child(e, i), leaf, w);
    }
    RenamedTyped(e, leaf);
  }

  lemma {:induction false} RenamedTyped(e: Expr, leaf: nat -> nat)
    requires WellTyped(e)
    ensures WellTyped(Rename(e, leaf)) && Width(Rename(e, leaf)) == Width(e)
  {
    forall i: nat | i < Arity(e) ensures WellTyped(Rename(Child(e, i), leaf)) && Width(Rename(Child(e, i), leaf)) == Width(Child(e, i)) {
      ChildrenTyped(e, i);
      RenamedTyped(Child(e, i), leaf);
    }
    match e {
      case Ext(_, _, a) => assert Child(e, 0) == a;
      case Trunc(_, a) => assert Child(e, 0) == a;
      case Bin(_, l, r) => assert Child(e, 0) == l && Child(e, 1) == r;
      case Select(c, t, f) => assert Child(e, 0) == c && Child(e, 1) == t && Child(e, 2) == f;
      case Shr(_, l, r) => assert Child(e, 0) == l && Child(e, 1) == r;
      case Cmp(_, l, r) => assert Child(e, 0) == l && Child(e, 1) == r;
      case Forward(a) => assert Child(e, 0) == a;
      case Steered(_, c, a) => assert Child(e, 0) == a && Child(e, 1) == c;
      case _ =>
    }
  }

  lemma {:induction false} RenamedTotals(e: Expr, leaf: nat -> nat)
    ensures ComputeWidth(Rename(e, leaf)) == ComputeWidth(e) && TruncWidth(Rename(e, leaf)) == TruncWidth(e)
  {
    RenameKeeps(e, leaf);
    forall i: nat | i < Arity(e)
      ensures ComputeWidth(Rename(Child(e, i), leaf)) == ComputeWidth(Child(e, i))
      ensures TruncWidth(Rename(Child(e, i), leaf)) == TruncWidth(Child(e, i))
    {
      RenamedTotals(Child(e, i), leaf);
    }
  }

  // ----- replacing an operation -----

  /** What an operation and what its view cost is the same: extensions and constants do not compute. */
  lemma ViewCosts(defs: seq<Def>, v: nat, behind: bool)
    requires IsNode(defs, v)
    ensures ComputeWidth(View(defs, v, behind)) == OwnCompute(defs[v].e)
    ensures TruncWidth(View(defs, v, behind)) == OwnTrunc(defs[v].e)
  {
    var e := defs[v].e;
    var view := View(defs, v, behind);
    assert GoodDef(defs, defs[v]);
    ChildrenAreRefs(defs, e);
    ViewTyped(defs, v, behind);
    forall i: nat | i < Arity(e) ensures ComputeWidth(Child(view, i)) == 0 && TruncWidth(Child(view, i)) == 0 && Width(Child(view, i)) == Child(e, i).width {
      ViewChild(defs, v, behind, i);
    }
    match e {
      case Bin(_, l, _) => assert Child(view, 0) == view.lhs && Child(e, 0) == l;
      case Select(_, t, _) => assert Child(view, 1) == view.onTrue && Child(e, 1) == t;
      case Shr(_, l, _) => assert Child(view, 0) == view.lhs && Child(e, 0) == l;
      case Cmp(_, l, _) => assert Child(view, 0) == view.lhs && Child(e, 0) == l;
      case Trunc(_, a) => assert Child(view, 0) == view.arg && Child(e, 0) == a;
      case _ =>
    }
  }

  /** An operand in a view is a variable, a constant or the extension of a variable. */
  lemma ViewChild(defs: seq<Def>, v: nat, behind: bool, i: nat)
    requires IsNode(defs, v) && i < Arity(defs[v].e)
    ensures var c := Child(View(defs, v, behind), i);
      && Width(c) == Width(Child(defs[v].e, i)) && ComputeWidth(c) == 0 && TruncWidth(c) == 0
      && Closed(c, WidthOf(defs, v))
      && (c.Var? || c.Const? || (c.Ext? && c.arg.Var?))
  {
    var e := defs[v].e;
    assert GoodDef(defs, defs[v]);
    ChildrenAreRefs(defs, e);
    var x := Child(e, i).id;
    assert GoodDef(defs, defs[x]);
    OperandViewTyped(defs, x, i);
    if defs[x].Node? && defs[x].e.Ext? {
      ChildrenAreRefs(defs, defs[x].e);
      ResizeTotals(defs[x].e.kind, defs[x].e.to, Var(i, defs[x].e.arg.width));
    }
    if e.Shr? {
      BacktrackWidth(defs, e.amount.id, {});
    }
  }

  lemma ViewClosed(defs: seq<Def>, v: nat, behind: bool)
    requires IsNode(defs, v)
    ensures Closed(View(defs, v, behind), WidthOf(defs, v))
  {
    assert GoodDef(defs, defs[v]);
    forall i: nat | i < Arity(defs[v].e) ensures Closed(Child(View(defs, v, behind), i), WidthOf(defs, v)) {
      ViewChild(defs, v, behind, i);
    }
  }

  lemma LeavesAre(defs: seq<Def>, v: nat)
    requires IsNode(defs, v)
    ensures Leaves(defs, LeafOf(defs, v), WidthOf(defs, v))
  {
    var e := defs[v].e;
    assert GoodDef(defs, defs[v]);
    ChildrenAreRefs(defs, e);
    forall i: nat ensures Leaf(defs, v, i) < |defs| {
      if i < Arity(e) {
        OperandViewTyped(defs, Child(e, i).id, i);
      }
    }
  }

  lemma ReplaceValid(c: Circuit, v: nat, e: Expr)
    requires Valid(c) && v < |c.defs| && c.defs[v].Node? && Placeable(c.defs, e) && !e.Var? && Width(e) == c.defs[v].Width()
    ensures Valid(Replace(c, v, e)) && SameWidths(c.defs, Replace(c, v, e).defs)
    ensures var (more, flat) := PutChildren(c.defs, e);
      Extends(c.defs, more) && IsFlat(more, flat) && Width(flat) == Width(e) && Replace(c, v, e).defs == more[v := Node(flat)]
  {
    PutChildrenGood(c.defs, e);
    var (more, flat) := PutChildren(c.defs, e);
    var defs := more[v := Node(flat)];
    assert SameWidths(more, defs) && SameWidths(c.defs, more);
    forall u | 0 <= u < |defs| ensures GoodDef(defs, defs[u]) {
      if u != v {
        assert u < |c.defs| ==> more[u] == c.defs[u] && GoodDef(c.defs, c.defs[u]);
        if u < |c.defs| {
          GoodStays(c.defs, more, more[u]);
        }
        GoodStays(more, defs, more[u]);
      } else {
        GoodStays(more, defs, Node(flat));
      }
    }
  }

  lemma ReplaceSums(c: Circuit, v: nat, e: Expr)
    requires Valid(c) && v < |c.defs| && c.defs[v].Node? && Placeable(c.defs, e) && !e.Var? && Width(e) == c.defs[v].Width()
    ensures Sum(ComputeOf, Replace(c, v, e).defs) + OwnCompute(c.defs[v].e) == Sum(ComputeOf, c.defs) + ComputeWidth(e)
    ensures Sum(TruncOf, Replace(c, v, e).defs) + OwnTrunc(c.defs[v].e) == Sum(TruncOf, c.defs) + TruncWidth(e)
  {
    ReplaceValid(c, v, e);
    ComputeIsSame();
    var (more, flat) := PutChildren(c.defs, e);
    PutChildrenSum(ComputeOf, OwnCompute, c.defs, e);
    PutChildrenSum(TruncOf, OwnTrunc, c.defs, e);
    SumUpdate(ComputeOf, more, v, Node(flat));
    SumUpdate(TruncOf, more, v, Node(flat));
  }

  // ----- extensions that do not extend -----

  /** Only on what is computed. */
  predicate IdleOnComputed(e: Expr) {
    (IsIdle(e) ==> !e.arg.Var?) && forall i: nat | i < Arity(e) :: IdleOnComputed(Child(e, i))
  }

  lemma {:induction false} RenamedIdle(e: Expr, leaf: nat -> nat)
    requires IdleOnComputed(e)
    ensures IdleOnComputed(Rename(e, leaf))
  {
    RenameKeeps(e, leaf);
    forall i: nat | i < Arity(e) ensures IdleOnComputed(Rename(Child(e, i), leaf)) {
      RenamedIdle(Child(e, i), leaf);
    }
    if e.Ext? {
      RenameKeeps(e.arg, leaf);
    }
  }

  /** Extensions added after the first `n` definitions that do not extend are on later but earlier added ones. */
  predicate FreshOrdered(defs: seq<Def>, n: nat) {
    forall v | n <= v < |defs| && defs[v].Node? && IsIdle(defs[v].e) :: defs[v].e.arg.Var? && n <= defs[v].e.arg.id < v
  }

  lemma {:induction false} PutOrdered(defs: seq<Def>, n: nat, e: Expr)
    requires FreshOrdered(defs, n) && IdleOnComputed(e) && n <= |defs|
    ensures var (more, x) := Put(defs, e);
      FreshOrdered(more, n) && |defs| <= |more| && Width(x) == Width(e) && x.Var? && (!e.Var? ==> n <= x.id < |more|)
    decreases e, 1
  {
    if !e.Var? {
      PutChildrenOrdered(defs, n, e);
    }
  }

  lemma {:induction false} PutChildrenOrdered(defs: seq<Def>, n: nat, e: Expr)
    requires FreshOrdered(defs, n) && IdleOnComputed(e) && n <= |defs|
    ensures var (more, flat) := PutChildren(defs, e);
      && FreshOrdered(more, n) && |defs| <= |more| && Width(flat) == Width(e) && (IsIdle(flat) <==> IsIdle(e))
      && (IsIdle(flat) ==> flat.arg.Var? && n <= flat.arg.id < |more|)
    decreases e, 0
  {
    if Arity(e) >= 1 {
      PutOrdered(defs, n, Child(e, 0));
      var (one, a) := Put(defs, Child(e, 0));
      if Arity(e) >= 2 {
        PutOrdered(one, n, Child(e, 1));
        var (two, b) := Put(one, Child(e, 1));
        if Arity(e) == 3 {
          PutOrdered(two, n, Child(e, 2));
        }
      }
    }
  }

  lemma MinimalIdle(e: Expr, k: nat)
    requires IsSimple(e)
    ensures IdleOnComputed(GetMinimalValue(e).repr) && IdleOnComputed(Modify(GetMinimalValue(e), k))
  {
    ModifyIdle(GetMinimalValue(e), k);
  }

  lemma ModifyIdle(m: MinimalValue, k: nat)
    requires IdleOnComputed(m.repr)
    ensures IdleOnComputed(Modify(m, k))
  {
  }

  predicate IsSimple(e: Expr) {
    WellTyped(e) && (e.Var? || e.Const? || (e.Ext? && e.arg.Var?))
  }

  lemma OpIdle(op: BinOp, p: Pred, arithmetic: bool, l: Expr, r: Expr)
    requires IdleOnComputed(l) && IdleOnComputed(r)
    ensures IdleOnComputed(Bin(op, l, r)) && IdleOnComputed(Cmp(p, l, r)) && IdleOnComputed(Shr(arithmetic, l, r))
  {
  }

  lemma NarrowBinIdle(e: Expr, k: nat, ext: ExtType)
    requires WellTyped(e) && e.Bin? && IsSimple(e.lhs) && IsSimple(e.rhs)
    ensures IdleOnComputed(NarrowBin(e.op, GetMinimalValue(e.lhs), GetMinimalValue(e.rhs), k, ext, Width(e)))
  {
    var l, r := GetMinimalValue(e.lhs), GetMinimalValue(e.rhs);
    MinimalIdle(e.lhs, k);
    MinimalIdle(e.rhs, k);
    OpIdle(e.op, EQ, false, Modify(l, k), Modify(r, k));
    ModifyIdle(MinimalValue(ext, Bin(e.op, Modify(l, k), Modify(r, k))), Width(e));
  }

  lemma ArithSelectIdle(e: Expr, k: nat)
    requires WellTyped(e) && e.Select? && e.cond.Var? && IsSimple(e.onTrue) && IsSimple(e.onFalse) && ArithSelect(e, k).Some?
    ensures IdleOnComputed(ArithSelect(e, k).value)
  {
    var l, r := GetMinimalValue(e.onTrue), GetMinimalValue(e.onFalse);
    MinimalIdle(e.onTrue, k);
    MinimalIdle(e.onFalse, k);
    var s := Select(e.cond, Modify(l, k), Modify(r, k));
    assert IdleOnComputed(s);
    ModifyIdle(MinimalValue(l.extType, s), Width(e));
  }

  lemma ShrIdle(e: Expr)
    requires WellTyped(e) && e.Shr? && IsSimple(e.lhs) && ForwardPattern(e).Some?
    ensures IdleOnComputed(ForwardPattern(e).value)
  {
    var l := GetMinimalValue(e.lhs);
    var m, c, full := Width(l.repr), e.amount.value, Width(e);
    MinimalIdle(e.lhs, m);
    ModifyIdle(MinimalValue(NONE, e.amount), m);
    var amount := if c < m then Modify(MinimalValue(NONE, e.amount), m) else Const(m, m - 1);
    OpIdle(Add, EQ, e.arithmetic, l.repr, amount);
    var s := Shr(e.arithmetic, l.repr, amount);
    assert Modify(MinimalValue(NONE, l.repr), m) == l.repr;
    ModifyIdle(MinimalValue(if e.arithmetic then SEXT else ZEXT, s), full);
    SignChainIdle(s, if c < m then m - c else 1, full - c, full);
  }

  lemma SignChainIdle(s: Expr, cut: nat, signs: nat, full: nat)
    requires IdleOnComputed(s) && !s.Var?
    ensures IdleOnComputed(Ext(ZEXT, full, Ext(SEXT, signs, Trunc(cut, s)))) && IdleOnComputed(Ext(SEXT, full, s))
  {
    assert IdleOnComputed(Trunc(cut, s));
    assert IdleOnComputed(Ext(SEXT, signs, Trunc(cut, s)));
  }

  /** Extensions that do not extend arise only in shifts, on what is shifted. */
  lemma ForwardIdle(e: Expr)
    requires WellTyped(e) && ForwardPattern(e).Some?
    requires (forall i: nat | i < Arity(e) :: IsSimple(Child(e, i))) && (e.Select? ==> e.cond.Var?)
    ensures IdleOnComputed(ForwardPattern(e).value)
  {
    match e {
      case Bin(op, l, r) =>
        assert Child(e, 0) == l && Child(e, 1) == r;
        var t := TransferOf(op, GetMinimalValue(l).Shape(), GetMinimalValue(r).Shape());
        NarrowBinIdle(e, t.bitWidth, t.extType);
      case Select(_, t, f) =>
        assert Child(e, 1) == t && Child(e, 2) == f;
        ArithSelectIdle(e, Max(GetMinimalValue(t).Shape().bitWidth, GetMinimalValue(f).Shape().bitWidth));
      case Shr(_, l, _) =>
        assert Child(e, 0) == l;
        ShrIdle(e);
      case Cmp(p, l, r) =>
        assert Child(e, 0) == l && Child(e, 1) == r;
        var k := CmpWidth(p, GetMinimalValue(l).Shape(), GetMinimalValue(r).Shape());
        MinimalIdle(l, k);
        MinimalIdle(r, k);
        OpIdle(Add, p, false, Modify(GetMinimalValue(l), k), Modify(GetMinimalValue(r), k));
      case Trunc(to, a) =>
        assert Child(e, 0) == a;
        MinimalIdle(a, to);
    }
  }

  lemma BackwardIdle(e: Expr, useful: nat)
    requires WellTyped(e) && BackwardPattern(e, useful).Some?
    requires (forall i: nat | i < Arity(e) :: IsSimple(Child(e, i))) && (e.Select? ==> e.cond.Var?)
    ensures IdleOnComputed(BackwardPattern(e, useful).value)
  {
    match e {
      case Bin(op, l, r) =>
        assert Child(e, 0) == l && Child(e, 1) == r;
        if op.Add? || op.Sub? {
          NarrowBinIdle(e, useful, ZEXT);
        } else {
          ForwardIdle(e);
        }
      case Select(_, t, f) =>
        assert Child(e, 1) == t && Child(e, 2) == f;
        ArithSelectIdle(e, useful);
      case Shr(_, l, a) =>
        assert Child(e, 0) == l && Child(e, 1) == a;
        ShiftBWIdle(e, useful);
    }
  }

  lemma ShiftBWIdle(e: Expr, useful: nat)
    requires WellTyped(e) && e.Shr? && IsSimple(e.lhs) && IsSimple(e.amount) && ArithShiftBW(e, useful).Some?
    ensures IdleOnComputed(ArithShiftBW(e, useful).value)
  {
    var m, c := GetMinimalValue(e.lhs), GetMinimalValue(e.amount);
    var k := useful + c.repr.value;
    MinimalIdle(e.lhs, k);
    MinimalIdle(e.amount, k);
    OpIdle(Add, EQ, e.arithmetic, Modify(m, k), Modify(c, k));
    ModifyIdle(MinimalValue(m.extType, Shr(e.arithmetic, Modify(m, k), Modify(c, k))), Width(e));
  }

  // ----- the measure -----

  datatype Size = Size(compute: nat, trunc: nat, rank: nat) {
    predicate Below(o: Size) {
      compute < o.compute || (compute == o.compute && (trunc < o.trunc || (trunc == o.trunc && rank < o.rank)))
    }
  }

  ghost function SizeOf(defs: seq<Def>): Size {
    Size(Sum(ComputeOf, defs), Sum(TruncOf, defs), RankSum(DepthIn(defs), defs))
  }

  function RankSum(rank: nat -> nat, defs: seq<Def>): nat {
    Sum(RankIn(rank), defs)
  }

  function RankIn(rank: nat -> nat): Def -> nat {
    d => RankOf(rank, d)
  }

  /** New ranks: the first `n` are moved up by `k`, behind them they rise one by one. */
  function Shifted(rank: nat -> nat, n: nat, k: nat): nat -> nat {
    (v: nat) => if v < n then rank(v) + k else v - n
  }

  /** Where computation gets less, ranks may be chosen anew. */
  lemma ReplaceRanked(c: Circuit, v: nat, e: Expr, rank: nat -> nat)
    requires Valid(c) && v < |c.defs| && c.defs[v].Node? && Placeable(c.defs, e) && !e.Var? && Width(e) == c.defs[v].Width()
    requires Ranked(c.defs, rank) && IdleOnComputed(e)
    ensures var defs := Replace(c, v, e).defs; |defs| >= |c.defs| && Ranked(defs, Shifted(rank, |c.defs|, |defs| - |c.defs|))
  {
    ReplaceValid(c, v, e);
    PutChildrenOrdered(c.defs, |c.defs|, e);
    var (more, flat) := PutChildren(c.defs, e);
    var defs, n := Replace(c, v, e).defs, |c.defs|;
    var next := Shifted(rank, n, |defs| - n);
    forall u: nat | u < |defs| && defs[u].Node? && IsIdle(defs[u].e) && defs[u].e.arg.Var? ensures next(defs[u].e.arg.id) < next(u) {
      if u < n && u != v {
        assert defs[u] == c.defs[u] && GoodDef(c.defs, c.defs[u]);
        ChildrenAreRefs(c.defs, c.defs[u].e);
      } else if u != v {
        assert defs[u] == more[u];
      }
    }
  }

  /** What most steps promise: a valid circuit that computes on fewer bits. */
  ghost predicate ComputesFewer(c: Circuit, d: Circuit) {
    Valid(d) && Sum(ComputeOf, d.defs) < Sum(ComputeOf, c.defs)
  }

  lemma ViewSimple(defs: seq<Def>, v: nat, behind: bool)
    requires IsNode(defs, v)
    ensures var view := View(defs, v, behind);
      && (view.Select? ==> view.cond.Var?) && forall i: nat | i < Arity(view) :: IsSimple(Child(view, i))
  {
    var view := View(defs, v, behind);
    assert GoodDef(defs, defs[v]);
    ViewTyped(defs, v, behind);
    forall i: nat | i < Arity(view) ensures IsSimple(Child(view, i)) {
      ViewChild(defs, v, behind, i);
      ChildrenTyped(view, i);
    }
  }

  /** A less computing replacement of an operation. */
  lemma ComputesLess(c: Circuit, v: nat, behind: bool, e: Expr)
    requires Valid(c) && IsNode(c.defs, v)
    requires WellTyped(e) && Width(e) == c.defs[v].Width() && !e.Var?
    requires Closed(e, WidthOf(c.defs, v))
    requires ComputeWidth(e) < ComputeWidth(View(c.defs, v, behind))
    ensures ComputesFewer(c, RewriteNode(c, v, Some(e)).value)
  {
    var leaf := LeafOf(c.defs, v);
    LeavesAre(c.defs, v);
    RenamedPlaceable(c.defs, e, leaf, WidthOf(c.defs, v));
    RenameKeeps(e, leaf);
    RenamedTotals(e, leaf);
    ViewCosts(c.defs, v, behind);
    ReplaceValid(c, v, Rename(e, leaf));
    ReplaceSums(c, v, Rename(e, leaf));
  }

  /** Ranks after a replacement of an operation. */
  lemma NodeRanked(c: Circuit, v: nat, e: Expr, rank: nat -> nat) returns (next: nat -> nat)
    requires Valid(c) && IsNode(c.defs, v) && Ranked(c.defs, rank)
    requires WellTyped(e) && Width(e) == c.defs[v].Width() && !e.Var? && IdleOnComputed(e)
    requires Closed(e, WidthOf(c.defs, v))
    ensures Ranked(RewriteNode(c, v, Some(e)).value.defs, next)
  {
    var leaf := LeafOf(c.defs, v);
    LeavesAre(c.defs, v);
    RenamedPlaceable(c.defs, e, leaf, WidthOf(c.defs, v));
    RenameKeeps(e, leaf);
    RenamedIdle(e, leaf);
    ReplaceRanked(c, v, Rename(e, leaf), rank);
    next := Shifted(rank, |c.defs|, |Replace(c, v, Rename(e, leaf)).defs| - |c.defs|);
  }

  /** What a backward pattern makes of an operation. */
  lemma BackwardNodeIs(c: Circuit, v: nat)
    requires Valid(c) && IsNode(c.defs, v) && BackwardNode(c, v).Some?
    ensures var view := View(c.defs, v, true);
      && WellTyped(view) && Useful(c, v) >= 1 && BackwardPattern(view, Useful(c, v)).Some?
      && var e := BackwardPattern(view, Useful(c, v)).value;
         && BackwardNode(c, v) == RewriteNode(c, v, Some(e))
         && WellTyped(e) && Width(e) == c.defs[v].Width() && !e.Var? && Closed(e, WidthOf(c.defs, v)) && IdleOnComputed(e)
  {
    var view, useful := View(c.defs, v, true), Useful(c, v);
    ViewTyped(c.defs, v, true);
    ViewClosed(c.defs, v, true);
    ViewSimple(c.defs, v, true);
    BackwardPatternOk(view, useful, n => 0);
    BackwardClosed(view, useful, WidthOf(c.defs, v));
    BackwardIdle(view, useful);
  }

  lemma BackwardNodeShrinks(c: Circuit, v: nat)
    requires Valid(c) && IsNode(c.defs, v) && BackwardNode(c, v).Some?
    ensures ComputesFewer(c, BackwardNode(c, v).value)
  {
    var view, useful := View(c.defs, v, true), Useful(c, v);
    BackwardNodeIs(c, v);
    BackwardComputesLess(view, useful);
    ComputesLess(c, v, true, BackwardPattern(view, useful).value);
  }

  /** What a truncation of an extension or a constant becomes adds no extension that does not extend. */
  lemma ModifiedRanked(c: Circuit, v: nat, m: MinimalValue, to: nat, rank: nat -> nat)
    requires Valid(c) && v < |c.defs| && c.defs[v].Node? && Ranked(c.defs, rank)
    requires (IsRef(c.defs, m.repr) || m.repr.Const?) && WellTyped(m.repr) && Width(m.repr) != to
    requires Placeable(c.defs, Modify(m, to)) && to == c.defs[v].Width()
    ensures Ranked(Replace(c, v, Modify(m, to)).defs, rank)
  {
    var e := Modify(m, to);
    assert Arity(e) == 1 && Child(e, 0) == m.repr;
    ReplaceValid(c, v, e);
    var (more, flat) := PutChildren(c.defs, e);
    var defs := Replace(c, v, e).defs;
    assert Put(c.defs, m.repr).0 == if m.repr.Var? then c.defs else c.defs + [Node(m.repr)];
    forall u: nat | u < |defs| && defs[u].Node? && IsIdle(defs[u].e) && defs[u].e.arg.Var? ensures rank(defs[u].e.arg.id) < rank(u) {
      if u < |c.defs| && u != v {
        assert defs[u] == c.defs[u];
      }
    }
  }

  /** A truncation of an extension that does not extend moves to the operand of the extension. */
  lemma IdleSkipped(c: Circuit, v: nat)
    requires Valid(c) && IsNode(c.defs, v) && c.defs[v].e.Trunc? && ForwardNode(c, v).Some?
    requires View(c.defs, v, false).arg.Ext? && IsIdle(View(c.defs, v, false).arg)
    ensures c.defs[v].e.arg.Var? && IdleAt(c.defs, c.defs[v].e.arg.id) && IsCut(c.defs, v)
    ensures ForwardNode(c, v).value == c.(defs := c.defs[v := Node(Trunc(c.defs[v].e.to, c.defs[c.defs[v].e.arg.id].e.arg))])
  {
    var e := c.defs[v].e;
    assert GoodDef(c.defs, c.defs[v]);
    ChildrenAreRefs(c.defs, e);
    ViewTyped(c.defs, v, false);
    var a := e.arg.id;
    assert GoodDef(c.defs, c.defs[a]);
    ChildrenAreRefs(c.defs, c.defs[a].e);
    var x := c.defs[a].e.arg;
    assert View(c.defs, v, false) == Trunc(e.to, Ext(c.defs[a].e.kind, c.defs[a].e.to, Var(0, x.width)));
    assert Leaf(c.defs, v, 0) == x.id;
    assert Modify(GetMinimalValue(View(c.defs, v, false).arg), e.to) == Trunc(e.to, Var(0, x.width));
    assert Rename(Trunc(e.to, Var(0, x.width)), LeafOf(c.defs, v)) == Trunc(e.to, x) by {
      assert Rename(Var(0, x.width), LeafOf(c.defs, v)) == x;
    }
    assert ForwardNode(c, v).value == Replace(c, v, Trunc(e.to, x));
    assert PutChildren(c.defs, Trunc(e.to, x)) == (c.defs, Trunc(e.to, x));
  }

  /** The pattern applies to a truncation that reads an extension that does not extend. */
  lemma IdleIsSkipped(c: Circuit, v: nat)
    requires Valid(c) && IsCut(c.defs, v) && IdleAt(c.defs, c.defs[v].e.arg.id)
    ensures IsNode(c.defs, v) && ForwardNode(c, v).Some?
    ensures View(c.defs, v, false).Trunc? && View(c.defs, v, false).arg.Ext? && IsIdle(View(c.defs, v, false).arg)
  {
    var e := c.defs[v].e;
    assert GoodDef(c.defs, c.defs[v]);
    ChildrenAreRefs(c.defs, e);
    var a := e.arg.id;
    assert GoodDef(c.defs, c.defs[a]);
    ChildrenAreRefs(c.defs, c.defs[a].e);
    ViewTyped(c.defs, v, false);
    assert View(c.defs, v, false) == Trunc(e.to, Ext(c.defs[a].e.kind, c.defs[a].e.to, Var(0, c.defs[a].e.arg.width)));
  }

  lemma {:induction false} RankSumSame(rank: nat -> nat, other: nat -> nat, defs: seq<Def>)
    requires forall x :: rank(x) == other(x)
    ensures RankSum(rank, defs) == RankSum(other, defs)
    decreases |defs|
  {
    if defs != [] {
      RankSumSame(rank, other, defs[..|defs| - 1]);
    }
  }

  /** It looks behind fewer of them then, unless these go on forever. */
  lemma SkippedShrinks(c: Circuit, v: nat, d: Circuit)
    requires IsCut(c.defs, v) && IdleAt(c.defs, c.defs[v].e.arg.id) && !Endless(c.defs, c.defs[v].e.arg.id)
    requires d == c.(defs := c.defs[v := Node(Trunc(c.defs[v].e.to, c.defs[c.defs[v].e.arg.id].e.arg))])
    ensures RankSum(DepthIn(d.defs), d.defs) < RankSum(DepthIn(c.defs), c.defs)
  {
    var rank := DepthIn(c.defs);
    assert SameChains(c.defs, d.defs);
    forall x: nat ensures DepthIn(d.defs)(x) == rank(x) {
      SameDepth(c.defs, d.defs, x);
    }
    RankSumSame(DepthIn(d.defs), rank, d.defs);
    SumUpdate(RankIn(rank), c.defs, v, d.defs[v]);
    DepthStep(c.defs, c.defs[v].e.arg.id);
  }

  lemma TruncSums(c: Circuit, v: nat)
    requires Valid(c) && IsNode(c.defs, v) && c.defs[v].e.Trunc? && ForwardNode(c, v).Some? && WellTyped(View(c.defs, v, false))
    ensures var view := View(c.defs, v, false); var m := GetMinimalValue(view.arg);
      var e := Rename(Modify(m, view.to), LeafOf(c.defs, v));
      && ForwardNode(c, v).value == Replace(c, v, e) && Placeable(c.defs, e) && !e.Var? && Width(e) == c.defs[v].Width()
      && e == Modify(MinimalValue(m.extType, Rename(m.repr, LeafOf(c.defs, v))), view.to)
      && ComputeWidth(e) == 0 && TruncWidth(e) == (if Width(m.repr) < view.to then 0 else Width(m.repr))
      && IsSimple(view.arg)
  {
    var view := View(c.defs, v, false);
    ViewTyped(c.defs, v, false);
    ViewClosed(c.defs, v, false);
    ViewSimple(c.defs, v, false);
    ForwardPatternOk(view, n => 0);
    ForwardClosed(view, WidthOf(c.defs, v));
    LeavesAre(c.defs, v);
    assert Child(view, 0) == view.arg && IsSimple(view.arg);
    var m := GetMinimalValue(view.arg);
    RenamedPlaceable(c.defs, Modify(m, view.to), LeafOf(c.defs, v), WidthOf(c.defs, v));
    RenamedTotals(Modify(m, view.to), LeafOf(c.defs, v));
    RenameKeeps(Modify(m, view.to), LeafOf(c.defs, v));
    RenameKeeps(m.repr, LeafOf(c.defs, v));
    ResizeTotals(if m.extType == ZEXT then ZEXT else SEXT, view.to, m.repr);
  }

  /** What the pattern makes of a truncation. */
  lemma TruncIs(c: Circuit, v: nat) returns (named: MinimalValue)
    requires Valid(c) && IsNode(c.defs, v) && c.defs[v].e.Trunc? && ForwardNode(c, v).Some?
    ensures var e := Modify(named, c.defs[v].e.to);
      && ForwardNode(c, v).value == Replace(c, v, e) && Placeable(c.defs, e) && !e.Var? && Width(e) == c.defs[v].Width() == c.defs[v].e.to
      && WellTyped(named.repr) && (IsRef(c.defs, named.repr) || named.repr.Const?) && Width(named.repr) != c.defs[v].e.to
  {
    var view := View(c.defs, v, false);
    ViewTyped(c.defs, v, false);
    TruncSums(c, v);
    var m := GetMinimalValue(view.arg);
    named := MinimalValue(m.extType, Rename(m.repr, LeafOf(c.defs, v)));
    RenameKeeps(m.repr, LeafOf(c.defs, v));
    assert Child(Modify(named, view.to), 0) == named.repr && Placeable(c.defs, named.repr);
  }

  lemma TruncShrinks(c: Circuit, v: nat)
    requires Valid(c) && IsNode(c.defs, v) && c.defs[v].e.Trunc? && ForwardNode(c, v).Some? && !CutsIdleCycle(c.defs)
    ensures Valid(ForwardNode(c, v).value) && SizeOf(ForwardNode(c, v).value.defs).Below(SizeOf(c.defs))
  {
    var view := View(c.defs, v, false);
    ViewTyped(c.defs, v, false);
    ViewCosts(c.defs, v, false);
    TruncSums(c, v);
    var named := TruncIs(c, v);
    ReplaceValid(c, v, Modify(named, view.to));
    var e := Rename(Modify(GetMinimalValue(view.arg), view.to), LeafOf(c.defs, v));
    ReplaceSums(c, v, e);
    if view.arg.Const? {
      RequiredBitsIsLeast(view.arg.value, view.arg.width, 1);
    } else if IsIdle(view.arg) {
      IdleSkipped(c, v);
      CutIsFinite(c.defs, v);
      SkippedShrinks(c, v, ForwardNode(c, v).value);
    }
  }

  lemma TruncRanked(c: Circuit, v: nat, rank: nat -> nat)
    requires Valid(c) && IsNode(c.defs, v) && Ranked(c.defs, rank) && c.defs[v].e.Trunc? && ForwardNode(c, v).Some?
    ensures Ranked(ForwardNode(c, v).value.defs, rank)
  {
    var named := TruncIs(c, v);
    ModifiedRanked(c, v, named, c.defs[v].e.to, rank);
  }

  /** What a forward pattern makes of an operation. */
  lemma ForwardNodeIs(c: Circuit, v: nat)
    requires Valid(c) && IsNode(c.defs, v) && ForwardNode(c, v).Some?
    ensures var view := View(c.defs, v, false);
      && WellTyped(view) && ForwardPattern(view).Some? && (view.Trunc? <==> c.defs[v].e.Trunc?)
      && var e := ForwardPattern(view).value;
         && ForwardNode(c, v) == RewriteNode(c, v, Some(e))
         && WellTyped(e) && Width(e) == c.defs[v].Width() && !e.Var? && Closed(e, WidthOf(c.defs, v)) && IdleOnComputed(e)
  {
    var view := View(c.defs, v, false);
    ViewTyped(c.defs, v, false);
    ViewClosed(c.defs, v, false);
    ViewSimple(c.defs, v, false);
    ForwardPatternOk(view, n => 0);
    ForwardClosed(view, WidthOf(c.defs, v));
    ForwardIdle(view);
  }

  lemma ForwardNodeShrinks(c: Circuit, v: nat)
    requires Valid(c) && IsNode(c.defs, v) && ForwardNode(c, v).Some? && !CutsIdleCycle(c.defs)
    ensures Valid(ForwardNode(c, v).value) && SizeOf(ForwardNode(c, v).value.defs).Below(SizeOf(c.defs))
  {
    ForwardNodeIs(c, v);
    if c.defs[v].e.Trunc? {
      TruncShrinks(c, v);
    } else {
      ForwardComputesLess(View(c.defs, v, false));
      ComputesLess(c, v, false, ForwardPattern(View(c.defs, v, false)).value);
    }
  }

  // ----- narrowing a forwarding operation -----

  function DataWidth(defs: seq<Def>, x: nat): nat -> nat {
    (i: nat) => if x < |defs| && OperandLeaf(defs, x) < |defs| then defs[OperandLeaf(defs, x)].Width() else 0
  }

  lemma OperandViewSimple(defs: seq<Def>, x: nat)
    requires AllGood(defs) && x < |defs|
    ensures var view := OperandView(defs, x, 0);
      && WellTyped(view) && Width(view) == defs[x].Width() && OperandLeaf(defs, x) < |defs|
      && IsSimple(view) && Closed(view, DataWidth(defs, x)) && ComputeWidth(view) == 0
  {
    OperandViewTyped(defs, x, 0);
    assert GoodDef(defs, defs[x]);
    if defs[x].Node? && defs[x].e.Ext? {
      ChildrenAreRefs(defs, defs[x].e);
      ResizeTotals(defs[x].e.kind, defs[x].e.to, Var(0, defs[x].e.arg.width));
    }
  }

  lemma ResizedPlaceable(defs: seq<Def>, x: nat, w: nat)
    requires AllGood(defs) && x < |defs| && w >= 1
    ensures var e := Resized(defs, x, w);
      Placeable(defs, e) && Width(e) == w && ComputeWidth(e) == 0 && IdleOnComputed(e)
  {
    var view := OperandView(defs, x, 0);
    OperandViewSimple(defs, x);
    OperandOk(view, w, n => 0);
    MinimalClosed(view, DataWidth(defs, x), w);
    MinimalIdle(view, w);
    ModifiedCompute(view, w);
    var e := Modify(GetMinimalValue(view), w);
    RenamedPlaceable(defs, e, DataLeaf(defs, x), DataWidth(defs, x));
    RenamedTotals(e, DataLeaf(defs, x));
    RenamedIdle(e, DataLeaf(defs, x));
    RenameKeeps(e, DataLeaf(defs, x));
  }

  lemma {:induction false} PutAllGood(defs: seq<Def>, data: seq<nat>, w: nat)
    requires AllGood(defs) && w >= 1 && forall i | 0 <= i < |data| :: data[i] < |defs|
    ensures var (more, ids) := PutAll(defs, data, w);
      && Extends(defs, more) && FreshOrdered(more, |defs|) && Sum(ComputeOf, more) == Sum(ComputeOf, defs)
      && |ids| == |data| && forall i | 0 <= i < |ids| :: ids[i] < |more| && more[ids[i]].Width() == w
    decreases |data|
  {
    if data != [] {
      var x := data[|data| - 1];
      PutAllGood(defs, data[..|data| - 1], w);
      var (more, ids) := PutAll(defs, data[..|data| - 1], w);
      var e := Resized(defs, x, w);
      ResizedPlaceable(defs, x, w);
      PlaceableStays(defs, more, e);
      PutGood(more, e);
      ComputeIsSame();
      PutSum(ComputeOf, OwnCompute, more, e);
      PutOrdered(more, |defs|, e);
      ExtendsTransitive(defs, more, Put(more, e).0);
    }
  }

  lemma {:induction false} ResultsAscend(defs: seq<Def>, op: nat, k: nat)
    requires k <= |defs|
    ensures forall i, j | 0 <= i < j < |Results(defs, op, k)| :: Results(defs, op, k)[i] < Results(defs, op, k)[j]
  {
    if k > 0 {
      ResultsAscend(defs, op, k - 1);
    }
  }

  predicate Ascending(rs: seq<nat>) {
    forall i, j | 0 <= i < j < |rs| :: rs[i] < rs[j]
  }

  /** Which definitions change, and to what. */
  lemma {:induction false} ExtendedAt(defs: seq<Def>, rs: seq<nat>, kind: ExtType, full: nat, base: nat, w: nat)
    requires Ascending(rs) && forall i | 0 <= i < |rs| :: rs[i] < |defs|
    ensures var more := ExtendResults(defs, rs, kind, full, base, w);
      && (forall i | 0 <= i < |rs| :: more[rs[i]] == Node(Ext(kind, full, Var(base + i, w))))
      && (forall v: nat | v < |defs| && v !in rs :: more[v] == defs[v])
    decreases |rs|
  {
    if rs != [] {
      var last := |rs| - 1;
      ExtendedAt(defs, rs[..last], kind, full, base, w);
      assert forall i | 0 <= i < last :: rs[..last][i] == rs[i] < rs[last];
    }
  }

  lemma OneMore(n: nat, full: nat)
    ensures (n + 1) * full == n * full + full
  {
  }

  /** Each result used to cost its width and costs nothing afterwards. */
  lemma {:induction false} ExtendedSum(defs: seq<Def>, rs: seq<nat>, kind: ExtType, full: nat, base: nat, w: nat, saved: nat)
    requires Ascending(rs) && saved == |rs| * full
    requires forall i | 0 <= i < |rs| :: rs[i] < |defs| && ComputeOf(defs[rs[i]]) == full
    ensures Sum(ComputeOf, ExtendResults(defs, rs, kind, full, base, w)) + saved == Sum(ComputeOf, defs)
    decreases |rs|
  {
    if rs != [] {
      var last := |rs| - 1;
      OneMore(last, full);
      ExtendedSum(defs, rs[..last], kind, full, base, w, last * full);
      LastUnchanged(defs, rs, kind, full, base, w);
      SumUpdate(ComputeOf, ExtendResults(defs, rs[..last], kind, full, base, w), rs[last], Node(Ext(kind, full, Var(base + last, w))));
    }
  }

  lemma LastUnchanged(defs: seq<Def>, rs: seq<nat>, kind: ExtType, full: nat, base: nat, w: nat)
    requires Ascending(rs) && rs != [] && forall i | 0 <= i < |rs| :: rs[i] < |defs|
    ensures var last := |rs| - 1; ExtendResults(defs, rs[..last], kind, full, base, w)[rs[last]] == defs[rs[last]]
  {
    var last := |rs| - 1;
    ExtendedAt(defs, rs[..last], kind, full, base, w);
    assert rs[last] !in rs[..last];
  }

  lemma {:induction false} ChoicesSum(d: Def, n: nat)
    ensures Sum(ComputeOf, Copies(d, n)) == n * ComputeOf(d)
  {
    if n > 0 {
      ChoicesSum(d, n - 1);
      assert Copies(d, n)[..n - 1] == Copies(d, n - 1);
    }
  }

  /** Old results become extensions of new ones, which stand behind everything else. */
  ghost predicate IsNarrowed(more: seq<Def>, rs: seq<nat>, narrow: Def, kind: ExtType, full: nat, all: seq<Def>) {
    && narrow.Choice? && |all| == |more| + |rs|
    && (forall i | 0 <= i < |rs| :: rs[i] < |more| && all[rs[i]] == Node(Ext(kind, full, Var(|more| + i, narrow.width))))
    && (forall u | 0 <= u < |more| && u !in rs :: all[u] == more[u])
    && forall u | |more| <= u < |all| :: all[u] == narrow
  }

  lemma NarrowedIs(more: seq<Def>, rs: seq<nat>, narrow: Def, kind: ExtType, full: nat)
    requires Ascending(rs) && (forall i | 0 <= i < |rs| :: rs[i] < |more|) && narrow.Choice?
    ensures IsNarrowed(more, rs, narrow, kind, full, ExtendResults(more + Copies(narrow, |rs|), rs, kind, full, |more|, narrow.width))
  {
    var all := more + Copies(narrow, |rs|);
    ExtendedAt(all, rs, kind, full, |more|, narrow.width);
    forall u | |more| <= u < |all| ensures u !in rs && all[u] == narrow {
    }
  }

  lemma NarrowedSum(more: seq<Def>, rs: seq<nat>, d: Def, narrow: Def, kind: ExtType)
    requires Ascending(rs) && rs != [] && forall i | 0 <= i < |rs| :: rs[i] < |more| && more[rs[i]] == d
    requires d.Choice? && narrow.Choice? && narrow.width < d.width
    ensures Sum(ComputeOf, ExtendResults(more + Copies(narrow, |rs|), rs, kind, d.width, |more|, narrow.width)) < Sum(ComputeOf, more)
  {
    SumAdds(ComputeOf, more, Copies(narrow, |rs|));
    ChoicesSum(narrow, |rs|);
    Narrower(|rs|, narrow.width, d.width);
    ExtendedSum(more + Copies(narrow, |rs|), rs, kind, d.width, |more|, narrow.width, |rs| * d.width);
  }

  lemma Narrower(n: nat, w: nat, full: nat)
    requires n > 0 && w < full
    ensures n * w < n * full
  {
  }

  function KindOf(t: ExtWidth): ExtType {
    if t.extType == ZEXT then ZEXT else SEXT
  }

  /** What narrowing a forwarding operation adds and changes. */
  lemma NarrowForwarderIs(c: Circuit, op: nat, t: ExtWidth) returns (d: Def, rs: seq<nat>, more: seq<Def>, narrow: Def)
    requires Valid(c) && Narrows(c, op, t)
    ensures d == ForwarderDef(c.defs, op) && d.Choice? && rs == Results(c.defs, op, |c.defs|) && rs != []
    ensures more == PutAll(c.defs, d.data, t.bitWidth).0
    ensures narrow == Choice(t.bitWidth, PutAll(c.defs, d.data, t.bitWidth).1, |more|, d.kind)
    ensures Extends(c.defs, more) && FreshOrdered(more, |c.defs|)
    ensures |narrow.data| == |d.data| && forall i | 0 <= i < |narrow.data| :: narrow.data[i] < |more| && more[narrow.data[i]].Width() == t.bitWidth
    ensures NarrowForwarder(c, op, t).outputs == c.outputs
    ensures IsNarrowed(more, rs, narrow, KindOf(t), d.width, NarrowForwarder(c, op, t).defs)
    ensures Sum(ComputeOf, NarrowForwarder(c, op, t).defs) < Sum(ComputeOf, c.defs)
    ensures forall i | 0 <= i < |rs| :: rs[i] < |c.defs| && c.defs[rs[i]] == d
  {
    d, rs := ForwarderDef(c.defs, op), Results(c.defs, op, |c.defs|);
    PutAllGood(c.defs, d.data, t.bitWidth);
    ResultsAscend(c.defs, op, |c.defs|);
    more := PutAll(c.defs, d.data, t.bitWidth).0;
    narrow := Choice(t.bitWidth, PutAll(c.defs, d.data, t.bitWidth).1, |more|, d.kind);
    forall i | 0 <= i < |rs| ensures c.defs[rs[i]] == d && more[rs[i]] == d {
      assert c.defs[rs[i]].Choice? && c.defs[rs[i]].op == op;
      assert more[rs[i]] == c.defs[rs[i]];
    }
    NarrowedIs(more, rs, narrow, KindOf(t), d.width);
    NarrowedSum(more, rs, d, narrow, KindOf(t));
  }

  /** The rewritten definitions are good: old ones keep their widths, new ones refer to operands of the narrow width. */
  lemma NarrowedGood(c: Circuit, more: seq<Def>, rs: seq<nat>, d: Def, narrow: Def, kind: ExtType, defs: seq<Def>)
    requires Valid(c) && Extends(c.defs, more) && kind != NONE
    requires forall i | 0 <= i < |rs| :: rs[i] < |c.defs| && c.defs[rs[i]] == d
    requires d.Choice? && narrow.Choice? && 1 <= narrow.width < d.width && narrow.op == |more| && rs != []
    requires narrow.kind == d.kind && |narrow.data| == |d.data| && GoodDef(c.defs, d)
    requires forall i | 0 <= i < |narrow.data| :: narrow.data[i] < |more| && more[narrow.data[i]].Width() == narrow.width
    requires IsNarrowed(more, rs, narrow, kind, d.width, defs)
    ensures SameWidths(c.defs, defs) && AllGood(defs)
  {
    forall v: nat | v < |more| ensures defs[v].Width() == more[v].Width() {
      if v in rs {
        var i :| 0 <= i < |rs| && rs[i] == v;
        assert more[v] == c.defs[v];
      }
    }
    assert SameWidths(more, defs);
    forall v | 0 <= v < |defs| ensures GoodDef(defs, defs[v]) {
      if v in rs {
        var i :| 0 <= i < |rs| && rs[i] == v;
      } else if v < |more| {
        if v < |c.defs| {
          assert more[v] == c.defs[v] && GoodDef(c.defs, c.defs[v]);
          GoodStays(c.defs, defs, defs[v]);
        } else {
          assert GoodDef(more, more[v]);
          GoodStays(more, defs, defs[v]);
        }
      }
    }
  }

  lemma NarrowForwarderValid(c: Circuit, op: nat, t: ExtWidth)
    requires Valid(c) && Narrows(c, op, t)
    ensures Valid(NarrowForwarder(c, op, t)) && SameWidths(c.defs, NarrowForwarder(c, op, t).defs)
  {
    var d, rs, more, narrow := NarrowForwarderIs(c, op, t);
    assert GoodDef(c.defs, d);
    NarrowedGood(c, more, rs, d, narrow, KindOf(t), NarrowForwarder(c, op, t).defs);
    NarrowedOps(c, op, more, rs, d, narrow, KindOf(t), NarrowForwarder(c, op, t).defs);
  }

  lemma NarrowForwarderShrinks(c: Circuit, op: nat, t: ExtWidth)
    requires Valid(c) && Narrows(c, op, t)
    ensures ComputesFewer(c, NarrowForwarder(c, op, t))
  {
    NarrowForwarderValid(c, op, t);
    var d, rs, more, narrow := NarrowForwarderIs(c, op, t);
  }

  lemma NarrowForwarderRanked(c: Circuit, op: nat, t: ExtWidth, rank: nat -> nat) returns (next: nat -> nat)
    requires Valid(c) && Narrows(c, op, t) && Ranked(c.defs, rank)
    ensures Ranked(NarrowForwarder(c, op, t).defs, next)
  {
    var d, rs, more, narrow := NarrowForwarderIs(c, op, t);
    next := Shifted(rank, |c.defs|, |NarrowForwarder(c, op, t).defs|);
    NarrowedRanked(c, more, rs, d, narrow, KindOf(t), NarrowForwarder(c, op, t).defs, rank);
  }

  /** Results of one operation share their definition afterwards, too. */
  lemma NarrowedOps(c: Circuit, op: nat, more: seq<Def>, rs: seq<nat>, d: Def, narrow: Def, kind: ExtType, defs: seq<Def>)
    requires Valid(c) && Extends(c.defs, more) && rs == Results(c.defs, op, |c.defs|)
    requires narrow.Choice? && narrow.op == |more| && d.Choice? && IsNarrowed(more, rs, narrow, kind, d.width, defs)
    ensures forall v, u | 0 <= v < |defs| && 0 <= u < |defs| && defs[v].Choice? && defs[u].Choice? && defs[v].op == defs[u].op ::
              defs[v] == defs[u]
  {
    forall v: nat | v < |defs| && defs[v].Choice? ensures defs[v] == narrow || (v < |c.defs| && defs[v] == c.defs[v] && defs[v].op < |more|) {
      if v < |more| {
        assert v !in rs && defs[v] == more[v];
        if v < |c.defs| {
          assert more[v] == c.defs[v] && GoodDef(c.defs, c.defs[v]);
        }
      }
    }
  }

  lemma NarrowedRanked(c: Circuit, more: seq<Def>, rs: seq<nat>, d: Def, narrow: Def, kind: ExtType, defs: seq<Def>, rank: nat -> nat)
    requires Valid(c) && Extends(c.defs, more) && FreshOrdered(more, |c.defs|) && Ranked(c.defs, rank)
    requires forall i | 0 <= i < |rs| :: rs[i] < |c.defs|
    requires d.Choice? && narrow.Choice? && narrow.width < d.width && IsNarrowed(more, rs, narrow, kind, d.width, defs)
    ensures Ranked(defs, Shifted(rank, |c.defs|, |defs|))
  {
    var n := |c.defs|;
    var next := Shifted(rank, n, |defs|);
    forall v: nat | v < |defs| && defs[v].Node? && IsIdle(defs[v].e) && defs[v].e.arg.Var? ensures next(defs[v].e.arg.id) < next(v) {
      assert v !in rs && v < |more| && defs[v] == more[v];
      if v < n {
        assert defs[v] == c.defs[v] && GoodDef(c.defs, c.defs[v]);
        ChildrenAreRefs(c.defs, c.defs[v].e);
      }
    }
  }

  // ----- steps -----

  /** One application of a pattern, in either pass; a forwarding operation may be narrowed to any width (the cycle pattern and
      the two passes differ in the width they find). */
  ghost predicate Step(c: Circuit, d: Circuit) {
    && Valid(c)
    && (|| (exists v :: IsNode(c.defs, v) && ForwardNode(c, v) == Some(d))
        || (exists v :: IsNode(c.defs, v) && BackwardNode(c, v) == Some(d))
        || exists op: nat, t: ExtWidth :: Narrows(c, op, t) && d == NarrowForwarder(c, op, t))
  }

  predicate Narrows(c: Circuit, op: nat, t: ExtWidth) {
    IsForwarder(c.defs, op) && 1 <= t.bitWidth < ForwarderDef(c.defs, op).width
  }

  /** Every step lowers the size: computing and forwarding widths first, then truncation input widths, then, for truncations of
      extensions that do not extend, how many of these they look behind. */
  lemma StepShrinks(c: Circuit, d: Circuit)
    requires Step(c, d) && !CutsIdleCycle(c.defs)
    ensures Valid(d) && SizeOf(d.defs).Below(SizeOf(c.defs))
  {
    if v :| IsNode(c.defs, v) && ForwardNode(c, v) == Some(d) {
      ForwardNodeShrinks(c, v);
    } else if v :| IsNode(c.defs, v) && BackwardNode(c, v) == Some(d) {
      BackwardNodeShrinks(c, v);
    } else {
      var op: nat, t: ExtWidth :| Narrows(c, op, t) && d == NarrowForwarder(c, op, t);
      NarrowForwarderShrinks(c, op, t);
    }
  }

  lemma ForwardNodeRanked(c: Circuit, v: nat, rank: nat -> nat) returns (next: nat -> nat)
    requires Valid(c) && IsNode(c.defs, v) && ForwardNode(c, v).Some? && Ranked(c.defs, rank)
    ensures Ranked(ForwardNode(c, v).value.defs, next)
  {
    if c.defs[v].e.Trunc? {
      TruncRanked(c, v, rank);
      next := rank;
    } else {
      ForwardNodeIs(c, v);
      next := NodeRanked(c, v, ForwardPattern(View(c.defs, v, false)).value, rank);
    }
  }

  lemma BackwardNodeRanked(c: Circuit, v: nat, rank: nat -> nat) returns (next: nat -> nat)
    requires Valid(c) && IsNode(c.defs, v) && BackwardNode(c, v).Some? && Ranked(c.defs, rank)
    ensures Ranked(BackwardNode(c, v).value.defs, next)
  {
    BackwardNodeIs(c, v);
    next := NodeRanked(c, v, BackwardPattern(View(c.defs, v, true), Useful(c, v)).value, rank);
  }

  lemma StepRanked(c: Circuit, d: Circuit, rank: nat -> nat) returns (next: nat -> nat)
    requires Step(c, d) && Ranked(c.defs, rank)
    ensures Ranked(d.defs, next)
  {
    if v :| IsNode(c.defs, v) && ForwardNode(c, v) == Some(d) {
      next := ForwardNodeRanked(c, v, rank);
    } else if v :| IsNode(c.defs, v) && BackwardNode(c, v) == Some(d) {
      next := BackwardNodeRanked(c, v, rank);
    } else {
      var op: nat, t: ExtWidth :| Narrows(c, op, t) && d == NarrowForwarder(c, op, t);
      next := NarrowForwarderRanked(c, op, t, rank);
    }
  }

  /** No step closes a cycle of extensions that do not extend. */
  lemma NoNewCycle(c: Circuit, d: Circuit)
    requires Step(c, d) && !HasIdleCycle(c.defs)
    ensures !HasIdleCycle(d.defs)
  {
    DepthRanks(c.defs);
    var next := StepRanked(c, d, DepthIn(c.defs));
    RankedHasNoCycle(d.defs, next);
  }

  /** An infinite sequence of rewrites comes to a truncation that reads such a cycle. */
  lemma {:induction false} EndlessMeetsCycle(s: nat -> Circuit, i: nat)
    requires forall j: nat :: Step(s(j), s(j + 1))
    ensures exists j: nat :: CutsIdleCycle(s(j).defs)
    decreases SizeOf(s(i).defs).compute, SizeOf(s(i).defs).trunc, SizeOf(s(i).defs).rank
  {
    if !CutsIdleCycle(s(i).defs) {
      StepShrinks(s(i), s(i + 1));
      EndlessMeetsCycle(s, i + 1);
    }
  }
}
