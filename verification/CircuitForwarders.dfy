/** Narrowing a forwarding operation keeps the tokens that survive the width it is narrowed to. */
module CircuitForwarders {
  import opened Basics
  import opened Words
  import opened Transfer
  import opened Scalar
  import opened DataForward
  import opened Expressions
  import opened RewriteSound
  import opened PatternCosts
  import opened Circuits
  import opened CircuitSteps
  import opened CircuitShrinks
  import opened CircuitMeaning
  import opened CircuitKeeps

  /** Cut to the width and extended back, a token is as it was, or has the low bits it had. */
  predicate Survives(t: ExtWidth, full: nat, x: nat, n: Narrowing)
    requires t.bitWidth >= 1
  {
    var y := ModBitWidth(t, Wrap(x, t.bitWidth), full);
    if n.exact then y == x else Wrap(y, n.k) == Wrap(x, n.k)
  }

  /** Whatever a data operand may carry survives. */
  ghost predicate AllSurvive(defs: seq<Def>, data: seq<nat>, t: ExtWidth, full: nat, n: Narrowing)
    requires t.bitWidth >= 1
  {
    forall j: nat, a: Expr, env: Env | j < |data| && Unrolls(defs, data[j], a) && WellTyped(a) :: Survives(t, full, Eval(a, env), n)
  }

  ghost predicate IsNarrowing(c: Circuit, op: nat, t: ExtWidth, n: Narrowing) {
    && Valid(c) && Narrows(c, op, t)
    && (forall v: nat :: v in n.values <==> v < |c.defs| && c.defs[v].Choice? && c.defs[v].op == op)
    && AllSurvive(c.defs, ForwarderDef(c.defs, op).data, t, ForwarderDef(c.defs, op).width, n)
    && UsersAgree(c.defs, n)
  }

  // ----- histories of the placed operands -----

  lemma {:induction false} PutAllGrows(defs: seq<Def>, data: seq<nat>, w: nat)
    requires AllGood(defs) && forall i | 0 <= i < |data| :: data[i] < |defs|
    ensures defs <= PutAll(defs, data, w).0 && |PutAll(defs, data, w).1| == |data|
    decreases |data|
  {
    if data != [] {
      PutAllGrows(defs, data[..|data| - 1], w);
      PutGrows(PutAll(defs, data[..|data| - 1], w).0, Resized(defs, data[|data| - 1], w));
    }
  }

  lemma PutAllStep(defs: seq<Def>, data: seq<nat>, w: nat, all: seq<Def>)
    requires AllGood(defs) && (forall i | 0 <= i < |data| :: data[i] < |defs|) && data != []
    requires KeepsNew(|defs|, PutAll(defs, data, w).0, all)
    ensures var (more, ids) := PutAll(defs, data[..|data| - 1], w);
      var y := Put(more, Resized(defs, data[|data| - 1], w)).1;
      && defs <= more && KeepsNew(|defs|, more, all) && KeepsNew(|more|, Put(more, Resized(defs, data[|data| - 1], w)).0, all)
      && |ids| == |data| - 1 && PutAll(defs, data, w).1 == ids + [if y.Var? then y.id else 0]
  {
    PutAllGrows(defs, data[..|data| - 1], w);
    PutGrows(PutAll(defs, data[..|data| - 1], w).0, Resized(defs, data[|data| - 1], w));
  }

  /** The `j`th narrow operand has the history of the `j`th one, resized. */
  lemma {:induction false} PutAllUnrolls(defs: seq<Def>, data: seq<nat>, w: nat, j: nat, f: Expr, all: seq<Def>)
    requires AllGood(defs) && w >= 1 && (forall i | 0 <= i < |data| :: data[i] < |defs|) && j < |data|
    requires KeepsNew(|defs|, PutAll(defs, data, w).0, all) && Unrolls(all, OperandLeaf(defs, data[j]), f)
    ensures |PutAll(defs, data, w).1| == |data|
    ensures Unrolls(all, PutAll(defs, data, w).1[j], Narrow(defs, data[j], w, f))
    decreases |data|
  {
    var last := |data| - 1;
    PutAllStep(defs, data, w, all);
    OperandViewTyped(defs, data[j], 0);
    if j < last {
      PutAllUnrolls(defs, data[..last], w, j, f, all);
    } else {
      ResizedUnrolls(defs, data[last], w, f, PutAll(defs, data[..last], w).0, all);
    }
  }

  lemma ResizedUnrolls(defs: seq<Def>, x: nat, w: nat, f: Expr, more: seq<Def>, all: seq<Def>)
    requires AllGood(defs) && w >= 1 && x < |defs| && WellTyped(OperandView(defs, x, 0)) && defs <= more
    requires KeepsNew(|more|, Put(more, Resized(defs, x, w)).0, all) && Unrolls(all, OperandLeaf(defs, x), f)
    ensures var y := Put(more, Resized(defs, x, w)).1;
      y.Var? && Unrolls(all, y.id, Subst(Modify(GetMinimalValue(OperandView(defs, x, 0)), w), (i: nat) => f))
  {
    OperandViewSimple(defs, x);
    LeafBound(OperandView(defs, x, 0), w, all, DataLeaf(defs, x), (i: nat) => f);
    PutUnrolls(more, Modify(GetMinimalValue(OperandView(defs, x, 0)), w), DataLeaf(defs, x), (i: nat) => f, all);
  }

  /** A resized operand has at most one variable. */
  lemma LeafBound(view: Expr, w: nat, all: seq<Def>, leaf: nat -> nat, sub: nat -> Expr)
    requires IsSimple(view) && forall i :: Unrolls(all, leaf(i), sub(i))
    ensures Bound(Modify(GetMinimalValue(view), w), all, leaf, sub)
  {
    var m := GetMinimalValue(view);
    assert Bound(m.repr, all, leaf, sub);
  }

  function Behind(defs: seq<Def>, x: nat, a: Expr): Expr {
    if IsExtension(defs, x) && a.Ext? then a.arg else a
  }

  function Narrow(defs: seq<Def>, x: nat, w: nat, f: Expr): Expr
    requires AllGood(defs) && x < |defs|
  {
    OperandViewTyped(defs, x, 0);
    Subst(Modify(GetMinimalValue(OperandView(defs, x, 0)), w), (i: nat) => f)
  }

  /** Resizing an operand, whatever is behind it. */
  lemma NarrowEval(defs: seq<Def>, x: nat, w: nat, f: Expr, env: Env, inner: Env)
    requires AllGood(defs) && x < |defs| && 1 <= w <= defs[x].Width() && OperandLeaf(defs, x) < |defs|
    requires WellTyped(f) && Width(f) == defs[OperandLeaf(defs, x)].Width() && inner(0) == Eval(f, env)
    ensures var view, g := OperandView(defs, x, 0), Narrow(defs, x, w, f);
      && WellTyped(view) && WellTyped(g) && Width(g) == w && Eval(g, env) == Wrap(Eval(view, inner), w)
      && (Defined(view, inner) && Defined(f, env) ==> Defined(g, env))
  {
    var view := OperandView(defs, x, 0);
    OperandViewSimple(defs, x);
    var width: nat -> nat := (i: nat) => if i == 0 then DataWidth(defs, x)(0) else 0;
    ViewOfOne(defs, x);
    OperandOk(view, w, inner);
    MinimalClosed(view, width, w);
    SubstEval(Modify(GetMinimalValue(view), w), (i: nat) => f, width, env, inner);
  }

  lemma ViewOfOne(defs: seq<Def>, x: nat)
    requires AllGood(defs) && x < |defs|
    ensures Closed(OperandView(defs, x, 0), (i: nat) => if i == 0 then DataWidth(defs, x)(0) else 0)
  {
    OperandViewSimple(defs, x);
    var view := OperandView(defs, x, 0);
    if view.Ext? {
      assert Child(view, 0) == view.arg;
    }
  }

  /** A resized operand yields the low bits of the token. */
  lemma ResizedEval(defs: seq<Def>, x: nat, w: nat, a: Expr, f: Expr, env: Env)
    requires AllGood(defs) && Unrolls(defs, x, a) && 1 <= w <= defs[x].Width()
    requires WellTyped(Behind(defs, x, a)) && SameMeaning(Behind(defs, x, a), f)
    ensures WellTyped(a) && Width(a) == defs[x].Width()
    ensures var g := Narrow(defs, x, w, f);
      && WellTyped(g) && Width(g) == w && (Defined(a, env) ==> Defined(g, env) && Eval(g, env) == Wrap(Eval(a, env), w))
  {
    UnrollTyped(defs, x, a);
    LeafWidthIs(defs, x, a);
    NarrowEval(defs, x, w, f, env, (i: nat) => if WellTyped(f) then Eval(f, env) else 0);
    if Defined(a, env) {
      var inner: Env := (i: nat) => if WellTyped(Behind(defs, x, a)) then Eval(Behind(defs, x, a), env) else 0;
      OperandEval(defs, x, 0, a, env, inner);
      assert Replaces(Behind(defs, x, a), f, env);
      NarrowEval(defs, x, w, f, env, inner);
    }
  }

  lemma LeafWidthIs(defs: seq<Def>, x: nat, a: Expr)
    requires AllGood(defs) && Unrolls(defs, x, a)
    ensures var s := if IsExtension(defs, x) && a.Ext? then a.arg else a;
      WellTyped(s) && OperandLeaf(defs, x) < |defs| && Width(s) == defs[OperandLeaf(defs, x)].Width() && Unrolls(defs, OperandLeaf(defs, x), s)
  {
    UnrollTyped(defs, x, a);
    assert GoodDef(defs, defs[x]);
    if IsExtension(defs, x) {
      var g := defs[x].e;
      ChildrenAreRefs(defs, g);
      assert SameOp(g, a) && Child(g, 0) == g.arg && Child(a, 0) == a.arg;
      assert Unrolls(defs, g.arg.id, a.arg);
      UnrollTyped(defs, g.arg.id, a.arg);
    }
  }

  // ----- histories of the results -----

  /** A token handed on as in `e`. */
  function HandOn(e: Expr, control: Expr, a: Expr): Expr {
    if e.Steered? then Steered(e.port, control, a) else Forward(a)
  }

  /** The history of a result after narrowing, from those of the operand it hands on and the control. */
  function NarrowHistory(c: Circuit, op: nat, t: ExtWidth, j: nat, e: Expr, control: Expr, f: Expr): Expr
    requires IsForwarder(c.defs, op) && j < |ForwarderDef(c.defs, op).data|
  {
    var d := ForwarderDef(c.defs, op);
    Ext(KindOf(t), d.width, HandOn(e, control, Narrow(c.defs, d.data[j], t.bitWidth, f)))
  }

  // ----- which result of its operation a value is -----

  lemma {:induction false} EarlierStays(defs: seq<Def>, all: seq<Def>, op: nat, k: nat)
    requires forall u: nat | u < k :: IsResult(defs, op, u) <==> IsResult(all, op, u)
    ensures Earlier(all, op, k) == Earlier(defs, op, k)
  {
    if k > 0 {
      EarlierStays(defs, all, op, k - 1);
      assert IsResult(defs, op, k - 1) <==> IsResult(all, op, k - 1);
    }
  }

  lemma {:induction false} EarlierIsCount(defs: seq<Def>, op: nat, k: nat)
    requires k <= |defs|
    ensures Earlier(defs, op, k) == |Results(defs, op, k)|
  {
    if k > 0 {
      EarlierIsCount(defs, op, k - 1);
    }
  }

  /** The results of an operation are numbered in the order of their values. */
  lemma {:induction false} EarlierIsIndex(defs: seq<Def>, op: nat, k: nat, i: nat)
    requires k <= |defs| && i < |Results(defs, op, k)|
    ensures Earlier(defs, op, Results(defs, op, k)[i]) == i
  {
    if i < |Results(defs, op, k - 1)| {
      EarlierIsIndex(defs, op, k - 1, i);
    } else {
      EarlierIsCount(defs, op, k - 1);
    }
  }

  /** Where exactly the values from `n` on are results. */
  lemma {:induction false} NewEarlier(all: seq<Def>, op: nat, n: nat, k: nat)
    requires forall u: nat | u < k :: IsResult(all, op, u) <==> n <= u
    ensures Earlier(all, op, k) == if n <= k then k - n else 0
  {
    if k > 0 {
      NewEarlier(all, op, n, k - 1);
      assert IsResult(all, op, k - 1) <==> n <= k - 1;
    }
  }

  /** Where the results of the narrowed operation are. */
  lemma ResultIs(c: Circuit, op: nat, t: ExtWidth, v: nat) returns (y: nat, narrow: Def)
    requires Valid(c) && Narrows(c, op, t) && v in Results(c.defs, op, |c.defs|)
    ensures var all, d := NarrowForwarder(c, op, t).defs, ForwarderDef(c.defs, op);
      && v < |all| && y < |all| && all[v] == Node(Ext(KindOf(t), d.width, Var(y, t.bitWidth))) && all[y] == narrow
      && narrow.Choice? && narrow.data == PutAll(c.defs, d.data, t.bitWidth).1 && narrow.kind == d.kind
      && KeepsNew(|c.defs|, PutAll(c.defs, d.data, t.bitWidth).0, all)
      && c.defs[v] == d && forall j: nat :: Port(all, y, j) == Port(c.defs, v, j)
  {
    var d, rs, more;
    d, rs, more, narrow := NarrowForwarderIs(c, op, t);
    y := NarrowedResult(more, rs, narrow, KindOf(t), d.width, NarrowForwarder(c, op, t).defs, |c.defs|, v);
    NarrowedPort(c, more, rs, d, narrow, KindOf(t), NarrowForwarder(c, op, t).defs, y, v);
  }

  lemma NoneBefore(c: Circuit, more: seq<Def>, rs: seq<nat>, narrow: Def, kind: ExtType, full: nat, all: seq<Def>, u: nat)
    requires Valid(c) && Extends(c.defs, more) && IsNarrowed(more, rs, narrow, kind, full, all) && u < |more|
    ensures !IsResult(all, |more|, u)
  {
    if u in rs {
      var i :| 0 <= i < |rs| && rs[i] == u;
    } else if u < |c.defs| {
      assert more[u] == c.defs[u] && GoodDef(c.defs, c.defs[u]);
    }
  }

  lemma NewPort(c: Circuit, more: seq<Def>, rs: seq<nat>, narrow: Def, kind: ExtType, full: nat, all: seq<Def>, y: nat)
    requires Valid(c) && Extends(c.defs, more) && IsNarrowed(more, rs, narrow, kind, full, all) && narrow.op == |more| <= y < |all|
    ensures Earlier(all, |more|, y) == y - |more|
  {
    forall u: nat | u < |more| ensures !IsResult(all, |more|, u) {
      NoneBefore(c, more, rs, narrow, kind, full, all, u);
    }
    NewEarlier(all, |more|, |more|, y);
  }

  /** The new results are in the order of the old ones. */
  lemma NarrowedPort(c: Circuit, more: seq<Def>, rs: seq<nat>, d: Def, narrow: Def, kind: ExtType, all: seq<Def>, y: nat, v: nat)
    requires Valid(c) && Extends(c.defs, more) && d.Choice? && rs == Results(c.defs, d.op, |c.defs|)
    requires IsNarrowed(more, rs, narrow, kind, d.width, all) && narrow.op == |more|
    requires |more| <= y < |all| && v == rs[y - |more|]
    ensures v < |c.defs| && all[y] == narrow && Earlier(all, narrow.op, y) == Earlier(c.defs, d.op, v)
  {
    NewPort(c, more, rs, narrow, kind, d.width, all, y);
    EarlierIsIndex(c.defs, d.op, |c.defs|, y - |more|);
  }

  lemma NarrowedResult(more: seq<Def>, rs: seq<nat>, narrow: Def, kind: ExtType, full: nat, all: seq<Def>, n: nat, v: nat) returns (y: nat)
    requires IsNarrowed(more, rs, narrow, kind, full, all) && v in rs && n <= |more| && forall i | 0 <= i < |rs| :: rs[i] < n
    ensures v < |all| && |more| <= y < |all| && rs[y - |more|] == v
    ensures all[v] == Node(Ext(kind, full, Var(y, narrow.width))) && all[y] == narrow && KeepsNew(n, more, all)
  {
    var i :| 0 <= i < |rs| && rs[i] == v;
    y := |more| + i;
    forall u | n <= u < |more| ensures all[u] == more[u] {
      assert u !in rs;
    }
  }

  lemma ForwarderUnrolls(c: Circuit, op: nat, t: ExtWidth, v: nat, e: Expr, j: nat, control: Expr, f: Expr)
    requires Valid(c) && Narrows(c, op, t) && v in Results(c.defs, op, |c.defs|) && HandsOn(c.defs, v, e, j)
    requires Unrolls(NarrowForwarder(c, op, t).defs, OperandLeaf(c.defs, c.defs[v].data[j]), f)
    requires e.Steered? ==> Unrolls(NarrowForwarder(c, op, t).defs, c.defs[v].kind.control, control)
    ensures c.defs[v] == ForwarderDef(c.defs, op) && Unrolls(NarrowForwarder(c, op, t).defs, v, NarrowHistory(c, op, t, j, e, control, f))
  {
    var all, d := NarrowForwarder(c, op, t).defs, ForwarderDef(c.defs, op);
    var y, narrow := ResultIs(c, op, t, v);
    PutAllUnrolls(c.defs, d.data, t.bitWidth, j, f, all);
    ChoiceThenExtend(all, v, y, j, KindOf(t), d.width, t.bitWidth, HandOn(e, control, Narrow(c.defs, d.data[j], t.bitWidth, f)));
  }

  lemma ChoiceThenExtend(all: seq<Def>, v: nat, y: nat, j: nat, kind: ExtType, full: nat, w: nat, e: Expr)
    requires v < |all| && y < |all| && all[v] == Node(Ext(kind, full, Var(y, w))) && all[y].Choice?
    requires HandsOn(all, y, e, j) && Unrolls(all, all[y].data[j], e.arg) && (e.Steered? ==> Unrolls(all, all[y].kind.control, e.control))
    ensures Unrolls(all, v, Ext(kind, full, e))
  {
    var g := Ext(kind, full, e);
    assert Unrolls(all, y, g.arg);
    assert Child(g, 0) == g.arg && Child(all[v].e, 0) == all[v].e.arg;
  }

  /** A narrow token handed on like the one it is cut from. */
  lemma HandOnAt(e: Expr, control: Expr, a: Expr, env: Env)
    requires WellTyped(e) && IsRouted(e) && WellTyped(a)
    requires e.Steered? ==> Replaces(e.control, control, env)
    requires Defined(e.arg, env) ==> Defined(a, env) && Eval(a, env) == Wrap(Eval(e.arg, env), Width(a))
    ensures var g := HandOn(e, control, a);
      && WellTyped(g) && Width(g) == Width(a)
      && (Defined(e, env) ==> Defined(e.arg, env) && Defined(g, env) && Eval(g, env) == Wrap(Eval(e, env), Width(a)))
  {
  }

  lemma NarrowOperandAt(c: Circuit, op: nat, t: ExtWidth, j: nat, e: Expr, control: Expr, f: Expr, env: Env)
    requires Valid(c) && Narrows(c, op, t) && j < |ForwarderDef(c.defs, op).data| && IsRouted(e)
    requires Unrolls(c.defs, ForwarderDef(c.defs, op).data[j], e.arg)
    requires e.Steered? ==> WellTyped(e.control) && SameMeaning(e.control, control)
    requires var s := Behind(c.defs, ForwarderDef(c.defs, op).data[j], e.arg); WellTyped(s) && SameMeaning(s, f)
    ensures WellTyped(e) && Width(e) == ForwarderDef(c.defs, op).width
    ensures var g := HandOn(e, control, Narrow(c.defs, ForwarderDef(c.defs, op).data[j], t.bitWidth, f));
      && WellTyped(g) && Width(g) == t.bitWidth
      && (Defined(e, env) ==> Defined(g, env) && Eval(g, env) == Wrap(Eval(e, env), t.bitWidth))
  {
    var d := ForwarderDef(c.defs, op);
    assert GoodDef(c.defs, d);
    ResizedEval(c.defs, d.data[j], t.bitWidth, e.arg, f, env);
    if e.Steered? {
      assert Replaces(e.control, control, env);
    }
    HandOnAt(e, control, Narrow(c.defs, d.data[j], t.bitWidth, f), env);
  }

  /** What a result yields after narrowing. */
  lemma NarrowHistoryAt(c: Circuit, op: nat, t: ExtWidth, n: Narrowing, j: nat, e: Expr, control: Expr, f: Expr, env: Env)
    requires IsNarrowing(c, op, t, n) && j < |ForwarderDef(c.defs, op).data| && IsRouted(e)
    requires Unrolls(c.defs, ForwarderDef(c.defs, op).data[j], e.arg)
    requires e.Steered? ==> WellTyped(e.control) && SameMeaning(e.control, control)
    requires var s := Behind(c.defs, ForwarderDef(c.defs, op).data[j], e.arg); WellTyped(s) && SameMeaning(s, f)
    ensures WellTyped(e) && Width(e) == ForwarderDef(c.defs, op).width
    ensures var g := NarrowHistory(c, op, t, j, e, control, f);
      && WellTyped(g) && Width(g) == Width(e)
      && (Defined(e, env) ==>
            Defined(g, env) && if n.exact then Eval(g, env) == Eval(e, env) else Wrap(Eval(g, env), n.k) == Wrap(Eval(e, env), n.k))
  {
    NarrowOperandAt(c, op, t, j, e, control, f, env);
    assert Survives(t, ForwarderDef(c.defs, op).width, Eval(e.arg, env), n);
  }

  lemma ForwarderSame(c: Circuit, op: nat, t: ExtWidth, n: Narrowing, v: nat, j: nat, e: Expr, control: Expr, f: Expr)
    requires IsNarrowing(c, op, t, n) && j < |ForwarderDef(c.defs, op).data| && IsRouted(e)
    requires Unrolls(c.defs, ForwarderDef(c.defs, op).data[j], e.arg)
    requires e.Steered? ==> WellTyped(e.control) && SameMeaning(e.control, control)
    requires var s := Behind(c.defs, ForwarderDef(c.defs, op).data[j], e.arg); WellTyped(s) && SameMeaning(s, f)
    requires v in n.values
    ensures WellTyped(e) && Kept(n, v, e, NarrowHistory(c, op, t, j, e, control, f))
  {
    var g := NarrowHistory(c, op, t, j, e, control, f);
    NarrowHistoryAt(c, op, t, n, j, e, control, f, (i: nat) => 0);
    if n.exact {
      forall env: Env ensures Replaces(e, g, env) {
        NarrowHistoryAt(c, op, t, n, j, e, control, f, env);
      }
    } else {
      forall env: Env ensures ReplacesLow(e, g, n.k, env) {
        NarrowHistoryAt(c, op, t, n, j, e, control, f, env);
      }
    }
  }
}
