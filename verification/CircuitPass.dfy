/** The patterns of the bitwidth optimization pass keep what circuits hand out, in every sequence of applications. */
module CircuitPass {
  import opened Basics
  import opened Words
  import opened Transfer
  import opened Scalar
  import opened DataForward
  import opened Expressions
  import opened RewriteSound
  import opened PatternCosts
  import opened Circuits
  import opened CircuitSteps
  import opened CircuitShrinks
  import opened CircuitMeaning
  import opened CircuitKeeps
  import opened CircuitForwarders
  import opened CircuitTranslation
  import opened CircuitMatches
  import opened CircuitLinear
  import opened CircuitConverse
  import opened ResultUsers

  // ----- useful widths -----

  /** Users of a value: operations of the circuit, and whatever is outside if the value is handed out. */
  function UsersOf(c: Circuit, v: nat): seq<User> {
    seq(|c.defs|, u requires 0 <= u < |c.defs| => UserOf(c.defs[u], v)) + if v in c.outputs then [OtherUser] else []
  }

  /** What `w` is to the first `k` operations, some user outside being there or not. */
  ghost predicate IsUsefulBelow(c: Circuit, v: nat, k: nat, w: nat)
    requires v < |c.defs| && k <= |c.defs|
  {
    && w <= c.defs[v].Width()
    && (forall u | 0 <= u < k :: UseWidth(c.defs[u], v, c.defs[v].Width()) <= w)
    && (v in c.outputs ==> w == c.defs[v].Width())
    && (w == 0 || (v in c.outputs && w == c.defs[v].Width())
        || exists u | 0 <= u < k :: UserOf(c.defs[u], v) != SinkUser && UseWidth(c.defs[u], v, c.defs[v].Width()) == w)
  }

  lemma {:induction false} UsefulBelowIs(c: Circuit, v: nat, k: nat)
    requires Valid(c) && v < |c.defs| && k <= |c.defs|
    ensures IsUsefulBelow(c, v, k, UsefulBelow(c, v, k))
  {
    if k > 0 {
      UsefulBelowIs(c, v, k - 1);
      var d := c.defs[k - 1];
      assert GoodDef(c.defs, d);
      if d.Node? && d.e.Trunc? {
        ChildrenAreRefs(c.defs, d.e);
        assert Child(d.e, 0) == d.e.arg;
      }
      assert UseWidth(d, v, c.defs[v].Width()) <= c.defs[v].Width();
    }
  }

  /** The width computed in a circuit is what `GetUsefulResultWidth` finds for the value's users. */
  lemma UsefulIsUseful(c: Circuit, v: nat)
    requires Valid(c) && v < |c.defs|
    ensures IsUseful(UsersOf(c, v), c.defs[v].Width(), Useful(c, v))
  {
    var n, users, full, w := |c.defs|, UsersOf(c, v), c.defs[v].Width(), UsefulBelow(c, v, |c.defs|);
    UsefulBelowIs(c, v, n);
    assert GoodDef(c.defs, c.defs[v]);
    assert v in c.outputs ==> users[|users| - 1] == OtherUser;
    if OtherUser in users {
      var i :| 0 <= i < |users| && users[i] == OtherUser;
      assert i < n ==> UseWidth(c.defs[i], v, full) == full;
    } else {
      assert forall u | 0 <= u < n :: users[u] == UserOf(c.defs[u], v);
    }
  }

  lemma {:induction false} UsefulBounds(c: Circuit, v: nat, k: nat, u: nat)
    requires v < |c.defs| && u < k <= |c.defs|
    ensures UseWidth(c.defs[u], v, c.defs[v].Width()) <= UsefulBelow(c, v, k)
    decreases k
  {
    if u < k - 1 {
      UsefulBounds(c, v, k - 1, u);
    }
  }

  lemma {:induction false} OutputBounds(c: Circuit, v: nat, k: nat)
    requires v < |c.defs| && k <= |c.defs| && v in c.outputs
    ensures c.defs[v].Width() <= UsefulBelow(c, v, k)
    decreases k
  {
    if k > 0 {
      OutputBounds(c, v, k - 1);
    }
  }

  /** What uses a value that is narrower in use than it is made is a truncation. */
  lemma UsefulUser(c: Circuit, v: nat, u: nat)
    requires Valid(c) && v < |c.defs| && u < |c.defs| && Useful(c, v) < c.defs[v].Width()
    ensures UserAgrees(c.defs[u], Narrowing({v}, Useful(c, v), false)) && v !in c.outputs
  {
    UsefulBounds(c, v, |c.defs|, u);
    if v in c.outputs {
      OutputBounds(c, v, |c.defs|);
    }
    if c.defs[u].Node? {
      var f := c.defs[u].e;
      forall i: nat | i < Arity(f) && Child(f, i).Var? && Child(f, i).id == v ensures f.Trunc? && f.to <= Useful(c, v) {
        if f.Trunc? {
          assert Child(f, 0) == f.arg;
        }
      }
    }
  }

  /** If all values of a set are used less than they are made, by `k` bits at most, their users agree to their narrowing. */
  lemma UsefulAgrees(c: Circuit, n: Narrowing)
    requires Valid(c) && forall v | v in n.values :: v < |c.defs| && Useful(c, v) <= n.k && Useful(c, v) < c.defs[v].Width()
    ensures UsersAgree(c.defs, n) && n.values !! c.outputs
  {
    forall u | 0 <= u < |c.defs| ensures UserAgrees(c.defs[u], n) {
      forall v | v in n.values ensures UserAgrees(c.defs[u], Narrowing({v}, Useful(c, v), false)) {
        UsefulUser(c, v, u);
      }
      UserAgreesToAll(c, n, c.defs[u]);
    }
    forall v | v in n.values ensures v !in c.outputs {
      UsefulUser(c, v, v);
    }
  }

  lemma UserAgreesToAll(c: Circuit, n: Narrowing, d: Def)
    requires forall v | v in n.values :: v < |c.defs| && Useful(c, v) <= n.k && UserAgrees(d, Narrowing({v}, Useful(c, v), false))
    ensures UserAgrees(d, n)
  {
    if d.Choice? {
      forall x | x in n.values ensures x !in d.data && (!d.kind.Single? ==> d.kind.control != x) {
        assert UserAgrees(d, Narrowing({x}, Useful(c, x), false)) && x in {x};
      }
    } else if d.Node? {
      forall i: nat | i < Arity(d.e) && Child(d.e, i).Var? && Child(d.e, i).id in n.values ensures d.e.Trunc? && d.e.to <= n.k {
        assert UserAgrees(d, Narrowing({Child(d.e, i).id}, Useful(c, Child(d.e, i).id), false));
      }
    }
  }

  // ----- the patterns on operations -----

  /** A rewrite that is sound in both directions and leaves alone what is handed out. */
  ghost predicate KeepsOutputs(c: Circuit, s: Rewriting, n: Narrowing, d: Circuit) {
    IsReversible(c, s, n) && d == Result(c, s, n) && (n.exact || n.values !! c.outputs)
  }

  lemma ForwardNodeSound(c: Circuit, v: nat) returns (s: Rewriting, n: Narrowing)
    requires Valid(c) && IsNode(c.defs, v) && ForwardNode(c, v).Some?
    ensures KeepsOutputs(c, s, n, ForwardNode(c, v).value)
  {
    var view := View(c.defs, v, false);
    ViewTyped(c.defs, v, false);
    ViewClosed(c.defs, v, false);
    var r := ForwardPattern(view).value;
    ForwardClosed(view, WidthOf(c.defs, v));
    forall env: Env ensures Replaces(view, r, env) {
      ForwardPatternOk(view, env);
    }
    ForwardPatternOk(view, (i: nat) => 0);
    ViewPositioned(c.defs, v, false);
    ForwardReads(view);
    s, n := Operation(v, false, r), Narrowing({v}, 0, true);
  }

  lemma BackwardNodeSound(c: Circuit, v: nat) returns (s: Rewriting, n: Narrowing)
    requires Valid(c) && IsNode(c.defs, v) && BackwardNode(c, v).Some?
    ensures KeepsOutputs(c, s, n, BackwardNode(c, v).value)
  {
    var view, k := View(c.defs, v, true), Useful(c, v);
    ViewTyped(c.defs, v, true);
    ViewClosed(c.defs, v, true);
    var r := BackwardPattern(view, k).value;
    BackwardClosed(view, k, WidthOf(c.defs, v));
    forall env: Env ensures ReplacesLow(view, r, k, env) {
      BackwardPatternOk(view, k, env);
    }
    BackwardPatternOk(view, k, (i: nat) => 0);
    ViewPositioned(c.defs, v, true);
    BackwardReads(view, k);
    s, n := Operation(v, true, r), Narrowing({v}, k, k >= c.defs[v].Width());
    if n.exact {
      LowIsAll(view, r, k);
    } else {
      UsefulAgrees(c, n);
    }
  }

  /** As many low bits as there are. */
  lemma LowIsAll(e: Expr, f: Expr, k: nat)
    requires WellTyped(e) && SameLow(e, f, k) && k >= Width(e)
    ensures SameMeaning(e, f)
  {
    forall env: Env ensures Replaces(e, f, env) {
      assert ReplacesLow(e, f, k, env);
      Pow2Monotone(Width(e), k);
      WrapSmall(Eval(e, env), k);
      WrapSmall(Eval(f, env), k);
    }
  }

  // ----- the patterns on forwarding operations -----

  /** The set of results of an operation. */
  function ResultSet(c: Circuit, op: nat): (rs: set<nat>)
    ensures forall v: nat :: v in rs <==> v < |c.defs| && c.defs[v].Choice? && c.defs[v].op == op
  {
    set v | v in Ids(|c.defs|) && c.defs[v].Choice? && c.defs[v].op == op
  }

  /** What a data operand carries is the extension of a word of the shape the pattern sees. */
  lemma OperandShape(defs: seq<Def>, x: nat, a: Expr, env: Env) returns (u: nat)
    requires AllGood(defs) && Unrolls(defs, x, a) && WellTyped(OperandView(defs, x, 0))
    ensures WellTyped(a) && Width(a) == defs[x].Width()
    ensures var m := GetMinimalValue(OperandView(defs, x, 0)).Shape();
      IsShape(m, Width(a)) && u < Pow2(m.bitWidth) && Eval(a, env) == ModBitWidth(m, u, Width(a))
  {
    UnrollTyped(defs, x, a);
    LeafWidthIs(defs, x, a);
    var view := OperandView(defs, x, 0);
    var inner: Env := (i: nat) => if WellTyped(Behind(defs, x, a)) then Eval(Behind(defs, x, a), env) else 0;
    OperandEval(defs, x, 0, a, env, inner);
    MinimalValueOk(view, inner);
    u := Eval(GetMinimalValue(view).repr, inner);
  }

  lemma ForwardSurvives(c: Circuit, op: nat)
    requires Valid(c) && IsForwarder(c.defs, op) && ForwardForwarder(c, op).Some?
    ensures var d := ForwarderDef(c.defs, op); var t := ForwardShape(DataShapes(c.defs, d.data));
      Narrows(c, op, t) && AllSurvive(c.defs, d.data, t, d.width, Narrowing(ResultSet(c, op), 0, true))
  {
    var d := ForwarderDef(c.defs, op);
    var shapes := DataShapes(c.defs, d.data);
    var t := ForwardShape(shapes);
    ShapesPositive(c, op);
    forall j: nat, a: Expr, env: Env | j < |d.data| && Unrolls(c.defs, d.data[j], a) && WellTyped(a)
      ensures Survives(t, d.width, Eval(a, env), Narrowing(ResultSet(c, op), 0, true))
    {
      OperandViewTyped(c.defs, d.data[j], 0);
      var u := OperandShape(c.defs, d.data[j], a, env);
      ForwardShapeSound(shapes, j, u, d.width);
    }
  }

  lemma ShapesPositive(c: Circuit, op: nat)
    requires Valid(c) && IsForwarder(c.defs, op)
    ensures ForwardShape(DataShapes(c.defs, ForwarderDef(c.defs, op).data)).bitWidth >= 1
  {
    var d := ForwarderDef(c.defs, op);
    var shapes := DataShapes(c.defs, d.data);
    OperandViewTyped(c.defs, d.data[0], 0);
    MinimalValueOk(OperandView(c.defs, d.data[0], 0), (i: nat) => 0);
    MaxWidthBounds(shapes, 0);
  }

  /** A shape that all data operands survive may be used. */
  lemma SurvivingSound(c: Circuit, op: nat, t: ExtWidth, n: Narrowing)
    requires Valid(c) && Narrows(c, op, t) && n == Narrowing(ResultSet(c, op), 0, true)
    requires AllSurvive(c.defs, ForwarderDef(c.defs, op).data, t, ForwarderDef(c.defs, op).width, n)
    ensures KeepsOutputs(c, Forwarding(op, t), n, NarrowForwarder(c, op, t))
  {
  }

  lemma ForwardForwarderSound(c: Circuit, op: nat) returns (s: Rewriting, n: Narrowing)
    requires Valid(c) && IsForwarder(c.defs, op) && ForwardForwarder(c, op).Some?
    ensures KeepsOutputs(c, s, n, ForwardForwarder(c, op).value)
  {
    ForwardSurvives(c, op);
    s := Forwarding(op, ForwardShape(DataShapes(c.defs, ForwarderDef(c.defs, op).data)));
    n := Narrowing(ResultSet(c, op), 0, true);
    SurvivingSound(c, op, s.t, n);
  }

  lemma {:induction false} UsefulOfBounds(c: Circuit, rs: seq<nat>, i: nat)
    requires (forall j | 0 <= j < |rs| :: rs[j] < |c.defs|) && i < |rs|
    ensures 1 <= Useful(c, rs[i]) <= UsefulOf(c, rs)
    decreases |rs|
  {
    if i < |rs| - 1 {
      UsefulOfBounds(c, rs[..|rs| - 1], i);
    }
  }

  lemma ResultsUseful(c: Circuit, op: nat)
    requires Valid(c) && IsForwarder(c.defs, op) && UsefulOf(c, Results(c.defs, op, |c.defs|)) < ForwarderDef(c.defs, op).width
    ensures var w := UsefulOf(c, Results(c.defs, op, |c.defs|));
      w >= 1 && forall v | v in ResultSet(c, op) :: Useful(c, v) <= w < c.defs[v].Width()
  {
    var rs, d := Results(c.defs, op, |c.defs|), ForwarderDef(c.defs, op);
    UsefulOfBounds(c, rs, 0);
    forall v | v in ResultSet(c, op) ensures Useful(c, v) <= UsefulOf(c, rs) < c.defs[v].Width() {
      var i :| 0 <= i < |rs| && rs[i] == v;
      UsefulOfBounds(c, rs, i);
      assert c.defs[v] == d;
    }
  }

  lemma BackwardForwarderSound(c: Circuit, op: nat) returns (s: Rewriting, n: Narrowing)
    requires Valid(c) && IsForwarder(c.defs, op) && BackwardForwarder(c, op).Some?
    ensures KeepsOutputs(c, s, n, BackwardForwarder(c, op).value)
  {
    var w, full := UsefulOf(c, Results(c.defs, op, |c.defs|)), ForwarderDef(c.defs, op).width;
    s, n := Forwarding(op, ExtWidth(ZEXT, w)), Narrowing(ResultSet(c, op), w, false);
    ResultsUseful(c, op);
    UsefulAgrees(c, n);
    forall x: nat ensures Survives(ExtWidth(ZEXT, w), full, x, n) {
      WrapWrap(x, w, w);
    }
    LowSurvive(c, op, ExtWidth(ZEXT, w), n);
  }

  lemma LowSurvive(c: Circuit, op: nat, t: ExtWidth, n: Narrowing)
    requires Valid(c) && Narrows(c, op, t) && n.values == ResultSet(c, op) && UsersAgree(c.defs, n) && n.values !! c.outputs
    requires forall x: nat :: Survives(t, ForwarderDef(c.defs, op).width, x, n)
    ensures KeepsOutputs(c, Forwarding(op, t), n, NarrowForwarder(c, op, t))
  {
  }
}
