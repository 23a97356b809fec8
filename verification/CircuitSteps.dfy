/** The rewrite patterns of the bitwidth optimization pass on circuits. */
module CircuitSteps {
  import opened Basics
  import opened Words
  import opened Transfer
  import opened Scalar
  import opened DataForward
  import opened Expressions
  import opened PatternCosts
  import opened Circuits
  import opened ResultUsers

  // ----- what a pattern sees of an operation -----

  /** An operand as far as its definition tells: an extension or a constant is seen through; what is behind is variable `i`. */
  function OperandView(defs: seq<Def>, x: nat, i: nat): Expr
    requires x < |defs|
  {
    var d := defs[x];
    if d.Node? && d.e.Ext? && d.e.arg.Var? then Ext(d.e.kind, d.e.to, Var(i, d.e.arg.width))
    else if d.Node? && d.e.Const? then d.e
    else Var(i, d.Width())
  }

  /** The value that the variable of the view stands for. */
  function OperandLeaf(defs: seq<Def>, x: nat): nat
    requires x < |defs|
  {
    var d := defs[x];
    if d.Node? && d.e.Ext? && d.e.arg.Var? then d.e.arg.id else x
  }

  /** Backtracking stops behind the first forwarding operation that is neither a branch nor merge-like. */
  function BacktrackTo(defs: seq<Def>, x: nat, visited: set<nat>): nat
    decreases Ids(|defs|) - visited
  {
    if x >= |defs| || !defs[x].Choice? || defs[x].op in visited || defs[x].op >= |defs| || |defs[x].data| != 1 then x
    else if defs[x].kind.Single? then defs[x].data[0]
    else
      assert defs[x].op in Ids(|defs|) - visited && defs[x].op !in Ids(|defs|) - (visited + {defs[x].op});
      BacktrackTo(defs, defs[x].data[0], visited + {defs[x].op})
  }

  /** A shift amount: only a constant tells something, in the backward pass also one behind forwarding operations. */
  function AmountView(defs: seq<Def>, x: nat, i: nat, behind: bool): Expr
    requires x < |defs|
  {
    var y := if behind then BacktrackTo(defs, x, {}) else x;
    if y < |defs| && defs[y].Node? && defs[y].e.Const? then defs[y].e else Var(i, defs[x].Width())
  }

  predicate IsNode(defs: seq<Def>, v: nat) {
    AllGood(defs) && v < |defs| && defs[v].Node?
  }

  function View(defs: seq<Def>, v: nat, behind: bool): Expr
    requires IsNode(defs, v)
  {
    var e := defs[v].e;
    assert GoodDef(defs, defs[v]);
    ChildrenAreRefs(defs, e);
    match e
    case Bin(op, l, r) => Bin(op, OperandView(defs, l.id, 0), OperandView(defs, r.id, 1))
    case Select(c, t, f) => Select(Var(0, c.width), OperandView(defs, t.id, 1), OperandView(defs, f.id, 2))
    case Shr(arithmetic, l, a) => Shr(arithmetic, OperandView(defs, l.id, 0), AmountView(defs, a.id, 1, behind))
    case Cmp(p, l, r) => Cmp(p, OperandView(defs, l.id, 0), OperandView(defs, r.id, 1))
    case Trunc(to, a) => Trunc(to, OperandView(defs, a.id, 0))
    case Ext(k, to, a) => Ext(k, to, Var(0, a.width))
    case Const(_, _) => e
  }

  lemma ChildrenAreRefs(defs: seq<Def>, e: Expr)
    requires IsFlat(defs, e)
    ensures Arity(e) >= 1 ==> IsRef(defs, Child(e, 0))
    ensures Arity(e) >= 2 ==> IsRef(defs, Child(e, 1))
    ensures Arity(e) >= 3 ==> IsRef(defs, Child(e, 2))
  {
  }

  lemma OperandViewTyped(defs: seq<Def>, x: nat, i: nat)
    requires AllGood(defs) && x < |defs|
    ensures WellTyped(OperandView(defs, x, i)) && Width(OperandView(defs, x, i)) == defs[x].Width()
    ensures OperandLeaf(defs, x) < |defs|
  {
    assert GoodDef(defs, defs[x]);
    if defs[x].Node? && defs[x].e.Ext? {
      ChildrenAreRefs(defs, defs[x].e);
    }
  }

  lemma BacktrackWidth(defs: seq<Def>, x: nat, visited: set<nat>)
    requires AllGood(defs) && x < |defs|
    ensures BacktrackTo(defs, x, visited) < |defs| && defs[BacktrackTo(defs, x, visited)].Width() == defs[x].Width()
    decreases Ids(|defs|) - visited
  {
    if defs[x].Choice? && defs[x].op !in visited && |defs[x].data| == 1 {
      assert GoodDef(defs, defs[x]);
      if !defs[x].kind.Single? {
        assert defs[x].op in Ids(|defs|) - visited && defs[x].op !in Ids(|defs|) - (visited + {defs[x].op});
        BacktrackWidth(defs, defs[x].data[0], visited + {defs[x].op});
      }
    }
  }

  /** What a pattern sees is well-typed. */
  lemma ViewTyped(defs: seq<Def>, v: nat, behind: bool)
    requires IsNode(defs, v)
    ensures WellTyped(View(defs, v, behind)) && Width(View(defs, v, behind)) == defs[v].Width()
  {
    var e := defs[v].e;
    assert GoodDef(defs, defs[v]);
    ChildrenAreRefs(defs, e);
    forall i: nat, j: nat | i < Arity(e) ensures WellTyped(OperandView(defs, Child(e, i).id, j)) && Width(OperandView(defs, Child(e, i).id, j)) == Child(e, i).width {
      OperandViewTyped(defs, Child(e, i).id, j);
    }
    if e.Shr? {
      BacktrackWidth(defs, e.amount.id, {});
      assert GoodDef(defs, defs[e.amount.id]) && GoodDef(defs, defs[BacktrackTo(defs, e.amount.id, {})]);
    }
  }

  /** The values that the variables of a view stand for. */
  function Leaf(defs: seq<Def>, v: nat, i: nat): nat
    requires IsNode(defs, v)
  {
    var e := defs[v].e;
    assert GoodDef(defs, defs[v]);
    if i >= Arity(e) then 0
    else
      var x := Child(e, i).id;
      if (e.Select? && i == 0) || (e.Shr? && i == 1) || e.Ext? then x else OperandLeaf(defs, x)
  }

  function LeafWidth(defs: seq<Def>, v: nat, i: nat): nat
    requires IsNode(defs, v)
  {
    if i < Arity(defs[v].e) && Leaf(defs, v, i) < |defs| then defs[Leaf(defs, v, i)].Width() else 0
  }

  function LeafOf(defs: seq<Def>, v: nat): nat -> nat
    requires IsNode(defs, v)
  {
    (i: nat) => if IsNode(defs, v) then Leaf(defs, v, i) else 0
  }

  function WidthOf(defs: seq<Def>, v: nat): nat -> nat
    requires IsNode(defs, v)
  {
    (i: nat) => if IsNode(defs, v) then LeafWidth(defs, v, i) else 0
  }

  function Rename(e: Expr, leaf: nat -> nat): Expr {
    match e
    case Var(i, w) => Var(leaf(i), w)
    case Const(_, _) => e
    case Ext(k, to, a) => Ext(k, to, Rename(a, leaf))
    case Trunc(to, a) => Trunc(to, Rename(a, leaf))
    case Bin(op, l, r) => Bin(op, Rename(l, leaf), Rename(r, leaf))
    case Select(c, t, f) => Select(Rename(c, leaf), Rename(t, leaf), Rename(f, leaf))
    case Shr(arithmetic, l, a) => Shr(arithmetic, Rename(l, leaf), Rename(a, leaf))
    case Cmp(p, l, r) => Cmp(p, Rename(l, leaf), Rename(r, leaf))
    case Forward(a) => Forward(Rename(a, leaf))
    case Steered(p, c, a) => Steered(p, Rename(c, leaf), Rename(a, leaf))
  }

  // ----- rewriting an operation -----

  /** Value `v` is made by the rewritten expression instead; its inner operations are new values. */
  function Replace(c: Circuit, v: nat, e: Expr): Circuit
    requires v < |c.defs|
  {
    var (more, flat) := PutChildren(c.defs, e);
    if v < |more| then c.(defs := more[v := Node(flat)]) else c
  }

  function RewriteNode(c: Circuit, v: nat, e: Option<Expr>): Option<Circuit>
    requires IsNode(c.defs, v)
  {
    if e.None? then None else Some(Replace(c, v, Rename(e.value, LeafOf(c.defs, v))))
  }

  /** What an operation is to a value; one that does not use it is like a sink. */
  function UserOf(d: Def, v: nat): User {
    match d
    case Source(_, _, _) => SinkUser
    case Choice(_, data, _, kind) => if v in data || kind.IsControl(v) then OtherUser else SinkUser
    case Node(e) =>
      if e.Trunc? && e.arg.Var? && e.arg.id == v then TruncUser(e.to)
      else if exists i: nat | i < Arity(e) :: Child(e, i).Var? && Child(e, i).id == v then OtherUser
      else SinkUser
  }

  /** How many low bits it needs; truncations need what they keep. */
  function UseWidth(d: Def, v: nat, full: nat): nat {
    match UserOf(d, v)
    case SinkUser => 0
    case TruncUser(w) => w
    case OtherUser => full
  }

  function UsefulBelow(c: Circuit, v: nat, k: nat): nat
    requires v < |c.defs| && k <= |c.defs|
  {
    if k == 0 then if v in c.outputs then c.defs[v].Width() else 0
    else Max(UsefulBelow(c, v, k - 1), UseWidth(c.defs[k - 1], v, c.defs[v].Width()))
  }

  /** The most any use needs, and at least one bit. */
  function Useful(c: Circuit, v: nat): nat
    requires v < |c.defs|
  {
    Max(UsefulBelow(c, v, |c.defs|), 1)
  }

  function ForwardNode(c: Circuit, v: nat): Option<Circuit>
    requires IsNode(c.defs, v)
  {
    ViewTyped(c.defs, v, false);
    RewriteNode(c, v, ForwardPattern(View(c.defs, v, false)))
  }

  function BackwardNode(c: Circuit, v: nat): Option<Circuit>
    requires IsNode(c.defs, v)
  {
    ViewTyped(c.defs, v, true);
    RewriteNode(c, v, BackwardPattern(View(c.defs, v, true), Useful(c, v)))
  }

  // ----- rewriting a forwarding operation -----

  /** The results of a forwarding operation among the first `k` values. */
  function Results(defs: seq<Def>, op: nat, k: nat): (rs: seq<nat>)
    requires k <= |defs|
    ensures forall i | 0 <= i < |rs| :: rs[i] < k && defs[rs[i]].Choice? && defs[rs[i]].op == op
    ensures forall r | 0 <= r < k && defs[r].Choice? && defs[r].op == op :: r in rs
    ensures |rs| <= k
  {
    if k == 0 then []
    else Results(defs, op, k - 1) + if defs[k - 1].Choice? && defs[k - 1].op == op then [k - 1] else []
  }

  /** A data operand brought to a width. */
  function Resized(defs: seq<Def>, x: nat, w: nat): Expr
    requires AllGood(defs) && x < |defs|
  {
    OperandViewTyped(defs, x, 0);
    Rename(Modify(GetMinimalValue(OperandView(defs, x, 0)), w), DataLeaf(defs, x))
  }

  function DataLeaf(defs: seq<Def>, x: nat): nat -> nat {
    (i: nat) => if x < |defs| then OperandLeaf(defs, x) else 0
  }

  /** The same for all data operands. */
  function PutAll(defs: seq<Def>, data: seq<nat>, w: nat): (seq<Def>, seq<nat>)
    requires AllGood(defs) && forall i | 0 <= i < |data| :: data[i] < |defs|
  {
    if data == [] then (defs, [])
    else
      var (more, ids) := PutAll(defs, data[..|data| - 1], w);
      var (most, x) := Put(more, Resized(defs, data[|data| - 1], w));
      (most, ids + [if x.Var? then x.id else 0])
  }

  /** The old results are made by extending the new ones. */
  function ExtendResults(defs: seq<Def>, rs: seq<nat>, kind: ExtType, full: nat, base: nat, w: nat): (more: seq<Def>)
    requires forall i | 0 <= i < |rs| :: rs[i] < |defs|
    ensures |more| == |defs|
  {
    if rs == [] then defs
    else
      var last := |rs| - 1;
      ExtendResults(defs, rs[..last], kind, full, base, w)[rs[last] := Node(Ext(kind, full, Var(base + last, w)))]
  }

  /** A forwarding operation with some result. */
  predicate IsForwarder(defs: seq<Def>, op: nat) {
    AllGood(defs) && Results(defs, op, |defs|) != []
  }

  /** The definition that all results share. */
  function ForwarderDef(defs: seq<Def>, op: nat): (d: Def)
    requires IsForwarder(defs, op)
    ensures d.Choice? && GoodDef(defs, d)
  {
    defs[Results(defs, op, |defs|)[0]]
  }

  function Copies(d: Def, n: nat): seq<Def> {
    seq(n, i => d)
  }

  /** The operation works at width `w`: operands are brought to it, every result is extended back. */
  function NarrowForwarder(c: Circuit, op: nat, t: ExtWidth): Circuit
    requires IsForwarder(c.defs, op)
  {
    var rs := Results(c.defs, op, |c.defs|);
    var d := ForwarderDef(c.defs, op);
    var (more, ids) := PutAll(c.defs, d.data, t.bitWidth);
    if |more| < |c.defs| then c
    else
      var base := |more|;
      var all := more + Copies(Choice(t.bitWidth, ids, base, d.kind), |rs|);
      c.(defs := ExtendResults(all, rs, if t.extType == ZEXT then ZEXT else SEXT, d.width, base, t.bitWidth))
  }

  function DataShapes(defs: seq<Def>, data: seq<nat>): seq<ExtWidth>
    requires AllGood(defs) && forall i | 0 <= i < |data| :: data[i] < |defs|
  {
    seq(|data|, i requires 0 <= i < |data| => OperandViewTyped(defs, data[i], 0); GetMinimalValue(OperandView(defs, data[i], 0)).Shape())
  }

  function ForwardForwarder(c: Circuit, op: nat): Option<Circuit>
    requires IsForwarder(c.defs, op)
  {
    var d := ForwarderDef(c.defs, op);
    var t := ForwardShape(DataShapes(c.defs, d.data));
    if t.bitWidth >= d.width then None else Some(NarrowForwarder(c, op, t))
  }

  /** The most that is needed of any result. */
  function UsefulOf(c: Circuit, rs: seq<nat>): nat
    requires forall i | 0 <= i < |rs| :: rs[i] < |c.defs|
  {
    if rs == [] then 0 else Max(UsefulOf(c, rs[..|rs| - 1]), Useful(c, rs[|rs| - 1]))
  }

  function BackwardForwarder(c: Circuit, op: nat): Option<Circuit>
    requires IsForwarder(c.defs, op)
  {
    var rs := Results(c.defs, op, |c.defs|);
    var w := UsefulOf(c, rs);
    if w >= ForwarderDef(c.defs, op).width then None else Some(NarrowForwarder(c, op, ExtWidth(ZEXT, w)))
  }
}
