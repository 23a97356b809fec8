/** Circuits with shared values, cycles and operations of several results, and the size that bitwidth rewrites lower. */
module Circuits {
  import opened Basics
  import opened Transfer
  import opened Expressions
  import opened PatternCosts

  /** `Single` stands for buffers, forks, lazy forks and unconditional branches; `Branch` for conditional branches, the first
      result being the one for a true condition; `MergeLike` for muxes, and for merges and control merges, whose control is a
      source that stands for what arrives first. */
  datatype ForwardKind = Single | Branch(control: nat) | MergeLike(control: nat)
  {
    predicate IsControl(v: nat) {
      !Single? && control == v
    }
  }

  /** How a value is made: by something the pass leaves alone (function arguments among them), whose tokens are numbered
      `first`, `first + stride` and so on, by an operation on values, its operands being variables numbered like the values, or
      by handing on one of the data operands of operation `op`.
      Results of one forwarding operation have the same definition. */
  datatype Def =
    | Source(width: nat, first: nat, stride: nat)
    | Node(e: Expr)
    | Choice(width: nat, data: seq<nat>, op: nat, kind: ForwardKind)
  {
    function Width(): nat {
      match this
      case Source(w, _, _) => w
      case Node(e) => Expressions.Width(e)
      case Choice(w, _, _, _) => w
    }
  }

  /** `outputs` are the values that something the pass leaves alone uses. */
  datatype Circuit = Circuit(defs: seq<Def>, outputs: set<nat>)

  /** The variable stands for a value of its width. */
  predicate IsRef(defs: seq<Def>, e: Expr) {
    e.Var? && e.id < |defs| && e.width == defs[e.id].Width()
  }

  /** A single operation on values. */
  predicate IsFlat(defs: seq<Def>, e: Expr) {
    && WellTyped(e) && !e.Var? && !IsRouted(e)
    && forall i: nat | i < Arity(e) :: IsRef(defs, Child(e, i))
  }

  predicate GoodDef(defs: seq<Def>, d: Def) {
    match d
    case Source(w, _, _) => w >= 1
    case Node(e) => IsFlat(defs, e)
    case Choice(w, data, op, kind) =>
      && w >= 1 && data != [] && op < |defs| && (!kind.MergeLike? ==> |data| == 1) && (!kind.Single? ==> kind.control < |defs|)
      && forall i | 0 <= i < |data| :: data[i] < |defs| && defs[data[i]].Width() == w
  }

  predicate AllGood(defs: seq<Def>) {
    forall v {:trigger GoodDef(defs, defs[v])} | 0 <= v < |defs| :: GoodDef(defs, defs[v])
  }

  ghost predicate Valid(c: Circuit) {
    && AllGood(c.defs)
    && (forall v, u | 0 <= v < |c.defs| && 0 <= u < |c.defs| && c.defs[v].Choice? && c.defs[u].Choice? && c.defs[v].op == c.defs[u].op ::
          c.defs[v] == c.defs[u])
    && forall v | v in c.outputs :: v < |c.defs|
  }

  /** Definitions stay good when definitions are added, or replaced by ones of the same width. */
  predicate SameWidths(defs: seq<Def>, more: seq<Def>) {
    |defs| <= |more| && forall v | 0 <= v < |defs| :: more[v].Width() == defs[v].Width()
  }

  lemma GoodStays(defs: seq<Def>, more: seq<Def>, d: Def)
    requires GoodDef(defs, d) && SameWidths(defs, more)
    ensures GoodDef(more, d)
  {
  }

  // ----- placing an expression in a circuit -----

  /** Adds a definition for every operation in the expression. */
  function Put(defs: seq<Def>, e: Expr): (seq<Def>, Expr)
    decreases e, 1
  {
    if e.Var? then (defs, e)
    else
      var (more, flat) := PutChildren(defs, e);
      (more + [Node(flat)], Var(|more|, Width(e)))
  }

  /** The same for its operands, and the root as an operation on what they became. */
  function PutChildren(defs: seq<Def>, e: Expr): (seq<Def>, Expr)
    decreases e, 0
  {
    if Arity(e) == 0 then (defs, e)
    else
      var (one, a) := Put(defs, Child(e, 0));
      if Arity(e) == 1 then (one, WithChild(e, 0, a))
      else
        var (two, b) := Put(one, Child(e, 1));
        if Arity(e) == 2 then (two, WithChild(WithChild(e, 0, a), 1, b))
        else
          var (three, d) := Put(two, Child(e, 2));
          (three, WithChild(WithChild(WithChild(e, 0, a), 1, b), 2, d))
  }

  /** Variables are values; nothing in it forwards. */
  predicate Placeable(defs: seq<Def>, e: Expr) {
    && WellTyped(e) && (e.Var? ==> IsRef(defs, e)) && !IsRouted(e)
    && forall i: nat | i < Arity(e) :: Placeable(defs, Child(e, i))
  }

  lemma {:induction false} PlaceableStays(defs: seq<Def>, more: seq<Def>, e: Expr)
    requires Placeable(defs, e) && defs <= more
    ensures Placeable(more, e)
  {
    forall i: nat | i < Arity(e) ensures Placeable(more, Child(e, i)) {
      PlaceableStays(defs, more, Child(e, i));
    }
  }

  /** New definitions follow the old ones and are good. */
  predicate Extends(defs: seq<Def>, more: seq<Def>) {
    && defs <= more
    && forall v | |defs| <= v < |more| :: more[v].Node? && GoodDef(more, more[v])
  }

  lemma ExtendsTransitive(defs: seq<Def>, more: seq<Def>, most: seq<Def>)
    requires Extends(defs, more) && Extends(more, most)
    ensures Extends(defs, most)
  {
    forall v | |defs| <= v < |more| ensures GoodDef(most, most[v]) {
      GoodStays(more, most, more[v]);
    }
  }

  lemma RefStays(defs: seq<Def>, more: seq<Def>, e: Expr)
    requires IsRef(defs, e) && defs <= more
    ensures IsRef(more, e)
  {
  }

  lemma {:induction false} PutGood(defs: seq<Def>, e: Expr)
    requires Placeable(defs, e)
    ensures var (more, x) := Put(defs, e); Extends(defs, more) && IsRef(more, x) && x.width == Width(e)
    decreases e, 1
  {
    if !e.Var? {
      PutChildrenGood(defs, e);
      var (more, flat) := PutChildren(defs, e);
      GoodStays(more, more + [Node(flat)], Node(flat));
      forall v | |defs| <= v < |more| ensures GoodDef(more + [Node(flat)], more[v]) {
        GoodStays(more, more + [Node(flat)], more[v]);
      }
    }
  }

  lemma {:induction false} PutChildrenGood(defs: seq<Def>, e: Expr)
    requires Placeable(defs, e) && !e.Var?
    ensures var (more, flat) := PutChildren(defs, e); Extends(defs, more) && IsFlat(more, flat) && Width(flat) == Width(e)
    decreases e, 0
  {
    if Arity(e) >= 1 {
      PutGood(defs, Child(e, 0));
      var (one, a) := Put(defs, Child(e, 0));
      if Arity(e) >= 2 {
        PlaceableStays(defs, one, Child(e, 1));
        PutGood(one, Child(e, 1));
        var (two, b) := Put(one, Child(e, 1));
        ExtendsTransitive(defs, one, two);
        RefStays(one, two, a);
        if Arity(e) == 3 {
          PlaceableStays(defs, two, Child(e, 2));
          PutGood(two, Child(e, 2));
          var (three, d) := Put(two, Child(e, 2));
          ExtendsTransitive(defs, two, three);
          RefStays(two, three, a);
          RefStays(two, three, b);
        }
      }
    }
  }

  // ----- the size of a circuit -----

  /** Sums a quantity of the operations of a circuit. */
  function Sum(own: Def -> nat, defs: seq<Def>): nat {
    if defs == [] then 0 else Sum(own, defs[..|defs| - 1]) + own(defs[|defs| - 1])
  }

  lemma {:induction false} SumAdds(own: Def -> nat, defs: seq<Def>, more: seq<Def>)
    ensures Sum(own, defs + more) == Sum(own, defs) + Sum(own, more)
    decreases |more|
  {
    if more == [] {
      assert defs + more == defs;
    } else {
      assert (defs + more)[..|defs + more| - 1] == defs + more[..|more| - 1];
      SumAdds(own, defs, more[..|more| - 1]);
    }
  }

  lemma {:induction false} SumUpdate(own: Def -> nat, defs: seq<Def>, v: nat, d: Def)
    requires v < |defs|
    ensures Sum(own, defs[v := d]) + own(defs[v]) == Sum(own, defs) + own(d)
    decreases |defs|
  {
    var last := |defs| - 1;
    if v < last {
      assert defs[v := d][..last] == defs[..last][v := d];
      SumUpdate(own, defs[..last], v, d);
    } else {
      assert defs[v := d][..last] == defs[..last];
    }
  }

  /** Data widths of computing and forwarding operations. */
  function ComputeOf(d: Def): nat {
    match d
    case Source(_, _, _) => 0
    case Node(e) => OwnCompute(e)
    case Choice(w, _, _, _) => w
  }

  /** Input widths of truncations. */
  function TruncOf(d: Def): nat {
    if d.Node? then OwnTrunc(d.e) else 0
  }

  /** Ranks of truncation operands. */
  function RankOf(rank: nat -> nat, d: Def): nat {
    if d.Node? && d.e.Trunc? && d.e.arg.Var? then rank(d.e.arg.id) else 0
  }

  /** An extension to the width its operand has, if that can be cut to less. */
  predicate IsIdle(e: Expr) {
    e.Ext? && Width(e.arg) == e.to && e.to >= 2
  }

  /** Ranks rise along extensions that do not extend: no cycle consists of these. */
  ghost predicate Ranked(defs: seq<Def>, rank: nat -> nat) {
    forall v: nat | v < |defs| && defs[v].Node? && IsIdle(defs[v].e) && defs[v].e.arg.Var? :: rank(defs[v].e.arg.id) < rank(v)
  }

  /** A quantity of an operation and the same of its definition. */
  ghost predicate Same(own: Def -> nat, cost: Expr -> nat) {
    && (forall e :: own(Node(e)) == cost(e)) && (forall e: Expr | e.Var? :: cost(e) == 0)
    && forall e: Expr, i: nat, x: Expr | i < Arity(e) && Width(x) == Width(Child(e, i)) :: cost(WithChild(e, i, x)) == cost(e)
  }

  /** Placing an expression adds what its operations amount to. */
  lemma {:induction false} PutSum(own: Def -> nat, cost: Expr -> nat, defs: seq<Def>, e: Expr)
    requires Same(own, cost)
    ensures Sum(own, Put(defs, e).0) == Sum(own, defs) + Total(cost, e) && Width(Put(defs, e).1) == Width(e)
    decreases e, 1
  {
    if !e.Var? {
      PutChildrenSum(own, cost, defs, e);
      var (more, flat) := PutChildren(defs, e);
      assert (more + [Node(flat)])[..|more|] == more;
    }
  }

  lemma {:induction false} PutChildrenSum(own: Def -> nat, cost: Expr -> nat, defs: seq<Def>, e: Expr)
    requires Same(own, cost)
    ensures Sum(own, PutChildren(defs, e).0) + cost(e) == Sum(own, defs) + Total(cost, e)
    ensures cost(PutChildren(defs, e).1) == cost(e)
    decreases e, 0
  {
    if Arity(e) >= 1 {
      PutSum(own, cost, defs, Child(e, 0));
      var (one, a) := Put(defs, Child(e, 0));
      WithChildShape(e, 0, a);
      if Arity(e) >= 2 {
        PutSum(own, cost, one, Child(e, 1));
        var (two, b) := Put(one, Child(e, 1));
        WithChildShape(WithChild(e, 0, a), 1, b);
        if Arity(e) == 3 {
          PutSum(own, cost, two, Child(e, 2));
        }
      }
    }
  }

  lemma ComputeIsSame()
    ensures Same(ComputeOf, OwnCompute) && Same(TruncOf, OwnTrunc)
  {
    forall e: Expr, i: nat, x: Expr | i < Arity(e) && Width(x) == Width(Child(e, i))
      ensures OwnCompute(WithChild(e, i, x)) == OwnCompute(e) && OwnTrunc(WithChild(e, i, x)) == OwnTrunc(e)
    {
      WithChildShape(e, i, x);
    }
  }
}
