/** Height reduction of trees of additions. */
module TreeHeight {
  import opened Basics
  import opened Words
  import opened BalancedTrees

  /** Additions, named so that they can be erased, over other values. */
  datatype Expr = Operand(value: nat) | Add(id: nat, lhs: Expr, rhs: Expr)

  /** The value on a `w`-bit channel. */
  function Eval(e: Expr, env: nat -> int, w: nat): (r: nat)
    ensures r < Pow2(w)
  {
    match e
    case Operand(v) => Wrap(env(v), w)
    case Add(_, l, r) => Wrap(Eval(l, env, w) + Eval(r, env, w), w)
  }

  function ComputeAddTreeHeight(e: Expr): nat {
    match e
    case Operand(_) => 0
    case Add(_, l, r) => 1 + Max(ComputeAddTreeHeight(l), ComputeAddTreeHeight(r))
  }

  function Operands(e: Expr): (vs: seq<nat>)
    ensures |vs| >= 1
  {
    match e
    case Operand(v) => [v]
    case Add(_, l, r) => Operands(l) + Operands(r)
  }

  /** The additions, operands first. */
  function Adds(e: Expr): seq<nat> {
    match e
    case Operand(_) => []
    case Add(id, l, r) => Adds(l) + Adds(r) + [id]
  }

  // ----- collecting -----

  /** Appends the operands and, except for the root, the additions below it, each after those it uses. */
  method Collect(e: Expr, isRoot: bool, operands: seq<nat>, toBeErased: seq<nat>) returns (allOperands: seq<nat>, allErased: seq<nat>)
    ensures allOperands == operands + Operands(e)
    ensures allErased == toBeErased + if isRoot && e.Add? then Adds(e)[..|Adds(e)| - 1] else Adds(e)
    decreases e
  {
    allOperands, allErased := operands, toBeErased;
    if e.Add? {
      allOperands, allErased := Collect(e.lhs, false, allOperands, allErased);
      allOperands, allErased := Collect(e.rhs, false, allOperands, allErased);
      assert Adds(e)[..|Adds(e)| - 1] == Adds(e.lhs) + Adds(e.rhs);
      if !isRoot {
        allErased := allErased + [e.id];
      }
    } else {
      allOperands := allOperands + [e.value];
    }
  }

  // ----- the sum -----

  function Sum(vs: seq<nat>, env: nat -> int): int {
    if vs == [] then 0 else env(vs[0]) + Sum(vs[1..], env)
  }

  lemma {:induction false} SumAppend(a: seq<nat>, b: seq<nat>, env: nat -> int)
    ensures Sum(a + b, env) == Sum(a, env) + Sum(b, env)
  {
    if a == [] {
      assert a + b == b;
    } else {
      assert (a + b)[1..] == a[1..] + b;
      SumAppend(a[1..], b, env);
    }
  }

  /** Whatever its shape, a tree of wrapping additions yields the sum of its operands modulo the width. */
  lemma {:induction false} EvalIsSum(e: Expr, env: nat -> int, w: nat)
    ensures Eval(e, env, w) == Wrap(Sum(Operands(e), env), w)
  {
    match e
    case Operand(v) =>
      assert Sum([v], env) == env(v) + Sum([], env);
    case Add(_, l, r) =>
      EvalIsSum(l, env, w);
      EvalIsSum(r, env, w);
      SumAppend(Operands(l), Operands(r), env);
      WrapAdd(Sum(Operands(l), env), Sum(Operands(r), env), w);
  }

  /** New additions are numbered from `id` on. */
  function FromTree(t: Tree<nat>, id: nat): Expr {
    match t
    case Leaf(v) => Operand(v)
    case Node(l, r) => Add(id + |Leaves(l)| + |Leaves(r)| - 2, FromTree(l, id), FromTree(r, id + |Leaves(l)| - 1))
  }

  lemma {:induction false} FromTreeShape(t: Tree<nat>, id: nat)
    ensures Operands(FromTree(t, id)) == Leaves(t) && ComputeAddTreeHeight(FromTree(t, id)) == Height(t)
  {
    if t.Node? {
      FromTreeShape(t.left, id);
      FromTreeShape(t.right, id + |Leaves(t.left)| - 1);
    }
  }

  /** The new additions are numbered consecutively, operands first. */
  lemma {:induction false} FromTreeAdds(t: Tree<nat>, id: nat)
    ensures Adds(FromTree(t, id)) == seq(|Leaves(t)| - 1, i => id + i)
  {
    if t.Node? {
      FromTreeAdds(t.left, id);
      FromTreeAdds(t.right, id + |Leaves(t.left)| - 1);
    }
  }

  function ToTree(e: Expr): (t: Tree<nat>)
    ensures Leaves(t) == Operands(e) && Height(t) == ComputeAddTreeHeight(e)
  {
    match e
    case Operand(v) => Leaf(v)
    case Add(_, l, r) => Node(ToTree(l), ToTree(r))
  }

  // ----- the rewrite -----

  /** `reduced` computes the same on all inputs at every width from the same operands in order, at the least possible height. */
  ghost predicate Reduces(e: Expr, reduced: Expr) {
    && Operands(reduced) == Operands(e)
    && (forall env: nat -> int, w: nat :: Eval(reduced, env, w) == Eval(e, env, w))
    && IsLowest(reduced)
  }

  ghost predicate IsLowest(e: Expr) {
    forall other: Expr | |Operands(other)| == |Operands(e)| :: ComputeAddTreeHeight(e) <= ComputeAddTreeHeight(other)
  }

  lemma LowestExactly(e: Expr)
    ensures IsLowest(e) <==> ComputeAddTreeHeight(e) == CeilLog2(|Operands(e)|)
  {
    var n := |Operands(e)|;
    var best := FromTree(Build(Operands(e)), 0);
    BuildLeaves(Operands(e));
    BuildHeight(Operands(e));
    FromTreeShape(Build(Operands(e)), 0);
    forall other: Expr | |Operands(other)| == n ensures CeilLog2(n) <= ComputeAddTreeHeight(other) {
      BuildIsLowest(Operands(e), ToTree(other));
    }
    assert |Operands(best)| == n && ComputeAddTreeHeight(best) == CeilLog2(n);
  }

  lemma BalancedReduces(op: Expr, nextId: nat)
    ensures var balanced := FromTree(Build(Operands(op)), nextId);
            Reduces(op, balanced) && ComputeAddTreeHeight(balanced) == CeilLog2(|Operands(op)|)
  {
    var operands := Operands(op);
    var balanced := FromTree(Build(operands), nextId);
    BuildLeaves(operands);
    BuildHeight(operands);
    FromTreeShape(Build(operands), nextId);
    LowestExactly(balanced);
    forall env: nat -> int, w: nat ensures Eval(balanced, env, w) == Eval(op, env, w) {
      EvalIsSum(balanced, env, w);
      EvalIsSum(op, env, w);
    }
  }

  /** Rewriting a tree that is not as low as possible lowers it. */
  lemma RewriteLowers(op: Expr, nextId: nat)
    ensures !IsLowest(op) <==> ComputeAddTreeHeight(op) != CeilLog2(|Operands(op)|)
    ensures !IsLowest(op) ==> ComputeAddTreeHeight(FromTree(Build(Operands(op)), nextId)) < ComputeAddTreeHeight(op)
  {
    LowestExactly(op);
    BalancedReduces(op, nextId);
    BuildHeight(Operands(op));
    BuildIsLowest(Operands(op), ToTree(op));
  }

  /** Applies exactly to trees that are not as low as possible. */
  method MatchAndRewrite(op: Expr, nextId: nat) returns (ok: bool, newTree: Expr, toBeErased: seq<nat>)
    requires op.Add?
    ensures ok <==> !IsLowest(op)
    ensures ok ==> Reduces(op, newTree) && ComputeAddTreeHeight(newTree) < ComputeAddTreeHeight(op)
    ensures ok ==> Adds(newTree) == seq(|Operands(op)| - 1, i => nextId + i)
    ensures toBeErased == Adds(op)[..|Adds(op)| - 1]
    ensures !ok ==> newTree == op
  {
    var operands;
    operands, toBeErased := Collect(op, true, [], []);
    assert operands == Operands(op) && toBeErased == Adds(op)[..|Adds(op)| - 1];
    RewriteLowers(op, nextId);
    if ComputeAddTreeHeight(op) == CeilLog2(|operands|) {
      return false, op, toBeErased;
    }
    BalancedReduces(op, nextId);
    BuildLeaves(operands);
    FromTreeAdds(Build(operands), nextId);
    return true, FromTree(Build(operands), nextId), toBeErased;
  }
}
