/** Binary trees over a list of operands, and how low they can be. */
module BalancedTrees {
  import opened Basics
  import opened Words

  datatype Tree<T> = Leaf(value: T) | Node(left: Tree<T>, right: Tree<T>)

  function Leaves<T>(t: Tree<T>): (vs: seq<T>)
    ensures |vs| >= 1
  {
    match t
    case Leaf(v) => [v]
    case Node(l, r) => Leaves(l) + Leaves(r)
  }

  function Height<T>(t: Tree<T>): nat {
    match t
    case Leaf(_) => 0
    case Node(l, r) => 1 + Max(Height(l), Height(r))
  }

  /** The rewrites' construction: both halves of the list, built the same way. */
  function Build<T>(vals: seq<T>): Tree<T>
    requires vals != []
    decreases |vals|
  {
    if |vals| == 1 then Leaf(vals[0])
    else
      var mid := |vals| / 2;
      Node(Build(vals[..mid]), Build(vals[mid..]))
  }

  lemma {:induction false} BuildLeaves<T>(vals: seq<T>)
    requires vals != []
    ensures Leaves(Build(vals)) == vals
    decreases |vals|
  {
    if |vals| > 1 {
      var mid := |vals| / 2;
      BuildLeaves(vals[..mid]);
      BuildLeaves(vals[mid..]);
      assert vals == vals[..mid] + vals[mid..];
    }
  }

  // ----- rounded-up logarithm -----

  /** The least exponent whose power of two is at least `n`. */
  predicate IsCeilLog2(n: nat, k: nat) {
    n <= Pow2(k) && forall j: nat | n <= Pow2(j) :: k <= j
  }

  function CeilLog2(n: nat): nat {
    if n <= 1 then 0 else 1 + CeilLog2((n + 1) / 2)
  }

  lemma {:induction false} CeilLog2Bounds(n: nat)
    ensures n <= Pow2(CeilLog2(n)) && (n > 1 ==> Pow2(CeilLog2(n) - 1) < n)
  {
    if n > 1 {
      CeilLog2Bounds((n + 1) / 2);
      assert CeilLog2(n) == 1 + CeilLog2((n + 1) / 2);
      if n > 2 {
        assert Pow2(CeilLog2(n) - 1) == 2 * Pow2(CeilLog2((n + 1) / 2) - 1);
      }
    }
  }

  lemma CeilLog2IsLeast(n: nat)
    ensures IsCeilLog2(n, CeilLog2(n))
  {
    CeilLog2Bounds(n);
    forall j: nat | n <= Pow2(j) ensures CeilLog2(n) <= j {
      if j < CeilLog2(n) {
        Pow2Monotone(j, CeilLog2(n) - 1);
      }
    }
  }

  lemma CeilLog2Unique(n: nat, k: nat)
    requires IsCeilLog2(n, k)
    ensures k == CeilLog2(n)
  {
    CeilLog2IsLeast(n);
  }

  lemma {:induction false} CeilLog2Monotone(a: nat, b: nat)
    requires a <= b
    ensures CeilLog2(a) <= CeilLog2(b)
    decreases b
  {
    if a > 1 {
      CeilLog2Monotone((a + 1) / 2, (b + 1) / 2);
    }
  }

  // ----- heights -----

  lemma {:induction false} BuildHeight<T>(vals: seq<T>)
    requires vals != []
    ensures Height(Build(vals)) == CeilLog2(|vals|)
    decreases |vals|
  {
    if |vals| > 1 {
      var mid := |vals| / 2;
      BuildHeight(vals[..mid]);
      BuildHeight(vals[mid..]);
      CeilLog2Monotone(mid, |vals| - mid);
      assert |vals| - mid == (|vals| + 1) / 2;
    }
  }

  lemma {:induction false} LeavesBound<T>(t: Tree<T>)
    ensures |Leaves(t)| <= Pow2(Height(t))
  {
    if t.Node? {
      LeavesBound(t.left);
      LeavesBound(t.right);
      Pow2Monotone(Height(t.left), Height(t) - 1);
      Pow2Monotone(Height(t.right), Height(t) - 1);
    }
  }

  /** No tree with as many leaves is lower than the one built from the list. */
  lemma BuildIsLowest<T>(vals: seq<T>, t: Tree<T>)
    requires vals != [] && |Leaves(t)| == |vals|
    ensures Height(Build(vals)) <= Height(t)
    ensures IsCeilLog2(|vals|, Height(Build(vals)))
  {
    BuildHeight(vals);
    CeilLog2IsLeast(|vals|);
    LeavesBound(t);
  }
}
