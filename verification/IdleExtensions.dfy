/** Extensions to the width their operand has: cycles of these, and how far truncations look along them. */
module IdleExtensions {
  import opened Basics
  import opened Expressions
  import opened PatternCosts
  import opened Circuits

  /** The value extends another one to the width it has. */
  predicate IdleAt(defs: seq<Def>, x: nat) {
    x < |defs| && defs[x].Node? && IsIdle(defs[x].e) && defs[x].e.arg.Var?
  }

  function Extended(defs: seq<Def>, x: nat): nat
    requires IdleAt(defs, x)
  {
    defs[x].e.arg.id
  }

  /** Each of the values extends one of them. */
  ghost predicate ClosedUnder(defs: seq<Def>, s: set<nat>) {
    forall x | x in s :: IdleAt(defs, x) && Extended(defs, x) in s
  }

  ghost predicate HasIdleCycle(defs: seq<Def>) {
    exists s: set<nat> :: s != {} && ClosedUnder(defs, s)
  }

  /** A truncation that keeps less than its operand has. */
  predicate IsCut(defs: seq<Def>, v: nat) {
    v < |defs| && defs[v].Node? && defs[v].e.Trunc? && defs[v].e.arg.Var? && defs[v].e.to < defs[v].e.arg.width
  }

  /** Some truncation reads a cycle of extensions that do not extend. */
  ghost predicate CutsIdleCycle(defs: seq<Def>) {
    exists v: nat, s: set<nat> :: IsCut(defs, v) && defs[v].e.arg.id in s && ClosedUnder(defs, s)
  }

  // ----- chains -----

  /** Looking behind at most `k` of them leads elsewhere. */
  predicate LeavesIn(defs: seq<Def>, x: nat, k: nat)
    decreases k
  {
    !IdleAt(defs, x) || (k > 0 && LeavesIn(defs, Extended(defs, x), k - 1))
  }

  ghost predicate Endless(defs: seq<Def>, x: nat) {
    forall k: nat :: !LeavesIn(defs, x, k)
  }

  ghost function Least(defs: seq<Def>, x: nat, from: nat, k: nat): (least: nat)
    requires from <= k && LeavesIn(defs, x, k) && forall i: nat | i < from :: !LeavesIn(defs, x, i)
    ensures LeavesIn(defs, x, least) && forall i: nat | i < least :: !LeavesIn(defs, x, i)
    decreases k - from
  {
    if LeavesIn(defs, x, from) then from else Least(defs, x, from + 1, k)
  }

  /** How many of them there are one behind the other. */
  ghost function Depth(defs: seq<Def>, x: nat): (depth: nat)
    ensures !Endless(defs, x) ==> LeavesIn(defs, x, depth) && forall i: nat | i < depth :: !LeavesIn(defs, x, i)
    ensures Endless(defs, x) ==> depth == 0
  {
    if Endless(defs, x) then 0
    else
      var k: nat :| LeavesIn(defs, x, k);
      Least(defs, x, 0, k)
  }

  ghost function DepthIn(defs: seq<Def>): nat -> nat {
    (x: nat) => Depth(defs, x)
  }

  lemma DepthStep(defs: seq<Def>, x: nat)
    requires IdleAt(defs, x) && !Endless(defs, x)
    ensures Depth(defs, Extended(defs, x)) < Depth(defs, x)
  {
    var k := Depth(defs, x);
    assert LeavesIn(defs, Extended(defs, x), k - 1);
  }

  lemma {:induction false} ClosedIsEndless(defs: seq<Def>, s: set<nat>, x: nat, k: nat)
    requires ClosedUnder(defs, s) && x in s
    ensures !LeavesIn(defs, x, k)
    decreases k
  {
    if k > 0 {
      ClosedIsEndless(defs, s, Extended(defs, x), k - 1);
    }
  }

  /** All values from which the chain does not end. */
  lemma EndlessIsClosed(defs: seq<Def>, x: nat) returns (s: set<nat>)
    requires Endless(defs, x)
    ensures x in s && ClosedUnder(defs, s)
  {
    assert !LeavesIn(defs, x, 0);
    s := set y | y in Ids(|defs|) && Endless(defs, y);
    forall y | y in s ensures IdleAt(defs, y) && Extended(defs, y) in s {
      assert !LeavesIn(defs, y, 0);
      var z := Extended(defs, y);
      forall k: nat ensures !LeavesIn(defs, z, k) {
        assert !LeavesIn(defs, y, k + 1);
      }
      assert !LeavesIn(defs, z, 0);
    }
  }

  /** Truncations that do not read a cycle look behind finitely many. */
  lemma CutIsFinite(defs: seq<Def>, v: nat)
    requires IsCut(defs, v) && !CutsIdleCycle(defs)
    ensures !Endless(defs, defs[v].e.arg.id)
  {
    if Endless(defs, defs[v].e.arg.id) {
      var s := EndlessIsClosed(defs, defs[v].e.arg.id);
    }
  }

  // ----- ranks -----

  lemma {:induction false} RankedIsOpen(defs: seq<Def>, rank: nat -> nat, s: set<nat>, x: nat)
    requires Ranked(defs, rank) && ClosedUnder(defs, s)
    ensures x !in s
    decreases rank(x)
  {
    if x in s {
      RankedIsOpen(defs, rank, s, Extended(defs, x));
    }
  }

  lemma RankedHasNoCycle(defs: seq<Def>, rank: nat -> nat)
    requires Ranked(defs, rank)
    ensures !HasIdleCycle(defs)
  {
    if s: set<nat> :| s != {} && ClosedUnder(defs, s) {
      var x :| x in s;
      RankedIsOpen(defs, rank, s, x);
    }
  }

  lemma DepthRanks(defs: seq<Def>)
    requires !HasIdleCycle(defs)
    ensures Ranked(defs, DepthIn(defs))
  {
    var rank := DepthIn(defs);
    forall v: nat | v < |defs| && defs[v].Node? && IsIdle(defs[v].e) && defs[v].e.arg.Var? ensures rank(defs[v].e.arg.id) < rank(v) {
      assert IdleAt(defs, v);
      if Endless(defs, v) {
        var s := EndlessIsClosed(defs, v);
      }
      DepthStep(defs, v);
    }
  }

  /** Ranks exist exactly where there is no cycle. */
  lemma RankedExactly(defs: seq<Def>)
    ensures (exists rank :: Ranked(defs, rank)) <==> !HasIdleCycle(defs)
  {
    if !HasIdleCycle(defs) {
      DepthRanks(defs);
    } else {
      forall rank ensures !Ranked(defs, rank) {
        if Ranked(defs, rank) {
          RankedHasNoCycle(defs, rank);
        }
      }
    }
  }

  lemma CutCycleIsCycle(defs: seq<Def>)
    requires CutsIdleCycle(defs)
    ensures HasIdleCycle(defs)
  {
  }

  // ----- circuits that differ elsewhere -----

  ghost predicate SameChains(defs: seq<Def>, more: seq<Def>) {
    forall x: nat :: (IdleAt(defs, x) <==> IdleAt(more, x)) && (IdleAt(defs, x) ==> Extended(more, x) == Extended(defs, x))
  }

  lemma {:induction false} SameLeaves(defs: seq<Def>, more: seq<Def>, x: nat, k: nat)
    requires SameChains(defs, more)
    ensures LeavesIn(more, x, k) <==> LeavesIn(defs, x, k)
    decreases k
  {
    if k > 0 && IdleAt(defs, x) {
      SameLeaves(defs, more, Extended(defs, x), k - 1);
    }
  }

  lemma SameDepth(defs: seq<Def>, more: seq<Def>, x: nat)
    requires SameChains(defs, more)
    ensures Depth(more, x) == Depth(defs, x)
  {
    forall k: nat ensures LeavesIn(more, x, k) <==> LeavesIn(defs, x, k) {
      SameLeaves(defs, more, x, k);
    }
    if !Endless(defs, x) {
      var k: nat :| LeavesIn(defs, x, k);
      assert LeavesIn(more, x, k);
      var a, b := Depth(defs, x), Depth(more, x);
      assert LeavesIn(more, x, a) && LeavesIn(defs, x, b);
    }
  }
}
