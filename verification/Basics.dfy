/** Notions shared by all parts of the model. */
module Basics {

  datatype Option<+T> = None | Some(value: T)

  function Max(a: nat, b: nat): nat {
    if a >= b then a else b
  }

  function Min(a: nat, b: nat): nat {
    if a <= b then a else b
  }

  /** All natural numbers below `n`. */
  function Ids(n: nat): (s: set<nat>)
    ensures forall b: nat :: b in s <==> b < n
  {
    if n == 0 then {} else Ids(n - 1) + {n - 1}
  }

  /** Every state follows from the one before by a step. */
  predicate Evolves<T>(run: seq<T>, step: (T, T) -> bool) {
    |run| == 1 || (|run| > 1 && Evolves(run[..|run| - 1], step) && step(run[|run| - 2], run[|run| - 1]))
  }

  lemma {:induction false} RunInvariant<T(!new)>(run: seq<T>, step: (T, T) -> bool, inv: T -> bool)
    requires Evolves(run, step) && inv(run[0]) && forall x, y | inv(x) && step(x, y) :: inv(y)
    ensures inv(run[|run| - 1])
    decreases |run|
  {
    if |run| > 1 {
      RunInvariant(run[..|run| - 1], step, inv);
    }
  }

  lemma {:induction false} EvolvesAt<T>(run: seq<T>, step: (T, T) -> bool, i: nat)
    requires Evolves(run, step) && i + 1 < |run|
    ensures step(run[i], run[i + 1])
    decreases |run|
  {
    if i + 2 < |run| {
      EvolvesAt(run[..|run| - 1], step, i);
    }
  }
}
