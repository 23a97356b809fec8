/** The fork rewrite patterns in place, and any sequence of their applications. */
module ForkPatterns {
  import opened Netlists
  import opened MaterializeValues
  import opened ForkRewrites
  import opened ForkMerges

  // ----- replacing values -----

  function Swap(from: Value, to: Value, v: Value): Value {
    if v == from then to else v
  }

  function Rename(from: seq<Value>, to: seq<Value>, v: Value): Value
    requires |from| == |to|
  {
    if from == [] then v
    else if v == from[|from| - 1] then to[|to| - 1]
    else Rename(from[..|from| - 1], to[..|to| - 1], v)
  }

  lemma {:induction false} RenameAt(from: seq<Value>, to: seq<Value>, i: nat)
    requires |from| == |to| && i < |from| && forall j | i < j < |from| :: from[j] != from[i]
    ensures Rename(from, to, from[i]) == to[i]
  {
    if i < |from| - 1 {
      RenameAt(from[..|from| - 1], to[..|to| - 1], i);
    }
  }

  lemma {:induction false} RenameOther(from: seq<Value>, to: seq<Value>, v: Value)
    requires |from| == |to| && v !in from
    ensures Rename(from, to, v) == v
  {
    if from != [] {
      assert from[|from| - 1] in from;
      assert forall x | x in from[..|from| - 1] :: x in from;
      RenameOther(from[..|from| - 1], to[..|to| - 1], v);
    }
  }

  lemma SwapLast(from: seq<Value>, to: seq<Value>, v: Value)
    requires |from| == |to| && |from| > 0
    requires forall i, j | 0 <= i < j < |from| :: from[i] != from[j]
    requires forall x | x in to :: x !in from
    ensures Swap(from[|from| - 1], to[|to| - 1], Rename(from[..|from| - 1], to[..|to| - 1], v)) == Rename(from, to, v)
  {
    var f, t := from[..|from| - 1], to[..|to| - 1];
    if v in f {
      var i :| 0 <= i < |f| && f[i] == v;
      RenameAt(f, t, i);
      assert to[i] in to && from[|from| - 1] in from;
    } else {
      RenameOther(f, t, v);
    }
  }

  lemma SameMapped(op: Op, rho: Value -> Value, sigma: Value -> Value)
    requires forall i | 0 <= i < |op.operands| :: rho(op.operands[i]) == sigma(op.operands[i])
    ensures Mapped(op, rho) == Mapped(op, sigma)
  {
  }

  method ReplaceAllUsesWith(func: HandshakeFunc, from: Value, to: Value)
    modifies func
    ensures func.ops.Keys == old(func.ops).Keys
    ensures forall o | o in func.ops :: func.ops[o] == Mapped(old(func.ops)[o], v => Swap(from, to, v))
  {
    func.ops := map o | o in func.ops :: Mapped(func.ops[o], v => Swap(from, to, v));
  }

  /** One after the other, which amounts to all at once as no new value is among the old ones. */
  method ReplaceResults(func: HandshakeFunc, from: seq<Value>, to: seq<Value>)
    requires |from| == |to| && forall i, j | 0 <= i < j < |from| :: from[i] != from[j]
    requires forall x | x in to :: x !in from
    modifies func
    ensures func.ops.Keys == old(func.ops).Keys
    ensures forall o | o in func.ops :: func.ops[o] == Mapped(old(func.ops)[o], v => Rename(from, to, v))
  {
    for i := 0 to |from|
      invariant func.ops.Keys == old(func.ops).Keys
      invariant forall o | o in func.ops :: func.ops[o] == Mapped(old(func.ops)[o], v => Rename(from[..i], to[..i], v))
    {
      ghost var before := func.ops;
      ReplaceAllUsesWith(func, from[i], to[i]);
      forall o | o in func.ops ensures func.ops[o] == Mapped(old(func.ops)[o], v => Rename(from[..i + 1], to[..i + 1], v)) {
        RenamedOnce(from, to, i, old(func.ops)[o], before[o], func.ops[o]);
      }
    }
    assert from[..|from|] == from && to[..|to|] == to;
  }

  lemma RenamedOnce(from: seq<Value>, to: seq<Value>, i: nat, was: Op, before: Op, now: Op)
    requires |from| == |to| && i < |from| && forall i, j | 0 <= i < j < |from| :: from[i] != from[j]
    requires forall x | x in to :: x !in from
    requires before == Mapped(was, v => Rename(from[..i], to[..i], v)) && now == Mapped(before, v => Swap(from[i], to[i], v))
    ensures now == Mapped(was, v => Rename(from[..i + 1], to[..i + 1], v))
  {
    var f, t := from[..i + 1], to[..i + 1];
    assert f[..i] == from[..i] && t[..i] == to[..i];
    forall x | x in t ensures x !in f {
      assert x in to;
    }
    forall k | 0 <= k < |was.operands| ensures now.operands[k] == Rename(f, t, was.operands[k]) {
      SwapLast(f, t, was.operands[k]);
    }
  }

  // ----- EraseSingleOutputForks -----

  predicate FedByLazyFork(n: Netlist, f: nat)
    requires f in n.ops && |n.ops[f].operands| == 1
  {
    var x := n.ops[f].operands[0];
    x.Result? && x.op in n.ops && n.ops[x.op].kind.LazyFork?
  }

  /** Applies to forks with one result that are not fed by a lazy fork. */
  method EraseSingleOutputForks(func: HandshakeFunc, f: nat) returns (ok: bool)
    requires func.Net().WellFormed() && func.Net().Grounded() && f in func.ops && func.ops[f].kind.Fork?
    modifies func
    ensures ok <==> |old(func.ops)[f].results| == 1 && !FedByLazyFork(old(func.Net()), f)
    ensures ok ==> BypassStep(old(func.Net()), func.Net(), f)
    ensures !ok ==> func.ops == old(func.ops)
  {
    if |func.ops[f].results| != 1 || FedByLazyFork(func.Net(), f) {
      return false;
    }
    ghost var n := func.Net();
    var x := func.ops[f].operands[0];
    FeedsOther(n, f);
    ReplaceAllUsesWith(func, Result(f, 0), x);
    func.ops := func.ops - {f};
    forall o | o in func.ops ensures func.ops[o] == Mapped(n.ops[o], v => Bypass(n, f, v)) {
      forall i: nat | n.HasOperand(o, i) ensures Swap(Result(f, 0), x, n.ops[o].operands[i]) == Bypass(n, f, n.ops[o].operands[i]) {
        assert n.Exists(n.ops[o].operands[i]);
      }
      SameMapped(n.ops[o], v => Swap(Result(f, 0), x, v), v => Bypass(n, f, v));
    }
    ok := true;
  }

  // ----- MinimizeForkSizes -----

  /** Sinks do not count, so erasing some changes nothing. */
  lemma SinksDoNotCount(n: Netlist, m: Netlist, v: Value)
    requires (forall o | o in m.ops :: o in n.ops && m.ops[o] == n.ops[o])
    requires forall o | o in n.ops && o !in m.ops :: n.ops[o].kind.Sink?
    ensures HasRealUses(m, v) <==> HasRealUses(n, v)
  {
  }

  function SinksOfResult(ops: Ops, res: Value): set<nat> {
    set o | o in ops && ops[o].operands == [res] && ops[o].kind.Sink?
  }

  lemma SinksSoFar(n: Netlist, f: nat, i: nat)
    requires n.WellFormed()
    ensures SinksOf(n, f, i + 1) == SinksOf(n, f, i) + if HasRealUses(n, Result(f, i)) then {} else SinksOfResult(n.ops, Result(f, i))
  {
    forall o | o in n.ops && n.ops[o].kind.Sink?
      ensures o in SinksOf(n, f, i + 1) <==>
              o in SinksOf(n, f, i) || (!HasRealUses(n, Result(f, i)) && o in SinksOfResult(n.ops, Result(f, i)))
    {
      var v := n.ops[o].operands[0];
      assert n.ops[o].operands == [v];
    }
  }

  /** Collects the used results and erases the sinks of the others. */
  method EraseSpareSinks(func: HandshakeFunc, f: nat, k: nat) returns (used: seq<nat>)
    requires func.Net().WellFormed()
    modifies func
    ensures used == UsedResults(old(func.Net()), f, k)
    ensures func.ops == old(func.ops) - SinksOf(old(func.Net()), f, k)
  {
    ghost var n := func.Net();
    used := [];
    for i := 0 to k
      invariant used == UsedResults(n, f, i) && func.ops == n.ops - SinksOf(n, f, i)
    {
      var res := Result(f, i);
      SinksDoNotCount(n, func.Net(), res);
      SinksSoFar(n, f, i);
      if HasRealUses(func.Net(), res) {
        used := used + [i];
      } else {
        MinusBoth(n.ops, SinksOf(n, f, i), res);
        func.ops := func.ops - SinksOfResult(func.ops, res);
      }
    }
  }

  lemma MinusBoth(ops: Ops, gone: set<nat>, res: Value)
    ensures (ops - gone) - SinksOfResult(ops - gone, res) == ops - (gone + SinksOfResult(ops, res))
  {
  }

  function ResultsAt(f: nat, used: seq<nat>): (vs: seq<Value>)
    ensures forall v | v in vs :: v.Result? && v.op == f && v.idx in used
  {
    seq(|used|, j requires 0 <= j < |used| => Result(f, used[j]))
  }

  function ResultsOf(o: nat, first: nat, count: nat): seq<Value> {
    seq(count, j requires 0 <= j => Result(o, first + j))
  }

  lemma {:induction false} UsedAscend(n: Netlist, f: nat, k: nat)
    ensures forall j | 0 <= j < |UsedResults(n, f, k)| :: UsedResults(n, f, k)[j] < k
    ensures forall i, j | 0 <= i < j < |UsedResults(n, f, k)| :: UsedResults(n, f, k)[i] < UsedResults(n, f, k)[j]
  {
    if k > 0 {
      UsedAscend(n, f, k - 1);
    }
  }

  lemma RenameUsed(n: Netlist, f: nat, smaller: nat, k: nat, v: Value)
    requires smaller != f && (v.Result? && v.op == f ==> v.idx < k)
    ensures var used := UsedResults(n, f, k);
            Rename(ResultsAt(f, used), ResultsOf(smaller, 0, |used|), v) == ToSmaller(n, f, smaller, v)
  {
    var used := UsedResults(n, f, k);
    UsedAscend(n, f, k);
    if v.Result? && v.op == f && HasRealUses(n, v) {
      UsedPosition(n, f, v.idx, k);
      RenameAt(ResultsAt(f, used), ResultsOf(smaller, 0, |used|), |UsedResults(n, f, v.idx)|);
    } else {
      RenameOther(ResultsAt(f, used), ResultsOf(smaller, 0, |used|), v);
    }
  }

  lemma MappedUsed(n: Netlist, f: nat, smaller: nat, k: nat, op: Op, rho: Value -> Value)
    requires f in n.ops && k == |n.ops[f].results| && smaller != f && forall v | v in op.operands :: n.Exists(v)
    requires var used := UsedResults(n, f, k); forall v :: rho(v) == Rename(ResultsAt(f, used), ResultsOf(smaller, 0, |used|), v)
    ensures Mapped(op, rho) == Mapped(op, v => ToSmaller(n, f, smaller, v))
  {
    forall i | 0 <= i < |op.operands| ensures rho(op.operands[i]) == ToSmaller(n, f, smaller, op.operands[i]) {
      assert op.operands[i] in op.operands;
      RenameUsed(n, f, smaller, k, op.operands[i]);
    }
  }

  /** Applies to forks with a result that has no real use. */
  method MinimizeForkSizes(func: HandshakeFunc, f: nat) returns (ok: bool, ghost smaller: nat)
    requires func.Net().WellFormed() && func.Net().Grounded() && f in func.ops && func.ops[f].kind.Fork?
    modifies func
    ensures ok <==> exists i | 0 <= i < |old(func.ops)[f].results| :: !HasRealUses(old(func.Net()), Result(f, i))
    ensures ok ==> MinimizeStep(old(func.Net()), func.Net(), f, smaller, |old(func.ops)[f].results|)
    ensures !ok ==> func.ops == old(func.ops)
  {
    ghost var n := func.Net();
    var k := |func.ops[f].results|;
    var newFork := func.FreshOp();
    smaller := newFork;
    var used := EraseSpareSinks(func, f, k);
    AllOrSome(n, f, k);
    if |used| == k {
      assert func.ops == n.ops;
      return false, smaller;
    }
    if used != [] {
      InsertSmallerFork(func, n, f, newFork, used);
    } else {
      NothingToReplace(n, func.ops, f, smaller);
    }
    ghost var m := func.ops;
    func.ops := func.ops - {f};
    MinimizedInPlace(n, m, func.Net(), f, smaller);
    ok := true;
  }

  /** After the replacements, before the fork is erased. */
  predicate Shrunk(n: Netlist, ops: Ops, f: nat, smaller: nat)
    requires f in n.ops
  {
    var added := SmallerFork(n, f, smaller);
    && ops.Keys == n.ops.Keys - SinksOf(n, f, |n.ops[f].results|) + added.Keys
    && (forall o | o in ops && o in n.ops :: ops[o] == Mapped(n.ops[o], v => ToSmaller(n, f, smaller, v)))
    && forall o | o in added :: o in ops && ops[o] == added[o]
  }

  lemma NothingToReplace(n: Netlist, ops: Ops, f: nat, smaller: nat)
    requires n.WellFormed() && f in n.ops && UsedResults(n, f, |n.ops[f].results|) == []
    requires ops == n.ops - SinksOf(n, f, |n.ops[f].results|)
    ensures Shrunk(n, ops, f, smaller)
  {
    forall o | o in ops ensures ops[o] == Mapped(n.ops[o], v => ToSmaller(n, f, smaller, v)) {
      NoUsedResults(n, f, smaller, o);
    }
  }

  lemma MinimizedInPlace(n: Netlist, ops: Ops, m: Netlist, f: nat, smaller: nat)
    requires n.WellFormed() && n.Grounded() && f in n.ops && n.ops[f].kind.Fork? && smaller !in n.ops
    requires Shrunk(n, ops, f, smaller) && m.args == n.args && m.throughLazy == n.throughLazy && m.ops == ops - {f}
    ensures MinimizeStep(n, m, f, smaller, |n.ops[f].results|)
  {
  }

  lemma NoUsedResults(n: Netlist, f: nat, smaller: nat, o: nat)
    requires n.WellFormed() && f in n.ops && UsedResults(n, f, |n.ops[f].results|) == [] && o in n.ops
    ensures n.ops[o] == Mapped(n.ops[o], v => ToSmaller(n, f, smaller, v))
  {
    forall i: nat | n.HasOperand(o, i) ensures ToSmaller(n, f, smaller, n.ops[o].operands[i]) == n.ops[o].operands[i] {
      var v := n.ops[o].operands[i];
      assert n.Exists(v);
      assert v.Result? ==> v.idx !in UsedResults(n, f, |n.ops[f].results|);
    }
    assert Mapped(n.ops[o], v => ToSmaller(n, f, smaller, v)).operands == n.ops[o].operands;
  }

  method InsertSmallerFork(func: HandshakeFunc, ghost n: Netlist, f: nat, newFork: nat, used: seq<nat>)
    requires n.WellFormed() && n.Grounded() && f in n.ops && n.ops[f].kind.Fork? && newFork !in n.ops && used != []
    requires used == UsedResults(n, f, |n.ops[f].results|) && func.args == n.args && f in func.ops
    requires func.ops == n.ops - SinksOf(n, f, |n.ops[f].results|)
    modifies func
    ensures Shrunk(n, func.ops, f, newFork)
  {
    ghost var k := |n.ops[f].results|;
    func.ops := func.ops[newFork := Op(Fork, func.ops[f].operands, seq(|used|, _ => true))];
    ghost var before := func.ops;
    UsedAscend(n, f, k);
    ReplaceResults(func, ResultsAt(f, used), ResultsOf(newFork, 0, |used|));
    ghost var rho := v => if |ResultsAt(f, used)| == |used| then Rename(ResultsAt(f, used), ResultsOf(newFork, 0, |used|), v) else v;
    forall o | o in n.ops ensures Mapped(n.ops[o], rho) == Mapped(n.ops[o], v => ToSmaller(n, f, newFork, v)) {
      forall v | v in n.ops[o].operands ensures n.Exists(v) {
        var i: nat :| i < |n.ops[o].operands| && n.ops[o].operands[i] == v;
        assert n.HasOperand(o, i);
      }
      MappedUsed(n, f, newFork, k, n.ops[o], rho);
    }
    FeedsOther(n, f);
    RenameOther(ResultsAt(f, used), ResultsOf(newFork, 0, |used|), n.ops[f].operands[0]);
    assert func.ops[newFork].operands == n.ops[f].operands;
    forall o | o in old(func.ops) ensures func.ops[o] == Mapped(n.ops[o], v => ToSmaller(n, f, newFork, v)) {
      SameMapped(n.ops[o], v => Rename(ResultsAt(f, used), ResultsOf(newFork, 0, |used|), v), rho);
    }
  }

  /** All results are used exactly when the list of used ones is complete. */
  lemma {:induction false} AllOrSome(n: Netlist, f: nat, k: nat)
    ensures |UsedResults(n, f, k)| == k <==> forall i | 0 <= i < k :: HasRealUses(n, Result(f, i))
    ensures (forall i | 0 <= i < k :: HasRealUses(n, Result(f, i))) ==> SinksOf(n, f, k) == {}
  {
    if k > 0 {
      AllOrSome(n, f, k - 1);
    }
  }

  // ----- EliminateForksToForks -----

  /** The results to replace, in the order of the merged fork's results. */
  function MergedFrom(d: nat, k: nat, f: nat, nd: nat, nf: nat, single: bool): seq<Value>
    requires k < nd
  {
    var first := nd - if single then 1 else 0;
    seq(first + nf, i requires 0 <= i < first + nf =>
      if i >= first then Result(f, i - first) else Result(d, if single && i >= k then i + 1 else i))
  }

  lemma RenameMerged(n: Netlist, d: nat, k: nat, f: nat, big: nat, single: bool, v: Value)
    requires d in n.ops && f in n.ops && d != f && k < |n.ops[d].results| && n.Exists(v)
    ensures var from := MergedFrom(d, k, f, |n.ops[d].results|, |n.ops[f].results|, single);
            Rename(from, ResultsOf(big, 0, |from|), v) == Merge(n, d, k, f, big, single, v)
  {
    var nd, nf := |n.ops[d].results|, |n.ops[f].results|;
    var first := nd - if single then 1 else 0;
    if v.Result? && v.op == f {
      RenameMergedAt(d, k, f, nd, nf, single, big, first + v.idx);
    } else if v.Result? && v.op == d && !(single && v.idx == k) {
      RenameMergedAt(d, k, f, nd, nf, single, big, if single && v.idx > k then v.idx - 1 else v.idx);
    } else {
      var from := MergedFrom(d, k, f, nd, nf, single);
      RenameOther(from, ResultsOf(big, 0, |from|), v);
    }
  }

  lemma RenameMergedAt(d: nat, k: nat, f: nat, nd: nat, nf: nat, single: bool, big: nat, i: nat)
    requires d != f && k < nd && i < |MergedFrom(d, k, f, nd, nf, single)|
    ensures var from := MergedFrom(d, k, f, nd, nf, single); Rename(from, ResultsOf(big, 0, |from|), from[i]) == Result(big, i)
  {
    var from := MergedFrom(d, k, f, nd, nf, single);
    RenameAt(from, ResultsOf(big, 0, |from|), i);
  }

  method CollectMerged(d: nat, k: nat, f: nat, nd: nat, nf: nat, single: bool) returns (from: seq<Value>)
    requires k < nd
    ensures from == MergedFrom(d, k, f, nd, nf, single)
  {
    from := [];
    for i := 0 to nd
      invariant |from| == i - if single && k < i then 1 else 0
      invariant forall j | 0 <= j < |from| :: from[j] == Result(d, if single && j >= k then j + 1 else j)
    {
      if !(single && i == k) {
        from := from + [Result(d, i)];
      }
    }
    for i := 0 to nf
      invariant from == MergedFrom(d, k, f, nd, nf, single)[..nd - (if single then 1 else 0) + i]
    {
      from := from + [Result(f, i)];
    }
  }

  /** The use of the result between the forks is its only one exactly when nothing but the second fork uses it. */
  lemma SingleUse(n: Netlist, d: nat, k: nat, f: nat)
    requires n.WellFormed() && f in n.ops && n.ops[f].kind.Fork? && n.ops[f].operands[0] == Result(d, k)
    ensures n.UsedOnce(Result(d, k)) <==> forall o: nat, i: nat | n.IsUse(Result(d, k), o, i) :: o == f
  {
    assert n.IsUse(Result(d, k), f, 0);
    if forall o: nat, i: nat | n.IsUse(Result(d, k), o, i) :: o == f {
      assert n.UsedAt(Result(d, k), f, 0);
    }
  }

  /** Applies to forks fed by a fork, which is left in place. */
  method EliminateForksToForks(func: HandshakeFunc, f: nat) returns (ok: bool, ghost big: nat, ghost single: bool)
    requires func.Net().WellFormed() && func.Net().Grounded() && f in func.ops && func.ops[f].kind.Fork?
    modifies func
    ensures var x := old(func.ops)[f].operands[0]; ok <==> x.Result? && x.op in old(func.ops) && old(func.ops)[x.op].kind.Fork?
    ensures ok ==> var x := old(func.ops)[f].operands[0]; MergeStep(old(func.Net()), func.Net(), x.op, x.idx, f, big, single)
    ensures !ok ==> func.ops == old(func.ops)
  {
    ghost var n := func.Net();
    var forkOprd := func.ops[f].operands[0];
    big, single := 0, false;
    if forkOprd.FuncArg? || forkOprd.op !in func.ops || !func.ops[forkOprd.op].kind.Fork? {
      return false, big, single;
    }
    var d, k := forkOprd.op, forkOprd.idx;
    FedFromElsewhere(n, d, k, f);
    var users := func.CollectUsers(forkOprd);
    CountsUses(n, forkOprd, users);
    SingleUse(n, d, k, f);
    big, single := ReplaceByMerged(func, d, k, f, |users| == 1);
    ok := true;
  }

  method ReplaceByMerged(func: HandshakeFunc, d: nat, k: nat, f: nat, isSingle: bool) returns (ghost big: nat, ghost single: bool)
    requires Feeds(func.Net(), d, k, f) && d != f && k < |func.ops[d].results|
    requires isSingle == (forall o: nat, i: nat | func.Net().IsUse(Result(d, k), o, i) :: o == f)
    modifies func
    ensures MergeStep(old(func.Net()), func.Net(), d, k, f, big, single)
  {
    ghost var n := func.Net();
    var newFork := func.FreshOp();
    var from := CollectMerged(d, k, f, |func.ops[d].results|, |func.ops[f].results|, isSingle);
    func.ops := func.ops[newFork := Op(Fork, func.ops[d].operands, seq(|from|, _ => true))];
    ReplaceResults(func, from, ResultsOf(newFork, 0, |from|));
    ghost var m := func.ops;
    func.ops := func.ops - {f};
    big, single := newFork, isSingle;
    MergedInPlace(n, m, func.Net(), d, k, f, big, single);
  }

  lemma MappedMerged(n: Netlist, d: nat, k: nat, f: nat, big: nat, single: bool, o: nat, op: Op)
    requires n.WellFormed() && d in n.ops && f in n.ops && d != f && k < |n.ops[d].results| && o in n.ops
    requires var from := MergedFrom(d, k, f, |n.ops[d].results|, |n.ops[f].results|, single);
             op == Mapped(n.ops[o], v => Rename(from, ResultsOf(big, 0, |from|), v))
    ensures op == Mapped(n.ops[o], v => Merge(n, d, k, f, big, single, v))
  {
    forall i: nat | n.HasOperand(o, i) ensures op.operands[i] == Merge(n, d, k, f, big, single, n.ops[o].operands[i]) {
      RenameMerged(n, d, k, f, big, single, n.ops[o].operands[i]);
    }
    assert op.operands == Mapped(n.ops[o], v => Merge(n, d, k, f, big, single, v)).operands;
  }

  lemma MergedInPlace(n: Netlist, ops: Ops, m: Netlist, d: nat, k: nat, f: nat, big: nat, single: bool)
    requires Feeds(n, d, k, f) && big !in n.ops && d != f && k < |n.ops[d].results|
    requires single == (forall o: nat, i: nat | n.IsUse(Result(d, k), o, i) :: o == f)
    requires ops.Keys == n.ops.Keys + {big} && m.args == n.args && m.throughLazy == n.throughLazy && m.ops == ops - {f}
    requires var from := MergedFrom(d, k, f, |n.ops[d].results|, |n.ops[f].results|, single);
             && (forall o | o in n.ops :: ops[o] == Mapped(n.ops[o], v => Rename(from, ResultsOf(big, 0, |from|), v)))
             && ops[big] == Mapped(Op(Fork, n.ops[d].operands, seq(|from|, _ => true)), v => Rename(from, ResultsOf(big, 0, |from|), v))
    ensures MergeStep(n, m, d, k, f, big, single)
  {
    AllMappedMerged(n, ops, d, k, f, big, single);
    NewForkMerged(n, d, k, f, big, single, ops[big]);
  }

  lemma AllMappedMerged(n: Netlist, ops: Ops, d: nat, k: nat, f: nat, big: nat, single: bool)
    requires n.WellFormed() && d in n.ops && f in n.ops && d != f && k < |n.ops[d].results| && n.ops.Keys <= ops.Keys
    requires var from := MergedFrom(d, k, f, |n.ops[d].results|, |n.ops[f].results|, single);
             forall o | o in n.ops :: ops[o] == Mapped(n.ops[o], v => Rename(from, ResultsOf(big, 0, |from|), v))
    ensures forall o | o in n.ops :: ops[o] == Mapped(n.ops[o], v => Merge(n, d, k, f, big, single, v))
  {
    forall o | o in n.ops ensures ops[o] == Mapped(n.ops[o], v => Merge(n, d, k, f, big, single, v)) {
      MappedMerged(n, d, k, f, big, single, o, ops[o]);
    }
  }

  lemma NewForkMerged(n: Netlist, d: nat, k: nat, f: nat, big: nat, single: bool, op: Op)
    requires Feeds(n, d, k, f) && d != f && k < |n.ops[d].results|
    requires var from := MergedFrom(d, k, f, |n.ops[d].results|, |n.ops[f].results|, single);
             op == Mapped(Op(Fork, n.ops[d].operands, seq(|from|, _ => true)), v => Rename(from, ResultsOf(big, 0, |from|), v))
    ensures op == BigFork(n, d, f, big, single)[big]
  {
    FedFromElsewhere(n, d, k, f);
    RenameMerged(n, d, k, f, big, single, n.ops[d].operands[0]);
    assert op.operands == n.ops[d].operands;
  }
}
