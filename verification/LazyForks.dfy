/** Promotion of eager forks that feed several group allocations of one load-store queue to lazy forks. */
module LazyForks {
  import opened Netlists
  import opened MaterializeValues
  import opened ForkRewrites
  import opened ForkPatterns

  // ----- the promotion -----

  /** The result indices below `k` that need not be lazy, in order. */
  function Others(lazy: seq<nat>, k: nat): (os: seq<nat>)
    ensures forall i | i in os :: i < k && i !in lazy
  {
    if k == 0 then [] else Others(lazy, k - 1) + if k - 1 in lazy then [] else [k - 1]
  }

  lemma {:induction false} OtherPosition(lazy: seq<nat>, i: nat, k: nat)
    requires i < k && i !in lazy
    ensures |Others(lazy, i)| < |Others(lazy, k)| && Others(lazy, k)[|Others(lazy, i)|] == i
  {
    if i < k - 1 {
      OtherPosition(lazy, i, k - 1);
    }
  }

  lemma {:induction false} OtherAtPosition(lazy: seq<nat>, j: nat, k: nat)
    requires j < |Others(lazy, k)|
    ensures Others(lazy, k)[j] < k && Others(lazy, k)[j] !in lazy && |Others(lazy, Others(lazy, k)[j])| == j
  {
    if j < |Others(lazy, k - 1)| {
      OtherAtPosition(lazy, j, k - 1);
    }
  }

  lemma {:induction false} OthersDistinct(lazy: seq<nat>, k: nat)
    ensures forall i, j | 0 <= i < j < |Others(lazy, k)| :: Others(lazy, k)[i] != Others(lazy, k)[j]
  {
    if k > 0 {
      OthersDistinct(lazy, k - 1);
      var os := Others(lazy, k - 1);
      assert forall i | 0 <= i < |os| :: os[i] in os;
    }
  }

  function IndexOf(lazy: seq<nat>, i: nat): (j: nat)
    requires i in lazy
    ensures j < |lazy| && lazy[j] == i
  {
    if lazy[0] == i then 0 else IndexOf(lazy[1..], i) + 1
  }

  /** What each result of the fork becomes: a result of the lazy fork if it must be lazy or is the only other one, a result of
      an eager fork behind it otherwise. */
  function Promote(n: Netlist, f: nat, lazy: seq<nat>, lazyFork: nat, eagerFork: nat, v: Value): Value
    requires f in n.ops
  {
    if !(v.Result? && v.op == f) then v
    else if v.idx in lazy then Result(lazyFork, IndexOf(lazy, v.idx))
    else if |Others(lazy, |n.ops[f].results|)| == 1 then Result(lazyFork, |lazy|)
    else Result(eagerFork, |Others(lazy, v.idx)|)
  }

  function NewForks(n: Netlist, f: nat, lazy: seq<nat>, lazyFork: nat, eagerFork: nat): Ops
    requires f in n.ops
  {
    var rest := |Others(lazy, |n.ops[f].results|)|;
    var one := map[lazyFork := Op(LazyFork, n.ops[f].operands, seq(|lazy| + (if rest > 0 then 1 else 0), _ => true))];
    if rest < 2 then one else one[eagerFork := Op(Fork, [Result(lazyFork, |lazy|)], seq(rest, _ => true))]
  }

  /** A fork and at least two of its results, each once. */
  ghost predicate Promotable(n: Netlist, f: nat, lazy: seq<nat>) {
    && n.WellFormed() && n.Grounded() && f in n.ops && n.ops[f].kind.Fork? && |lazy| >= 2 && n.throughLazy
    && (forall i | i in lazy :: i < |n.ops[f].results|)
    && forall i, j | 0 <= i < j < |lazy| :: lazy[i] != lazy[j]
  }

  ghost predicate Promoted(n: Netlist, m: Netlist, f: nat, lazy: seq<nat>, lazyFork: nat, eagerFork: nat) {
    && Promotable(n, f, lazy) && lazyFork !in n.ops && eagerFork !in n.ops && lazyFork != eagerFork
    && Rewired(n, m, {f}, NewForks(n, f, lazy, lazyFork, eagerFork), v => Promote(n, f, lazy, lazyFork, eagerFork, v))
  }

  // ----- what it keeps -----

  lemma PromoteKeeps(n: Netlist, m: Netlist, f: nat, lazy: seq<nat>, lazyFork: nat, eagerFork: nat, rho: Value -> Value)
    requires Promoted(n, m, f, lazy, lazyFork, eagerFork)
    requires forall v :: rho(v) == Promote(n, f, lazy, lazyFork, eagerFork, v)
    ensures KeepsSources(n, m, {f}, NewForks(n, f, lazy, lazyFork, eagerFork), rho)
  {
    FeedsOther(n, f);
    forall v | n.Exists(v) && n.IsForkResult(v) ensures m.Follows(rho(v), rho(n.ForkInput(v))) {
      if v.op == f {
        NewForkFollows(n, m, f, lazy, lazyFork, eagerFork, v);
      } else {
        m.TraceStep(v);
      }
    }
  }

  lemma NewForkFollows(n: Netlist, m: Netlist, f: nat, lazy: seq<nat>, lazyFork: nat, eagerFork: nat, v: Value)
    requires Promoted(n, m, f, lazy, lazyFork, eagerFork) && n.Exists(v) && v.Result? && v.op == f
    ensures m.Follows(Promote(n, f, lazy, lazyFork, eagerFork, v), n.ops[f].operands[0])
  {
    var w := Promote(n, f, lazy, lazyFork, eagerFork, v);
    m.TraceStep(Result(lazyFork, |lazy|));
    if v.idx !in lazy {
      OtherPosition(lazy, v.idx, |n.ops[f].results|);
    }
    m.TraceStep(w);
  }

  lemma PromotedSources(n: Netlist, m: Netlist, f: nat, lazy: seq<nat>, lazyFork: nat, eagerFork: nat)
    requires Promoted(n, m, f, lazy, lazyFork, eagerFork)
    ensures SameSources(n, m) && m.Grounded()
  {
    var rho := v => if f in n.ops then Promote(n, f, lazy, lazyFork, eagerFork, v) else v;
    var added := NewForks(n, f, lazy, lazyFork, eagerFork);
    PromoteKeeps(n, m, f, lazy, lazyFork, eagerFork, rho);
    RewiredSameSources(n, m, {f}, added, rho);
    FeedsOther(n, f);
    assert n.HasOperand(f, 0);
    var x := n.ops[f].operands[0];
    assert n.HasProducer(x);
    var s :| n.Traces(x, s);
    RewiredTraces(n, m, {f}, added, rho, x);
    assert m.Traces(x, s);
    m.TraceStep(Result(lazyFork, |lazy|));
    assert m.Traces(Result(lazyFork, |lazy|), s);
    forall o | o in added ensures |added[o].operands| == 1 && m.Traces(added[o].operands[0], s) {
    }
    RewiredGrounded(n, m, {f}, added, rho);
  }

  /** The old result behind a new one: no two old results share one, and none is lost. */
  lemma PromotedResult(n: Netlist, f: nat, lazy: seq<nat>, lazyFork: nat, eagerFork: nat, w: Value) returns (v: Value)
    requires Promotable(n, f, lazy) && lazyFork !in n.ops && eagerFork !in n.ops && lazyFork != eagerFork
    requires w.Result? && w.op in NewForks(n, f, lazy, lazyFork, eagerFork)
    requires w.idx < |NewForks(n, f, lazy, lazyFork, eagerFork)[w.op].results|
    requires !(w == Result(lazyFork, |lazy|) && |Others(lazy, |n.ops[f].results|)| >= 2)
    ensures n.Exists(v) && v.Result? && v.op == f && Promote(n, f, lazy, lazyFork, eagerFork, v) == w
    ensures forall x | n.Exists(x) && Promote(n, f, lazy, lazyFork, eagerFork, x) == w :: x == v
  {
    var k := |n.ops[f].results|;
    var rest := Others(lazy, k);
    if w.op == lazyFork && w.idx < |lazy| {
      assert lazy[w.idx] in lazy;
      v := Result(f, lazy[w.idx]);
      assert forall j | 0 <= j < |lazy| && lazy[j] == lazy[w.idx] :: j == w.idx;
    } else {
      var j := if w.op == lazyFork then 0 else w.idx;
      OtherAtPosition(lazy, j, k);
      v := Result(f, rest[j]);
      forall x | n.Exists(x) && Promote(n, f, lazy, lazyFork, eagerFork, x) == w ensures x == v {
        OtherPosition(lazy, x.idx, k);
      }
    }
  }

  /** The operands of the forks that the promotion adds. */
  lemma NewForkOperands(n: Netlist, f: nat, lazy: seq<nat>, lazyFork: nat, eagerFork: nat)
    requires Promotable(n, f, lazy) && lazyFork != eagerFork
    ensures var added := NewForks(n, f, lazy, lazyFork, eagerFork);
            && lazyFork in added && added[lazyFork].operands == [n.ops[f].operands[0]]
            && (forall o | o in added :: o == lazyFork || o == eagerFork)
            && (eagerFork in added <==> |Others(lazy, |n.ops[f].results|)| >= 2)
            && (eagerFork in added ==> added[eagerFork].operands == [Result(lazyFork, |lazy|)])
    ensures n.Exists(n.ops[f].operands[0]) && n.Eligible(n.ops[f].operands[0]) && !(n.ops[f].operands[0].Result? && n.ops[f].operands[0].op == f)
  {
    FeedsOther(n, f);
    assert n.HasOperand(f, 0);
    assert n.ops[f].operands == [n.ops[f].operands[0]];
  }

  lemma BridgeUsedOnce(n: Netlist, m: Netlist, f: nat, lazy: seq<nat>, lazyFork: nat, eagerFork: nat, added: Ops, rho: Value -> Value)
    requires Promotable(n, f, lazy) && lazyFork !in n.ops && eagerFork !in n.ops && lazyFork != eagerFork
    requires added == NewForks(n, f, lazy, lazyFork, eagerFork) && Rewired(n, m, {f}, added, rho)
    requires forall v :: rho(v) == Promote(n, f, lazy, lazyFork, eagerFork, v)
    requires |Others(lazy, |n.ops[f].results|)| >= 2
    ensures m.UsedOnce(Result(lazyFork, |lazy|))
  {
    NewForkOperands(n, f, lazy, lazyFork, eagerFork);
    var w := Result(lazyFork, |lazy|);
    forall x, p: nat, j: nat | n.IsUse(x, p, j) && p !in {f} ensures rho(x) != w {
      assert n.HasOperand(p, j) && n.Exists(x);
    }
    UseAdded(n, m, {f}, added, rho, w, eagerFork);
  }

  lemma RenamedUsedOnce(n: Netlist, m: Netlist, f: nat, added: Ops, rho: Value -> Value, v: Value, w: Value)
    requires n.WellFormed() && n.Materialized() && Rewired(n, m, {f}, added, rho) && n.Exists(v) && n.Eligible(v) && rho(v) == w
    requires f in n.ops && n.ops[f].operands != [v] && |n.ops[f].operands| == 1
    requires forall x | n.Exists(x) && rho(x) == w :: x == v
    requires forall p | p in added :: w !in added[p].operands
    ensures m.UsedOnce(w)
  {
    assert n.ops[f].operands == [n.ops[f].operands[0]];
    forall o: nat, i: nat | n.IsUse(v, o, i) ensures o !in {f} {
    }
    UseRenamed(n, m, {f}, added, rho, v, w);
  }

  lemma NewResultUsedOnce(n: Netlist, m: Netlist, f: nat, lazy: seq<nat>, lazyFork: nat, eagerFork: nat, w: Value)
    requires Promoted(n, m, f, lazy, lazyFork, eagerFork) && n.Materialized()
    requires w.Result? && w.op in NewForks(n, f, lazy, lazyFork, eagerFork)
    requires w.idx < |NewForks(n, f, lazy, lazyFork, eagerFork)[w.op].results|
    ensures m.UsedOnce(w)
  {
    var rho := v => if f in n.ops then Promote(n, f, lazy, lazyFork, eagerFork, v) else v;
    var added := NewForks(n, f, lazy, lazyFork, eagerFork);
    if w == Result(lazyFork, |lazy|) && |Others(lazy, |n.ops[f].results|)| >= 2 {
      BridgeUsedOnce(n, m, f, lazy, lazyFork, eagerFork, added, rho);
    } else {
      NewForkOperands(n, f, lazy, lazyFork, eagerFork);
      var v := PromotedResult(n, f, lazy, lazyFork, eagerFork, w);
      RenamedUsedOnce(n, m, f, added, rho, v, w);
    }
  }

  lemma OldValueUsedOnce(n: Netlist, m: Netlist, f: nat, lazy: seq<nat>, lazyFork: nat, eagerFork: nat, v: Value)
    requires Promoted(n, m, f, lazy, lazyFork, eagerFork) && n.Materialized() && n.Exists(v) && n.Eligible(v)
    requires !(v.Result? && v.op == f)
    ensures m.UsedOnce(v)
  {
    var rho := v => if f in n.ops then Promote(n, f, lazy, lazyFork, eagerFork, v) else v;
    var added := NewForks(n, f, lazy, lazyFork, eagerFork);
    NewForkOperands(n, f, lazy, lazyFork, eagerFork);
    if n.ops[f].operands[0] == v {
      InputUsedOnce(n, m, f, lazyFork, added, rho, v);
    } else {
      RenamedUsedOnce(n, m, f, added, rho, v, v);
    }
  }

  lemma InputUsedOnce(n: Netlist, m: Netlist, f: nat, lazyFork: nat, added: Ops, rho: Value -> Value, v: Value)
    requires n.WellFormed() && n.UsedOnce(v) && Rewired(n, m, {f}, added, rho) && f in n.ops && n.ops[f].operands == [v]
    requires forall x | n.Exists(x) && rho(x) == v :: x == v
    requires lazyFork in added && added[lazyFork].operands == [v] && forall p | p in added && p != lazyFork :: v !in added[p].operands
    ensures m.UsedOnce(v)
  {
    var o, i :| n.UsedAt(v, o, i);
    assert n.IsUse(v, f, 0);
    forall x, p: nat, j: nat | n.IsUse(x, p, j) && p !in {f} ensures rho(x) != v {
      assert n.HasOperand(p, j) && n.Exists(x);
    }
    UseAdded(n, m, {f}, added, rho, v, lazyFork);
  }

  lemma PromotedOperand(n: Netlist, m: Netlist, f: nat, lazy: seq<nat>, lazyFork: nat, eagerFork: nat, o: nat, i: nat)
    requires Promoted(n, m, f, lazy, lazyFork, eagerFork) && n.HasOperand(o, i) && m.HasOperand(o, i)
    ensures m.GoodOperand(o, i)
  {
    var v := n.ops[o].operands[i];
    if v.Result? && v.op == f && v.idx !in lazy {
      OtherPosition(lazy, v.idx, |n.ops[f].results|);
    }
  }

  lemma NewOperand(n: Netlist, m: Netlist, f: nat, lazy: seq<nat>, lazyFork: nat, eagerFork: nat, o: nat)
    requires Promoted(n, m, f, lazy, lazyFork, eagerFork) && o in NewForks(n, f, lazy, lazyFork, eagerFork)
    ensures m.HasOperand(o, 0) && |m.ops[o].operands| == 1 && m.GoodOperand(o, 0) && m.GoodShape(o)
  {
    NewForkOperands(n, f, lazy, lazyFork, eagerFork);
  }

  lemma PromotedWellFormed(n: Netlist, m: Netlist, f: nat, lazy: seq<nat>, lazyFork: nat, eagerFork: nat)
    requires Promoted(n, m, f, lazy, lazyFork, eagerFork)
    ensures m.WellFormed()
  {
    forall o: nat, i: nat | m.HasOperand(o, i) ensures m.GoodOperand(o, i) {
      if o in n.ops {
        assert n.HasOperand(o, i);
        PromotedOperand(n, m, f, lazy, lazyFork, eagerFork, o, i);
      } else {
        NewOperand(n, m, f, lazy, lazyFork, eagerFork, o);
      }
    }
    forall o | o in m.ops ensures m.GoodShape(o) {
      if o !in n.ops {
        NewOperand(n, m, f, lazy, lazyFork, eagerFork, o);
      }
    }
  }

  /** Promotion keeps every value at one use and every operand at its producer. */
  lemma PromotedMaterialized(n: Netlist, m: Netlist, f: nat, lazy: seq<nat>, lazyFork: nat, eagerFork: nat)
    requires Promoted(n, m, f, lazy, lazyFork, eagerFork) && n.Materialized()
    ensures m.Materialized() && m.WellFormed() && m.Grounded() && SameSources(n, m)
  {
    PromotedSources(n, m, f, lazy, lazyFork, eagerFork);
    PromotedWellFormed(n, m, f, lazy, lazyFork, eagerFork);
    forall v | m.Exists(v) && m.Eligible(v) ensures m.UsedOnce(v) {
      if v.Result? && v.op in NewForks(n, f, lazy, lazyFork, eagerFork) {
        NewResultUsedOnce(n, m, f, lazy, lazyFork, eagerFork, v);
      } else {
        OldValueUsedOnce(n, m, f, lazy, lazyFork, eagerFork, v);
      }
    }
  }

  // ----- where results end up -----

  /** Some other result besides result `i` need not be lazy. */
  predicate HasOther(n: Netlist, f: nat, lazy: seq<nat>, i: nat)
    requires f in n.ops
  {
    exists k | 0 <= k < |n.ops[f].results| :: k !in lazy && k != i
  }

  /** What took the place of the fork: a lazy fork with a result for each one that must be lazy, in their order, and one more if
      there are others; and if there are several others, a fork on that one, with a result for each of them. */
  ghost predicate NewForksFit(n: Netlist, m: Netlist, f: nat, lazy: seq<nat>, lazyFork: nat, eagerFork: nat)
    requires f in n.ops
  {
    var k := |n.ops[f].results|;
    && lazyFork in m.ops && m.ops[lazyFork].kind == LazyFork && m.ops[lazyFork].operands == n.ops[f].operands
    && |m.ops[lazyFork].results| == (if |lazy| < k then |lazy| + 1 else |lazy|)
    && (|lazy| + 1 < k ==>
          && eagerFork in m.ops && m.ops[eagerFork].kind == Fork && m.ops[eagerFork].operands == [Result(lazyFork, |lazy|)]
          && |m.ops[eagerFork].results| == k - |lazy|)
    && (|lazy| + 1 >= k ==> eagerFork !in m.ops)
  }

  /** Where the use of result `i` goes. */
  ghost predicate IsPlaced(n: Netlist, f: nat, lazy: seq<nat>, lazyFork: nat, eagerFork: nat, i: nat, w: Value)
    requires f in n.ops
  {
    if i in lazy then w.Result? && w.op == lazyFork && w.idx < |lazy| && lazy[w.idx] == i
    else if !HasOther(n, f, lazy, i) then w == Result(lazyFork, |lazy|)
    else w.Result? && w.op == eagerFork
  }

  /** Every operand that held a result of the fork holds the result of the new forks it should, the others in their order; every
      other operand is what it was. */
  ghost predicate Placed(n: Netlist, m: Netlist, f: nat, lazy: seq<nat>, lazyFork: nat, eagerFork: nat)
    requires f in n.ops
  {
    && (forall o: nat, p: nat, i: nat | o != f && n.IsUse(Result(f, i), o, p) ::
          m.HasOperand(o, p) && IsPlaced(n, f, lazy, lazyFork, eagerFork, i, m.ops[o].operands[p]))
    && (forall o: nat, p: nat, i: nat, q: nat, r: nat, j: nat |
          o != f && q != f && n.IsUse(Result(f, i), o, p) && n.IsUse(Result(f, j), q, r) && i < j && i !in lazy && j !in lazy ::
          m.HasOperand(o, p) && m.HasOperand(q, r) && m.ops[o].operands[p].Result? && m.ops[q].operands[r].Result?
          && m.ops[o].operands[p].idx < m.ops[q].operands[r].idx)
    && (forall o: nat, p: nat | o != f && n.HasOperand(o, p) && !(n.ops[o].operands[p].Result? && n.ops[o].operands[p].op == f) ::
          m.IsUse(n.ops[o].operands[p], o, p))
    && f !in m.ops && forall o | o in n.ops && o != f :: o in m.ops && m.ops[o].kind == n.ops[o].kind && m.ops[o].results == n.ops[o].results
  }

  lemma WithoutLast(lazy: seq<nat>, k: nat, at: nat)
    requires k > 0 && (forall i | i in lazy :: i < k) && at < |lazy| && lazy[at] == k - 1
    requires forall i, j | 0 <= i < j < |lazy| :: lazy[i] != lazy[j]
    ensures var less := lazy[..at] + lazy[at + 1..];
      && (forall i | i in less :: i < k - 1) && (forall i, j | 0 <= i < j < |less| :: less[i] != less[j])
      && forall i: nat | i < k - 1 :: i in less <==> i in lazy
  {
    var less := lazy[..at] + lazy[at + 1..];
    forall j | 0 <= j < |less| ensures less[j] < k - 1 && less[j] in lazy {
      var from := if j < at then j else j + 1;
      assert less[j] == lazy[from] && lazy[from] in lazy && lazy[from] != lazy[at];
    }
    forall i: nat | i < k - 1 && i in lazy ensures i in less {
      var j := IndexOf(lazy, i);
      assert less[if j < at then j else j - 1] == i;
    }
  }

  lemma BelowSome(lazy: seq<nat>, k: nat)
    requires forall i | i in lazy :: i < k
    ensures lazy == [] || k > 0
  {
    assert lazy == [] || lazy[0] in lazy;
  }

  /** How many results need not be lazy. */
  lemma {:induction false} OthersCount(lazy: seq<nat>, k: nat)
    requires (forall i | i in lazy :: i < k) && forall i, j | 0 <= i < j < |lazy| :: lazy[i] != lazy[j]
    ensures |Others(lazy, k)| + |lazy| == k
    decreases k
  {
    BelowSome(lazy, k);
    if k > 0 {
      if k - 1 in lazy {
        var at := IndexOf(lazy, k - 1);
        var less := lazy[..at] + lazy[at + 1..];
        WithoutLast(lazy, k, at);
        OthersCount(less, k - 1);
        SameOthers(lazy, less, k - 1);
      } else {
        OthersCount(lazy, k - 1);
      }
    }
  }

  lemma {:induction false} SameOthers(lazy: seq<nat>, less: seq<nat>, k: nat)
    requires forall i: nat | i < k :: i in less <==> i in lazy
    ensures Others(less, k) == Others(lazy, k)
  {
    if k > 0 {
      SameOthers(lazy, less, k - 1);
    }
  }

  lemma OtherMeans(n: Netlist, f: nat, lazy: seq<nat>, i: nat)
    requires f in n.ops && i < |n.ops[f].results| && i !in lazy
    ensures HasOther(n, f, lazy, i) <==> |Others(lazy, |n.ops[f].results|)| != 1
  {
    var k := |n.ops[f].results|;
    var os := Others(lazy, k);
    OtherPosition(lazy, i, k);
    OthersDistinct(lazy, k);
    if |os| != 1 {
      var j := if os[0] == i then 1 else 0;
      assert os[j] in os;
    } else if j :| 0 <= j < k && j !in lazy && j != i {
      OtherPosition(lazy, j, k);
    }
  }

  lemma PromotedIsPlaced(n: Netlist, f: nat, lazy: seq<nat>, lazyFork: nat, eagerFork: nat, i: nat)
    requires f in n.ops && i < |n.ops[f].results|
    ensures IsPlaced(n, f, lazy, lazyFork, eagerFork, i, Promote(n, f, lazy, lazyFork, eagerFork, Result(f, i)))
  {
    if i !in lazy {
      OtherMeans(n, f, lazy, i);
    }
  }

  lemma PromotedInOrder(n: Netlist, f: nat, lazy: seq<nat>, lazyFork: nat, eagerFork: nat, i: nat, j: nat)
    requires f in n.ops && i < j < |n.ops[f].results| && i !in lazy && j !in lazy
    ensures var v, w := Promote(n, f, lazy, lazyFork, eagerFork, Result(f, i)), Promote(n, f, lazy, lazyFork, eagerFork, Result(f, j));
      v.Result? && w.Result? && v.idx < w.idx
  {
    OtherPosition(lazy, i, j);
    OtherMeans(n, f, lazy, i);
  }

  lemma ForksFit(n: Netlist, m: Netlist, f: nat, lazy: seq<nat>, lazyFork: nat, eagerFork: nat)
    requires Promoted(n, m, f, lazy, lazyFork, eagerFork)
    ensures NewForksFit(n, m, f, lazy, lazyFork, eagerFork)
  {
    OthersCount(lazy, |n.ops[f].results|);
    NewForkOperands(n, f, lazy, lazyFork, eagerFork);
  }

  lemma UseIsPlaced(n: Netlist, m: Netlist, f: nat, lazy: seq<nat>, lazyFork: nat, eagerFork: nat, o: nat, p: nat, i: nat)
    requires Promoted(n, m, f, lazy, lazyFork, eagerFork) && o != f && n.IsUse(Result(f, i), o, p)
    ensures i < |n.ops[f].results| && m.HasOperand(o, p)
    ensures m.ops[o].operands[p] == Promote(n, f, lazy, lazyFork, eagerFork, Result(f, i))
    ensures IsPlaced(n, f, lazy, lazyFork, eagerFork, i, m.ops[o].operands[p])
  {
    assert n.HasOperand(o, p) && n.GoodOperand(o, p);
    PromotedIsPlaced(n, f, lazy, lazyFork, eagerFork, i);
  }

  lemma OtherUseStays(n: Netlist, m: Netlist, f: nat, lazy: seq<nat>, lazyFork: nat, eagerFork: nat, o: nat, p: nat)
    requires Promoted(n, m, f, lazy, lazyFork, eagerFork) && o != f && n.HasOperand(o, p)
    requires !(n.ops[o].operands[p].Result? && n.ops[o].operands[p].op == f)
    ensures m.IsUse(n.ops[o].operands[p], o, p)
  {
  }

  lemma OthersStay(n: Netlist, m: Netlist, f: nat, lazy: seq<nat>, lazyFork: nat, eagerFork: nat)
    requires Promoted(n, m, f, lazy, lazyFork, eagerFork)
    ensures f !in m.ops && forall o | o in n.ops && o != f :: o in m.ops && m.ops[o].kind == n.ops[o].kind && m.ops[o].results == n.ops[o].results
  {
    NewForkOperands(n, f, lazy, lazyFork, eagerFork);
  }

  /** Promotion puts the results that must be lazy on the lazy fork, a single other one behind them, several on the fork behind. */
  lemma PromotedPlaces(n: Netlist, m: Netlist, f: nat, lazy: seq<nat>, lazyFork: nat, eagerFork: nat)
    requires Promoted(n, m, f, lazy, lazyFork, eagerFork)
    ensures Placed(n, m, f, lazy, lazyFork, eagerFork)
  {
    forall o: nat, p: nat, i: nat | o != f && n.IsUse(Result(f, i), o, p)
      ensures m.HasOperand(o, p) && IsPlaced(n, f, lazy, lazyFork, eagerFork, i, m.ops[o].operands[p])
    {
      UseIsPlaced(n, m, f, lazy, lazyFork, eagerFork, o, p, i);
    }
    forall o: nat, p: nat, i: nat, q: nat, r: nat, j: nat |
      o != f && q != f && n.IsUse(Result(f, i), o, p) && n.IsUse(Result(f, j), q, r) && i < j && i !in lazy && j !in lazy
      ensures m.HasOperand(o, p) && m.HasOperand(q, r) && m.ops[o].operands[p].Result? && m.ops[q].operands[r].Result?
      ensures m.ops[o].operands[p].idx < m.ops[q].operands[r].idx
    {
      UseIsPlaced(n, m, f, lazy, lazyFork, eagerFork, o, p, i);
      UseIsPlaced(n, m, f, lazy, lazyFork, eagerFork, q, r, j);
      PromotedInOrder(n, f, lazy, lazyFork, eagerFork, i, j);
    }
    forall o: nat, p: nat | o != f && n.HasOperand(o, p) && !(n.ops[o].operands[p].Result? && n.ops[o].operands[p].op == f)
      ensures m.IsUse(n.ops[o].operands[p], o, p)
    {
      OtherUseStays(n, m, f, lazy, lazyFork, eagerFork, o, p);
    }
    OthersStay(n, m, f, lazy, lazyFork, eagerFork);
  }

  // ----- in place -----

  function ToResults(lazy: seq<nat>, rest: nat, lazyFork: nat, eagerFork: nat): (vs: seq<Value>)
    ensures |vs| == |lazy| + rest && forall v | v in vs :: v.Result? && (v.op == lazyFork || v.op == eagerFork)
  {
    ResultsOf(lazyFork, 0, |lazy|) + if rest == 1 then [Result(lazyFork, |lazy|)] else ResultsOf(eagerFork, 0, rest)
  }

  /** The list of results to replace has no duplicates. */
  lemma FromDistinct(f: nat, lazy: seq<nat>, k: nat)
    requires forall i, j | 0 <= i < j < |lazy| :: lazy[i] != lazy[j]
    ensures var from := ResultsAt(f, lazy + Others(lazy, k)); forall i, j | 0 <= i < j < |from| :: from[i] != from[j]
  {
    OthersDistinct(lazy, k);
    var os := Others(lazy, k);
    assert forall i | 0 <= i < |os| :: os[i] in os;
    assert forall i | 0 <= i < |lazy| :: lazy[i] in lazy;
  }

  lemma RenamePromoted(n: Netlist, f: nat, lazy: seq<nat>, lazyFork: nat, eagerFork: nat, v: Value)
    requires f in n.ops && n.Exists(v) && forall i, j | 0 <= i < j < |lazy| :: lazy[i] != lazy[j]
    ensures var rest := Others(lazy, |n.ops[f].results|);
            Rename(ResultsAt(f, lazy + rest), ToResults(lazy, |rest|, lazyFork, eagerFork), v) == Promote(n, f, lazy, lazyFork, eagerFork, v)
  {
    var k := |n.ops[f].results|;
    var rest := Others(lazy, k);
    var from, to := ResultsAt(f, lazy + rest), ToResults(lazy, |rest|, lazyFork, eagerFork);
    FromDistinct(f, lazy, k);
    if v.Result? && v.op == f {
      var i := if v.idx in lazy then IndexOf(lazy, v.idx) else |lazy| + |Others(lazy, v.idx)|;
      if v.idx !in lazy {
        OtherPosition(lazy, v.idx, k);
      }
      assert from[i] == v;
      RenameAt(from, to, i);
    } else {
      RenameOther(from, to, v);
    }
  }

  lemma MappedPromoted(n: Netlist, f: nat, lazy: seq<nat>, lazyFork: nat, eagerFork: nat, op: Op, now: Op)
    requires f in n.ops && (forall v | v in op.operands :: n.Exists(v)) && forall i, j | 0 <= i < j < |lazy| :: lazy[i] != lazy[j]
    requires var rest := Others(lazy, |n.ops[f].results|);
             now == Mapped(op, v => Rename(ResultsAt(f, lazy + rest), ToResults(lazy, |rest|, lazyFork, eagerFork), v))
    ensures now == Mapped(op, v => Promote(n, f, lazy, lazyFork, eagerFork, v))
  {
    forall i | 0 <= i < |op.operands| ensures now.operands[i] == Promote(n, f, lazy, lazyFork, eagerFork, op.operands[i]) {
      assert op.operands[i] in op.operands;
      RenamePromoted(n, f, lazy, lazyFork, eagerFork, op.operands[i]);
    }
    assert now.operands == Mapped(op, v => Promote(n, f, lazy, lazyFork, eagerFork, v)).operands;
  }

  /** `lazy` lists the fork results that lead to group allocations. */
  method PromoteFork(func: HandshakeFunc, f: nat, lazy: seq<nat>) returns (ghost lazyFork: nat, ghost eagerFork: nat)
    requires Promotable(func.Net(), f, lazy)
    modifies func
    ensures Promoted(old(func.Net()), func.Net(), f, lazy, lazyFork, eagerFork)
    ensures NewForksFit(old(func.Net()), func.Net(), f, lazy, lazyFork, eagerFork)
    ensures Placed(old(func.Net()), func.Net(), f, lazy, lazyFork, eagerFork)
  {
    ghost var n := func.Net();
    var rest := Others(lazy, |func.ops[f].results|);
    var newLazy := func.FreshOp();
    func.ops := func.ops[newLazy := Op(LazyFork, func.ops[f].operands, seq(|lazy| + (if rest != [] then 1 else 0), _ => true))];
    var newEager := func.FreshOp();
    lazyFork, eagerFork := newLazy, newEager;
    if |rest| >= 2 {
      func.ops := func.ops[newEager := Op(Fork, [Result(newLazy, |lazy|)], seq(|rest|, _ => true))];
    }
    assert func.ops == n.ops + NewForks(n, f, lazy, lazyFork, eagerFork);
    ReplacePromoted(func, n, f, lazy, rest, newLazy, newEager);
    ghost var m := func.ops;
    func.ops := func.ops - {f};
    PromotedInPlace(n, m, func.Net(), f, lazy, lazyFork, eagerFork);
    ForksFit(n, func.Net(), f, lazy, lazyFork, eagerFork);
    PromotedPlaces(n, func.Net(), f, lazy, lazyFork, eagerFork);
  }

  method ReplacePromoted(func: HandshakeFunc, ghost n: Netlist, f: nat, lazy: seq<nat>, rest: seq<nat>, lazyFork: nat, eagerFork: nat)
    requires Promotable(n, f, lazy) && rest == Others(lazy, |n.ops[f].results|) && lazyFork != f && eagerFork != f
    modifies func
    ensures Renamed(old(func.ops), func.ops, ResultsAt(f, lazy + rest), ToResults(lazy, |rest|, lazyFork, eagerFork))
  {
    FromDistinct(f, lazy, |n.ops[f].results|);
    ReplaceResults(func, ResultsAt(f, lazy + rest), ToResults(lazy, |rest|, lazyFork, eagerFork));
  }

  predicate Renamed(was: Ops, ops: Ops, from: seq<Value>, to: seq<Value>)
    requires |from| == |to|
  {
    ops.Keys == was.Keys && forall o | o in was :: ops[o] == Mapped(was[o], v => Rename(from, to, v))
  }

  lemma PromotedInPlace(n: Netlist, ops: Ops, m: Netlist, f: nat, lazy: seq<nat>, lazyFork: nat, eagerFork: nat)
    requires Promotable(n, f, lazy) && lazyFork !in n.ops && eagerFork !in n.ops && lazyFork != eagerFork
    requires var rest := Others(lazy, |n.ops[f].results|);
             Renamed(n.ops + NewForks(n, f, lazy, lazyFork, eagerFork), ops,
                     ResultsAt(f, lazy + rest), ToResults(lazy, |rest|, lazyFork, eagerFork))
    requires m.args == n.args && m.throughLazy && m.ops == ops - {f}
    ensures Promoted(n, m, f, lazy, lazyFork, eagerFork)
  {
    var added := NewForks(n, f, lazy, lazyFork, eagerFork);
    var rest := Others(lazy, |n.ops[f].results|);
    NewForkOperands(n, f, lazy, lazyFork, eagerFork);
    forall o | o in n.ops ensures ops[o] == Mapped(n.ops[o], v => Promote(n, f, lazy, lazyFork, eagerFork, v)) {
      OperandsExist(n, o);
      MappedPromoted(n, f, lazy, lazyFork, eagerFork, n.ops[o], ops[o]);
    }
    forall o | o in added ensures ops[o] == added[o] {
      NotRenamed(added[o], ops[o], ResultsAt(f, lazy + rest), ToResults(lazy, |rest|, lazyFork, eagerFork));
    }
  }

  lemma OperandsExist(n: Netlist, o: nat)
    requires n.WellFormed() && o in n.ops
    ensures forall v | v in n.ops[o].operands :: n.Exists(v)
  {
    forall v | v in n.ops[o].operands ensures n.Exists(v) {
      var i: nat :| i < |n.ops[o].operands| && n.ops[o].operands[i] == v;
      assert n.HasOperand(o, i);
    }
  }

  lemma NotRenamed(op: Op, now: Op, from: seq<Value>, to: seq<Value>)
    requires |from| == |to| && now == Mapped(op, v => Rename(from, to, v)) && |op.operands| == 1 && op.operands[0] !in from
    ensures now == op
  {
    RenameOther(from, to, op.operands[0]);
    assert now.operands == op.operands;
  }
}
