/** Insertion of forks and sinks so that every dataflow value has exactly one use. */
module MaterializeValues {
  import opened Basics
  import opened Netlists

  // ----- what one insertion does -----

  /** Users of `val` now use results of the new fork instead; nothing else changes. */
  ghost predicate Redirected(n: Netlist, m: Netlist, val: Value, fork: nat) {
    && m.args == n.args && m.throughLazy == n.throughLazy && fork !in n.ops && m.ops.Keys == n.ops.Keys + {fork}
    && (forall o | o in n.ops :: SameOp(n.ops[o], m.ops[o]))
    && (forall o: nat, i: nat | n.HasOperand(o, i) :: Redirects(n.ops[o].operands[i], m.ops[o].operands[i], val, fork))
    && m.ops[fork].kind.Fork? && m.ops[fork].operands == [val] && forall k | 0 <= k < |m.ops[fork].results| :: m.ops[fork].results[k]
  }

  predicate Redirects(x: Value, y: Value, val: Value, fork: nat) {
    x == y || (x == val && y.Result? && y.op == fork)
  }

  lemma RedirectedFollows(n: Netlist, m: Netlist, val: Value, fork: nat, v: Value, w: Value)
    requires Redirected(n, m, val, fork) && n.Exists(v) && Redirects(v, w, val, fork)
    ensures if n.IsForkResult(v) then Redirects(n.ForkInput(v), m.ForkInput(v), val, fork) && m.Follows(w, m.ForkInput(v))
            else m.Traces(w, v)
  {
    if w != v {
      m.TraceStep(w);
    }
    if n.IsForkResult(v) {
      assert m.IsForkResult(v) && n.HasOperand(v.op, 0);
      m.TraceStep(v);
    } else {
      assert m.TracesIn(v, v, 0);
    }
  }

  lemma RedirectedSimulates(n: Netlist, m: Netlist, val: Value, fork: nat, related: (Value, Value) -> bool)
    requires Redirected(n, m, val, fork) && n.WellFormed() && n.Exists(val)
    requires forall v, w :: related(v, w) <==> n.Exists(v) && Redirects(v, w, val, fork)
    ensures Simulates(n, m, related)
  {
    forall v, w | related(v, w)
      ensures if n.IsForkResult(v) then exists x :: related(n.ForkInput(v), x) && m.Follows(w, x) else m.Traces(w, v)
    {
      RedirectedFollows(n, m, val, fork, v, w);
      if n.IsForkResult(v) {
        assert n.HasOperand(v.op, 0);
        assert related(n.ForkInput(v), m.ForkInput(v));
      }
    }
  }

  lemma RedirectedSameSources(n: Netlist, m: Netlist, val: Value, fork: nat)
    requires Redirected(n, m, val, fork) && n.WellFormed() && n.Exists(val)
    ensures SameSources(n, m)
  {
    var related := (v, w) => n.Exists(v) && Redirects(v, w, val, fork);
    RedirectedSimulates(n, m, val, fork, related);
    forall o, i | o in n.ops && n.Stays(n.ops[o].kind) && 0 <= i < |n.ops[o].operands|
      ensures DrawsAlike(n, n.ops[o].operands[i], m, m.ops[o].operands[i])
    {
      assert n.HasOperand(o, i);
      DrawsAlikeBy(n, m, related, n.ops[o].operands[i], m.ops[o].operands[i]);
    }
  }

  lemma RedirectedWellFormed(n: Netlist, m: Netlist, val: Value, fork: nat)
    requires Redirected(n, m, val, fork) && n.WellFormed() && n.Exists(val) && n.Eligible(val) && |m.ops[fork].results| > 0
    requires forall o: nat, i: nat | n.HasOperand(o, i) :: m.Exists(m.ops[o].operands[i])
    ensures m.WellFormed()
  {
    forall o: nat, i: nat | m.HasOperand(o, i) ensures m.GoodOperand(o, i) {
      if o != fork {
        assert n.HasOperand(o, i) && Redirects(n.ops[o].operands[i], m.ops[o].operands[i], val, fork);
      }
    }
    forall o | o in m.ops ensures m.GoodShape(o) {
      if o != fork {
        assert SameOp(n.ops[o], m.ops[o]);
      }
    }
  }

  lemma RedirectedGrounded(n: Netlist, m: Netlist, val: Value, fork: nat)
    requires Redirected(n, m, val, fork) && n.WellFormed() && n.Exists(val) && n.Grounded()
    ensures m.Grounded()
  {
    var related := (v, w) => n.Exists(v) && Redirects(v, w, val, fork);
    RedirectedSimulates(n, m, val, fork, related);
    forall v | m.Exists(v) ensures m.HasProducer(v) {
      var x := if n.Exists(v) then v else val;
      assert n.HasProducer(x);
      var s :| n.Traces(x, s);
      DrawsAlikeBy(n, m, related, x, v);
    }
  }

  lemma RedirectedHead(n: Netlist, m: Netlist, val: Value, fork: nat, v: Value)
    requires Redirected(n, m, val, fork) && n.WellFormed() && n.Exists(v)
    requires HeadsFork(n, val)
    ensures HeadsFork(n, v) <==> HeadsFork(m, v)
  {
    if v == val {
      assert m.IsUse(val, fork, 0);
    } else {
      forall o: nat, i: nat ensures n.IsUse(v, o, i) <==> m.IsUse(v, o, i) {
        if n.HasOperand(o, i) {
          assert Redirects(n.ops[o].operands[i], m.ops[o].operands[i], val, fork);
        }
      }
      forall o: nat, i: nat | n.IsUse(v, o, i) ensures n.UsedAt(v, o, i) <==> m.UsedAt(v, o, i) {
      }
    }
  }

  lemma RedirectedHeads(n: Netlist, m: Netlist, val: Value, fork: nat)
    requires Redirected(n, m, val, fork) && n.WellFormed() && HeadsFork(n, val)
    ensures SameHeads(n, m)
  {
    forall v | n.Exists(v) ensures HeadsFork(n, v) <==> HeadsFork(m, v) {
      RedirectedHead(n, m, val, fork, v);
    }
  }

  lemma SinkHeads(n: Netlist, m: Netlist, val: Value, sink: nat)
    requires n.Unused(val) && sink !in n.ops && m == n.(ops := n.ops[sink := Op(Sink, [val], [])])
    ensures SameHeads(n, m)
  {
    forall w, o: nat, i: nat ensures m.IsUse(w, o, i) <==> n.IsUse(w, o, i) || (w == val && o == sink && i == 0) {
    }
    forall v | n.Exists(v) ensures HeadsFork(n, v) <==> HeadsFork(m, v) {
      if v == val {
        assert m.UsedAt(val, sink, 0);
      } else {
        forall o: nat, i: nat | n.IsUse(v, o, i) ensures n.UsedAt(v, o, i) <==> m.UsedAt(v, o, i) {
        }
      }
    }
  }

  /** A value with several uses. */
  lemma SeveralUses(n: Netlist, val: Value, user: nat)
    requires user in n.ops && val in n.ops[user].operands && !n.UsedOnce(val)
    ensures HeadsFork(n, val)
  {
    var i: nat :| i < |n.ops[user].operands| && n.ops[user].operands[i] == val;
    assert n.IsUse(val, user, i) && !n.UsedAt(val, user, i);
  }

  lemma SinkGrounded(n: Netlist, m: Netlist, val: Value, sink: nat)
    requires n.WellFormed() && n.Exists(val) && sink !in n.ops && n.Grounded()
    requires m == n.(ops := n.ops[sink := Op(Sink, [val], [])])
    ensures m.Grounded()
  {
    SinkSimulates(n, m, val, sink);
    forall v | m.Exists(v) ensures m.HasProducer(v) {
      assert n.Exists(v);
      assert n.HasProducer(v);
      var s :| n.Traces(v, s);
      DrawsAlikeBy(n, m, (v, w) => n.Exists(v) && v == w, v, v);
      assert m.Traces(v, s);
    }
  }

  /** What one or more insertions keep: the operations and where their operands come from, single uses, and every new value
      has a single use. */
  ghost predicate Improves(n: Netlist, m: Netlist) {
    && m.WellFormed() && SameSources(n, m) && SameSources(Eager(n), Eager(m))
    && (forall o | o in n.ops :: o in m.ops && SameOp(n.ops[o], m.ops[o]))
    && (forall v | n.Exists(v) && n.UsedOnce(v) :: m.UsedOnce(v))
    && (forall v | m.Exists(v) && !n.Exists(v) :: m.UsedOnce(v) && !IsBase(m, v))
    && SameHeads(n, m)
    && (n.Grounded() ==> m.Grounded())
  }

  lemma ImprovesTransitive(n: Netlist, m: Netlist, k: Netlist)
    requires Improves(n, m) && Improves(m, k)
    ensures Improves(n, k)
  {
    SameSourcesTransitive(n, m, k);
    SameSourcesTransitive(Eager(n), Eager(m), Eager(k));
  }

  lemma ImprovesSelf(n: Netlist)
    requires n.WellFormed()
    ensures Improves(n, n)
  {
  }

  lemma OtherUsesStay(n: Netlist, m: Netlist, val: Value, fork: nat, v: Value)
    requires Redirected(n, m, val, fork) && v != val && n.Exists(v) && n.UsedOnce(v)
    ensures m.UsedOnce(v)
  {
    var o, i :| n.UsedAt(v, o, i);
    forall p: nat, j: nat | m.IsUse(v, p, j) ensures p == o && j == i {
      if p != fork {
        assert n.HasOperand(p, j);
        assert Redirects(n.ops[p].operands[j], m.ops[p].operands[j], val, fork);
        assert n.IsUse(v, p, j);
      }
    }
    assert n.HasOperand(o, i);
    assert m.UsedAt(v, o, i);
  }

  lemma OtherUsesAllStay(n: Netlist, m: Netlist, val: Value, fork: nat)
    requires Redirected(n, m, val, fork) && !n.UsedOnce(val)
    ensures forall v | n.Exists(v) && n.UsedOnce(v) :: m.UsedOnce(v)
  {
    forall v | n.Exists(v) && n.UsedOnce(v) ensures m.UsedOnce(v) {
      OtherUsesStay(n, m, val, fork, v);
    }
  }

  lemma SinkUses(n: Netlist, m: Netlist, val: Value, sink: nat)
    requires n.Unused(val) && sink !in n.ops && m == n.(ops := n.ops[sink := Op(Sink, [val], [])])
    ensures m.UsedOnce(val) && forall v | n.UsedOnce(v) :: m.UsedOnce(v)
  {
    forall v, p: nat, j: nat | m.IsUse(v, p, j) ensures n.IsUse(v, p, j) || (v == val && p == sink && j == 0) {
    }
    assert m.UsedAt(val, sink, 0);
    forall v | n.UsedOnce(v) ensures m.UsedOnce(v) {
      var o, i :| n.UsedAt(v, o, i);
      assert n.IsUse(v, o, i) && v != val;
      assert m.UsedAt(v, o, i);
    }
  }

  lemma SinkSources(n: Netlist, m: Netlist, val: Value, sink: nat)
    requires n.WellFormed() && sink !in n.ops && m == n.(ops := n.ops[sink := Op(Sink, [val], [])])
    ensures SameSources(n, m)
  {
    SinkSimulates(n, m, val, sink);
    forall o, i | o in n.ops && n.Stays(n.ops[o].kind) && 0 <= i < |n.ops[o].operands|
      ensures DrawsAlike(n, n.ops[o].operands[i], m, m.ops[o].operands[i])
    {
      assert n.HasOperand(o, i);
      DrawsAlikeBy(n, m, (v, w) => n.Exists(v) && v == w, n.ops[o].operands[i], m.ops[o].operands[i]);
    }
  }

  lemma SinkWellFormed(n: Netlist, m: Netlist, val: Value, sink: nat)
    requires n.WellFormed() && n.Exists(val) && sink !in n.ops && m == n.(ops := n.ops[sink := Op(Sink, [val], [])])
    ensures m.WellFormed()
  {
    forall o: nat, i: nat | m.HasOperand(o, i) ensures m.GoodOperand(o, i) {
      if o != sink {
        assert n.HasOperand(o, i);
      }
    }
  }

  lemma SinkImproves(n: Netlist, m: Netlist, val: Value, sink: nat)
    requires n.WellFormed() && n.Exists(val) && n.Unused(val) && sink !in n.ops
    requires m == n.(ops := n.ops[sink := Op(Sink, [val], [])])
    ensures Improves(n, m) && m.UsedOnce(val)
  {
    SinkUses(n, m, val, sink);
    SinkSources(n, m, val, sink);
    EagerWellFormed(n);
    SinkSources(Eager(n), Eager(m), val, sink);
    SinkWellFormed(n, m, val, sink);
    SinkHeads(n, m, val, sink);
    if n.Grounded() {
      SinkGrounded(n, m, val, sink);
    }
  }

  lemma SinkSimulates(n: Netlist, m: Netlist, val: Value, sink: nat)
    requires n.WellFormed() && sink !in n.ops && m == n.(ops := n.ops[sink := Op(Sink, [val], [])])
    ensures Simulates(n, m, (v, w) => n.Exists(v) && v == w)
  {
    forall v | n.Exists(v)
      ensures if n.IsForkResult(v) then n.Exists(n.ForkInput(v)) && m.Follows(v, n.ForkInput(v)) else m.Traces(v, v)
    {
      if n.IsForkResult(v) {
        assert n.HasOperand(v.op, 0);
        assert m.IsForkResult(v);
        m.TraceStep(v);
      } else {
        assert m.TracesIn(v, v, 0);
      }
    }
  }

  // ----- the state between two replacements -----

  /** The first `k` users use a fork result of their own; the others still use the value as often as they are listed. */
  ghost predicate Replaced(n: Netlist, m: Netlist, val: Value, fork: nat, users: seq<nat>, k: nat) {
    && Redirected(n, m, val, fork) && k <= |users| && |m.ops[fork].results| == |users|
    && (forall o | o in n.ops :: multiset(m.ops[o].operands)[val] == multiset(users[k..])[o])
    && (forall j | 0 <= j < k :: m.UsedOnce(Result(fork, j)))
    && (forall j | k <= j :: m.Unused(Result(fork, j)))
  }

  /** One operand that holds the value is replaced by a fork result. */
  predicate ReplacesAt(n: Netlist, m: Netlist, next: Netlist, val: Value, fork: nat, o: nat, i: nat, k: nat) {
    && o in n.ops && m.IsUse(val, o, i)
    && next == m.(ops := m.ops[o := m.ops[o].(operands := m.ops[o].operands[i := Result(fork, k)])])
  }

  lemma StillRedirected(n: Netlist, m: Netlist, next: Netlist, val: Value, fork: nat, o: nat, i: nat, k: nat)
    requires Redirected(n, m, val, fork) && ReplacesAt(n, m, next, val, fork, o, i, k) && n.Exists(val)
    ensures Redirected(n, next, val, fork)
  {
    forall p: nat, j: nat | n.HasOperand(p, j) ensures Redirects(n.ops[p].operands[j], next.ops[p].operands[j], val, fork) {
      assert Redirects(n.ops[p].operands[j], m.ops[p].operands[j], val, fork);
    }
  }

  lemma UsesAfterReplacing(n: Netlist, m: Netlist, next: Netlist, val: Value, fork: nat, o: nat, i: nat, k: nat)
    requires ReplacesAt(n, m, next, val, fork, o, i, k)
    ensures forall v, p: nat, j: nat | v != val && v != Result(fork, k) :: next.IsUse(v, p, j) <==> m.IsUse(v, p, j)
    ensures val != Result(fork, k) ==> forall p: nat, j: nat :: next.IsUse(Result(fork, k), p, j) <==> m.IsUse(Result(fork, k), p, j) || (p == o && j == i)
  {
  }

  lemma ForkResultsAfterReplacing(n: Netlist, m: Netlist, next: Netlist, val: Value, fork: nat, o: nat, i: nat, k: nat)
    requires ReplacesAt(n, m, next, val, fork, o, i, k) && fork !in n.ops && n.Exists(val)
    requires forall j | 0 <= j < k :: m.UsedOnce(Result(fork, j))
    requires forall j | k <= j :: m.Unused(Result(fork, j))
    ensures forall j | 0 <= j < k + 1 :: next.UsedOnce(Result(fork, j))
    ensures forall j | k + 1 <= j :: next.Unused(Result(fork, j))
  {
    UsesAfterReplacing(n, m, next, val, fork, o, i, k);
    forall j | 0 <= j < k ensures next.UsedOnce(Result(fork, j)) {
      var p, q :| m.UsedAt(Result(fork, j), p, q);
      assert next.UsedAt(Result(fork, j), p, q);
    }
    assert m.Unused(Result(fork, k));
    assert next.UsedAt(Result(fork, k), o, i);
    forall j | k + 1 <= j ensures next.Unused(Result(fork, j)) {
      assert m.Unused(Result(fork, j));
    }
  }

  lemma ReplacedStep(n: Netlist, m: Netlist, next: Netlist, val: Value, fork: nat, users: seq<nat>, k: nat, i: nat)
    requires Replaced(n, m, val, fork, users, k) && k < |users| && n.Exists(val)
    requires ReplacesAt(n, m, next, val, fork, users[k], i, k)
    ensures Replaced(n, next, val, fork, users, k + 1)
  {
    var o := users[k];
    StillRedirected(n, m, next, val, fork, o, i, k);
    ForkResultsAfterReplacing(n, m, next, val, fork, o, i, k);
    forall p | p in n.ops ensures multiset(next.ops[p].operands)[val] == multiset(users[k + 1..])[p] {
      OneUserLess(m, next, val, fork, users, k, i, p);
    }
  }

  lemma OneUserLess(m: Netlist, next: Netlist, val: Value, fork: nat, users: seq<nat>, k: nat, i: nat, p: nat)
    requires k < |users| && p in m.ops && m.IsUse(val, users[k], i) && val != Result(fork, k)
    requires next.ops == m.ops[users[k] := m.ops[users[k]].(operands := m.ops[users[k]].operands[i := Result(fork, k)])]
    requires multiset(m.ops[p].operands)[val] == multiset(users[k..])[p]
    ensures multiset(next.ops[p].operands)[val] == multiset(users[k + 1..])[p]
  {
    assert users[k..] == [users[k]] + users[k + 1..];
  }

  lemma AllReplacedWellFormed(n: Netlist, m: Netlist, val: Value, fork: nat, users: seq<nat>)
    requires n.WellFormed() && n.Exists(val) && n.Eligible(val) && users != []
    requires Replaced(n, m, val, fork, users, |users|)
    ensures m.WellFormed()
  {
    forall o: nat, i: nat | n.HasOperand(o, i) ensures m.Exists(m.ops[o].operands[i]) {
      var y := m.ops[o].operands[i];
      assert Redirects(n.ops[o].operands[i], y, val, fork);
      if y.Result? && y.op == fork && y.idx >= |users| {
        assert m.Unused(Result(fork, y.idx));
        assert m.IsUse(y, o, i);
      }
    }
    RedirectedWellFormed(n, m, val, fork);
  }

  /** Only the fork still uses the value. */
  lemma AllReplacedUse(n: Netlist, m: Netlist, val: Value, fork: nat, users: seq<nat>)
    requires Replaced(n, m, val, fork, users, |users|)
    ensures m.UsedOnce(val)
  {
    assert users[|users|..] == [];
    forall p | p in n.ops ensures val !in m.ops[p].operands {
      assert val !in multiset(m.ops[p].operands);
      InMultiset(m.ops[p].operands, val);
    }
    assert m.UsedAt(val, fork, 0);
  }

  /** Every value that the fork adds has its one use. */
  lemma AllReplacedResults(n: Netlist, m: Netlist, val: Value, fork: nat, users: seq<nat>)
    requires Replaced(n, m, val, fork, users, |users|)
    ensures forall v | m.Exists(v) && !n.Exists(v) :: m.UsedOnce(v) && !IsBase(m, v)
  {
    forall v | m.Exists(v) && !n.Exists(v) ensures m.UsedOnce(v) && !IsBase(m, v) {
      assert v == Result(fork, v.idx);
    }
  }

  lemma AllReplaced(n: Netlist, m: Netlist, val: Value, fork: nat, users: seq<nat>)
    requires n.WellFormed() && n.Exists(val) && n.Eligible(val) && users != [] && HeadsFork(n, val) && !n.UsedOnce(val)
    requires Replaced(n, m, val, fork, users, |users|)
    ensures Improves(n, m) && m.UsedOnce(val)
  {
    AllReplacedWellFormed(n, m, val, fork, users);
    AllReplacedUse(n, m, val, fork, users);
    RedirectedSameSources(n, m, val, fork);
    EagerWellFormed(n);
    RedirectedSameSources(Eager(n), Eager(m), val, fork);
    OtherUsesAllStay(n, m, val, fork);
    AllReplacedResults(n, m, val, fork, users);
    RedirectedHeads(n, m, val, fork);
    if n.Grounded() {
      RedirectedGrounded(n, m, val, fork);
    }
  }

  lemma NextUser(n: Netlist, m: Netlist, val: Value, fork: nat, users: seq<nat>, k: nat)
    requires Replaced(n, m, val, fork, users, k) && k < |users| && users[k] in n.ops
    ensures users[k] in m.ops && val in m.ops[users[k]].operands
  {
    assert users[k..] == [users[k]] + users[k + 1..];
    assert multiset(m.ops[users[k]].operands)[val] > 0;
    InMultiset(m.ops[users[k]].operands, val);
  }

  // ----- the pass over a function -----

  class HandshakeFunc {
    const args: seq<bool>
    var ops: Ops

    constructor (args: seq<bool>, ops: Ops)
      ensures Net() == Netlist(args, ops, true)
    {
      this.args := args;
      this.ops := ops;
    }

    function Net(): Netlist
      reads this
    {
      Netlist(args, ops, true)
    }

    method FreshOp() returns (o: nat)
      ensures o !in ops
    {
      o := 0;
      while o in ops
        invariant forall p | 0 <= p < o :: p in ops
        decreases ops.Keys - Ids(o)
      {
        assert o in ops.Keys - Ids(o) && o !in ops.Keys - Ids(o + 1);
        o := o + 1;
      }
    }

    /** The owners of the value's uses, each as often as it uses the value. */
    method CollectUsers(val: Value) returns (users: seq<nat>)
      ensures forall o | o in users :: o in ops
      ensures forall o | o in ops :: multiset(users)[o] == multiset(ops[o].operands)[val]
    {
      users := [];
      var todo := ops.Keys;
      while todo != {}
        invariant todo <= ops.Keys && forall o | o in users :: o in ops && o !in todo
        invariant forall o | o in ops && o !in todo :: multiset(users)[o] == multiset(ops[o].operands)[val]
        decreases |todo|
      {
        var o :| o in todo;
        todo := todo - {o};
        assert o !in multiset(users);
        var mine := OncePerUse(o, ops[o].operands, val);
        users := users + mine;
      }
    }

    static method OncePerUse(o: nat, operands: seq<Value>, val: Value) returns (users: seq<nat>)
      ensures forall p | p in users :: p == o
      ensures multiset(users)[o] == multiset(operands)[val] && forall p | p != o :: multiset(users)[p] == 0
    {
      users := [];
      for i := 0 to |operands|
        invariant forall p | p in users :: p == o
        invariant multiset(users)[o] == multiset(operands[..i])[val] && forall p | p != o :: multiset(users)[p] == 0
      {
        assert operands[..i + 1] == operands[..i] + [operands[i]];
        if operands[i] == val {
          users := users + [o];
        }
      }
      assert operands[..|operands|] == operands;
    }

    /** Replaces the first use of `oldVal` by `newVal` in the operation's operands. */
    method ReplaceFirstUse(o: nat, oldVal: Value, newVal: Value) returns (ghost at: nat)
      requires o in ops && oldVal in ops[o].operands
      modifies this
      ensures old(Net()).IsUse(oldVal, o, at) && forall i | 0 <= i < at :: old(ops)[o].operands[i] != oldVal
      ensures ops == old(ops)[o := old(ops)[o].(operands := old(ops)[o].operands[at := newVal])]
    {
      var i := 0;
      while ops[o].operands[i] != oldVal
        invariant 0 <= i < |ops[o].operands| && ops == old(ops)
        invariant forall j | 0 <= j < i :: ops[o].operands[j] != oldVal
        decreases |ops[o].operands| - i
      {
        i := i + 1;
      }
      at := i;
      ops := ops[o := ops[o].(operands := ops[o].operands[i := newVal])];
    }

    /** Gives a dataflow value exactly one use, through a sink or a fork where necessary. */
    method MaterializeValue(val: Value)
      requires Net().WellFormed() && Net().Exists(val)
      modifies this
      ensures Improves(old(Net()), Net())
      ensures old(Net()).Eligible(val) ==> Net().UsedOnce(val)
    {
      ghost var n := Net();
      ImprovesSelf(n);
      if !Net().Eligible(val) {
        return;
      }
      var users := CollectUsers(val);
      CountsUses(n, val, users);
      if users == [] {
        var sink := FreshOp();
        ops := ops[sink := Op(Sink, [val], [])];
        SinkImproves(n, Net(), val, sink);
      } else if |users| > 1 {
        InsertFork(val, users);
      }
    }

    /** A fork with as many results as the value has uses. */
    method InsertFork(val: Value, users: seq<nat>)
      requires Net().WellFormed() && Net().Exists(val) && Net().Eligible(val) && users != [] && !Net().UsedOnce(val)
      requires forall o | o in users :: o in ops
      requires forall o | o in ops :: multiset(users)[o] == multiset(ops[o].operands)[val]
      modifies this
      ensures Improves(old(Net()), Net()) && Net().UsedOnce(val)
    {
      ghost var n := Net();
      UsersAreSeveral(n, val, users);
      var fork := FreshOp();
      ops := ops[fork := Op(Fork, [val], seq(|users|, _ => true))];
      StartReplacing(n, Net(), val, fork, users);
      for k := 0 to |users|
        invariant Replaced(n, Net(), val, fork, users, k)
      {
        ghost var m := Net();
        NextUser(n, m, val, fork, users, k);
        ghost var at := ReplaceFirstUse(users[k], val, Result(fork, k));
        ReplacedStep(n, m, Net(), val, fork, users, k, at);
      }
      AllReplaced(n, Net(), val, fork, users);
    }

    /** First phase: all function arguments, then all results of the operations present at the start. */
    method InsertForksAndSinks()
      requires Net().WellFormed()
      modifies this
      ensures Improves(old(Net()), Net()) && Net().Materialized()
    {
      ghost var n := Net();
      ImprovesSelf(n);
      for i := 0 to |args|
        invariant Improves(n, Net()) && ArgsUsedOnce(n, i, Net())
      {
        ghost var m := Net();
        MaterializeValue(FuncArg(i));
        ArgsStay(n, i, m, Net());
      }
      var todo := ops.Keys;
      while todo != {}
        invariant Improves(n, Net()) && todo <= ops.Keys
        invariant ArgsUsedOnce(n, |args|, Net()) && ResultsUsedOnce(n, todo, Net())
        decreases |todo|
      {
        var o :| o in todo;
        ghost var m, left := Net(), todo;
        todo := todo - {o};
        MaterializeResults(o);
        ArgsStay(n, |args|, m, Net());
        ResultsStay(n, left, o, m, Net());
      }
      AllMaterialized(n, Net());
    }

    /** Decides whether every dataflow value has exactly one use. */
    method VerifyIRMaterialized() returns (ok: bool)
      ensures ok <==> Net().Materialized()
    {
      for i := 0 to |args|
        invariant ArgsUsedOnce(Net(), i, Net())
      {
        var users := CollectUsers(FuncArg(i));
        CountsUses(Net(), FuncArg(i), users);
        if args[i] && |users| != 1 {
          assert Net().Exists(FuncArg(i)) && Net().Eligible(FuncArg(i));
          return false;
        }
      }
      var todo := ops.Keys;
      while todo != {}
        invariant todo <= ops.Keys && ResultsUsedOnce(Net(), todo, Net())
        decreases |todo|
      {
        var o :| o in todo;
        todo := todo - {o};
        for i := 0 to |ops[o].results|
          invariant OpUsedOnce(Net(), o, i, Net())
        {
          var users := CollectUsers(Result(o, i));
          CountsUses(Net(), Result(o, i), users);
          if ops[o].results[i] && |users| != 1 {
            assert Net().Exists(Result(o, i)) && Net().Eligible(Result(o, i));
            return false;
          }
        }
      }
      ok := true;
    }

    method MaterializeResults(o: nat)
      requires Net().WellFormed() && o in ops
      modifies this
      ensures Improves(old(Net()), Net())
      ensures forall i | 0 <= i < |old(ops)[o].results| && old(ops)[o].results[i] :: Net().UsedOnce(Result(o, i))
    {
      ghost var before := Net();
      ImprovesSelf(before);
      var results := ops[o].results;
      for i := 0 to |results|
        invariant Improves(before, Net()) && OpUsedOnce(before, o, i, Net())
      {
        ghost var m := Net();
        MaterializeValue(Result(o, i));
        OpStays(before, o, i, m, Net());
      }
    }
  }

  ghost predicate ArgsUsedOnce(n: Netlist, k: nat, m: Netlist) {
    forall i | 0 <= i < k && i < |n.args| && n.args[i] :: m.UsedOnce(FuncArg(i))
  }

  ghost predicate ResultsUsedOnce(n: Netlist, todo: set<nat>, m: Netlist) {
    forall o, i | o in n.ops && o !in todo && 0 <= i < |n.ops[o].results| && n.ops[o].results[i] :: m.UsedOnce(Result(o, i))
  }

  ghost predicate OpUsedOnce(n: Netlist, o: nat, k: nat, m: Netlist)
    requires o in n.ops
  {
    forall i | 0 <= i < k && i < |n.ops[o].results| && n.ops[o].results[i] :: m.UsedOnce(Result(o, i))
  }

  lemma OpStays(n: Netlist, o: nat, k: nat, m: Netlist, next: Netlist)
    requires o in n.ops && Improves(n, m) && Improves(m, next) && OpUsedOnce(n, o, k, m)
    ensures Improves(n, next)
    ensures (k < |n.ops[o].results| && n.ops[o].results[k] ==> next.UsedOnce(Result(o, k))) ==> OpUsedOnce(n, o, k + 1, next)
  {
    ImprovesTransitive(n, m, next);
    forall i | 0 <= i < k && i < |n.ops[o].results| && n.ops[o].results[i] ensures next.UsedOnce(Result(o, i)) {
      assert SameOp(n.ops[o], m.ops[o]) && m.Exists(Result(o, i));
    }
  }

  lemma ArgsStay(n: Netlist, k: nat, m: Netlist, next: Netlist)
    requires Improves(n, m) && Improves(m, next) && ArgsUsedOnce(n, k, m)
    ensures Improves(n, next)
    ensures ArgsUsedOnce(n, k, next)
    ensures (k < |n.args| && n.args[k] ==> next.UsedOnce(FuncArg(k))) ==> ArgsUsedOnce(n, k + 1, next)
  {
    ImprovesTransitive(n, m, next);
    forall i | 0 <= i < k && i < |n.args| && n.args[i] ensures next.UsedOnce(FuncArg(i)) {
      assert m.Exists(FuncArg(i));
    }
  }

  lemma ResultsStay(n: Netlist, todo: set<nat>, o: nat, m: Netlist, next: Netlist)
    requires Improves(n, m) && Improves(m, next) && ResultsUsedOnce(n, todo, m) && o in m.ops
    requires forall i | 0 <= i < |m.ops[o].results| && m.ops[o].results[i] :: next.UsedOnce(Result(o, i))
    ensures ResultsUsedOnce(n, todo - {o}, next)
  {
    forall p, i | p in n.ops && p !in todo - {o} && 0 <= i < |n.ops[p].results| && n.ops[p].results[i]
      ensures next.UsedOnce(Result(p, i))
    {
      assert SameOp(n.ops[p], m.ops[p]);
      if p != o {
        assert m.UsedOnce(Result(p, i)) && m.Exists(Result(p, i));
      }
    }
  }

  lemma AllMaterialized(n: Netlist, m: Netlist)
    requires Improves(n, m) && ArgsUsedOnce(n, |n.args|, m) && ResultsUsedOnce(n, {}, m)
    ensures m.Materialized()
  {
    forall v | m.Exists(v) && m.Eligible(v) ensures m.UsedOnce(v) {
      if n.Exists(v) && v.Result? {
        assert SameOp(n.ops[v.op], m.ops[v.op]);
      }
    }
  }

  lemma InMultiset<T>(xs: seq<T>, x: T)
    ensures x in xs <==> x in multiset(xs)
  {
  }

  /** The number of users tells whether the value is unused or used once. */
  lemma CountsUses(n: Netlist, val: Value, users: seq<nat>)
    requires forall o | o in users :: o in n.ops
    requires forall o | o in n.ops :: multiset(users)[o] == multiset(n.ops[o].operands)[val]
    ensures users == [] ==> n.Unused(val)
    ensures |users| == 1 <==> n.UsedOnce(val)
  {
    forall o: nat, i: nat | n.IsUse(val, o, i) ensures o in users {
      InMultiset(n.ops[o].operands, val);
      InMultiset(users, o);
    }
    if |users| == 1 {
      OneUserUsesOnce(n, val, users);
    }
    if n.UsedOnce(val) {
      UsedOnceByOneUser(n, val, users);
    }
  }

  lemma OneUserUsesOnce(n: Netlist, val: Value, users: seq<nat>)
    requires |users| == 1 && users[0] in n.ops
    requires forall o | o in n.ops :: multiset(users)[o] == multiset(n.ops[o].operands)[val]
    requires forall o: nat, i: nat | n.IsUse(val, o, i) :: o in users
    ensures n.UsedOnce(val)
  {
    var o := users[0];
    assert users == [o];
    var xs := n.ops[o].operands;
    assert multiset(xs)[val] == 1;
    InMultiset(xs, val);
    var i :| 0 <= i < |xs| && xs[i] == val;
    forall j | 0 <= j < |xs| && xs[j] == val ensures j == i {
      if j != i {
        CountedTwice(xs, i, j);
      }
    }
    assert n.UsedAt(val, o, i);
  }

  lemma UsedOnceByOneUser(n: Netlist, val: Value, users: seq<nat>)
    requires n.UsedOnce(val) && forall o | o in users :: o in n.ops
    requires forall o | o in n.ops :: multiset(users)[o] == multiset(n.ops[o].operands)[val]
    requires forall o: nat, i: nat | n.IsUse(val, o, i) :: o in users
    ensures |users| == 1
  {
    var o, i :| n.UsedAt(val, o, i);
    assert n.IsUse(val, o, i);
    var xs := n.ops[o].operands;
    forall j: nat | j < |xs| && xs[j] == val ensures j == i {
      assert n.IsUse(val, o, j);
    }
    CountedOnce(xs, i);
    forall k | 0 <= k < |users| ensures users[k] == o {
      InMultiset(users, users[k]);
      InMultiset(n.ops[users[k]].operands, val);
      var j :| 0 <= j < |n.ops[users[k]].operands| && n.ops[users[k]].operands[j] == val;
      assert n.IsUse(val, users[k], j);
    }
    if |users| > 1 {
      CountedTwice(users, 0, 1);
    }
  }

  lemma CountedTwice<T>(xs: seq<T>, i: nat, j: nat)
    requires i < |xs| && j < |xs| && i != j && xs[i] == xs[j]
    ensures multiset(xs)[xs[i]] >= 2
  {
    if i < j {
      assert xs == xs[..i] + [xs[i]] + xs[i + 1..j] + [xs[j]] + xs[j + 1..];
    } else {
      assert xs == xs[..j] + [xs[j]] + xs[j + 1..i] + [xs[i]] + xs[i + 1..];
    }
  }

  lemma CountedOnce<T>(xs: seq<T>, i: nat)
    requires i < |xs| && forall j | 0 <= j < |xs| && xs[j] == xs[i] :: j == i
    ensures multiset(xs)[xs[i]] == 1
  {
    assert xs == xs[..i] + [xs[i]] + xs[i + 1..];
    InMultiset(xs[..i], xs[i]);
    InMultiset(xs[i + 1..], xs[i]);
  }

  lemma UsersAreSeveral(n: Netlist, val: Value, users: seq<nat>)
    requires users != [] && users[0] in n.ops && !n.UsedOnce(val)
    requires forall o | o in n.ops :: multiset(users)[o] == multiset(n.ops[o].operands)[val]
    ensures HeadsFork(n, val)
  {
    InMultiset(n.ops[users[0]].operands, val);
    assert users[0] in multiset(users);
    SeveralUses(n, val, users[0]);
  }

  lemma StartReplacing(n: Netlist, m: Netlist, val: Value, fork: nat, users: seq<nat>)
    requires n.WellFormed() && n.Exists(val) && fork !in n.ops
    requires forall o | o in n.ops :: multiset(users)[o] == multiset(n.ops[o].operands)[val]
    requires m == n.(ops := n.ops[fork := Op(Fork, [val], seq(|users|, _ => true))])
    ensures Replaced(n, m, val, fork, users, 0)
  {
    assert users[0..] == users;
    forall j: nat ensures m.Unused(Result(fork, j)) {
      forall o: nat, i: nat | m.HasOperand(o, i) ensures m.ops[o].operands[i] != Result(fork, j) {
        if o != fork {
          assert n.HasOperand(o, i);
        }
      }
    }
  }
}
