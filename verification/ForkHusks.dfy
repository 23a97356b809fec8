/** Single uses through fork rewrites. Merging leaves the fork in front without users but still using its operand; such husks
    feed nothing but one another, and apart from them every dataflow value keeps at most one use. */
module ForkHusks {
  import opened Netlists
  import opened ForkRewrites
  import opened ForkMerges
  import opened ForkPatterns
  import opened ForkRuns

  ghost predicate Affine(n: Netlist, husks: set<nat>) {
    && (forall h | h in husks :: h in n.ops && n.ops[h].kind.Fork?)
    && (forall v: Value, o: nat, i: nat | n.IsUse(v, o, i) && v.Result? && v.op in husks :: o in husks)
    && forall v: Value, o: nat, i: nat, p: nat, j: nat |
         n.Exists(v) && n.Eligible(v) && n.IsUse(v, o, i) && n.IsUse(v, p, j) && o !in husks && p !in husks :: o == p && i == j
  }

  /** Uses outside the husks after a step come from different uses outside the husks before it. */
  ghost predicate Carried(n: Netlist, husks: set<nat>, m: Netlist, next: set<nat>, back: Value -> Value, from: nat -> nat) {
    && (forall w, p: nat, j: nat | m.IsUse(w, p, j) && p !in next :: n.IsUse(back(w), from(p), j) && from(p) !in husks)
    && (forall p, q | p in m.ops && q in m.ops && p !in next && q !in next && from(p) == from(q) :: p == q)
    && (forall w | m.Exists(w) && m.Eligible(w) :: n.Exists(back(w)) && n.Eligible(back(w)))
    && (forall h | h in next :: h in m.ops && m.ops[h].kind.Fork?)
    && forall w: Value, p: nat, j: nat | m.IsUse(w, p, j) && w.Result? && w.op in next :: back(w).Result? && back(w).op in husks
  }

  lemma CarriedAffine(n: Netlist, husks: set<nat>, m: Netlist, next: set<nat>, back: Value -> Value, from: nat -> nat)
    requires Affine(n, husks) && Carried(n, husks, m, next, back, from)
    ensures Affine(m, next)
  {
    forall w: Value, p: nat, j: nat, q: nat, l: nat |
      m.Exists(w) && m.Eligible(w) && m.IsUse(w, p, j) && m.IsUse(w, q, l) && p !in next && q !in next ensures p == q && j == l
    {
      assert n.IsUse(back(w), from(p), j) && n.IsUse(back(w), from(q), l);
    }
  }

  /** The operation behind a fork that a step adds. */
  function Behind(fork: nat, added: nat, p: nat): nat {
    if p == added then fork else p
  }

  // ----- minimizing -----

  function BackSmaller(n: Netlist, f: nat, smaller: nat, w: Value): Value
    requires f in n.ops
  {
    var used := UsedResults(n, f, |n.ops[f].results|);
    if w.Result? && w.op == smaller then Result(f, if w.idx < |used| then used[w.idx] else 0) else w
  }

  lemma MinimizedUse(n: Netlist, m: Netlist, f: nat, smaller: nat, w: Value, p: nat, j: nat)
    requires Minimizes(n, m, f, smaller) && m.IsUse(w, p, j)
    ensures n.IsUse(BackSmaller(n, f, smaller, w), Behind(f, smaller, p), j)
    ensures m.ops[p].kind == n.ops[Behind(f, smaller, p)].kind
  {
    var k := |n.ops[f].results|;
    if p == smaller {
      assert n.HasOperand(f, 0) && w == n.ops[f].operands[0] && n.Exists(w);
    } else {
      var v := n.ops[p].operands[j];
      assert n.HasOperand(p, j) && n.Exists(v) && w == ToSmaller(n, f, smaller, v);
      if v.Result? && v.op == f && HasRealUses(n, v) {
        UsedPosition(n, f, v.idx, k);
      }
    }
  }

  lemma MinimizedBack(n: Netlist, m: Netlist, f: nat, smaller: nat, w: Value)
    requires Minimizes(n, m, f, smaller) && m.Exists(w) && m.Eligible(w)
    ensures n.Exists(BackSmaller(n, f, smaller, w)) && n.Eligible(BackSmaller(n, f, smaller, w))
  {
    if w.Result? && w.op == smaller {
      UsedAtPosition(n, f, w.idx, |n.ops[f].results|);
    }
  }

  function SmallerHusks(n: Netlist, husks: set<nat>, f: nat, smaller: nat): set<nat>
    requires f in n.ops
  {
    if f in husks then husks - {f} + SmallerFork(n, f, smaller).Keys else husks
  }

  lemma SmallerHusksAreForks(n: Netlist, husks: set<nat>, m: Netlist, f: nat, smaller: nat)
    requires Affine(n, husks) && Minimizes(n, m, f, smaller)
    ensures forall h | h in SmallerHusks(n, husks, f, smaller) :: h in m.ops && m.ops[h].kind.Fork?
    ensures forall p | p in m.ops && p !in SmallerHusks(n, husks, f, smaller) :: Behind(f, smaller, p) !in husks
  {
  }

  lemma MinimizedAffine(n: Netlist, husks: set<nat>, m: Netlist, f: nat, smaller: nat)
    requires Affine(n, husks) && Minimizes(n, m, f, smaller)
    ensures Affine(m, SmallerHusks(n, husks, f, smaller))
  {
    var next := SmallerHusks(n, husks, f, smaller);
    SmallerHusksAreForks(n, husks, m, f, smaller);
    var back := w => if f in n.ops then BackSmaller(n, f, smaller, w) else w;
    var from := p => Behind(f, smaller, p);
    forall w, p: nat, j: nat | m.IsUse(w, p, j) ensures n.IsUse(back(w), from(p), j) {
      MinimizedUse(n, m, f, smaller, w, p, j);
    }
    forall w | m.Exists(w) && m.Eligible(w) ensures n.Exists(back(w)) && n.Eligible(back(w)) {
      MinimizedBack(n, m, f, smaller, w);
    }
    CarriedAffine(n, husks, m, next, back, from);
  }

  // ----- bypassing -----

  lemma BypassedUse(n: Netlist, husks: set<nat>, m: Netlist, f: nat, w: Value, p: nat, j: nat)
    requires Affine(n, husks) && BypassStep(n, m, f) && m.IsUse(w, p, j) && p !in husks - {f}
    ensures p !in husks && n.IsUse(if f !in husks && w == n.ops[f].operands[0] then Result(f, 0) else w, p, j)
  {
    var x, v := n.ops[f].operands[0], n.ops[p].operands[j];
    FeedsOther(n, f);
    assert n.HasOperand(f, 0) && n.HasOperand(p, j) && n.Exists(v) && w == Bypass(n, f, v);
    assert n.IsUse(v, p, j) && n.IsUse(x, f, 0) && n.GoodOperand(f, 0);
  }

  lemma BypassedAffine(n: Netlist, husks: set<nat>, m: Netlist, f: nat) returns (next: set<nat>)
    requires Affine(n, husks) && BypassStep(n, m, f)
    ensures Affine(m, next)
  {
    next := husks - {f};
    var x := n.ops[f].operands[0];
    FeedsOther(n, f);
    assert n.HasOperand(f, 0) && n.IsUse(x, f, 0) && n.Eligible(Result(f, 0));
    var back := w => if f !in husks && w == x then Result(f, 0) else w;
    var from := (p: nat) => p;
    forall w, p: nat, j: nat | m.IsUse(w, p, j) && p !in next ensures n.IsUse(back(w), from(p), j) && from(p) !in husks {
      BypassedUse(n, husks, m, f, w, p, j);
    }
    CarriedAffine(n, husks, m, next, back, from);
  }

  // ----- merging -----

  /** The result of one of the two forks that a result of the merged fork stands for. */
  function BackBig(n: Netlist, d: nat, k: nat, f: nat, big: nat, single: bool, w: Value): Value
    requires d in n.ops
  {
    var first := |n.ops[d].results| - if single then 1 else 0;
    if w.Result? && w.op == big then
      if w.idx >= first >= 0 then Result(f, w.idx - first) else Result(d, if single && w.idx >= k then w.idx + 1 else w.idx)
    else w
  }

  lemma MergedUse(n: Netlist, m: Netlist, d: nat, k: nat, f: nat, big: nat, single: bool, w: Value, p: nat, j: nat)
    requires MergeStep(n, m, d, k, f, big, single) && m.IsUse(w, p, j)
    ensures n.IsUse(BackBig(n, d, k, f, big, single, w), Behind(d, big, p), j)
    ensures m.ops[p].kind == n.ops[Behind(d, big, p)].kind
    ensures !(w.Result? && w.op == d)
  {
    FedFromElsewhere(n, d, k, f);
    if p == big {
      assert n.HasOperand(d, 0) && w == n.ops[d].operands[0];
    } else {
      var v := n.ops[p].operands[j];
      assert n.HasOperand(p, j) && n.Exists(v) && n.IsUse(v, p, j) && w == Merge(n, d, k, f, big, single, v);
    }
  }

  lemma MergedBack(n: Netlist, m: Netlist, d: nat, k: nat, f: nat, big: nat, single: bool, w: Value)
    requires MergeStep(n, m, d, k, f, big, single) && m.Exists(w) && m.Eligible(w)
    ensures n.Exists(BackBig(n, d, k, f, big, single, w)) && n.Eligible(BackBig(n, d, k, f, big, single, w))
  {
    FedFromElsewhere(n, d, k, f);
  }

  lemma MergedAffine(n: Netlist, husks: set<nat>, m: Netlist, d: nat, k: nat, f: nat, big: nat, single: bool) returns (next: set<nat>)
    requires Affine(n, husks) && MergeStep(n, m, d, k, f, big, single)
    ensures Affine(m, next)
  {
    next := husks - {f} + {if d in husks then big else d};
    FedFromElsewhere(n, d, k, f);
    assert n.IsUse(Result(d, k), f, 0);
    var back := w => if d in n.ops then BackBig(n, d, k, f, big, single, w) else w;
    var from := p => Behind(d, big, p);
    forall w, p: nat, j: nat | m.IsUse(w, p, j)
      ensures p !in next ==> n.IsUse(back(w), from(p), j) && from(p) !in husks
      ensures w.Result? && w.op in next ==> back(w).Result? && back(w).op in husks
    {
      MergedUse(n, m, d, k, f, big, single, w, p, j);
    }
    forall w | m.Exists(w) && m.Eligible(w) ensures n.Exists(back(w)) && n.Eligible(back(w)) {
      MergedBack(n, m, d, k, f, big, single, w);
    }
    CarriedAffine(n, husks, m, next, back, from);
  }

  // ----- any step -----

  ghost predicate HasHusks(n: Netlist) {
    exists husks :: Affine(n, husks)
  }

  lemma RewritesAffine(n: Netlist, m: Netlist)
    requires HasHusks(n) && Rewrites(n, m)
    ensures HasHusks(m)
  {
    var husks :| Affine(n, husks);
    var next;
    if f, smaller :| Minimizes(n, m, f, smaller) {
      MinimizedAffine(n, husks, m, f, smaller);
      next := SmallerHusks(n, husks, f, smaller);
    } else if f :| BypassStep(n, m, f) {
      next := BypassedAffine(n, husks, m, f);
    } else {
      var d, k, f, big, single :| MergeStep(n, m, d, k, f, big, single);
      next := MergedAffine(n, husks, m, d, k, f, big, single);
    }
  }

  lemma MaterializedIsAffine(n: Netlist)
    requires n.Materialized()
    ensures Affine(n, {})
  {
    forall v, o: nat, i: nat, p: nat, j: nat | n.Exists(v) && n.Eligible(v) && n.IsUse(v, o, i) && n.IsUse(v, p, j) ensures o == p && i == j {
      assert n.UsedOnce(v);
    }
  }
}
