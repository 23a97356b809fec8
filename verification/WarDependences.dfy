/** Deactivation of write-after-read dependences that the circuit enforces by itself. */
module WarDependences {
  import opened Basics
  import opened GIIDSearch
  import opened GIIDMeaning
  import opened SimplePaths

  datatype Dependence = Dependence(dst: string, loopDepth: nat, distance: int, isActive: bool)

  /** The value a load returns: its second result. */
  function LoadData(load: nat): Value {
    Result(load, 1)
  }

  /** A load and a store whose blocks are known to the graph. */
  predicate IsPair(c: Circuit, cfg: HandshakeCFG, load: nat, store: nat) {
    && load < |c.ops| && c.HasOperand(Operand(store, 0)) && c.HasOperand(Operand(store, 1))
    && (c.ops[load].block.Some? ==> c.ops[load].block.value in cfg.bbs)
    && (c.ops[store].block.Some? ==> c.ops[store].block.value in cfg.bbs)
  }

  predicate HaveBlocks(c: Circuit, load: nat, store: nat) {
    load < |c.ops| && store < |c.ops| && c.ops[load].block.Some? && c.ops[store].block.Some?
  }

  /** Every token that can arrive at the store's address, its first operand, is asked to depend on what the load read, or every
      token that can arrive at its data, the second. */
  ghost predicate OrderedAlong(c: Circuit, load: nat, store: nat, path: Path)
    requires c.Valid() && c.HasOperand(Operand(store, 0)) && c.HasOperand(Operand(store, 1)) && path != []
  {
    || AsksAll(c, Result(load, 1), c.ops[store].operands[0], store, path)
    || AsksAll(c, Result(load, 1), c.ops[store].operands[1], store, path)
  }

  /** There is a simple path from the load's block to the store's, and the store is ordered along each. */
  ghost predicate Enforced(c: Circuit, cfg: HandshakeCFG, load: nat, store: nat)
    requires c.Valid() && IsPair(c, cfg, load, store) && HaveBlocks(c, load, store)
  {
    var from, to := c.ops[load].block.value, c.ops[store].block.value;
    && (exists path :: cfg.IsSimplePath(path, from, to))
    && forall path | cfg.IsSimplePath(path, from, to) :: OrderedAlong(c, load, store, path)
  }

  /** What makes it safe to ignore the dependence. */
  ghost predicate WaitsForLoad(c: Circuit, load: nat, store: nat, k: nat, path: Path)
    requires c.Valid() && c.HasOperand(Operand(store, k)) && path != []
  {
    && HasChain(c, LoadData(load), c.Get(Operand(store, k)), store, path)
    && forall t | Arrives(c, LoadData(load), c.Get(Operand(store, k)), store, path, t) :: Depends(t)
  }

  /** On every simple path, address or data of the store have a def-use chain from the load moving backward along the path,
      and no token arrives there that was not computed from what the load read. */
  lemma EnforcedWaits(c: Circuit, cfg: HandshakeCFG, load: nat, store: nat, path: Path)
    requires c.Valid() && IsPair(c, cfg, load, store) && HaveBlocks(c, load, store) && Enforced(c, cfg, load, store)
    requires cfg.IsSimplePath(path, c.ops[load].block.value, c.ops[store].block.value)
    ensures WaitsForLoad(c, load, store, 0, path) || WaitsForLoad(c, load, store, 1, path)
  {
    assert OrderedAlong(c, load, store, path);
    var k := if AsksAll(c, LoadData(load), c.Get(Operand(store, 0)), store, path) then 0 else 1;
    var v := c.Get(Operand(store, k));
    AsksAllExactly(c, LoadData(load), v, store, path);
    SucceedHasChain(c, LoadData(load), v, store, path);
    forall t | Arrives(c, LoadData(load), v, store, path, t) ensures Depends(t) {
      SearchSound(c, LoadData(load), v, store, path, t);
    }
  }

  /** A load, an addition to what it read, and a store of the sum to the same address, in one block. */
  function Increment(): Circuit {
    Circuit(
      [Op(Load, [Argument(1)], Some(0)), Op(Join, [Result(0, 1), Argument(2)], Some(0)), Op(Unsupported, [Argument(1), Result(1, 0)], Some(0))],
      (v, o) => false,
      (o: nat) => o)
  }

  /** The store waits for the load by its data, not by its address. */
  lemma IncrementWaits()
    ensures var c := Increment();
      c.Valid() && AsksAll(c, Result(0, 1), Result(1, 0), 2, [0]) && !AsksAll(c, Result(0, 1), Argument(1), 2, [0]) && OrderedAlong(c, 0, 2, [0])
  {
    var c, load := Increment(), Result(0, 1);
    AsksAllExactly(c, load, Result(1, 0), 2, [0]);
    AsksAllExactly(c, load, Argument(1), 2, [0]);
    assert UpTo([0], 0) == Some([0]);
    assert OriginOf(c, Result(1, 0), 2, [0]) == At([0]);
    assert Statuses(c, load, 1, c.ops[1].operands, [0])[0] == Succeed;
  }

  /** A load, and a store to the address it read, in one block. */
  function Scatter(): Circuit {
    Circuit([Op(Load, [Argument(1)], Some(0)), Op(Unsupported, [Result(0, 1), Argument(2)], Some(0))], (v, o) => false, (o: nat) => o)
  }

  /** The store waits for the load by its address, not by its data. */
  lemma ScatterWaits()
    ensures var c := Scatter();
      c.Valid() && AsksAll(c, Result(0, 1), Result(0, 1), 1, [0]) && !AsksAll(c, Result(0, 1), Argument(2), 1, [0]) && OrderedAlong(c, 0, 1, [0])
  {
    var c, load := Scatter(), Result(0, 1);
    AsksAllExactly(c, load, load, 1, [0]);
    AsksAllExactly(c, load, Argument(2), 1, [0]);
  }

  /** Fails if one of the operations has no block. Without any path nothing orders the accesses. */
  method IsStoreGIIDOnLoad(c: Circuit, cfg: HandshakeCFG, load: nat, store: nat) returns (answer: Option<bool>)
    requires c.Valid() && cfg.Valid() && IsPair(c, cfg, load, store)
    ensures answer.Some? <==> HaveBlocks(c, load, store)
    ensures answer.Some? ==> (answer.value <==> Enforced(c, cfg, load, store))
    ensures answer.Some? ==>
              var from, to := c.ops[load].block.value, c.ops[store].block.value;
              answer.value <==>
              && (exists path :: cfg.IsSimplePath(path, from, to))
              && forall path | cfg.IsSimplePath(path, from, to) ::
                   || AsksAll(c, Result(load, 1), c.ops[store].operands[0], store, path)
                   || AsksAll(c, Result(load, 1), c.ops[store].operands[1], store, path)
  {
    if c.ops[load].block.None? || c.ops[store].block.None? {
      return None;
    }
    var allPaths := cfg.GetNonCyclicPaths(c.ops[load].block.value, c.ops[store].block.value);
    if allPaths == [] {
      return Some(false);
    }
    assert allPaths[0] in allPaths;
    forall j | 0 <= j < |allPaths| ensures allPaths[j] != [] {
      assert allPaths[j] in allPaths;
    }
    for i := 0 to |allPaths|
      invariant forall j | 0 <= j < i :: OrderedAlong(c, load, store, allPaths[j])
    {
      assert allPaths[i] in allPaths;
      AsksAllExactly(c, LoadData(load), c.ops[store].operands[0], store, allPaths[i]);
      AsksAllExactly(c, LoadData(load), c.ops[store].operands[1], store, allPaths[i]);
      var giid := IsGIID(c, LoadData(load), Operand(store, 0), allPaths[i]);
      if !giid {
        giid := IsGIID(c, LoadData(load), Operand(store, 1), allPaths[i]);
      }
      if !giid {
        return Some(false);
      }
    }
    return Some(true);
  }

  /** The dependences of loads, as attributes of the circuit's operations. */
  class Dependences {
    var ofLoad: map<nat, seq<Dependence>>

    /** Every store a dependence names exists. */
    predicate Valid(c: Circuit, cfg: HandshakeCFG, storesByName: map<string, nat>)
      reads this
    {
      forall load, i | load in ofLoad && 0 <= i < |ofLoad[load]| ::
        ofLoad[load][i].dst in storesByName && IsPair(c, cfg, load, storesByName[ofLoad[load][i].dst])
    }

    /** Deactivates exactly the enforced dependences of every load, or fails on an operation without a block. */
    method DeactivateEnforcedWARs(c: Circuit, cfg: HandshakeCFG, loads: seq<nat>, storesByName: map<string, nat>) returns (ok: bool)
      requires c.Valid() && cfg.Valid() && Valid(c, cfg, storesByName)
      modifies this
      ensures ofLoad.Keys == old(ofLoad).Keys
      ensures forall load | load in ofLoad && load !in loads :: ofLoad[load] == old(ofLoad)[load]
      ensures ok ==> forall load | load in ofLoad && load in loads ::
                       Updated(c, cfg, storesByName, load, old(ofLoad)[load], ofLoad[load])
      ensures !ok ==> exists load, i | load in loads && load in ofLoad && 0 <= i < |old(ofLoad)[load]| ::
                        !HaveBlocks(c, load, storesByName[old(ofLoad)[load][i].dst])
    {
      for k := 0 to |loads|
        invariant ofLoad.Keys == old(ofLoad).Keys
        invariant forall load | load in ofLoad && load !in loads[..k] :: ofLoad[load] == old(ofLoad)[load]
        invariant forall load | load in ofLoad && load in loads[..k] ::
                    Updated(c, cfg, storesByName, load, old(ofLoad)[load], ofLoad[load])
      {
        var load := loads[k];
        assert loads[..k + 1] == loads[..k] + [load];
        if load in ofLoad && load !in loads[..k] {
          var newDeps;
          ok, newDeps := UpdateDeps(c, cfg, storesByName, load, ofLoad[load]);
          if !ok {
            return;
          }
          ofLoad := ofLoad[load := newDeps];
        }
      }
      assert loads[..|loads|] == loads;
      ok := true;
    }
  }

  ghost predicate Updated(c: Circuit, cfg: HandshakeCFG, storesByName: map<string, nat>, load: nat, deps: seq<Dependence>,
                          newDeps: seq<Dependence>)
    requires c.Valid()
    requires forall i | 0 <= i < |deps| :: deps[i].dst in storesByName && IsPair(c, cfg, load, storesByName[deps[i].dst])
  {
    && |newDeps| == |deps|
    && forall i | 0 <= i < |deps| ::
         var store := storesByName[deps[i].dst];
         HaveBlocks(c, load, store) &&
         newDeps[i] == if Enforced(c, cfg, load, store) then deps[i].(isActive := false) else deps[i]
  }

  method UpdateDeps(c: Circuit, cfg: HandshakeCFG, storesByName: map<string, nat>, load: nat, deps: seq<Dependence>)
    returns (ok: bool, newDeps: seq<Dependence>)
    requires c.Valid() && cfg.Valid()
    requires forall i | 0 <= i < |deps| :: deps[i].dst in storesByName && IsPair(c, cfg, load, storesByName[deps[i].dst])
    ensures ok ==> Updated(c, cfg, storesByName, load, deps, newDeps)
    ensures !ok ==> exists i | 0 <= i < |deps| :: !HaveBlocks(c, load, storesByName[deps[i].dst])
  {
    newDeps := [];
    for i := 0 to |deps|
      invariant Updated(c, cfg, storesByName, load, deps[..i], newDeps)
    {
      var giid := IsStoreGIIDOnLoad(c, cfg, load, storesByName[deps[i].dst]);
      if giid.None? {
        return false, newDeps;
      }
      newDeps := newDeps + [if giid.value then deps[i].(isActive := false) else deps[i]];
    }
    assert deps[..|deps|] == deps;
    ok := true;
  }
}
