/** What the cycle search and backtracking must find, told by walks back through data operands. */
module CycleWalks {
  import opened ForwardingCycles
  import CycleNarrowing

  /** Each value is a data operand of the operation that defines the one before it. */
  predicate IsWalk(g: Graph, walk: seq<Value>) {
    walk != [] && forall i | 0 <= i < |walk| - 1 :: HasDef(g, walk[i]) && walk[i + 1] in DataOperands(g[walk[i].op])
  }

  /** The first `n` values of the walk are not all made by other operations. */
  predicate Passes(walk: seq<Value>, n: nat, op: nat) {
    exists i | 0 <= i < n && i < |walk| :: walk[i].Result? && walk[i].op == op
  }

  /** The walk ends at `res`, or at an operation of `visited` or one it has passed. */
  predicate Closes(g: Graph, walk: seq<Value>, res: Value, visited: set<nat>)
    requires walk != []
  {
    var last := walk[|walk| - 1];
    || last == res
    || (HasDef(g, last) && (last.op in visited || Passes(walk, |walk| - 1, last.op)))
  }

  /** It can be continued, or stopped where it is, so that it closes. */
  ghost predicate CanClose(g: Graph, walk: seq<Value>, res: Value, visited: set<nat>) {
    exists full :: walk <= full && IsWalk(g, full) && Closes(g, full, res, visited)
  }

  /** It has neither met `res` nor come to an operation twice, nor ended at a function argument. */
  predicate IsOpen(g: Graph, walk: seq<Value>, res: Value, visited: set<nat>) {
    forall i: nat | i < |walk| :: OpenAt(g, walk, res, visited, i)
  }

  predicate OpenAt(g: Graph, walk: seq<Value>, res: Value, visited: set<nat>, i: nat)
    requires i < |walk|
  {
    walk[i] != res && HasDef(g, walk[i]) && walk[i].op !in visited && !Passes(walk, i, walk[i].op)
  }

  // ----- one step of a walk -----

  lemma WalkFrom(g: Graph, val: Value, walk: seq<Value>)
    requires walk != []
    ensures IsWalk(g, [val] + walk) <==> HasDef(g, val) && walk[0] in DataOperands(g[val.op]) && IsWalk(g, walk)
  {
    var more := [val] + walk;
    assert forall i | 0 <= i < |walk| :: more[i + 1] == walk[i];
    if IsWalk(g, more) {
      assert HasDef(g, more[0]) && more[1] in DataOperands(g[more[0].op]);
      forall i | 0 <= i < |walk| - 1 ensures HasDef(g, walk[i]) && walk[i + 1] in DataOperands(g[walk[i].op]) {
        assert HasDef(g, more[i + 1]) && more[i + 1 + 1] in DataOperands(g[more[i + 1].op]);
      }
    }
    if HasDef(g, val) && walk[0] in DataOperands(g[val.op]) && IsWalk(g, walk) {
      forall i | 0 <= i < |more| - 1 ensures HasDef(g, more[i]) && more[i + 1] in DataOperands(g[more[i].op]) {
        if i > 0 {
          assert HasDef(g, walk[i - 1]) && walk[i - 1 + 1] in DataOperands(g[walk[i - 1].op]);
        }
      }
    }
  }

  lemma PassesFrom(val: Value, walk: seq<Value>, n: nat, op: nat)
    requires val.Result?
    ensures Passes([val] + walk, n + 1, op) <==> val.op == op || Passes(walk, n, op)
  {
    var more := [val] + walk;
    assert more[0] == val;
    if Passes(walk, n, op) {
      var i :| 0 <= i < n && i < |walk| && walk[i].Result? && walk[i].op == op;
      assert more[i + 1] == walk[i];
    }
    if Passes(more, n + 1, op) {
      var i :| 0 <= i < n + 1 && i < |more| && more[i].Result? && more[i].op == op;
      assert i > 0 ==> walk[i - 1] == more[i];
    }
  }

  lemma ClosesFrom(g: Graph, val: Value, walk: seq<Value>, res: Value, visited: set<nat>)
    requires walk != [] && HasDef(g, val)
    ensures Closes(g, [val] + walk, res, visited) <==> Closes(g, walk, res, visited + {val.op})
  {
    var last := walk[|walk| - 1];
    assert ([val] + walk)[|walk|] == last;
    if last.Result? {
      PassesFrom(val, walk, |walk| - 1, last.op);
    }
  }

  lemma CloseFrom(g: Graph, val: Value, walk: seq<Value>, res: Value, visited: set<nat>)
    requires walk != [] && IsWalk(g, [val] + walk) && HasDef(g, val)
    ensures CanClose(g, [val] + walk, res, visited) <==> CanClose(g, walk, res, visited + {val.op})
  {
    WalkFrom(g, val, walk);
    if full :| [val] + walk <= full && IsWalk(g, full) && Closes(g, full, res, visited) {
      var rest := full[1..];
      assert full == [val] + rest && walk <= rest;
      WalkFrom(g, val, rest);
      ClosesFrom(g, val, rest, res, visited);
    }
    if rest :| walk <= rest && IsWalk(g, rest) && Closes(g, rest, res, visited + {val.op}) {
      assert [val] + walk <= [val] + rest && rest[0] == walk[0];
      WalkFrom(g, val, rest);
      ClosesFrom(g, val, rest, res, visited);
    }
  }

  // ----- the search -----

  lemma {:induction false} InCycleHasWalk(g: Graph, val: Value, res: Value, visited: set<nat>) returns (walk: seq<Value>)
    requires InCycle(g, val, res, visited)
    ensures IsWalk(g, walk) && walk[0] == val && Closes(g, walk, res, visited)
    decreases g.Keys - visited
  {
    if val == res || val.op in visited {
      walk := [val];
    } else {
      var o :| o in DataOperands(g[val.op]) && InCycle(g, o, res, visited + {val.op});
      var rest := InCycleHasWalk(g, o, res, visited + {val.op});
      WalkFrom(g, val, rest);
      ClosesFrom(g, val, rest, res, visited);
      walk := [val] + rest;
    }
  }

  lemma {:induction false} WalkIsInCycle(g: Graph, walk: seq<Value>, res: Value, visited: set<nat>)
    requires IsWalk(g, walk) && Closes(g, walk, res, visited)
    ensures InCycle(g, walk[0], res, visited)
    decreases |walk|
  {
    if |walk| > 1 && walk[0] != res && walk[0].op !in visited {
      var val, rest := walk[0], walk[1..];
      assert walk == [val] + rest;
      WalkFrom(g, val, rest);
      ClosesFrom(g, val, rest, res, visited);
      WalkIsInCycle(g, rest, res, visited + {val.op});
      assert rest[0] in DataOperands(g[val.op]);
    } else if |walk| > 1 {
      assert HasDef(g, walk[0]);
    }
  }

  /** The search answers yes exactly if some walk back from the value ends at the result or at an operation it has already passed. */
  lemma InCycleExactly(g: Graph, val: Value, res: Value, visited: set<nat>)
    ensures InCycle(g, val, res, visited) <==> CanClose(g, [val], res, visited)
  {
    if InCycle(g, val, res, visited) {
      var walk := InCycleHasWalk(g, val, res, visited);
      assert [val] <= walk;
    }
    if walk :| [val] <= walk && IsWalk(g, walk) && Closes(g, walk, res, visited) {
      WalkIsInCycle(g, walk, res, visited);
    }
  }

  // ----- what is merged -----

  /** The value is a data operand at the end of a walk that is open and can close, but not through this operand. */
  ghost predicate Joins(g: Graph, walk: seq<Value>, res: Value, visited: set<nat>, m: Value) {
    && IsWalk(g, walk) && IsOpen(g, walk, res, visited) && CanClose(g, walk, res, visited)
    && HasDef(g, walk[|walk| - 1]) && m in DataOperands(g[walk[|walk| - 1].op]) && !CanClose(g, walk + [m], res, visited)
  }

  lemma OpenFrom(g: Graph, val: Value, walk: seq<Value>, res: Value, visited: set<nat>)
    ensures IsOpen(g, [val] + walk, res, visited) <==>
            val != res && HasDef(g, val) && val.op !in visited && IsOpen(g, walk, res, visited + {val.op})
  {
    var more := [val] + walk;
    assert more[0] == val;
    if val != res && HasDef(g, val) && val.op !in visited {
      forall i: nat | i < |walk| ensures OpenAt(g, more, res, visited, i + 1) <==> OpenAt(g, walk, res, visited + {val.op}, i) {
        assert more[i + 1] == walk[i];
        if walk[i].Result? {
          PassesFrom(val, walk, i, walk[i].op);
        }
      }
      forall i: nat | i < |more| && (i > 0 ==> OpenAt(g, walk, res, visited + {val.op}, i - 1)) ensures OpenAt(g, more, res, visited, i) {
        if i > 0 {
          assert OpenAt(g, more, res, visited, i - 1 + 1);
        }
      }
    } else {
      assert !OpenAt(g, more, res, visited, 0);
    }
  }

  lemma JoinsFrom(g: Graph, val: Value, walk: seq<Value>, res: Value, visited: set<nat>, m: Value)
    requires walk != [] && val != res && HasDef(g, val) && val.op !in visited && walk[0] in DataOperands(g[val.op])
    ensures Joins(g, [val] + walk, res, visited, m) <==> Joins(g, walk, res, visited + {val.op}, m)
  {
    var more := [val] + walk;
    WalkFrom(g, val, walk);
    OpenFrom(g, val, walk, res, visited);
    assert more[|more| - 1] == walk[|walk| - 1];
    if IsWalk(g, walk) && IsOpen(g, walk, res, visited + {val.op}) && HasDef(g, walk[|walk| - 1]) && m in DataOperands(g[walk[|walk| - 1].op]) {
      CloseFrom(g, val, walk, res, visited);
      WalkOn(g, walk, m);
      WalkFrom(g, val, walk + [m]);
      assert [val] + (walk + [m]) == more + [m];
      CloseFrom(g, val, walk + [m], res, visited);
    }
  }

  lemma WalkOn(g: Graph, walk: seq<Value>, m: Value)
    requires IsWalk(g, walk) && HasDef(g, walk[|walk| - 1]) && m in DataOperands(g[walk[|walk| - 1].op])
    ensures IsWalk(g, walk + [m])
  {
  }

  /** A walk of one value. */
  lemma JoinsAtOnce(g: Graph, val: Value, res: Value, visited: set<nat>, m: Value)
    requires val != res && HasDef(g, val) && val.op !in visited
    ensures Joins(g, [val], res, visited, m) <==>
            InCycle(g, val, res, visited) && m in DataOperands(g[val.op]) && !InCycle(g, m, res, visited + {val.op})
  {
    InCycleExactly(g, val, res, visited);
    if m in DataOperands(g[val.op]) {
      WalkFrom(g, val, [m]);
      assert [val] + [m] == [val, m];
      CloseFrom(g, val, [m], res, visited);
      InCycleExactly(g, m, res, visited + {val.op});
    }
  }

  lemma {:induction false} MergedJoins(g: Graph, val: Value, res: Value, visited: set<nat>, m: Value) returns (walk: seq<Value>)
    requires m in Merged(g, val, res, visited)
    ensures walk != [] && walk[0] == val && Joins(g, walk, res, visited, m)
    decreases g.Keys - visited
  {
    var seen := visited + {val.op};
    if InCycle(g, val, res, visited) && m in OutOfCycle(g, DataOperands(g[val.op]), res, seen) {
      walk := [val];
      JoinsAtOnce(g, val, res, visited, m);
    } else {
      var o :| o in DataOperands(g[val.op]) && InCycle(g, o, res, seen) && m in Merged(g, o, res, seen);
      var rest := MergedJoins(g, o, res, seen, m);
      JoinsFrom(g, val, rest, res, visited, m);
      walk := [val] + rest;
    }
  }

  lemma {:induction false} JoinsIsMerged(g: Graph, walk: seq<Value>, res: Value, visited: set<nat>, m: Value)
    requires walk != [] && Joins(g, walk, res, visited, m)
    ensures m in Merged(g, walk[0], res, visited)
    decreases |walk|
  {
    var val := walk[0];
    assert OpenAt(g, walk, res, visited, 0);
    if |walk| == 1 {
      assert walk == [val];
      JoinsAtOnce(g, val, res, visited, m);
    } else {
      var rest := walk[1..];
      assert walk == [val] + rest;
      WalkFrom(g, val, rest);
      JoinsFrom(g, val, rest, res, visited, m);
      JoinsIsMerged(g, rest, res, visited + {val.op}, m);
      var full :| rest <= full && IsWalk(g, full) && Closes(g, full, res, visited + {val.op});
      assert full[0] == rest[0];
      WalkIsInCycle(g, full, res, visited + {val.op});
    }
  }

  /** Exactly which values the search merges. */
  lemma MergedExactly(g: Graph, val: Value, res: Value, visited: set<nat>, m: Value)
    ensures m in Merged(g, val, res, visited) <==> exists walk :: walk != [] && walk[0] == val && Joins(g, walk, res, visited, m)
  {
    if m in Merged(g, val, res, visited) {
      var walk := MergedJoins(g, val, res, visited, m);
    }
    if walk :| walk != [] && walk[0] == val && Joins(g, walk, res, visited, m) {
      JoinsIsMerged(g, walk, res, visited, m);
    }
  }

  /** Exactly which values enter the cycle of a merge-like operation: operands from which no walk closes, and what joins such walks. */
  lemma EnteringExactly(g: Graph, operands: seq<Value>, res: Value, v: Value)
    ensures v in Entering(g, operands, res) <==>
            || (v in operands && !CanClose(g, [v], res, {}))
            || exists walk :: walk != [] && walk[0] in operands && Joins(g, walk, res, {}, v)
  {
    forall o | o in operands ensures InCycle(g, o, res, {}) <==> CanClose(g, [o], res, {}) {
      InCycleExactly(g, o, res, {});
    }
    if v in MergedBelow(g, operands, res, {}) {
      var o :| o in operands && InCycle(g, o, res, {}) && v in Merged(g, o, res, {});
      var walk := MergedJoins(g, o, res, {}, v);
    }
    if walk :| walk != [] && walk[0] in operands && Joins(g, walk, res, {}, v) {
      JoinsIsMerged(g, walk, res, {}, v);
      var full :| walk <= full && IsWalk(g, full) && Closes(g, full, res, {});
      assert full[0] == walk[0];
      WalkIsInCycle(g, full, res, {});
    }
  }

  // ----- backtracking -----

  /** The value is made by handing on the one data operand. */
  predicate GoesBack(g: Graph, v: Value) {
    HasDef(g, v) && |DataOperands(g[v.op])| == 1
  }

  /** Each value is the one data operand of the operation that makes the one before it. */
  predicate IsTrail(g: Graph, trail: seq<Value>) {
    trail != [] && forall i: nat | i + 1 < |trail| :: GoesBack(g, trail[i]) && trail[i + 1] == DataOperands(g[trail[i].op])[0]
  }

  /** Backtracking does not go on from here: a `Single` operation has just been passed, there are not one but several data operands
      or none, or the operation has been passed before. */
  predicate StopsAt(g: Graph, trail: seq<Value>, visited: set<nat>, i: nat)
    requires i < |trail|
  {
    || (i > 0 && HasDef(g, trail[i - 1]) && g[trail[i - 1].op].Single?)
    || !GoesBack(g, trail[i]) || trail[i].op in visited || Passes(trail, i, trail[i].op)
  }

  /** It stops at the last value of the trail and no sooner. */
  predicate Ends(g: Graph, trail: seq<Value>, visited: set<nat>) {
    trail != [] && StopsAt(g, trail, visited, |trail| - 1) && forall i: nat | i + 1 < |trail| :: !StopsAt(g, trail, visited, i)
  }

  lemma StopsFrom(g: Graph, v: Value, trail: seq<Value>, visited: set<nat>, i: nat)
    requires i < |trail| && HasDef(g, v) && !g[v.op].Single?
    ensures StopsAt(g, [v] + trail, visited, i + 1) <==> StopsAt(g, trail, visited + {v.op}, i)
  {
    var more := [v] + trail;
    assert more[i + 1] == trail[i] && (i > 0 ==> more[i] == trail[i - 1]) && more[0] == v;
    if trail[i].Result? {
      PassesFrom(v, trail, i, trail[i].op);
    }
  }

  lemma EndsFrom(g: Graph, v: Value, trail: seq<Value>, visited: set<nat>)
    requires trail != [] && GoesBack(g, v) && v.op !in visited && !g[v.op].Single?
    ensures Ends(g, [v] + trail, visited) <==> Ends(g, trail, visited + {v.op})
  {
    var more := [v] + trail;
    assert !StopsAt(g, more, visited, 0);
    forall i: nat | i < |trail| ensures StopsAt(g, more, visited, i + 1) <==> StopsAt(g, trail, visited + {v.op}, i) {
      StopsFrom(g, v, trail, visited, i);
    }
    if Ends(g, trail, visited + {v.op}) {
      forall i: nat | i + 1 < |more| ensures !StopsAt(g, more, visited, i) {
        if i > 0 {
          assert !StopsAt(g, trail, visited + {v.op}, i - 1);
        }
      }
    }
    if Ends(g, more, visited) {
      forall i: nat | i + 1 < |trail| ensures !StopsAt(g, trail, visited + {v.op}, i) {
        assert !StopsAt(g, more, visited, i + 1);
      }
    }
  }

  lemma TrailFrom(g: Graph, v: Value, trail: seq<Value>)
    requires trail != []
    ensures IsTrail(g, [v] + trail) <==> GoesBack(g, v) && trail[0] == DataOperands(g[v.op])[0] && IsTrail(g, trail)
  {
    var more := [v] + trail;
    assert forall i: nat | i < |trail| :: more[i + 1] == trail[i];
    if IsTrail(g, more) {
      assert GoesBack(g, more[0]) && more[1] == DataOperands(g[more[0].op])[0];
      forall i: nat | i + 1 < |trail| ensures GoesBack(g, trail[i]) && trail[i + 1] == DataOperands(g[trail[i].op])[0] {
        assert GoesBack(g, more[i + 1]) && more[i + 1 + 1] == DataOperands(g[more[i + 1].op])[0];
      }
    }
    if GoesBack(g, v) && trail[0] == DataOperands(g[v.op])[0] && IsTrail(g, trail) {
      forall i: nat | i + 1 < |more| ensures GoesBack(g, more[i]) && more[i + 1] == DataOperands(g[more[i].op])[0] {
        if i > 0 {
          assert GoesBack(g, trail[i - 1]) && trail[i - 1 + 1] == DataOperands(g[trail[i - 1].op])[0];
        }
      }
    }
  }

  lemma {:induction false} BacktrackTrail(g: Graph, v: Value, visited: set<nat>) returns (trail: seq<Value>)
    ensures IsTrail(g, trail) && Ends(g, trail, visited) && trail[0] == v && trail[|trail| - 1] == CycleNarrowing.Backtrack(g, v, visited)
    decreases g.Keys - visited
  {
    if !GoesBack(g, v) || v.op in visited {
      trail := [v];
      assert StopsAt(g, trail, visited, 0);
    } else if g[v.op].Single? {
      trail := [v, g[v.op].operand];
      assert StopsAt(g, trail, visited, 1) && !StopsAt(g, trail, visited, 0);
    } else {
      var rest := BacktrackTrail(g, DataOperands(g[v.op])[0], visited + {v.op});
      TrailFrom(g, v, rest);
      EndsFrom(g, v, rest, visited);
      trail := [v] + rest;
    }
  }

  lemma {:induction false} TrailBacktracks(g: Graph, trail: seq<Value>, visited: set<nat>)
    requires IsTrail(g, trail) && Ends(g, trail, visited)
    ensures CycleNarrowing.Backtrack(g, trail[0], visited) == trail[|trail| - 1]
    decreases |trail|
  {
    var v := trail[0];
    if |trail| == 1 {
      assert StopsAt(g, trail, visited, 0);
    } else {
      var rest := trail[1..];
      assert trail == [v] + rest;
      TrailFrom(g, v, rest);
      assert !StopsAt(g, trail, visited, 0);
      if g[v.op].Single? {
        assert |trail| > 2 ==> StopsAt(g, trail, visited, 1);
      } else {
        EndsFrom(g, v, rest, visited);
        TrailBacktracks(g, rest, visited + {v.op});
      }
    }
  }

  /** Exactly where backtracking leads. */
  lemma BacktrackExactly(g: Graph, v: Value, u: Value)
    ensures CycleNarrowing.Backtrack(g, v, {}) == u <==>
            exists trail: seq<Value> :: IsTrail(g, trail) && Ends(g, trail, {}) && trail[0] == v && trail[|trail| - 1] == u
  {
    var trail := BacktrackTrail(g, v, {});
    if other: seq<Value> :| IsTrail(g, other) && Ends(g, other, {}) && other[0] == v && other[|other| - 1] == u {
      TrailBacktracks(g, other, {});
    }
  }
}
