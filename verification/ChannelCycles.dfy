/** Channels that lie on a cycle of the circuit. */
module ChannelCycles {
  import opened Basics

  /** Users of each channel and results of each operation; memory controllers and load-store queues are marked. */
  datatype Circuit = Circuit(users: seq<seq<nat>>, results: seq<seq<nat>>, isMemory: seq<bool>) {
    predicate Valid() {
      && |isMemory| == |results|
      && (forall v, k | 0 <= v < |users| && 0 <= k < |users[v]| :: users[v][k] < |results|)
      && forall o, k | 0 <= o < |results| && 0 <= k < |results[o]| :: results[o][k] < |users|
    }

    /** Some operation other than a memory interface uses `v` and produces `w`. */
    predicate Leads(v: nat, w: nat)
      requires Valid()
    {
      v < |users| && exists k | 0 <= k < |users[v]| :: !isMemory[users[v][k]] && w in results[users[v][k]]
    }

    predicate IsPath(path: seq<nat>)
      requires Valid()
    {
      path != [] && forall i | 0 <= i < |path| - 1 :: Leads(path[i], path[i + 1])
    }

    ghost predicate Connects(v: nat, w: nat)
      requires Valid()
    {
      exists path :: IsPath(path) && path[0] == v && path[|path| - 1] == w
    }

    /** A path of at least one step leads from the channel back to itself. */
    ghost predicate OnCycle(channel: nat)
      requires Valid()
    {
      exists path :: IsPath(path) && |path| >= 2 && path[0] == channel && path[|path| - 1] == channel
    }

    lemma StepConnects(v: nat, w: nat, x: nat)
      requires Valid() && Leads(v, w) && Connects(w, x)
      ensures Connects(v, x)
    {
      var path :| IsPath(path) && path[0] == w && path[|path| - 1] == x;
      assert IsPath([v] + path);
    }

    /** All steps from newly visited channels stay among the visited ones and miss the channel searched for. */
    ghost predicate Exhausted(channel: nat, before: set<nat>, visited: set<nat>)
      requires Valid()
    {
      && before <= visited
      && forall v, w {:trigger Leads(v, w)} | v in visited && v !in before && Leads(v, w) :: w in visited && w != channel
    }

    /** Everything the operation produces has been visited and is not the channel searched for. */
    predicate Entered(channel: nat, visited: set<nat>, o: nat)
      requires Valid() && o < |results|
    {
      isMemory[o] || forall w | w in results[o] :: w in visited && w != channel
    }

    lemma EnteredAll(channel: nat, visited: set<nat>, v: nat)
      requires Valid() && v < |users| && forall j | 0 <= j < |users[v]| :: Entered(channel, visited, users[v][j])
      ensures forall w | Leads(v, w) :: w in visited && w != channel
    {
      forall w | Leads(v, w) ensures w in visited && w != channel {
        var k :| 0 <= k < |users[v]| && !isMemory[users[v][k]] && w in results[users[v][k]];
        assert Entered(channel, visited, users[v][k]);
      }
    }

    /** Depth-first search with one set of visited channels. The first call has `isStart`. */
    method Search(channel: nat, current: nat, isStart: bool, visited: set<nat>) returns (found: bool, visited': set<nat>)
      requires Valid() && current < |users| && forall v | v in visited :: v < |users|
      ensures found ==> if isStart then exists w :: Leads(current, w) && Connects(w, channel) else Connects(current, channel)
      ensures !found ==> Exhausted(channel, visited, visited') && current in visited'
      ensures !found && !isStart ==> current != channel
      ensures forall v | v in visited' :: v < |users|
      decreases Ids(|users|) - visited
    {
      visited' := visited;
      if !isStart && current == channel {
        assert IsPath([current]);
        return true, visited';
      }
      if current in visited' {
        return false, visited';
      }
      visited' := visited' + {current};
      assert current in Ids(|users|) - visited;
      var uses := users[current];
      for k := 0 to |uses|
        invariant visited + {current} <= visited' && forall v | v in visited' :: v < |users|
        invariant Exhausted(channel, visited + {current}, visited')
        invariant forall j | 0 <= j < k :: Entered(channel, visited', uses[j])
      {
        if isMemory[uses[k]] {
          continue;
        }
        var nexts := results[uses[k]];
        for i := 0 to |nexts|
          invariant visited + {current} <= visited' && forall v | v in visited' :: v < |users|
          invariant Exhausted(channel, visited + {current}, visited')
          invariant forall j | 0 <= j < k :: Entered(channel, visited', uses[j])
          invariant forall j | 0 <= j < i :: nexts[j] in visited' && nexts[j] != channel
        {
          assert Leads(current, nexts[i]);
          ghost var before := visited';
          found, visited' := Search(channel, nexts[i], false, visited');
          assert before <= visited' || found;
          if found {
            StepConnects(current, nexts[i], channel);
            return;
          }
        }
        forall w | w in results[uses[k]] ensures w in visited' && w != channel {
          var j :| 0 <= j < |nexts| && nexts[j] == w;
        }
      }
      EnteredAll(channel, visited', current);
      found := false;
    }

    /** No step out of the set and none onto the channel: no path from the set ends at the channel. */
    lemma {:induction false} NoWayBack(channel: nat, visited: set<nat>, path: seq<nat>)
      requires Valid() && Exhausted(channel, {}, visited) && IsPath(path) && |path| >= 2 && path[0] in visited
      ensures path[|path| - 1] != channel
      decreases |path|
    {
      assert Leads(path[0], path[1]);
      if |path| > 2 {
        NoWayBack(channel, visited, path[1..]);
      }
    }

    method IsChannelOnCycle(channel: nat) returns (onCycle: bool)
      requires Valid() && channel < |users|
      ensures onCycle <==> OnCycle(channel)
    {
      var visited;
      onCycle, visited := Search(channel, channel, true, {});
      if onCycle {
        ghost var w :| Leads(channel, w) && Connects(w, channel);
        ghost var path :| IsPath(path) && path[0] == w && path[|path| - 1] == channel;
        assert IsPath([channel] + path);
      } else {
        forall path | IsPath(path) && |path| >= 2 && path[0] == channel ensures path[|path| - 1] != channel {
          NoWayBack(channel, visited, path);
        }
      }
    }
  }
}
