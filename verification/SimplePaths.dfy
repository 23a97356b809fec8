/** Enumeration of the paths between two basic blocks that visit no block twice. */
module SimplePaths {

  type Path = seq<nat>

  /** The control-flow graph rebuilt from a circuit. A block without an entry has no successors. */
  datatype HandshakeCFG = HandshakeCFG(bbs: set<nat>, successors: map<nat, seq<nat>>) {
    function Next(b: nat): seq<nat> {
      if b in successors then successors[b] else []
    }

    /** Successors are blocks of the graph, each listed once. */
    predicate Valid() {
      forall b | b in successors ::
        && (forall k | 0 <= k < |successors[b]| :: successors[b][k] in bbs)
        && forall j, k | 0 <= j < k < |successors[b]| :: successors[b][j] != successors[b][k]
    }

    predicate IsPath(path: Path) {
      path != [] && forall i | 0 <= i < |path| - 1 :: path[i + 1] in Next(path[i])
    }

    predicate IsSimplePath(path: Path, from: nat, to: nat) {
      IsPath(path) && Distinct(path) && path[0] == from && path[|path| - 1] == to
    }

    /** The simple paths to `to` that begin with a given path. */
    predicate Continues(path: Path, pathSoFar: Path, to: nat) {
      IsPath(path) && Distinct(path) && pathSoFar <= path && path[|path| - 1] == to
    }

    method GetNonCyclicPaths(from: nat, to: nat) returns (paths: seq<Path>)
      requires Valid() && from in bbs && to in bbs
      ensures forall path :: path in paths <==> IsSimplePath(path, from, to)
      ensures Distinct(paths)
    {
      paths := FindPathsTo([from], to, []);
      forall path ensures path in paths <==> IsSimplePath(path, from, to) {
        if IsSimplePath(path, from, to) {
          assert path[..1] == [from];
        }
      }
    }

    /** Appends the simple paths that continue `pathSoFar` up to `to`. */
    method FindPathsTo(pathSoFar: Path, to: nat, paths: seq<Path>) returns (all: seq<Path>)
      requires Valid() && IsPath(pathSoFar) && Distinct(pathSoFar) && forall b | b in pathSoFar :: b in bbs
      ensures paths <= all && Distinct(all[|paths|..])
      ensures forall path :: path in all[|paths|..] <==> Continues(path, pathSoFar, to)
      decreases bbs - (set b | b in pathSoFar)
    {
      var last := pathSoFar[|pathSoFar| - 1];
      if last == to {
        OnlyItself(pathSoFar, to);
        return paths + [pathSoFar];
      }
      all := paths;
      var nexts := Next(last);
      for k := 0 to |nexts|
        invariant paths <= all && Distinct(all[|paths|..])
        invariant forall path :: path in all[|paths|..] <==> ContinuesBefore(path, pathSoFar, to, nexts, k)
      {
        ghost var before := all;
        if nexts[k] !in pathSoFar {
          assert nexts[k] in bbs - (set b | b in pathSoFar);
          all := FindPathsTo(pathSoFar + [nexts[k]], to, all);
          assert all[|paths|..] == before[|paths|..] + all[|before|..];
          NextDiffers(pathSoFar, to, nexts, k, before[|paths|..], all[|before|..]);
        } else {
          NothingThroughVisited(pathSoFar, to, nexts, k);
        }
      }
      ContinuesSomewhere(pathSoFar, to, nexts);
    }

    /** Continues with one of the first `k` of the given successors. */
    predicate ContinuesBefore(path: Path, pathSoFar: Path, to: nat, nexts: seq<nat>, k: nat)
      requires k <= |nexts|
    {
      exists j | 0 <= j < k :: Continues(path, pathSoFar + [nexts[j]], to)
    }

    lemma OnlyItself(pathSoFar: Path, to: nat)
      requires IsPath(pathSoFar) && Distinct(pathSoFar) && pathSoFar[|pathSoFar| - 1] == to
      ensures forall path :: Continues(path, pathSoFar, to) <==> path == pathSoFar
    {
      forall path | Continues(path, pathSoFar, to) ensures path == pathSoFar {
        assert path[|pathSoFar| - 1] == path[|path| - 1];
      }
    }

    /** The paths found through the `k`th successor are new: they differ from the earlier ones in their next block. */
    lemma NextDiffers(pathSoFar: Path, to: nat, nexts: seq<nat>, k: nat, before: seq<Path>, found: seq<Path>)
      requires k < |nexts| && Distinct(nexts) && Distinct(before) && Distinct(found)
      requires forall path :: path in before <==> ContinuesBefore(path, pathSoFar, to, nexts, k)
      requires forall path :: path in found <==> Continues(path, pathSoFar + [nexts[k]], to)
      ensures Distinct(before + found)
      ensures forall path :: path in before + found <==> ContinuesBefore(path, pathSoFar, to, nexts, k + 1)
    {
      forall i, j | 0 <= i < |before| && 0 <= j < |found| ensures before[i] != found[j] {
        assert before[i] in before && found[j] in found;
        assert found[j][|pathSoFar|] == nexts[k];
      }
    }

    lemma NothingThroughVisited(pathSoFar: Path, to: nat, nexts: seq<nat>, k: nat)
      requires k < |nexts| && nexts[k] in pathSoFar
      ensures forall path :: ContinuesBefore(path, pathSoFar, to, nexts, k + 1) <==> ContinuesBefore(path, pathSoFar, to, nexts, k)
    {
      forall path ensures !Continues(path, pathSoFar + [nexts[k]], to) {
        if pathSoFar + [nexts[k]] <= path {
          var i :| 0 <= i < |pathSoFar| && pathSoFar[i] == nexts[k];
          assert path[i] == path[|pathSoFar|];
        }
      }
    }

    lemma ContinuesSomewhere(pathSoFar: Path, to: nat, nexts: seq<nat>)
      requires pathSoFar != [] && pathSoFar[|pathSoFar| - 1] != to && nexts == Next(pathSoFar[|pathSoFar| - 1])
      ensures forall path :: ContinuesBefore(path, pathSoFar, to, nexts, |nexts|) <==> Continues(path, pathSoFar, to)
    {
      forall path | Continues(path, pathSoFar, to) ensures ContinuesBefore(path, pathSoFar, to, nexts, |nexts|) {
        var n := |pathSoFar|;
        assert |path| > n && path[n - 1] == pathSoFar[n - 1];
        var j :| 0 <= j < |nexts| && nexts[j] == path[n];
        assert path[..n + 1] == pathSoFar + [nexts[j]];
      }
    }
  }

  predicate Distinct<T(==)>(s: seq<T>) {
    forall i, j | 0 <= i < j < |s| :: s[i] != s[j]
  }
}
