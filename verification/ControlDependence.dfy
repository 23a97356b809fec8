/** Control dependences between basic blocks. */
module ControlDependence {
  import opened Basics
  import opened PostDominance

  type Deps = seq<set<nat>>

  // ----- direct dependences -----

  /** A branch in `x` decides whether `y` is reached: `y` post-dominates a successor of `x` but not `x` properly. */
  ghost predicate DependsOn(g: Graph, y: nat, x: nat)
    requires x < |g|
  {
    exists s | s in g[x] :: PostDominates(g, y, s) && !(y != x && PostDominates(g, y, x))
  }

  /** What the analysis records: a block depends on itself only through an edge to itself. */
  ghost predicate Recorded(g: Graph, y: nat, x: nat)
    requires x < |g|
  {
    if y == x then x in g[x] else DependsOn(g, y, x)
  }

  lemma PostDominatesSelf(g: Graph, x: nat)
    ensures PostDominates(g, x, x)
  {
  }

  /** What one edge from `x` to `s` contributes. */
  ghost predicate EdgeRecords(t: Tree, x: nat, s: nat, y: nat)
    requires t.Valid() && x < |t.parent| && s < |t.parent|
  {
    if y == x then s == x
    else y < |t.parent| && t.Ancestor(y, s) && !t.Ancestor(y, x)
  }

  ghost predicate EdgesRecord(t: Tree, g: Graph, x: nat, k: nat, y: nat)
    requires t.Valid() && WellFormed(g) && |t.parent| == |g| && x < |g| && k <= |g[x]|
  {
    exists j | 0 <= j < k :: EdgeRecords(t, x, g[x][j], y)
  }

  lemma EdgesAreRecorded(t: Tree, g: Graph, x: nat, y: nat)
    requires Represents(t, g) && WellFormed(g) && x < |g| && y < |g|
    ensures EdgesRecord(t, g, x, |g[x]|, y) <==> Recorded(g, y, x)
  {
    if y != x && DependsOn(g, y, x) {
      var s :| s in g[x] && PostDominates(g, y, s) && !PostDominates(g, y, x);
      var j :| 0 <= j < |g[x]| && g[x][j] == s;
      assert EdgeRecords(t, x, g[x][j], y);
    }
  }

  /** A successor that properly post-dominates its predecessor adds nothing. */
  lemma SkippedEdge(t: Tree, x: nat, s: nat)
    requires t.Valid() && x < |t.parent| && s < |t.parent| && s != x && t.Ancestor(s, x)
    ensures forall y: nat :: !EdgeRecords(t, x, s, y)
  {
    forall y: nat | y < |t.parent| && t.Ancestor(y, s) ensures t.Ancestor(y, x) {
      AncestorTransitive(t, y, s, x);
    }
  }

  /** Any other edge adds its target and what lies in the tree strictly between it and the nearest common ancestor. */
  lemma RecordedOnPath(t: Tree, x: nat, s: nat, c: nat, path: seq<nat>)
    requires t.Valid() && x < |t.parent| && s < |t.parent| && !(s != x && t.Ancestor(s, x))
    requires c <= |t.parent| && t.Ancestor(c, s) && t.Ancestor(c, x) && path == Down(t, c, s)
    requires forall d | 0 <= d <= |t.parent| && t.Ancestor(d, s) && t.Ancestor(d, x) :: t.Ancestor(d, c)
    ensures forall y: nat | y < |t.parent| ::
              EdgeRecords(t, x, s, y) <==> y == s || (y in path && y != c && y != x && y != s)
  {
    forall y: nat | y < |t.parent| && y != x && y != s && t.Ancestor(y, s)
      ensures !t.Ancestor(y, x) <==> t.Ancestor(c, y) && y != c
    {
      AncestorsChain(t, y, c, s);
      if t.Ancestor(y, c) {
        AncestorTransitive(t, y, c, x);
        if t.Ancestor(c, y) {
          AncestorLevel(t, c, y);
          AncestorLevel(t, y, c);
        }
      }
    }
  }

  /** Only the first node of a path can be the virtual root. */
  lemma PathIsOfBlocks(t: Tree, c: nat, s: nat)
    requires t.Valid() && s < |t.parent| && t.Ancestor(c, s)
    ensures forall b | b in Down(t, c, s) :: b < |t.parent| || b == c
  {
    forall b | b in Down(t, c, s) && b == |t.parent| ensures b == c {
      AncestorLevel(t, c, s);
      RootAncestor(t, c);
      AncestorLevel(t, b, c);
      AncestorLevel(t, c, b);
    }
  }

  // ----- transitive dependences -----

  predicate IsChain(d: Deps, chain: seq<nat>) {
    && |chain| >= 2
    && (forall i | 0 <= i < |chain| :: chain[i] < |d|)
    && forall i | 0 <= i < |chain| - 1 :: chain[i + 1] in d[chain[i]]
  }

  ghost predicate DependsThrough(d: Deps, y: nat, x: nat) {
    exists chain :: IsChain(d, chain) && chain[0] == y && chain[|chain| - 1] == x
  }

  predicate InRange(d: Deps) {
    forall b, x | 0 <= b < |d| && x in d[b] :: x < |d|
  }

  lemma ChainsJoin(d: Deps, z: nat, y: nat, x: nat)
    requires DependsThrough(d, z, y) && DependsThrough(d, y, x)
    ensures DependsThrough(d, z, x)
  {
    var p :| IsChain(d, p) && p[0] == z && p[|p| - 1] == y;
    var q :| IsChain(d, q) && q[0] == y && q[|q| - 1] == x;
    var chain := p + q[1..];
    assert forall i | 0 <= i < |chain| - 1 :: chain[i + 1] in d[chain[i]] by {
      forall i | 0 <= i < |chain| - 1 ensures chain[i + 1] in d[chain[i]] {
        if i >= |p| - 1 {
          assert chain[i] == q[i - |p| + 1] && chain[i + 1] == q[i - |p| + 2];
        }
      }
    }
    assert IsChain(d, chain);
  }

  lemma DirectIsChain(d: Deps, y: nat, x: nat)
    requires y < |d| && x < |d| && x in d[y]
    ensures DependsThrough(d, y, x)
  {
    assert IsChain(d, [y, x]);
  }

  /** Between the direct dependences and their transitive closure. */
  ghost predicate Between(direct: Deps, d: Deps) {
    && |d| == |direct|
    && (forall b | 0 <= b < |d| :: direct[b] <= d[b])
    && forall b, x | 0 <= b < |d| && x in d[b] :: x < |d| && DependsThrough(direct, b, x)
  }

  predicate Saturated(d: Deps) {
    forall b, x | 0 <= b < |d| && x in d[b] && x < |d| :: d[x] <= d[b]
  }

  /** A saturated set of dependences holds every chain. */
  lemma {:induction false} SaturatedHoldsChain(direct: Deps, d: Deps, chain: seq<nat>)
    requires Between(direct, d) && Saturated(d) && IsChain(direct, chain)
    ensures chain[|chain| - 1] in d[chain[0]]
    decreases |chain|
  {
    if |chain| > 2 {
      SaturatedHoldsChain(direct, d, chain[1..]);
    }
  }

  lemma SaturatedIsClosure(direct: Deps, d: Deps)
    requires Between(direct, d) && Saturated(d)
    ensures forall b, x | 0 <= b < |d| && 0 <= x < |d| :: x in d[b] <==> DependsThrough(direct, b, x)
  {
    forall b, x | 0 <= b < |d| && 0 <= x < |d| && DependsThrough(direct, b, x) ensures x in d[b] {
      var chain :| IsChain(direct, chain) && chain[0] == b && chain[|chain| - 1] == x;
      SaturatedHoldsChain(direct, d, chain);
    }
  }

  // ----- the recorded relation and the definition -----

  ghost predicate IsDependenceChain(g: Graph, chain: seq<nat>) {
    && |chain| >= 2
    && (forall i | 0 <= i < |chain| :: chain[i] < |g|)
    && forall i | 0 <= i < |chain| - 1 :: DependsOn(g, chain[i], chain[i + 1])
  }

  /** Control dependence by paths, over any number of steps. */
  ghost predicate DependsThroughPaths(g: Graph, y: nat, x: nat) {
    exists chain :: IsDependenceChain(g, chain) && chain[0] == y && chain[|chain| - 1] == x
  }

  /** The block has no edge to itself and no chain of dependences leads back to it over another block. */
  ghost predicate OnlyOnItself(g: Graph, x: nat)
    requires x < |g|
  {
    && x !in g[x]
    && forall chain, i | IsDependenceChain(g, chain) && chain[0] == x && chain[|chain| - 1] == x && 0 <= i < |chain| :: chain[i] == x
  }

  ghost predicate IsRecorded(g: Graph, direct: Deps) {
    && |direct| == |g|
    && forall b, x | 0 <= b < |g| && 0 <= x < |g| :: x in direct[b] <==> Recorded(g, b, x)
  }

  /** A chain of dependences leaves out no block if its steps from a block to itself are left out. */
  lemma {:induction false} WithoutSelfSteps(g: Graph, direct: Deps, chain: seq<nat>)
    requires IsRecorded(g, direct) && IsDependenceChain(g, chain)
    ensures (forall i | 0 <= i < |chain| :: chain[i] == chain[0]) || DependsThrough(direct, chain[0], chain[|chain| - 1])
    decreases |chain|
  {
    var b, c, x := chain[0], chain[1], chain[|chain| - 1];
    assert DependsOn(g, b, c);
    if b != c {
      assert c in direct[b];
      DirectIsChain(direct, b, c);
    }
    if |chain| > 2 {
      var rest := chain[1..];
      WithoutSelfSteps(g, direct, rest);
      if DependsThrough(direct, c, x) {
        if b != c {
          ChainsJoin(direct, b, c, x);
        }
      } else {
        assert forall i | 0 <= i < |chain| - 1 :: chain[i + 1] == rest[i] == c;
      }
    }
  }

  lemma RecordedChain(g: Graph, direct: Deps, b: nat, x: nat)
    requires IsRecorded(g, direct) && WellFormed(g) && b < |g| && x < |g| && DependsThrough(direct, b, x)
    ensures DependsThroughPaths(g, b, x) && !(b == x && OnlyOnItself(g, x))
  {
    var chain :| IsChain(direct, chain) && chain[0] == b && chain[|chain| - 1] == x;
    forall i | 0 <= i < |chain| - 1 ensures Recorded(g, chain[i], chain[i + 1]) && DependsOn(g, chain[i], chain[i + 1]) {
      assert chain[i + 1] in direct[chain[i]];
      PostDominatesSelf(g, chain[i]);
    }
    assert IsDependenceChain(g, chain);
    assert Recorded(g, chain[0], chain[1]);
  }

  /** The closure of what is recorded is the closure of the definition without the blocks that depend on themselves only. */
  lemma RecordedExactly(g: Graph, direct: Deps, b: nat, x: nat)
    requires IsRecorded(g, direct) && WellFormed(g) && b < |g| && x < |g|
    ensures DependsThrough(direct, b, x) <==> DependsThroughPaths(g, b, x) && !(b == x && OnlyOnItself(g, x))
  {
    if DependsThrough(direct, b, x) {
      RecordedChain(g, direct, b, x);
    } else if DependsThroughPaths(g, b, x) {
      var chain :| IsDependenceChain(g, chain) && chain[0] == b && chain[|chain| - 1] == x;
      WithoutSelfSteps(g, direct, chain);
      assert b == x;
      if x in g[x] {
        DirectIsChain(direct, x, x);
      }
      forall other, i | IsDependenceChain(g, other) && other[0] == x && other[|other| - 1] == x && 0 <= i < |other|
        ensures other[i] == x
      {
        WithoutSelfSteps(g, direct, other);
      }
    }
  }

  /** The latch of a bottom-tested loop decides whether it runs again, and no dependence on itself is recorded. */
  lemma LatchNotRecorded()
    ensures var g := [[1], [0, 2], []];
            WellFormed(g) && DependsThroughPaths(g, 1, 1) && OnlyOnItself(g, 1)
  {
    var g: Graph := [[1], [0, 2], []];
    forall path | IsPathToExit(g, 0, path) ensures 1 in path {
      assert g[0] == [1];
      assert |path| > 1 && path[1] in g[path[0]];
    }
    assert 0 in g[1] && PostDominates(g, 1, 0);
    assert IsDependenceChain(g, [1, 1]);
    forall chain, i | IsDependenceChain(g, chain) && chain[0] == 1 && 0 <= i < |chain| ensures chain[i] == 1 {
      if i > 0 {
        LatchIsOnlyBranch(g, chain[i - 1], chain[i]);
      }
    }
  }

  lemma StraightToLatch(g: Graph, y: nat)
    requires g == [[1], [0, 2], []] && PostDominates(g, y, 1)
    ensures PostDominates(g, y, 0)
  {
    forall path | IsPathToExit(g, 0, path) ensures y in path {
      assert path[1] in g[path[0]];
      assert IsPathToExit(g, 1, path[1..]);
    }
  }

  lemma LatchIsOnlyBranch(g: Graph, y: nat, x: nat)
    requires g == [[1], [0, 2], []] && x < 3 && DependsOn(g, y, x)
    ensures x == 1
  {
    if x == 0 {
      assert IsPathToExit(g, 1, [1, 2]);
      if y != 0 && PostDominates(g, y, 1) {
        StraightToLatch(g, y);
      }
    }
  }

  lemma BetweenStep(direct: Deps, d: Deps, b: nat, dep: nat)
    requires Between(direct, d) && b < |d| && dep in d[b]
    ensures dep < |d| && Between(direct, d[b := d[b] + d[dep]])
  {
    forall x | x in d[dep] ensures DependsThrough(direct, b, x) {
      ChainsJoin(direct, b, dep, x);
    }
  }

  /** The pairs of blocks without a dependence. */
  ghost function Missing(d: Deps): set<(nat, nat)> {
    set b: nat, x: nat | b < |d| && x < |d| && x !in d[b] :: (b, x)
  }

  // ----- depth-first numbers -----

  ghost predicate Reachable(g: Graph, x: nat, y: nat) {
    exists path :: IsPath(g, path) && path[0] == x && path[|path| - 1] == y
  }

  /** Closed under successors, so it holds all that is reachable from its members. */
  lemma {:induction false} ClosedHoldsReachable(g: Graph, s: set<nat>, path: seq<nat>)
    requires IsPath(g, path) && path[0] in s && forall x, y | x in s && x < |g| && y in g[x] :: y in s
    ensures path[|path| - 1] in s
    decreases |path|
  {
    if |path| > 1 {
      ClosedHoldsReachable(g, s, path[1..]);
    }
  }

  predicate Extends(num: map<nat, nat>, more: map<nat, nat>) {
    forall x | x in num :: x in more && more[x] == num[x]
  }

  /** Every successor of `q` has a number below `n`. */
  predicate DoneBelow(g: Graph, num: map<nat, nat>, q: nat, n: nat) {
    q < |g| && forall y | y in g[q] :: y in num && num[y] < n
  }

  /** When the block was numbered it was the first successor of `p` without a number. */
  predicate NextOf(g: Graph, num: map<nat, nat>, x: nat, p: nat, k: nat) {
    && x in num && p in num && p < |g| && num[p] < num[x] && k < |g[p]| && g[p][k] == x
    && forall j: nat | j < k :: g[p][j] in num && num[g[p][j]] < num[x]
  }

  /** ... and of all numbered blocks with such successors, `p` was the latest. */
  predicate IsLatest(g: Graph, num: map<nat, nat>, p: nat, n: nat) {
    p in num && forall q | q in num && num[p] < num[q] < n :: DoneBelow(g, num, q, n)
  }

  /** Depth first: the first successor without a number of the latest block that has one comes next. */
  ghost predicate DepthFirstAt(g: Graph, num: map<nat, nat>, x: nat) {
    x in num && exists p, k :: NextOf(g, num, x, p, k) && IsLatest(g, num, p, num[x])
  }

  /** Numbers given later are higher. */
  predicate Later(num: map<nat, nat>, counter: nat, more: map<nat, nat>) {
    && Extends(num, more)
    && (forall x | x in num :: num[x] < counter)
    && forall x | x in more && x !in num :: counter <= more[x]
  }

  lemma DepthFirstStays(g: Graph, num: map<nat, nat>, counter: nat, more: map<nat, nat>, x: nat)
    requires Later(num, counter, more) && DepthFirstAt(g, num, x)
    ensures DepthFirstAt(g, more, x)
  {
    var p, k :| NextOf(g, num, x, p, k) && IsLatest(g, num, p, num[x]);
    assert NextOf(g, more, x, p, k);
    forall q | q in more && more[p] < more[q] < more[x] ensures DoneBelow(g, more, q, more[x]) {
      assert DoneBelow(g, num, q, num[x]);
    }
    assert IsLatest(g, more, p, more[x]);
  }

  /** New numbers are higher than old ones, and every newly numbered block but `b` was numbered depth first. */
  ghost predicate Grown(g: Graph, b: nat, num: map<nat, nat>, counter: nat, more: map<nat, nat>) {
    && Later(num, counter, more) && (b !in num && b in more ==> more[b] == counter)
    && forall x {:trigger DepthFirstAt(g, more, x)} | x in more && x !in num && x != b :: DepthFirstAt(g, more, x)
  }

  /** The successors of newly numbered blocks, `b` aside, have numbers. */
  predicate Closed(g: Graph, b: nat, num: map<nat, nat>, more: map<nat, nat>) {
    forall x, y | x in more && x !in num && x != b && x < |g| && y in g[x] :: y in more
  }

  predicate IsNumber(num: map<nat, nat>, n: nat) {
    exists b | b in num :: num[b] == n
  }

  /** Different blocks have different numbers, and these are the ones below the counter. */
  predicate WellNumbered(g: Graph, num: map<nat, nat>, counter: nat) {
    && (forall b | b in num :: b < |g| && num[b] < counter)
    && (forall a, b | a in num && b in num && num[a] == num[b] :: a == b)
    && forall n: nat | n < counter :: IsNumber(num, n)
  }

  lemma NumberedNext(g: Graph, num: map<nat, nat>, counter: nat, b: nat)
    requires WellNumbered(g, num, counter) && b < |g| && b !in num
    ensures WellNumbered(g, num[b := counter], counter + 1)
  {
    var more := num[b := counter];
    forall n: nat | n < counter + 1 ensures IsNumber(more, n) {
      if n < counter {
        assert IsNumber(num, n);
        var x :| x in num && num[x] == n;
        assert more[x] == n;
      } else {
        assert more[b] == n;
      }
    }
  }

  /** Where the search goes on is numbered depth first: blocks numbered since `b` have no successors without a number left. */
  lemma NextIsDepthFirst(g: Graph, b: nat, k: nat, num: map<nat, nat>, before: map<nat, nat>, mid: nat, more: map<nat, nat>)
    requires b < |g| && k < |g[b]| && b in before && g[b][k] in more && g[b][k] !in before && more[g[b][k]] == mid
    requires WellNumbered(g, before, mid) && Later(before, mid, more)
    requires Closed(g, b, num, before) && forall x | x in num :: x in before && before[x] < before[b]
    requires forall j: nat | j < k :: g[b][j] in before
    ensures DepthFirstAt(g, more, g[b][k])
  {
    assert NextOf(g, more, g[b][k], b, k);
    forall q | q in more && more[b] < more[q] < mid ensures DoneBelow(g, more, q, mid) {
      assert q in before && q !in num;
    }
    assert IsLatest(g, more, b, mid);
  }

  lemma GrownFurther(g: Graph, b: nat, k: nat, num: map<nat, nat>, counter: nat, before: map<nat, nat>, mid: nat, more: map<nat, nat>)
    requires b < |g| && k < |g[b]| && b !in num && b in before && before[b] == counter && counter < mid && g[b][k] in more
    requires WellNumbered(g, before, mid) && Grown(g, b, num, counter, before) && Grown(g, g[b][k], before, mid, more)
    requires Closed(g, b, num, before) && forall j: nat | j < k :: g[b][j] in before
    ensures Grown(g, b, num, counter, more)
  {
    forall x | x in more && x !in num && x != b ensures DepthFirstAt(g, more, x) {
      if x in before {
        DepthFirstStays(g, before, mid, more, x);
      } else if x == g[b][k] {
        NextIsDepthFirst(g, b, k, num, before, mid, more);
      }
    }
  }

  lemma ClosedFurther(g: Graph, b: nat, c: nat, num: map<nat, nat>, before: map<nat, nat>, more: map<nat, nat>)
    requires Closed(g, b, num, before) && Closed(g, c, before, more) && Extends(before, more) && b in before
    requires c < |g| && (c !in before ==> forall y | y in g[c] :: y in more)
    ensures Closed(g, b, num, more)
  {
  }

  /** Numbers the blocks reachable from `b` that have no number yet, depth first. */
  method NumberFrom(g: Graph, b: nat, num: map<nat, nat>, counter: nat) returns (dfsNum: map<nat, nat>, next: nat)
    requires WellFormed(g) && b < |g| && WellNumbered(g, num, counter)
    ensures WellNumbered(g, dfsNum, next) && counter <= next && b in dfsNum
    ensures Grown(g, b, num, counter, dfsNum) && Closed(g, b, num, dfsNum)
    ensures b !in num ==> forall y | y in g[b] :: y in dfsNum
    decreases Ids(|g|) - num.Keys
  {
    dfsNum, next := num, counter;
    if b in num {
      return;
    }
    NumberedNext(g, num, counter, b);
    dfsNum, next := dfsNum[b := counter], counter + 1;
    for k := 0 to |g[b]|
      invariant WellNumbered(g, dfsNum, next) && counter < next && b in dfsNum && dfsNum[b] == counter
      invariant Grown(g, b, num, counter, dfsNum) && Closed(g, b, num, dfsNum)
      invariant forall j: nat | j < k :: g[b][j] in dfsNum
    {
      ghost var before, mid := dfsNum, next;
      assert b in Ids(|g|) - num.Keys && b !in Ids(|g|) - dfsNum.Keys;
      dfsNum, next := NumberFrom(g, g[b][k], dfsNum, next);
      GrownFurther(g, b, k, num, counter, before, mid, dfsNum);
      ClosedFurther(g, b, g[b][k], num, before, dfsNum);
    }
  }

  /** The blocks numbered depth first from the entry. */
  ghost predicate Preorder(g: Graph, num: map<nat, nat>, counter: nat) {
    && WellNumbered(g, num, counter) && 0 in num && num[0] == 0
    && forall x {:trigger DepthFirstAt(g, num, x)} | x in num && x != 0 :: DepthFirstAt(g, num, x)
  }

  /** Two numberings give the same blocks the numbers below `n`. */
  predicate AgreeBelow(num: map<nat, nat>, other: map<nat, nat>, n: nat) {
    && (forall z | z in num && num[z] < n :: z in other && other[z] == num[z])
    && forall z | z in other && other[z] < n :: z in num && num[z] == other[z]
  }

  /** A block with a successor without a number is no later than the latest. */
  lemma NotLater(g: Graph, num: map<nat, nat>, p: nat, n: nat, q: nat, y: nat)
    requires IsLatest(g, num, p, n) && q in num && num[q] < n && q < |g| && y in g[q] && !(y in num && num[y] < n)
    ensures num[q] <= num[p]
  {
    assert num[p] < num[q] ==> DoneBelow(g, num, q, n);
  }

  lemma NotSooner(g: Graph, num: map<nat, nat>, y: nat, p: nat, l: nat, k: nat)
    requires NextOf(g, num, y, p, l) && k < |g[p]| && !(g[p][k] in num && num[g[p][k]] < num[y])
    ensures l <= k
  {
  }

  /** Of two depth-first orders that agree below `n`, both have the same block next. */
  lemma SameNext(g: Graph, num: map<nat, nat>, other: map<nat, nat>, n: nat, x: nat, y: nat)
    requires AgreeBelow(num, other, n) && forall a, b | a in num && b in num && num[a] == num[b] :: a == b
    requires DepthFirstAt(g, num, x) && num[x] == n && DepthFirstAt(g, other, y) && other[y] == n
    ensures x == y
  {
    var p: nat, k: nat :| NextOf(g, num, x, p, k) && IsLatest(g, num, p, n);
    var q: nat, l: nat :| NextOf(g, other, y, q, l) && IsLatest(g, other, q, n);
    assert q in num && num[q] == other[q] && p in other && other[p] == num[p];
    NotLater(g, num, p, n, q, y);
    NotLater(g, other, q, n, p, x);
    NotSooner(g, other, y, q, l, k);
    NotSooner(g, num, x, p, k, l);
  }

  /** The whole order: numbered depth first from the entry, and nothing that can be reached is without a number. */
  ghost predicate IsOrder(g: Graph, num: map<nat, nat>, counter: nat) {
    Preorder(g, num, counter) && forall x, y | x in num && x < |g| && y in g[x] :: y in num
  }

  /** Every numbered block is reached from the entry along blocks with lower numbers. */
  lemma {:induction false} LowPath(g: Graph, num: map<nat, nat>, counter: nat, x: nat) returns (path: seq<nat>)
    requires Preorder(g, num, counter) && x in num && x < |g|
    ensures IsPath(g, path) && path[0] == 0 && path[|path| - 1] == x
    ensures forall y | y in path :: y in num && num[y] <= num[x]
    decreases num[x]
  {
    if x == 0 {
      path := [0];
    } else {
      assert DepthFirstAt(g, num, x);
      var p, k :| NextOf(g, num, x, p, k) && IsLatest(g, num, p, num[x]);
      var shorter := LowPath(g, num, counter, p);
      path := shorter + [x];
    }
  }

  /** `d` lies on every path from the entry to `b`. */
  ghost predicate Dominates(g: Graph, d: nat, b: nat) {
    forall path | IsPath(g, path) && path[0] == 0 && path[|path| - 1] == b :: d in path
  }

  /** A block's dominators have lower depth-first numbers. */
  lemma DominatorIsLower(g: Graph, num: map<nat, nat>, counter: nat, d: nat, b: nat)
    requires Preorder(g, num, counter) && b in num && b < |g| && Dominates(g, d, b) && d != b
    ensures d in num && num[d] < num[b]
  {
    var path := LowPath(g, num, counter, b);
    assert d in path;
  }

  lemma {:induction false} OrdersAgree(g: Graph, num: map<nat, nat>, counter: nat, other: map<nat, nat>, limit: nat, n: nat)
    requires IsOrder(g, num, counter) && IsOrder(g, other, limit)
    ensures AgreeBelow(num, other, n)
    decreases n
  {
    if n > 0 {
      OrdersAgree(g, num, counter, other, limit, n - 1);
      forall z | z in num && num[z] == n - 1 ensures z in other && other[z] == n - 1 {
        NumberCarriesOver(g, num, counter, other, limit, z);
      }
      forall z | z in other && other[z] == n - 1 ensures z in num && num[z] == n - 1 {
        NumberCarriesOver(g, other, limit, num, counter, z);
      }
    }
  }

  lemma NumberCarriesOver(g: Graph, num: map<nat, nat>, counter: nat, other: map<nat, nat>, limit: nat, z: nat)
    requires IsOrder(g, num, counter) && IsOrder(g, other, limit) && z in num && AgreeBelow(num, other, num[z])
    ensures z in other && other[z] == num[z]
  {
    var n := num[z];
    if z != 0 {
      assert DepthFirstAt(g, num, z);
      var p: nat, k: nat :| NextOf(g, num, z, p, k) && IsLatest(g, num, p, n);
      assert p in other && z in other;
      assert other[z] >= n;
      assert IsNumber(other, n);
      var y :| y in other && other[y] == n;
      assert y != 0 && DepthFirstAt(g, other, y);
      SameNext(g, num, other, n, z, y);
    }
  }

  /** There is only one such order. */
  lemma OrderIsUnique(g: Graph, num: map<nat, nat>, counter: nat, other: map<nat, nat>, limit: nat)
    requires IsOrder(g, num, counter) && IsOrder(g, other, limit)
    ensures num == other
  {
    OrdersAgree(g, num, counter, other, limit, counter);
    OrdersAgree(g, num, counter, other, limit, limit);
  }

  function Lookup(num: map<nat, nat>, b: nat): nat {
    if b in num then num[b] else 0
  }

  // ----- the analysis -----

  /** Exactly the dependences on blocks with lower numbers. */
  predicate OnLower(num: map<nat, nat>, all: Deps, forward: Deps) {
    |forward| == |all| && forall b | 0 <= b < |all| :: forward[b] == set d | d in all[b] && Lookup(num, d) < Lookup(num, b)
  }

  /** The dependences on blocks that come earlier in depth-first order: they form no cycle, and every dependence on a dominator is
      among them. */
  ghost predicate ForwardOf(g: Graph, all: Deps, forward: Deps) {
    && |all| == |g| && |forward| == |g|
    && (g == [] || exists num, counter :: IsOrder(g, num, counter) && OnLower(num, all, forward))
    && (forall chain | IsChain(forward, chain) :: chain[0] != chain[|chain| - 1])
    && forall b, d | 0 <= b < |g| && d in all[b] && d != b && Dominates(g, d, b) && Reachable(g, 0, b) :: d in forward[b]
  }

  class ControlDependenceAnalysis {
    var allDeps: Deps
    var forwardDeps: Deps

    /** A region of a single block is not analyzed. */
    constructor (g: Graph, t: Tree)
      requires WellFormed(g) && Represents(t, g)
      ensures |allDeps| == |g| && |forwardDeps| == |g|
      ensures |g| == 1 ==> allDeps == [{}] && forwardDeps == [{}]
      ensures |g| != 1 ==>
                forall b, x | 0 <= b < |g| && 0 <= x < |g| ::
                  x in allDeps[b] <==> DependsThroughPaths(g, b, x) && !(b == x && OnlyOnItself(g, x))
      ensures |g| != 1 ==> ForwardOf(g, allDeps, forwardDeps)
    {
      allDeps := seq(|g|, _ => {});
      forwardDeps := seq(|g|, _ => {});
      new;
      if |g| != 1 {
        IdentifyDirectDeps(g, t);
        ghost var direct := allDeps;
        AddDepsOfDeps();
        forall b, x | 0 <= b < |g| && 0 <= x < |g|
          ensures x in allDeps[b] <==> DependsThroughPaths(g, b, x) && !(b == x && OnlyOnItself(g, x))
        {
          RecordedExactly(g, direct, b, x);
        }
        IdentifyForwardDeps(g);
      }
    }

    /** Edge by edge, the blocks between the target and the nearest common ancestor in the post-dominator tree. */
    method IdentifyDirectDeps(g: Graph, t: Tree)
      requires WellFormed(g) && Represents(t, g) && allDeps == seq(|g|, _ => {})
      modifies this`allDeps
      ensures |allDeps| == |g| && InRange(allDeps)
      ensures forall b, x | 0 <= b < |g| && 0 <= x < |g| :: x in allDeps[b] <==> Recorded(g, b, x)
    {
      for x := 0 to |g|
        invariant |allDeps| == |g| && InRange(allDeps)
        invariant forall b, z | 0 <= b < |g| && 0 <= z < |g| ::
                    z in allDeps[b] <==> z < x && EdgesRecord(t, g, z, |g[z]|, b)
      {
        for k := 0 to |g[x]|
          invariant |allDeps| == |g| && InRange(allDeps)
          invariant forall b, z | 0 <= b < |g| && 0 <= z < |g| && z != x ::
                      z in allDeps[b] <==> z < x && EdgesRecord(t, g, z, |g[z]|, b)
          invariant forall b | 0 <= b < |g| :: x in allDeps[b] <==> EdgesRecord(t, g, x, k, b)
        {
          AddEdge(g, t, x, g[x][k]);
        }
      }
      forall b, x | 0 <= b < |g| && 0 <= x < |g| ensures x in allDeps[b] <==> Recorded(g, b, x) {
        EdgesAreRecorded(t, g, x, b);
      }
    }

    /** What one edge of the graph contributes. */
    method AddEdge(g: Graph, t: Tree, x: nat, s: nat)
      requires Represents(t, g) && x < |g| && s < |g| && |allDeps| == |g|
      modifies this`allDeps
      ensures |allDeps| == |g|
      ensures forall b | 0 <= b < |g| :: allDeps[b] == old(allDeps)[b] + if EdgeRecords(t, x, s, b) then {x} else {}
    {
      if s != x && t.Ancestor(s, x) {
        SkippedEdge(t, x, s);
        return;
      }
      var c := NearestCommonAncestor(t, s, x);
      var found, path := FindTreePath(t, c, s, []);
      assert path == Down(t, c, s);
      PathIsOfBlocks(t, c, s);
      RecordedOnPath(t, x, s, c, path);
      allDeps := allDeps[s := allDeps[s] + {x}];
      AddPath(|g|, path, c, x, s);
    }

    /** Every node of the path but the first, the branching block and the target. */
    method AddPath(n: nat, path: seq<nat>, c: nat, x: nat, s: nat)
      requires |allDeps| == n && forall b | b in path :: b < n || b == c
      modifies this`allDeps
      ensures |allDeps| == n
      ensures forall b | 0 <= b < n ::
                allDeps[b] == old(allDeps)[b] + if b in path && b != c && b != x && b != s then {x} else {}
    {
      for i := 0 to |path|
        invariant |allDeps| == n
        invariant forall b | 0 <= b < n ::
                    allDeps[b] == old(allDeps)[b] + if b in path[..i] && b != c && b != x && b != s then {x} else {}
      {
        var b := path[i];
        assert b in path && path[..i + 1] == path[..i] + [b];
        if !(b == c || b == x || b == s) {
          allDeps := allDeps[b := allDeps[b] + {x}];
        }
      }
      assert path[..|path|] == path;
    }

    /** Repeats until nothing changes: every block takes over the dependences of its dependences. */
    method AddDepsOfDeps()
      requires InRange(allDeps)
      modifies this`allDeps
      ensures |allDeps| == |old(allDeps)| && InRange(allDeps)
      ensures forall b, x | 0 <= b < |allDeps| && 0 <= x < |allDeps| :: x in allDeps[b] <==> DependsThrough(old(allDeps), b, x)
    {
      ghost var direct := allDeps;
      var changed := true;
      forall b, x | 0 <= b < |direct| && x in direct[b] ensures DependsThrough(direct, b, x) {
        DirectIsChain(direct, b, x);
      }
      while changed
        invariant Between(direct, allDeps)
        invariant !changed ==> Saturated(allDeps)
        decreases Missing(allDeps), changed
      {
        ghost var before := allDeps;
        changed := false;
        for b := 0 to |allDeps|
          invariant Between(direct, allDeps) && |before| == |allDeps|
          invariant forall c | 0 <= c < |before| :: before[c] <= allDeps[c]
          invariant !changed ==> allDeps == before && forall c, x | 0 <= c < b && x in before[c] :: before[x] <= before[c]
          invariant changed ==> exists c, x | 0 <= c < |before| && 0 <= x < |before| :: x !in before[c] && x in allDeps[c]
        {
          var more := AddDepsOf(direct, b);
          changed := changed || more;
        }
        if changed {
          assert Missing(allDeps) <= Missing(before);
          ghost var c, x :| 0 <= c < |before| && 0 <= x < |before| && x !in before[c] && x in allDeps[c];
          assert (c, x) in Missing(before) && (c, x) !in Missing(allDeps);
        }
      }
      SaturatedIsClosure(direct, allDeps);
    }

    /** One block takes over the dependences of the dependences it had when its turn came. */
    method AddDepsOf(ghost direct: Deps, b: nat) returns (changed: bool)
      requires Between(direct, allDeps) && b < |allDeps|
      modifies this`allDeps
      ensures Between(direct, allDeps) && forall c | 0 <= c < |allDeps| :: old(allDeps)[c] <= allDeps[c]
      ensures !changed ==> allDeps == old(allDeps) && forall x | x in allDeps[b] :: allDeps[x] <= allDeps[b]
      ensures changed ==> exists x | 0 <= x < |allDeps| :: x !in old(allDeps)[b] && x in allDeps[b]
    {
      changed := false;
      var currentDeps := allDeps[b];
      while currentDeps != {}
        invariant Between(direct, allDeps) && currentDeps <= allDeps[b]
        invariant forall c | 0 <= c < |allDeps| :: old(allDeps)[c] <= allDeps[c]
        invariant !changed ==> allDeps == old(allDeps) && forall x | x in allDeps[b] - currentDeps :: allDeps[x] <= allDeps[b]
        invariant changed ==> exists x | 0 <= x < |allDeps| :: x !in old(allDeps)[b] && x in allDeps[b]
        decreases |currentDeps|
      {
        var dep :| dep in currentDeps;
        currentDeps := currentDeps - {dep};
        BetweenStep(direct, allDeps, b, dep);
        if !(allDeps[dep] <= allDeps[b]) {
          changed := true;
          var x :| x in allDeps[dep] && x !in allDeps[b];
          allDeps := allDeps[b := allDeps[b] + allDeps[dep]];
          assert x in allDeps[b];
        }
      }
    }

    /** Keeps the dependences on blocks whose depth-first number is lower. */
    method IdentifyForwardDeps(g: Graph)
      requires WellFormed(g) && |allDeps| == |g| && |forwardDeps| == |g| && InRange(allDeps)
      modifies this`forwardDeps
      ensures ForwardOf(g, allDeps, forwardDeps)
    {
      if |g| == 0 {
        forwardDeps := [];
        return;
      }
      var dfsNum, counter := NumberFrom(g, 0, map[], 0);
      forwardDeps := seq(|g|, b requires 0 <= b < |allDeps| reads this => set d | d in allDeps[b] && Lookup(dfsNum, d) < Lookup(dfsNum, b));
      assert IsOrder(g, dfsNum, counter) && OnLower(dfsNum, allDeps, forwardDeps);
      forall chain | IsChain(forwardDeps, chain) ensures chain[0] != chain[|chain| - 1] {
        ChainDescends(forwardDeps, dfsNum, chain);
      }
      forall b, d | 0 <= b < |g| && d in allDeps[b] && d != b && Dominates(g, d, b) && Reachable(g, 0, b)
        ensures d in forwardDeps[b]
      {
        var path :| IsPath(g, path) && path[0] == 0 && path[|path| - 1] == b;
        ClosedHoldsReachable(g, dfsNum.Keys, path);
        DominatorIsLower(g, dfsNum, counter, d, b);
      }
    }
  }

  lemma {:induction false} ChainDescends(d: Deps, num: map<nat, nat>, chain: seq<nat>)
    requires IsChain(d, chain) && forall b, x | 0 <= b < |d| && x in d[b] :: Lookup(num, x) < Lookup(num, b)
    ensures Lookup(num, chain[|chain| - 1]) < Lookup(num, chain[0])
    decreases |chain|
  {
    if |chain| > 2 {
      ChainDescends(d, num, chain[1..]);
    }
  }
}
