/** Control-flow graphs, post-dominance by paths, and the tree that represents it. */
module PostDominance {

  /** Successors of each block. */
  type Graph = seq<seq<nat>>

  predicate WellFormed(g: Graph) {
    forall b, k | 0 <= b < |g| && 0 <= k < |g[b]| :: g[b][k] < |g|
  }

  predicate IsPath(g: Graph, path: seq<nat>) {
    && path != []
    && (forall i | 0 <= i < |path| :: path[i] < |g|)
    && forall i | 0 <= i < |path| - 1 :: path[i + 1] in g[path[i]]
  }

  predicate IsPathToExit(g: Graph, x: nat, path: seq<nat>) {
    IsPath(g, path) && path[0] == x && g[path[|path| - 1]] == []
  }

  /** `y` lies on every path from `x` to an exit. */
  ghost predicate PostDominates(g: Graph, y: nat, x: nat) {
    forall path | IsPathToExit(g, x, path) :: y in path
  }

  // ----- the post-dominator tree -----

  /** One node per block and a virtual root, numbered after the blocks. */
  datatype Tree = Tree(parent: seq<nat>, level: seq<nat>, children: seq<seq<nat>>) {
    ghost predicate Valid() {
      && |level| == |parent| + 1 && |children| == |parent| + 1
      && (forall b | 0 <= b < |parent| :: parent[b] <= |parent| && level[b] == level[parent[b]] + 1)
      && forall p, c: nat | 0 <= p <= |parent| :: c in children[p] <==> (c < |parent| && parent[c] == p)
    }

    predicate Ancestor(a: nat, b: nat)
      requires Valid() && b <= |parent|
      decreases level[b]
    {
      a == b || (b < |parent| && Ancestor(a, parent[b]))
    }
  }

  /** The proper ancestors of a block are the blocks, other than itself, that post-dominate it, and the virtual root. */
  ghost predicate Represents(t: Tree, g: Graph) {
    && t.Valid() && |t.parent| == |g|
    && forall y, x | 0 <= y < |g| && 0 <= x < |g| :: t.Ancestor(y, x) <==> PostDominates(g, y, x)
  }

  lemma {:induction false} AncestorLevel(t: Tree, a: nat, b: nat)
    requires t.Valid() && b <= |t.parent| && t.Ancestor(a, b)
    ensures a <= |t.parent| && t.level[a] <= t.level[b] && (t.level[a] == t.level[b] ==> a == b)
    decreases t.level[b]
  {
    if a != b {
      AncestorLevel(t, a, t.parent[b]);
    }
  }

  lemma {:induction false} AncestorTransitive(t: Tree, a: nat, b: nat, c: nat)
    requires t.Valid() && b <= |t.parent| && c <= |t.parent| && t.Ancestor(a, b) && t.Ancestor(b, c)
    ensures t.Ancestor(a, c)
    decreases t.level[c]
  {
    if b != c {
      AncestorTransitive(t, a, b, t.parent[c]);
    }
  }

  /** Two ancestors of one node are ancestors of one another. */
  lemma {:induction false} AncestorsChain(t: Tree, a: nat, b: nat, c: nat)
    requires t.Valid() && a <= |t.parent| && b <= |t.parent| && c <= |t.parent| && t.Ancestor(a, c) && t.Ancestor(b, c)
    ensures t.Ancestor(a, b) || t.Ancestor(b, a)
    decreases t.level[c]
  {
    if a != c && b != c {
      AncestorsChain(t, a, b, t.parent[c]);
    }
  }

  // ----- nearest common ancestor -----

  lemma {:induction false} RootAncestor(t: Tree, b: nat)
    requires t.Valid() && b <= |t.parent|
    ensures t.Ancestor(|t.parent|, b)
    decreases t.level[b]
  {
    if b < |t.parent| {
      RootAncestor(t, t.parent[b]);
    }
  }

  /** Climbs from the deeper of the two nodes until both meet. */
  method NearestCommonAncestor(t: Tree, a: nat, b: nat) returns (c: nat)
    requires t.Valid() && a <= |t.parent| && b <= |t.parent|
    ensures c <= |t.parent| && t.Ancestor(c, a) && t.Ancestor(c, b)
    ensures forall d | 0 <= d <= |t.parent| && t.Ancestor(d, a) && t.Ancestor(d, b) :: t.Ancestor(d, c)
  {
    var x: nat, y: nat := a, b;
    while x != y
      invariant x <= |t.parent| && y <= |t.parent| && t.Ancestor(x, a) && t.Ancestor(y, b)
      invariant forall d | 0 <= d <= |t.parent| && t.Ancestor(d, a) && t.Ancestor(d, b) :: t.Ancestor(d, x) && t.Ancestor(d, y)
      decreases t.level[x] + t.level[y]
    {
      if t.level[x] < t.level[y] {
        ClimbStep(t, y, x, b, a);
        y := t.parent[y];
      } else {
        ClimbStep(t, x, y, a, b);
        x := t.parent[x];
      }
    }
    c := x;
  }

  /** The deeper of two distinct nodes can be left for its parent without losing a common ancestor. */
  lemma ClimbStep(t: Tree, x: nat, y: nat, a: nat, b: nat)
    requires t.Valid() && a <= |t.parent| && b <= |t.parent| && x <= |t.parent| && y <= |t.parent|
    requires x != y && t.level[y] <= t.level[x] && t.Ancestor(x, a) && t.Ancestor(y, b)
    requires forall d | 0 <= d <= |t.parent| && t.Ancestor(d, a) && t.Ancestor(d, b) :: t.Ancestor(d, x) && t.Ancestor(d, y)
    ensures x < |t.parent| && t.Ancestor(t.parent[x], a)
    ensures forall d | 0 <= d <= |t.parent| && t.Ancestor(d, a) && t.Ancestor(d, b) :: t.Ancestor(d, t.parent[x])
  {
    RootAncestor(t, x);
    RootAncestor(t, y);
    AncestorLevel(t, |t.parent|, y);
    AncestorLevel(t, |t.parent|, x);
    AncestorTransitive(t, t.parent[x], x, a);
    forall d | 0 <= d <= |t.parent| && t.Ancestor(d, a) && t.Ancestor(d, b) ensures t.Ancestor(d, t.parent[x]) {
      AncestorLevel(t, d, y);
    }
  }

  // ----- paths in the tree -----

  /** The nodes from `start` down to `end`. */
  ghost function Down(t: Tree, start: nat, end: nat): (path: seq<nat>)
    requires t.Valid() && end <= |t.parent| && t.Ancestor(start, end)
    ensures forall y: nat :: y in path <==> (y <= |t.parent| && t.Ancestor(start, y) && t.Ancestor(y, end))
    decreases t.level[end]
  {
    if start == end then
      DownBase(t, start);
      [end]
    else
      DownStep(t, start, end);
      Down(t, start, t.parent[end]) + [end]
  }

  lemma DownBase(t: Tree, a: nat)
    requires t.Valid() && a <= |t.parent|
    ensures forall y: nat | y <= |t.parent| && t.Ancestor(a, y) && t.Ancestor(y, a) :: y == a
  {
    forall y: nat | y <= |t.parent| && t.Ancestor(a, y) && t.Ancestor(y, a) ensures y == a {
      AncestorLevel(t, a, y);
      AncestorLevel(t, y, a);
    }
  }

  lemma DownStep(t: Tree, start: nat, end: nat)
    requires t.Valid() && end <= |t.parent| && t.Ancestor(start, end) && start != end
    ensures end < |t.parent|
    ensures forall y: nat | y <= |t.parent| :: t.Ancestor(y, end) <==> y == end || t.Ancestor(y, t.parent[end])
  {
  }

  lemma {:induction false} DownFromChild(t: Tree, start: nat, child: nat, end: nat)
    requires t.Valid() && end <= |t.parent| && child < |t.parent| && t.parent[child] == start && t.Ancestor(child, end)
    ensures t.Ancestor(start, end) && Down(t, start, end) == [start] + Down(t, child, end)
    decreases t.level[end]
  {
    AncestorLevel(t, child, end);
    if child == end {
      assert Down(t, start, start) == [start];
    } else {
      DownFromChild(t, start, child, t.parent[end]);
    }
  }

  lemma {:induction false} ChildTowards(t: Tree, start: nat, end: nat) returns (child: nat)
    requires t.Valid() && end <= |t.parent| && t.Ancestor(start, end) && start != end
    ensures start <= |t.parent| && child < |t.parent| && t.Ancestor(child, end)
    ensures t.parent[child] == start && child in t.children[start]
    decreases t.level[end]
  {
    if t.parent[end] == start {
      child := end;
    } else {
      child := ChildTowards(t, start, t.parent[end]);
    }
  }

  function MaxOf(xs: seq<nat>): (m: nat)
    ensures forall x | x in xs :: x <= m
  {
    if xs == [] then 0
    else
      var rest := MaxOf(xs[1..]);
      assert forall x | x in xs :: x == xs[0] || x in xs[1..];
      if xs[0] <= rest then rest else xs[0]
  }

  /** Depth-first search for the path from `start` down to `end`, pushing nodes on the path and popping dead ends. */
  method FindTreePath(t: Tree, start: nat, end: nat, currentPath: seq<nat>) returns (found: bool, path: seq<nat>)
    requires t.Valid() && start <= |t.parent| && end <= |t.parent|
    ensures found == t.Ancestor(start, end)
    ensures path == if found then currentPath + Down(t, start, end) else currentPath
    decreases MaxOf(t.level) - t.level[start]
  {
    path := currentPath + [start];
    if start == end {
      return true, path;
    }
    for i := 0 to |t.children[start]|
      invariant path == currentPath + [start]
      invariant forall j | 0 <= j < i :: !t.Ancestor(t.children[start][j], end)
    {
      var child := t.children[start][i];
      assert child in t.children[start];
      assert t.parent[child] == start && t.level[child] == t.level[start] + 1;
      assert t.level[child] in t.level && t.level[child] <= MaxOf(t.level);
      found, path := FindTreePath(t, child, end, path);
      if found {
        DownFromChild(t, start, child, end);
        return;
      }
    }
    found := false;
    path := path[..|path| - 1];
    if t.Ancestor(start, end) {
      var child := ChildTowards(t, start, end);
    }
  }
}
