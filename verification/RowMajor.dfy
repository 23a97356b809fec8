/** Row-major flattening of multidimensional memories. */
module RowMajor {
  import opened Words

  type Shape = seq<nat>

  type Index = seq<nat>

  predicate InRange(idx: Index, shape: Shape) {
    |idx| == |shape| && forall k | 0 <= k < |shape| :: idx[k] < shape[k]
  }

  function Product(shape: Shape): nat {
    if shape == [] then 1 else shape[0] * Product(shape[1..])
  }

  /** The position of an index vector in row-major order. */
  function Rank(idx: Index, shape: Shape): nat
    requires |idx| == |shape|
  {
    if shape == [] then 0 else idx[0] * Product(shape[1..]) + Rank(idx[1..], shape[1..])
  }

  // ----- what the rank is -----

  lemma {:induction false} MulBelow(a: nat, b: nat, p: nat)
    requires a < b
    ensures a * p + p <= b * p
    decreases b
  {
    if a + 1 < b {
      MulBelow(a, b - 1, p);
    }
    assert b * p == (b - 1) * p + p;
  }

  lemma DivBelow(r: nat, p: nat, n: nat)
    requires p > 0 && r < n * p
    ensures r / p < n && r == r / p * p + r % p
  {
    var q := r / p;
    if n < q {
      MulBelow(n, q, p);
    }
  }

  lemma {:induction false} RankBelow(idx: Index, shape: Shape)
    requires InRange(idx, shape)
    ensures Rank(idx, shape) < Product(shape)
  {
    if shape != [] {
      RankBelow(idx[1..], shape[1..]);
      MulBelow(idx[0], shape[0], Product(shape[1..]));
    }
  }

  /** The first position where two index vectors differ is smaller in `a`. */
  predicate Precedes(a: Index, b: Index) {
    |a| == |b| && exists k | 0 <= k < |a| :: a[..k] == b[..k] && a[k] < b[k]
  }

  /** Row-major: the order of the ranks is the lexicographic order of the index vectors. */
  lemma {:induction false} RankOrders(a: Index, b: Index, shape: Shape)
    requires InRange(a, shape) && InRange(b, shape)
    ensures Precedes(a, b) ==> Rank(a, shape) < Rank(b, shape)
    ensures a != b ==> Precedes(a, b) || Precedes(b, a)
  {
    if shape != [] {
      var p := Product(shape[1..]);
      RankBelow(a[1..], shape[1..]);
      RankBelow(b[1..], shape[1..]);
      RankOrders(a[1..], b[1..], shape[1..]);
      if Precedes(a, b) {
        var k :| 0 <= k < |a| && a[..k] == b[..k] && a[k] < b[k];
        if k == 0 {
          MulBelow(a[0], b[0], p);
        } else {
          assert a[0] == a[..k][0] == b[..k][0] == b[0];
          assert a[1..][..k - 1] == a[..k][1..] && b[1..][..k - 1] == b[..k][1..];
          assert Precedes(a[1..], b[1..]);
        }
      }
      if a != b {
        SomeOrder(a, b);
      }
    }
  }

  lemma {:induction false} SomeOrder(a: Index, b: Index)
    requires |a| == |b| && a != b
    ensures Precedes(a, b) || Precedes(b, a)
  {
    if a[0] < b[0] || b[0] < a[0] {
      assert a[..0] == b[..0];
    } else {
      assert a == [a[0]] + a[1..] && b == [b[0]] + b[1..];
      SomeOrder(a[1..], b[1..]);
      var lo, hi := if Precedes(a[1..], b[1..]) then a else b, if Precedes(a[1..], b[1..]) then b else a;
      var k :| 0 <= k < |lo[1..]| && lo[1..][..k] == hi[1..][..k] && lo[1..][k] < hi[1..][k];
      assert lo[..k + 1] == [lo[0]] + lo[1..][..k] && hi[..k + 1] == [hi[0]] + hi[1..][..k];
    }
  }

  lemma RankInjective(a: Index, b: Index, shape: Shape)
    requires InRange(a, shape) && InRange(b, shape) && Rank(a, shape) == Rank(b, shape)
    ensures a == b
  {
    RankOrders(a, b, shape);
    RankOrders(b, a, shape);
  }

  /** Every position of the flat memory is the rank of an index vector. */
  lemma {:induction false} RankOnto(r: nat, shape: Shape) returns (idx: Index)
    requires r < Product(shape)
    ensures InRange(idx, shape) && Rank(idx, shape) == r
    decreases shape
  {
    if shape == [] {
      idx := [];
    } else {
      var p := Product(shape[1..]);
      assert p > 0;
      DivBelow(r, p, shape[0]);
      var rest := RankOnto(r % p, shape[1..]);
      idx := [r / p] + rest;
    }
  }

  // ----- the computation of the flattened index -----

  predicate IsPowerOf2(n: nat) {
    n > 0 && (n == 1 || (n % 2 == 0 && IsPowerOf2(n / 2)))
  }

  function Log2(n: nat): (k: nat)
    requires IsPowerOf2(n)
    ensures Pow2(k) == n
  {
    if n == 1 then 0 else 1 + Log2(n / 2)
  }

  lemma {:induction false} ProductSplit(shape: Shape, k: nat)
    requires k < |shape|
    ensures Product(shape[k..]) == shape[k] * Product(shape[k + 1..])
  {
    assert shape[k..][1..] == shape[k + 1..];
  }

  lemma {:induction false} ProductPositive(shape: Shape)
    requires forall k | 0 <= k < |shape| :: shape[k] > 0
    ensures Product(shape) > 0
  {
    if shape != [] {
      ProductPositive(shape[1..]);
      assert shape[0] * Product(shape[1..]) > 0;
    }
  }

  /** Dropping leading dimensions does not enlarge the product. */
  lemma {:induction false} ProductSuffix(shape: Shape, k: nat)
    requires k <= |shape| && forall k | 0 <= k < |shape| :: shape[k] > 0
    ensures Product(shape[k..]) <= Product(shape)
  {
    if k == 0 {
      assert shape[0..] == shape;
    } else {
      assert shape[1..][k - 1..] == shape[k..];
      ProductSuffix(shape[1..], k - 1);
      ProductPositive(shape[1..]);
      assert 1 * Product(shape[1..]) <= shape[0] * Product(shape[1..]);
    }
  }

  /** A product of an index and the number of elements behind it, by a shift where that number is a power of two. */
  function Scaled(idx: nat, dimProduct: nat, word: nat): nat {
    if IsPowerOf2(dimProduct) then Wrap(idx * Pow2(Log2(dimProduct)), word) else Wrap(idx * dimProduct, word)
  }

  /** Nothing overflows on the way to the rank of the last indices. */
  lemma StepExact(idx: Index, shape: Shape, k: nat, p: nat, word: nat)
    requires InRange(idx, shape) && k < |shape| && Product(shape) <= Pow2(word) && p == Product(shape[k + 1..])
    ensures Rank(idx[k..], shape[k..]) == idx[k] * p + Rank(idx[k + 1..], shape[k + 1..])
    ensures Rank(idx[k..], shape[k..]) < Pow2(word)
  {
    assert idx[k..][1..] == idx[k + 1..] && shape[k..][1..] == shape[k + 1..];
    assert InRange(idx[k..], shape[k..]);
    RankBelow(idx[k..], shape[k..]);
    ProductSuffix(shape, k);
  }

  /** Shift and multiplication scale alike. */
  lemma ScaledExact(i: nat, dimProduct: nat, word: nat)
    requires i * dimProduct < Pow2(word)
    ensures Scaled(i, dimProduct, word) == i * dimProduct
  {
    WrapSmall(i * dimProduct, word);
  }

  /** From the second last index to the first. Machine words of index type have `word` bits. */
  method FlattenIndices(indices: Index, shape: Shape, word: nat) returns (flat: nat)
    requires InRange(indices, shape) && Product(shape) <= Pow2(word)
    ensures flat == Rank(indices, shape) && flat < Product(shape)
  {
    RankBelow(indices, shape);
    var numIndices := |indices|;
    if numIndices == 0 {
      return 0;
    }
    LastRank(indices, shape);
    if numIndices == 1 {
      return indices[0];
    }
    flat := indices[numIndices - 1];
    var dimProduct := 1;
    var memIdx := numIndices - 1;
    while memIdx > 0
      invariant 0 <= memIdx < numIndices
      invariant DoneFrom(indices, shape, memIdx, dimProduct, flat)
    {
      memIdx := memIdx - 1;
      ghost var before := dimProduct;
      dimProduct := dimProduct * shape[memIdx + 1];
      DoneStep(indices, shape, memIdx, before, flat, word, dimProduct);
      flat := Wrap(flat + Scaled(indices[memIdx], dimProduct, word), word);
    }
    assert indices[0..] == indices && shape[0..] == shape;
  }

  /** The indices from position `k` on are accumulated. */
  predicate DoneFrom(idx: Index, shape: Shape, k: nat, dimProduct: nat, flat: nat)
    requires |idx| == |shape| && k < |shape|
  {
    dimProduct == Product(shape[k + 1..]) && flat == Rank(idx[k..], shape[k..])
  }

  lemma DoneStep(idx: Index, shape: Shape, k: nat, dimProduct: nat, flat: nat, word: nat, p: nat)
    requires InRange(idx, shape) && k + 1 < |shape| && Product(shape) <= Pow2(word)
    requires DoneFrom(idx, shape, k + 1, dimProduct, flat) && p == dimProduct * shape[k + 1]
    ensures DoneFrom(idx, shape, k, p, Wrap(flat + Scaled(idx[k], p, word), word))
  {
    ProductSplit(shape, k + 1);
    StepExact(idx, shape, k, p, word);
    ScaledExact(idx[k], p, word);
    WrapSmall(flat + idx[k] * p, word);
  }

  lemma LastRank(idx: Index, shape: Shape)
    requires |idx| == |shape| && |shape| > 0
    ensures var k := |shape| - 1; Product(shape[k + 1..]) == 1 && Rank(idx[k..], shape[k..]) == idx[k]
  {
    var k := |shape| - 1;
    assert shape[k..] == [shape[k]] && idx[k..] == [idx[k]];
    assert shape[k..][1..] == [];
  }

  // ----- memories -----

  datatype Access = Load(at: Index) | Store(at: Index, value: int)

  function Stored(mem: Index -> int, at: Index, value: int): Index -> int {
    idx => if idx == at then value else mem(idx)
  }

  /** What the loads of a run return, in order. */
  function Loaded(mem: Index -> int, run: seq<Access>): seq<int> {
    if run == [] then []
    else
      match run[0]
      case Load(at) => [mem(at)] + Loaded(mem, run[1..])
      case Store(at, value) => Loaded(Stored(mem, at, value), run[1..])
  }

  /** The same run on the flat memory, each access at the rank of its indices. */
  function LoadedFlat(flat: seq<int>, shape: Shape, run: seq<Access>): seq<int>
    requires |flat| == Product(shape) && forall a | a in run :: InRange(a.at, shape)
    decreases run
  {
    if run == [] then []
    else
      RankBelow(run[0].at, shape);
      match run[0]
      case Load(at) => [flat[Rank(at, shape)]] + LoadedFlat(flat, shape, run[1..])
      case Store(at, value) => LoadedFlat(flat[Rank(at, shape) := value], shape, run[1..])
  }

  predicate RepresentsAt(flat: seq<int>, mem: Index -> int, shape: Shape, idx: Index) {
    InRange(idx, shape) ==> Rank(idx, shape) < |flat| && flat[Rank(idx, shape)] == mem(idx)
  }

  /** The contents are laid out in row-major order. */
  ghost predicate Represents(flat: seq<int>, mem: Index -> int, shape: Shape) {
    |flat| == Product(shape) && forall idx :: RepresentsAt(flat, mem, shape, idx)
  }

  lemma StoreRepresents(flat: seq<int>, mem: Index -> int, shape: Shape, at: Index, value: int)
    requires InRange(at, shape) && Represents(flat, mem, shape)
    ensures Rank(at, shape) < |flat|
    ensures Represents(flat[Rank(at, shape) := value], Stored(mem, at, value), shape)
  {
    RankBelow(at, shape);
    var flat', mem' := flat[Rank(at, shape) := value], Stored(mem, at, value);
    forall idx ensures RepresentsAt(flat', mem', shape, idx) {
      assert RepresentsAt(flat, mem, shape, idx);
      if InRange(idx, shape) && Rank(idx, shape) == Rank(at, shape) {
        RankInjective(idx, at, shape);
      }
    }
  }

  /** Any run of loads and stores returns the same on the flat memory, if the initial contents are laid out in row-major order. */
  lemma {:induction false} FlatRefines(flat: seq<int>, mem: Index -> int, shape: Shape, run: seq<Access>)
    requires Represents(flat, mem, shape) && forall a | a in run :: InRange(a.at, shape)
    ensures LoadedFlat(flat, shape, run) == Loaded(mem, run)
    decreases run
  {
    if run != [] {
      RankBelow(run[0].at, shape);
      assert RepresentsAt(flat, mem, shape, run[0].at);
      match run[0]
      case Load(at) => FlatRefines(flat, mem, shape, run[1..]);
      case Store(at, value) =>
        StoreRepresents(flat, mem, shape, at, value);
        FlatRefines(flat[Rank(at, shape) := value], Stored(mem, at, value), shape, run[1..]);
    }
  }
}
