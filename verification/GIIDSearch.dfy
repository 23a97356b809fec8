/** Does an operand depend on a value along a control-flow path? The backtracking search and what its answers mean. */
module GIIDSearch {
  import opened Basics

  datatype Value = Argument(idx: nat) | Result(op: nat, idx: nat)

  /** Operations by how the search treats them; `Join` are those whose result is computed from all operands. */
  datatype Kind = ConditionalBranch | Merge | Mux | Load | Select | Join | Unsupported

  datatype Op = Op(kind: Kind, operands: seq<Value>, block: Option<nat>)

  datatype Operand = Operand(owner: nat, idx: nat)

  type Path = seq<nat>

  /** `backedge(v, o)` tells whether the use of `v` by operation `o` is a backedge; `rank` orders operations along all others. */
  datatype Circuit = Circuit(ops: seq<Op>, backedge: (Value, nat) -> bool, rank: nat -> nat) {
    predicate Defined(v: Value) {
      v.Result? ==> v.op < |ops|
    }

    ghost predicate Valid() {
      && (forall o | 0 <= o < |ops| :: match ops[o].kind
            case Merge => |ops[o].operands| >= 1
            case Mux => |ops[o].operands| >= 2
            case Load => |ops[o].operands| >= 1
            case Select => |ops[o].operands| == 3
            case _ => true)
      && (forall o, v | 0 <= o < |ops| && v in ops[o].operands :: Defined(v))
      && forall o, v | 0 <= o < |ops| && v in ops[o].operands && v.Result? && !backedge(v, o) :: rank(v.op) < rank(o)
    }

    predicate IsUse(v: Value, user: nat) {
      user < |ops| && v in ops[user].operands
    }

    predicate HasOperand(o: Operand) {
      o.owner < |ops| && o.idx < |ops[o.owner].operands|
    }

    function Get(o: Operand): Value
      requires HasOperand(o)
    {
      ops[o.owner].operands[o.idx]
    }
  }

  datatype Status = FailOffPath | FailOnPath | Succeed

  // ----- one step back -----

  /** Where the definition of an operand lies: before the path or unknown, off the path, or at the end of a shorter path. */
  datatype Origin = Before | Off | At(path: Path)

  /** The part of the path up to the last visit of a block. */
  function UpTo(path: Path, b: nat): (r: Option<Path>)
    ensures r.Some? <==> b in path
    ensures r.Some? ==> r.value != [] && r.value <= path && r.value[|r.value| - 1] == b && b !in path[|r.value|..]
  {
    if path == [] then None
    else if path[|path| - 1] == b then Some(path)
    else
      assert path == path[..|path| - 1] + [path[|path| - 1]];
      UpTo(path[..|path| - 1], b)
  }

  function OriginOf(c: Circuit, v: Value, user: nat, path: Path): (r: Origin)
    requires c.Defined(v) && path != []
    ensures r.At? ==> r.path != [] && r.path <= path && v.Result? && (c.backedge(v, user) ==> |r.path| < |path|)
    ensures r.At? ==> c.ops[v.op].block == Some(r.path[|r.path| - 1])
  {
    if v.Argument? || c.ops[v.op].block.None? then Before
    else
      var b := c.ops[v.op].block.value;
      if c.backedge(v, user) then
        if |path| == 1 then Before
        else if path[|path| - 2] != b then Off
        else At(path[..|path| - 1])
      else
        match UpTo(path, b)
        case Some(p) => At(p)
        case None => if |path| == 1 then Before else Off
  }

  // ----- the search without a memo -----

  function Or(ss: seq<Status>): Status {
    if Succeed in ss then Succeed else if FailOnPath in ss then FailOnPath else FailOffPath
  }

  function And(ss: seq<Status>): Status {
    if FailOnPath in ss then FailOnPath else if Succeed in ss then Succeed else FailOffPath
  }

  /** Status of the use of `v` by `user` along the path. */
  function StatusOf(c: Circuit, pred: Value, v: Value, user: nat, path: Path): Status
    requires c.Valid() && c.IsUse(v, user) && path != []
    decreases |path|, c.rank(user), 0
  {
    if v == pred then Succeed
    else
      match OriginOf(c, v, user, path)
      case Before => FailOnPath
      case Off => FailOffPath
      case At(p) => Resolve(c, pred, v, p)
  }

  /** Status of a value whose definition lies in the last block of the path. */
  function Resolve(c: Circuit, pred: Value, v: Value, p: Path): Status
    requires c.Valid() && v.Result? && c.Defined(v) && p != []
    decreases |p|, c.rank(v.op), 2
  {
    var o := c.ops[v.op];
    match o.kind
    case ConditionalBranch => And(Statuses(c, pred, v.op, o.operands, p))
    case Merge => And(Statuses(c, pred, v.op, o.operands, p))
    case Mux =>
      if StatusOf(c, pred, o.operands[0], v.op, p) == Succeed then Succeed else And(Statuses(c, pred, v.op, o.operands, p))
    case Load => if v.idx != 1 then FailOnPath else StatusOf(c, pred, o.operands[0], v.op, p)
    case Select =>
      if StatusOf(c, pred, o.operands[0], v.op, p) == Succeed then Succeed
      else And(Statuses(c, pred, v.op, o.operands[1..], p))
    case Join => Or(Statuses(c, pred, v.op, o.operands, p))
    case Unsupported => FailOnPath
  }

  function Statuses(c: Circuit, pred: Value, user: nat, vs: seq<Value>, p: Path): (ss: seq<Status>)
    requires c.Valid() && p != [] && forall v | v in vs :: c.IsUse(v, user)
    ensures |ss| == |vs|
    ensures forall i | 0 <= i < |vs| :: ss[i] == StatusOf(c, pred, vs[i], user, p)
    decreases |p|, c.rank(user), 1
  {
    seq(|vs|, i requires 0 <= i < |vs| => StatusOf(c, pred, vs[i], user, p))
  }

  // ----- the memoised search -----

  /** Results by operand and shortened path. */
  type Memo = map<(Operand, Path), Status>

  ghost predicate MemoOk(c: Circuit, pred: Value, seen: Memo)
    requires c.Valid()
  {
    forall key | key in seen ::
      && c.HasOperand(key.0) && c.Get(key.0).Result? && key.1 != []
      && c.Defined(c.Get(key.0)) && seen[key] == Resolve(c, pred, c.Get(key.0), key.1)
  }

  /** Scans the path backward for the block. */
  method DropTo(path: Path, b: nat) returns (found: bool, p: Path)
    ensures UpTo(path, b) == if found then Some(p) else None
  {
    var idx := |path|;
    assert path[..idx] == path;
    while idx > 0
      invariant 0 <= idx <= |path| && UpTo(path, b) == UpTo(path[..idx], b)
    {
      if path[idx - 1] == b {
        return true, path[..idx];
      }
      assert path[..idx][..idx - 1] == path[..idx - 1];
      idx := idx - 1;
    }
    return false, [];
  }

  method IsGIIDRec(c: Circuit, pred: Value, oprd: Operand, path: Path, seen: Memo) returns (status: Status, seen': Memo)
    requires c.Valid() && c.HasOperand(oprd) && path != [] && MemoOk(c, pred, seen)
    ensures status == StatusOf(c, pred, c.Get(oprd), oprd.owner, path) && MemoOk(c, pred, seen')
    decreases |path|, c.rank(oprd.owner), 0
  {
    seen' := seen;
    var val := c.Get(oprd);
    if pred == val {
      return Succeed, seen';
    }
    assert c.IsUse(val, oprd.owner) && c.Defined(val);
    if val.Argument? || c.ops[val.op].block.None? {
      return FailOnPath, seen';
    }
    var defBB := c.ops[val.op].block.value;
    var p := path;
    if c.backedge(val, oprd.owner) {
      if |path| == 1 {
        return FailOnPath, seen';
      }
      if path[|path| - 2] != defBB {
        return FailOffPath, seen';
      }
      p := path[..|path| - 1];
    } else {
      var found;
      found, p := DropTo(path, defBB);
      if !found {
        return if |path| == 1 then FailOnPath else FailOffPath, seen';
      }
    }
    assert OriginOf(c, val, oprd.owner, path) == At(p);
    if (oprd, p) in seen' {
      return seen'[(oprd, p)], seen';
    }
    status, seen' := ResolveOperand(c, pred, val, p, seen');
    seen' := seen'[(oprd, p) := status];
  }

  /** The case distinction on the defining operation. */
  method ResolveOperand(c: Circuit, pred: Value, val: Value, p: Path, seen: Memo) returns (status: Status, seen': Memo)
    requires c.Valid() && val.Result? && c.Defined(val) && p != [] && MemoOk(c, pred, seen)
    ensures status == Resolve(c, pred, val, p) && MemoOk(c, pred, seen')
    decreases |p|, c.rank(val.op), 3
  {
    seen' := seen;
    var o := c.ops[val.op];
    match o.kind {
      case ConditionalBranch =>
        status, seen' := FoldAnd(c, pred, val.op, o.operands, p, seen');
      case Merge =>
        status, seen' := FoldAnd(c, pred, val.op, o.operands, p, seen');
      case Mux =>
        status, seen' := Recurse(c, pred, val.op, o.operands[0], p, seen');
        if status != Succeed {
          status, seen' := FoldAnd(c, pred, val.op, o.operands, p, seen');
        }
      case Load =>
        if val.idx != 1 {
          status := FailOnPath;
        } else {
          status, seen' := Recurse(c, pred, val.op, o.operands[0], p, seen');
        }
      case Select =>
        status, seen' := Recurse(c, pred, val.op, o.operands[0], p, seen');
        if status != Succeed {
          status, seen' := FoldAnd(c, pred, val.op, o.operands[1..], p, seen');
        }
      case Join =>
        status, seen' := FoldOr(c, pred, val.op, o.operands, p, seen');
      case Unsupported =>
        status := FailOnPath;
    }
  }

  /** Continues with the first operand of the defining operation that holds the value. */
  method Recurse(c: Circuit, pred: Value, defOp: nat, newVal: Value, p: Path, seen: Memo) returns (status: Status, seen': Memo)
    requires c.Valid() && c.IsUse(newVal, defOp) && p != [] && MemoOk(c, pred, seen)
    ensures status == StatusOf(c, pred, newVal, defOp, p) && MemoOk(c, pred, seen')
    decreases |p|, c.rank(defOp), 1
  {
    var k := 0;
    while c.ops[defOp].operands[k] != newVal
      invariant 0 <= k < |c.ops[defOp].operands|
      invariant forall j | 0 <= j < k :: c.ops[defOp].operands[j] != newVal
      decreases |c.ops[defOp].operands| - k
    {
      k := k + 1;
    }
    status, seen' := IsGIIDRec(c, pred, Operand(defOp, k), p, seen);
  }

  method FoldOr(c: Circuit, pred: Value, defOp: nat, vs: seq<Value>, p: Path, seen: Memo) returns (status: Status, seen': Memo)
    requires c.Valid() && p != [] && MemoOk(c, pred, seen) && forall v | v in vs :: c.IsUse(v, defOp)
    ensures status == Or(Statuses(c, pred, defOp, vs, p)) && MemoOk(c, pred, seen')
    decreases |p|, c.rank(defOp), 2
  {
    ghost var ss := Statuses(c, pred, defOp, vs, p);
    status, seen' := FailOffPath, seen;
    for i := 0 to |vs|
      invariant MemoOk(c, pred, seen')
      invariant status == Or(ss[..i]) && status != Succeed
    {
      assert ss[..i + 1] == ss[..i] + [ss[i]];
      var one;
      one, seen' := Recurse(c, pred, defOp, vs[i], p, seen');
      match one {
        case FailOffPath =>
        case FailOnPath => status := FailOnPath;
        case Succeed =>
          status := Succeed;
          assert ss[i] in ss;
          return;
      }
    }
    assert ss[..|vs|] == ss;
  }

  method FoldAnd(c: Circuit, pred: Value, defOp: nat, vs: seq<Value>, p: Path, seen: Memo) returns (status: Status, seen': Memo)
    requires c.Valid() && p != [] && MemoOk(c, pred, seen) && forall v | v in vs :: c.IsUse(v, defOp)
    ensures status == And(Statuses(c, pred, defOp, vs, p)) && MemoOk(c, pred, seen')
    decreases |p|, c.rank(defOp), 2
  {
    ghost var ss := Statuses(c, pred, defOp, vs, p);
    status, seen' := FailOffPath, seen;
    for i := 0 to |vs|
      invariant MemoOk(c, pred, seen')
      invariant status == And(ss[..i]) && status != FailOnPath
    {
      assert ss[..i + 1] == ss[..i] + [ss[i]];
      var one;
      one, seen' := Recurse(c, pred, defOp, vs[i], p, seen');
      match one {
        case FailOffPath =>
        case FailOnPath =>
          status := FailOnPath;
          assert ss[i] in ss;
          return;
        case Succeed => status := Succeed;
      }
    }
    assert ss[..|vs|] == ss;
  }

  method IsGIID(c: Circuit, pred: Value, oprd: Operand, path: Path) returns (enforced: bool)
    requires c.Valid() && c.HasOperand(oprd) && path != []
    ensures enforced <==> StatusOf(c, pred, c.Get(oprd), oprd.owner, path) == Succeed
  {
    var status, seen := IsGIIDRec(c, pred, oprd, path, map[]);
    enforced := status == Succeed;
  }
}
