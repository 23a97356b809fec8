/** What a successful search guarantees about the tokens that follow a control-flow path. */
module GIIDMeaning {
  import opened Basics
  import opened GIIDSearch

  // ----- def-use chains -----

  /** A use, and how much of the path lies before its user. */
  datatype Link = Link(value: Value, user: nat, position: nat)

  predicate IsLink(c: Circuit, path: Path, l: Link) {
    c.IsUse(l.value, l.user) && 1 <= l.position <= |path|
  }

  /** The second use is by the operation that defines the first one's value, in a block no later on the path; across a
      backedge it is exactly the previous block. */
  predicate LinksBack(c: Circuit, path: Path, l: Link, next: Link)
    requires IsLink(c, path, l) && IsLink(c, path, next)
  {
    && l.value.Result? && l.value.op == next.user
    && c.ops[next.user].block == Some(path[next.position - 1])
    && next.position <= l.position
    && (c.backedge(l.value, l.user) ==> next.position == l.position - 1)
  }

  /** A def-use chain from `pred` to the first use, whose blocks move only backward on the path. */
  predicate IsChain(c: Circuit, pred: Value, path: Path, chain: seq<Link>) {
    && chain != []
    && (forall i | 0 <= i < |chain| :: IsLink(c, path, chain[i]))
    && (forall i | 0 <= i < |chain| - 1 :: LinksBack(c, path, chain[i], chain[i + 1]))
    && chain[|chain| - 1].value == pred
  }

  ghost predicate HasChain(c: Circuit, pred: Value, v: Value, user: nat, path: Path) {
    exists chain :: IsChain(c, pred, path, chain) && chain[0] == Link(v, user, |path|)
  }

  /** Success means there is a chain. */
  lemma {:induction false} SucceedHasChain(c: Circuit, pred: Value, v: Value, user: nat, path: Path)
    requires c.Valid() && c.IsUse(v, user) && path != [] && StatusOf(c, pred, v, user, path) == Succeed
    ensures HasChain(c, pred, v, user, path)
    decreases |path|, c.rank(user), 1
  {
    if v == pred {
      assert IsChain(c, pred, path, [Link(v, user, |path|)]);
    } else {
      var p := OriginOf(c, v, user, path).path;
      var w := SuccessfulOperand(c, pred, v, p);
      SucceedHasChain(c, pred, w, v.op, p);
      ExtendChain(c, pred, v, user, path, w, p);
    }
  }

  /** Some operand of the defining operation succeeds. */
  lemma SuccessfulOperand(c: Circuit, pred: Value, v: Value, p: Path) returns (w: Value)
    requires c.Valid() && v.Result? && c.Defined(v) && p != [] && Resolve(c, pred, v, p) == Succeed
    ensures c.IsUse(w, v.op) && StatusOf(c, pred, w, v.op, p) == Succeed
  {
    var vs := c.ops[v.op].operands;
    if vs != [] && StatusOf(c, pred, vs[0], v.op, p) == Succeed {
      w := vs[0];
    } else {
      var among := if c.ops[v.op].kind.Select? then vs[1..] else vs;
      var ss := Statuses(c, pred, v.op, among, p);
      assert Succeed in ss;
      var i :| 0 <= i < |ss| && ss[i] == Succeed;
      w := among[i];
    }
  }

  lemma LinksOnLongerPath(c: Circuit, p: Path, path: Path, l: Link, next: Link)
    requires p <= path && IsLink(c, p, l) && IsLink(c, p, next) && LinksBack(c, p, l, next)
    ensures IsLink(c, path, l) && IsLink(c, path, next) && LinksBack(c, path, l, next)
  {
    assert p[next.position - 1] == path[next.position - 1];
  }

  lemma ChainOnLongerPath(c: Circuit, pred: Value, p: Path, path: Path, chain: seq<Link>)
    requires p <= path && IsChain(c, pred, p, chain)
    ensures IsChain(c, pred, path, chain)
  {
    forall i | 0 <= i < |chain| - 1 ensures LinksBack(c, path, chain[i], chain[i + 1]) {
      LinksOnLongerPath(c, p, path, chain[i], chain[i + 1]);
    }
  }

  lemma ChainWithFirst(c: Circuit, pred: Value, path: Path, first: Link, chain: seq<Link>)
    requires IsChain(c, pred, path, chain) && IsLink(c, path, first) && LinksBack(c, path, first, chain[0])
    ensures IsChain(c, pred, path, [first] + chain)
  {
    var longer := [first] + chain;
    forall i | 0 <= i < |longer| - 1 ensures LinksBack(c, path, longer[i], longer[i + 1]) {
      if i > 0 {
        assert longer[i] == chain[i - 1] && longer[i + 1] == chain[i];
      }
    }
  }

  lemma ExtendChain(c: Circuit, pred: Value, v: Value, user: nat, path: Path, w: Value, p: Path)
    requires c.Valid() && c.IsUse(v, user) && path != [] && OriginOf(c, v, user, path) == At(p)
    requires c.IsUse(w, v.op) && HasChain(c, pred, w, v.op, p)
    ensures HasChain(c, pred, v, user, path)
  {
    var chain: seq<Link> :| IsChain(c, pred, p, chain) && chain[0] == Link(w, v.op, |p|);
    ChainOnLongerPath(c, pred, p, path, chain);
    assert p[|p| - 1] == path[|p| - 1];
    ChainWithFirst(c, pred, path, Link(v, user, |path|), chain);
    assert ([Link(v, user, |path|)] + chain)[0] == Link(v, user, |path|);
  }

  // ----- tokens -----

  /** How a token came to be: read by the predecessor, from an unknown place, from outside the path, computed from all
      inputs, steered by a conditional branch, or picked by a mux, select or merge, with the token that controlled the choice. */
  datatype Token =
    | Loaded
    | Unknown
    | Outside
    | Computed(inputs: seq<Token>)
    | Steered(inputs: seq<Token>)
    | Muxed(control: Token, input: Token)
    | Picked(control: Token, input: Token)

  predicate Depends(t: Token) {
    match t
    case Loaded => true
    case Unknown => false
    case Outside => false
    case Computed(inputs) => exists i | 0 <= i < |inputs| :: Depends(inputs[i])
    case Steered(inputs) => exists i | 0 <= i < |inputs| :: Depends(inputs[i])
    case Muxed(s, x) => Depends(s) || Depends(x)
    case Picked(s, x) => Depends(s) || Depends(x)
  }

  /** Made on the path. The token that controls a select counts if it is one the search asks for. */
  predicate OnPath(t: Token) {
    match t
    case Loaded => true
    case Unknown => true
    case Outside => false
    case Computed(inputs) => exists i | 0 <= i < |inputs| :: OnPath(inputs[i])
    case Steered(inputs) => exists i | 0 <= i < |inputs| :: OnPath(inputs[i])
    case Muxed(s, x) => OnPath(s) || OnPath(x)
    case Picked(s, x) => Asked(s) || OnPath(x)
  }

  /** What the search asks of a token: as dependence, but both inputs of a branch must have it as far as they are made on the
      path, and so must the control of a mux. */
  predicate Asked(t: Token) {
    match t
    case Loaded => true
    case Unknown => false
    case Outside => false
    case Computed(inputs) => exists i | 0 <= i < |inputs| :: Asked(inputs[i])
    case Steered(inputs) =>
      && (exists i | 0 <= i < |inputs| :: Asked(inputs[i]))
      && (forall i | 0 <= i < |inputs| && OnPath(inputs[i]) :: Asked(inputs[i]))
    case Muxed(s, x) => Asked(s) || (!OnPath(s) && Asked(x))
    case Picked(s, x) => Asked(s) || Asked(x)
  }

  /** The token can arrive on the use of `v` when control has followed the path. */
  ghost predicate Arrives(c: Circuit, pred: Value, v: Value, user: nat, path: Path, t: Token)
    requires c.Valid() && c.IsUse(v, user) && path != []
    decreases |path|, c.rank(user), 0
  {
    if v == pred then t == Loaded
    else
      match OriginOf(c, v, user, path)
      case Before => t == Unknown
      case Off => t == Outside
      case At(p) => Made(c, pred, v, p, t)
  }

  /** The token can be made by the operation that defines `v`. */
  ghost predicate Made(c: Circuit, pred: Value, v: Value, p: Path, t: Token)
    requires c.Valid() && v.Result? && c.Defined(v) && p != []
    decreases |p|, c.rank(v.op), 2
  {
    var vs := c.ops[v.op].operands;
    match c.ops[v.op].kind
    case Merge => t.Picked? && t.control == Outside && Chosen(c, pred, v.op, vs, p, t.input)
    case Mux => t.Muxed? && Arrives(c, pred, vs[0], v.op, p, t.control) && Chosen(c, pred, v.op, vs[1..], p, t.input)
    case Select => t.Picked? && Arrives(c, pred, vs[0], v.op, p, t.control) && Chosen(c, pred, v.op, vs[1..], p, t.input)
    case Load =>
      if v.idx != 1 then t == Unknown
      else t.Computed? && |t.inputs| == 1 && Arrives(c, pred, vs[0], v.op, p, t.inputs[0])
    case Unsupported => t == Unknown
    case ConditionalBranch =>
      t.Steered? && |t.inputs| == |vs| && forall i | 0 <= i < |vs| :: Arrives(c, pred, vs[i], v.op, p, t.inputs[i])
    case Join => t.Computed? && |t.inputs| == |vs| && forall i | 0 <= i < |vs| :: Arrives(c, pred, vs[i], v.op, p, t.inputs[i])
  }

  /** A token of one of the operands is picked, one from outside the path only if no operand is sure to get one made on it. */
  ghost predicate Chosen(c: Circuit, pred: Value, user: nat, vs: seq<Value>, p: Path, t: Token)
    requires c.Valid() && p != [] && forall v | v in vs :: c.IsUse(v, user)
    decreases |p|, c.rank(user), 1
  {
    && (exists i | 0 <= i < |vs| :: Arrives(c, pred, vs[i], user, p, t))
    && (OnPath(t) || forall i | 0 <= i < |vs| :: exists other :: Arrives(c, pred, vs[i], user, p, other) && !OnPath(other))
  }

  lemma {:induction false} AskedIsOnPath(t: Token)
    ensures Asked(t) ==> OnPath(t)
  {
    match t
    case Computed(inputs) =>
      if Asked(t) {
        var i :| 0 <= i < |inputs| && Asked(inputs[i]);
        AskedIsOnPath(inputs[i]);
      }
    case Steered(inputs) =>
      if Asked(t) {
        var i :| 0 <= i < |inputs| && Asked(inputs[i]);
        AskedIsOnPath(inputs[i]);
      }
    case Muxed(s, x) =>
      AskedIsOnPath(s);
      AskedIsOnPath(x);
    case Picked(s, x) => AskedIsOnPath(x);
    case _ =>
  }

  /** A token that is asked for was computed from the predecessor's. */
  lemma {:induction false} AskedDepends(t: Token)
    ensures Asked(t) ==> Depends(t)
  {
    match t
    case Computed(inputs) =>
      if Asked(t) {
        var i :| 0 <= i < |inputs| && Asked(inputs[i]);
        AskedDepends(inputs[i]);
      }
    case Steered(inputs) =>
      if Asked(t) {
        var i :| 0 <= i < |inputs| && Asked(inputs[i]);
        AskedDepends(inputs[i]);
      }
    case Muxed(s, x) =>
      AskedDepends(s);
      AskedDepends(x);
    case Picked(s, x) =>
      AskedDepends(s);
      AskedDepends(x);
    case _ =>
  }

  // ----- every use can receive a token -----

  lemma {:induction false} SomeArrives(c: Circuit, pred: Value, v: Value, user: nat, path: Path) returns (t: Token)
    requires c.Valid() && c.IsUse(v, user) && path != []
    ensures Arrives(c, pred, v, user, path, t)
    decreases |path|, c.rank(user), 0
  {
    if v == pred {
      t := Loaded;
    } else {
      match OriginOf(c, v, user, path)
      case Before => t := Unknown;
      case Off => t := Outside;
      case At(p) => t := SomeMade(c, pred, v, p);
    }
  }

  lemma {:induction false} SomeMade(c: Circuit, pred: Value, v: Value, p: Path) returns (t: Token)
    requires c.Valid() && v.Result? && c.Defined(v) && p != []
    ensures Made(c, pred, v, p, t)
    decreases |p|, c.rank(v.op), 2
  {
    var vs := c.ops[v.op].operands;
    match c.ops[v.op].kind
    case Merge =>
      var x := SomeChosen(c, pred, v.op, vs, p);
      t := Picked(Outside, x);
    case Mux =>
      var s := SomeArrives(c, pred, vs[0], v.op, p);
      var x := SomeChosen(c, pred, v.op, vs[1..], p);
      t := Muxed(s, x);
    case Select =>
      var s := SomeArrives(c, pred, vs[0], v.op, p);
      var x := SomeChosen(c, pred, v.op, vs[1..], p);
      t := Picked(s, x);
    case Load =>
      if v.idx != 1 {
        t := Unknown;
      } else {
        var a := SomeArrives(c, pred, vs[0], v.op, p);
        t := Computed([a]);
      }
    case Unsupported => t := Unknown;
    case ConditionalBranch =>
      var inputs := SomeInputs(c, pred, v.op, vs, p);
      t := Steered(inputs);
    case Join =>
      var inputs := SomeInputs(c, pred, v.op, vs, p);
      t := Computed(inputs);
  }

  lemma {:induction false} SomeInputs(c: Circuit, pred: Value, user: nat, vs: seq<Value>, p: Path) returns (inputs: seq<Token>)
    requires c.Valid() && p != [] && forall v | v in vs :: c.IsUse(v, user)
    ensures |inputs| == |vs| && forall i | 0 <= i < |vs| :: Arrives(c, pred, vs[i], user, p, inputs[i])
    decreases |p|, c.rank(user), 1, |vs|
  {
    inputs := [];
    if vs != [] {
      var first := SomeArrives(c, pred, vs[0], user, p);
      var rest := SomeInputs(c, pred, user, vs[1..], p);
      inputs := [first] + rest;
    }
  }

  lemma {:induction false} SomeChosen(c: Circuit, pred: Value, user: nat, vs: seq<Value>, p: Path) returns (t: Token)
    requires c.Valid() && p != [] && vs != [] && forall v | v in vs :: c.IsUse(v, user)
    ensures Chosen(c, pred, user, vs, p, t)
    decreases |p|, c.rank(user), 1
  {
    if i, x :| 0 <= i < |vs| && Arrives(c, pred, vs[i], user, p, x) && OnPath(x) {
      t := x;
    } else {
      forall i | 0 <= i < |vs| ensures exists other :: Arrives(c, pred, vs[i], user, p, other) && !OnPath(other) {
        var other := SomeArrives(c, pred, vs[i], user, p);
      }
      t :| Arrives(c, pred, vs[0], user, p, t) && !OnPath(t);
    }
  }

  // ----- what the answers say about tokens -----

  /** Success: every token that can arrive is asked for. Off-path failure: those made on the path are. */
  lemma {:induction false} SearchForces(c: Circuit, pred: Value, v: Value, user: nat, path: Path, t: Token)
    requires c.Valid() && c.IsUse(v, user) && path != [] && Arrives(c, pred, v, user, path, t)
    ensures StatusOf(c, pred, v, user, path) == Succeed ==> Asked(t)
    ensures StatusOf(c, pred, v, user, path) == FailOffPath && OnPath(t) ==> Asked(t)
    decreases |path|, c.rank(user), 0
  {
    if v != pred {
      match OriginOf(c, v, user, path)
      case Before =>
      case Off =>
      case At(p) => ResolveForces(c, pred, v, p, t);
    }
  }

  lemma {:induction false} ResolveForces(c: Circuit, pred: Value, v: Value, p: Path, t: Token)
    requires c.Valid() && v.Result? && c.Defined(v) && p != [] && Made(c, pred, v, p, t)
    ensures Resolve(c, pred, v, p) == Succeed ==> Asked(t)
    ensures Resolve(c, pred, v, p) == FailOffPath && OnPath(t) ==> Asked(t)
    decreases |p|, c.rank(v.op), 3
  {
    var vs := c.ops[v.op].operands;
    match c.ops[v.op].kind
    case Merge => ChosenForces(c, pred, v.op, vs, p, t.input);
    case Mux =>
      SearchForces(c, pred, vs[0], v.op, p, t.control);
      if StatusOf(c, pred, vs[0], v.op, p) != Succeed {
        AndOfAll(c, pred, v.op, vs, p);
      }
      ChosenForces(c, pred, v.op, vs[1..], p, t.input);
    case Select =>
      SearchForces(c, pred, vs[0], v.op, p, t.control);
      ChosenForces(c, pred, v.op, vs[1..], p, t.input);
    case Load =>
      if v.idx == 1 {
        SearchForces(c, pred, vs[0], v.op, p, t.inputs[0]);
      }
    case Unsupported =>
    case ConditionalBranch => InputsForced(c, pred, v.op, vs, p, t.inputs);
    case Join => InputsForced(c, pred, v.op, vs, p, t.inputs);
  }

  lemma {:induction false} InputsForced(c: Circuit, pred: Value, user: nat, vs: seq<Value>, p: Path, inputs: seq<Token>)
    requires c.Valid() && p != [] && forall v | v in vs :: c.IsUse(v, user)
    requires |inputs| == |vs| && forall i | 0 <= i < |vs| :: Arrives(c, pred, vs[i], user, p, inputs[i])
    ensures var ss := Statuses(c, pred, user, vs, p);
      && (Or(ss) == Succeed ==> Asked(Computed(inputs)))
      && (Or(ss) == FailOffPath && OnPath(Computed(inputs)) ==> Asked(Computed(inputs)))
      && (And(ss) == Succeed ==> Asked(Steered(inputs)))
      && (And(ss) == FailOffPath && OnPath(Steered(inputs)) ==> Asked(Steered(inputs)))
    decreases |p|, c.rank(user), 2
  {
    var ss := Statuses(c, pred, user, vs, p);
    forall i | 0 <= i < |vs|
      ensures (ss[i] == Succeed ==> Asked(inputs[i])) && (ss[i] == FailOffPath && OnPath(inputs[i]) ==> Asked(inputs[i]))
      ensures ss[i] in ss
    {
      SearchForces(c, pred, vs[i], user, p, inputs[i]);
    }
    if Succeed in ss {
      var i :| 0 <= i < |ss| && ss[i] == Succeed;
      assert Asked(inputs[i]);
    }
  }

  lemma {:induction false} ChosenForces(c: Circuit, pred: Value, user: nat, vs: seq<Value>, p: Path, t: Token)
    requires c.Valid() && p != [] && (forall v | v in vs :: c.IsUse(v, user)) && Chosen(c, pred, user, vs, p, t)
    ensures And(Statuses(c, pred, user, vs, p)) == Succeed ==> Asked(t)
    ensures And(Statuses(c, pred, user, vs, p)) == FailOffPath && OnPath(t) ==> Asked(t)
    decreases |p|, c.rank(user), 2
  {
    var ss := Statuses(c, pred, user, vs, p);
    var i :| 0 <= i < |vs| && Arrives(c, pred, vs[i], user, p, t);
    SearchForces(c, pred, vs[i], user, p, t);
    assert ss[i] in ss;
    if And(ss) == Succeed {
      var j :| 0 <= j < |ss| && ss[j] == Succeed;
      forall other | Arrives(c, pred, vs[j], user, p, other) ensures OnPath(other) {
        SearchForces(c, pred, vs[j], user, p, other);
        AskedIsOnPath(other);
      }
    }
  }

  /** Leaving out an operand that does not succeed: the rest decides unless it fails on the path. */
  lemma AndOfAll(c: Circuit, pred: Value, user: nat, vs: seq<Value>, p: Path)
    requires c.Valid() && p != [] && vs != [] && (forall v | v in vs :: c.IsUse(v, user))
    requires StatusOf(c, pred, vs[0], user, p) != Succeed
    ensures And(Statuses(c, pred, user, vs, p)) ==
            if StatusOf(c, pred, vs[0], user, p) == FailOnPath then FailOnPath else And(Statuses(c, pred, user, vs[1..], p))
  {
    var ss, rest := Statuses(c, pred, user, vs, p), Statuses(c, pred, user, vs[1..], p);
    assert ss == [ss[0]] + rest;
  }

  /** A token that arrives, is not asked for, and was made on the path if the search says so. */
  ghost predicate Refutes(c: Circuit, pred: Value, v: Value, user: nat, p: Path, t: Token)
    requires c.Valid() && c.IsUse(v, user) && p != []
  {
    Arrives(c, pred, v, user, p, t) && !Asked(t) && (StatusOf(c, pred, v, user, p) == FailOnPath ==> OnPath(t))
  }

  /** Failure is justified by a token that is not asked for. */
  lemma {:induction false} SearchRefuted(c: Circuit, pred: Value, v: Value, user: nat, path: Path) returns (t: Token)
    requires c.Valid() && c.IsUse(v, user) && path != [] && StatusOf(c, pred, v, user, path) != Succeed
    ensures Refutes(c, pred, v, user, path, t)
    decreases |path|, c.rank(user), 0
  {
    match OriginOf(c, v, user, path)
    case Before => t := Unknown;
    case Off => t := Outside;
    case At(p) => t := ResolveRefuted(c, pred, v, p);
  }

  lemma {:induction false} ResolveRefuted(c: Circuit, pred: Value, v: Value, p: Path) returns (t: Token)
    requires c.Valid() && v.Result? && c.Defined(v) && p != [] && Resolve(c, pred, v, p) != Succeed
    ensures Made(c, pred, v, p, t) && !Asked(t)
    ensures Resolve(c, pred, v, p) == FailOnPath ==> OnPath(t)
    decreases |p|, c.rank(v.op), 3
  {
    var vs := c.ops[v.op].operands;
    match c.ops[v.op].kind
    case Merge =>
      var x := ChosenRefuted(c, pred, v.op, vs, p);
      t := Picked(Outside, x);
    case Mux =>
      var s := SearchRefuted(c, pred, vs[0], v.op, p);
      AndOfAll(c, pred, v.op, vs, p);
      var x;
      if StatusOf(c, pred, vs[0], v.op, p) == FailOnPath {
        x := SomeChosen(c, pred, v.op, vs[1..], p);
      } else {
        x := ChosenRefuted(c, pred, v.op, vs[1..], p);
      }
      t := Muxed(s, x);
    case Select =>
      var s := SearchRefuted(c, pred, vs[0], v.op, p);
      var x := ChosenRefuted(c, pred, v.op, vs[1..], p);
      t := Picked(s, x);
    case Load =>
      if v.idx != 1 {
        t := Unknown;
      } else {
        var a := SearchRefuted(c, pred, vs[0], v.op, p);
        t := Computed([a]);
      }
    case Unsupported => t := Unknown;
    case ConditionalBranch =>
      var inputs := InputsRefuted(c, pred, v.op, vs, p);
      SteeredRefuted(Statuses(c, pred, v.op, vs, p), inputs);
      t := Steered(inputs);
    case Join =>
      var inputs := InputsRefuted(c, pred, v.op, vs, p);
      ComputedRefuted(Statuses(c, pred, v.op, vs, p), inputs);
      t := Computed(inputs);
  }

  /** Each input whose operand fails is not asked for, and made on the path if its operand fails there. */
  predicate Refuted(ss: seq<Status>, inputs: seq<Token>) {
    && |ss| == |inputs|
    && forall i | 0 <= i < |ss| && ss[i] != Succeed :: !Asked(inputs[i]) && (ss[i] == FailOnPath ==> OnPath(inputs[i]))
  }

  lemma ComputedRefuted(ss: seq<Status>, inputs: seq<Token>)
    requires Refuted(ss, inputs) && Or(ss) != Succeed
    ensures !Asked(Computed(inputs)) && (Or(ss) == FailOnPath ==> OnPath(Computed(inputs)))
  {
    forall i | 0 <= i < |ss| ensures ss[i] != Succeed {
      assert ss[i] in ss;
    }
    if FailOnPath in ss {
      var i :| 0 <= i < |ss| && ss[i] == FailOnPath;
      assert OnPath(inputs[i]);
    }
  }

  lemma SteeredRefuted(ss: seq<Status>, inputs: seq<Token>)
    requires Refuted(ss, inputs) && And(ss) != Succeed
    ensures !Asked(Steered(inputs)) && (And(ss) == FailOnPath ==> OnPath(Steered(inputs)))
  {
    if FailOnPath in ss {
      var i :| 0 <= i < |ss| && ss[i] == FailOnPath;
      assert OnPath(inputs[i]) && !Asked(inputs[i]);
    } else {
      forall i | 0 <= i < |ss| ensures ss[i] != Succeed {
        assert ss[i] in ss;
      }
    }
  }

  /** A token that arrives, and refutes the operand if it does not succeed. */
  ghost predicate Witnesses(c: Circuit, pred: Value, v: Value, user: nat, p: Path, t: Token)
    requires c.Valid() && c.IsUse(v, user) && p != []
  {
    Arrives(c, pred, v, user, p, t) && (StatusOf(c, pred, v, user, p) != Succeed ==> Refutes(c, pred, v, user, p, t))
  }

  lemma {:induction false} InputsRefuted(c: Circuit, pred: Value, user: nat, vs: seq<Value>, p: Path) returns (inputs: seq<Token>)
    requires c.Valid() && p != [] && forall v | v in vs :: c.IsUse(v, user)
    ensures |inputs| == |vs| && forall i | 0 <= i < |vs| :: Arrives(c, pred, vs[i], user, p, inputs[i])
    ensures Refuted(Statuses(c, pred, user, vs, p), inputs)
    decreases |p|, c.rank(user), 1
  {
    forall i | 0 <= i < |vs| ensures exists t :: Witnesses(c, pred, vs[i], user, p, t) {
      var t;
      if StatusOf(c, pred, vs[i], user, p) == Succeed {
        t := SomeArrives(c, pred, vs[i], user, p);
      } else {
        t := SearchRefuted(c, pred, vs[i], user, p);
      }
      assert Witnesses(c, pred, vs[i], user, p, t);
    }
    inputs := seq(|vs|, i requires 0 <= i < |vs| => var t :| Witnesses(c, pred, vs[i], user, p, t); t);
    assert forall i | 0 <= i < |vs| :: Witnesses(c, pred, vs[i], user, p, inputs[i]);
  }

  lemma {:induction false} ChosenRefuted(c: Circuit, pred: Value, user: nat, vs: seq<Value>, p: Path) returns (t: Token)
    requires c.Valid() && p != [] && vs != [] && (forall v | v in vs :: c.IsUse(v, user))
    requires And(Statuses(c, pred, user, vs, p)) != Succeed
    ensures Chosen(c, pred, user, vs, p, t) && !Asked(t)
    ensures And(Statuses(c, pred, user, vs, p)) == FailOnPath ==> OnPath(t)
    decreases |p|, c.rank(user), 2
  {
    var ss := Statuses(c, pred, user, vs, p);
    if i :| 0 <= i < |ss| && ss[i] == FailOnPath {
      t := SearchRefuted(c, pred, vs[i], user, p);
    } else {
      forall i | 0 <= i < |vs|
        ensures exists other :: Arrives(c, pred, vs[i], user, p, other) && !OnPath(other) && !Asked(other)
      {
        assert ss[i] in ss;
        var other := SearchRefuted(c, pred, vs[i], user, p);
        SearchForces(c, pred, vs[i], user, p, other);
      }
      t :| Arrives(c, pred, vs[0], user, p, t) && !OnPath(t) && !Asked(t);
    }
  }

  /** Where control was on the path when the token was made that a use at its end consumes: at the latest visit of the defining
      block, or if the use is a backedge, one block before the end. */
  predicate MadeAt(c: Circuit, v: Value, user: nat, path: Path, p: Path)
    requires c.Defined(v)
  {
    && v.Result? && p != [] && p <= path && c.ops[v.op].block == Some(p[|p| - 1])
    && if c.backedge(v, user) then |p| + 1 == |path| else p[|p| - 1] !in path[|p|..]
  }

  /** One step of the search along the path, told by visits of blocks only. */
  lemma OriginExactly(c: Circuit, v: Value, user: nat, path: Path, p: Path)
    requires c.Defined(v) && path != []
    ensures OriginOf(c, v, user, path) == At(p) <==> MadeAt(c, v, user, path, p)
    ensures OriginOf(c, v, user, path) == Off <==>
            |path| > 1 && v.Result? && c.ops[v.op].block.Some? && forall q :: !MadeAt(c, v, user, path, q)
  {
    if v.Result? && c.ops[v.op].block.Some? {
      var b := c.ops[v.op].block.value;
      forall q ensures MadeAt(c, v, user, path, q) <==> OriginOf(c, v, user, path) == At(q) {
        if MadeAt(c, v, user, path, q) && !c.backedge(v, user) {
          assert b in path by { assert path[|q| - 1] == b; }
          LatestIsOne(path, q, UpTo(path, b).value, b);
        } else if MadeAt(c, v, user, path, q) {
          assert q == path[..|path| - 1];
        }
      }
    }
  }

  /** The latest visit is unique. */
  lemma LatestIsOne(path: Path, p: Path, q: Path, b: nat)
    requires p != [] && q != [] && p <= path && q <= path && p[|p| - 1] == b == q[|q| - 1]
    requires b !in path[|p|..] && b !in path[|q|..]
    ensures p == q
  {
    assert path[|p| - 1] == b == path[|q| - 1];
    forall i | |p| <= i < |path| ensures path[i] != b {
      assert path[i] == path[|p|..][i - |p|];
    }
    forall i | |q| <= i < |path| ensures path[i] != b {
      assert path[i] == path[|q|..][i - |q|];
    }
  }

  /** In every circuit, the search succeeds exactly when it asks for every token that can arrive, and fails on the path exactly
      when it does not ask for one made there. */
  lemma SearchExact(c: Circuit, pred: Value, v: Value, user: nat, path: Path)
    requires c.Valid() && c.IsUse(v, user) && path != []
    ensures StatusOf(c, pred, v, user, path) == Succeed <==> forall t | Arrives(c, pred, v, user, path, t) :: Asked(t)
    ensures StatusOf(c, pred, v, user, path) == FailOnPath <==> exists t | Arrives(c, pred, v, user, path, t) :: OnPath(t) && !Asked(t)
  {
    forall t | Arrives(c, pred, v, user, path, t)
      ensures StatusOf(c, pred, v, user, path) == Succeed ==> Asked(t)
      ensures StatusOf(c, pred, v, user, path) == FailOffPath && OnPath(t) ==> Asked(t)
    {
      SearchForces(c, pred, v, user, path, t);
    }
    if StatusOf(c, pred, v, user, path) != Succeed {
      var t := SearchRefuted(c, pred, v, user, path);
      assert Arrives(c, pred, v, user, path, t) && !Asked(t);
      assert StatusOf(c, pred, v, user, path) == FailOnPath ==> OnPath(t);
    }
  }

  /** Every token that can arrive is asked to depend on the predecessor. */
  ghost predicate AsksAll(c: Circuit, pred: Value, v: Value, user: nat, path: Path)
    requires c.Valid() && c.IsUse(v, user) && path != []
  {
    forall t | Arrives(c, pred, v, user, path, t) :: Asked(t)
  }

  lemma AsksAllExactly(c: Circuit, pred: Value, v: Value, user: nat, path: Path)
    requires c.Valid() && c.IsUse(v, user) && path != []
    ensures StatusOf(c, pred, v, user, path) == Succeed <==> AsksAll(c, pred, v, user, path)
  {
    if StatusOf(c, pred, v, user, path) == Succeed {
      forall t | Arrives(c, pred, v, user, path, t) ensures Asked(t) {
        SearchForces(c, pred, v, user, path, t);
      }
    } else {
      var t := SearchRefuted(c, pred, v, user, path);
      assert Arrives(c, pred, v, user, path, t) && !Asked(t);
    }
  }

  /** Success: every token that can arrive was computed from the predecessor's. */
  lemma SearchSound(c: Circuit, pred: Value, v: Value, user: nat, path: Path, t: Token)
    requires c.Valid() && c.IsUse(v, user) && path != [] && Arrives(c, pred, v, user, path, t)
    requires StatusOf(c, pred, v, user, path) == Succeed
    ensures Depends(t)
  {
    SearchForces(c, pred, v, user, path, t);
    AskedDepends(t);
  }

  // ----- where more is asked than dependence -----

  /** Neither conditional branches nor muxes. */
  predicate Plain(c: Circuit) {
    forall o | 0 <= o < |c.ops| :: !c.ops[o].kind.ConditionalBranch? && !c.ops[o].kind.Mux?
  }

  lemma {:induction false} PlainAsks(c: Circuit, pred: Value, v: Value, user: nat, path: Path, t: Token)
    requires c.Valid() && Plain(c) && c.IsUse(v, user) && path != [] && Arrives(c, pred, v, user, path, t)
    ensures Asked(t) <==> Depends(t)
    decreases |path|, c.rank(user), 0
  {
    if v != pred {
      match OriginOf(c, v, user, path)
      case Before =>
      case Off =>
      case At(p) => PlainMadeAsks(c, pred, v, p, t);
    }
  }

  lemma {:induction false} PlainMadeAsks(c: Circuit, pred: Value, v: Value, p: Path, t: Token)
    requires c.Valid() && Plain(c) && v.Result? && c.Defined(v) && p != [] && Made(c, pred, v, p, t)
    ensures Asked(t) <==> Depends(t)
    decreases |p|, c.rank(v.op), 2
  {
    var vs := c.ops[v.op].operands;
    match c.ops[v.op].kind
    case Merge => PlainChosenAsks(c, pred, v.op, vs, p, t.input);
    case Select =>
      PlainAsks(c, pred, vs[0], v.op, p, t.control);
      PlainChosenAsks(c, pred, v.op, vs[1..], p, t.input);
    case Load =>
      if v.idx == 1 {
        PlainAsks(c, pred, vs[0], v.op, p, t.inputs[0]);
      }
    case Join =>
      forall i | 0 <= i < |vs| ensures Asked(t.inputs[i]) <==> Depends(t.inputs[i]) {
        PlainAsks(c, pred, vs[i], v.op, p, t.inputs[i]);
      }
    case Unsupported =>
  }

  lemma {:induction false} PlainChosenAsks(c: Circuit, pred: Value, user: nat, vs: seq<Value>, p: Path, t: Token)
    requires c.Valid() && Plain(c) && p != [] && (forall v | v in vs :: c.IsUse(v, user)) && Chosen(c, pred, user, vs, p, t)
    ensures Asked(t) <==> Depends(t)
    decreases |p|, c.rank(user), 1
  {
    var i :| 0 <= i < |vs| && Arrives(c, pred, vs[i], user, p, t);
    PlainAsks(c, pred, vs[i], user, p, t);
  }

  /** Without conditional branches and muxes the search succeeds exactly when every token that can arrive depends on the
      predecessor. */
  lemma PlainSearchExact(c: Circuit, pred: Value, v: Value, user: nat, path: Path)
    requires c.Valid() && Plain(c) && c.IsUse(v, user) && path != []
    ensures StatusOf(c, pred, v, user, path) == Succeed <==> forall t | Arrives(c, pred, v, user, path, t) :: Depends(t)
  {
    SearchExact(c, pred, v, user, path);
    forall t | Arrives(c, pred, v, user, path, t) ensures Asked(t) <==> Depends(t) {
      PlainAsks(c, pred, v, user, path, t);
    }
  }

  /** A load, a branch that steers the loaded data by a function argument, and a user of the data, in one block. */
  function SteeredLoad(): Circuit {
    Circuit(
      [Op(Load, [Argument(1)], Some(0)),
       Op(ConditionalBranch, [Argument(0), Result(0, 1)], Some(0)),
       Op(Unsupported, [Result(1, 0)], Some(0))],
      (v, o) => false,
      (o: nat) => o)
  }

  /** With conditional branches the search can fail although every token depends on the load: both the data and the condition
      are asked to depend on it, where one is enough. */
  lemma BranchIsConservative()
    ensures var c, pred, v := SteeredLoad(), Result(0, 1), Result(1, 0);
            && c.Valid() && c.IsUse(v, 2)
            && StatusOf(c, pred, v, 2, [0]) == FailOnPath
            && forall t | Arrives(c, pred, v, 2, [0], t) :: Depends(t)
  {
    var c, pred, v := SteeredLoad(), Result(0, 1), Result(1, 0);
    var vs := c.ops[1].operands;
    assert UpTo([0], 0) == Some([0]);
    assert OriginOf(c, v, 2, [0]) == At([0]);
    var ss := Statuses(c, pred, 1, vs, [0]);
    assert ss[0] == FailOnPath;
    forall t | Arrives(c, pred, v, 2, [0], t) ensures Depends(t) {
      assert Made(c, pred, v, [0], t);
      assert Arrives(c, pred, vs[1], 1, [0], t.inputs[1]);
      assert Depends(t.inputs[1]);
    }
  }

  /** A load, a mux with the loaded data as its one input and a function argument as select, and a user, in one block. */
  function MuxedLoad(): Circuit {
    Circuit(
      [Op(Load, [Argument(1)], Some(0)),
       Op(Mux, [Argument(0), Result(0, 1)], Some(0)),
       Op(Unsupported, [Result(1, 0)], Some(0))],
      (v, o) => false,
      (o: nat) => o)
  }

  /** Likewise with muxes: the fold over the operands includes the select. */
  lemma MuxIsConservative()
    ensures var c, pred, v := MuxedLoad(), Result(0, 1), Result(1, 0);
            && c.Valid() && c.IsUse(v, 2)
            && StatusOf(c, pred, v, 2, [0]) == FailOnPath
            && forall t | Arrives(c, pred, v, 2, [0], t) :: Depends(t)
  {
    var c, pred, v := MuxedLoad(), Result(0, 1), Result(1, 0);
    var vs := c.ops[1].operands;
    assert UpTo([0], 0) == Some([0]);
    assert OriginOf(c, v, 2, [0]) == At([0]);
    var ss := Statuses(c, pred, 1, vs, [0]);
    assert ss[0] == FailOnPath && vs[0] == Argument(0);
    assert StatusOf(c, pred, vs[0], 1, [0]) == FailOnPath;
    forall t | Arrives(c, pred, v, 2, [0], t) ensures Depends(t) {
      assert Made(c, pred, v, [0], t);
      assert vs[1..] == [Result(0, 1)];
      assert t.input == Loaded;
    }
  }
}
