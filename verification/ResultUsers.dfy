/** How many bits of a result its users need, and why the backward pass may drop the others. */
module ResultUsers {
  import opened Basics
  import opened Words
  import opened Transfer
  import opened Expressions
  import opened RewriteSound

  datatype User = SinkUser | TruncUser(width: nat) | OtherUser

  /** `w` is what the users need of a result of width `full`: all of it if some user is neither a sink nor a truncation,
      otherwise the widest truncation, and never less than one bit. */
  predicate IsUseful(users: seq<User>, full: nat, w: nat) {
    if OtherUser in users then w == full
    else
      && w >= 1
      && (forall i | 0 <= i < |users| && users[i].TruncUser? :: users[i].width <= w)
      && (w == 1 || exists i | 0 <= i < |users| :: users[i] == TruncUser(w))
  }

  method GetUsefulResultWidth(users: seq<User>, full: nat) returns (w: nat)
    ensures IsUseful(users, full, w)
  {
    var maxWidth: nat := 0;
    for i := 0 to |users|
      invariant OtherUser !in users[..i]
      invariant forall j | 0 <= j < i && users[j].TruncUser? :: users[j].width <= maxWidth
      invariant maxWidth == 0 || exists j | 0 <= j < i :: users[j] == TruncUser(maxWidth)
    {
      match users[i]
      case SinkUser =>
      case OtherUser => return full;
      case TruncUser(width) => maxWidth := Max(maxWidth, width);
    }
    w := Max(maxWidth, 1);
  }

  /** Recomputing an operation for its users leaves every truncation among them with the bits it had; any other user
      keeps the operation from being narrowed, unless the rewrite is exact. */
  lemma BackwardInvisible(e: Expr, users: seq<User>, w: nat, i: nat, env: Env)
    requires WellTyped(e) && IsUseful(users, Width(e), w) && BackwardPattern(e, w).Some? && Defined(e, env)
    requires i < |users|
    ensures var f := BackwardPattern(e, w).value;
      && WellTyped(f)
      && match users[i]
         case SinkUser => true
         case TruncUser(t) => Wrap(Eval(f, env), t) == Wrap(Eval(e, env), t)
         case OtherUser => Eval(f, env) == Eval(e, env)
  {
    BackwardPatternOk(e, w, env);
    var f := BackwardPattern(e, w).value;
    match users[i] {
      case SinkUser =>
      case TruncUser(t) =>
        if OtherUser in users {
          WrapSmall(Eval(e, env), w);
          WrapSmall(Eval(f, env), w);
        } else {
          WrapWrap(Eval(e, env), t, w);
          WrapWrap(Eval(f, env), t, w);
        }
      case OtherUser =>
        WrapSmall(Eval(e, env), w);
        WrapSmall(Eval(f, env), w);
    }
  }
}
