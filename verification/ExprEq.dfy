/** Structural equality up to rearrangement: `expr_eq` and `expr_eliminate_eq`. */
module ExprEq {
  import opened Expr

  /** `__expr_eliminate_eq`: cancels every operand of e1 against an equal operand of e2. */
  function Cancel(op: Op, e1: Expr, e2: Expr): (r: (Expr, Expr))
    ensures Size(r.0) <= Size(e1) && Size(r.1) <= Size(e2)
    decreases Size(e1) + Size(e2), if IsOp(e1, op) || IsOp(e2, op) then 0 else 3
  {
    if IsOp(e1, op) then
      var a := Cancel(op, e1.l, e2);
      var b := Cancel(op, e1.r, a.1);
      (Bin(op, a.0, b.0), b.1)
    else if IsOp(e2, op) then
      var a := Cancel(op, e1, e2.l);
      var b := Cancel(op, a.0, e2.r);
      (b.0, Bin(op, a.1, b.1))
    else if IsYn(e1) && e1 == e2 then (e1, e2)
    else if !Eq(e1, e2) then (e1, e2)
    else (Leaf(Neutral(op)), Leaf(Neutral(op)))
  }

  /** `expr_eliminate_eq`: one pass for the kind of e1, one for the kind of e2 when it differs. */
  function EliminateEq(e1: Expr, e2: Expr): (r: (Expr, Expr))
    ensures Size(r.0) <= Size(e1) && Size(r.1) <= Size(e2)
    decreases Size(e1) + Size(e2), 1
  {
    var p := if e1.Bin? then Cancel(e1.op, e1, e2) else (e1, e2);
    var q := if p.1.Bin? && !IsOp(p.0, p.1.op) then Cancel(p.1.op, p.0, p.1) else p;
    (EliminateYn(q.0), EliminateYn(q.1))
  }

  /** `expr_eq`. The original works on copies and restores the change counter. */
  predicate Eq(e1: Expr, e2: Expr)
    decreases Size(e1) + Size(e2), 2
  {
    match (e1, e2)
    case (Equal(a, b), Equal(c, d)) => a == c && b == d
    case (Unequal(a, b), Unequal(c, d)) => a == c && b == d
    case (Leaf(a), Leaf(b)) => a == b
    case (Not(a), Not(b)) => Eq(a, b)
    case (Bin(op, _, _), Bin(op', _, _)) =>
      op == op' &&
      var r := EliminateEq(e1, e2);
      r.0.Leaf? && r.1.Leaf? && r.0.sym == r.1.sym
    case _ => false
  }

  /** e is the common part c joined with what is left of it. */
  ghost predicate Splits(op: Op, e: Expr, c: Tri, rest: Expr, env: Env) {
    Val(e, env) == Apply(op, c, Val(rest, env))
  }

  lemma SplitBoth(op: Op, a: Tri, b: Tri, c: Tri, d: Tri)
    ensures Apply(op, Apply(op, c, a), Apply(op, d, b)) == Apply(op, Apply(op, c, d), Apply(op, a, b))
    ensures Apply(op, c, Apply(op, d, a)) == Apply(op, Apply(op, c, d), a)
  {}

  /** The same value c went out of both sides of x, leaving r. */
  ghost predicate Took(op: Op, c: Tri, x: (Expr, Expr), r: (Expr, Expr), env: Env) {
    Splits(op, x.0, c, r.0, env) && Splits(op, x.1, c, r.1, env)
  }

  lemma TookTwice(op: Op, e1: Expr, e2: Expr, a: (Expr, Expr), b: (Expr, Expr), c: Tri, d: Tri, env: Env)
    requires IsOp(e1, op)
    requires Took(op, c, (e1.l, e2), a, env) && Took(op, d, (e1.r, a.1), b, env)
    ensures Took(op, Apply(op, c, d), (e1, e2), (Bin(op, a.0, b.0), b.1), env)
  {
    SplitBoth(op, Val(a.0, env), Val(b.0, env), c, d);
    SplitBoth(op, Val(b.1, env), 0, c, d);
  }

  /** Cancellation takes the same value out of both sides. */
  lemma {:induction false} CancelSound(op: Op, e1: Expr, e2: Expr, env: Env)
    requires BuiltIns(env)
    ensures exists c: Tri :: Took(op, c, (e1, e2), Cancel(op, e1, e2), env)
    decreases Size(e1) + Size(e2), if IsOp(e1, op) || IsOp(e2, op) then 0 else 3
  {
    var r := Cancel(op, e1, e2);
    if IsOp(e1, op) {
      var a := Cancel(op, e1.l, e2);
      var b := Cancel(op, e1.r, a.1);
      CancelSound(op, e1.l, e2, env);
      CancelSound(op, e1.r, a.1, env);
      var c: Tri :| Took(op, c, (e1.l, e2), a, env);
      var d: Tri :| Took(op, d, (e1.r, a.1), b, env);
      TookTwice(op, e1, e2, a, b, c, d, env);
      assert Took(op, Apply(op, c, d), (e1, e2), r, env);
    } else if IsOp(e2, op) {
      var a := Cancel(op, e1, e2.l);
      var b := Cancel(op, a.0, e2.r);
      CancelSound(op, e1, e2.l, env);
      CancelSound(op, a.0, e2.r, env);
      var c: Tri :| Took(op, c, (e1, e2.l), a, env);
      var d: Tri :| Took(op, d, (a.0, e2.r), b, env);
      TookTwice(op, e2, e1, (a.1, a.0), (b.1, b.0), c, d, env);
      assert Took(op, Apply(op, c, d), (e1, e2), r, env);
    } else {
      if Eq(e1, e2) { EqSound(e1, e2, env); }
      CancelPairSound(op, e1, e2, env);
    }
  }

  lemma CancelPairSound(op: Op, e1: Expr, e2: Expr, env: Env)
    requires BuiltIns(env) && !IsOp(e1, op) && !IsOp(e2, op)
    requires Eq(e1, e2) ==> Val(e1, env) == Val(e2, env)
    ensures exists c: Tri :: Took(op, c, (e1, e2), Cancel(op, e1, e2), env)
  {
    var c := if Cancel(op, e1, e2) == (e1, e2) then env.tri(Neutral(op)) else Val(e1, env);
    assert Took(op, c, (e1, e2), Cancel(op, e1, e2), env);
  }

  /** Whatever order holds between the two results held between the two arguments. */
  lemma {:induction false} EliminateEqReflectsOrder(e1: Expr, e2: Expr, env: Env)
    requires BuiltIns(env)
    ensures var r := EliminateEq(e1, e2);
            && (Val(r.0, env) <= Val(r.1, env) ==> Val(e1, env) <= Val(e2, env))
            && (Val(r.1, env) <= Val(r.0, env) ==> Val(e2, env) <= Val(e1, env))
    decreases Size(e1) + Size(e2), 1
  {
    var p := if e1.Bin? then Cancel(e1.op, e1, e2) else (e1, e2);
    if e1.Bin? {
      CancelSound(e1.op, e1, e2, env);
    }
    var q := p;
    if p.1.Bin? && !IsOp(p.0, p.1.op) {
      q := Cancel(p.1.op, p.0, p.1);
      CancelSound(p.1.op, p.0, p.1, env);
    }
    EliminateYnExact(q.0, env);
    EliminateYnExact(q.1, env);
  }

  /** `expr_eq` is sound: equal expressions have equal values under every assignment. */
  lemma {:induction false} EqSound(e1: Expr, e2: Expr, env: Env)
    requires BuiltIns(env)
    requires Eq(e1, e2)
    ensures Val(e1, env) == Val(e2, env)
    decreases Size(e1) + Size(e2), 2
  {
    match (e1, e2)
    case (Not(a), Not(b)) => EqSound(a, b, env);
    case (Bin(_, _, _), Bin(_, _, _)) => EliminateEqReflectsOrder(e1, e2, env);
    case _ =>
  }

  /** The submenu test: when cancellation reduces e2 to y, e1 never exceeds e2. */
  lemma EliminateEqImplication(e1: Expr, e2: Expr, env: Env)
    requires BuiltIns(env)
    requires EliminateEq(e1, e2).1 == Leaf(Yes)
    ensures Val(e1, env) <= Val(e2, env)
  {
    EliminateEqReflectsOrder(e1, e2, env);
  }

  /** No operand of e1 is equal to an operand of e2, the neutral symbol aside
      (and, for cancellation, the other of y and n too). */
  predicate NothingCommon(op: Op, yn: bool, e1: Expr, e2: Expr)
    decreases Size(e1) + Size(e2)
  {
    if IsOp(e1, op) then NothingCommon(op, yn, e1.l, e2) && NothingCommon(op, yn, e1.r, e2)
    else if IsOp(e2, op) then NothingCommon(op, yn, e1, e2.l) && NothingCommon(op, yn, e1, e2.r)
    else Eq(e1, e2) ==> e1 == Leaf(Neutral(op)) || (yn && IsYn(e1))
  }

  /** e' is e with some operands replaced by the neutral symbol. */
  predicate Thinned(op: Op, e: Expr, e': Expr) {
    if IsOp(e, op) then IsOp(e', op) && Thinned(op, e.l, e'.l) && Thinned(op, e.r, e'.r)
    else e' == e || e' == Leaf(Neutral(op))
  }

  lemma {:induction false} ThinnedTransitive(op: Op, e: Expr, e': Expr, e'': Expr)
    requires Thinned(op, e, e') && Thinned(op, e', e'')
    ensures Thinned(op, e, e'')
  {
    if IsOp(e, op) {
      ThinnedTransitive(op, e.l, e'.l, e''.l);
      ThinnedTransitive(op, e.r, e'.r, e''.r);
    }
  }

  lemma {:induction false} ThinnedSelf(op: Op, e: Expr)
    ensures Thinned(op, e, e)
  {
    if IsOp(e, op) { ThinnedSelf(op, e.l); ThinnedSelf(op, e.r); }
  }

  lemma {:induction false} NeutralHasNothingCommon(op: Op, yn: bool, e: Expr)
    ensures NothingCommon(op, yn, Leaf(Neutral(op)), e)
  {
    if IsOp(e, op) { NeutralHasNothingCommon(op, yn, e.l); NeutralHasNothingCommon(op, yn, e.r); }
  }

  lemma {:induction false} ThinningKeepsNothingCommon(op: Op, yn: bool, e1: Expr, e2: Expr, e1': Expr, e2': Expr)
    requires NothingCommon(op, yn, e1, e2) && Thinned(op, e1, e1') && Thinned(op, e2, e2')
    ensures NothingCommon(op, yn, e1', e2')
    decreases Size(e1) + Size(e2)
  {
    if IsOp(e1, op) {
      ThinningKeepsNothingCommon(op, yn, e1.l, e2, e1'.l, e2');
      ThinningKeepsNothingCommon(op, yn, e1.r, e2, e1'.r, e2');
    } else if IsOp(e2, op) {
      if e1' == e1 {
        ThinningKeepsNothingCommon(op, yn, e1, e2.l, e1', e2'.l);
        ThinningKeepsNothingCommon(op, yn, e1, e2.r, e1', e2'.r);
      } else {
        NeutralHasNothingCommon(op, yn, e2');
      }
    }
  }

  lemma ThoroughTwice(op: Op, yn: bool, e1: Expr, e2: Expr, a: (Expr, Expr), b: (Expr, Expr))
    requires IsOp(e1, op)
    requires NothingCommon(op, yn, a.0, a.1) && Thinned(op, e1.l, a.0) && Thinned(op, e2, a.1)
    requires NothingCommon(op, yn, b.0, b.1) && Thinned(op, e1.r, b.0) && Thinned(op, a.1, b.1)
    ensures NothingCommon(op, yn, Bin(op, a.0, b.0), b.1)
    ensures Thinned(op, e1, Bin(op, a.0, b.0)) && Thinned(op, e2, b.1)
  {
    ThinnedTransitive(op, e2, a.1, b.1);
    ThinnedSelf(op, a.0);
    ThinningKeepsNothingCommon(op, yn, a.0, a.1, a.0, b.1);
  }

  lemma ThoroughRight(op: Op, yn: bool, e1: Expr, e2: Expr, a: (Expr, Expr), b: (Expr, Expr))
    requires !IsOp(e1, op) && IsOp(e2, op)
    requires NothingCommon(op, yn, a.0, a.1) && Thinned(op, e1, a.0) && Thinned(op, e2.l, a.1)
    requires NothingCommon(op, yn, b.0, b.1) && Thinned(op, a.0, b.0) && Thinned(op, e2.r, b.1)
    ensures NothingCommon(op, yn, b.0, Bin(op, a.1, b.1))
    ensures Thinned(op, e1, b.0) && Thinned(op, e2, Bin(op, a.1, b.1))
  {
    ThinnedTransitive(op, e1, a.0, b.0);
    ThinnedSelf(op, a.1);
    ThinningKeepsNothingCommon(op, yn, a.0, a.1, b.0, a.1);
    assert !IsOp(b.0, op);
  }

  /** Cancellation is thorough: it only replaces operands by the neutral symbol, and afterwards
      no operand of one side is equal to an operand of the other. */
  lemma {:induction false} CancelThorough(op: Op, e1: Expr, e2: Expr)
    ensures var r := Cancel(op, e1, e2);
            && NothingCommon(op, true, r.0, r.1)
            && Thinned(op, e1, r.0) && Thinned(op, e2, r.1)
    decreases Size(e1) + Size(e2)
  {
    if IsOp(e1, op) {
      var a := Cancel(op, e1.l, e2);
      var b := Cancel(op, e1.r, a.1);
      CancelThorough(op, e1.l, e2);
      CancelThorough(op, e1.r, a.1);
      ThoroughTwice(op, true, e1, e2, a, b);
    } else if IsOp(e2, op) {
      var a := Cancel(op, e1, e2.l);
      var b := Cancel(op, a.0, e2.r);
      CancelThorough(op, e1, e2.l);
      CancelThorough(op, a.0, e2.r);
      ThoroughRight(op, true, e1, e2, a, b);
    }
  }
}
