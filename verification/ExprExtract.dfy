/** Factoring out common operands: `expr_extract_eq` and its AND and OR front ends. */
module ExprExtract {
  import opened Expr
  import opened ExprEq

  /** The operands moved out so far, and what is left of the two expressions. */
  datatype Extraction = Extraction(common: Option<Expr>, e1: Expr, e2: Expr)

  function ExtractEq(op: Op, common: Option<Expr>, e1: Expr, e2: Expr): (r: Extraction)
    ensures Size(r.e1) <= Size(e1) && Size(r.e2) <= Size(e2)
    decreases Size(e1) + Size(e2)
  {
    if IsOp(e1, op) then
      var a := ExtractEq(op, common, e1.l, e2);
      var b := ExtractEq(op, a.common, e1.r, a.e2);
      Extraction(b.common, Bin(op, a.e1, b.e1), b.e2)
    else if IsOp(e2, op) then
      var a := ExtractEq(op, common, e1, e2.l);
      var b := ExtractEq(op, a.common, a.e1, e2.r);
      Extraction(b.common, b.e1, Bin(op, a.e2, b.e2))
    else if Eq(e1, e2) then
      Extraction(Some(if common.Some? then Bin(op, common.value, e1) else e1),
                 Leaf(Neutral(op)), Leaf(Neutral(op)))
    else Extraction(common, e1, e2)
  }

  /** `expr_extract_eq_and` and `expr_extract_eq_or`: the rests are folded only if something
      was taken out. */
  function ExtractCommon(op: Op, e1: Expr, e2: Expr): Extraction {
    var r := ExtractEq(op, None, e1, e2);
    if r.common.Some? then Extraction(r.common, EliminateYn(r.e1), EliminateYn(r.e2)) else r
  }

  function CommonVal(op: Op, common: Option<Expr>, env: Env): Tri
  {
    if common.Some? then Val(common.value, env) else Val(Leaf(Neutral(op)), env)
  }

  /** The value c went out of both expressions and into the common part. */
  ghost predicate Moved(op: Op, c: Tri, before: Extraction, after: Extraction, env: Env) {
    && CommonVal(op, after.common, env) == Apply(op, CommonVal(op, before.common, env), c)
    && Took(op, c, (before.e1, before.e2), (after.e1, after.e2), env)
  }

  lemma MovedTwice(op: Op, common: Option<Expr>, e1: Expr, e2: Expr,
                   a: Extraction, b: Extraction, c: Tri, d: Tri, env: Env)
    requires IsOp(e1, op)
    requires Moved(op, c, Extraction(common, e1.l, e2), a, env)
    requires Moved(op, d, Extraction(a.common, e1.r, a.e2), b, env)
    ensures Moved(op, Apply(op, c, d), Extraction(common, e1, e2),
                  Extraction(b.common, Bin(op, a.e1, b.e1), b.e2), env)
  {
    TookTwice(op, e1, e2, (a.e1, a.e2), (b.e1, b.e2), c, d, env);
    SplitBoth(op, d, 0, CommonVal(op, common, env), c);
  }

  function Swap(x: Extraction): Extraction { Extraction(x.common, x.e2, x.e1) }

  /** Every step moves the same value out of both sides and into the common part. */
  lemma {:induction false} ExtractEqSound(op: Op, common: Option<Expr>, e1: Expr, e2: Expr, env: Env)
    requires BuiltIns(env)
    ensures exists c: Tri :: Moved(op, c, Extraction(common, e1, e2), ExtractEq(op, common, e1, e2), env)
    decreases Size(e1) + Size(e2)
  {
    var x, r := Extraction(common, e1, e2), ExtractEq(op, common, e1, e2);
    if IsOp(e1, op) {
      var a := ExtractEq(op, common, e1.l, e2);
      var b := ExtractEq(op, a.common, e1.r, a.e2);
      ExtractEqSound(op, common, e1.l, e2, env);
      ExtractEqSound(op, a.common, e1.r, a.e2, env);
      var c: Tri :| Moved(op, c, Extraction(common, e1.l, e2), a, env);
      var d: Tri :| Moved(op, d, Extraction(a.common, e1.r, a.e2), b, env);
      MovedTwice(op, common, e1, e2, a, b, c, d, env);
      assert Moved(op, Apply(op, c, d), x, r, env);
    } else if IsOp(e2, op) {
      var a := ExtractEq(op, common, e1, e2.l);
      var b := ExtractEq(op, a.common, a.e1, e2.r);
      ExtractEqSound(op, common, e1, e2.l, env);
      ExtractEqSound(op, a.common, a.e1, e2.r, env);
      var c: Tri :| Moved(op, c, Extraction(common, e1, e2.l), a, env);
      var d: Tri :| Moved(op, d, Extraction(a.common, a.e1, e2.r), b, env);
      MovedTwice(op, common, e2, e1, Swap(a), Swap(b), c, d, env);
      assert Moved(op, Apply(op, c, d), x, r, env);
    } else if Eq(e1, e2) {
      EqSound(e1, e2, env);
      assert Moved(op, Val(e1, env), x, r, env);
    } else {
      assert Moved(op, env.tri(Neutral(op)), x, r, env);
    }
  }

  /** Factoring is exact: each original is the common part joined with its own rest. */
  lemma ExtractCommonExact(op: Op, e1: Expr, e2: Expr, env: Env)
    requires BuiltIns(env)
    ensures var r := ExtractCommon(op, e1, e2);
            Took(op, CommonVal(op, r.common, env), (e1, e2), (r.e1, r.e2), env)
  {
    ExtractEqSound(op, None, e1, e2, env);
    var r := ExtractEq(op, None, e1, e2);
    var c: Tri :| Moved(op, c, Extraction(None, e1, e2), r, env);
    EliminateYnExact(r.e1, env);
    EliminateYnExact(r.e2, env);
  }

  /** Factoring is thorough: it only replaces operands by the neutral symbol, and afterwards
      the two rests have no operand in common. */
  lemma {:induction false} ExtractEqThorough(op: Op, common: Option<Expr>, e1: Expr, e2: Expr)
    ensures var r := ExtractEq(op, common, e1, e2);
            && NothingCommon(op, false, r.e1, r.e2)
            && Thinned(op, e1, r.e1) && Thinned(op, e2, r.e2)
    decreases Size(e1) + Size(e2)
  {
    if IsOp(e1, op) {
      var a := ExtractEq(op, common, e1.l, e2);
      var b := ExtractEq(op, a.common, e1.r, a.e2);
      ExtractEqThorough(op, common, e1.l, e2);
      ExtractEqThorough(op, a.common, e1.r, a.e2);
      ThoroughTwice(op, false, e1, e2, (a.e1, a.e2), (b.e1, b.e2));
    } else if IsOp(e2, op) {
      var a := ExtractEq(op, common, e1, e2.l);
      var b := ExtractEq(op, a.common, a.e1, e2.r);
      ExtractEqThorough(op, common, e1, e2.l);
      ExtractEqThorough(op, a.common, a.e1, e2.r);
      ThoroughRight(op, false, e1, e2, (a.e1, a.e2), (b.e1, b.e2));
    }
  }
}
