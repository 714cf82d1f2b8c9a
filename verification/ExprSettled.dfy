/** What the two scans of `expr_eliminate_dups` leave alone. */
module ExprSettled {
  import opened Expr
  import opened ExprEq
  import opened ExprJoin
  import opened ExprTransform
  import opened ExprExtract
  import opened ExprForm
  import opened ExprPaths

  /** The test of the second scan: after the negation of e1 has been cancelled against e2,
      nothing of the negation is left. */
  predicate Opposed(e1: Expr, e2: Expr)
    requires e1.Bin?
  {
    ExtractCommon(Dual(e1.op), Transform(Not(e1)), e2).e1 == Leaf(Neutral(Dual(e1.op)))
  }

  /** Below an AND, e2 never exceeds the negation of an opposed e1; below an OR it is never less. */
  lemma OpposedBound(e1: Expr, e2: Expr, env: Env)
    requires WellFormed(env)
    requires e1.Bin? && Opposed(e1, e2)
    ensures e1.op == OR ==> Val(e2, env) <= 2 - Val(e1, env)
    ensures e1.op == AND ==> Val(e2, env) >= 2 - Val(e1, env)
  {
    TransformExact(Not(e1), env);
    ExtractCommonExact(Dual(e1.op), Transform(Not(e1)), e2, env);
  }

  // ----- what a scan leaves behind -----

  /** No rule of the first scan applies to an operand below s1 and a different one below s2,
      nor inside an operand that was compared. */
  ghost predicate Unjoinable(op: Op, b: Expr, s1: Path, s2: Path)
    requires Spine(op, b, s1) && Spine(op, b, s2)
    requires ValidPath(b, s1) && ValidPath(b, s2)
    decreases Size(b), SpineSize(op, Get(b, s1)) + SpineSize(op, Get(b, s2))
  {
    var e1, e2 := Get(b, s1), Get(b, s2);
    if IsOp(e1, op) then
      SpineExtend(op, b, s1, Left); SpineExtend(op, b, s1, Right);
      Unjoinable(op, b, s1 + [Left], s2) && Unjoinable(op, b, s1 + [Right], s2)
    else if IsOp(e2, op) then
      SpineExtend(op, b, s2, Left); SpineExtend(op, b, s2, Right);
      Unjoinable(op, b, s1, s2 + [Left]) && Unjoinable(op, b, s1, s2 + [Right])
    else if s1 == s2 then true
    else
      && Join(op, e1, e2).None?
      && (e1.Bin? ==> (assert s1 != []; Unjoinable(e1.op, e1, [], [])))
  }

  /** The same for the second scan. Here the second cursor also stops at inner nodes, because
      the scan goes on after having descended into them. */
  ghost predicate Unopposed(op: Op, b: Expr, s1: Path, s2: Path)
    requires Spine(op, b, s1) && Spine(op, b, s2)
    requires ValidPath(b, s1) && ValidPath(b, s2)
    decreases Size(b), SpineSize(op, Get(b, s1)) + SpineSize(op, Get(b, s2))
  {
    var e1, e2 := Get(b, s1), Get(b, s2);
    if IsOp(e1, op) then
      SpineExtend(op, b, s1, Left); SpineExtend(op, b, s1, Right);
      Unopposed(op, b, s1 + [Left], s2) && Unopposed(op, b, s1 + [Right], s2)
    else
      && (IsOp(e2, op) ==>
            (SpineExtend(op, b, s2, Left); SpineExtend(op, b, s2, Right);
            Unopposed(op, b, s1, s2 + [Left]) && Unopposed(op, b, s1, s2 + [Right])))
      && (s1 != s2 && e1.Bin? ==>
            (assert s1 != [];
            Unopposed(e1.op, e1, [], []) && !Opposed(e1, e2)))
  }

  /** No rule applies anywhere. */
  ghost predicate Settled(e: Expr) {
    e.Bin? ==> Unjoinable(e.op, e, [], []) && Unopposed(e.op, e, [], [])
  }

  /** Where the first scan finds nothing, the rules fail for any two different operands p1 and p2
      that lie below s1 and s2, and inside the first. */
  lemma {:induction false} SettledPairs(op: Op, b: Expr, s1: Path, s2: Path, p1: Path, p2: Path)
    requires Spine(op, b, s1) && ValidPath(b, s1) && Spine(op, b, s2) && ValidPath(b, s2)
    requires Unjoinable(op, b, s1, s2)
    requires s1 <= p1 && Spine(op, b, p1) && ValidPath(b, p1) && !IsOp(Get(b, p1), op)
    requires s2 <= p2 && Spine(op, b, p2) && ValidPath(b, p2) && !IsOp(Get(b, p2), op)
    requires p1 != p2
    ensures Join(op, Get(b, p1), Get(b, p2)).None?
    ensures Get(b, p1).Bin? ==> Unjoinable(Get(b, p1).op, Get(b, p1), [], [])
    decreases |p1| - |s1| + |p2| - |s2|
  {
    if IsOp(Get(b, s1), op) {
      var s := StepDown(op, b, s1, p1);
      SettledPairs(op, b, s, s2, p1, p2);
    } else {
      SpineEnds(op, b, s1, p1);
      if IsOp(Get(b, s2), op) {
        var s := StepDown(op, b, s2, p2);
        SettledPairs(op, b, s1, s, p1, p2);
      } else {
        SpineEnds(op, b, s2, p2);
      }
    }
  }

  /** The same for the second scan; here p2 is any node of the operator. */
  lemma {:induction false} UnopposedPairs(op: Op, b: Expr, s1: Path, s2: Path, p1: Path, p2: Path)
    requires Spine(op, b, s1) && ValidPath(b, s1) && Spine(op, b, s2) && ValidPath(b, s2)
    requires Unopposed(op, b, s1, s2)
    requires s1 <= p1 && Spine(op, b, p1) && ValidPath(b, p1) && !IsOp(Get(b, p1), op)
    requires s2 <= p2 && Spine(op, b, p2) && ValidPath(b, p2)
    requires p1 != p2 && Get(b, p1).Bin?
    ensures !Opposed(Get(b, p1), Get(b, p2))
    ensures Unopposed(Get(b, p1).op, Get(b, p1), [], [])
    decreases |p1| - |s1| + |p2| - |s2|
  {
    if IsOp(Get(b, s1), op) {
      var s := StepDown(op, b, s1, p1);
      UnopposedPairs(op, b, s, s2, p1, p2);
    } else {
      SpineEnds(op, b, s1, p1);
      if s2 != p2 {
        if !IsOp(Get(b, s2), op) { SpineEnds(op, b, s2, p2); }
        var s := StepDown(op, b, s2, p2);
        UnopposedPairs(op, b, s1, s, p1, p2);
      }
    }
  }

  /** One step from s towards the operand p. */
  lemma StepDown(op: Op, b: Expr, s: Path, p: Path) returns (s': Path)
    requires Spine(op, b, s) && ValidPath(b, s) && IsOp(Get(b, s), op)
    requires s <= p && ValidPath(b, p) && s != p
    ensures s' <= p && |s'| == |s| + 1 && (s' == s + [Left] || s' == s + [Right])
    ensures Spine(op, b, s') && ValidPath(b, s')
  {
    var d := p[|s|];
    s' := s + [d];
    SpineExtend(op, b, s, d);
  }

  /** No path through the operator goes past one of its operands. */
  lemma {:induction false} SpineEnds(op: Op, b: Expr, s: Path, p: Path)
    requires Spine(op, b, s) && ValidPath(b, s) && !IsOp(Get(b, s), op)
    requires s <= p && Spine(op, b, p)
    ensures p == s
  {
    if s != [] {
      assert p[0] == s[0] && s[1..] <= p[1..];
      SpineEnds(op, Child(b, s[0]), s[1..], p[1..]);
      assert s == [s[0]] + s[1..] && p == [p[0]] + p[1..];
    }
  }

  // ----- the settled tree, without the rules -----

  /** p1 and p2 lead to two different operands of the operator at base. */
  predicate TwoOperands(e: Expr, base: Path, p1: Path, p2: Path) {
    && ValidPath(e, base) && Get(e, base).Bin?
    && Operand(Get(e, base), p1) && Operand(Get(e, base), p2) && p1 != p2
  }

  predicate Operand(b: Expr, p: Path)
    requires b.Bin?
  {
    Spine(b.op, b, p) && ValidPath(b, p) && !IsOp(Get(b, p), b.op)
  }

  /** Two operands that are not the same, nor rearrangements of each other, nor one test of a symbol. */
  ghost predicate Unlike(op: Op, e1: Expr, e2: Expr) {
    e1 != e2 && (Plain(e1) && Plain(e2) ==> FormOf(e1) != FormOf(e2)) && !OneTestEither(op, e1, e2)
  }

  /** No two different operands of one operator are alike. */
  ghost predicate NoneAlike(e: Expr) {
    forall base, p1, p2 :: TwoOperands(e, base, p1, p2) ==>
      Unlike(Get(e, base).op, Get(Get(e, base), p1), Get(Get(e, base), p2))
  }

  /** An operand at p, of the operator b, that is an operator of the other kind. */
  predicate InnerOperand(e: Expr, base: Path, p: Path) {
    ValidPath(e, base) && Get(e, base).Bin? && Operand(Get(e, base), p) && Get(Get(e, base), p).Bin?
  }

  /** Not all operands of the negation of e1 are operands of b. */
  predicate Uncontradicted(b: Expr, e1: Expr)
    requires b.Bin?
  {
    !(Parts(b.op, Negation(e1)) <= Parts(b.op, b))
  }

  /** So b, which has the operand e1, does not contradict that, for any operator b of the tree. */
  ghost predicate NoneContradicted(e: Expr) {
    forall base, p :: InnerOperand(e, base, p) && Nnf(Get(e, base)) && Plain(Get(e, base)) ==>
      Uncontradicted(Get(e, base), Get(Get(e, base), p))
  }

  function FirstOperand(op: Op, e: Expr): (p: Path)
    ensures Spine(op, e, p) && ValidPath(e, p) && !IsOp(Get(e, p), op)
  {
    if IsOp(e, op) then [Left] + FirstOperand(op, e.l) else []
  }

  /** Operands of a settled tree are settled. */
  lemma InnerSettled(e: Expr, s: Path)
    requires e.Bin? && Settled(e) && Operand(e, s) && Get(e, s).Bin?
    ensures Settled(Get(e, s))
  {
    var t := if s[0] == Left then [Right] + FirstOperand(e.op, e.r) else [Left] + FirstOperand(e.op, e.l);
    assert t[1..] == FirstOperand(e.op, Child(e, t[0]));
    SettledPairs(e.op, e, [], [], s, t);
    UnopposedPairs(e.op, e, [], [], s, []);
  }

  /** Every operator in a settled tree is a node of one that is settled, of the same kind. */
  lemma {:induction false} WithinSettled(e: Expr, s: Path, rest: Path) returns (r: Expr, p: Path)
    requires e.Bin? && Settled(e) && Spine(e.op, e, s) && ValidPath(e, s)
    requires ValidPath(Get(e, s), rest) && Get(Get(e, s), rest).Bin?
    ensures r.Bin? && Settled(r) && Spine(r.op, r, p) && ValidPath(r, p)
    ensures Get(r, p) == Get(Get(e, s), rest) && Get(r, p).op == r.op
    decreases Size(e), |rest|
  {
    var b := Get(e, s);
    if b.op != e.op {
      InnerSettled(e, s);
      r, p := WithinSettled(b, [], rest);
    } else if rest == [] {
      r, p := e, s;
    } else {
      SpineExtend(e.op, e, s, rest[0]);
      r, p := WithinSettled(e, s + [rest[0]], rest[1..]);
    }
  }

  lemma {:induction false} SpineConcat(op: Op, e: Expr, s: Path, p: Path)
    requires Spine(op, e, s) && ValidPath(e, s) && Spine(op, Get(e, s), p) && ValidPath(Get(e, s), p)
    ensures Spine(op, e, s + p) && ValidPath(e, s + p) && Get(e, s + p) == Get(Get(e, s), p)
  {
    if s == [] {
      assert s + p == p;
    } else {
      assert (s + p)[1..] == s[1..] + p;
      SpineConcat(op, Child(e, s[0]), s[1..], p);
    }
  }

  lemma UnlikeUnjoined(op: Op, e1: Expr, e2: Expr)
    requires Join(op, e1, e2).None?
    ensures Unlike(op, e1, e2)
  {
    JoinApplies(op, e1, e2);
    EqSelf(e1);
    if Plain(e1) && Plain(e2) { EqExact(e1, e2); }
  }

  /** In a settled tree no two operands of an operator are alike. */
  lemma SettledNoneAlike(e: Expr)
    requires Settled(e)
    ensures NoneAlike(e)
  {
    forall base, p1, p2 | TwoOperands(e, base, p1, p2)
      ensures Unlike(Get(e, base).op, Get(Get(e, base), p1), Get(Get(e, base), p2))
    {
      var r, s := WithinSettled(e, [], base);
      SpineConcat(r.op, r, s, p1);
      SpineConcat(r.op, r, s, p2);
      assert (s + p1)[|s|..] == p1 && (s + p2)[|s|..] == p2;
      SettledPairs(r.op, r, [], [], s + p1, s + p2);
      UnlikeUnjoined(r.op, Get(r, s + p1), Get(r, s + p2));
    }
  }

  /** Nor is an operand contradicted by the others. */
  lemma SettledNoneContradicted(e: Expr)
    requires Settled(e)
    ensures NoneContradicted(e)
  {
    forall base, p | InnerOperand(e, base, p) && Nnf(Get(e, base)) && Plain(Get(e, base))
      ensures Uncontradicted(Get(e, base), Get(Get(e, base), p))
    {
      var r, s := WithinSettled(e, [], base);
      SpineConcat(r.op, r, s, p);
      assert (s + p)[|s|..] == p && p != [];
      UnopposedPairs(r.op, r, [], [], s + p, s);
      OpposedExactly(Get(e, base), p);
    }
  }

  lemma {:induction false} PartsOf(e: Expr, p: Path)
    requires ValidPath(e, p) && Nnf(e) && Plain(e)
    ensures Nnf(Get(e, p)) && Plain(Get(e, p))
  {
    if p != [] { PartsOf(Child(e, p[0]), p[1..]); }
  }

  lemma {:induction false} PlainNegation(e: Expr)
    requires Plain(e) && Nnf(e)
    ensures Plain(Negation(e)) && (IsYn(Negation(e)) ==> IsYn(e))
  {
    match e
    case Bin(_, a, b) => PlainNegation(a); PlainNegation(b);
    case _ =>
  }

  /** What the second scan tests, in a plain normal form. */
  lemma OpposedExactly(b: Expr, p: Path)
    requires b.Bin? && Nnf(b) && Plain(b) && Operand(b, p) && Get(b, p).Bin?
    ensures Opposed(Get(b, p), b) <==> !Uncontradicted(b, Get(b, p))
  {
    var e1 := Get(b, p);
    PartsOf(b, p);
    PlainNegation(e1);
    NegationExact(e1);
    assert Dual(e1.op) == b.op;
    UsedUp(b.op, Negation(e1), b);
  }
}
