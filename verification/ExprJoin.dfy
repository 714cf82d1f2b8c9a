/** The pairwise rules `expr_join_or` and `expr_join_and`. */
module ExprJoin {
  import opened Expr
  import opened ExprEq

  /** The symbol a joinable expression tests. The second operand may be negated only
      directly above a symbol. */
  function Tested(e: Expr, second: bool): Option<Symbol> {
    match e
    case Leaf(s) => Some(s)
    case Equal(s, _) => Some(s)
    case Unequal(s, _) => Some(s)
    case Not(Leaf(s)) => Some(s)
    case Not(Equal(s, _)) => if second then None else Some(s)
    case Not(Unequal(s, _)) => if second then None else Some(s)
    case _ => None
  }

  /** Both operands test the same boolean or tristate symbol. */
  function Shared(e1: Expr, e2: Expr): Option<Symbol> {
    var s := Tested(e1, false);
    if s.Some? && s == Tested(e2, true) && (s.value.IsBoolean() || s.value.IsTristate()) then s else None
  }

  predicate EqualTo(e: Expr, v: Symbol) { e.Equal? && e.right == v }

  predicate UnequalTo(e: Expr, v: Symbol) { e.Unequal? && e.right == v }

  /** a and b, in either order, compare for equality with x and y. */
  predicate EqualEither(a: Expr, b: Expr, x: Symbol, y: Symbol) {
    (EqualTo(a, x) && EqualTo(b, y)) || (EqualTo(a, y) && EqualTo(b, x))
  }

  predicate UnequalEither(a: Expr, b: Expr, x: Symbol, y: Symbol) {
    (UnequalTo(a, x) && UnequalTo(b, y)) || (UnequalTo(a, y) && UnequalTo(b, x))
  }

  /** One of the two is a bare symbol and the other compares with v. */
  predicate LeafAndEqual(a: Expr, b: Expr, v: Symbol) {
    (a.Leaf? && EqualTo(b, v)) || (b.Leaf? && EqualTo(a, v))
  }

  predicate LeafAndUnequal(a: Expr, b: Expr, v: Symbol) {
    (a.Leaf? && UnequalTo(b, v)) || (b.Leaf? && UnequalTo(a, v))
  }

  predicate NotLeaf(e: Expr) { e.Not? && e.arg.Leaf? }

  function JoinOr(e1: Expr, e2: Expr): Option<Expr> {
    if Eq(e1, e2) then Some(e1) else
    var shared := Shared(e1, e2);
    if shared.None? then None else
    var s := shared.value;
    if s.IsTristate() then
      if EqualEither(e1, e2, Yes, Mod) then Some(Unequal(s, No))
      else if EqualEither(e1, e2, Yes, No) then Some(Unequal(s, Mod))
      else if EqualEither(e1, e2, Mod, No) then Some(Unequal(s, Yes))
      else None
    else if (NotLeaf(e1) && e2.Leaf?) || (NotLeaf(e2) && e1.Leaf?) then Some(Leaf(Yes))
    else None
  }

  function JoinAnd(e1: Expr, e2: Expr): Option<Expr> {
    if Eq(e1, e2) then Some(e1) else
    var shared := Shared(e1, e2);
    if shared.None? then None else
    var s := shared.value;
    if LeafAndEqual(e1, e2, Yes) then Some(Equal(s, Yes))
    else if LeafAndUnequal(e1, e2, No) then Some(Leaf(s))
    else if LeafAndUnequal(e1, e2, Mod) then Some(Equal(s, Yes))
    else if !s.IsTristate() then None
    else if e1.Equal? && e2.Unequal? && e1.right.IsConst() && e2.right.IsConst() then
      Some(if e1.right != e2.right then Equal(s, e1.right) else Leaf(No))
    else if e1.Unequal? && e2.Equal? && e1.right.IsConst() && e2.right.IsConst() then
      Some(if e1.right != e2.right then Equal(s, e2.right) else Leaf(No))
    else if UnequalEither(e1, e2, Yes, No) then Some(Equal(s, Mod))
    else if UnequalEither(e1, e2, Yes, Mod) then Some(Equal(s, No))
    else if UnequalEither(e1, e2, Mod, No) then Some(Equal(s, Yes))
    else None
  }

  function Join(op: Op, e1: Expr, e2: Expr): Option<Expr> {
    if op == OR then JoinOr(e1, e2) else JoinAnd(e1, e2)
  }

  /** Tests of one symbol s that are one test together, in this order: below AND, s with s = y, s != n or
      s != m, and of a tristate s a comparison for equality with one for inequality to constants, or two
      for inequality to y, m or n; below OR, two of a tristate s for equality to those, or a boolean s
      and its negation. */
  predicate OneTest(op: Op, s: Symbol, a: Expr, b: Expr) {
    if op == AND then
      || (a == Leaf(s) && (s.IsBoolean() || s.IsTristate()) && b in {Equal(s, Yes), Unequal(s, No), Unequal(s, Mod)})
      || (s.IsTristate() && a.Equal? && b.Unequal? && a.left == s == b.left && a.right.IsConst() && b.right.IsConst())
      || (s.IsTristate() && a.Unequal? && b.Unequal? && a.left == s == b.left && TwoBuiltIns(a.right, b.right))
    else
      || (s.IsTristate() && a.Equal? && b.Equal? && a.left == s == b.left && TwoBuiltIns(a.right, b.right))
      || (s.IsBoolean() && a == Leaf(s) && b == Not(Leaf(s)))
  }

  predicate TwoBuiltIns(x: Symbol, y: Symbol) { x.IsBuiltIn() && y.IsBuiltIn() && x != y }

  ghost predicate OneTestEither(op: Op, e1: Expr, e2: Expr) {
    exists s :: OneTest(op, s, e1, e2) || OneTest(op, s, e2, e1)
  }

  /** A rule applies exactly if the operands are equal or are one test of a symbol together. */
  lemma JoinApplies(op: Op, e1: Expr, e2: Expr)
    ensures Join(op, e1, e2).Some? <==> Eq(e1, e2) || OneTestEither(op, e1, e2)
  {
    var s := Tested(e1, false);
    if OneTestEither(op, e1, e2) {
      var t :| OneTest(op, t, e1, e2) || OneTest(op, t, e2, e1);
    }
    if Join(op, e1, e2).Some? && !Eq(e1, e2) {
      assert OneTest(op, s.value, e1, e2) || OneTest(op, s.value, e2, e1);
    }
  }

  lemma JoinOrExact(e1: Expr, e2: Expr, env: Env)
    requires WellFormed(env)
    requires JoinOr(e1, e2).Some?
    ensures Val(JoinOr(e1, e2).value, env) == Apply(OR, Val(e1, env), Val(e2, env))
  {
    if Eq(e1, e2) {
      EqSound(e1, e2, env);
    } else {
      var s := Shared(e1, e2).value;
      assert env.str(s) == TriText(env.tri(s));
      if s.IsBoolean() {
        assert env.tri(s) != 1;
      }
    }
  }

  lemma JoinAndExact(e1: Expr, e2: Expr, env: Env)
    requires WellFormed(env)
    requires JoinAnd(e1, e2).Some?
    ensures Val(JoinAnd(e1, e2).value, env) == Apply(AND, Val(e1, env), Val(e2, env))
  {
    if Eq(e1, e2) {
      EqSound(e1, e2, env);
    } else {
      var s := Shared(e1, e2).value;
      assert env.str(s) == TriText(env.tri(s));
      if s.IsBoolean() {
        assert env.tri(s) != 1;
      }
    }
  }

  /** A join is exact in three values. */
  lemma JoinExact(op: Op, e1: Expr, e2: Expr, env: Env)
    requires WellFormed(env)
    requires Join(op, e1, e2).Some?
    ensures Val(Join(op, e1, e2).value, env) == Apply(op, Val(e1, env), Val(e2, env))
  {
    if op == OR { JoinOrExact(e1, e2, env); } else { JoinAndExact(e1, e2, env); }
  }

  /** Replacing the operands by the neutral symbol and their join does not add nodes. */
  lemma JoinSize(op: Op, e1: Expr, e2: Expr)
    requires Join(op, e1, e2).Some?
    ensures 1 + Size(Join(op, e1, e2).value) <= Size(e1) + Size(e2)
  {}
}
