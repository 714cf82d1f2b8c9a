/** Negation normal form: `expr_transform`, and the boolean weakening `expr_trans_bool`. */
module ExprTransform {
  import opened Expr

  /** Nodes other than NOT. Pushing negations inwards does not change this count. */
  function Weight(e: Expr): nat {
    match e
    case Not(a) => Weight(a)
    case Bin(_, a, b) => 1 + Weight(a) + Weight(b)
    case _ => 1
  }

  /** NOT stands only above a symbol that is not y, m or n, and no boolean symbol is
      compared with y, m or n. */
  predicate Nnf(e: Expr) {
    match e
    case Leaf(_) => true
    case Not(a) => a.Leaf? && !a.sym.IsBuiltIn()
    case Equal(a, b) => !(a.IsBoolean() && b.IsBuiltIn())
    case Unequal(a, b) => !(a.IsBoolean() && b.IsBuiltIn())
    case Bin(_, a, b) => Nnf(a) && Nnf(b)
  }

  /** `expr_transform`. */
  function Transform(e: Expr): (r: Expr)
    ensures Nnf(r) && Weight(r) == Weight(e)
    decreases Weight(e), e.Not?, Size(e)
  {
    match e
    case Leaf(_) => e
    case Equal(s, t) =>
      if !s.IsBoolean() then e
      else if t == No then Not(Leaf(s))
      else if t == Mod then Leaf(No)
      else if t == Yes then Leaf(s)
      else e
    case Unequal(s, t) =>
      if !s.IsBoolean() then e
      else if t == No then Leaf(s)
      else if t == Mod then Leaf(Yes)
      else if t == Yes then Not(Leaf(s))
      else e
    case Bin(op, a, b) => Bin(op, Transform(a), Transform(b))
    case Not(a) =>
      var a' := Transform(a);
      match a'
      case Not(b) => Transform(b)
      case Equal(s, t) => Unequal(s, t)
      case Unequal(s, t) => Equal(s, t)
      case Bin(op, x, y) =>
        assert Weight(Not(x)) == Weight(x) && Weight(Not(y)) == Weight(y);
        Transform(Bin(Dual(op), Not(x), Not(y)))
      case Leaf(s) =>
        if s == Yes then Leaf(No) else if s == Mod then Leaf(Mod)
        else if s == No then Leaf(Yes) else Not(a')
  }

  /** The rewriting is exact in three values. */
  lemma {:induction false} TransformExact(e: Expr, env: Env)
    requires WellFormed(env)
    ensures Val(Transform(e), env) == Val(e, env)
    decreases Weight(e), e.Not?, Size(e)
  {
    match e
    case Bin(op, a, b) => TransformExact(a, env); TransformExact(b, env);
    case Not(a) =>
      TransformExact(a, env);
      match Transform(a) {
        case Not(b) => TransformExact(b, env);
        case Bin(op, x, y) =>
          assert Weight(Not(x)) == Weight(x) && Weight(Not(y)) == Weight(y);
          TransformExact(Bin(Dual(op), Not(x), Not(y)), env);
        case _ =>
      }
    case _ =>
  }

  lemma TransformEquivalent(e: Expr)
    ensures Equivalent(e, Transform(e))
  {
    forall env | WellFormed(env) ensures Val(Transform(e), env) == Val(e, env) {
      TransformExact(e, env);
    }
  }

  /** Normal forms are exactly the fixpoints, so a second pass changes nothing. */
  lemma {:induction false} TransformFixpoint(e: Expr)
    ensures Transform(e) == e <==> Nnf(e)
    ensures Transform(Transform(e)) == Transform(e)
  {
    if Nnf(e) {
      NnfUnchanged(e);
    }
    NnfUnchanged(Transform(e));
  }

  lemma {:induction false} NnfUnchanged(e: Expr)
    requires Nnf(e)
    ensures Transform(e) == e
  {
    match e
    case Bin(_, a, b) => NnfUnchanged(a); NnfUnchanged(b);
    case _ =>
  }

  /** The negation of a normal form, by the rules of De Morgan. */
  function Negation(e: Expr): Expr {
    match e
    case Leaf(s) => (match s case Yes => Leaf(No) case No => Leaf(Yes) case Mod => e case _ => Not(e))
    case Not(a) => a
    case Equal(a, b) => Unequal(a, b)
    case Unequal(a, b) => Equal(a, b)
    case Bin(op, a, b) => Bin(Dual(op), Negation(a), Negation(b))
  }

  lemma {:induction false} NegationExact(e: Expr)
    requires Nnf(e)
    ensures Transform(Not(e)) == Negation(e)
  {
    NnfUnchanged(e);
    match e
    case Bin(op, a, b) =>
      NegationExact(a);
      NegationExact(b);
      assert Transform(Not(e)) == Transform(Bin(Dual(op), Not(a), Not(b)));
    case Not(a) => NnfUnchanged(a);
    case _ =>
  }

  // ----- expr_trans_bool -----

  /** Drops "!= n" from tristate tests: a bool entry only asks whether its condition holds at all.
      Below a NOT the original recurses too. */
  function TransBool(e: Expr): Expr {
    match e
    case Bin(op, a, b) => Bin(op, TransBool(a), TransBool(b))
    case Not(a) => Not(TransBool(a))
    case Unequal(s, t) => if s.IsTristate() && t == No then Leaf(s) else e
    case _ => e
  }

  /** On normal forms the weakening never raises a value and never loses visibility. */
  lemma {:induction false} TransBoolKeepsVisibility(e: Expr, env: Env)
    requires WellFormed(env)
    requires Nnf(e)
    ensures Val(TransBool(e), env) <= Val(e, env)
    ensures Val(TransBool(e), env) == 0 <==> Val(e, env) == 0
  {
    match e
    case Bin(_, a, b) => TransBoolKeepsVisibility(a, env); TransBoolKeepsVisibility(b, env);
    case _ =>
  }

  /** No tristate symbol is tested for being other than n. */
  predicate NoWeakTest(e: Expr) {
    match e
    case Bin(_, a, b) => NoWeakTest(a) && NoWeakTest(b)
    case Not(a) => NoWeakTest(a)
    case Unequal(s, t) => !(s.IsTristate() && t == No)
    case _ => true
  }

  /** It drops all such tests, replacing each by one node, and changes nothing else. */
  lemma {:induction false} TransBoolDrops(e: Expr)
    ensures NoWeakTest(TransBool(e)) && Size(TransBool(e)) == Size(e)
    ensures TransBool(e) == e <==> NoWeakTest(e)
  {
    match e
    case Bin(_, a, b) => TransBoolDrops(a); TransBoolDrops(b);
    case Not(a) => TransBoolDrops(a);
    case _ =>
  }

  /** It leads from normal forms to normal forms. */
  lemma {:induction false} TransBoolNnf(e: Expr)
    requires Nnf(e)
    ensures Nnf(TransBool(e))
  {
    match e
    case Bin(_, a, b) => TransBoolNnf(a); TransBoolNnf(b);
    case _ =>
  }
}
