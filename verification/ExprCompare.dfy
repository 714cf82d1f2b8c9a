/** Reading a condition as a comparison (`expr_trans_compare`), and the test by which
    `menu_finalize` decides that an entry belongs below another one. */
module ExprCompare {
  import opened Expr
  import opened ExprEq
  import opened ExprTransform
  import opened ExprDups
  import opened ExprPaths
  import opened ExprSettled

  /** `expr_trans_compare` for a present condition: "e = sym" or "e != sym". Comparisons with a
      symbol other than y, m and n have no result. */
  function TransCompare(e: Expr, equal: bool, sym: Symbol): (r: Option<Expr>)
    ensures sym.IsBuiltIn() ==> r.Some?
  {
    match e
    case Bin(op, a, b) =>
      var x, y := TransCompare(a, true, sym), TransCompare(b, true, sym);
      var e' := if sym == Yes then Bin(op, x.value, y.value)
                else if sym == No then Bin(Dual(op), x.value, y.value)
                else e;
      Some(if equal then e' else Not(e'))
    case Not(a) => TransCompare(a, !equal, sym)
    case Leaf(s) => Some(if equal then Equal(s, sym) else Unequal(s, sym))
    case _ =>
      if sym == Mod then Some(Leaf(if equal then No else Yes))
      else if sym == Yes then Some(if equal then e else Not(e))
      else if sym == No then Some(if equal then Not(e) else e)
      else None
  }

  /** "e != n", where an absent e is compared as the constant itself. */
  function UnequalNo(e: Option<Expr>): Expr {
    if e.None? then Not(Leaf(No)) else TransCompare(e.value, false, No).value
  }

  function Truth(b: bool): Tri { if b then 2 else 0 }

  /** The value of e when every symbol is read by its text: as the constant sym if it has the text of
      that, and as the other one of y and n if not. So m is rounded to y in a comparison with n and to
      n in one with y, and a symbol with any other text is too. */
  function Rounded(e: Expr, sym: Symbol, env: Env): Tri
    requires sym == Yes || sym == No
  {
    match e
    case Leaf(s) => if (env.str(s) == env.str(sym)) == (sym == Yes) then 2 else 0
    case Not(a) => 2 - Rounded(a, sym, env)
    case Bin(op, a, b) => Apply(op, Rounded(a, sym, env), Rounded(b, sym, env))
    case _ => Val(e, env)
  }

  /** What the comparison answers: that of the rounded value, which is never m. */
  lemma {:induction false} TransCompareValue(e: Expr, equal: bool, sym: Symbol, env: Env)
    requires BuiltIns(env)
    requires sym == Yes || sym == No
    ensures Rounded(e, sym, env) != 1
    ensures Val(TransCompare(e, equal, sym).value, env) == Truth((Rounded(e, sym, env) == env.tri(sym)) == equal)
  {
    match e
    case Bin(op, a, b) =>
      TransCompareValue(a, true, sym, env);
      TransCompareValue(b, true, sym, env);
    case Not(a) => TransCompareValue(a, !equal, sym, env);
    case _ =>
  }

  /** The answer is right if and only if rounding makes no difference to the comparison. */
  lemma TransCompareRight(e: Expr, equal: bool, sym: Symbol, env: Env)
    requires BuiltIns(env)
    requires sym == Yes || sym == No
    ensures Val(TransCompare(e, equal, sym).value, env) == Truth((Val(e, env) == env.tri(sym)) == equal)
            <==> (Rounded(e, sym, env) == env.tri(sym) <==> Val(e, env) == env.tri(sym))
  {
    TransCompareValue(e, equal, sym, env);
  }

  /** The text of s is that of its value, as it is for y, m, n and bool and tristate symbols. */
  predicate Spelled(s: Symbol, env: Env) { env.str(s) == TriText(env.tri(s)) }

  /** Every symbol that stands for a condition of its own has the text of its value. */
  predicate SpelledLeaves(e: Expr, env: Env) {
    match e
    case Leaf(s) => Spelled(s, env)
    case Not(a) => SpelledLeaves(a, env)
    case Bin(_, a, b) => SpelledLeaves(a, env) && SpelledLeaves(b, env)
    case _ => true
  }

  lemma LogicalIsSpelled(s: Symbol, env: Env)
    requires WellFormed(env) && s.IsLogical()
    ensures Spelled(s, env)
  {
    assert s.IsBuiltIn() || s.IsBoolean() || s.IsTristate();
  }

  /** Where the symbols have the texts of their values, rounding leaves decided values alone. */
  lemma {:induction false} RoundedDecided(e: Expr, sym: Symbol, env: Env)
    requires BuiltIns(env) && SpelledLeaves(e, env)
    requires sym == Yes || sym == No
    ensures Val(e, env) != 1 ==> Rounded(e, sym, env) == Val(e, env)
  {
    match e
    case Bin(_, a, b) => RoundedDecided(a, sym, env); RoundedDecided(b, sym, env);
    case Not(a) => RoundedDecided(a, sym, env);
    case _ =>
  }

  /** Then the answer is right unless e is m and rounds to the very constant it is compared with. */
  lemma TransCompareSpelled(e: Expr, equal: bool, sym: Symbol, env: Env)
    requires BuiltIns(env) && SpelledLeaves(e, env)
    requires sym == Yes || sym == No
    ensures Val(TransCompare(e, equal, sym).value, env) == Truth((Val(e, env) == env.tri(sym)) == equal)
            <==> !(Val(e, env) == 1 && Rounded(e, sym, env) == env.tri(sym))
  {
    TransCompareRight(e, equal, sym, env);
    RoundedDecided(e, sym, env);
  }

  /** Directly above a symbol the answer is right exactly if the symbol has the text of the constant
      just when its value is not the opposite one; for a symbol with the text of its value, if that
      is not m. */
  lemma TransCompareNotLeaf(s: Symbol, equal: bool, sym: Symbol, env: Env)
    requires BuiltIns(env)
    requires sym == Yes || sym == No
    ensures var right := Val(TransCompare(Not(Leaf(s)), equal, sym).value, env)
                           == Truth((Val(Not(Leaf(s)), env) == env.tri(sym)) == equal);
            && (right <==> (env.str(s) == env.str(sym) <==> env.tri(s) != 2 - env.tri(sym)))
            && (Spelled(s, env) ==> (right <==> env.tri(s) != 1))
  {
    TransCompareRight(Not(Leaf(s)), equal, sym, env);
  }

  /** A symbol that is nowhere defined is n, with its name as its text: "u != n" is y. */
  lemma UndefinedIsUnequal(name: string, env: Env)
    requires BuiltIns(env) && name != "n"
    requires env.tri(Named(name, UnknownType)) == 0 && env.str(Named(name, UnknownType)) == name
    ensures var u := Leaf(Named(name, UnknownType));
            Val(u, env) == 0 && Val(TransCompare(u, false, No).value, env) == 2
  {
    TransCompareValue(Leaf(Named(name, UnknownType)), false, No, env);
  }

  // ----- the conditions of properties -----

  /** `expr_alloc_and` */
  function AllocAnd(a: Option<Expr>, b: Option<Expr>): (r: Option<Expr>)
    ensures forall env :: DepVal(r, env) == Apply(AND, DepVal(a, env), DepVal(b, env))
  {
    if a.None? then b else if b.None? then a else Some(Bin(AND, a.value, b.value))
  }

  /** What `menu_finalize` makes of the condition of a property, below the condition base of its
      entry: again a normal form. It is y or n whenever both together are; for an entry with a symbol
      that is not tristate it only has to hold, and does where both are y and not where one is n. */
  method PropagateDep(base: Option<Expr>, visible: Option<Expr>, tristate: bool) returns (dep: Option<Expr>)
    requires base.Some? ==> Nnf(base.value)
    ensures dep.Some? ==> Nnf(dep.value) && (tristate ==> Settled(dep.value))
    ensures forall env :: WellFormed(env) ==>
              var v := Apply(AND, DepVal(base, env), DepVal(visible, env));
              && (v == 0 ==> DepVal(dep, env) == 0)
              && (v == 2 ==> DepVal(dep, env) != 0 && (tristate ==> DepVal(dep, env) == 2))
  {
    var both := AllocAnd(base, if visible.None? then None else Some(Transform(visible.value)));
    if visible.Some? { TransformEquivalent(visible.value); }
    if both.None? {
      return None;
    }
    var s := new Simplifier(both.value);
    s.EliminateDups();
    dep := Some(if tristate then s.tree else TransBool(s.tree));
    TransBoolNnf(s.tree);
    forall env | WellFormed(env) ensures Val(TransBool(s.tree), env) == 0 <==> Val(s.tree, env) == 0 {
      TransBoolKeepsVisibility(s.tree, env);
    }
  }

  // ----- expr_contains_symbol, expr_depends_symbol -----

  predicate ContainsSymbol(e: Option<Expr>, sym: Symbol) { e.Some? && sym in Symbols(e.value) }

  /** `expr_depends_symbol`: some conjunct asks for sym not to be n. */
  predicate DependsSymbol(e: Expr, sym: Symbol) {
    match e
    case Bin(AND, a, b) => DependsSymbol(a, sym) || DependsSymbol(b, sym)
    case Leaf(s) => s == sym
    case Equal(s, t) => s == sym && (t == Yes || t == Mod)
    case Unequal(s, t) => s == sym && t == No
    case _ => false
  }

  /** Such an expression contains the symbol, and is n whenever that is n in value and text. */
  lemma {:induction false} DependsSymbolSound(e: Expr, sym: Symbol, env: Env)
    requires BuiltIns(env)
    requires DependsSymbol(e, sym)
    ensures sym in Symbols(e)
    ensures env.tri(sym) == 0 && env.str(sym) == "n" ==> Val(e, env) == 0
  {
    match e
    case Bin(AND, a, b) =>
      if DependsSymbol(a, sym) { DependsSymbolSound(a, sym, env); }
      if DependsSymbol(b, sym) { DependsSymbolSound(b, sym, env); }
    case _ =>
  }

  /** It says that sym is not n, or what amounts to that. */
  predicate Asks(e: Expr, sym: Symbol) {
    e == Leaf(sym) || e == Equal(sym, Yes) || e == Equal(sym, Mod) || e == Unequal(sym, No)
  }

  /** p leads to a conjunct of e that asks for sym. */
  predicate AskedAt(e: Expr, p: Path, sym: Symbol) {
    Spine(AND, e, p) && ValidPath(e, p) && Asks(Get(e, p), sym)
  }

  /** An expression depends on a symbol exactly if some conjunct asks for it. */
  lemma DependsSymbolExactly(e: Expr, sym: Symbol)
    ensures DependsSymbol(e, sym) <==> exists p :: AskedAt(e, p, sym)
  {
    if p :| AskedAt(e, p, sym) { AskedDepends(e, p, sym); }
    if DependsSymbol(e, sym) { var p := DependsAsked(e, sym); }
  }

  lemma {:induction false} AskedDepends(e: Expr, p: Path, sym: Symbol)
    requires AskedAt(e, p, sym)
    ensures DependsSymbol(e, sym)
  {
    if p != [] { AskedDepends(Child(e, p[0]), p[1..], sym); }
  }

  lemma {:induction false} DependsAsked(e: Expr, sym: Symbol) returns (p: Path)
    requires DependsSymbol(e, sym)
    ensures AskedAt(e, p, sym)
  {
    p := [];
    if IsOp(e, AND) {
      var d := if DependsSymbol(e.l, sym) then Left else Right;
      var q := DependsAsked(Child(e, d), sym);
      p := [d] + q;
      assert p[1..] == q;
    }
  }

  /** The text counts: for a string symbol, which is n in value, "s != n" is y unless its text is n. */
  lemma DependsOnText(s: Symbol, env: Env)
    requires BuiltIns(env)
    ensures DependsSymbol(Unequal(s, No), s)
    ensures Val(Unequal(s, No), env) == 2 <==> env.str(s) != "n"
  {}

  // ----- the submenu test -----

  /** The simplified form of "e != n". */
  method SimplifiedUnequalNo(e: Option<Expr>) returns (r: Expr)
    ensures Refines(Transform(UnequalNo(e)), r) && Settled(r) && Nnf(r)
  {
    var s := new Simplifier(Transform(UnequalNo(e)));
    s.EliminateDups();
    r := s.tree;
  }

  /** The rounded value of a condition in a comparison with n. */
  function DepRounded(e: Option<Expr>, env: Env): Tri {
    if e.None? then 2 else Rounded(e.value, No, env)
  }

  lemma SimplifiedValue(e: Option<Expr>, r: Expr, env: Env)
    requires WellFormed(env)
    requires Refines(Transform(UnequalNo(e)), r)
    ensures Val(r, env) == Truth(DepRounded(e, env) != 0)
  {
    TransformExact(UnequalNo(e), env);
    if e.Some? {
      TransCompareValue(e.value, false, No, env);
    }
  }

  /** dep, rounded, never holds while base, rounded, does not. */
  ghost predicate Implies(dep: Expr, base: Option<Expr>) {
    forall env :: WellFormed(env) && Rounded(dep, No, env) != 0 ==> DepRounded(base, env) != 0
  }

  /** What that says of the values themselves, where the symbols have the texts of their values: if
      dep holds while base is n, then dep is m and rounds to n. */
  lemma ImpliesValue(dep: Expr, base: Option<Expr>, env: Env)
    requires Implies(dep, base) && WellFormed(env)
    requires SpelledLeaves(dep, env) && (base.Some? ==> SpelledLeaves(base.value, env))
    requires Val(dep, env) != 0 && DepVal(base, env) == 0
    ensures Val(dep, env) == 1 && Rounded(dep, No, env) == 0
  {
    RoundedDecided(dep, No, env);
    RoundedDecided(base.value, No, env);
  }

  /** Does the entry with condition dep go below the preceding entry `sym`, which is visible
      under base? Also returns the simplified forms that were compared. */
  method BelongsBelow(sym: Symbol, base: Option<Expr>, dep: Option<Expr>)
    returns (r: bool, simpleDep: Expr, simpleBase: Expr)
    ensures Refines(Transform(UnequalNo(dep)), simpleDep) && Refines(Transform(UnequalNo(base)), simpleBase)
    ensures r <==> && ContainsSymbol(dep, sym)
                   && (DependsSymbol(dep.value, sym) || EliminateEq(simpleDep, simpleBase).1 == Leaf(Yes))
    ensures r ==> DependsSymbol(dep.value, sym) || Implies(dep.value, base)
  {
    simpleBase := SimplifiedUnequalNo(base);
    simpleDep := SimplifiedUnequalNo(dep);
    r := ContainsSymbol(dep, sym);
    if !r {
      return;
    }
    if !DependsSymbol(dep.value, sym) {
      r := EliminateEq(simpleDep, simpleBase).1 == Leaf(Yes);
      if r {
        SubmenuSound(base, dep, simpleBase, simpleDep);
      }
    }
  }

  lemma SubmenuSound(base: Option<Expr>, dep: Option<Expr>, simpleBase: Expr, simpleDep: Expr)
    requires dep.Some?
    requires Refines(Transform(UnequalNo(base)), simpleBase)
    requires Refines(Transform(UnequalNo(dep)), simpleDep)
    requires EliminateEq(simpleDep, simpleBase).1 == Leaf(Yes)
    ensures Implies(dep.value, base)
  {
    forall env | WellFormed(env) && Rounded(dep.value, No, env) != 0
      ensures DepRounded(base, env) != 0
    {
      SimplifiedValue(base, simpleBase, env);
      SimplifiedValue(dep, simpleDep, env);
      EliminateEqImplication(simpleDep, simpleBase, env);
    }
  }

  /** The values can be out of order where the rounded ones are not: "!T && X" passes the test
      against "T = n", yet with T = m and X = y the first is m and the second n. */
  lemma SubmenuMissesM(t: Symbol, x: Symbol, env: Env)
    requires t.IsTristate() && x.IsTristate() && t != x && WellFormed(env)
    requires env.tri(t) == 1 && env.tri(x) == 2
    ensures var dep, base := Bin(AND, Not(Leaf(t)), Leaf(x)), Equal(t, No);
            && EliminateEq(Transform(UnequalNo(Some(dep))), Transform(UnequalNo(Some(base)))).1 == Leaf(Yes)
            && Val(dep, env) == 1 && Val(base, env) == 0
  {
    assert env.str(t) == TriText(env.tri(t));
    var dep, base := Bin(AND, Not(Leaf(t)), Leaf(x)), Equal(t, No);
    var a, b := Equal(t, No), Unequal(x, No);
    assert Val(Not(Leaf(t)), env) == 1;
    assert TransCompare(dep.l, true, No) == TransCompare(Leaf(t), false, No) == Some(Unequal(t, No));
    assert TransCompare(dep.r, true, No) == Some(Equal(x, No));
    assert UnequalNo(Some(dep)) == Not(Bin(OR, Unequal(t, No), Equal(x, No)));
    assert Transform(Bin(OR, Unequal(t, No), Equal(x, No))) == Bin(OR, Unequal(t, No), Equal(x, No));
    assert Transform(Not(Unequal(t, No))) == a && Transform(Not(Equal(x, No))) == b;
    assert Transform(UnequalNo(Some(dep))) == Bin(AND, a, b);
    assert Cancel(AND, a, base) == (Leaf(Yes), Leaf(Yes));
    assert Cancel(AND, b, Leaf(Yes)) == (b, Leaf(Yes));
    assert Cancel(AND, Bin(AND, a, b), base) == (Bin(AND, Leaf(Yes), b), Leaf(Yes));
  }

  /** So can they with an undefined symbol u: "!T && u != n" passes the test against u, yet with T = n
      the first is y and the second n. */
  lemma SubmenuMissesUndefined(t: Symbol, u: Symbol, env: Env)
    requires t.IsTristate() && u.Named? && u.kind == UnknownType && WellFormed(env)
    requires env.tri(t) == 0 && env.tri(u) == 0 && env.str(u) != "n"
    ensures var dep, base := Bin(AND, Not(Leaf(t)), Unequal(u, No)), Leaf(u);
            && EliminateEq(Transform(UnequalNo(Some(dep))), Transform(UnequalNo(Some(base)))).1 == Leaf(Yes)
            && Val(dep, env) == 2 && Val(base, env) == 0
  {
    var dep := Bin(AND, Not(Leaf(t)), Unequal(u, No));
    var a, b := Equal(t, No), Unequal(u, No);
    assert Val(Not(Leaf(t)), env) == 2;
    assert TransCompare(dep.l, true, No) == TransCompare(Leaf(t), false, No) == Some(Unequal(t, No));
    assert TransCompare(dep.r, true, No) == Some(Not(b));
    assert UnequalNo(Some(dep)) == Not(Bin(OR, Unequal(t, No), Not(b)));
    assert Transform(b) == b && Transform(Not(b)) == Equal(u, No);
    assert Transform(Bin(OR, Unequal(t, No), Not(b))) == Bin(OR, Unequal(t, No), Equal(u, No));
    assert Transform(Not(Unequal(t, No))) == a && Transform(Not(Equal(u, No))) == b;
    assert Transform(UnequalNo(Some(dep))) == Bin(AND, a, b);
    assert UnequalNo(Some(Leaf(u))) == b;
    assert Eq(b, b) && !Eq(a, b);
    assert Cancel(AND, a, b) == (a, b) && Cancel(AND, b, b) == (Leaf(Yes), Leaf(Yes));
    assert Cancel(AND, Bin(AND, a, b), b) == (Bin(AND, a, Leaf(Yes)), Leaf(Yes));
  }
}
