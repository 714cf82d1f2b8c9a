/** Dependency expressions of the configuration language: syntax, three-valued
    meaning, and the constant folder `expr_eliminate_yn`. */
module Expr {

  datatype Option<+T> = None | Some(value: T)

  /** n, m and y are 0, 1 and 2. */
  type Tri = t: int | 0 <= t <= 2

  function TriText(t: Tri): string {
    if t == 0 then "n" else if t == 1 then "m" else "y"
  }

  datatype SymbolType =
    | UnknownType | BooleanType | TristateType | IntType | HexType | StringType | OtherType

  /** Looking up "y", "m" or "n" always yields one of the three built-in symbols,
      so no other constant symbol carries such a text. */
  type ConstText = s: string | s != "y" && s != "m" && s != "n" witness ""

  datatype Symbol =
    | Yes | Mod | No
    | Const(text: ConstText)
    | Named(name: string, kind: SymbolType)
  {
    predicate IsConst() { !Named? }
    predicate IsBoolean() { Named? && kind == BooleanType }
    predicate IsTristate() { Named? && kind == TristateType }
    predicate IsBuiltIn() { Yes? || Mod? || No? }
    /** Symbols whose string value is the text of their three-valued value. */
    predicate IsLogical() { IsBuiltIn() || IsBoolean() || IsTristate() }
  }

  datatype Op = AND | OR

  datatype Expr =
    | Leaf(sym: Symbol)
    | Not(arg: Expr)
    | Equal(left: Symbol, right: Symbol)
    | Unequal(left: Symbol, right: Symbol)
    | Bin(op: Op, l: Expr, r: Expr)

  function Apply(op: Op, a: Tri, b: Tri): Tri {
    match op
    case AND => if a < b then a else b
    case OR => if a > b then a else b
  }

  function Neutral(op: Op): Symbol { if op == AND then Yes else No }

  function Absorbing(op: Op): Symbol { if op == AND then No else Yes }

  function Dual(op: Op): Op { if op == AND then OR else AND }

  predicate IsOp(e: Expr, op: Op) { e.Bin? && e.op == op }

  predicate IsYn(e: Expr) { e == Leaf(Yes) || e == Leaf(No) }

  /** The current value of every symbol. */
  datatype Env = Env(tri: Symbol -> Tri, str: Symbol -> string)

  /** The built-in symbols mean what they spell. */
  ghost predicate BuiltIns(env: Env) {
    && env.tri(Yes) == 2 && env.tri(Mod) == 1 && env.tri(No) == 0
    && env.str(Yes) == "y" && env.str(Mod) == "m" && env.str(No) == "n"
  }

  /** What the evaluator guarantees of symbol values. */
  ghost predicate WellFormed(env: Env) {
    && BuiltIns(env)
    && (forall s: Symbol :: s.IsBoolean() ==> env.tri(s) != 1)
    && (forall s: Symbol :: s.IsBoolean() || s.IsTristate() ==> env.str(s) == TriText(env.tri(s)))
    && (forall s: Symbol :: s.Const? ==> env.str(s) == s.text)
  }

  function Val(e: Expr, env: Env): Tri {
    match e
    case Leaf(s) => env.tri(s)
    case Not(a) => 2 - Val(a, env)
    case Equal(a, b) => if env.str(a) == env.str(b) then 2 else 0
    case Unequal(a, b) => if env.str(a) == env.str(b) then 0 else 2
    case Bin(op, a, b) => Apply(op, Val(a, env), Val(b, env))
  }

  /** An absent condition counts as y. */
  function DepVal(e: Option<Expr>, env: Env): Tri {
    if e.None? then 2 else Val(e.value, env)
  }

  function Size(e: Expr): nat {
    match e
    case Not(a) => 1 + Size(a)
    case Bin(_, a, b) => 1 + Size(a) + Size(b)
    case _ => 1
  }

  ghost predicate Equivalent(e: Expr, e': Expr) {
    forall env :: WellFormed(env) ==> Val(e', env) == Val(e, env)
  }

  /** Kleene's information order, pointwise: y stays y, n stays n, m may be decided. */
  ghost predicate Refines(e: Expr, e': Expr) {
    forall env :: WellFormed(env) && Val(e, env) != 1 ==> Val(e', env) == Val(e, env)
  }

  /** Symbols the expression reads. */
  function Symbols(e: Expr): set<Symbol> {
    match e
    case Leaf(s) => {s}
    case Not(a) => Symbols(a)
    case Equal(a, b) => {a, b}
    case Unequal(a, b) => {a, b}
    case Bin(_, a, b) => Symbols(a) + Symbols(b)
  }

  /** A value depends on nothing but the symbols in the expression. */
  lemma {:induction false} ValDependsOnSymbols(e: Expr, env: Env, env': Env)
    requires forall s :: s in Symbols(e) ==> env.tri(s) == env'.tri(s) && env.str(s) == env'.str(s)
    ensures Val(e, env) == Val(e, env')
  {
    match e
    case Not(a) => ValDependsOnSymbols(a, env, env');
    case Bin(_, a, b) => ValDependsOnSymbols(a, env, env'); ValDependsOnSymbols(b, env, env');
    case _ =>
  }

  // ----- expr_eliminate_yn -----

  /** Folds y and n out of AND and OR, bottom up; it does not look below a NOT. */
  function EliminateYn(e: Expr): (r: Expr)
    ensures Size(r) <= Size(e)
  {
    match e
    case Bin(op, a, b) =>
      var a', b' := EliminateYn(a), EliminateYn(b);
      if a' == Leaf(Absorbing(op)) then Leaf(Absorbing(op))
      else if a' == Leaf(Neutral(op)) then b'
      else if b' == Leaf(Absorbing(op)) then Leaf(Absorbing(op))
      else if b' == Leaf(Neutral(op)) then a'
      else Bin(op, a', b')
    case _ => e
  }

  lemma {:induction false} EliminateYnExact(e: Expr, env: Env)
    requires BuiltIns(env)
    ensures Val(EliminateYn(e), env) == Val(e, env)
  {
    match e
    case Bin(_, a, b) => EliminateYnExact(a, env); EliminateYnExact(b, env);
    case _ =>
  }

  /** Some AND or OR that is reached without passing a NOT has y or n as a child. */
  predicate HasYnChild(e: Expr) {
    e.Bin? && (IsYn(e.l) || IsYn(e.r) || HasYnChild(e.l) || HasYnChild(e.r))
  }

  /** The folder removes every foldable constant, shrinks the tree whenever there is one,
      and changes nothing otherwise. */
  lemma {:induction false} EliminateYnNormal(e: Expr)
    ensures !HasYnChild(EliminateYn(e))
    ensures HasYnChild(e) ==> Size(EliminateYn(e)) < Size(e)
    ensures !HasYnChild(e) ==> EliminateYn(e) == e
  {
    match e
    case Bin(_, a, b) => EliminateYnNormal(a); EliminateYnNormal(b);
    case _ =>
  }

}
