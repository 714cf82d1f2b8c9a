/** Symbol values: the plain recursive meaning, and the memoised evaluator `sym_calc_value`.
    Choices and their members are in module Choice. */
module SymbolEval {
  import opened Expr

  datatype PropKind = Prompt | Default | Select | OtherProp

  /** A property; only defaults have an expression, and an absent condition counts as y. */
  datatype Prop = Prop(kind: PropKind, visible: Option<Expr>, expr: Expr)

  datatype UserValue = UserValue(tri: Tri, str: string)

  datatype Definition = Definition(
    props: seq<Prop>, dirDep: Option<Expr>, revDep: Option<Expr>)

  const NoDefinition := Definition([], None, None)

  /** The parsed configuration: definitions, the user's values, and the fixed value of the
      symbol that enables modules. */
  datatype Config = Config(defs: map<Symbol, Definition>, user: map<Symbol, UserValue>, modules: Tri)
  {
    function Def(s: Symbol): Definition {
      if s in defs then defs[s] else NoDefinition
    }

    /** `sym_get_type` of a bool or tristate symbol: without modules a tristate is a bool. */
    predicate ActsBoolean(s: Symbol) { s.IsBoolean() || (s.IsTristate() && modules == 0) }
  }

  /** `struct symbol_value` */
  datatype Value = Value(tri: Tri, str: string)

  function DepSymbols(e: Option<Expr>): set<Symbol> {
    if e.None? then {} else Symbols(e.value)
  }

  function Or(a: Tri, b: Tri): Tri { Apply(OR, a, b) }

  function And(a: Tri, b: Tri): Tri { Apply(AND, a, b) }

  // ----- the meaning of one symbol, given the values of the others -----

  /** The best visibility among the prompts. */
  function PromptVal(props: seq<Prop>, env: Env): Tri {
    if props == [] then 0
    else
      var rest := props[..|props| - 1];
      var p := props[|props| - 1];
      if p.kind == Prompt then Or(PromptVal(rest, env), DepVal(p.visible, env)) else PromptVal(rest, env)
  }

  function Visibility(cfg: Config, s: Symbol, env: Env): Tri {
    var v := PromptVal(cfg.Def(s).props, env);
    if v == 1 && (!s.IsTristate() || cfg.modules == 0) then 2 else v
  }

  function ReverseDep(cfg: Config, s: Symbol, env: Env): Tri {
    var e := cfg.Def(s).revDep;
    var v := if e.None? then 0 else Val(e.value, env);
    if v == 1 && cfg.ActsBoolean(s) then 2 else v
  }

  /** The first default whose condition is not n. */
  function DefaultProp(props: seq<Prop>, env: Env): Option<Prop> {
    if props == [] then None
    else if props[0].kind == Default && DepVal(props[0].visible, env) != 0 then Some(props[0])
    else DefaultProp(props[1..], env)
  }

  function TriValue(cfg: Config, s: Symbol, env: Env): Tri {
    var vis := Visibility(cfg, s, env);
    var d := DefaultProp(cfg.Def(s).props, env);
    var own :=
      if vis != 0 && s in cfg.user then And(cfg.user[s].tri, vis)
      else if d.Some? then And(Val(d.value.expr, env), DepVal(d.value.visible, env))
      else 0;
    var v := Or(own, ReverseDep(cfg, s, env));
    if v == 1 && cfg.ActsBoolean(s) then 2 else v
  }

  /** The raw text of a symbol. Unlike `sym_get_string_value` it is the literal n for every
      bool and tristate symbol. */
  function RawText(s: Symbol, env: Env): string {
    if s.IsBoolean() || s.IsTristate() then "n" else env.str(s)
  }

  function StringValue(cfg: Config, s: Symbol, env: Env): string {
    var d := DefaultProp(cfg.Def(s).props, env);
    if Visibility(cfg, s, env) != 0 && s in cfg.user then cfg.user[s].str
    else if d.Some? && d.value.expr.Leaf? then RawText(d.value.expr.sym, env)
    else ""
  }

  function ValueIn(cfg: Config, s: Symbol, env: Env): Value {
    match s
    case Yes => Value(2, "y")
    case Mod => Value(1, "m")
    case No => Value(0, "n")
    case Const(t) => Value(0, t)
    case Named(name, kind) =>
      match kind
      case BooleanType => Value(TriValue(cfg, s, env), "n")
      case TristateType => Value(TriValue(cfg, s, env), "n")
      case IntType => Value(0, StringValue(cfg, s, env))
      case HexType => Value(0, StringValue(cfg, s, env))
      case StringType => Value(0, StringValue(cfg, s, env))
      case _ => Value(0, name)
  }

  /** `sym_get_string_value` */
  function Text(cfg: Config, s: Symbol, v: Value): string {
    if s.IsBoolean() || s.IsTristate() then
      if v.tri == 1 && cfg.modules == 0 then "n" else TriText(v.tri)
    else v.str
  }

  /** Everything the value of a symbol is computed from. */
  function PropSymbols(props: seq<Prop>): set<Symbol> {
    if props == [] then {}
    else
      (match props[0].kind
       case Prompt => DepSymbols(props[0].visible)
       case Default => DepSymbols(props[0].visible) + Symbols(props[0].expr)
       case _ => {}) + PropSymbols(props[1..])
  }

  function Deps(d: Definition): set<Symbol> {
    PropSymbols(d.props) + DepSymbols(d.dirDep) + DepSymbols(d.revDep)
  }

  // ----- the plain recursive definition -----

  /** The dependency graph is acyclic: every symbol ranks above all it depends on. */
  ghost predicate Ranked(cfg: Config, rank: Symbol -> nat) {
    forall s :: RanksAbove(cfg, rank, s)
  }

  ghost predicate RanksAbove(cfg: Config, rank: Symbol -> nat, s: Symbol) {
    forall t :: t in Deps(cfg.Def(s)) ==> rank(t) < rank(s)
  }

  ghost function Meaning(cfg: Config, rank: Symbol -> nat, s: Symbol): Value
    decreases rank(s), 1
  {
    ValueIn(cfg, s, EnvBelow(cfg, rank, rank(s)))
  }

  ghost function EnvBelow(cfg: Config, rank: Symbol -> nat, n: nat): Env
    decreases n, 0
  {
    Env(t => if rank(t) < n then Meaning(cfg, rank, t).tri else 0,
        t => if rank(t) < n then Text(cfg, t, Meaning(cfg, rank, t)) else "")
  }

  /** The values of all symbols at once. */
  ghost function EnvOf(cfg: Config, rank: Symbol -> nat): Env {
    Env(t => Meaning(cfg, rank, t).tri, t => Text(cfg, t, Meaning(cfg, rank, t)))
  }

  ghost predicate Agree(syms: set<Symbol>, env: Env, env': Env) {
    forall s :: s in syms ==> env.tri(s) == env'.tri(s) && env.str(s) == env'.str(s)
  }

  lemma {:induction false} PropsAgree(props: seq<Prop>, env: Env, env': Env)
    requires Agree(PropSymbols(props), env, env')
    ensures PromptVal(props, env) == PromptVal(props, env')
    ensures DefaultProp(props, env) == DefaultProp(props, env')
    ensures forall p :: p in props && p.kind == Default ==>
              DepSymbols(p.visible) + Symbols(p.expr) <= PropSymbols(props)
    ensures DefaultProp(props, env).Some? ==>
              DefaultProp(props, env).value in props && DefaultProp(props, env).value.kind == Default
  {
    PromptsAgree(props, env, env');
    if props != [] {
      PropsAgree(props[1..], env, env');
      if props[0].visible.Some? && props[0].kind == Default {
        ValDependsOnSymbols(props[0].visible.value, env, env');
      }
    }
  }

  lemma {:induction false} PropSymbolsSplit(props: seq<Prop>)
    requires props != []
    ensures PropSymbols(props) == PropSymbols(props[..|props| - 1]) + PropSymbols([props[|props| - 1]])
  {
    var rest := props[..|props| - 1];
    if rest != [] {
      PropSymbolsSplit(props[1..]);
      assert props[1..][..|props| - 2] == rest[1..];
    } else {
      assert props == [props[0]];
    }
  }

  lemma {:induction false} PromptsAgree(props: seq<Prop>, env: Env, env': Env)
    requires Agree(PropSymbols(props), env, env')
    ensures PromptVal(props, env) == PromptVal(props, env')
  {
    if props != [] {
      PropSymbolsSplit(props);
      PromptsAgree(props[..|props| - 1], env, env');
      var p := props[|props| - 1];
      if p.visible.Some? && p.kind == Prompt {
        assert PropSymbols([p]) == DepSymbols(p.visible) + PropSymbols([]);
        ValDependsOnSymbols(p.visible.value, env, env');
      }
    }
  }

  /** The value of a symbol depends only on the values of the symbols it depends on. */
  lemma ValueInAgrees(cfg: Config, s: Symbol, env: Env, env': Env)
    requires Agree(Deps(cfg.Def(s)), env, env')
    ensures ValueIn(cfg, s, env) == ValueIn(cfg, s, env')
    ensures Visibility(cfg, s, env) == Visibility(cfg, s, env')
    ensures ReverseDep(cfg, s, env) == ReverseDep(cfg, s, env')
  {
    var d := cfg.Def(s);
    PropsAgree(d.props, env, env');
    if d.revDep.Some? {
      ValDependsOnSymbols(d.revDep.value, env, env');
    }
    var p := DefaultProp(d.props, env);
    if p.Some? {
      assert Agree(Symbols(p.value.expr) + DepSymbols(p.value.visible), env, env');
      ValDependsOnSymbols(p.value.expr, env, env');
      if p.value.visible.Some? {
        ValDependsOnSymbols(p.value.visible.value, env, env');
      }
    }
  }

  /** The recursive definition is a solution of all the equations at once. */
  lemma MeaningUnfold(cfg: Config, rank: Symbol -> nat, s: Symbol)
    requires Ranked(cfg, rank)
    ensures Meaning(cfg, rank, s) == ValueIn(cfg, s, EnvOf(cfg, rank))
  {
    assert RanksAbove(cfg, rank, s);
    ValueInAgrees(cfg, s, EnvBelow(cfg, rank, rank(s)), EnvOf(cfg, rank));
  }

  /** The evaluator's values satisfy everything the expression simplifier relies on. */
  lemma EnvWellFormed(cfg: Config, rank: Symbol -> nat)
    ensures WellFormed(EnvOf(cfg, rank))
  {
  }

  /** A symbol that is mentioned but never defined is n, with its name as its text. */
  lemma UndefinedMeaning(cfg: Config, rank: Symbol -> nat, name: string)
    ensures EnvOf(cfg, rank).tri(Named(name, UnknownType)) == 0
    ensures EnvOf(cfg, rank).str(Named(name, UnknownType)) == name
  {}

  /** An int, hex or string symbol without a default and without a value of the user is empty, even if
      it is visible. */
  lemma UnsetTextIsEmpty(cfg: Config, s: Symbol, env: Env)
    requires HasVisibility(s) && !s.IsBoolean() && !s.IsTristate()
    requires s !in cfg.user && forall p :: p in cfg.Def(s).props ==> p.kind != Default
    ensures ValueIn(cfg, s, env) == Value(0, "")
  {
    NoDefault(cfg.Def(s).props, env);
  }

  lemma {:induction false} NoDefault(props: seq<Prop>, env: Env)
    requires forall p :: p in props ==> p.kind != Default
    ensures DefaultProp(props, env) == None
  {
    if props != [] { NoDefault(props[1..], env); }
  }

  /** A solution of the value equations over an acyclic graph, as the evaluator's proof uses
      it: the rank, value, visibility and reverse dependency of every symbol. */
  datatype Solution = Solution(
    rank: Symbol -> nat, val: Symbol -> Value, vis: Symbol -> Tri, rev: Symbol -> Tri, env: Env)

  ghost predicate Solves(cfg: Config, o: Solution) {
    forall s :: SolvesAt(cfg, o, s)
  }

  ghost predicate SolvesAt(cfg: Config, o: Solution, s: Symbol) {
    && RanksAbove(cfg, o.rank, s)
    && o.val(s) == ValueIn(cfg, s, o.env)
    && o.vis(s) == Visibility(cfg, s, o.env)
    && o.rev(s) == ReverseDep(cfg, s, o.env)
    && o.env.tri(s) == o.val(s).tri
    && o.env.str(s) == Text(cfg, s, o.val(s))
  }

  /** The plain recursive definition, as a solution. */
  ghost function Recursive(cfg: Config, rank: Symbol -> nat): Solution {
    var env := EnvOf(cfg, rank);
    Solution(rank, s => Meaning(cfg, rank, s), s => Visibility(cfg, s, env), s => ReverseDep(cfg, s, env), env)
  }

  lemma RawTextIs(cfg: Config, o: Solution, s: Symbol)
    requires SolvesAt(cfg, o, s)
    ensures o.val(s).str == RawText(s, o.env)
  {}

  lemma RecursiveSolves(cfg: Config, rank: Symbol -> nat)
    requires Ranked(cfg, rank)
    ensures Solves(cfg, Recursive(cfg, rank))
  {
    forall s ensures SolvesAt(cfg, Recursive(cfg, rank), s) {
      assert RanksAbove(cfg, rank, s);
      MeaningUnfold(cfg, rank, s);
    }
  }

  // ----- the memoised evaluator -----

  /** The symbols whose visibility is computed before their value. */
  predicate HasVisibility(s: Symbol) {
    s.Named? && s.kind != UnknownType && s.kind != OtherType
  }

  /** The computed fields of a symbol. */
  datatype Fields = Fields(curr: Value, visible: Tri, dirDep: Tri, revDep: Tri)

  /** What is remembered of the symbols; `valid` collects the SYMBOL_VALID flags. */
  datatype Cache = Cache(valid: set<Symbol>, at: map<Symbol, Fields>)
  {
    /** Every symbol of the table has its fields, and y, m and n are always valid. */
    ghost predicate Proper(syms: set<Symbol>) {
      at.Keys == syms && {Yes, Mod, No} <= valid <= syms
    }

    ghost predicate Right(o: Solution, t: Symbol)
      requires t in at
    {
      at[t].curr == o.val(t) && (HasVisibility(t) ==> at[t].visible == o.vis(t) && at[t].revDep == o.rev(t))
    }

    /** Every symbol marked valid, except those still being computed, has its meaning. */
    ghost predicate Sound(o: Solution, open: set<Symbol>)
      requires valid <= at.Keys
    {
      forall t :: t in valid && t !in open ==> Right(o, t)
    }

    /** Only the built-in symbols are marked valid. */
    function Cleared(): Cache { this.(valid := {Yes, Mod, No}) }

    /** Symbols marked valid here keep all that was computed for them, `except` aside. */
    ghost predicate Extended(except: set<Symbol>, c: Cache)
    {
      && valid <= c.valid && at.Keys == c.at.Keys
      && (forall t :: t in valid && t !in except && t in at ==> c.at[t] == at[t])
    }
  }

  /** Every symbol under computation ranks above syms. */
  ghost predicate Under(o: Solution, syms: set<Symbol>, open: set<Symbol>) {
    forall s, t :: s in syms && t in open ==> o.rank(s) < o.rank(t)
  }

  class SymbolTable {
    const defs: map<Symbol, Definition>
    const modules: Tri
    /** The symbol that enables modules. */
    const modulesSym: Option<Symbol>
    var user: map<Symbol, UserValue>
    var cache: Cache

    function Cfg(): Config
      reads this`user
    {
      Config(defs, user, modules)
    }

    /** Every symbol that is mentioned is in the table. */
    ghost predicate Closed() {
      && (forall s {:trigger Deps(defs[s])} :: s in defs ==> Deps(defs[s]) <= defs.Keys)
      && (modulesSym.Some? ==> modulesSym.value in defs)
    }

    constructor (defs: map<Symbol, Definition>, user: map<Symbol, UserValue>, modules: Tri,
                 modulesSym: Option<Symbol>)
      requires {Yes, Mod, No} <= defs.Keys
      requires modulesSym.Some? ==> modulesSym.value in defs
      requires forall s :: s in defs ==> Deps(defs[s]) <= defs.Keys
      ensures Closed() && cache.Proper(defs.Keys)
      ensures Cfg() == Config(defs, user, modules)
      ensures forall o :: Solves(Cfg(), o) ==> cache.Sound(o, {})
    {
      this.defs, this.user, this.modules, this.modulesSym := defs, user, modules, modulesSym;
      cache := Cache(
        {Yes, Mod, No},
        map s | s in defs ::
          var v := if s == Yes then Value(2, "y") else if s == Mod then Value(1, "m") else Value(0, "n");
          Fields(v, 0, 0, 0));
      new;
      forall o | Solves(Cfg(), o) ensures cache.Sound(o, {}) {
        OnlyBuiltIns(Cfg(), o, cache);
      }
    }

    /** `expr_calc_value` */
    method CalcExpr(e: Expr, ghost o: Solution, ghost open: set<Symbol>) returns (r: Tri)
      requires Closed() && cache.Proper(defs.Keys) && Symbols(e) <= defs.Keys
      modifies this`cache
      ensures cache.Proper(defs.Keys) && old(cache).Extended({}, cache) && Symbols(e) <= cache.valid
      ensures Solves(Cfg(), o) && Under(o, Symbols(e), open) && old(cache).Sound(o, open) ==>
                cache.Sound(o, open) && r == Val(e, o.env)
      decreases defs.Keys - cache.valid, 3, e
    {
      match e
      case Leaf(s) =>
        CalcValue(s, o, open);
        r := cache.at[s].curr.tri;
        assert Solves(Cfg(), o) ==> SolvesAt(Cfg(), o, s);
      case Not(a) =>
        var v := CalcExpr(a, o, open);
        r := 2 - v;
      case Equal(a, b) =>
        var v := SameText(a, b, o, open);
        r := if v then 2 else 0;
      case Unequal(a, b) =>
        var v := SameText(a, b, o, open);
        r := if v then 0 else 2;
      case Bin(op, a, b) =>
        var v := CalcExpr(a, o, open);
        var w := CalcExpr(b, o, open);
        r := Apply(op, v, w);
    }

    /** Compares the string values of two symbols. */
    method SameText(a: Symbol, b: Symbol, ghost o: Solution, ghost open: set<Symbol>) returns (r: bool)
      requires Closed() && cache.Proper(defs.Keys) && a in defs && b in defs
      modifies this`cache
      ensures cache.Proper(defs.Keys) && old(cache).Extended({}, cache) && {a, b} <= cache.valid
      ensures Solves(Cfg(), o) && Under(o, {a, b}, open) && old(cache).Sound(o, open) ==>
                && cache.Sound(o, open)
                && r == (o.env.str(a) == o.env.str(b))
      decreases defs.Keys - cache.valid, 2
    {
      CalcValue(a, o, open);
      CalcValue(b, o, open);
      assert Solves(Cfg(), o) ==> SolvesAt(Cfg(), o, a) && SolvesAt(Cfg(), o, b);
      r := Text(Cfg(), a, cache.at[a].curr) == Text(Cfg(), b, cache.at[b].curr);
    }

    /** The same for an optional condition. */
    method CalcDep(e: Option<Expr>, ghost o: Solution, ghost open: set<Symbol>) returns (r: Tri)
      requires Closed() && cache.Proper(defs.Keys) && DepSymbols(e) <= defs.Keys
      modifies this`cache
      ensures cache.Proper(defs.Keys) && old(cache).Extended({}, cache)
      ensures Solves(Cfg(), o) && Under(o, DepSymbols(e), open) && old(cache).Sound(o, open) ==>
                cache.Sound(o, open) && r == DepVal(e, o.env)
      decreases defs.Keys - cache.valid, 4
    {
      if e.None? {
        r := 2;
      } else {
        r := CalcExpr(e.value, o, open);
      }
    }

    /** The first loop of `sym_calc_visibility`: the best visibility among the prompts. */
    method CalcPrompts(props: seq<Prop>, ghost o: Solution, ghost open: set<Symbol>) returns (tri: Tri)
      requires Closed() && cache.Proper(defs.Keys) && PropSymbols(props) <= defs.Keys
      modifies this`cache
      ensures cache.Proper(defs.Keys) && old(cache).Extended({}, cache)
      ensures Solves(Cfg(), o) && Under(o, PropSymbols(props), open) && old(cache).Sound(o, open) ==>
                cache.Sound(o, open) && tri == PromptVal(props, o.env)
      decreases defs.Keys - cache.valid, 5
    {
      tri := 0;
      ghost var c0, env := cache, o.env;
      ghost var ready := Solves(Cfg(), o) && Under(o, PropSymbols(props), open) && cache.Sound(o, open);
      for i := 0 to |props|
        invariant cache.Proper(defs.Keys) && c0.Extended({}, cache)
        invariant ready ==> cache.Sound(o, open) && tri == PromptVal(props[..i], env)
      {
        assert props[..i + 1][..i] == props[..i];
        if props[i].kind == Prompt {
          PropSymbolsAt(props, i);
          var v := CalcDep(props[i].visible, o, open);
          tri := Or(tri, v);
        }
      }
      assert props[..|props|] == props;
    }

    /** `sym_get_default_prop`, which also returns the value of the default's condition. */
    method GetDefaultProp(props: seq<Prop>, ghost o: Solution, ghost open: set<Symbol>)
      returns (r: Option<Prop>, vis: Tri)
      requires Closed() && cache.Proper(defs.Keys) && PropSymbols(props) <= defs.Keys
      modifies this`cache
      ensures cache.Proper(defs.Keys) && old(cache).Extended({}, cache)
      ensures r.Some? ==> r.value.kind == Default && r.value in props
      ensures Solves(Cfg(), o) && Under(o, PropSymbols(props), open) && old(cache).Sound(o, open) ==>
                && cache.Sound(o, open)
                && r == DefaultProp(props, o.env)
                && (r.Some? ==> vis == DepVal(r.value.visible, o.env))
      decreases defs.Keys - cache.valid, 5
    {
      ghost var c0, env := cache, o.env;
      ghost var ready := Solves(Cfg(), o) && Under(o, PropSymbols(props), open) && cache.Sound(o, open);
      vis := 0;
      for i := 0 to |props|
        invariant cache.Proper(defs.Keys) && c0.Extended({}, cache)
        invariant ready ==> cache.Sound(o, open) && DefaultProp(props, env) == DefaultProp(props[i..], env)
      {
        if props[i].kind == Default {
          PropSymbolsAt(props, i);
          vis := CalcDep(props[i].visible, o, open);
          if vis != 0 {
            return Some(props[i]), vis;
          }
        }
      }
      r := None;
    }

    /** Assigns the fields of a symbol under computation. */
    method SetFields(s: Symbol, f: Fields, ghost o: Solution, ghost open: set<Symbol>)
      requires cache.Proper(defs.Keys) && s in defs
      modifies this`cache
      ensures cache == Cache(old(cache).valid, old(cache).at[s := f])
      ensures cache.Proper(defs.Keys) && old(cache).Extended({s}, cache)
      ensures s in open && old(cache).Sound(o, open) ==> cache.Sound(o, open)
    {
      cache := cache.(at := cache.at[s := f]);
    }

    /** The best prompt, promoted where m is not possible. */
    method SetVisible(s: Symbol, ghost o: Solution, ghost open: set<Symbol>)
      requires Closed() && cache.Proper(defs.Keys) && s in cache.valid && s in open
      modifies this`cache
      ensures cache.Proper(defs.Keys) && old(cache).Extended({s}, cache)
      ensures Solves(Cfg(), o) && Under(o, Deps(Cfg().Def(s)), open) && old(cache).Sound(o, open) ==>
                cache.Sound(o, open) && cache.at[s].visible == o.vis(s)
      decreases defs.Keys - cache.valid, 6
    {
      assert Deps(defs[s]) <= defs.Keys;
      var tri := CalcPrompts(defs[s].props, o, open);
      if tri == 1 && (!s.IsTristate() || modules == 0) {
        tri := 2;
      }
      SetFields(s, cache.at[s].(visible := tri), o, open);
      assert Solves(Cfg(), o) ==> SolvesAt(Cfg(), o, s);
    }

    method SetDirDep(s: Symbol, ghost o: Solution, ghost open: set<Symbol>)
      requires Closed() && cache.Proper(defs.Keys) && s in cache.valid && s in open
      modifies this`cache
      ensures cache.Proper(defs.Keys) && old(cache).Extended({s}, cache)
      ensures cache.at[s].visible == old(cache).at[s].visible
      ensures Solves(Cfg(), o) && Under(o, Deps(Cfg().Def(s)), open) && old(cache).Sound(o, open) ==>
                cache.Sound(o, open)
      decreases defs.Keys - cache.valid, 6
    {
      assert Deps(defs[s]) <= defs.Keys;
      var tri := CalcDep(defs[s].dirDep, o, open);
      SetFields(s, cache.at[s].(dirDep := if tri == 1 then 2 else tri), o, open);
    }

    method CalcRevDep(s: Symbol, ghost o: Solution, ghost open: set<Symbol>) returns (tri: Tri)
      requires Closed() && cache.Proper(defs.Keys) && s in defs
      modifies this`cache
      ensures cache.Proper(defs.Keys) && old(cache).Extended({}, cache)
      ensures Solves(Cfg(), o) && Under(o, Deps(Cfg().Def(s)), open) && old(cache).Sound(o, open) ==>
                cache.Sound(o, open) && tri == o.rev(s)
      decreases defs.Keys - cache.valid, 5
    {
      assert Deps(defs[s]) <= defs.Keys;
      tri := 0;
      if defs[s].revDep.Some? {
        tri := CalcExpr(defs[s].revDep.value, o, open);
      }
      if tri == 1 && Cfg().ActsBoolean(s) {
        tri := 2;
      }
      assert Solves(Cfg(), o) ==> SolvesAt(Cfg(), o, s);
    }

    method SetRevDep(s: Symbol, ghost o: Solution, ghost open: set<Symbol>)
      requires Closed() && cache.Proper(defs.Keys) && s in cache.valid && s in open
      modifies this`cache
      ensures cache.Proper(defs.Keys) && old(cache).Extended({s}, cache)
      ensures cache.at[s].visible == old(cache).at[s].visible
      ensures Solves(Cfg(), o) && Under(o, Deps(Cfg().Def(s)), open) && old(cache).Sound(o, open) ==>
                cache.Sound(o, open) && cache.at[s].revDep == o.rev(s)
      decreases defs.Keys - cache.valid, 6
    {
      var tri := CalcRevDep(s, o, open);
      SetFields(s, cache.at[s].(revDep := tri), o, open);
    }

    /** `sym_calc_visibility` of a symbol that is marked valid already. */
    method CalcVisibility(s: Symbol, ghost o: Solution, ghost open: set<Symbol>)
      requires Closed() && cache.Proper(defs.Keys) && s in cache.valid && s in open
      modifies this`cache
      ensures cache.Proper(defs.Keys) && old(cache).Extended({s}, cache)
      ensures Solves(Cfg(), o) && Under(o, Deps(Cfg().Def(s)), open) && old(cache).Sound(o, open) ==>
                && cache.Sound(o, open)
                && cache.at[s].visible == o.vis(s) && cache.at[s].revDep == o.rev(s)
      decreases defs.Keys - cache.valid, 7
    {
      SetVisible(s, o, open);
      SetDirDep(s, o, open);
      SetRevDep(s, o, open);
    }

    /** The bool and tristate part of `sym_calc_value`. */
    method CalcTri(s: Symbol, ghost o: Solution, ghost open: set<Symbol>) returns (r: Tri)
      requires Closed() && cache.Proper(defs.Keys) && s in cache.valid && s in open
      requires s.IsBoolean() || s.IsTristate()
      modifies this`cache
      ensures cache.Proper(defs.Keys) && old(cache).Extended({}, cache)
      ensures Solves(Cfg(), o) && Under(o, Deps(Cfg().Def(s)), open) && old(cache).Sound(o, open)
              && old(cache).at[s].visible == o.vis(s) && old(cache).at[s].revDep == o.rev(s) ==>
                cache.Sound(o, open) && o.val(s) == Value(r, "n")
      decreases defs.Keys - cache.valid, 6
    {
      var d := defs[s];
      assert Deps(defs[s]) <= defs.Keys;
      r := 0;
      if cache.at[s].visible != 0 && s in user {
        r := And(user[s].tri, cache.at[s].visible);
      } else {
        var p, vis := GetDefaultProp(d.props, o, open);
        if p.Some? {
          DefaultSymbols(d.props, p.value);
          var v := CalcExpr(p.value.expr, o, open);
          r := And(v, vis);
        }
      }
      r := Or(r, cache.at[s].revDep);
      if r == 1 && Cfg().ActsBoolean(s) {
        r := 2;
      }
      assert Solves(Cfg(), o) ==> SolvesAt(Cfg(), o, s);
    }

    /** The default of an int, hex or string symbol: the raw text of another symbol. */
    method DefaultText(s: Symbol, ghost o: Solution, ghost open: set<Symbol>) returns (r: string)
      requires Closed() && cache.Proper(defs.Keys) && s in defs
      modifies this`cache
      ensures cache.Proper(defs.Keys) && old(cache).Extended({}, cache)
      ensures Solves(Cfg(), o) && Under(o, Deps(Cfg().Def(s)), open) && old(cache).Sound(o, open) ==>
                && cache.Sound(o, open)
                && var d := DefaultProp(defs[s].props, o.env);
                   r == if d.Some? && d.value.expr.Leaf? then RawText(d.value.expr.sym, o.env) else ""
      decreases defs.Keys - cache.valid, 6
    {
      assert Deps(defs[s]) <= defs.Keys;
      r := "";
      var p, vis := GetDefaultProp(defs[s].props, o, open);
      if p.Some? && p.value.expr.Leaf? {
        DefaultSymbols(defs[s].props, p.value);
        var ds := p.value.expr.sym;
        CalcValue(ds, o, open);
        r := cache.at[ds].curr.str;
        if Solves(Cfg(), o) { RawTextIs(Cfg(), o, ds); }
      }
    }

    /** The int, hex and string part of `sym_calc_value`. */
    method CalcString(s: Symbol, ghost o: Solution, ghost open: set<Symbol>) returns (r: string)
      requires Closed() && cache.Proper(defs.Keys) && s in cache.valid && s in open
      requires HasVisibility(s) && !s.IsBoolean() && !s.IsTristate()
      modifies this`cache
      ensures cache.Proper(defs.Keys) && old(cache).Extended({}, cache)
      ensures Solves(Cfg(), o) && Under(o, Deps(Cfg().Def(s)), open) && old(cache).Sound(o, open)
              && old(cache).at[s].visible == o.vis(s) ==>
                cache.Sound(o, open) && o.val(s) == Value(0, r)
      decreases defs.Keys - cache.valid, 7
    {
      if cache.at[s].visible != 0 && s in user {
        r := user[s].str;
      } else {
        r := DefaultText(s, o, open);
      }
      assert Solves(Cfg(), o) ==> SolvesAt(Cfg(), o, s);
    }

    /** The value of a symbol whose visibility is known; while it is computed, it counts as empty. */
    method CalcCurr(s: Symbol, ghost o: Solution, ghost open: set<Symbol>)
      requires Closed() && cache.Proper(defs.Keys) && s in cache.valid && s in open && HasVisibility(s)
      modifies this`cache
      ensures cache.Proper(defs.Keys) && old(cache).Extended({s}, cache)
      ensures Solves(Cfg(), o) && Under(o, Deps(Cfg().Def(s)), open) && old(cache).Sound(o, open)
              && old(cache).at[s].visible == o.vis(s) && old(cache).at[s].revDep == o.rev(s) ==>
                cache.Sound(o, open) && cache.Right(o, s)
      decreases defs.Keys - cache.valid, 8
    {
      SetFields(s, cache.at[s].(curr := Value(0, if s.IsBoolean() || s.IsTristate() then "n" else "")), o, open);
      if s.IsBoolean() || s.IsTristate() {
        var v := CalcTri(s, o, open);
        SetFields(s, cache.at[s].(curr := Value(v, "n")), o, open);
      } else {
        var v := CalcString(s, o, open);
        SetFields(s, cache.at[s].(curr := Value(0, v)), o, open);
      }
    }

    /** `sym_calc_value`. The symbol is marked valid before anything it depends on is looked
        at, so the recursion ends on every graph; on an acyclic one the cache is right. */
    method CalcValue(s: Symbol, ghost o: Solution, ghost open: set<Symbol>)
      requires Closed() && cache.Proper(defs.Keys) && s in defs
      modifies this`cache
      ensures cache.Proper(defs.Keys) && old(cache).Extended({}, cache) && s in cache.valid
      ensures Solves(Cfg(), o) && Under(o, {s}, open) && old(cache).Sound(o, open) ==>
                cache.Sound(o, open)
      decreases defs.Keys - cache.valid, 1
    {
      if s in cache.valid {
        return;
      }
      ghost var c0, open' := cache, open + {s};
      cache := cache.(valid := cache.valid + {s});
      if !HasVisibility(s) {
        SetFields(s, cache.at[s].(curr := Value(0, if s.Const? then s.text else s.name)), o, open');
        assert Solves(Cfg(), o) ==> SolvesAt(Cfg(), o, s);
        return;
      }
      if Solves(Cfg(), o) && Under(o, {s}, open) {
        DepsUnder(Cfg(), o, s, open);
      }
      CalcVisibility(s, o, open');
      CalcCurr(s, o, open');
    }

    method CalcEach(order: seq<Symbol>, ghost o: Solution)
      requires Closed() && cache.Proper(defs.Keys) && forall s :: s in order ==> s in defs
      modifies this`cache
      ensures cache.Proper(defs.Keys) && old(cache).valid <= cache.valid
      ensures forall s :: s in order ==> s in cache.valid
      ensures Solves(Cfg(), o) && old(cache).Sound(o, {}) ==> cache.Sound(o, {})
    {
      ghost var c0 := cache;
      for i := 0 to |order|
        invariant cache.Proper(defs.Keys) && c0.valid <= cache.valid
        invariant forall j :: 0 <= j < i ==> order[j] in cache.valid
        invariant Solves(Cfg(), o) && c0.Sound(o, {}) ==> cache.Sound(o, {})
      {
        CalcValue(order[i], o, {});
      }
    }

    /** Calculates symbols in any order, from any sound cache. On an acyclic graph every one
        of them then has the value of the plain recursive definition. */
    method CalcAll(order: seq<Symbol>, ghost rank: Symbol -> nat)
      requires Closed() && cache.Proper(defs.Keys) && forall s :: s in order ==> s in defs
      modifies this`cache
      ensures cache.Proper(defs.Keys) && old(cache).valid <= cache.valid
      ensures forall s :: s in order ==> s in cache.valid
      ensures Ranked(Cfg(), rank) && old(cache).Sound(Recursive(Cfg(), rank), {}) ==>
                && cache.Sound(Recursive(Cfg(), rank), {})
                && forall s :: s in order ==> cache.at[s].curr == Meaning(Cfg(), rank, s)
    {
      ghost var o := Recursive(Cfg(), rank);
      if Ranked(Cfg(), rank) {
        RecursiveSolves(Cfg(), rank);
      }
      CalcEach(order, o);
      if Ranked(Cfg(), rank) && old(cache).Sound(o, {}) {
        forall s | s in order ensures cache.at[s].curr == Meaning(Cfg(), rank, s) {
          assert cache.Right(o, s);
        }
      }
    }

    /** `sym_clear_all_valid`: the built-in symbols are not in the symbol hash and stay valid, and
        the symbol that enables modules is calculated again at once. */
    method ClearAllValid(ghost o: Solution)
      requires Closed() && cache.Proper(defs.Keys)
      modifies this`cache
      ensures cache.Proper(defs.Keys) && old(cache).Cleared().Extended({}, cache)
      ensures if modulesSym.Some? then modulesSym.value in cache.valid else cache == old(cache).Cleared()
      ensures Solves(Cfg(), o) && old(cache).Cleared().Sound(o, {}) ==> cache.Sound(o, {})
    {
      cache := cache.Cleared();
      if modulesSym.Some? {
        CalcValue(modulesSym.value, o, {});
      }
    }

    /** `sym_tristate_within_range` */
    predicate WithinRange(s: Symbol, val: Tri)
      requires s in cache.at
      reads this
    {
      InRange(Cfg(), s, cache.at[s].visible, cache.at[s].revDep, val)
    }

    /** `sym_set_tristate_value` of a symbol that is not a choice member. A cache that was right
        before is right for the new configuration, if the value changed. */
    method SetTristateValue(s: Symbol, val: Tri, ghost before: Solution, ghost after: Solution) returns (r: bool)
      requires Closed() && cache.Proper(defs.Keys) && s in defs
      modifies this
      ensures r <==> old(cache).at[s].curr.tri == val || old(WithinRange(s, val))
      ensures !r ==> user == old(user) && cache == old(cache)
      ensures r ==> user.Keys == old(user).Keys + {s} && user[s].tri == val
                    && forall t :: t in user && t != s ==> user[t] == old(user)[t]
      ensures r && old(cache).at[s].curr.tri == val ==> cache == old(cache)
      ensures cache.Proper(defs.Keys)
      ensures r && old(cache).at[s].curr.tri != val && Solves(old(Cfg()), before) && old(cache).Sound(before, {})
              && Solves(Cfg(), after) ==>
                cache.Sound(after, {})
    {
      var oldval := cache.at[s].curr.tri;
      if oldval != val && !WithinRange(s, val) {
        return false;
      }
      user := user[s := UserValue(val, if s in user then user[s].str else "")];
      if oldval != val {
        if Solves(old(Cfg()), before) && cache.Sound(before, {}) && Solves(Cfg(), after) {
          ClearedIsSound(old(Cfg()), before, Cfg(), after, cache);
        }
        ClearAllValid(after);
      }
      r := true;
    }
  }

  /** With only the built-in symbols valid the cache is sound, whatever else it holds. */
  lemma OnlyBuiltIns(cfg: Config, o: Solution, c: Cache)
    requires Solves(cfg, o)
    requires c.valid == {Yes, Mod, No} <= c.at.Keys
    requires c.at[Yes].curr == Value(2, "y") && c.at[Mod].curr == Value(1, "m") && c.at[No].curr == Value(0, "n")
    ensures c.Sound(o, {})
  {
    forall t | t in c.valid ensures c.Right(o, t) {
      assert SolvesAt(cfg, o, t);
    }
  }

  /** Clearing the flags of a cache that was sound for one configuration makes it sound for
      every other one. */
  lemma ClearedIsSound(cfg: Config, o: Solution, cfg': Config, o': Solution, c: Cache)
    requires Solves(cfg, o) && Solves(cfg', o')
    requires {Yes, Mod, No} <= c.valid <= c.at.Keys && c.Sound(o, {})
    ensures c.Cleared().Sound(o', {})
  {
    forall t | t in {Yes, Mod, No} ensures c.at[t].curr == o'.val(t) {
      assert c.Right(o, t) && SolvesAt(cfg, o, t) && SolvesAt(cfg', o', t);
    }
    forall t | t in {Yes, Mod, No} ensures c.Cleared().Right(o', t) {}
  }

  lemma DepsUnder(cfg: Config, o: Solution, s: Symbol, open: set<Symbol>)
    requires Solves(cfg, o) && Under(o, {s}, open)
    ensures Under(o, Deps(cfg.Def(s)), open + {s})
  {
    forall x, t | x in Deps(cfg.Def(s)) && t in open + {s} ensures o.rank(x) < o.rank(t) {
      assert SolvesAt(cfg, o, s) && o.rank(x) < o.rank(s);
      if t != s { assert s in {s} && t in open; }
    }
  }

  lemma {:induction false} PropSymbolsAt(props: seq<Prop>, i: nat)
    requires i < |props|
    ensures props[i].kind == Prompt ==> DepSymbols(props[i].visible) <= PropSymbols(props)
    ensures props[i].kind == Default ==>
              DepSymbols(props[i].visible) + Symbols(props[i].expr) <= PropSymbols(props)
  {
    if i > 0 { PropSymbolsAt(props[1..], i - 1); }
  }

  lemma DefaultSymbols(props: seq<Prop>, p: Prop)
    requires p in props && p.kind == Default
    ensures DepSymbols(p.visible) + Symbols(p.expr) <= PropSymbols(props)
  {
    var i :| 0 <= i < |props| && props[i] == p;
    PropSymbolsAt(props, i);
  }

  /** `sym_tristate_within_range` of a symbol that is not a choice member. */
  predicate InRange(cfg: Config, s: Symbol, vis: Tri, rev: Tri, val: Tri) {
    && vis != 0
    && (s.IsBoolean() || s.IsTristate())
    && !(cfg.ActsBoolean(s) && val == 1)
    && rev < vis
    && rev <= val <= vis
  }

  /** Two configurations that differ only in what the user says about s. */
  predicate SameButUser(cfg: Config, cfg': Config, s: Symbol) {
    && cfg'.defs == cfg.defs && cfg'.modules == cfg.modules
    && s in cfg'.user
    && cfg'.user.Keys == cfg.user.Keys + {s}
    && forall t :: t in cfg'.user && t != s ==> t in cfg.user && cfg'.user[t] == cfg.user[t]
  }

  /** The user's value of s reaches no symbol ranking below s. */
  lemma {:induction false} UserValueStaysAbove(cfg: Config, cfg': Config, rank: Symbol -> nat, s: Symbol, t: Symbol)
    requires Ranked(cfg, rank) && SameButUser(cfg, cfg', s)
    requires rank(t) < rank(s)
    ensures Meaning(cfg', rank, t) == Meaning(cfg, rank, t)
    decreases rank(t)
  {
    BelowAgrees(cfg, cfg', rank, s, t);
    ValueInAgrees(cfg, t, EnvBelow(cfg, rank, rank(t)), EnvBelow(cfg', rank, rank(t)));
    OtherValue(cfg, cfg', s, t, EnvBelow(cfg', rank, rank(t)));
  }

  /** In one environment the user's value of s matters to no other symbol. */
  lemma OtherValue(cfg: Config, cfg': Config, s: Symbol, t: Symbol, env: Env)
    requires SameButUser(cfg, cfg', s) && t != s
    ensures ValueIn(cfg', t, env) == ValueIn(cfg, t, env)
  {
    assert cfg'.Def(t) == cfg.Def(t) && cfg'.ActsBoolean(t) == cfg.ActsBoolean(t);
    assert t in cfg'.user <==> t in cfg.user;
  }

  lemma {:induction false} BelowAgrees(cfg: Config, cfg': Config, rank: Symbol -> nat, s: Symbol, t: Symbol)
    requires Ranked(cfg, rank) && SameButUser(cfg, cfg', s)
    requires rank(t) <= rank(s)
    ensures Agree(Deps(cfg.Def(t)), EnvBelow(cfg, rank, rank(t)), EnvBelow(cfg', rank, rank(t)))
    decreases rank(t), 0
  {
    assert RanksAbove(cfg, rank, t);
    var env, env' := EnvBelow(cfg, rank, rank(t)), EnvBelow(cfg', rank, rank(t));
    forall x | x in Deps(cfg.Def(t)) ensures env.tri(x) == env'.tri(x) && env.str(x) == env'.str(x) {
      UserValueStaysAbove(cfg, cfg', rank, s, x);
      EnvBelowAt(cfg, rank, rank(t), x);
      EnvBelowAt(cfg', rank, rank(t), x);
    }
  }

  lemma EnvBelowAt(cfg: Config, rank: Symbol -> nat, n: nat, x: Symbol)
    requires rank(x) < n
    ensures EnvBelow(cfg, rank, n).tri(x) == Meaning(cfg, rank, x).tri
    ensures EnvBelow(cfg, rank, n).str(x) == Text(cfg, x, Meaning(cfg, rank, x))
  {}

  /** What a user's value does to a symbol while everything it depends on stays the same. */
  lemma UserEffect(cfg: Config, cfg': Config, s: Symbol, val: Tri, env: Env)
    requires SameButUser(cfg, cfg', s) && (s.IsBoolean() || s.IsTristate()) && cfg'.user[s].tri == val
    ensures var vis, rev := Visibility(cfg, s, env), ReverseDep(cfg, s, env);
            && (InRange(cfg, s, vis, rev, val) ==> TriValue(cfg', s, env) == val)
            && (TriValue(cfg, s, env) == val ==>
                  (TriValue(cfg', s, env) == val <==> vis == 0 || val <= vis || val <= rev))
  {
    assert Visibility(cfg', s, env) == Visibility(cfg, s, env);
    assert ReverseDep(cfg', s, env) == ReverseDep(cfg, s, env);
    assert cfg'.Def(s) == cfg.Def(s) && cfg'.ActsBoolean(s) == cfg.ActsBoolean(s);
  }

  /** What the user gets after a successful `sym_set_tristate_value`. A changed value takes
      effect as asked. Asking for the value a symbol already has is always accepted; it lasts
      exactly if the symbol is invisible or the value does not exceed both its visibility and
      its reverse dependency (a default may exceed the visibility, a user value may not). */
  lemma SetTakesEffect(cfg: Config, cfg': Config, rank: Symbol -> nat, s: Symbol, val: Tri)
    requires Ranked(cfg, rank) && SameButUser(cfg, cfg', s)
    requires s.IsBoolean() || s.IsTristate()
    requires cfg'.user[s].tri == val
    ensures var vis, rev := Visibility(cfg, s, EnvOf(cfg, rank)), ReverseDep(cfg, s, EnvOf(cfg, rank));
            && (InRange(cfg, s, vis, rev, val) ==> Meaning(cfg', rank, s).tri == val)
            && (Meaning(cfg, rank, s).tri == val ==>
                  (Meaning(cfg', rank, s).tri == val <==> vis == 0 || val <= vis || val <= rev))
  {
    var env, env' := EnvBelow(cfg, rank, rank(s)), EnvBelow(cfg', rank, rank(s));
    assert RanksAbove(cfg, rank, s);
    BelowAgrees(cfg, cfg', rank, s, s);
    ValueInAgrees(cfg, s, env, env');
    ValueInAgrees(cfg, s, env, EnvOf(cfg, rank));
    UserEffect(cfg, cfg', s, val, env');
  }

  /** When `sym_tristate_within_range` refuses: for a visible symbol that may be changed, exactly if it
      would not have the value then; and whenever it is invisible, or at its visibility already by what
      selects it, where no value of the user makes a difference. */
  lemma InRangeExactly(cfg: Config, cfg': Config, rank: Symbol -> nat, s: Symbol, val: Tri)
    requires Ranked(cfg, rank) && SameButUser(cfg, cfg', s)
    requires s.IsBoolean() || s.IsTristate()
    requires cfg'.user[s].tri == val
    ensures var vis, rev := Visibility(cfg, s, EnvOf(cfg, rank)), ReverseDep(cfg, s, EnvOf(cfg, rank));
            if vis == 0 then !InRange(cfg, s, vis, rev, val) && Meaning(cfg', rank, s) == Meaning(cfg, rank, s)
            else if vis <= rev then !InRange(cfg, s, vis, rev, val) && Meaning(cfg', rank, s).tri == rev
            else InRange(cfg, s, vis, rev, val) <==> Meaning(cfg', rank, s).tri == val
  {
    var env, env' := EnvBelow(cfg, rank, rank(s)), EnvBelow(cfg', rank, rank(s));
    assert RanksAbove(cfg, rank, s);
    BelowAgrees(cfg, cfg', rank, s, s);
    ValueInAgrees(cfg, s, env, env');
    ValueInAgrees(cfg, s, env, EnvOf(cfg, rank));
    UserRange(cfg, cfg', s, val, env');
  }

  lemma UserRange(cfg: Config, cfg': Config, s: Symbol, val: Tri, env: Env)
    requires SameButUser(cfg, cfg', s) && (s.IsBoolean() || s.IsTristate()) && cfg'.user[s].tri == val
    ensures var vis, rev, v := Visibility(cfg, s, env), ReverseDep(cfg, s, env), TriValue(cfg', s, env);
            if vis == 0 then v == TriValue(cfg, s, env)
            else if vis <= rev then v == rev
            else InRange(cfg, s, vis, rev, val) <==> v == val
  {
    assert Visibility(cfg', s, env) == Visibility(cfg, s, env);
    assert ReverseDep(cfg', s, env) == ReverseDep(cfg, s, env);
    assert cfg'.Def(s) == cfg.Def(s) && cfg'.ActsBoolean(s) == cfg.ActsBoolean(s);
  }

  /** A tristate symbol with the default y whose prompt needs m; the user says y, or nothing. */
  function DefaultY(user: map<Symbol, UserValue>): Config {
    Config(map[Named("t", TristateType) := Definition([Prop(Prompt, Some(Leaf(Mod)), Leaf(Yes)),
                                                       Prop(Default, None, Leaf(Yes))], None, None)], user, 2)
  }

  ghost function OneAboveAll(t: Symbol): Symbol -> nat { s => if s == t then 1 else 0 }

  lemma DefaultYIn(user: map<Symbol, UserValue>, t: Symbol, env: Env)
    requires BuiltIns(env) && t == Named("t", TristateType)
    ensures Visibility(DefaultY(user), t, env) == 1 && ReverseDep(DefaultY(user), t, env) == 0
    ensures TriValue(DefaultY(user), t, env) == if t in user then And(user[t].tri, 1) else 2
  {
    var p, d := Prop(Prompt, Some(Leaf(Mod)), Leaf(Yes)), Prop(Default, None, Leaf(Yes));
    assert [p, d][..1] == [p] && [p][..0] == [] && PromptVal([], env) == 0;
    assert PromptVal([p], env) == 1 && PromptVal([p, d], env) == 1;
    assert [p, d][1..] == [d] && DefaultProp([d], env) == Some(d);
    assert DefaultProp([p, d], env) == Some(d);
  }

  lemma DefaultYRanked(user: map<Symbol, UserValue>, t: Symbol)
    requires t == Named("t", TristateType)
    ensures Ranked(DefaultY(user), OneAboveAll(t))
  {
    var p, d := Prop(Prompt, Some(Leaf(Mod)), Leaf(Yes)), Prop(Default, None, Leaf(Yes));
    assert [d][1..] == [] && PropSymbols([]) == {};
    assert PropSymbols([d]) == DepSymbols(None) + Symbols(Leaf(Yes)) + PropSymbols([d][1..]) == {Yes};
    assert [p, d][1..] == [d];
    assert PropSymbols([p, d]) == DepSymbols(Some(Leaf(Mod))) + PropSymbols([p, d][1..]) == {Mod, Yes};
    forall s ensures RanksAbove(DefaultY(user), OneAboveAll(t), s) {}
  }

  /** A symbol is y by its default, and y is accepted as the value it already has; but its prompt
      needs m, so with the user's y it becomes m. */
  lemma SameValueLowers(t: Symbol)
    requires t == Named("t", TristateType)
    ensures var cfg, cfg' := DefaultY(map[]), DefaultY(map[t := UserValue(2, "")]);
            && Ranked(cfg, OneAboveAll(t)) && SameButUser(cfg, cfg', t)
            && Meaning(cfg, OneAboveAll(t), t).tri == 2 && Meaning(cfg', OneAboveAll(t), t).tri == 1
  {
    DefaultYMeaning(map[], t);
    DefaultYMeaning(map[t := UserValue(2, "")], t);
    DefaultYRanked(map[], t);
  }

  lemma DefaultYMeaning(user: map<Symbol, UserValue>, t: Symbol)
    requires t == Named("t", TristateType)
    ensures Meaning(DefaultY(user), OneAboveAll(t), t).tri == if t in user then And(user[t].tri, 1) else 2
  {
    DefaultYRanked(user, t);
    MeaningUnfold(DefaultY(user), OneAboveAll(t), t);
    DefaultYIn(user, t, EnvOf(DefaultY(user), OneAboveAll(t)));
  }
}
