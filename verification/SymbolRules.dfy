/** What the values of symbols are, in terms of the properties and the values of their conditions. */
module SymbolRules {
  import opened Expr
  import opened SymbolEval

  /** What a condition is worth: y if there is none. */
  predicate Worth(c: Option<Expr>, env: Env, v: Tri) {
    match c case None => v == 2 case Some(e) => v == Val(e, env)
  }

  predicate Holds(c: Option<Expr>, env: Env) { c.Some? ==> Val(c.value, env) != 0 }

  /** b is what the best prompt is worth, n without a prompt. */
  ghost predicate BestPrompt(props: seq<Prop>, env: Env, b: Tri) {
    && (forall i :: 0 <= i < |props| && props[i].kind == Prompt ==>
          exists v: Tri :: v <= b && Worth(props[i].visible, env, v))
    && (b > 0 ==> exists i :: 0 <= i < |props| && props[i].kind == Prompt && Worth(props[i].visible, env, b))
  }

  lemma {:induction false} PromptValIsBest(props: seq<Prop>, env: Env)
    ensures BestPrompt(props, env, PromptVal(props, env))
  {
    if props != [] {
      var n := |props| - 1;
      PromptValIsBest(props[..n], env);
      var b, v := PromptVal(props[..n], env), DepVal(props[n].visible, env);
      assert Worth(props[n].visible, env, v);
      forall i | 0 <= i < |props| && props[i].kind == Prompt
        ensures exists v: Tri :: v <= PromptVal(props, env) && Worth(props[i].visible, env, v)
      {
        if i < n {
          assert props[i] == props[..n][i];
          var w: Tri :| w <= b && Worth(props[..n][i].visible, env, w);
          assert w <= PromptVal(props, env) && Worth(props[i].visible, env, w);
        }
      }
      if b > 0 {
        var i :| 0 <= i < n && props[..n][i].kind == Prompt && Worth(props[..n][i].visible, env, b);
        assert props[i] == props[..n][i];
      }
    }
  }

  lemma BestPromptUnique(props: seq<Prop>, env: Env, b: Tri, b': Tri)
    requires BestPrompt(props, env, b) && BestPrompt(props, env, b')
    ensures b <= b'
  {
    if b > 0 {
      var i :| 0 <= i < |props| && props[i].kind == Prompt && Worth(props[i].visible, env, b);
    }
  }

  /** A symbol is visible as its best prompt says; only a tristate symbol, with modules, at m. */
  lemma VisibilityRule(cfg: Config, s: Symbol, env: Env, b: Tri)
    requires BestPrompt(cfg.Def(s).props, env, b)
    ensures Visibility(cfg, s, env) == if b == 1 && !(s.IsTristate() && cfg.modules != 0) then 2 else b
  {
    PromptValIsBest(cfg.Def(s).props, env);
    BestPromptUnique(cfg.Def(s).props, env, b, PromptVal(cfg.Def(s).props, env));
    BestPromptUnique(cfg.Def(s).props, env, PromptVal(cfg.Def(s).props, env), b);
  }

  /** The default at i is the first one with a condition above n. */
  ghost predicate HoldsFirst(props: seq<Prop>, i: nat, env: Env) {
    && i < |props| && props[i].kind == Default && Holds(props[i].visible, env)
    && forall j :: 0 <= j < i && props[j].kind == Default ==> !Holds(props[j].visible, env)
  }

  ghost predicate NoDefaultHolds(props: seq<Prop>, env: Env) {
    forall j :: 0 <= j < |props| && props[j].kind == Default ==> !Holds(props[j].visible, env)
  }

  lemma FirstHolding(props: seq<Prop>, env: Env) returns (i: nat)
    requires !NoDefaultHolds(props, env)
    ensures HoldsFirst(props, i, env)
  {
    i := 0;
    while props[i].kind != Default || !Holds(props[i].visible, env)
      invariant i < |props|
      invariant forall j :: 0 <= j < i && props[j].kind == Default ==> !Holds(props[j].visible, env)
      decreases |props| - i
    {
      i := i + 1;
    }
  }

  lemma {:induction false} DefaultPropIsFirst(props: seq<Prop>, i: nat, env: Env)
    requires HoldsFirst(props, i, env)
    ensures DefaultProp(props, env) == Some(props[i])
  {
    if i > 0 {
      assert forall j :: 0 <= j < |props[1..]| ==> props[1..][j] == props[j + 1];
      DefaultPropIsFirst(props[1..], i - 1, env);
    }
  }

  lemma {:induction false} NoDefaultProp(props: seq<Prop>, env: Env)
    requires NoDefaultHolds(props, env)
    ensures DefaultProp(props, env) == None
  {
    if props != [] {
      assert forall j :: 0 <= j < |props[1..]| ==> props[1..][j] == props[j + 1];
      NoDefaultProp(props[1..], env);
    }
  }

  /** What selects the symbol; n if nothing does. */
  predicate Selected(d: Definition, env: Env, r: Tri) {
    match d.revDep case None => r == 0 case Some(e) => r == Val(e, env)
  }

  /** v is the smaller of x and y where that exceeds r, and r where it does not. */
  predicate SmallerAbove(v: Tri, r: Tri, x: Tri, y: Tri) {
    v >= r && (v >= x || v >= y) && (v > r ==> v <= x && v <= y)
  }

  /** A tristate symbol, with modules: at least what selects it; above that no more than the user's value
      and the best prompt allow, or else the first default that holds and its condition. */
  lemma TristateRule(cfg: Config, rank: Symbol -> nat, s: Symbol, b: Tri, r: Tri)
    requires Ranked(cfg, rank) && s.IsTristate() && cfg.modules != 0
    requires BestPrompt(cfg.Def(s).props, EnvOf(cfg, rank), b) && Selected(cfg.Def(s), EnvOf(cfg, rank), r)
    ensures var env, props, v := EnvOf(cfg, rank), cfg.Def(s).props, Meaning(cfg, rank, s).tri;
            if b != 0 && s in cfg.user then SmallerAbove(v, r, cfg.user[s].tri, b)
            else
              && (forall i: nat, c: Tri :: HoldsFirst(props, i, env) && Worth(props[i].visible, env, c) ==>
                    SmallerAbove(v, r, Val(props[i].expr, env), c))
              && (NoDefaultHolds(props, env) ==> v == r)
  {
    var env, props := EnvOf(cfg, rank), cfg.Def(s).props;
    ValueParts(cfg, rank, s, b);
    forall i: nat | HoldsFirst(props, i, env) ensures DefaultProp(props, env) == Some(props[i]) {
      DefaultPropIsFirst(props, i, env);
    }
    if NoDefaultHolds(props, env) { NoDefaultProp(props, env); }
  }

  lemma ValueParts(cfg: Config, rank: Symbol -> nat, s: Symbol, b: Tri)
    requires Ranked(cfg, rank) && (s.IsBoolean() || s.IsTristate())
    requires BestPrompt(cfg.Def(s).props, EnvOf(cfg, rank), b)
    ensures Meaning(cfg, rank, s).tri == TriValue(cfg, s, EnvOf(cfg, rank))
    ensures PromptVal(cfg.Def(s).props, EnvOf(cfg, rank)) == b
  {
    var env, props := EnvOf(cfg, rank), cfg.Def(s).props;
    MeaningUnfold(cfg, rank, s);
    PromptValIsBest(props, env);
    BestPromptUnique(props, env, b, PromptVal(props, env));
    BestPromptUnique(props, env, PromptVal(props, env), b);
  }

  /** A bool symbol, or any without modules, is n or y: y exactly if something selects it, or the user's
      value or the first default that holds is above n. */
  lemma BooleanRule(cfg: Config, rank: Symbol -> nat, s: Symbol, b: Tri, r: Tri)
    requires Ranked(cfg, rank) && (s.IsBoolean() || (s.IsTristate() && cfg.modules == 0))
    requires BestPrompt(cfg.Def(s).props, EnvOf(cfg, rank), b) && Selected(cfg.Def(s), EnvOf(cfg, rank), r)
    ensures var env, props, v := EnvOf(cfg, rank), cfg.Def(s).props, Meaning(cfg, rank, s).tri;
            && v != 1
            && if b != 0 && s in cfg.user then v == 2 <==> r != 0 || cfg.user[s].tri != 0
               else
                 && (forall i: nat :: HoldsFirst(props, i, env) ==>
                       (v == 2 <==> r != 0 || Val(props[i].expr, env) != 0))
                 && (NoDefaultHolds(props, env) ==> (v == 2 <==> r != 0))
  {
    var env, props := EnvOf(cfg, rank), cfg.Def(s).props;
    ValueParts(cfg, rank, s, b);
    forall i: nat | HoldsFirst(props, i, env) ensures DefaultProp(props, env) == Some(props[i]) {
      DefaultPropIsFirst(props, i, env);
    }
    if NoDefaultHolds(props, env) { NoDefaultProp(props, env); }
  }

  /** An int, hex or string symbol: the user's text if it is visible; else that of the symbol that the
      first default that holds names, which is always n for a bool or tristate symbol; else nothing. */
  lemma TextRule(cfg: Config, rank: Symbol -> nat, s: Symbol, b: Tri)
    requires Ranked(cfg, rank) && s.Named? && (s.kind == IntType || s.kind == HexType || s.kind == StringType)
    requires BestPrompt(cfg.Def(s).props, EnvOf(cfg, rank), b)
    ensures var env, props, v := EnvOf(cfg, rank), cfg.Def(s).props, Meaning(cfg, rank, s);
            && v.tri == 0
            && if b != 0 && s in cfg.user then v.str == cfg.user[s].str
               else
                 && (forall i: nat :: HoldsFirst(props, i, env) && props[i].expr.Leaf? ==>
                       var t := props[i].expr.sym;
                       v.str == if t.IsBoolean() || t.IsTristate() then "n" else env.str(t))
                 && (NoDefaultHolds(props, env) ==> v.str == "")
  {
    var env, props := EnvOf(cfg, rank), cfg.Def(s).props;
    MeaningUnfold(cfg, rank, s);
    PromptValIsBest(props, env);
    BestPromptUnique(props, env, b, PromptVal(props, env));
    BestPromptUnique(props, env, PromptVal(props, env), b);
    forall i: nat | HoldsFirst(props, i, env) ensures DefaultProp(props, env) == Some(props[i]) {
      DefaultPropIsFirst(props, i, env);
    }
    if NoDefaultHolds(props, env) { NoDefaultProp(props, env); }
  }

  /** All other symbols: y, m and n are themselves, other constants and undefined symbols are n with
      their text. */
  lemma OtherRule(cfg: Config, rank: Symbol -> nat, s: Symbol)
    ensures Meaning(cfg, rank, Yes) == Value(2, "y") && Meaning(cfg, rank, Mod) == Value(1, "m")
    ensures Meaning(cfg, rank, No) == Value(0, "n")
    ensures s.Const? ==> Meaning(cfg, rank, s) == Value(0, s.text)
    ensures s.Named? && s.kind == UnknownType ==> Meaning(cfg, rank, s) == Value(0, s.name)
  {}
}
