/** Boolean choice groups: `sym_calc_choice`, `sym_choice_default`, the member part of
    `sym_calc_value`, and setting a member to y. The values of all symbols outside the group,
    and the value y of the choice itself, are given by an environment. */
module Choice {
  import opened Expr
  import opened SymbolEval
  import opened SymbolRules

  /** The choice's own default, naming a member, under a condition. */
  datatype ChoiceDefault = ChoiceDefault(member: Symbol, visible: Option<Expr>)

  function FirstDefault(ds: seq<ChoiceDefault>, visible: map<Symbol, Tri>, env: Env): Option<Symbol> {
    if ds == [] then None
    else if DepVal(ds[0].visible, env) != 0 && ds[0].member in visible && visible[ds[0].member] != 0
    then Some(ds[0].member)
    else FirstDefault(ds[1..], visible, env)
  }

  function FirstVisible(ms: seq<Symbol>, visible: map<Symbol, Tri>): Option<Symbol> {
    if ms == [] then None
    else if ms[0] in visible && visible[ms[0]] != 0 then Some(ms[0])
    else FirstVisible(ms[1..], visible)
  }

  /** The member a choice picks: the user's if visible, else the first visible default, else
      the first visible member. */
  function PickOf(user: Option<Symbol>, ds: seq<ChoiceDefault>, ms: seq<Symbol>,
                  visible: map<Symbol, Tri>, env: Env): Option<Symbol>
  {
    if user.Some? && user.value in visible && visible[user.value] != 0 then user
    else if FirstDefault(ds, visible, env).Some? then FirstDefault(ds, visible, env)
    else FirstVisible(ms, visible)
  }

  ghost predicate Distinct(ms: seq<Symbol>) {
    forall i, j :: 0 <= i < j < |ms| ==> ms[i] != ms[j]
  }

  /** What the defaults of a member give it. */
  function OwnDefault(cfg: Config, m: Symbol, env: Env): Tri {
    var d := DefaultProp(cfg.Def(m).props, env);
    if d.Some? then And(Val(d.value.expr, env), DepVal(d.value.visible, env)) else 0
  }

  /** The value of a member that is not visible. What selects a member does not count: its
      reverse dependency is not calculated. */
  function HiddenTri(cfg: Config, m: Symbol, env: Env): Tri {
    if OwnDefault(cfg, m, env) != 0 then 2 else 0
  }

  /** It is y exactly if the first default whose condition holds is above n. */
  lemma HiddenRule(cfg: Config, m: Symbol, env: Env)
    ensures HiddenTri(cfg, m, env) == 2 <==> OwnDefault(cfg, m, env) != 0
    ensures HiddenTri(cfg, m, env) == 2 <==>
              exists i: nat :: HoldsFirst(cfg.Def(m).props, i, env) && Val(cfg.Def(m).props[i].expr, env) != 0
    ensures HiddenTri(cfg, m, env) != 1
  {
    var props := cfg.Def(m).props;
    if NoDefaultHolds(props, env) {
      NoDefaultProp(props, env);
    } else {
      var i := FirstHolding(props, env);
      DefaultPropIsFirst(props, i, env);
      forall j: nat | HoldsFirst(props, j, env) ensures j == i {}
    }
  }

  class ChoiceGroup {
    const cfg: Config
    const choice: Symbol
    const members: seq<Symbol>
    const defaults: seq<ChoiceDefault>
    /** The fields `visible` and `curr.tri` of the members. */
    var visible: map<Symbol, Tri>
    var tri: map<Symbol, Tri>
    /** The fields `curr` and `def[S_DEF_USER].val` of the choice. */
    var choiceTri: Tri
    var pick: Option<Symbol>
    var userPick: Option<Symbol>
    /** Symbols with the flag SYMBOL_DEF_USER. */
    var hasUser: set<Symbol>

    ghost predicate Valid()
      reads this
    {
      && Distinct(members) && choice !in members
      && (forall m :: m in members ==> m.IsBoolean() && m in visible && m in tri)
      && (forall d :: d in defaults ==> d.member in members)
      && (userPick.Some? ==> userPick.value in members)
      && (pick.Some? ==> pick.value in members)
    }

    /** The visibilities are those of the environment. */
    ghost predicate Seen(env: Env)
      requires Valid()
      reads this
    {
      forall m :: m in members ==> visible[m] == Visibility(cfg, m, env)
    }

    /** A choice of which nothing was calculated or set yet. */
    constructor (cfg: Config, choice: Symbol, members: seq<Symbol>, defaults: seq<ChoiceDefault>)
      requires Distinct(members) && choice !in members && forall m :: m in members ==> m.IsBoolean()
      requires forall d :: d in defaults ==> d.member in members
      ensures Valid() && pick.None? && userPick.None? && hasUser == {}
      ensures this.cfg == cfg && this.choice == choice && this.members == members && this.defaults == defaults
    {
      this.cfg, this.choice, this.members, this.defaults := cfg, choice, members, defaults;
      visible := map m | m in members :: 0;
      tri := map m | m in members :: 0;
      choiceTri, pick, userPick, hasUser := 0, None, None, {};
    }

    /** `sym_choice_default` */
    method DefaultMember(env: Env) returns (r: Option<Symbol>)
      requires (forall m :: m in members ==> m in visible) && forall d :: d in defaults ==> d.member in members
      ensures r == PickOf(None, defaults, members, visible, env)
    {
      for i := 0 to |defaults|
        invariant FirstDefault(defaults, visible, env) == FirstDefault(defaults[i..], visible, env)
      {
        if DepVal(defaults[i].visible, env) != 0 {
          assert defaults[i] in defaults;
          if visible[defaults[i].member] != 0 {
            return Some(defaults[i].member);
          }
        }
      }
      for i := 0 to |members|
        invariant FirstDefault(defaults, visible, env) == None
        invariant FirstVisible(members, visible) == FirstVisible(members[i..], visible)
      {
        if visible[members[i]] != 0 {
          return Some(members[i]);
        }
      }
      r := None;
    }

    /** The visibilities of all members, and whether every visible one was set by the user. */
    method CalcVisibilities(env: Env) returns (all: bool)
      requires Valid()
      modifies this`visible
      ensures Valid() && Seen(env)
      ensures all <==> forall m :: m in members && visible[m] != 0 ==> m in hasUser
    {
      all := true;
      for i := 0 to |members|
        invariant Valid()
        invariant forall j :: 0 <= j < i ==> visible[members[j]] == Visibility(cfg, members[j], env)
        invariant all <==> forall j :: 0 <= j < i && visible[members[j]] != 0 ==> members[j] in hasUser
      {
        var m := members[i];
        visible := visible[m := Visibility(cfg, m, env)];
        if visible[m] != 0 && m !in hasUser {
          all := false;
        }
      }
    }

    /** The choice counts as set by the user only as long as all its visible members do. */
    ghost predicate AllSet(users: set<Symbol>)
      requires Valid()
      reads this
    {
      forall m :: m in members && visible[m] != 0 ==> m in users
    }

    /** `sym_calc_choice` of a choice worth y. */
    method CalcChoice(env: Env)
      requires Valid()
      modifies this`visible, this`hasUser, this`pick, this`choiceTri
      ensures Valid() && Seen(env)
      ensures pick == PickOf(userPick, defaults, members, visible, env)
      ensures choiceTri == if pick.None? then 0 else old(choiceTri)
      ensures hasUser == if AllSet(old(hasUser)) then old(hasUser) else old(hasUser) - {choice}
    {
      var all := CalcVisibilities(env);
      if !all {
        hasUser := hasUser - {choice};
      }
      var p := Choose(env);
      pick := p;
      if p.None? {
        choiceTri := 0;
      }
    }

    /** The user's pick if it is visible, else the default. */
    method Choose(env: Env) returns (p: Option<Symbol>)
      requires Valid()
      ensures p == PickOf(userPick, defaults, members, visible, env) && (p.Some? ==> p.value in members)
    {
      PickIsMember(userPick, defaults, members, visible, env);
      if userPick.Some? && visible[userPick.value] != 0 {
        return userPick;
      }
      p := DefaultMember(env);
    }

    /** `sym_calc_value` of a member. */
    method CalcMember(m: Symbol, env: Env)
      requires Valid() && m in members
      modifies this`visible, this`tri
      ensures Valid()
      ensures visible == old(visible)[m := Visibility(cfg, m, env)]
      ensures tri == old(tri)[m := MemberTri(cfg, visible[m], pick, m, env)]
    {
      visible := visible[m := Visibility(cfg, m, env)];
      if visible[m] == 2 {
        tri := tri[m := if pick == Some(m) then 2 else 0];
      } else {
        tri := tri[m := HiddenTri(cfg, m, env)];
      }
    }

    /** Calculates the choice and then its members. */
    method CalcGroup(env: Env)
      requires Valid()
      modifies this`visible, this`hasUser, this`pick, this`choiceTri, this`tri
      ensures Valid() && Seen(env)
      ensures pick == PickOf(userPick, defaults, members, visible, env)
      ensures hasUser == if AllSet(old(hasUser)) then old(hasUser) else old(hasUser) - {choice}
      ensures Calculated(env)
    {
      CalcChoice(env);
      CalcMembers(env);
    }

    method CalcMembers(env: Env)
      requires Valid() && Seen(env)
      modifies this`visible, this`tri
      ensures Valid() && visible == old(visible) && Calculated(env)
    {
      for i := 0 to |members|
        invariant Valid() && visible == old(visible)
        invariant forall j :: 0 <= j < i ==>
                    tri[members[j]] == MemberTri(cfg, visible[members[j]], pick, members[j], env)
      {
        CalcMember(members[i], env);
        assert visible == old(visible);
      }
    }

    /** Every member has the value that goes with the pick. */
    ghost predicate Calculated(env: Env)
      requires Valid()
      reads this
    {
      forall m :: m in members ==> tri[m] == MemberTri(cfg, visible[m], pick, m, env)
    }

    /** `sym_set_tristate_value(m, yes)` for a member: refused unless m is y already or visible;
        otherwise m becomes the user's pick and all visible members count as set. */
    method SetMember(m: Symbol) returns (r: bool)
      requires Valid() && m in members
      modifies this`userPick, this`hasUser
      ensures Valid()
      ensures r <==> tri[m] == 2 || visible[m] == 2
      ensures !r ==> userPick == old(userPick) && hasUser == old(hasUser)
      ensures r ==> userPick == Some(m)
                    && hasUser == old(hasUser) + {m, choice} + (set x | x in members && visible[x] != 0)
    {
      if tri[m] != 2 && visible[m] != 2 {
        return false;
      }
      hasUser := hasUser + {m, choice};
      userPick := Some(m);
      for i := 0 to |members|
        invariant Valid() && userPick == Some(m)
        invariant hasUser == old(hasUser) + {m, choice} + (set x | x in members[..i] && visible[x] != 0)
      {
        assert members[..i + 1] == members[..i] + [members[i]];
        if visible[members[i]] != 0 {
          hasUser := hasUser + {members[i]};
        }
      }
      assert members[..|members|] == members;
      r := true;
    }

    /** Sets a member and calculates again while all visibilities stay as they are. The setting
        of a visible member is accepted: the member is y, every other visible member is n, and
        the choice still counts as set by the user. A hidden member that is y already stays so,
        but the user's former pick is forgotten. */
    method SetAndCalc(m: Symbol, env: Env) returns (r: bool)
      requires Valid() && m in members && Seen(env) && Calculated(env)
      modifies this
      ensures Valid() && Seen(env) && Calculated(env) && forall x :: x in members ==> visible[x] == old(visible)[x]
      ensures r <==> visible[m] != 0 || old(tri[m]) == 2
      ensures r ==> tri[m] == 2
      ensures visible[m] != 0 ==>
                && pick == Some(m) && choice in hasUser
                && forall x :: x in members && x != m && visible[x] != 0 ==> tri[x] == 0
      ensures r && visible[m] == 0 ==> pick == PickOf(None, defaults, members, visible, env)
      ensures !r ==> pick == PickOf(old(userPick), defaults, members, visible, env)
    {
      assert m.IsBoolean();
      r := SetMember(m);
      CalcGroup(env);
    }
  }

  /** The value of a member whose visibility is vis, in a group that picks p. */
  function MemberTri(cfg: Config, vis: Tri, p: Option<Symbol>, m: Symbol, env: Env): Tri {
    if vis == 2 then (if p == Some(m) then 2 else 0) else HiddenTri(cfg, m, env)
  }

  /** A choice with a visible member has exactly one member worth y - its pick - if and only if
      no member that is hidden has a default worth more than n. */
  lemma ExactlyOne(cfg: Config, user: Option<Symbol>, ds: seq<ChoiceDefault>, ms: seq<Symbol>,
                   visible: map<Symbol, Tri>, tri: map<Symbol, Tri>, env: Env)
    requires forall m :: m in ms ==> m in visible && m in tri && visible[m] != 1
    requires forall d :: d in ds ==> d.member in ms
    requires user.Some? ==> user.value in ms
    requires exists m :: m in ms && visible[m] != 0
    requires forall m :: m in ms ==>
               tri[m] == MemberTri(cfg, visible[m], PickOf(user, ds, ms, visible, env), m, env)
    ensures (exists p :: p in ms && visible[p] != 0 && tri[p] == 2 && forall m :: m in ms && m != p ==> tri[m] == 0)
            <==> forall m :: m in ms && visible[m] == 0 ==> OwnDefault(cfg, m, env) == 0
    ensures var p := PickOf(user, ds, ms, visible, env);
            && p.Some? && p.value in ms && tri[p.value] == 2
            && forall m :: m in ms && m != p.value && visible[m] != 0 ==> tri[m] == 0
  {
    PickIsMember(user, ds, ms, visible, env);
  }

  lemma OnePrompt(p: Prop, env: Env)
    requires p.kind == Prompt
    ensures PromptVal([p], env) == DepVal(p.visible, env)
  {
    assert [p][..0] == [] && PromptVal([], env) == 0;
  }

  const MemberA := Named("a", BooleanType)
  const MemberB := Named("b", BooleanType)
  const MemberD := Named("d", BooleanType)

  /** Three members: a and d have prompts, b has one that needs n, and the default y. */
  const HiddenY := Config(map[MemberA := Definition([Prop(Prompt, None, Leaf(Yes))], None, None),
                              MemberD := Definition([Prop(Prompt, None, Leaf(Yes))], None, None),
                              MemberB := Definition([Prop(Prompt, Some(Leaf(No)), Leaf(Yes)),
                                                     Prop(Default, None, Leaf(Yes))], None, None)], map[], 2)

  lemma HiddenYValues(env: Env)
    requires WellFormed(env)
    ensures Visibility(HiddenY, MemberA, env) == Visibility(HiddenY, MemberD, env) == 2
    ensures Visibility(HiddenY, MemberB, env) == 0 && HiddenTri(HiddenY, MemberB, env) == 2
  {
    var yes, no := Prop(Prompt, None, Leaf(Yes)), Prop(Prompt, Some(Leaf(No)), Leaf(Yes));
    var d := Prop(Default, None, Leaf(Yes));
    OnePrompt(yes, env);
    OnePrompt(no, env);
    assert [no, d][..1] == [no];
    assert PromptVal([no, d], env) == 0;
    assert [no, d][1..] == [d];
    assert DefaultProp([no, d], env) == Some(d);
  }

  /** Two members worth y: a is picked, and b, which is hidden, has the default y. */
  lemma HiddenDefaultIsSecond(env: Env)
    requires WellFormed(env)
    ensures var visible := map[MemberA := Visibility(HiddenY, MemberA, env),
                               MemberB := Visibility(HiddenY, MemberB, env)];
            var pick := PickOf(None, [], [MemberA, MemberB], visible, env);
            && visible == map[MemberA := 2, MemberB := 0] && pick == Some(MemberA)
            && MemberTri(HiddenY, visible[MemberA], pick, MemberA, env) == 2
            && MemberTri(HiddenY, visible[MemberB], pick, MemberB, env) == 2
  {
    HiddenYValues(env);
  }

  /** The user picks d and then sets b, which is hidden and y already: that is accepted, and the
      choice picks a. */
  method HiddenSetForgets(env: Env) returns (first: Option<Symbol>, r: bool, second: Option<Symbol>)
    requires WellFormed(env)
    ensures first == Some(MemberD) && r && second == Some(MemberA)
  {
    HiddenYValues(env);
    var g := new ChoiceGroup(HiddenY, Named("c", BooleanType), [MemberA, MemberD, MemberB], []);
    assert MemberA in g.members && MemberD in g.members && MemberB in g.members;
    g.CalcGroup(env);
    r := g.SetAndCalc(MemberD, env);
    first := g.pick;
    r := g.SetAndCalc(MemberB, env);
    second := g.pick;
    assert FirstVisible([MemberA, MemberD, MemberB], g.visible) == Some(MemberA);
  }

  /** Some member is picked if and only if some member is visible, and the pick is visible. */
  lemma {:induction false} PickIsMember(user: Option<Symbol>, ds: seq<ChoiceDefault>, ms: seq<Symbol>,
                     visible: map<Symbol, Tri>, env: Env)
    requires forall m :: m in ms ==> m in visible
    requires forall d :: d in ds ==> d.member in ms
    requires user.Some? ==> user.value in ms
    ensures var p := PickOf(user, ds, ms, visible, env);
            && (p.Some? ==> p.value in ms && visible[p.value] != 0)
            && (p.Some? <==> exists m :: m in ms && visible[m] != 0)
  {
    FirstDefaultIsFirst(ds, visible, env);
    FirstVisibleIsFirst(ms, visible);
  }

  /** The first default that is visible and whose condition holds. */
  lemma {:induction false} FirstDefaultIsFirst(ds: seq<ChoiceDefault>, visible: map<Symbol, Tri>, env: Env)
    ensures var r := FirstDefault(ds, visible, env);
            match r
            case Some(m) =>
              exists i :: 0 <= i < |ds| && ds[i].member == m && Offers(ds[i], visible, env)
                          && forall j :: 0 <= j < i ==> !Offers(ds[j], visible, env)
            case None => forall i :: 0 <= i < |ds| ==> !Offers(ds[i], visible, env)
  {
    if ds != [] && !Offers(ds[0], visible, env) {
      FirstDefaultIsFirst(ds[1..], visible, env);
      var r := FirstDefault(ds[1..], visible, env);
      if r.Some? {
        var i :| 0 <= i < |ds[1..]| && ds[1..][i].member == r.value && Offers(ds[1..][i], visible, env)
                 && forall j :: 0 <= j < i ==> !Offers(ds[1..][j], visible, env);
        assert ds[i + 1] == ds[1..][i];
        forall j | 0 <= j < i + 1 ensures !Offers(ds[j], visible, env) {
          if j > 0 { assert ds[j] == ds[1..][j - 1]; }
        }
      } else {
        forall j | 0 <= j < |ds| ensures !Offers(ds[j], visible, env) {
          if j > 0 { assert ds[j] == ds[1..][j - 1]; }
        }
      }
    }
  }

  /** The default at i is the first to offer a visible member. */
  ghost predicate OffersFirst(ds: seq<ChoiceDefault>, visible: map<Symbol, Tri>, env: Env, i: nat) {
    i < |ds| && Offers(ds[i], visible, env) && forall j :: 0 <= j < i ==> !Offers(ds[j], visible, env)
  }

  ghost predicate NoneOffers(ds: seq<ChoiceDefault>, visible: map<Symbol, Tri>, env: Env) {
    forall j :: 0 <= j < |ds| ==> !Offers(ds[j], visible, env)
  }

  ghost predicate SeenFirst(ms: seq<Symbol>, visible: map<Symbol, Tri>, i: nat)
    requires forall m :: m in ms ==> m in visible
  {
    i < |ms| && visible[ms[i]] != 0 && forall j :: 0 <= j < i ==> visible[ms[j]] == 0
  }

  /** The user's pick if it is visible; else the first default that offers a visible member; else the
      first visible member. */
  lemma PickRule(user: Option<Symbol>, ds: seq<ChoiceDefault>, ms: seq<Symbol>, visible: map<Symbol, Tri>, env: Env,
                 i: nat)
    requires forall m :: m in ms ==> m in visible
    ensures var p := PickOf(user, ds, ms, visible, env);
            if user.Some? && user.value in visible && visible[user.value] != 0 then p == user
            else
              && (OffersFirst(ds, visible, env, i) ==> p == Some(ds[i].member))
              && (NoneOffers(ds, visible, env) && SeenFirst(ms, visible, i) ==> p == Some(ms[i]))
  {
    if OffersFirst(ds, visible, env, i) { FirstDefaultIs(ds, visible, env, i); }
    if SeenFirst(ms, visible, i) { FirstVisibleIs(ms, visible, i); }
    FirstDefaultIsFirst(ds, visible, env);
  }

  lemma {:induction false} FirstDefaultIs(ds: seq<ChoiceDefault>, visible: map<Symbol, Tri>, env: Env, i: nat)
    requires OffersFirst(ds, visible, env, i)
    ensures FirstDefault(ds, visible, env) == Some(ds[i].member)
  {
    if i > 0 {
      assert forall j :: 0 <= j < |ds[1..]| ==> ds[1..][j] == ds[j + 1];
      FirstDefaultIs(ds[1..], visible, env, i - 1);
    }
  }

  lemma {:induction false} FirstVisibleIs(ms: seq<Symbol>, visible: map<Symbol, Tri>, i: nat)
    requires forall m :: m in ms ==> m in visible
    requires SeenFirst(ms, visible, i)
    ensures FirstVisible(ms, visible) == Some(ms[i])
  {
    if i > 0 {
      assert forall j :: 0 <= j < |ms[1..]| ==> ms[1..][j] == ms[j + 1];
      FirstVisibleIs(ms[1..], visible, i - 1);
    }
  }

  predicate Offers(d: ChoiceDefault, visible: map<Symbol, Tri>, env: Env) {
    DepVal(d.visible, env) != 0 && d.member in visible && visible[d.member] != 0
  }

  lemma {:induction false} FirstVisibleIsFirst(ms: seq<Symbol>, visible: map<Symbol, Tri>)
    requires forall m :: m in ms ==> m in visible
    ensures match FirstVisible(ms, visible)
            case Some(m) =>
              exists i :: 0 <= i < |ms| && ms[i] == m && visible[m] != 0
                          && forall j :: 0 <= j < i ==> visible[ms[j]] == 0
            case None => forall i :: 0 <= i < |ms| ==> visible[ms[i]] == 0
  {
    if ms != [] && visible[ms[0]] == 0 {
      FirstVisibleIsFirst(ms[1..], visible);
      var r := FirstVisible(ms[1..], visible);
      if r.Some? {
        var i :| 0 <= i < |ms[1..]| && ms[1..][i] == r.value && visible[r.value] != 0
                 && forall j :: 0 <= j < i ==> visible[ms[1..][j]] == 0;
        assert ms[i + 1] == ms[1..][i];
        forall j | 0 <= j < i + 1 ensures visible[ms[j]] == 0 {
          if j > 0 { assert ms[j] == ms[1..][j - 1]; }
        }
      } else {
        forall j | 0 <= j < |ms| ensures visible[ms[j]] == 0 {
          if j > 0 { assert ms[j] == ms[1..][j - 1]; }
        }
      }
    }
  }
}
