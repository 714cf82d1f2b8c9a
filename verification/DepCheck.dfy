/** The recursive dependency check `sym_check_deps` for symbols outside choices: a depth-first
    search with the flags SYMBOL_CHECK (on the current path) and SYMBOL_CHECKED (visited). */
module DepCheck {
  import opened Expr
  import opened SymbolEval

  /** The symbols the check follows: the reverse dependency, then the conditions of all
      properties but selects, and the values of defaults. */
  function PropEdges(props: seq<Prop>): set<Symbol> {
    if props == [] then {}
    else
      (if props[0].kind == Select then {}
       else DepSymbols(props[0].visible) + (if props[0].kind == Default then Symbols(props[0].expr) else {}))
      + PropEdges(props[1..])
  }

  function Edges(d: Definition): set<Symbol> {
    DepSymbols(d.revDep) + PropEdges(d.props)
  }

  /** A property that is no select carries t in its condition, or, as a default, in its value. */
  predicate Mentions(p: Prop, t: Symbol) {
    p.kind != Select && (t in DepSymbols(p.visible) || (p.kind == Default && t in Symbols(p.expr)))
  }

  /** Exactly what the check follows. */
  lemma EdgesExactly(d: Definition, t: Symbol)
    ensures t in Edges(d) <==>
              || (d.revDep.Some? && t in Symbols(d.revDep.value))
              || exists i :: 0 <= i < |d.props| && Mentions(d.props[i], t)
  {
    PropEdgesExactly(d.props, t);
  }

  lemma {:induction false} PropEdgesExactly(props: seq<Prop>, t: Symbol)
    ensures t in PropEdges(props) <==> exists i :: 0 <= i < |props| && Mentions(props[i], t)
  {
    if props != [] {
      PropEdgesExactly(props[1..], t);
      assert t in PropEdges(props) <==> Mentions(props[0], t) || t in PropEdges(props[1..]);
      if i :| 0 <= i < |props[1..]| && Mentions(props[1..][i], t) {
        assert props[i + 1] == props[1..][i];
      }
      if i :| 0 <= i < |props| && Mentions(props[i], t) {
        assert i > 0 ==> props[1..][i - 1] == props[i];
      }
    }
  }

  /** Exactly what the evaluator reads: prompts and defaults, and the direct and reverse dependencies. */
  lemma DepsExactly(d: Definition, t: Symbol)
    ensures t in Deps(d) <==>
              || (d.revDep.Some? && t in Symbols(d.revDep.value)) || (d.dirDep.Some? && t in Symbols(d.dirDep.value))
              || exists i :: 0 <= i < |d.props| && d.props[i].kind != OtherProp && Mentions(d.props[i], t)
  {
    PropSymbolsExactly(d.props, t);
  }

  lemma {:induction false} PropSymbolsExactly(props: seq<Prop>, t: Symbol)
    ensures t in PropSymbols(props) <==>
              exists i :: 0 <= i < |props| && props[i].kind != OtherProp && Mentions(props[i], t)
  {
    if props != [] {
      PropSymbolsExactly(props[1..], t);
      assert t in PropSymbols(props) <==>
               (props[0].kind != OtherProp && Mentions(props[0], t)) || t in PropSymbols(props[1..]);
      if i :| 0 <= i < |props[1..]| && props[1..][i].kind != OtherProp && Mentions(props[1..][i], t) {
        assert props[i + 1] == props[1..][i];
      }
      if i :| 0 <= i < |props| && props[i].kind != OtherProp && Mentions(props[i], t) {
        assert i > 0 ==> props[1..][i - 1] == props[i];
      }
    }
  }

  /** Who reads a definition: the check, or the evaluator, which also reads the direct
      dependency. */
  datatype Reader = CHECK | EVALUATOR

  function Reads(reader: Reader, d: Definition): set<Symbol> {
    if reader == CHECK then Edges(d) else Deps(d)
  }

  ghost predicate Edge(reader: Reader, defs: map<Symbol, Definition>, s: Symbol, t: Symbol) {
    s in defs && t in Reads(reader, defs[s])
  }

  ghost predicate Chain(reader: Reader, defs: map<Symbol, Definition>, p: seq<Symbol>) {
    forall i :: 0 <= i < |p| - 1 ==> Edge(reader, defs, p[i], p[i + 1])
  }

  ghost predicate Cycle(reader: Reader, defs: map<Symbol, Definition>, p: seq<Symbol>) {
    p != [] && Chain(reader, defs, p) && Edge(reader, defs, p[|p| - 1], p[0])
  }

  ghost predicate HasCycle(reader: Reader, defs: map<Symbol, Definition>) {
    exists p :: Cycle(reader, defs, p)
  }

  ghost function Elements(p: seq<Symbol>): set<Symbol> { set s | s in p }

  /** Everything a symbol of the list depends on stands before it. */
  ghost predicate Topological(defs: map<Symbol, Definition>, order: seq<Symbol>) {
    forall i :: 0 <= i < |order| ==> TopologicalAt(defs, order, i)
  }

  ghost predicate TopologicalAt(defs: map<Symbol, Definition>, order: seq<Symbol>, i: nat)
    requires i < |order|
  {
    order[i] in defs && Edges(defs[order[i]]) <= Elements(order[..i])
  }

  class DepChecker {
    const defs: map<Symbol, Definition>
    var check: set<Symbol>
    var checked: set<Symbol>
    /** A recursive dependency was printed. */
    var reported: bool
    /** The symbols whose check is over, in the order in which it ended. */
    ghost var done: seq<Symbol>

    ghost predicate Closed() {
      forall s {:trigger Edges(defs[s])} :: s in defs ==> Edges(defs[s]) <= defs.Keys
    }

    /** CHECK marks exactly the current path; a report comes with a cycle; and as long as
        nothing was reported, the visited symbols off the path are in topological order. */
    ghost predicate Valid(path: seq<Symbol>)
      reads this
    {
      && check == Elements(path) && check <= checked <= defs.Keys
      && Chain(CHECK, defs, path)
      && (if reported then HasCycle(CHECK, defs)
          else Topological(defs, done) && Elements(done) == checked - check)
    }

    /** What a call may do: it leaves CHECK alone, visits more symbols, finishes more, and
        never takes a report back. */
    twostate predicate Progress()
      reads this
    {
      && check == old(check) && old(checked) <= checked
      && (old(reported) ==> reported)
      && (!reported ==> Elements(old(done)) <= Elements(done))
    }

    constructor (defs: map<Symbol, Definition>)
      requires forall s :: s in defs ==> Edges(defs[s]) <= defs.Keys
      ensures Closed() && Valid([]) && this.defs == defs && !reported
    {
      this.defs := defs;
      check, checked, reported, done := {}, {}, false, [];
    }

    /** `sym_check_expr_deps`: stops at the first symbol that gives a result. */
    method CheckExpr(e: Expr, ghost path: seq<Symbol>) returns (r: Option<Symbol>)
      requires Closed() && Valid(path) && path != []
      requires forall t :: t in Symbols(e) ==> t in defs && Edge(CHECK, defs, path[|path| - 1], t)
      modifies this
      ensures Valid(path) && Progress()
      ensures r.Some? ==> reported && r.value in check
      ensures !reported ==> Symbols(e) <= Elements(done)
      decreases defs.Keys - checked, 2, e
    {
      match e
      case Leaf(s) =>
        r := CheckDeps(s, path);
      case Not(a) =>
        r := CheckExpr(a, path);
      case Equal(a, b) =>
        r := CheckDeps(a, path);
        if r.None? {
          r := CheckDeps(b, path);
        }
      case Unequal(a, b) =>
        r := CheckDeps(a, path);
        if r.None? {
          r := CheckDeps(b, path);
        }
      case Bin(_, a, b) =>
        r := CheckExpr(a, path);
        if r.None? {
          r := CheckExpr(b, path);
        }
    }

    method CheckDep(e: Option<Expr>, ghost path: seq<Symbol>) returns (r: Option<Symbol>)
      requires Closed() && Valid(path) && path != []
      requires forall t :: t in DepSymbols(e) ==> t in defs && Edge(CHECK, defs, path[|path| - 1], t)
      modifies this
      ensures Valid(path) && Progress()
      ensures r.Some? ==> reported && r.value in check
      ensures !reported ==> DepSymbols(e) <= Elements(done)
      decreases defs.Keys - checked, 3
    {
      r := None;
      if e.Some? {
        r := CheckExpr(e.value, path);
      }
    }

    /** `sym_check_sym_deps` of the last symbol of the path. */
    method CheckSymDeps(s: Symbol, ghost path: seq<Symbol>) returns (r: Option<Symbol>)
      requires Closed() && Valid(path) && path != [] && path[|path| - 1] == s
      modifies this
      ensures Valid(path) && Progress()
      ensures r.Some? ==> reported && r.value in check
      ensures !reported ==> Edges(defs[s]) <= Elements(done)
      decreases defs.Keys - checked, 4
    {
      assert s in defs && Edges(defs[s]) <= defs.Keys;
      var d := defs[s];
      r := CheckDep(d.revDep, path);
      if r.Some? {
        return;
      }
      for i := 0 to |d.props|
        invariant Valid(path) && Progress()
        invariant !reported ==> DepSymbols(d.revDep) <= Elements(done)
        invariant !reported ==> PropEdges(d.props[..i]) <= Elements(done)
      {
        var p := d.props[i];
        PropEdgesSplit(d.props, i);
        if p.kind == Select {
          continue;
        }
        r := CheckDep(p.visible, path);
        if r.Some? {
          return;
        }
        if p.kind != Default {
          continue;
        }
        r := CheckExpr(p.expr, path);
        if r.Some? {
          return;
        }
      }
      assert d.props[..|d.props|] == d.props;
      r := None;
    }

    /** `sym_check_deps`. A result names the symbol on the path that was met again; it is
        dropped when the search is back at that symbol. */
    method CheckDeps(s: Symbol, ghost path: seq<Symbol>) returns (r: Option<Symbol>)
      requires Closed() && Valid(path) && s in defs
      requires path != [] ==> Edge(CHECK, defs, path[|path| - 1], s)
      modifies this
      ensures Valid(path) && Progress() && s in checked
      ensures r.Some? ==> reported && r.value in check
      ensures !reported ==> s in Elements(done)
      decreases defs.Keys - checked, 1
    {
      if s in check {
        reported := true;
        FoundCycle(defs, path, s);
        return Some(s);
      }
      if s in checked {
        return None;
      }
      ghost var path' := path + [s];
      ghost var check0 := check;
      assert Elements(path') == check + {s};
      check, checked := check + {s}, checked + {s};
      r := CheckSymDeps(s, path');
      check := check - {s};
      if !reported {
        DoneExtend(defs, done, s);
        ghost var done0 := done;
        done := done + [s];
        assert Elements(done) == Elements(done0) + {s};
      }
      if r == Some(s) {
        r := None;
      }
    }

    /** The caller's loop over all symbols. */
    method Sweep(symbols: seq<Symbol>) returns (errors: int)
      requires Closed() && Valid([]) && !reported && checked == {}
      requires forall s :: s in symbols ==> s in defs
      requires forall s :: s in defs && s !in symbols ==> Edges(defs[s]) == {}
      modifies this
      ensures Valid([])
      ensures reported <==> HasCycle(CHECK, defs)
      ensures errors == 0
    {
      errors := 0;
      for i := 0 to |symbols|
        invariant Valid([])
        invariant !reported ==> forall j :: 0 <= j < i ==> symbols[j] in Elements(done)
        invariant errors == 0
      {
        var r := CheckDeps(symbols[i], []);
        if r.Some? {
          errors := errors + 1;
        }
      }
      if !reported {
        NoCycle(defs, done, symbols);
      }
    }
  }

  lemma {:induction false} PropEdgesSplit(props: seq<Prop>, i: nat)
    requires i < |props|
    ensures PropEdges(props[..i + 1]) == PropEdges(props[..i]) + PropEdges([props[i]])
    ensures PropEdges([props[i]]) <= PropEdges(props)
  {
    var p := props[..i + 1];
    if i > 0 {
      PropEdgesSplit(props[1..], i - 1);
      assert p[1..] == props[1..][..i];
      assert props[..i][1..] == props[1..][..i - 1];
    } else {
      assert p == [props[0]] && props[..0] == [];
      assert p[1..] == [];
    }
  }

  lemma FoundCycle(defs: map<Symbol, Definition>, path: seq<Symbol>, s: Symbol)
    requires Chain(CHECK, defs, path) && s in path && Edge(CHECK, defs, path[|path| - 1], s)
    ensures HasCycle(CHECK, defs)
  {
    var k :| 0 <= k < |path| && path[k] == s;
    var c := path[k..];
    forall i | 0 <= i < |c| - 1 ensures Edge(CHECK, defs, c[i], c[i + 1]) {
      assert Edge(CHECK, defs, path[k + i], path[k + i + 1]);
    }
    assert Cycle(CHECK, defs, c);
  }

  lemma DoneExtend(defs: map<Symbol, Definition>, done: seq<Symbol>, s: Symbol)
    requires Topological(defs, done) && s in defs && Edges(defs[s]) <= Elements(done)
    ensures Topological(defs, done + [s])
  {
    var d := done + [s];
    forall i | 0 <= i < |d| ensures TopologicalAt(defs, d, i) {
      if i < |done| {
        assert TopologicalAt(defs, done, i);
        assert d[..i] == done[..i];
      } else {
        assert d[..i] == done;
      }
    }
  }

  /** Position of the first occurrence, counted from one; zero for a symbol not in the list. */
  ghost function Position(order: seq<Symbol>, s: Symbol): (r: nat)
    ensures r > 0 <==> s in order
    ensures r > 0 ==> r <= |order| && order[r - 1] == s && s !in order[..r - 1]
  {
    if order == [] then 0
    else
      var rest := order[..|order| - 1];
      assert order == rest + [order[|order| - 1]];
      var p := Position(rest, s);
      if p > 0 then (assert rest[..p - 1] == order[..p - 1]; p)
      else if order[|order| - 1] == s then |order| else 0
  }

  /** Along an edge the position falls. */
  lemma EdgeFalls(defs: map<Symbol, Definition>, order: seq<Symbol>, s: Symbol, t: Symbol)
    requires Topological(defs, order) && s in order && Edge(CHECK, defs, s, t)
    ensures t in order && Position(order, t) < Position(order, s)
  {
    var i := Position(order, s) - 1;
    assert TopologicalAt(defs, order, i);
    var j :| 0 <= j < i && order[..i][j] == t;
    assert order[j] == t;
  }

  lemma {:induction false} ChainFalls(defs: map<Symbol, Definition>, order: seq<Symbol>, c: seq<Symbol>, i: nat)
    requires Topological(defs, order) && Chain(CHECK, defs, c) && i < |c| && c[0] in order
    ensures c[i] in order && Position(order, c[i]) <= Position(order, c[0])
  {
    if i > 0 {
      ChainFalls(defs, order, c, i - 1);
      assert Edge(CHECK, defs, c[i - 1], c[i - 1 + 1]);
      EdgeFalls(defs, order, c[i - 1], c[i]);
    }
  }

  lemma NoCycle(defs: map<Symbol, Definition>, order: seq<Symbol>, symbols: seq<Symbol>)
    requires Topological(defs, order)
    requires forall i :: 0 <= i < |symbols| ==> symbols[i] in order
    requires forall s :: s in defs && s !in symbols ==> Edges(defs[s]) == {}
    ensures !HasCycle(CHECK, defs)
  {
    forall c | Cycle(CHECK, defs, c) ensures false {
      if |c| > 1 { assert Edge(CHECK, defs, c[0], c[0 + 1]); }
      assert c[0] in order;
      ChainFalls(defs, order, c, |c| - 1);
      EdgeFalls(defs, order, c[|c| - 1], c[0]);
    }
  }

  // ----- consequence for the evaluator -----

  lemma {:induction false} PropSymbolsAreEdges(props: seq<Prop>)
    ensures PropSymbols(props) <= PropEdges(props)
  {
    if props != [] { PropSymbolsAreEdges(props[1..]); }
  }

  /** t is reached from s along at least one edge that the evaluator reads. */
  ghost predicate Reaches(defs: map<Symbol, Definition>, s: Symbol, t: Symbol) {
    exists p :: |p| > 1 && Chain(EVALUATOR, defs, p) && p[0] == s && p[|p| - 1] == t
  }

  ghost function Reached(defs: map<Symbol, Definition>, s: Symbol): set<Symbol> {
    set t | t in defs.Keys && Reaches(defs, s, t)
  }

  lemma EdgeReaches(defs: map<Symbol, Definition>, s: Symbol, t: Symbol)
    requires Edge(EVALUATOR, defs, s, t)
    ensures Reaches(defs, s, t)
    ensures forall u :: Reaches(defs, t, u) ==> Reaches(defs, s, u)
  {
    assert Chain(EVALUATOR, defs, [s, t]);
    assert [s, t][0] == s && [s, t][|[s, t]| - 1] == t;
    forall u | Reaches(defs, t, u) ensures Reaches(defs, s, u) {
      var p :| |p| > 1 && Chain(EVALUATOR, defs, p) && p[0] == t && p[|p| - 1] == u;
      var q := [s] + p;
      forall i | 0 <= i < |q| - 1 ensures Edge(EVALUATOR, defs, q[i], q[i + 1]) {
        if i > 0 { assert Edge(EVALUATOR, defs, p[i - 1], p[i - 1 + 1]); }
      }
      assert q[0] == s && q[|q| - 1] == u;
    }
  }

  lemma ReachesItself(defs: map<Symbol, Definition>, s: Symbol)
    requires Reaches(defs, s, s)
    ensures HasCycle(EVALUATOR, defs)
  {
    var p :| |p| > 1 && Chain(EVALUATOR, defs, p) && p[0] == s && p[|p| - 1] == s;
    var c := p[..|p| - 1];
    forall i | 0 <= i < |c| - 1 ensures Edge(EVALUATOR, defs, c[i], c[i + 1]) {
      assert Edge(EVALUATOR, defs, p[i], p[i + 1]);
    }
    assert Edge(EVALUATOR, defs, p[|p| - 2], p[|p| - 2 + 1]);
    assert Cycle(EVALUATOR, defs, c);
  }

  /** Without a cycle the number of symbols that are reached falls along every edge. */
  lemma AcyclicIsRanked(cfg: Config)
    requires forall s {:trigger Deps(cfg.defs[s])} :: s in cfg.defs ==> Deps(cfg.defs[s]) <= cfg.defs.Keys
    requires !HasCycle(EVALUATOR, cfg.defs)
    ensures Ranked(cfg, s => |Reached(cfg.defs, s)|)
  {
    var defs, rank := cfg.defs, s => |Reached(cfg.defs, s)|;
    forall s ensures RanksAbove(cfg, rank, s) {
      forall t | t in Deps(cfg.Def(s)) ensures rank(t) < rank(s) {
        assert s in defs && Edge(EVALUATOR, defs, s, t);
        EdgeReaches(defs, s, t);
        if Reaches(defs, t, t) { ReachesItself(defs, t); }
        assert t in Reached(defs, s) && t !in Reached(defs, t);
        assert Reached(defs, t) < Reached(defs, s);
        Smaller(Reached(defs, t), Reached(defs, s));
      }
    }
  }

  lemma {:induction false} Smaller(a: set<Symbol>, b: set<Symbol>)
    requires a < b
    ensures |a| < |b|
  {
    if a != {} {
      var x :| x in a;
      Smaller(a - {x}, b - {x});
    }
  }

  lemma {:induction false} ChainSinks(cfg: Config, rank: Symbol -> nat, c: seq<Symbol>, i: nat)
    requires Ranked(cfg, rank) && Chain(EVALUATOR, cfg.defs, c) && i < |c|
    ensures rank(c[i]) <= rank(c[0])
  {
    if i > 0 {
      ChainSinks(cfg, rank, c, i - 1);
      assert RanksAbove(cfg, rank, c[i - 1]) && Edge(EVALUATOR, cfg.defs, c[i - 1], c[i - 1 + 1]);
    }
  }

  lemma RankedIsAcyclic(cfg: Config, rank: Symbol -> nat)
    requires Ranked(cfg, rank)
    ensures !HasCycle(EVALUATOR, cfg.defs)
  {
    forall c ensures !Cycle(EVALUATOR, cfg.defs, c) {
      if c != [] && Chain(EVALUATOR, cfg.defs, c) {
        ChainSinks(cfg, rank, c, |c| - 1);
        assert RanksAbove(cfg, rank, c[|c| - 1]);
      }
    }
  }

  /** The step from p[i], or from the last symbol back to the first, is one that only the
      direct dependency makes. */
  ghost predicate DirectStep(defs: map<Symbol, Definition>, p: seq<Symbol>, i: nat)
    requires i < |p|
  {
    var t := if i + 1 < |p| then p[i + 1] else p[0];
    p[i] in defs && t in DepSymbols(defs[p[i]].dirDep) && t !in Edges(defs[p[i]])
  }

  /** What a check without a report means for the evaluator. The evaluator's graph has a rank,
      so that the memoised values are those of the plain recursive definition, if and only if it
      has no cycle. The check does not follow direct dependencies; a cycle that it did not
      report takes a step that only a direct dependency makes. */
  lemma UnreportedIsRanked(cfg: Config)
    requires !HasCycle(CHECK, cfg.defs)
    requires forall s {:trigger Deps(cfg.defs[s])} :: s in cfg.defs ==> Deps(cfg.defs[s]) <= cfg.defs.Keys
    ensures (exists rank :: Ranked(cfg, rank)) <==> !HasCycle(EVALUATOR, cfg.defs)
    ensures forall p :: Cycle(EVALUATOR, cfg.defs, p) ==> exists i :: 0 <= i < |p| && DirectStep(cfg.defs, p, i)
  {
    if rank :| Ranked(cfg, rank) { RankedIsAcyclic(cfg, rank); }
    if !HasCycle(EVALUATOR, cfg.defs) { AcyclicIsRanked(cfg); }
    forall p | Cycle(EVALUATOR, cfg.defs, p) ensures exists i :: 0 <= i < |p| && DirectStep(cfg.defs, p, i) {
      if !exists i :: 0 <= i < |p| && DirectStep(cfg.defs, p, i) {
        FollowedCycle(cfg.defs, p);
        assert false;
      }
    }
  }

  lemma FollowedCycle(defs: map<Symbol, Definition>, p: seq<Symbol>)
    requires Cycle(EVALUATOR, defs, p) && !exists i :: 0 <= i < |p| && DirectStep(defs, p, i)
    ensures HasCycle(CHECK, defs)
  {
    forall i | 0 <= i < |p| - 1 ensures Edge(CHECK, defs, p[i], p[i + 1]) {
      assert !DirectStep(defs, p, i) && Edge(EVALUATOR, defs, p[i], p[i + 1]);
      PropSymbolsAreEdges(defs[p[i]].props);
    }
    assert !DirectStep(defs, p, |p| - 1);
    PropSymbolsAreEdges(defs[p[|p| - 1]].props);
    assert Cycle(CHECK, defs, p);
  }

  /** If no other properties carry conditions, a report is one of a cycle that the evaluator meets. */
  lemma ReportedIsMet(defs: map<Symbol, Definition>)
    requires forall s, p :: s in defs && p in defs[s].props && p.kind == OtherProp ==> p.visible.None?
    requires HasCycle(CHECK, defs)
    ensures HasCycle(EVALUATOR, defs)
  {
    var p :| Cycle(CHECK, defs, p);
    forall s, t | Edge(CHECK, defs, s, t) ensures Edge(EVALUATOR, defs, s, t) {
      EdgesExactly(defs[s], t);
      DepsExactly(defs[s], t);
    }
    assert Cycle(EVALUATOR, defs, p);
  }

  lemma OneDefault(s: Symbol)
    ensures var p := Prop(Default, None, Leaf(s)); PropEdges([p]) == {s} && PropSymbols([p]) == {s}
  {
    var p := Prop(Default, None, Leaf(s));
    assert [p][1..] == [] && PropEdges([]) == {} && PropSymbols([]) == {};
  }

  /** Nothing is reported, and yet there is no rank: foo has no property to carry its direct
      dependency bar, bar is foo by default, and x selects foo. */
  lemma DirectDepUnchecked()
    ensures var foo, bar, x := Named("foo", BooleanType), Named("bar", BooleanType), Named("x", BooleanType);
            var defs := map[foo := Definition([], Some(Leaf(bar)), Some(Leaf(x))),
                            bar := Definition([Prop(Default, None, Leaf(foo))], None, None),
                            x := Definition([], None, None)];
            && Topological(defs, [x, foo, bar]) && !HasCycle(CHECK, defs)
            && forall user, modules, rank :: !Ranked(Config(defs, user, modules), rank)
  {
    var foo, bar, x := Named("foo", BooleanType), Named("bar", BooleanType), Named("x", BooleanType);
    var p := Prop(Default, None, Leaf(foo));
    var defs := map[foo := Definition([], Some(Leaf(bar)), Some(Leaf(x))),
                    bar := Definition([p], None, None), x := Definition([], None, None)];
    var order := [x, foo, bar];
    OneDefault(foo);
    assert order[..1] == [x] && order[..2] == [x, foo];
    assert Edges(defs[x]) == {} && Edges(defs[foo]) == {x} && Edges(defs[bar]) == {foo};
    assert x in order[..1] && foo in order[..2];
    assert Topological(defs, order);
    assert order[0] == x && order[1] == foo && order[2] == bar;
    NoCycle(defs, order, order);
    forall user, modules, rank ensures !Ranked(Config(defs, user, modules), rank) {
      var cfg := Config(defs, user, modules);
      assert bar in Deps(cfg.Def(foo)) && foo in Deps(cfg.Def(bar));
      assert !(RanksAbove(cfg, rank, foo) && RanksAbove(cfg, rank, bar));
    }
  }
}
