/** The menu tree: entries linked by first child, next sibling and parent. Restructuring by
    `menu_finalize`, and the stackless walk of `conf_write`. */
module MenuTree {

  class Menu {
    var next: Menu?
    var parent: Menu?
    var list: Menu?
    /** The entry belongs to a symbol. */
    const hasSym: bool
    /** The entry has a prompt with a text. */
    const hasPromptText: bool

    constructor (hasSym: bool, hasPromptText: bool)
      ensures next == null && parent == null && list == null
    {
      this.hasSym, this.hasPromptText := hasSym, hasPromptText;
      next, parent, list := null, null, null;
    }
  }

  /** The shape of a list of siblings: an entry, the list below it, and the entries after it. */
  datatype Forest = Nil | Cons(m: Menu, kids: Forest, rest: Forest)

  /** The entries in the order in which they are written. */
  ghost function Preorder(f: Forest): seq<Menu> {
    match f
    case Nil => []
    case Cons(m, kids, rest) => [m] + Preorder(kids) + Preorder(rest)
  }

  ghost function Menus(f: Forest): set<Menu> {
    match f
    case Nil => {}
    case Cons(m, kids, rest) => {m} + Menus(kids) + Menus(rest)
  }

  function Count(f: Forest): nat {
    match f
    case Nil => 0
    case Cons(_, kids, rest) => 1 + Count(kids) + Count(rest)
  }

  /** No entry occurs twice. */
  ghost predicate Proper(f: Forest) {
    match f
    case Nil => true
    case Cons(m, kids, rest) =>
      && m !in Menus(kids) && m !in Menus(rest) && Menus(kids) !! Menus(rest)
      && Proper(kids) && Proper(rest)
  }

  /** The pointers describe f: a sibling list under p that starts at first and runs to end. */
  ghost predicate Linked(p: Menu?, first: Menu?, f: Forest, end: Menu?)
    reads Menus(f)
    decreases f
  {
    match f
    case Nil => first == end
    case Cons(m, kids, rest) =>
      && first == m && m.parent == p
      && Linked(m, m.list, kids, null)
      && Linked(p, m.next, rest, end)
  }

  function Append(f: Forest, g: Forest): Forest {
    match f
    case Nil => g
    case Cons(m, kids, rest) => Cons(m, kids, Append(rest, g))
  }

  lemma {:induction false} AppendFacts(f: Forest, g: Forest)
    ensures Menus(Append(f, g)) == Menus(f) + Menus(g)
    ensures Preorder(Append(f, g)) == Preorder(f) + Preorder(g)
    ensures Count(Append(f, g)) == Count(f) + Count(g)
    ensures Proper(Append(f, g)) <==> Proper(f) && Proper(g) && Menus(f) !! Menus(g)
  {
    if f.Cons? { AppendFacts(f.rest, g); }
  }

  lemma {:induction false} AppendAssoc(f: Forest, g: Forest, h: Forest)
    ensures Append(Append(f, g), h) == Append(f, Append(g, h))
    ensures Append(f, Nil) == f
  {
    if f.Cons? { AppendAssoc(f.rest, g, h); }
  }

  lemma {:induction false} LinkedAppend(p: Menu?, first: Menu?, f: Forest, mid: Menu?, g: Forest, end: Menu?)
    requires Linked(p, first, f, mid) && Linked(p, mid, g, end)
    ensures Linked(p, first, Append(f, g), end)
  {
    if f.Cons? { LinkedAppend(p, f.m.next, f.rest, mid, g, end); }
  }

  ghost function Elements(s: seq<Menu>): set<Menu> {
    if s == [] then {} else {s[0]} + Elements(s[1..])
  }

  ghost predicate NoDup(s: seq<Menu>) {
    s == [] || (s[0] !in Elements(s[1..]) && NoDup(s[1..]))
  }

  lemma {:induction false} NoDupConcat(a: seq<Menu>, b: seq<Menu>)
    ensures Elements(a + b) == Elements(a) + Elements(b)
    ensures NoDup(a + b) <==> NoDup(a) && NoDup(b) && Elements(a) !! Elements(b)
  {
    if a == [] {
      assert a + b == b;
    } else {
      assert (a + b)[1..] == a[1..] + b;
      NoDupConcat(a[1..], b);
    }
  }

  /** Proper shapes are those whose preorder names no entry twice. */
  lemma {:induction false} ProperIsNoDup(f: Forest)
    ensures Menus(f) == Elements(Preorder(f)) && |Preorder(f)| == Count(f)
    ensures Proper(f) <==> NoDup(Preorder(f))
  {
    if f.Cons? {
      ProperIsNoDup(f.kids);
      ProperIsNoDup(f.rest);
      NoDupConcat([f.m], Preorder(f.kids));
      NoDupConcat([f.m] + Preorder(f.kids), Preorder(f.rest));
      assert [f.m][1..] == [];
    }
  }

  /** Two shapes with the same preorder have the same entries, and none twice. */
  lemma SamePreorder(f: Forest, g: Forest)
    requires Preorder(f) == Preorder(g)
    ensures Menus(f) == Menus(g) && Count(f) == Count(g)
    ensures Proper(f) <==> Proper(g)
  {
    ProperIsNoDup(f);
    ProperIsNoDup(g);
  }

  // ----- what menu_finalize does to the shape -----

  /** `below(m, x)` is the outcome of the submenu test for the entry x after the entry m. */
  type Below = (Menu, Menu) -> bool

  /** The first entry of a non-empty list, finalized: its list and the entries after it change. */
  function Finalize(below: Below, f: Forest): (r: Forest)
    requires f.Cons?
    ensures r.Cons? && r.m == f.m && Count(r) == Count(f)
    decreases Count(f), 1
  {
    if f.kids.Cons? then Cons(f.m, Flatten(FinalizeAll(below, f.kids)), f.rest)
    else if f.m.hasSym then
      var a := Absorb(below, f.m, f.rest);
      Cons(f.m, Flatten(a.0), a.1)
    else f
  }

  /** The loop over a list: each entry in turn, as the list then stands. */
  function FinalizeAll(below: Below, f: Forest): (r: Forest)
    ensures Count(r) == Count(f)
    decreases Count(f), 2
  {
    if f.Nil? then Nil
    else
      var g := Finalize(below, f);
      Cons(g.m, g.kids, FinalizeAll(below, g.rest))
  }

  /** The following siblings that go below m, and those that stay. */
  function Absorb(below: Below, m: Menu, f: Forest): (r: (Forest, Forest))
    ensures Count(r.0) + Count(r.1) == Count(f)
    decreases Count(f), 2
  {
    if f.Nil? || !below(m, f.m) then (Nil, f)
    else
      var g := Finalize(below, f);
      var a := Absorb(below, m, g.rest);
      (Cons(g.m, g.kids, a.0), a.1)
  }

  /** The lists of entries without a prompt text move up behind the entry. */
  function Flatten(f: Forest): (r: Forest)
    ensures Count(r) == Count(f)
    decreases Count(f)
  {
    match f
    case Nil => Nil
    case Cons(m, kids, rest) =>
      if kids.Cons? && !m.hasPromptText then
        AppendCount(kids, rest);
        Cons(m, Nil, Flatten(Append(kids, rest)))
      else Cons(m, kids, Flatten(rest))
  }

  lemma {:induction false} AppendCount(f: Forest, g: Forest)
    ensures Count(Append(f, g)) == Count(f) + Count(g)
  {
    if f.Cons? { AppendCount(f.rest, g); }
  }

  lemma {:induction false} FlattenPreorder(f: Forest)
    ensures Preorder(Flatten(f)) == Preorder(f)
    decreases Count(f)
  {
    if f.Cons? {
      if f.kids.Cons? && !f.m.hasPromptText {
        AppendFacts(f.kids, f.rest);
        FlattenPreorder(Append(f.kids, f.rest));
      } else {
        FlattenPreorder(f.rest);
      }
    }
  }

  /** Restructuring never changes the order in which entries are written. */
  lemma {:induction false} FinalizePreorder(below: Below, f: Forest)
    requires f.Cons?
    ensures Preorder(Finalize(below, f)) == Preorder(f)
    decreases Count(f), 1
  {
    if f.kids.Cons? {
      FinalizeAllPreorder(below, f.kids);
      FlattenPreorder(FinalizeAll(below, f.kids));
    } else if f.m.hasSym {
      AbsorbPreorder(below, f.m, f.rest);
      FlattenPreorder(Absorb(below, f.m, f.rest).0);
    }
  }

  lemma {:induction false} FinalizeAllPreorder(below: Below, f: Forest)
    ensures Preorder(FinalizeAll(below, f)) == Preorder(f)
    decreases Count(f), 2
  {
    if f.Cons? {
      FinalizePreorder(below, f);
      FinalizeAllPreorder(below, Finalize(below, f).rest);
    }
  }

  lemma {:induction false} AbsorbPreorder(below: Below, m: Menu, f: Forest)
    ensures Preorder(Absorb(below, m, f).0) + Preorder(Absorb(below, m, f).1) == Preorder(f)
    decreases Count(f), 2
  {
    if f.Cons? && below(m, f.m) {
      FinalizePreorder(below, f);
      AbsorbPreorder(below, m, Finalize(below, f).rest);
    }
  }

  lemma FinalizeKeeps(below: Below, f: Forest)
    requires f.Cons?
    ensures Menus(Finalize(below, f)) == Menus(f) && (Proper(Finalize(below, f)) <==> Proper(f))
  {
    FinalizePreorder(below, f);
    SamePreorder(f, Finalize(below, f));
  }

  lemma FinalizeAllKeeps(below: Below, f: Forest)
    ensures Menus(FinalizeAll(below, f)) == Menus(f) && (Proper(FinalizeAll(below, f)) <==> Proper(f))
  {
    FinalizeAllPreorder(below, f);
    SamePreorder(f, FinalizeAll(below, f));
  }

  lemma AbsorbKeeps(below: Below, m: Menu, f: Forest)
    requires Proper(f)
    ensures var a := Absorb(below, m, f);
            && Proper(a.0) && Proper(a.1) && Menus(a.0) !! Menus(a.1)
            && Menus(a.0) + Menus(a.1) == Menus(f)
  {
    var a := Absorb(below, m, f);
    AbsorbPreorder(below, m, f);
    AppendFacts(a.0, a.1);
    SamePreorder(f, Append(a.0, a.1));
  }

  /** Every entry with a list of its own has a prompt text, at every depth. */
  ghost predicate Flat(f: Forest) {
    match f
    case Nil => true
    case Cons(m, kids, rest) => (kids.Cons? ==> m.hasPromptText) && Flat(kids) && Flat(rest)
  }

  /** The same, except for the entries of the list itself. */
  ghost predicate FlatBelow(f: Forest) {
    match f
    case Nil => true
    case Cons(_, kids, rest) => Flat(kids) && FlatBelow(rest)
  }

  lemma {:induction false} FlatAppend(f: Forest, g: Forest)
    requires Flat(f) && FlatBelow(g)
    ensures FlatBelow(Append(f, g))
  {
    if f.Cons? { FlatAppend(f.rest, g); }
  }

  lemma {:induction false} FlattenFlat(f: Forest)
    requires FlatBelow(f)
    ensures Flat(Flatten(f))
    decreases Count(f)
  {
    if f.Cons? {
      if f.kids.Cons? && !f.m.hasPromptText {
        FlatAppend(f.kids, f.rest);
        AppendCount(f.kids, f.rest);
        FlattenFlat(Append(f.kids, f.rest));
      } else {
        FlattenFlat(f.rest);
      }
    }
  }

  /** Below a finalized entry no list hangs under an entry without a prompt text. */
  lemma {:induction false} FinalizeFlat(below: Below, f: Forest)
    requires f.Cons?
    ensures Flat(Finalize(below, f).kids)
    decreases Count(f), 1
  {
    if f.kids.Cons? {
      FinalizeAllFlat(below, f.kids);
      FlattenFlat(FinalizeAll(below, f.kids));
    } else if f.m.hasSym {
      AbsorbFlat(below, f.m, f.rest);
      FlattenFlat(Absorb(below, f.m, f.rest).0);
    }
  }

  lemma {:induction false} FinalizeAllFlat(below: Below, f: Forest)
    ensures FlatBelow(FinalizeAll(below, f))
    decreases Count(f), 2
  {
    if f.Cons? {
      FinalizeFlat(below, f);
      FinalizeAllFlat(below, Finalize(below, f).rest);
    }
  }

  lemma {:induction false} AbsorbFlat(below: Below, m: Menu, f: Forest)
    ensures FlatBelow(Absorb(below, m, f).0)
    decreases Count(f), 2
  {
    if f.Cons? && below(m, f.m) {
      FinalizeFlat(below, f);
      AbsorbFlat(below, m, Finalize(below, f).rest);
    }
  }

  /** What stands behind an entry afterwards: the same as before, if it has a list or no symbol, and else
      only an entry that fails the test. */
  lemma FinalizeBehind(below: Below, f: Forest)
    requires f.Cons?
    ensures var rest := Finalize(below, f).rest;
            if f.kids.Cons? || !f.m.hasSym then rest == f.rest else rest.Cons? ==> !below(f.m, rest.m)
  {
    if f.kids.Nil? { AbsorbStops(below, f.m, f.rest); }
  }

  lemma {:induction false} AbsorbStops(below: Below, m: Menu, f: Forest)
    ensures var rest := Absorb(below, m, f).1; rest.Cons? ==> !below(m, rest.m)
    decreases Count(f)
  {
    if f.Cons? && below(m, f.m) { AbsorbStops(below, m, Finalize(below, f).rest); }
  }

  // ----- the pointers -----

  /** The last entry of a list itself, with its own list but nothing after it. */
  function LastOf(f: Forest): (r: Forest)
    requires f.Cons?
    ensures r.Cons? && r.rest.Nil?
  {
    if f.rest.Nil? then f else LastOf(f.rest)
  }

  /** The list without its last entry. */
  function Init(f: Forest): Forest
    requires f.Cons?
  {
    if f.rest.Nil? then Nil else Cons(f.m, f.kids, Init(f.rest))
  }

  lemma {:induction false} SplitLast(p: Menu?, first: Menu?, f: Forest, end: Menu?)
    requires f.Cons? && Proper(f) && Linked(p, first, f, end)
    ensures var last := LastOf(f);
            && f == Append(Init(f), last)
            && Menus(f) == Menus(Init(f)) + Menus(last) && Menus(Init(f)) !! Menus(last) && Proper(last)
            && Linked(p, first, Init(f), last.m)
            && last.m.parent == p && last.m.next == end && Linked(last.m, last.m.list, last.kids, null)
  {
    if f.rest.Cons? { SplitLast(p, f.m.next, f.rest, end); }
  }

  /** One step along a list: the entry at mid joins the part that is done. */
  lemma LinkedStep(p: Menu?, first: Menu?, done: Forest, mid: Menu, kids: Forest)
    requires Linked(p, first, done, mid)
    requires mid.parent == p && Linked(mid, mid.list, kids, null)
    ensures Linked(p, first, Append(done, Cons(mid, kids, Nil)), mid.next)
  {
    LinkedAppend(p, first, done, mid, Cons(mid, kids, Nil), mid.next);
  }

  /** Gives the entries of a list a new parent and returns the last one. */
  method Adopt(first: Menu, parent: Menu, ghost kids: Forest, ghost p: Menu?, ghost all: set<Menu>) returns (last: Menu)
    requires kids.Cons? && Proper(kids) && Linked(p, first, kids, null) && Menus(kids) <= all
    modifies Menus(kids)`parent
    ensures Linked(parent, first, kids, null) && last == LastOf(kids).m
  {
    last := first;
    ghost var done, todo := Nil, kids;
    while true
      invariant kids == Append(done, todo) && todo.Cons? && todo.m == last
      invariant Proper(done) && Proper(todo) && Menus(done) !! Menus(todo) && Menus(todo) <= Menus(kids)
      invariant Linked(parent, first, done, last) && Linked(p, last, todo, null)
      invariant LastOf(todo) == LastOf(kids)
      decreases todo
    {
      last.parent := parent;
      LinkedStep(parent, first, done, last, todo.kids);
      AppendAssoc(done, Cons(last, todo.kids, Nil), todo.rest);
      AppendFacts(done, Cons(last, todo.kids, Nil));
      done := Append(done, Cons(last, todo.kids, Nil));
      if last.next == null {
        AppendAssoc(done, Nil, Nil);
        break;
      }
      todo := todo.rest;
      last := last.next;
    }
  }

  /** Redirecting the last entry of a list changes where the list ends and nothing else. */
  method Redirect(first: Menu, last: Menu, x: Menu?, ghost p: Menu?, ghost f: Forest,
                  ghost end: Menu?, ghost all: set<Menu>)
    requires f.Cons? && Proper(f) && Menus(f) <= all && Linked(p, first, f, end) && last == LastOf(f).m
    modifies last`next
    ensures Linked(p, first, f, x) && last.next == x
  {
    SplitLast(p, first, f, end);
    last.next := x;
    LinkedStep(p, first, Init(f), last, LastOf(f).kids);
  }

  /** Moves a whole list: new parent for every entry, and x after the last one. */
  method Transplant(first: Menu, parent: Menu, x: Menu?, ghost kids: Forest, ghost p: Menu?, ghost all: set<Menu>)
    requires kids.Cons? && Proper(kids) && Linked(p, first, kids, null) && Menus(kids) <= all
    modifies Menus(kids)
    ensures Linked(parent, first, kids, x)
  {
    var last := Adopt(first, parent, kids, p, all);
    SplitLast(parent, first, kids, null);
    Redirect(first, last, x, parent, kids, null, all);
  }

  /** Moves the list of `menu` up behind it: its entries get the new parent, the last of them
      is linked to the entry after `menu`. */
  method Hoist(menu: Menu, parent: Menu, ghost kids: Forest, ghost rest: Forest, ghost all: set<Menu>)
    requires Menus(Cons(menu, kids, rest)) <= all
    requires Linked(parent, menu, Cons(menu, kids, rest), null) && Proper(Cons(menu, kids, rest))
    requires kids.Cons?
    modifies Menus(Cons(menu, kids, rest))
    ensures Linked(parent, menu, Cons(menu, Nil, Append(kids, rest)), null)
  {
    Transplant(menu.list, parent, menu.next, kids, menu, all);
    assert Linked(parent, menu.next, rest, null) == old(Linked(parent, menu.next, rest, null));
    LinkedAppend(parent, menu.list, kids, menu.next, rest, null);
    AppendFacts(kids, rest);
    label Joined:
    menu.next := menu.list;
    menu.list := null;
    assert Linked(parent, menu.next, Append(kids, rest), null) ==
           old@Joined(Linked(parent, menu.list, Append(kids, rest), null));
  }

  /** A loop over the list of p stands at cur: done lies behind it, todo (still under q)
      before it, and together they have the entries `all`. */
  ghost predicate Standing(p: Menu?, first: Menu?, done: Forest, cur: Menu?, q: Menu?, todo: Forest, all: set<Menu>)
    reads Menus(done), Menus(todo)
  {
    && Linked(p, first, done, cur) && Linked(q, cur, todo, null)
    && Proper(done) && Proper(todo) && Menus(done) !! Menus(todo)
    && Menus(done) + Menus(todo) == all
  }

  /** The loop goes on to the next entry. */
  lemma StandingStep(p: Menu?, first: Menu?, done: Forest, cur: Menu, q: Menu?, kids: Forest, rest: Forest,
                     all: set<Menu>)
    requires Linked(p, first, done, cur) && Proper(done)
    requires cur.parent == p && Linked(cur, cur.list, kids, null) && Linked(q, cur.next, rest, null)
    requires Proper(Cons(cur, kids, rest)) && Menus(done) !! Menus(Cons(cur, kids, rest))
    requires Menus(done) + Menus(Cons(cur, kids, rest)) == all
    ensures Standing(p, first, Append(done, Cons(cur, kids, Nil)), cur.next, q, rest, all)
  {
    LinkedStep(p, first, done, cur, kids);
    AppendFacts(done, Cons(cur, kids, Nil));
  }

  /** The last loop of `menu_finalize`. */
  method FlattenList(parent: Menu, ghost kids: Forest, ghost all: set<Menu>)
    requires Menus(kids) <= all
    requires Linked(parent, parent.list, kids, null) && Proper(kids) && parent !in Menus(kids)
    modifies Menus(kids)
    ensures Linked(parent, parent.list, Flatten(kids), null)
  {
    var menu := parent.list;
    ghost var done, todo := Nil, kids;
    while menu != null
      invariant Flatten(kids) == Append(done, Flatten(todo))
      invariant Standing(parent, parent.list, done, menu, parent, todo, Menus(kids))
      decreases Count(todo)
    {
      ghost var k, r := todo.kids, todo.rest;
      label Before:
      if menu.list != null && !menu.hasPromptText {
        assert Linked(menu, menu.list, k, null);
        Hoist(menu, parent, k, r, all);
        AppendFacts(k, r);
        k, r := Nil, Append(k, r);
      }
      assert Linked(parent, parent.list, done, menu) == old@Before(Linked(parent, parent.list, done, menu));
      StandingStep(parent, parent.list, done, menu, parent, k, r, Menus(kids));
      AppendAssoc(done, Cons(menu, k, Nil), Flatten(r));
      done, todo := Append(done, Cons(menu, k, Nil)), r;
      menu := menu.next;
    }
    AppendAssoc(done, Nil, Nil);
  }

  /** `menu_finalize` of the first entry of a list that ends with null. */
  method MenuFinalize(parent: Menu, below: Below, ghost p: Menu?, ghost f: Forest, ghost all: set<Menu>)
    requires f.Cons? && Menus(f) <= all && Linked(p, parent, f, null) && Proper(f)
    modifies Menus(f)
    ensures Linked(p, parent, Finalize(below, f), null)
    ensures if old(parent.list) != null || !parent.hasSym then parent.next == old(parent.next)
            else parent.next != null ==> !below(parent, parent.next)
    decreases Count(f), 1
  {
    FinalizeBehind(below, f);
    if parent.list != null {
      FinalizeList(parent, below, f.kids, all);
      FinalizeAllKeeps(below, f.kids);
      label Listed:
      FlattenList(parent, FinalizeAll(below, f.kids), all);
      assert Linked(p, parent.next, f.rest, null) == old(Linked(p, parent.next, f.rest, null));
    } else if parent.hasSym {
      AbsorbSiblings(parent, below, p, f.rest, all);
      AbsorbKeeps(below, parent, f.rest);
      ghost var a := Absorb(below, parent, f.rest);
      label Absorbed:
      FlattenList(parent, a.0, all);
      assert Linked(p, parent.next, a.1, null) == old@Absorbed(Linked(p, parent.next, a.1, null));
    }
  }

  /** The loop over an existing list. */
  method FinalizeList(parent: Menu, below: Below, ghost kids: Forest, ghost all: set<Menu>)
    requires Menus(kids) <= all
    requires Linked(parent, parent.list, kids, null) && Proper(kids) && parent !in Menus(kids)
    modifies Menus(kids)
    ensures Linked(parent, parent.list, FinalizeAll(below, kids), null)
    decreases Count(kids), 2
  {
    var menu := parent.list;
    ghost var done, todo := Nil, kids;
    while menu != null
      invariant FinalizeAll(below, kids) == Append(done, FinalizeAll(below, todo))
      invariant Standing(parent, parent.list, done, menu, parent, todo, Menus(kids))
      invariant Count(todo) <= Count(kids)
      decreases Count(todo)
    {
      ghost var g := Finalize(below, todo);
      FinalizeKeeps(below, todo);
      label Before:
      MenuFinalize(menu, below, parent, todo, all);
      assert Linked(parent, parent.list, done, menu) == old@Before(Linked(parent, parent.list, done, menu));
      StandingStep(parent, parent.list, done, menu, parent, g.kids, g.rest, Menus(kids));
      AppendAssoc(done, Cons(menu, g.kids, Nil), FinalizeAll(below, g.rest));
      done, todo := Append(done, Cons(menu, g.kids, Nil)), g.rest;
      menu := menu.next;
    }
    AppendAssoc(done, Nil, Nil);
  }

  /** Finalizes one following sibling and moves it below `parent`. */
  method AbsorbOne(menu: Menu, parent: Menu, below: Below, ghost p: Menu?, ghost todo: Forest, ghost all: set<Menu>)
    requires todo.Cons? && Linked(p, menu, todo, null) && Proper(todo) && Menus(todo) <= all
    modifies Menus(todo)
    ensures menu.parent == parent
    ensures Linked(menu, menu.list, Finalize(below, todo).kids, null)
    ensures Linked(p, menu.next, Finalize(below, todo).rest, null)
    decreases Count(todo), 2
  {
    ghost var g := Finalize(below, todo);
    MenuFinalize(menu, below, p, todo, all);
    FinalizeKeeps(below, todo);
    label After:
    menu.parent := parent;
    assert Linked(menu, menu.list, g.kids, null) == old@After(Linked(menu, menu.list, g.kids, null));
    assert Linked(p, menu.next, g.rest, null) == old@After(Linked(p, menu.next, g.rest, null));
  }

  /** Cuts the siblings up to `last` off and makes them the list of `parent`. */
  method Detach(parent: Menu, last: Menu, ghost p: Menu?, ghost done: Forest, ghost end: Menu?, ghost todo: Forest,
                ghost all: set<Menu>)
    requires done.Cons? && last == LastOf(done).m && Menus(done) + Menus(todo) <= all
    requires Standing(parent, parent.next, done, end, p, todo, Menus(done) + Menus(todo))
    requires parent !in Menus(done) + Menus(todo)
    modifies parent`list, parent`next, last`next
    ensures Linked(parent, parent.list, done, null) && Linked(p, parent.next, todo, null)
  {
    SplitLast(parent, parent.next, done, end);
    parent.list := parent.next;
    parent.next := last.next;
    assert Linked(parent, parent.list, done, end) == old(Linked(parent, parent.next, done, end));
    Redirect(parent.list, last, null, parent, done, end, all);
    assert Linked(p, end, todo, null) == old(Linked(p, end, todo, null));
  }

  /** The loop that moves following siblings below an entry without a list. */
  method AbsorbSiblings(parent: Menu, below: Below, ghost p: Menu?, ghost rest: Forest, ghost all: set<Menu>)
    requires Menus(Cons(parent, Nil, rest)) <= all
    requires Linked(p, parent, Cons(parent, Nil, rest), null) && Proper(Cons(parent, Nil, rest))
    modifies Menus(Cons(parent, Nil, rest))
    ensures parent.parent == p
    ensures var a := Absorb(below, parent, rest);
            Linked(parent, parent.list, a.0, null) && Linked(p, parent.next, a.1, null)
    decreases Count(rest), 3
  {
    var last: Menu? := null;
    var menu := parent.next;
    ghost var done, todo := Nil, rest;
    while menu != null
      invariant var a := Absorb(below, parent, todo);
                Absorb(below, parent, rest) == (Append(done, a.0), a.1)
      invariant parent.parent == p && parent.list == null
      invariant Standing(parent, parent.next, done, menu, p, todo, Menus(rest))
      invariant Count(todo) <= Count(rest)
      invariant if done.Nil? then last == null else last == LastOf(done).m
      decreases Count(todo)
    {
      if !below(parent, menu) {
        break;
      }
      ghost var g := Finalize(below, todo);
      label Before:
      AbsorbOne(menu, parent, below, p, todo, all);
      FinalizeKeeps(below, todo);
      assert Linked(parent, parent.next, done, menu) == old@Before(Linked(parent, parent.next, done, menu));
      StandingStep(parent, parent.next, done, menu, p, g.kids, g.rest, Menus(rest));
      AppendAssoc(done, Cons(menu, g.kids, Nil), Absorb(below, parent, g.rest).0);
      LastAppended(done, menu, g.kids);
      done, todo := Append(done, Cons(menu, g.kids, Nil)), g.rest;
      last := menu;
      menu := menu.next;
    }
    AppendAssoc(done, Nil, Nil);
    if last != null {
      SplitLast(parent, parent.next, done, menu);
      Detach(parent, last, p, done, menu, todo, all);
    }
  }

  lemma {:induction false} LastAppended(done: Forest, m: Menu, kids: Forest)
    ensures var f := Append(done, Cons(m, kids, Nil));
            f.Cons? && LastOf(f).m == m
  {
    if done.Cons? { LastAppended(done.rest, m, kids); }
  }

  // ----- the walk of conf_write -----

  /** The lists that are still to be visited after the entries on the way up from p to the root. */
  ghost predicate WayUp(root: Menu, p: Menu?, later: seq<Forest>)
    reads *
    decreases |later|
  {
    if later == [] then p == root
    else
      && p != null && p != root
      && Linked(p.parent, p.next, later[0], null)
      && WayUp(root, p.parent, later[1..])
  }

  ghost function PreorderAll(fs: seq<Forest>): seq<Menu> {
    if fs == [] then [] else Preorder(fs[0]) + PreorderAll(fs[1..])
  }

  /** Goes up from an entry without a next one to the first entry after one of its ancestors,
      or to null from the root. */
  method NextUp(root: Menu, start: Menu, ghost later: seq<Forest>)
    returns (r: Menu?, ghost f: Forest, ghost rest: seq<Forest>)
    requires root.parent == null && root.next == null
    requires WayUp(root, start.parent, later)
    ensures r == null ==> PreorderAll(later) == []
    ensures r != null ==>
              && f.Cons? && Linked(r.parent, r, f, null) && WayUp(root, r.parent, rest)
              && PreorderAll(later) == Preorder(f) + PreorderAll(rest)
    ensures r != null ==> |rest| < |later|
  {
    var menu: Menu? := start.parent;
    rest := later;
    f := Nil;
    while menu != null
      invariant PreorderAll(rest) == PreorderAll(later) && |rest| <= |later|
      invariant if menu == null then rest == [] else WayUp(root, menu, rest)
      decreases |rest|, menu != null
    {
      if menu.next != null {
        f, rest := rest[0], rest[1..];
        return menu.next, f, rest;
      }
      if rest != [] {
        assert rest[0].Nil?;
        rest := rest[1..];
      }
      menu := menu.parent;
    }
    r := null;
  }

  /** The walk stands at cur, before the list f and then the lists on the way up. */
  ghost predicate Before(root: Menu, cur: Menu?, f: Forest, later: seq<Forest>)
    reads *
  {
    if cur == null then f.Nil? && PreorderAll(later) == []
    else f.Cons? && Linked(cur.parent, cur, f, null) && WayUp(root, cur.parent, later)
  }

  /** The step of the walk: down, else to the right, else up. */
  method NextMenu(root: Menu, menu: Menu, ghost f: Forest, ghost later: seq<Forest>)
    returns (r: Menu?, ghost f': Forest, ghost later': seq<Forest>)
    requires root.parent == null && root.next == null
    requires Before(root, menu, f, later)
    ensures Before(root, r, f', later')
    ensures Preorder(f) + PreorderAll(later) == [menu] + (Preorder(f') + PreorderAll(later'))
  {
    assert Linked(menu, menu.list, f.kids, null) && Linked(menu.parent, menu.next, f.rest, null);
    assert menu.parent != null;
    if menu.list != null {
      r, f', later' := menu.list, f.kids, [f.rest] + later;
      assert later'[1..] == later;
    } else if menu.next != null {
      r, f', later' := menu.next, f.rest, later;
    } else {
      r, f', later' := NextUp(root, menu, later);
      if r == null {
        f', later' := Nil, [];
      }
    }
  }

  /** Visits every entry below the root once, in preorder, without a stack. */
  method Walk(root: Menu, ghost kids: Forest) returns (visited: seq<Menu>)
    requires root.parent == null && root.next == null
    requires Linked(root, root.list, kids, null)
    ensures visited == Preorder(kids)
  {
    visited := [];
    var menu := root.list;
    ghost var f, later := kids, [];
    ghost var todo := Preorder(f) + PreorderAll(later);
    while menu != null
      invariant Before(root, menu, f, later) && todo == Preorder(f) + PreorderAll(later)
      invariant visited + todo == Preorder(kids)
      decreases |todo|
    {
      visited := visited + [menu];
      menu, f, later := NextMenu(root, menu, f, later);
      todo := Preorder(f) + PreorderAll(later);
    }
  }

  /** Restructuring the whole tree does not change what the walk visits, nor in which order. */
  method FinalizeAndWalk(root: Menu, below: Below, ghost kids: Forest) returns (visited: seq<Menu>)
    requires root.parent == null && root.next == null
    requires Linked(root, root.list, kids, null) && Proper(Cons(root, kids, Nil))
    modifies Menus(Cons(root, kids, Nil))
    ensures visited == Preorder(kids)
  {
    ghost var f := Cons(root, kids, Nil);
    MenuFinalize(root, below, null, f, Menus(f));
    ghost var g := Finalize(below, f);
    FinalizePreorder(below, f);
    FinalizeRest(below, f);
    visited := Walk(root, g.kids);
    assert Preorder(g)[1..] == Preorder(g.kids) && Preorder(f)[1..] == Preorder(kids);
  }

  lemma FinalizeRest(below: Below, f: Forest)
    requires f.Cons? && f.rest.Nil?
    ensures Finalize(below, f).rest.Nil?
  {
    assert Absorb(below, f.m, Nil) == (Nil, Nil);
  }
}
