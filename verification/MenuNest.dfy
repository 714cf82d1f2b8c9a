/** Where `menu_finalize` puts entries: what goes below an entry that has no list, and which lists
    move up. */
module MenuNest {
  import opened MenuTree

  // ----- the submenus, before any list moves up -----

  /** The first entry of a list with what goes below it. */
  function Nest(below: Below, f: Forest): (r: Forest)
    requires f.Cons?
    ensures r.Cons? && r.m == f.m && Count(r) == Count(f)
    decreases Count(f), 1
  {
    if f.kids.Cons? then Cons(f.m, NestAll(below, f.kids), f.rest)
    else if f.m.hasSym then
      var a := NestUnder(below, f.m, f.rest);
      Cons(f.m, a.0, a.1)
    else f
  }

  function NestAll(below: Below, f: Forest): (r: Forest)
    ensures Count(r) == Count(f) && Head(r) == Head(f)
    decreases Count(f), 2
  {
    if f.Nil? then Nil
    else
      var g := Nest(below, f);
      Cons(g.m, g.kids, NestAll(below, g.rest))
  }

  function NestUnder(below: Below, m: Menu, f: Forest): (r: (Forest, Forest))
    ensures Count(r.0) + Count(r.1) == Count(f)
    ensures if r.0.Nil? then r.1 == f else Head(r.0) == Head(f)
    decreases Count(f), 2
  {
    if f.Nil? || !below(m, f.m) then (Nil, f)
    else
      var g := Nest(below, f);
      var a := NestUnder(below, m, g.rest);
      (Cons(g.m, g.kids, a.0), a.1)
  }

  function Head(f: Forest): Menu? { if f.Nil? then null else f.m }

  /** The entries that keep their own lists, those with one and those without a symbol, with all
      that is below them. */
  ghost predicate Owns(lists: map<Menu, seq<Menu>>, f: Forest) {
    match f
    case Nil => true
    case Cons(m, kids, rest) =>
      && (m in lists <==> kids.Cons? || !m.hasSym)
      && (m in lists ==> lists[m] == Preorder(kids))
      && Owns(lists, kids) && Owns(lists, rest)
  }

  /** All entries of the list itself pass the test for m. */
  ghost predicate Pass(below: Below, m: Menu, f: Forest) {
    f.Cons? ==> below(m, f.m) && Pass(below, m, f.rest)
  }

  /** How f is nested, at every depth, where y is the entry that stands behind all of f: an entry that keeps
      its list has the same entries below it as before. Any other has below it entries that pass its
      test, and the entry that stands behind it and all that is below it does not. */
  ghost predicate Nested(below: Below, lists: map<Menu, seq<Menu>>, f: Forest, y: Menu?) {
    match f
    case Nil => true
    case Cons(m, kids, rest) =>
      var behind := if rest.Cons? then rest.m else y;
      && (if m in lists then Preorder(kids) == lists[m] && Nested(below, lists, kids, null)
          else Pass(below, m, kids) && (behind != null ==> !below(m, behind)) && Nested(below, lists, kids, behind))
      && Nested(below, lists, rest, y)
  }

  lemma {:induction false} NestPreorder(below: Below, f: Forest)
    requires f.Cons?
    ensures Preorder(Nest(below, f)) == Preorder(f)
    decreases Count(f), 1
  {
    if f.kids.Cons? {
      NestAllPreorder(below, f.kids);
    } else if f.m.hasSym {
      NestUnderPreorder(below, f.m, f.rest);
    }
  }

  lemma {:induction false} NestAllPreorder(below: Below, f: Forest)
    ensures Preorder(NestAll(below, f)) == Preorder(f)
    decreases Count(f), 2
  {
    if f.Cons? {
      NestPreorder(below, f);
      NestAllPreorder(below, Nest(below, f).rest);
    }
  }

  lemma {:induction false} NestUnderPreorder(below: Below, m: Menu, f: Forest)
    ensures Preorder(NestUnder(below, m, f).0) + Preorder(NestUnder(below, m, f).1) == Preorder(f)
    decreases Count(f), 2
  {
    if f.Cons? && below(m, f.m) {
      NestPreorder(below, f);
      NestUnderPreorder(below, m, Nest(below, f).rest);
    }
  }

  /** What stands behind the first entry is nested with it, and the rest of the list is as before. */
  lemma {:induction false} NestNested(below: Below, lists: map<Menu, seq<Menu>>, f: Forest)
    requires f.Cons? && Owns(lists, f)
    ensures var r := Nest(below, f);
            && Nested(below, lists, Cons(r.m, r.kids, Nil), Head(r.rest))
            && Owns(lists, r.rest)
    decreases Count(f), 1
  {
    if f.kids.Cons? {
      NestAllNested(below, lists, f.kids);
      NestAllPreorder(below, f.kids);
    } else if f.m.hasSym {
      NestUnderNested(below, lists, f.m, f.rest);
    }
  }

  lemma {:induction false} NestAllNested(below: Below, lists: map<Menu, seq<Menu>>, f: Forest)
    requires Owns(lists, f)
    ensures Nested(below, lists, NestAll(below, f), null)
    decreases Count(f), 2
  {
    if f.Cons? {
      NestNested(below, lists, f);
      NestAllNested(below, lists, Nest(below, f).rest);
    }
  }

  lemma {:induction false} NestUnderNested(below: Below, lists: map<Menu, seq<Menu>>, m: Menu, f: Forest)
    requires Owns(lists, f)
    ensures var a := NestUnder(below, m, f);
            && Pass(below, m, a.0) && (a.1.Cons? ==> !below(m, a.1.m))
            && Nested(below, lists, a.0, Head(a.1)) && Owns(lists, a.1)
    decreases Count(f), 2
  {
    if f.Cons? && below(m, f.m) {
      NestNested(below, lists, f);
      NestUnderNested(below, lists, m, Nest(below, f).rest);
    }
  }

  // ----- the lists that move up -----

  /** All lists below entries without a prompt text moved up, at every depth. */
  function Hoisted(f: Forest): Forest {
    match f
    case Nil => Nil
    case Cons(m, kids, rest) =>
      if m.hasPromptText then Cons(m, Hoisted(kids), Hoisted(rest))
      else Cons(m, Nil, Append(Hoisted(kids), Hoisted(rest)))
  }

  /** The same, except in the list itself. */
  function HoistedBelow(f: Forest): Forest {
    match f
    case Nil => Nil
    case Cons(m, kids, rest) => Cons(m, Hoisted(kids), HoistedBelow(rest))
  }

  lemma {:induction false} HoistedCount(f: Forest)
    ensures Count(Hoisted(f)) == Count(f) && Count(HoistedBelow(f)) == Count(f)
  {
    if f.Cons? {
      HoistedCount(f.kids);
      HoistedCount(f.rest);
      AppendCount(Hoisted(f.kids), Hoisted(f.rest));
    }
  }

  /** No entry of the list itself has a list to move up. */
  predicate NoneToHoist(f: Forest) {
    f.Cons? ==> (f.kids.Cons? ==> f.m.hasPromptText) && NoneToHoist(f.rest)
  }

  lemma {:induction false} HoistedNone(f: Forest)
    ensures NoneToHoist(Hoisted(f))
  {
    if f.Cons? {
      HoistedNone(f.kids);
      HoistedNone(f.rest);
      NoneAppended(Hoisted(f.kids), Hoisted(f.rest));
    }
  }

  lemma {:induction false} NoneAppended(f: Forest, g: Forest)
    requires NoneToHoist(f) && NoneToHoist(g)
    ensures NoneToHoist(Append(f, g))
  {
    if f.Cons? { NoneAppended(f.rest, g); }
  }

  lemma {:induction false} FlattenBehind(f: Forest, g: Forest)
    requires NoneToHoist(f)
    ensures Flatten(Append(f, g)) == Append(f, Flatten(g))
  {
    if f.Cons? { FlattenBehind(f.rest, g); }
  }

  /** One level more. */
  lemma {:induction false} FlattenHoists(f: Forest)
    ensures Flatten(HoistedBelow(f)) == Hoisted(f)
  {
    if f.Cons? {
      FlattenHoists(f.rest);
      HoistedNone(f.kids);
      FlattenBehind(Hoisted(f.kids), HoistedBelow(f.rest));
    }
  }

  /** So `menu_finalize` nests the entries and moves up the lists of those without a prompt text. */
  lemma {:induction false} FinalizeNests(below: Below, f: Forest)
    requires f.Cons?
    ensures Finalize(below, f) == Cons(f.m, Hoisted(Nest(below, f).kids), Nest(below, f).rest)
    decreases Count(f), 1
  {
    if f.kids.Cons? {
      FinalizeAllNests(below, f.kids);
      FlattenHoists(NestAll(below, f.kids));
    } else if f.m.hasSym {
      AbsorbNests(below, f.m, f.rest);
      FlattenHoists(NestUnder(below, f.m, f.rest).0);
    }
  }

  lemma {:induction false} FinalizeAllNests(below: Below, f: Forest)
    ensures FinalizeAll(below, f) == HoistedBelow(NestAll(below, f))
    decreases Count(f), 2
  {
    if f.Cons? {
      FinalizeNests(below, f);
      FinalizeAllNests(below, Nest(below, f).rest);
    }
  }

  lemma {:induction false} AbsorbNests(below: Below, m: Menu, f: Forest)
    ensures var a := NestUnder(below, m, f); Absorb(below, m, f) == (HoistedBelow(a.0), a.1)
    decreases Count(f), 2
  {
    if f.Cons? && below(m, f.m) {
      FinalizeNests(below, f);
      AbsorbNests(below, m, Nest(below, f).rest);
    }
  }

  /** x stands somewhere in f and has the entries s below it. */
  ghost predicate HasBelow(f: Forest, x: Menu, s: seq<Menu>) {
    match f
    case Nil => false
    case Cons(m, kids, rest) => (m == x && Preorder(kids) == s) || HasBelow(kids, x, s) || HasBelow(rest, x, s)
  }

  lemma {:induction false} HasBelowAppend(f: Forest, g: Forest, x: Menu, s: seq<Menu>)
    ensures HasBelow(Append(f, g), x, s) <==> HasBelow(f, x, s) || HasBelow(g, x, s)
  {
    if f.Cons? { HasBelowAppend(f.rest, g, x, s); }
  }

  lemma {:induction false} HoistedPreorder(f: Forest)
    ensures Preorder(Hoisted(f)) == Preorder(f)
  {
    if f.Cons? {
      HoistedPreorder(f.kids);
      HoistedPreorder(f.rest);
      AppendFacts(Hoisted(f.kids), Hoisted(f.rest));
      assert [f.m] + [] + (Preorder(f.kids) + Preorder(f.rest)) == [f.m] + Preorder(f.kids) + Preorder(f.rest);
    }
  }

  /** Entries with a prompt text keep all that is below them, and no other has anything below it. */
  lemma {:induction false} HoistedKeeps(f: Forest, x: Menu, s: seq<Menu>)
    ensures x.hasPromptText ==> (HasBelow(Hoisted(f), x, s) <==> HasBelow(f, x, s))
    ensures !x.hasPromptText && HasBelow(Hoisted(f), x, s) ==> s == []
  {
    if f.Cons? {
      HoistedKeeps(f.kids, x, s);
      HoistedKeeps(f.rest, x, s);
      HoistedPreorder(f.kids);
      if f.m.hasPromptText {
        assert Hoisted(f) == Cons(f.m, Hoisted(f.kids), Hoisted(f.rest));
      } else {
        HasBelowAppend(Hoisted(f.kids), Hoisted(f.rest), x, s);
        assert !HasBelow(Nil, x, s);
        assert Hoisted(f) == Cons(f.m, Nil, Append(Hoisted(f.kids), Hoisted(f.rest)));
      }
    }
  }

  /** The lists that the entries of a tree without repetitions keep. */
  ghost function Lists(f: Forest): (r: map<Menu, seq<Menu>>)
    requires Proper(f)
    ensures r.Keys <= Menus(f) && Owns(r, f)
  {
    match f
    case Nil => map[]
    case Cons(m, kids, rest) =>
      var own: map<Menu, seq<Menu>> := if kids.Cons? || !m.hasSym then map[m := Preorder(kids)] else map[];
      var r := own + Lists(kids) + Lists(rest);
      OwnsMore(Lists(kids), r, kids);
      OwnsMore(Lists(rest), r, rest);
      r
  }

  lemma {:induction false} OwnsMore(a: map<Menu, seq<Menu>>, b: map<Menu, seq<Menu>>, f: Forest)
    requires Owns(a, f)
    requires forall m :: m in Menus(f) ==> (m in a <==> m in b) && (m in a ==> a[m] == b[m])
    ensures Owns(b, f)
  {
    if f.Cons? {
      OwnsMore(a, b, f.kids);
      OwnsMore(a, b, f.rest);
    }
  }

  /** How an entry is restructured on the pointers: nested, with lists moved up, and with the entries
      behind it as they stand then. */
  method Restructure(parent: Menu, below: Below, ghost p: Menu?, ghost f: Forest) returns (ghost kids: Forest)
    requires f.Cons? && Linked(p, parent, f, null) && Proper(f)
    modifies Menus(f)
    ensures Preorder(Cons(parent, kids, Nest(below, f).rest)) == Preorder(f)
    ensures Nested(below, Lists(f), Cons(parent, kids, Nil), parent.next)
    ensures Linked(parent, parent.list, Hoisted(kids), null)
    ensures Linked(p, parent.next, Nest(below, f).rest, null)
  {
    MenuFinalize(parent, below, p, f, Menus(f));
    FinalizeNests(below, f);
    NestPreorder(below, f);
    NestNested(below, Lists(f), f);
    kids := Nest(below, f).kids;
  }
}
