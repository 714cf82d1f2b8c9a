/** What `expr_eq` decides: for expressions without constants below an operator, equality up to the
    order and grouping of operands. */
module ExprForm {
  import opened Expr
  import opened ExprEq
  import opened ExprExtract
  import opened ExprPaths

  /** An expression up to the order and grouping of its operands. */
  datatype Form = Test(e: Expr) | Negated(arg: Form) | Group(op: Op, parts: multiset<Form>)

  function FormOf(e: Expr): Form
    decreases e, 1
  {
    match e
    case Not(a) => Negated(FormOf(a))
    case Bin(op, _, _) => Group(op, Parts(op, e))
    case _ => Test(e)
  }

  /** The operands of e below op, each up to rearrangement. */
  function Parts(op: Op, e: Expr): multiset<Form>
    decreases e, if IsOp(e, op) then 0 else 2
  {
    if IsOp(e, op) then Parts(op, e.l) + Parts(op, e.r) else multiset{FormOf(e)}
  }

  /** Neither y nor n is the operand of anything in e. */
  predicate Plain(e: Expr) {
    match e
    case Not(a) => Plain(a)
    case Bin(_, a, b) => !IsYn(a) && !IsYn(b) && Plain(a) && Plain(b)
    case _ => true
  }

  // ----- cancelling operands -----

  /** The operands are plain, or already replaced by the neutral symbol. */
  predicate Clean(op: Op, e: Expr) {
    if IsOp(e, op) then Clean(op, e.l) && Clean(op, e.r)
    else if IsYn(e) then e == Leaf(Neutral(op))
    else Plain(e)
  }

  /** The operands that are left. */
  function Live(op: Op, e: Expr): multiset<Form> {
    if IsOp(e, op) then Live(op, e.l) + Live(op, e.r)
    else if IsYn(e) then multiset{}
    else multiset{FormOf(e)}
  }

  lemma {:induction false} PlainIsClean(op: Op, e: Expr)
    requires Plain(e) && !IsYn(e)
    ensures Clean(op, e) && Live(op, e) == Parts(op, e) && |Parts(op, e)| > 0
  {
    if IsOp(e, op) { PlainIsClean(op, e.l); PlainIsClean(op, e.r); }
  }

  lemma {:induction false} PlainIsFolded(e: Expr)
    requires Plain(e)
    ensures !HasYnChild(e)
  {
    match e
    case Bin(_, a, b) => PlainIsFolded(a); PlainIsFolded(b);
    case _ =>
  }

  /** What remains of the operands m when they are folded to r: the neutral symbol exactly if there are
      none, and a symbol only if that is one of them. */
  predicate Folds(op: Op, m: multiset<Form>, r: Expr) {
    if m == multiset{} then r == Leaf(Neutral(op)) else !IsYn(r) && (r.Leaf? ==> FormOf(r) in m)
  }

  lemma {:induction false} FoldClean(op: Op, e: Expr)
    requires Clean(op, e)
    ensures Folds(op, Live(op, e), EliminateYn(e))
  {
    if IsOp(e, op) {
      FoldClean(op, e.l);
      FoldClean(op, e.r);
      FoldPair(op, Live(op, e.l), Live(op, e.r), EliminateYn(e.l), EliminateYn(e.r));
    } else if !IsYn(e) {
      PlainIsFolded(e);
      EliminateYnNormal(e);
    }
  }

  lemma FoldPair(op: Op, x: multiset<Form>, y: multiset<Form>, a: Expr, b: Expr)
    requires Folds(op, x, a) && Folds(op, y, b)
    ensures a != Leaf(Absorbing(op)) && b != Leaf(Absorbing(op))
    ensures Folds(op, x + y, if a == Leaf(Neutral(op)) then b else if b == Leaf(Neutral(op)) then a else Bin(op, a, b))
  {
    InSum(x, y);
  }

  lemma InSum<T>(x: multiset<T>, y: multiset<T>)
    ensures x + y == multiset{} <==> x == multiset{} && y == multiset{}
    ensures forall f :: f in x || f in y ==> f in x + y
  {
    if x + y == multiset{} { assert |x + y| == |x| + |y|; }
  }

  /** Taking out of two portions what they have in common with e. */
  lemma Portions<T>(l: multiset<T>, r: multiset<T>, e: multiset<T>)
    ensures (l - e) + (r - (e - l)) == (l + r) - e
    ensures (e - l) - r == e - (l + r)
  {}

  /** r is what is left of x when the operands that both sides have were taken out of both, as often as
      both have them. */
  predicate Reduced(op: Op, x: (Expr, Expr), r: (Expr, Expr)) {
    && Clean(op, r.0) && Clean(op, r.1)
    && (IsOp(x.0, op) ==> IsOp(r.0, op)) && (IsOp(x.1, op) ==> IsOp(r.1, op))
    && Live(op, r.0) == Live(op, x.0) - Live(op, x.1) && Live(op, r.1) == Live(op, x.1) - Live(op, x.0)
  }

  lemma ReducedTwice(op: Op, e1: Expr, e2: Expr, a: (Expr, Expr), b: (Expr, Expr))
    requires IsOp(e1, op) && Reduced(op, (e1.l, e2), a) && Reduced(op, (e1.r, a.1), b)
    ensures Reduced(op, (e1, e2), (Bin(op, a.0, b.0), b.1))
  {
    Portions(Live(op, e1.l), Live(op, e1.r), Live(op, e2));
  }

  lemma ReducedPair(op: Op, e1: Expr, e2: Expr)
    requires Clean(op, e1) && Clean(op, e2) && !IsOp(e1, op) && !IsOp(e2, op)
    requires !IsYn(e1) && !IsYn(e2) ==> (Eq(e1, e2) <==> FormOf(e1) == FormOf(e2))
    ensures Reduced(op, (e1, e2), if Eq(e1, e2) then (Leaf(Neutral(op)), Leaf(Neutral(op))) else (e1, e2))
  {
    if IsYn(e1) {
      assert Eq(e1, e2) ==> e2 == e1;
      NoDifference(Live(op, e1), Live(op, e2));
    } else if IsYn(e2) {
      NoDifference(Live(op, e2), Live(op, e1));
    } else {
      Alone(FormOf(e1), FormOf(e2));
      Alone(FormOf(e2), FormOf(e1));
    }
  }

  lemma Alone<T>(x: T, y: T)
    ensures multiset{x} - multiset{y} == if x == y then multiset{} else multiset{x}
  {}

  lemma NoDifference<T>(a: multiset<T>, b: multiset<T>)
    requires a == multiset{}
    ensures a - b == a && b - a == b
  {}

  lemma ReducedSwap(op: Op, x: (Expr, Expr), r: (Expr, Expr))
    requires Reduced(op, x, r)
    ensures Reduced(op, (x.1, x.0), (r.1, r.0))
  {}

  /** Cancellation takes out the operands that both sides have. */
  lemma {:induction false} CancelLive(op: Op, e1: Expr, e2: Expr)
    requires Clean(op, e1) && Clean(op, e2)
    ensures Reduced(op, (e1, e2), Cancel(op, e1, e2))
    decreases Size(e1) + Size(e2), if IsOp(e1, op) || IsOp(e2, op) then 0 else 3
  {
    if IsOp(e1, op) {
      var a := Cancel(op, e1.l, e2);
      CancelLive(op, e1.l, e2);
      CancelLive(op, e1.r, a.1);
      ReducedTwice(op, e1, e2, a, Cancel(op, e1.r, a.1));
    } else if IsOp(e2, op) {
      var a := Cancel(op, e1, e2.l);
      var b := Cancel(op, a.0, e2.r);
      CancelLive(op, e1, e2.l);
      CancelLive(op, a.0, e2.r);
      ReducedSwap(op, (e1, e2.l), a);
      ReducedSwap(op, (a.0, e2.r), b);
      ReducedTwice(op, e2, e1, (a.1, a.0), (b.1, b.0));
      ReducedSwap(op, (e2, e1), (Bin(op, a.1, b.1), b.0));
    } else {
      if !IsYn(e1) && !IsYn(e2) { EqExact(e1, e2); }
      ReducedPair(op, e1, e2);
    }
  }

  /** `expr_eq` finds two plain expressions equal exactly if one is a rearrangement of the other. */
  lemma {:induction false} EqExact(e1: Expr, e2: Expr)
    requires Plain(e1) && Plain(e2)
    ensures Eq(e1, e2) <==> FormOf(e1) == FormOf(e2)
    decreases Size(e1) + Size(e2), 2
  {
    match (e1, e2)
    case (Not(a), Not(b)) => EqExact(a, b);
    case (Bin(op, _, _), Bin(op', _, _)) =>
      if op == op' {
        var p := Cancel(op, e1, e2);
        PlainIsClean(op, e1);
        PlainIsClean(op, e2);
        CancelLive(op, e1, e2);
        FoldClean(op, p.0);
        FoldClean(op, p.1);
        SameParts(Parts(op, e1), Parts(op, e2));
      }
    case _ =>
  }

  lemma SameParts<T>(a: multiset<T>, b: multiset<T>)
    ensures a - b == multiset{} && b - a == multiset{} <==> a == b
    ensures forall x :: x in a - b ==> x !in b - a
  {}

  // ----- equal to itself, with any constants -----

  /** What cancelling e against itself leaves of it: constants, and the neutral symbol for the rest. */
  function Spent(op: Op, e: Expr): Expr {
    if IsOp(e, op) then Bin(op, Spent(op, e.l), Spent(op, e.r)) else if IsYn(e) then e else Leaf(Neutral(op))
  }

  lemma {:induction false} SpentFolds(op: Op, e: Expr)
    ensures IsYn(EliminateYn(Spent(op, e)))
  {
    if IsOp(e, op) { SpentFolds(op, e.l); SpentFolds(op, e.r); }
  }

  lemma {:induction false} SpentTwice(op: Op, e: Expr)
    ensures Spent(op, Spent(op, e)) == Spent(op, e)
  {
    if IsOp(e, op) { SpentTwice(op, e.l); SpentTwice(op, e.r); }
  }

  /** Constants are not cancelled, on either side. */
  lemma {:induction false} SpentStays(op: Op, e1: Expr, e2: Expr)
    requires (IsYn(e1) || Spent(op, e2) == e2) && !IsOp(e1, op)
    ensures Cancel(op, e1, e2) == (e1, e2)
    decreases e2
  {
    if IsOp(e2, op) {
      SpentStays(op, e1, e2.l);
      SpentStays(op, e1, e2.r);
    }
  }

  /** To the left of p there are only constants. */
  predicate LeftSpent(op: Op, e: Expr, p: Path)
    requires ValidPath(e, p)
  {
    p == [] || (if p[0] == Left then LeftSpent(op, e.l, p[1..])
                else Spent(op, e.l) == e.l && LeftSpent(op, e.r, p[1..]))
  }

  /** An operand x that is no operator of the kind is cancelled against itself at p. */
  lemma {:induction false} CancelOperand(op: Op, x: Expr, e: Expr, p: Path)
    requires ValidPath(e, p) && Spine(op, e, p) && Get(e, p) == x && LeftSpent(op, e, p)
    requires !IsOp(x, op) && Eq(x, x)
    ensures Cancel(op, x, e) == (Spent(op, x), Set(e, p, Spent(op, x)))
  {
    if p != [] {
      if p[0] == Left {
        CancelOperand(op, x, e.l, p[1..]);
        SpentStays(op, Spent(op, x), e.r);
      } else {
        SpentStays(op, x, e.l);
        CancelOperand(op, x, e.r, p[1..]);
      }
    }
  }

  /** With y at p, one step further down. */
  lemma {:induction false} StepBelow(op: Op, e: Expr, p: Path, y: Expr, d: Dir, z: Expr)
    requires ValidPath(e, p) && Spine(op, e, p) && LeftSpent(op, e, p)
    requires IsOp(y, op) && (d == Right ==> Spent(op, y.l) == y.l)
    ensures var e', q := Set(e, p, y), p + [d];
            && ValidPath(e', q) && Spine(op, e', q) && LeftSpent(op, e', q) && Get(e', q) == Child(y, d)
            && Set(e', q, z) == Set(e, p, if d == Left then Bin(op, z, y.r) else Bin(op, y.l, z))
  {
    if p == [] {
      assert (p + [d])[1..] == [];
    } else {
      assert (p + [d])[1..] == p[1..] + [d];
      StepBelow(op, Child(e, p[0]), p[1..], y, d, z);
    }
  }

  /** A part x of e that stands at p, with only constants to the left of it, is cancelled against itself. */
  lemma {:induction false} CancelAt(op: Op, x: Expr, e: Expr, p: Path)
    requires ValidPath(e, p) && Spine(op, e, p) && Get(e, p) == x && LeftSpent(op, e, p)
    requires IsOp(x, op) || Eq(x, x)
    requires forall y :: Size(y) < Size(x) ==> Eq(y, y)
    ensures Cancel(op, x, e) == (Spent(op, x), Set(e, p, Spent(op, x)))
    decreases x
  {
    if IsOp(x, op) {
      var l := Spent(op, x.l);
      var y := Bin(op, l, x.r);
      SetTwice(e, p, x, x);
      StepBelow(op, e, p, x, Left, l);
      CancelAt(op, x.l, e, p + [Left]);
      SpentTwice(op, x.l);
      StepBelow(op, e, p, y, Right, Spent(op, x.r));
      CancelAt(op, x.r, Set(e, p, y), p + [Right]);
    } else {
      CancelOperand(op, x, e, p);
    }
  }

  /** `expr_eq` finds every expression equal to itself. */
  lemma {:induction false} EqSelf(e: Expr)
    ensures Eq(e, e)
    decreases Size(e)
  {
    match e
    case Not(a) => EqSelf(a);
    case Bin(op, _, _) =>
      forall y | Size(y) < Size(e) ensures Eq(y, y) {
        EqSelf(y);
      }
      CancelAt(op, e, e, []);
      SpentFolds(op, e);
    case _ =>
  }

  // ----- where constants are in the way -----

  /** Cancelling one operand against two. */
  lemma CancelTwo(op: Op, e: Expr, a: Expr, b: Expr)
    requires !IsOp(e, op) && !IsOp(a, op) && !IsOp(b, op) && !IsYn(e)
    ensures var n := Leaf(Neutral(op));
            Cancel(op, e, Bin(op, a, b)) == if Eq(e, a) then (n, Bin(op, n, b))
                                            else if Eq(e, b) then (n, Bin(op, a, n)) else (e, Bin(op, a, b))
  {
    SpentStays(op, Leaf(Neutral(op)), b);
  }

  lemma CancelledPair(op: Op, x: Expr, a: Expr, b: Expr)
    requires !IsOp(x, op) && !IsOp(a, op) && !IsOp(b, op) && !IsYn(x) && !IsYn(a)
    requires Eq(x, x) && !Eq(a, b)
    ensures var n := Leaf(Neutral(op)); Cancel(op, Bin(op, x, a), Bin(op, x, b)) == (Bin(op, n, a), Bin(op, n, b))
  {
    CancelTwo(op, x, x, b);
    CancelTwo(op, a, Leaf(Neutral(op)), b);
  }

  lemma FoldNeutral(op: Op, a: Expr)
    ensures EliminateYn(Bin(op, Leaf(Neutral(op)), a)) == EliminateYn(a)
  {}

  /** What is left of two operators of the kind folds to the same symbol. */
  lemma EqBySymbol(op: Op, e1: Expr, e2: Expr, p: (Expr, Expr))
    requires IsOp(e1, op) && IsOp(e2, op) && Cancel(op, e1, e2) == p && IsOp(p.0, op) && IsOp(p.1, op)
    requires EliminateYn(p.0).Leaf? && EliminateYn(p.0) == EliminateYn(p.1)
    ensures Eq(e1, e2)
  {}

  lemma EqPair(op: Op, x: Expr, a: Expr, b: Expr)
    requires !IsOp(x, op) && !IsOp(a, op) && !IsOp(b, op) && !IsYn(x) && !IsYn(a)
    requires Eq(x, x) && !Eq(a, b) && EliminateYn(a).Leaf? && EliminateYn(b) == EliminateYn(a)
    ensures Eq(Bin(op, x, a), Bin(op, x, b))
  {
    var n := Leaf(Neutral(op));
    CancelledPair(op, x, a, b);
    FoldNeutral(op, a);
    FoldNeutral(op, b);
    EqBySymbol(op, Bin(op, x, a), Bin(op, x, b), (Bin(op, n, a), Bin(op, n, b)));
  }

  lemma TwoParts(op: Op, a: Expr, b: Expr)
    requires !IsOp(a, op) && !IsOp(b, op)
    ensures Parts(op, Bin(op, a, b)) == multiset{FormOf(a), FormOf(b)}
  {
    assert Parts(op, a) == multiset{FormOf(a)} && Parts(op, b) == multiset{FormOf(b)};
  }

  /** With constants below an operator more is found equal: x && (y || n) and x && y. */
  lemma ConstantsFold(x: Symbol, y: Symbol, a: Expr)
    requires x.Named? && y.Named? && a == Bin(OR, Leaf(y), Leaf(No))
    ensures Eq(Bin(AND, Leaf(x), a), Bin(AND, Leaf(x), Leaf(y)))
    ensures Parts(AND, Bin(AND, Leaf(x), a)) != Parts(AND, Bin(AND, Leaf(x), Leaf(y)))
  {
    EqPair(AND, Leaf(x), a, Leaf(y));
    TwoParts(AND, Leaf(x), a);
    TwoParts(AND, Leaf(x), Leaf(y));
    assert FormOf(a) in multiset{FormOf(Leaf(x)), FormOf(a)};
  }

  // ----- taking out common operands -----

  /** So does taking out common operands. */
  lemma {:induction false} ExtractLive(op: Op, common: Option<Expr>, e1: Expr, e2: Expr)
    requires Clean(op, e1) && Clean(op, e2)
    ensures var r := ExtractEq(op, common, e1, e2); Reduced(op, (e1, e2), (r.e1, r.e2))
    decreases Size(e1) + Size(e2)
  {
    if IsOp(e1, op) {
      ExtractLiveLeft(op, common, e1, e2);
    } else if IsOp(e2, op) {
      ExtractLiveRight(op, common, e1, e2);
    } else {
      if !IsYn(e1) && !IsYn(e2) { EqExact(e1, e2); }
      ReducedPair(op, e1, e2);
    }
  }

  lemma ExtractLiveLeft(op: Op, common: Option<Expr>, e1: Expr, e2: Expr)
    requires Clean(op, e1) && Clean(op, e2) && IsOp(e1, op)
    ensures var r := ExtractEq(op, common, e1, e2); Reduced(op, (e1, e2), (r.e1, r.e2))
    decreases Size(e1) + Size(e2), 0
  {
    var a := ExtractEq(op, common, e1.l, e2);
    var b := ExtractEq(op, a.common, e1.r, a.e2);
    ExtractLive(op, common, e1.l, e2);
    ExtractLive(op, a.common, e1.r, a.e2);
    ReducedTwice(op, e1, e2, (a.e1, a.e2), (b.e1, b.e2));
  }

  lemma ExtractLiveRight(op: Op, common: Option<Expr>, e1: Expr, e2: Expr)
    requires Clean(op, e1) && Clean(op, e2) && !IsOp(e1, op) && IsOp(e2, op)
    ensures var r := ExtractEq(op, common, e1, e2); Reduced(op, (e1, e2), (r.e1, r.e2))
    decreases Size(e1) + Size(e2), 0
  {
    var a := ExtractEq(op, common, e1, e2.l);
    var b := ExtractEq(op, a.common, a.e1, e2.r);
    ExtractLive(op, common, e1, e2.l);
    ExtractLive(op, a.common, a.e1, e2.r);
    ReducedSwap(op, (e1, e2.l), (a.e1, a.e2));
    ReducedSwap(op, (a.e1, e2.r), (b.e1, b.e2));
    ReducedTwice(op, e2, e1, (a.e2, a.e1), (b.e2, b.e1));
    ReducedSwap(op, (e2, e1), (Bin(op, a.e2, b.e2), b.e1));
  }

  /** Without a common part nothing was taken out. */
  lemma {:induction false} NothingTaken(op: Op, common: Option<Expr>, e1: Expr, e2: Expr)
    requires ExtractEq(op, common, e1, e2).common.None?
    ensures common.None? && ExtractEq(op, common, e1, e2) == Extraction(None, e1, e2)
    decreases Size(e1) + Size(e2)
  {
    if IsOp(e1, op) {
      var a := ExtractEq(op, common, e1.l, e2);
      NothingTaken(op, a.common, e1.r, a.e2);
      NothingTaken(op, common, e1.l, e2);
    } else if IsOp(e2, op) {
      var a := ExtractEq(op, common, e1, e2.l);
      NothingTaken(op, a.common, a.e1, e2.r);
      NothingTaken(op, common, e1, e2.l);
    }
  }

  /** Of plain expressions, the first is used up exactly if all its operands are operands of the second,
      up to rearrangement. */
  lemma UsedUp(op: Op, e1: Expr, e2: Expr)
    requires Plain(e1) && Plain(e2) && !IsYn(e1) && !IsYn(e2)
    ensures ExtractCommon(op, e1, e2).e1 == Leaf(Neutral(op)) <==> Parts(op, e1) <= Parts(op, e2)
  {
    PlainIsClean(op, e1);
    PlainIsClean(op, e2);
    ExtractLive(op, None, e1, e2);
    var r := ExtractEq(op, None, e1, e2);
    FoldClean(op, r.e1);
    if r.common.None? { NothingTaken(op, None, e1, e2); }
    assert Parts(op, e1) - Parts(op, e2) == multiset{} <==> Parts(op, e1) <= Parts(op, e2);
  }
}
