/** Duplicate elimination: `expr_eliminate_dups` and its two all-pairs scans.
    Both cursors of a scan point into the tree that is being rewritten. */
module ExprDups {
  import opened Expr
  import opened ExprEq
  import opened ExprJoin
  import opened ExprTransform
  import opened ExprExtract
  import opened ExprPaths
  import opened ExprSettled

  // ----- single steps -----

  /** The first scan's rewrite: the join replaces the second operand, the neutral symbol the first. */
  function Joined(op: Op, b: Expr, s1: Path, s2: Path, j: Expr): Expr
    requires ValidPath(b, s1) && ValidPath(b, s2) && Apart(s1, s2)
  {
    SetApart(b, s1, s2, Leaf(Neutral(op)));
    Set(Set(b, s1, Leaf(Neutral(op))), s2, j)
  }

  /** What a scan may do to the subtree it works on. */
  ghost predicate Kept(op: Op, b: Expr, b': Expr) {
    SameSpine(op, b, b') && Size(b') <= Size(b) && (Nnf(b) ==> Nnf(b'))
  }

  /** A join of normal forms is one. */
  lemma JoinNnf(op: Op, e1: Expr, e2: Expr)
    requires Join(op, e1, e2).Some? && Nnf(e1) && Nnf(e2)
    ensures Nnf(Join(op, e1, e2).value)
  {}

  lemma {:induction false} NnfSet(e: Expr, p: Path, x: Expr)
    requires ValidPath(e, p) && Nnf(e)
    ensures Nnf(Get(e, p)) && (Nnf(x) ==> Nnf(Set(e, p, x)))
  {
    if p != [] { NnfSet(Child(e, p[0]), p[1..], x); }
  }

  lemma {:induction false} NnfFolded(e: Expr)
    requires Nnf(e)
    ensures Nnf(EliminateYn(e))
  {
    match e
    case Bin(_, a, b) => NnfFolded(a); NnfFolded(b);
    case _ =>
  }

  lemma JoinedNnf(op: Op, b: Expr, s1: Path, s2: Path)
    requires ValidPath(b, s1) && ValidPath(b, s2) && Apart(s1, s2)
    requires Join(op, Get(b, s1), Get(b, s2)).Some? && Nnf(b)
    ensures Nnf(Joined(op, b, s1, s2, Join(op, Get(b, s1), Get(b, s2)).value))
  {
    var j := Join(op, Get(b, s1), Get(b, s2)).value;
    NnfSet(b, s1, Leaf(Neutral(op)));
    NnfSet(b, s2, j);
    JoinNnf(op, Get(b, s1), Get(b, s2));
    SetApart(b, s1, s2, Leaf(Neutral(op)));
    NnfSet(Set(b, s1, Leaf(Neutral(op))), s2, j);
  }

  lemma JoinNotOp(op: Op, e1: Expr, e2: Expr)
    requires Join(op, e1, e2).Some? && !IsOp(e1, op)
    ensures !IsOp(Join(op, e1, e2).value, op)
  {}

  lemma ApartSym(p: Path, q: Path)
    requires Apart(p, q)
    ensures Apart(q, p)
  {
    if p[0] == q[0] { ApartSym(p[1..], q[1..]); }
  }

  lemma AssociateOut(op: Op, a: Tri, b: Tri, rest: Tri)
    ensures Apply(op, a, Apply(op, b, rest)) == Apply(op, Apply(op, a, b), rest)
  {}

  lemma JoinStepValue(op: Op, b: Expr, s1: Path, s2: Path, env: Env)
    requires WellFormed(env)
    requires Spine(op, b, s1) && ValidPath(b, s1) && Spine(op, b, s2) && ValidPath(b, s2)
    requires Apart(s1, s2)
    requires Spine(op, Set(b, s1, Leaf(Neutral(op))), s2)
    requires Join(op, Get(b, s1), Get(b, s2)).Some?
    ensures Val(Joined(op, b, s1, s2, Join(op, Get(b, s1), Get(b, s2)).value), env) == Val(b, env)
  {
    var e1, e2, n := Get(b, s1), Get(b, s2), Leaf(Neutral(op));
    var j := Join(op, e1, e2).value;
    var b1 := Set(b, s1, n);
    SetApart(b, s1, s2, n);
    SetTwice(b, s1, n, n);
    SetTwice(b1, s2, n, n);
    OperandOut(op, b, s1, e1, env);
    OperandOut(op, b1, s2, e2, env);
    OperandOut(op, b1, s2, j, env);
    JoinExact(op, e1, e2, env);
    AssociateOut(op, Val(e1, env), Val(e2, env), Val(Set(b1, s2, n), env));
  }

  /** One join keeps the value, the spine and the node bound, and leaves a foldable constant. */
  lemma JoinStep(op: Op, b: Expr, s1: Path, s2: Path)
    requires Spine(op, b, s1) && ValidPath(b, s1) && !IsOp(Get(b, s1), op)
    requires Spine(op, b, s2) && ValidPath(b, s2) && !IsOp(Get(b, s2), op)
    requires s1 != s2
    requires Join(op, Get(b, s1), Get(b, s2)).Some?
    ensures Apart(s1, s2)
    ensures var b' := Joined(op, b, s1, s2, Join(op, Get(b, s1), Get(b, s2)).value);
            Kept(op, b, b') && Equivalent(b, b') && HasYnChild(b')
  {
    OperandsApart(op, b, s1, s2);
    var e1, e2, n := Get(b, s1), Get(b, s2), Leaf(Neutral(op));
    var j := Join(op, e1, e2).value;
    var b1 := Set(b, s1, n);
    SetApart(b, s1, s2, n);
    SetKeepsSpine(op, b, s1, n);
    SameSpineAt(op, b, b1, s2);
    JoinNotOp(op, e1, e2);
    var b2 := Set(b1, s2, j);
    SetKeepsSpine(op, b1, s2, j);
    SameSpineTransitive(op, b, b1, b2);
    ApartSym(s1, s2);
    SetApart(b1, s2, s1, j);
    YnChildAt(b2, s1);
    JoinSize(op, e1, e2);
    if Nnf(b) { JoinedNnf(op, b, s1, s2); }
    forall env | WellFormed(env) ensures Val(b2, env) == Val(b, env) {
      JoinStepValue(op, b, s1, s2, env);
    }
  }

  /** The second scan's rewrite decides the whole subtree, which before could only be m
      or already had that value. */
  lemma OpposedStepValue(op: Op, b: Expr, s1: Path, s2: Path, env: Env)
    requires WellFormed(env)
    requires Spine(op, b, s1) && ValidPath(b, s1) && Spine(op, b, s2) && ValidPath(b, s2)
    requires IsOp(Get(b, s1), Dual(op)) && Opposed(Get(b, s1), Get(b, s2))
    ensures var v := env.tri(Absorbing(op));
            && Val(Set(b, s1, Leaf(Absorbing(op))), env) == v
            && Val(b, env) != 2 - v
            && (Val(Set(b, s1, Leaf(Absorbing(op))), env) == Val(b, env) <==> Val(b, env) != 1)
  {
    var e1, e2 := Get(b, s1), Get(b, s2);
    OpposedBound(e1, e2, env);
    SetTwice(b, s1, e1, e1);
    SetTwice(b, s2, e2, e2);
    OperandOut(op, b, s1, e1, env);
    OperandOut(op, b, s2, e2, env);
    OperandOut(op, b, s1, Leaf(Absorbing(op)), env);
  }

  lemma OpposedStep(op: Op, b: Expr, s1: Path, s2: Path)
    requires Spine(op, b, s1) && ValidPath(b, s1) && Spine(op, b, s2) && ValidPath(b, s2)
    requires s1 != []
    requires IsOp(Get(b, s1), Dual(op)) && Opposed(Get(b, s1), Get(b, s2))
    ensures var b' := Set(b, s1, Leaf(Absorbing(op)));
            Kept(op, b, b') && Refines(b, b') && HasYnChild(b')
  {
    var b' := Set(b, s1, Leaf(Absorbing(op)));
    SetKeepsSpine(op, b, s1, Leaf(Absorbing(op)));
    if Nnf(b) { NnfSet(b, s1, Leaf(Absorbing(op))); }
    YnChildAt(b', s1);
    forall env | WellFormed(env) && Val(b, env) != 1 ensures Val(b', env) == Val(b, env) {
      OpposedStepValue(op, b, s1, s2, env);
    }
  }

  /** t' differs from t at most below base. */
  ghost predicate Below(t: Expr, t': Expr, base: Path) {
    ValidPath(t, base) && ValidPath(t', base) && t' == Set(t, base, Get(t', base))
  }

  lemma BelowTransitive(t: Expr, t': Expr, t'': Expr, base: Path)
    requires Below(t, t', base) && Below(t', t'', base)
    ensures Below(t, t'', base)
  {
    SetTwice(t, base, Get(t', base), Get(t'', base));
  }

  /** Writing at base + s writes at s in the subtree at base. */
  lemma SetBelow(t: Expr, base: Path, s: Path, x: Expr)
    requires ValidPath(t, base) && ValidPath(Get(t, base), s)
    ensures ValidPath(t, base + s) && Get(t, base + s) == Get(Get(t, base), s)
    ensures Below(t, Set(t, base + s, x), base)
    ensures Get(Set(t, base + s, x), base) == Set(Get(t, base), s, x)
  {
    PathConcat(t, base, s);
  }

  /** Both cursors stand on operands of the subtree at base. */
  ghost predicate Cursors(op: Op, t: Expr, base: Path, s1: Path, s2: Path) {
    && ValidPath(t, base)
    && Spine(op, Get(t, base), s1) && ValidPath(Get(t, base), s1)
    && Spine(op, Get(t, base), s2) && ValidPath(Get(t, base), s2)
  }

  /** Distance of the two cursors from the ends of the spine. */
  ghost function Remaining(op: Op, t: Expr, base: Path, s1: Path, s2: Path): nat
    requires Cursors(op, t, base, s1, s2)
  {
    SpineSize(op, Get(Get(t, base), s1)) + SpineSize(op, Get(Get(t, base), s2))
  }

  /** A stretch of a scan from tree t and counter c to t' and c': only the subtree at base
      changes and keeps its spine; its value is kept (exactly, or up to deciding m); a
      counted change leaves a foldable constant; without one the tree is the same. */
  ghost predicate Stretch(exact: bool, op: Op, base: Path, t: Expr, c: nat, t': Expr, c': nat) {
    && Below(t, t', base)
    && Kept(op, Get(t, base), Get(t', base))
    && (exact ==> Equivalent(Get(t, base), Get(t', base)))
    && Refines(Get(t, base), Get(t', base))
    && c <= c'
    && (c < c' ==> HasYnChild(Get(t', base)))
    && (c == c' ==> t == t')
  }

  lemma StretchSelf(exact: bool, op: Op, base: Path, t: Expr, c: nat)
    requires ValidPath(t, base)
    ensures Stretch(exact, op, base, t, c, t, c)
  {
    SetTwice(t, base, t, t);
    SameSpineSelf(op, Get(t, base));
  }

  lemma StretchTransitive(exact: bool, op: Op, base: Path, t: Expr, c: nat, t': Expr, c': nat, t'': Expr, c'': nat)
    requires Stretch(exact, op, base, t, c, t', c') && Stretch(exact, op, base, t', c', t'', c'')
    ensures Stretch(exact, op, base, t, c, t'', c'')
  {
    BelowTransitive(t, t', t'', base);
    SameSpineTransitive(op, Get(t, base), Get(t', base), Get(t'', base));
  }

  /** After a stretch the cursors still stand on operands, at the same distance from the end. */
  lemma StretchCursors(exact: bool, op: Op, base: Path, t: Expr, c: nat, t': Expr, c': nat, s1: Path, s2: Path)
    requires Stretch(exact, op, base, t, c, t', c') && Cursors(op, t, base, s1, s2)
    ensures Cursors(op, t', base, s1, s2)
    ensures Remaining(op, t', base, s1, s2) == Remaining(op, t, base, s1, s2)
    ensures IsOp(Get(Get(t', base), s1), op) <==> IsOp(Get(Get(t, base), s1), op)
    ensures IsOp(Get(Get(t', base), s2), op) <==> IsOp(Get(Get(t, base), s2), op)
  {
    SameSpineAt(op, Get(t, base), Get(t', base), s1);
    SameSpineAt(op, Get(t, base), Get(t', base), s2);
  }

  /** A whole scan inside the operand at base + s is a stretch of the outer scan. */
  lemma InnerStretch(exact: bool, op: Op, base: Path, s: Path, t: Expr, c: nat, t': Expr, c': nat)
    requires Cursors(op, t, base, s, s) && ValidPath(t, base + s)
    requires Get(t, base + s).Bin? && Get(t, base + s).op != op
    requires Stretch(exact, Get(t, base + s).op, base + s, t, c, t', c')
    ensures Stretch(exact, op, base, t, c, t', c')
  {
    var b, e1' := Get(t, base), Get(t', base + s);
    SetBelow(t, base, s, e1');
    var b' := Get(t', base);
    SetTwice(b, s, e1', e1');
    SetKeepsSpine(op, b, s, e1');
    if exact { SetEquivalent(b, s, e1'); }
    SetRefines(b, s, e1');
    if Nnf(b) { NnfSet(b, s, e1'); }
    if HasYnChild(e1') { YnChildAbove(b', s); }
  }

  /** The tree under simplification and the global change counter. */
  class Simplifier {
    var tree: Expr
    var transCount: nat
    /** How often an opposed operand was decided. */
    ghost var opposed: nat

    constructor (e: Expr)
      ensures tree == e && transCount == 0 && opposed == 0
    {
      tree, transCount, opposed := e, 0, 0;
    }

    /** Tries the join rules on two different operands and writes the result in place. */
    method JoinAt(op: Op, base: Path, s1: Path, s2: Path)
      requires Cursors(op, tree, base, s1, s2)
      requires !IsOp(Get(Get(tree, base), s1), op) && !IsOp(Get(Get(tree, base), s2), op)
      requires s1 != s2
      modifies this`tree, this`transCount
      ensures Stretch(true, op, base, old(tree), old(transCount), tree, transCount)
      ensures var b := old(Get(tree, base));
              match Join(op, Get(b, s1), Get(b, s2))
              case None => transCount == old(transCount)
              case Some(j) => Apart(s1, s2) && Get(tree, base) == Joined(op, b, s1, s2, j)
                              && transCount == old(transCount) + 1
    {
      ghost var t, b := tree, Get(tree, base);
      StretchSelf(true, op, base, t, transCount);
      SetBelow(t, base, s1, Leaf(Neutral(op)));
      SetBelow(t, base, s2, Leaf(No));
      var j := Join(op, Get(tree, base + s1), Get(tree, base + s2));
      if j.Some? {
        JoinStep(op, b, s1, s2);
        SetApart(b, s1, s2, Leaf(Neutral(op)));
        tree := Set(tree, base + s1, Leaf(Neutral(op)));
        SetBelow(tree, base, s2, j.value);
        ghost var t1 := tree;
        tree := Set(tree, base + s2, j.value);
        BelowTransitive(t, t1, tree, base);
        transCount := transCount + 1;
      }
    }

    /** `expr_eliminate_dups1` with the cursors base + s1 and base + s2; base is where the
        scan of this operator started. */
    method EliminateDups1(op: Op, base: Path, s1: Path, s2: Path)
      requires Cursors(op, tree, base, s1, s2)
      modifies this`tree, this`transCount
      ensures Stretch(true, op, base, old(tree), old(transCount), tree, transCount)
      ensures transCount == old(transCount) <==> Unjoinable(op, old(Get(tree, base)), s1, s2)
      decreases Size(Get(tree, base)), Remaining(op, tree, base, s1, s2), 1
    {
      ghost var t, c, b := tree, transCount, Get(tree, base);
      PathConcat(t, base, s1);
      PathConcat(t, base, s2);
      if IsOp(Get(tree, base + s1), op) {
        SpineExtend(op, b, s1, Left);
        SpineExtend(op, b, s1, Right);
        EliminateDups1(op, base, s1 + [Left], s2);
        ghost var t1, c1 := tree, transCount;
        StretchCursors(true, op, base, t, c, t1, c1, s1 + [Right], s2);
        EliminateDups1(op, base, s1 + [Right], s2);
        StretchTransitive(true, op, base, t, c, t1, c1, tree, transCount);
      } else if IsOp(Get(tree, base + s2), op) {
        SpineExtend(op, b, s2, Left);
        SpineExtend(op, b, s2, Right);
        EliminateDups1(op, base, s1, s2 + [Left]);
        ghost var t1, c1 := tree, transCount;
        StretchCursors(true, op, base, t, c, t1, c1, s1, s2 + [Right]);
        EliminateDups1(op, base, s1, s2 + [Right]);
        StretchTransitive(true, op, base, t, c, t1, c1, tree, transCount);
      } else if s1 != s2 {
        ScanPair(op, base, s1, s2);
      } else {
        StretchSelf(true, op, base, t, c);
      }
    }

    /** Two different operands: first duplicates inside the first one, then the join rules. */
    method ScanPair(op: Op, base: Path, s1: Path, s2: Path)
      requires Cursors(op, tree, base, s1, s2)
      requires !IsOp(Get(Get(tree, base), s1), op) && !IsOp(Get(Get(tree, base), s2), op)
      requires s1 != s2
      modifies this`tree, this`transCount
      ensures Stretch(true, op, base, old(tree), old(transCount), tree, transCount)
      ensures transCount == old(transCount) <==> Unjoinable(op, old(Get(tree, base)), s1, s2)
      decreases Size(Get(tree, base)), Remaining(op, tree, base, s1, s2), 0
    {
      ghost var t, c := tree, transCount;
      PathConcat(t, base, s1);
      var e1 := Get(tree, base + s1);
      if e1.Bin? {
        EliminateDups1(e1.op, base + s1, [], []);
        InnerStretch(true, op, base, s1, t, c, tree, transCount);
      } else {
        StretchSelf(true, op, base, t, c);
      }
      ghost var t1, c1 := tree, transCount;
      StretchCursors(true, op, base, t, c, t1, c1, s1, s2);
      JoinAt(op, base, s1, s2);
      StretchTransitive(true, op, base, t, c, t1, c1, tree, transCount);
    }

    /** Decides the operand at s1 if it is opposed to the node at s2. */
    method OpposeAt(op: Op, base: Path, s1: Path, s2: Path)
      requires Cursors(op, tree, base, s1, s2)
      requires s1 != [] && IsOp(Get(Get(tree, base), s1), Dual(op))
      modifies this
      ensures opposed - old(opposed) == transCount - old(transCount)
      ensures Stretch(false, op, base, old(tree), old(transCount), tree, transCount)
      ensures var b := old(Get(tree, base));
              if Opposed(Get(b, s1), Get(b, s2))
              then Get(tree, base) == Set(b, s1, Leaf(Absorbing(op))) && transCount == old(transCount) + 1
              else transCount == old(transCount)
    {
      ghost var t, b := tree, Get(tree, base);
      StretchSelf(false, op, base, t, transCount);
      SetBelow(t, base, s1, Leaf(Absorbing(op)));
      PathConcat(t, base, s2);
      if Opposed(Get(tree, base + s1), Get(tree, base + s2)) {
        OpposedStep(op, b, s1, s2);
        tree := Set(tree, base + s1, Leaf(Absorbing(op)));
        transCount := transCount + 1;
        opposed := opposed + 1;
      }
    }

    /** `expr_eliminate_dups2`. Unlike the first scan it goes on after having descended into
        e2, so e2 may be an inner node, even one that contains e1. */
    method EliminateDups2(op: Op, base: Path, s1: Path, s2: Path)
      requires Cursors(op, tree, base, s1, s2)
      modifies this
      ensures opposed - old(opposed) == transCount - old(transCount)
      ensures Stretch(false, op, base, old(tree), old(transCount), tree, transCount)
      ensures transCount == old(transCount) <==> Unopposed(op, old(Get(tree, base)), s1, s2)
      decreases Size(Get(tree, base)), Remaining(op, tree, base, s1, s2), 1
    {
      ghost var t, c := tree, transCount;
      StretchSelf(false, op, base, t, c);
      PathConcat(t, base, s1);
      PathConcat(t, base, s2);
      if IsOp(Get(tree, base + s1), op) {
        DescendFirst(op, base, s1, s2);
        return;
      }
      if IsOp(Get(tree, base + s2), op) {
        DescendSecond(op, base, s1, s2);
      }
      if s1 != s2 {
        ghost var t1, c1 := tree, transCount;
        StretchCursors(false, op, base, t, c, t1, c1, s1, s2);
        OpposePair(op, base, s1, s2);
        StretchTransitive(false, op, base, t, c, t1, c1, tree, transCount);
      }
    }

    /** Both operands of the node at the first cursor. */
    method DescendFirst(op: Op, base: Path, s1: Path, s2: Path)
      requires Cursors(op, tree, base, s1, s2) && IsOp(Get(Get(tree, base), s1), op)
      modifies this
      ensures opposed - old(opposed) == transCount - old(transCount)
      ensures Stretch(false, op, base, old(tree), old(transCount), tree, transCount)
      ensures transCount == old(transCount) <==> Unopposed(op, old(Get(tree, base)), s1, s2)
      decreases Size(Get(tree, base)), Remaining(op, tree, base, s1, s2), 0
    {
      ghost var t, c, b := tree, transCount, Get(tree, base);
      SpineExtend(op, b, s1, Left);
      SpineExtend(op, b, s1, Right);
      EliminateDups2(op, base, s1 + [Left], s2);
      ghost var t1, c1 := tree, transCount;
      StretchCursors(false, op, base, t, c, t1, c1, s1 + [Right], s2);
      EliminateDups2(op, base, s1 + [Right], s2);
      StretchTransitive(false, op, base, t, c, t1, c1, tree, transCount);
    }

    /** Both operands of the node at the second cursor. */
    method DescendSecond(op: Op, base: Path, s1: Path, s2: Path)
      requires Cursors(op, tree, base, s1, s2) && IsOp(Get(Get(tree, base), s2), op)
      modifies this
      ensures opposed - old(opposed) == transCount - old(transCount)
      ensures Stretch(false, op, base, old(tree), old(transCount), tree, transCount)
      ensures var b := old(Get(tree, base));
              transCount == old(transCount) <==>
                (SpineExtend(op, b, s2, Left); SpineExtend(op, b, s2, Right);
                 Unopposed(op, b, s1, s2 + [Left]) && Unopposed(op, b, s1, s2 + [Right]))
      decreases Size(Get(tree, base)), Remaining(op, tree, base, s1, s2), 0
    {
      ghost var t, c, b := tree, transCount, Get(tree, base);
      SpineExtend(op, b, s2, Left);
      SpineExtend(op, b, s2, Right);
      EliminateDups2(op, base, s1, s2 + [Left]);
      ghost var t1, c1 := tree, transCount;
      StretchCursors(false, op, base, t, c, t1, c1, s1, s2 + [Right]);
      EliminateDups2(op, base, s1, s2 + [Right]);
      StretchTransitive(false, op, base, t, c, t1, c1, tree, transCount);
    }

    /** Two different nodes: first the scan inside the first one, then the opposition test. */
    method OpposePair(op: Op, base: Path, s1: Path, s2: Path)
      requires Cursors(op, tree, base, s1, s2)
      requires !IsOp(Get(Get(tree, base), s1), op) && s1 != s2
      modifies this
      ensures opposed - old(opposed) == transCount - old(transCount)
      ensures Stretch(false, op, base, old(tree), old(transCount), tree, transCount)
      ensures var b := old(Get(tree, base));
              transCount == old(transCount) <==>
                (Get(b, s1).Bin? ==>
                  Unopposed(Get(b, s1).op, Get(b, s1), [], []) && !Opposed(Get(b, s1), Get(b, s2)))
      decreases Size(Get(tree, base)), Remaining(op, tree, base, s1, s2), 0
    {
      ghost var t, c := tree, transCount;
      StretchSelf(false, op, base, t, c);
      PathConcat(t, base, s1);
      var e1 := Get(tree, base + s1);
      if e1.Bin? {
        assert s1 != [];
        EliminateDups2(e1.op, base + s1, [], []);
        InnerStretch(false, op, base, s1, t, c, tree, transCount);
        ghost var t1, c1 := tree, transCount;
        StretchCursors(false, op, base, t, c, t1, c1, s1, s2);
        PathConcat(t1, base, s1);
        OpposeAt(op, base, s1, s2);
        StretchTransitive(false, op, base, t, c, t1, c1, tree, transCount);
      }
    }

    /** `expr_eliminate_dups`: both scans, then constant folding, until a round changes nothing.
        A round that changes something shrinks the tree. The value is kept exactly if no opposed
        operand was decided. In the end no two operands of an operator are alike, and none is
        contradicted by the others. */
    method EliminateDups()
      modifies this
      ensures Refines(old(tree), tree)
      ensures opposed == old(opposed) ==> Equivalent(old(tree), tree)
      ensures Nnf(old(tree)) ==> Nnf(tree)
      ensures Settled(tree) && NoneAlike(tree) && NoneContradicted(tree)
      ensures if Settled(old(tree)) then tree == old(tree)
              else Size(tree) < old(Size(tree)) && !HasYnChild(tree)
      ensures transCount == old(transCount)
    {
      var oldcount := transCount;
      while true
        invariant Refines(old(tree), tree) && (Nnf(old(tree)) ==> Nnf(tree))
        invariant opposed >= old(opposed) && (opposed == old(opposed) ==> Equivalent(old(tree), tree))
        invariant tree == old(tree) ||
                  (!Settled(old(tree)) && Size(tree) < old(Size(tree)) && !HasYnChild(tree))
        decreases Size(tree)
      {
        var changed := Round();
        if !changed {
          break;
        }
      }
      transCount := oldcount;
      SettledNoneAlike(tree);
      SettledNoneContradicted(tree);
    }

    /** One round; without a change nothing is folded. */
    method Round() returns (changed: bool)
      modifies this
      ensures Refines(old(tree), tree) && (Nnf(old(tree)) ==> Nnf(tree))
      ensures opposed >= old(opposed) && (opposed == old(opposed) ==> Equivalent(old(tree), tree))
      ensures !changed <==> Settled(old(tree))
      ensures if changed then Size(tree) < old(Size(tree)) && !HasYnChild(tree) else tree == old(tree)
    {
      transCount := 0;
      ghost var t := tree;
      if tree.Bin? {
        EliminateDups1(tree.op, [], [], []);
        EliminateDups2(tree.op, [], [], []);
      }
      changed := transCount != 0;
      if changed {
        EliminateYnNormal(tree);
        EliminateYnRefines(t, tree);
        if Nnf(tree) { NnfFolded(tree); }
        tree := EliminateYn(tree);
      }
    }
  }

  lemma EliminateYnRefines(t: Expr, e: Expr)
    requires Refines(t, e)
    ensures Refines(t, EliminateYn(e)) && (Equivalent(t, e) ==> Equivalent(t, EliminateYn(e)))
  {
    forall env | WellFormed(env) ensures Val(EliminateYn(e), env) == Val(e, env) {
      EliminateYnExact(e, env);
    }
  }

  // ----- what the simplifier means -----

  /** Every symbol of e is n or y, so the constant m is none of them. */
  ghost predicate TwoValued(e: Expr, env: Env) {
    forall s :: s in Symbols(e) ==> env.tri(s) != 1
  }

  lemma {:induction false} TwoValuedVal(e: Expr, env: Env)
    requires TwoValued(e, env)
    ensures Val(e, env) != 1
  {
    match e
    case Not(a) => TwoValuedVal(a, env);
    case Bin(_, a, b) => TwoValuedVal(a, env); TwoValuedVal(b, env);
    case _ =>
  }

  /** A refinement is exact wherever no symbol of the expression is m. */
  lemma RefinesTwoValued(e: Expr, e': Expr, env: Env)
    requires Refines(e, e') && WellFormed(env) && TwoValued(e, env)
    ensures Val(e', env) == Val(e, env)
  {
    TwoValuedVal(e, env);
  }

  /** Three values are not kept in general: (F || B) && (!F && !B) is m when F is m and B is n,
      but its first operand is opposed to its second and becomes n. */
  lemma OpposedLosesM(f: Symbol, b: Symbol, env: Env)
    requires WellFormed(env)
    requires f.IsTristate() && b.IsTristate() && f != b
    requires env.tri(f) == 1 && env.tri(b) == 0
    ensures var e1 := Bin(OR, Leaf(f), Leaf(b));
            var e2 := Bin(AND, Not(Leaf(f)), Not(Leaf(b)));
            && Opposed(e1, e2)
            && Val(Bin(AND, e1, e2), env) == 1
            && Val(Bin(AND, Leaf(No), e2), env) == 0
  {
    var y, nf, nb := Leaf(Yes), Not(Leaf(f)), Not(Leaf(b));
    var e1, e2 := Bin(OR, Leaf(f), Leaf(b)), Bin(AND, nf, nb);
    assert Val(nf, env) == 1 && Val(nb, env) == 2 && Val(e1, env) == 1;
    NnfUnchanged(e1);
    NnfUnchanged(e2);
    assert Transform(Not(e1)) == Transform(e2) == e2;
    assert Eq(Leaf(f), Leaf(f)) && Eq(Leaf(b), Leaf(b)) && !Eq(Leaf(b), y);
    assert Eq(nf, nf) && Eq(nb, nb) && !Eq(y, nb);
    assert ExtractEq(AND, None, nf, e2) == Extraction(Some(nf), y, Bin(AND, y, nb)) by {
      assert ExtractEq(AND, None, nf, nf) == Extraction(Some(nf), y, y);
      assert ExtractEq(AND, Some(nf), y, nb) == Extraction(Some(nf), y, nb);
    }
    assert ExtractEq(AND, Some(nf), nb, Bin(AND, y, nb)) == Extraction(Some(e2), y, Bin(AND, y, y)) by {
      assert ExtractEq(AND, Some(nf), nb, y) == Extraction(Some(nf), nb, y);
      assert ExtractEq(AND, Some(nf), nb, nb) == Extraction(Some(e2), y, y);
    }
    assert ExtractEq(AND, None, e2, e2) == Extraction(Some(e2), Bin(AND, y, y), Bin(AND, y, y));
  }
}
