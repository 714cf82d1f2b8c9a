/** Cursors into an expression tree. A cursor is the path from the root to a node, through
    AND and OR nodes only, so two cursors may well name nodes of the same tree. */
module ExprPaths {
  import opened Expr

  datatype Dir = Left | Right

  type Path = seq<Dir>

  function Child(e: Expr, d: Dir): Expr
    requires e.Bin?
  {
    if d == Left then e.l else e.r
  }

  predicate ValidPath(e: Expr, p: Path) {
    p == [] || (e.Bin? && ValidPath(Child(e, p[0]), p[1..]))
  }

  function Get(e: Expr, p: Path): (r: Expr)
    requires ValidPath(e, p)
    ensures Size(r) <= Size(e) && (p != [] ==> Size(r) < Size(e))
  {
    if p == [] then e else Get(Child(e, p[0]), p[1..])
  }

  function Set(e: Expr, p: Path, x: Expr): (r: Expr)
    requires ValidPath(e, p)
    ensures ValidPath(r, p) && Get(r, p) == x
    ensures Size(r) == Size(e) - Size(Get(e, p)) + Size(x)
  {
    if p == [] then x
    else if p[0] == Left then Bin(e.op, Set(e.l, p[1..], x), e.r)
    else Bin(e.op, e.l, Set(e.r, p[1..], x))
  }

  /** Following p and then s is following p + s. */
  lemma {:induction false} PathConcat(e: Expr, p: Path, s: Path)
    requires ValidPath(e, p)
    ensures ValidPath(e, p + s) <==> ValidPath(Get(e, p), s)
    ensures ValidPath(e, p + s) ==> Get(e, p + s) == Get(Get(e, p), s)
    ensures ValidPath(e, p + s) ==>
              forall x :: Set(e, p + s, x) == Set(e, p, Set(Get(e, p), s, x))
  {
    if p == [] {
      assert p + s == s;
    } else {
      assert (p + s)[1..] == p[1..] + s;
      PathConcat(Child(e, p[0]), p[1..], s);
    }
  }

  lemma {:induction false} SetTwice(e: Expr, p: Path, x: Expr, y: Expr)
    requires ValidPath(e, p)
    ensures Set(Set(e, p, x), p, y) == Set(e, p, y)
    ensures Set(e, p, Get(e, p)) == e
  {
    if p != [] { SetTwice(Child(e, p[0]), p[1..], x, y); }
  }

  /** Neither path passes through the other's end. */
  predicate Apart(p: Path, q: Path) {
    p != [] && q != [] && (p[0] != q[0] || Apart(p[1..], q[1..]))
  }

  lemma {:induction false} SetApart(e: Expr, p: Path, q: Path, x: Expr)
    requires ValidPath(e, p) && ValidPath(e, q) && Apart(p, q)
    ensures ValidPath(Set(e, p, x), q) && Get(Set(e, p, x), q) == Get(e, q)
  {
    if p[0] == q[0] { SetApart(Child(e, p[0]), p[1..], q[1..], x); }
  }

  // ----- operands of one operator -----

  /** s goes through nodes of operator op only, so its end is an operand of e under op. */
  predicate Spine(op: Op, e: Expr, s: Path) {
    s == [] || (IsOp(e, op) && Spine(op, Child(e, s[0]), s[1..]))
  }

  function SpineSize(op: Op, e: Expr): nat {
    if IsOp(e, op) then 1 + SpineSize(op, e.l) + SpineSize(op, e.r) else 0
  }

  /** The two trees branch on op in the same places. */
  predicate SameSpine(op: Op, e: Expr, e': Expr) {
    if IsOp(e, op) then IsOp(e', op) && SameSpine(op, e.l, e'.l) && SameSpine(op, e.r, e'.r)
    else !IsOp(e', op)
  }

  lemma {:induction false} SpineValid(op: Op, e: Expr, s: Path)
    requires Spine(op, e, s)
    ensures ValidPath(e, s)
  {
    if s != [] { SpineValid(op, Child(e, s[0]), s[1..]); }
  }

  lemma {:induction false} SpineExtend(op: Op, e: Expr, s: Path, d: Dir)
    requires Spine(op, e, s) && ValidPath(e, s) && IsOp(Get(e, s), op)
    ensures Spine(op, e, s + [d]) && ValidPath(e, s + [d])
    ensures Get(e, s + [d]) == Child(Get(e, s), d)
  {
    if s == [] {
      assert (s + [d])[1..] == [];
    } else {
      assert (s + [d])[1..] == s[1..] + [d];
      SpineExtend(op, Child(e, s[0]), s[1..], d);
    }
  }

  lemma {:induction false} SameSpineAt(op: Op, e: Expr, e': Expr, s: Path)
    requires SameSpine(op, e, e') && Spine(op, e, s)
    ensures Spine(op, e', s) && ValidPath(e, s) && ValidPath(e', s)
    ensures SameSpine(op, Get(e, s), Get(e', s))
    ensures SpineSize(op, Get(e, s)) == SpineSize(op, Get(e', s))
  {
    if s != [] {
      SameSpineAt(op, Child(e, s[0]), Child(e', s[0]), s[1..]);
    } else if IsOp(e, op) {
      SameSpineAt(op, e.l, e'.l, []);
      SameSpineAt(op, e.r, e'.r, []);
    }
  }

  lemma {:induction false} SameSpineTransitive(op: Op, a: Expr, b: Expr, c: Expr)
    requires SameSpine(op, a, b) && SameSpine(op, b, c)
    ensures SameSpine(op, a, c)
  {
    if IsOp(a, op) {
      SameSpineTransitive(op, a.l, b.l, c.l);
      SameSpineTransitive(op, a.r, b.r, c.r);
    }
  }

  lemma {:induction false} SameSpineSelf(op: Op, e: Expr)
    ensures SameSpine(op, e, e)
  {
    if IsOp(e, op) { SameSpineSelf(op, e.l); SameSpineSelf(op, e.r); }
  }

  /** Replacing an operand that does not branch on op by another such keeps the spine. */
  lemma {:induction false} SetKeepsSpine(op: Op, e: Expr, s: Path, x: Expr)
    requires Spine(op, e, s) && ValidPath(e, s)
    requires !IsOp(Get(e, s), op) && !IsOp(x, op)
    ensures SameSpine(op, e, Set(e, s, x))
  {
    if s != [] {
      SetKeepsSpine(op, Child(e, s[0]), s[1..], x);
      SameSpineSelf(op, e.l);
      SameSpineSelf(op, e.r);
    }
  }

  /** Two different operands that do not branch on op are apart. */
  lemma {:induction false} OperandsApart(op: Op, e: Expr, s: Path, t: Path)
    requires Spine(op, e, s) && ValidPath(e, s) && !IsOp(Get(e, s), op)
    requires Spine(op, e, t) && ValidPath(e, t) && !IsOp(Get(e, t), op)
    requires s != t
    ensures Apart(s, t)
  {
    if s != [] && t != [] && s[0] == t[0] {
      assert s == [s[0]] + s[1..] && t == [t[0]] + t[1..];
      OperandsApart(op, Child(e, s[0]), s[1..], t[1..]);
    }
  }

  // ----- values along a path -----

  /** The whole is the operand joined with the rest. */
  lemma {:induction false} OperandOut(op: Op, e: Expr, s: Path, x: Expr, env: Env)
    requires BuiltIns(env)
    requires Spine(op, e, s) && ValidPath(e, s)
    ensures Val(Set(e, s, x), env) == Apply(op, Val(x, env), Val(Set(e, s, Leaf(Neutral(op))), env))
  {
    if s != [] { OperandOut(op, Child(e, s[0]), s[1..], x, env); }
  }

  lemma {:induction false} SetEquivalent(e: Expr, p: Path, x: Expr)
    requires ValidPath(e, p) && Equivalent(Get(e, p), x)
    ensures Equivalent(e, Set(e, p, x))
  {
    if p != [] { SetEquivalent(Child(e, p[0]), p[1..], x); }
  }

  /** AND and OR are monotone in the information order. */
  lemma {:induction false} SetRefines(e: Expr, p: Path, x: Expr)
    requires ValidPath(e, p) && Refines(Get(e, p), x)
    ensures Refines(e, Set(e, p, x))
  {
    if p != [] {
      SetRefines(Child(e, p[0]), p[1..], x);
    }
  }

  /** A foldable constant below stays foldable from above. */
  lemma {:induction false} YnChildAbove(e: Expr, p: Path)
    requires ValidPath(e, p) && HasYnChild(Get(e, p))
    ensures HasYnChild(e)
  {
    if p != [] { YnChildAbove(Child(e, p[0]), p[1..]); }
  }

  lemma {:induction false} YnChildAt(e: Expr, p: Path)
    requires ValidPath(e, p) && p != [] && IsYn(Get(e, p))
    ensures HasYnChild(e)
  {
    assert Get(e, p) == Get(Child(e, p[0]), p[1..]);
    if p[1..] != [] { YnChildAt(Child(e, p[0]), p[1..]); }
  }
}
