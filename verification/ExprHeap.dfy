/** The expression functions on the nodes themselves: `expr_copy`, `expr_eliminate_yn`,
    `expr_trans_bool` and `expr_transform` rewrite a tree of nodes in place. */
module ExprHeap {
  import opened Expr
  import opened ExprTransform

  datatype Kind = SYMBOL | NOT | EQUAL | UNEQUAL | OPERATION(op: Op)

  /** `struct expr`; of the two unions a node uses what its kind calls for. */
  class Node {
    var kind: Kind
    var left: Node?
    var right: Node?
    var leftSym: Symbol
    var rightSym: Symbol

    /** `expr_alloc_symbol` */
    constructor Symbol(s: Symbol)
      ensures kind == SYMBOL && leftSym == s
    {
      kind, left, right, leftSym, rightSym := SYMBOL, null, null, s, No;
    }

    /** `expr_alloc_one` */
    constructor One(kind: Kind, e: Node)
      ensures this.kind == kind && left == e
    {
      this.kind, left, right, leftSym, rightSym := kind, e, null, No, No;
    }

    /** `*dst = *src` for a new node */
    constructor Copy(src: Node)
      ensures kind == src.kind && left == src.left && right == src.right
      ensures leftSym == src.leftSym && rightSym == src.rightSym
    {
      kind, left, right, leftSym, rightSym := src.kind, src.left, src.right, src.leftSym, src.rightSym;
    }
  }

  /** The nodes that make up a tree. */
  datatype Shape = Atom(n: Node) | Neg(n: Node, a: Shape) | Pair(n: Node, l: Shape, r: Shape)

  ghost function Nodes(s: Shape): set<Node> {
    match s
    case Atom(n) => {n}
    case Neg(n, a) => {n} + Nodes(a)
    case Pair(n, l, r) => {n} + Nodes(l) + Nodes(r)
  }

  /** No node is used twice. */
  ghost predicate Proper(s: Shape) {
    match s
    case Atom(_) => true
    case Neg(n, a) => n !in Nodes(a) && Proper(a)
    case Pair(n, l, r) => n !in Nodes(l) + Nodes(r) && Nodes(l) !! Nodes(r) && Proper(l) && Proper(r)
  }

  /** The nodes are linked as s says and stand for e. */
  ghost predicate Linked(s: Shape, e: Expr)
    reads Nodes(s)
  {
    match s
    case Atom(n) =>
      (match e
       case Leaf(a) => n.kind == SYMBOL && n.leftSym == a
       case Equal(a, b) => n.kind == EQUAL && n.leftSym == a && n.rightSym == b
       case Unequal(a, b) => n.kind == UNEQUAL && n.leftSym == a && n.rightSym == b
       case _ => false)
    case Neg(n, a) => e.Not? && n.kind == NOT && n.left == a.n && Linked(a, e.arg)
    case Pair(n, l, r) =>
      e.Bin? && n.kind == OPERATION(e.op) && n.left == l.n && n.right == r.n && Linked(l, e.l) && Linked(r, e.r)
  }

  /** The tree at n is made of the nodes of s, each once, and stands for e. */
  ghost predicate Tree(n: Node, s: Shape, e: Expr)
    reads Nodes(s)
  {
    s.n == n && Proper(s) && Linked(s, e)
  }

  /** The same nodes below a different root. */
  ghost function Rerooted(s: Shape, n: Node): Shape {
    match s
    case Atom(_) => Atom(n)
    case Neg(_, a) => Neg(n, a)
    case Pair(_, l, r) => Pair(n, l, r)
  }

  /** `*n = *c` */
  method Overwrite(n: Node, c: Node, ghost s: Shape, ghost e: Expr) returns (ghost s': Shape)
    requires Tree(c, s, e) && n !in Nodes(s)
    modifies n
    ensures Tree(n, s', e) && Nodes(s') <= {n} + Nodes(s)
  {
    n.kind, n.left, n.right, n.leftSym, n.rightSym := c.kind, c.left, c.right, c.leftSym, c.rightSym;
    s' := Rerooted(s, n);
  }

  method MakeSymbol(n: Node, a: Symbol) returns (ghost s': Shape)
    modifies n
    ensures Tree(n, s', Leaf(a)) && Nodes(s') == {n}
  {
    n.kind, n.leftSym, n.right := SYMBOL, a, null;
    s' := Atom(n);
  }

  /** What the root node says about the expression. */
  lemma RootKind(s: Shape, e: Expr)
    requires Linked(s, e)
    ensures s.n.kind == SYMBOL <==> e == Leaf(s.n.leftSym)
    ensures s.n.kind == SYMBOL <==> e.Leaf?
    ensures s.n.kind == NOT <==> e.Not? && s.Neg?
    ensures s.n.kind == EQUAL <==> e == Expr.Equal(s.n.leftSym, s.n.rightSym)
    ensures s.n.kind == UNEQUAL <==> e == Expr.Unequal(s.n.leftSym, s.n.rightSym)
    ensures s.n.kind.OPERATION? <==> e.Bin? && s.Pair?
    ensures e.Bin? ==> s.n.kind == OPERATION(e.op)
    ensures s.n in Nodes(s)
  {}

  /** `expr_eliminate_yn` */
  method EliminateYnInPlace(n: Node, ghost s: Shape, ghost e: Expr, ghost all: set<Node>) returns (ghost s': Shape)
    requires Tree(n, s, e) && Nodes(s) <= all
    modifies Nodes(s)
    ensures Tree(n, s', EliminateYn(e)) && Nodes(s') <= Nodes(s)
    decreases s
  {
    RootKind(s, e);
    s' := s;
    if n.kind.OPERATION? {
      ghost var l := EliminateYnInPlace(n.left, s.l, e.l, all);
      assert Linked(s.r, e.r) == old(Linked(s.r, e.r));
      label Left:
      ghost var r := EliminateYnInPlace(n.right, s.r, e.r, all);
      assert Linked(l, EliminateYn(e.l)) == old@Left(Linked(l, EliminateYn(e.l)));
      s' := FoldPair(n, Pair(n, l, r), Bin(e.op, EliminateYn(e.l), EliminateYn(e.r)), all);
    }
  }

  /** Folds an AND or OR whose operands are folded. */
  method FoldPair(n: Node, ghost s: Shape, ghost e: Expr, ghost all: set<Node>) returns (ghost s': Shape)
    requires Tree(n, s, e) && e.Bin? && Nodes(s) <= all
    modifies n
    ensures Nodes(s') <= Nodes(s)
    ensures Tree(n, s', if e.l == Leaf(Absorbing(e.op)) then e.l
                        else if e.l == Leaf(Neutral(e.op)) then e.r
                        else if e.r == Leaf(Absorbing(e.op)) then e.r
                        else if e.r == Leaf(Neutral(e.op)) then e.l
                        else e)
  {
    s' := s;
    RootKind(s, e);
    RootKind(s.l, e.l);
    RootKind(s.r, e.r);
    var op := n.kind.op;
    if n.left.kind == SYMBOL && n.left.leftSym == Absorbing(op) {
      s' := MakeSymbol(n, Absorbing(op));
    } else if n.left.kind == SYMBOL && n.left.leftSym == Neutral(op) {
      s' := Overwrite(n, n.right, s.r, e.r);
    } else if n.right.kind == SYMBOL && n.right.leftSym == Absorbing(op) {
      s' := MakeSymbol(n, Absorbing(op));
    } else if n.right.kind == SYMBOL && n.right.leftSym == Neutral(op) {
      s' := Overwrite(n, n.left, s.l, e.l);
    }
  }

  /** `expr_copy`: nodes of its own, none of them among those that were there. */
  method CopyTree(n: Node, ghost s: Shape, ghost e: Expr, ghost all: set<Node>)
    returns (c: Node, ghost s': Shape, ghost ns: set<Node>)
    requires Tree(n, s, e) && Nodes(s) <= all
    ensures Tree(c, s', e) && ns == Nodes(s') && fresh(ns) && ns !! all
    decreases s
  {
    RootKind(s, e);
    c := new Node.Copy(n);
    if n.kind == NOT {
      c, s', ns := CopyNot(n, c, s, e, all);
    } else if n.kind.OPERATION? {
      c, s', ns := CopyPair(n, c, s, e, all);
    } else {
      s', ns := Atom(c), {c};
    }
  }

  method CopyNot(n: Node, c: Node, ghost s: Shape, ghost e: Expr, ghost all: set<Node>)
    returns (c': Node, ghost s': Shape, ghost ns: set<Node>)
    requires Tree(n, s, e) && Nodes(s) <= all && s.Neg? && c !in all && c.kind == n.kind
    modifies c
    ensures c' == c && Tree(c, s', e) && ns == Nodes(s') && fresh(ns - {c}) && ns !! all
    decreases s, 0
  {
    var x;
    x, s', ns := CopyTree(n.left, s.a, e.arg, all + {c});
    c.left := x;
    assert Linked(s', e.arg);
    c', s', ns := c, Neg(c, s'), {c} + ns;
  }

  method CopyPair(n: Node, c: Node, ghost s: Shape, ghost e: Expr, ghost all: set<Node>)
    returns (c': Node, ghost s': Shape, ghost ns: set<Node>)
    requires Tree(n, s, e) && Nodes(s) <= all && s.Pair? && c !in all && c.kind == n.kind
    modifies c
    ensures c' == c && Tree(c, s', e) && ns == Nodes(s') && fresh(ns - {c}) && ns !! all
    decreases s, 0
  {
    var x, y;
    ghost var l, r, ls, rs;
    x, l, ls := CopyTree(n.left, s.l, e.l, all + {c});
    assert Linked(s.r, e.r) == old(Linked(s.r, e.r));
    label Left:
    y, r, rs := CopyTree(n.right, s.r, e.r, all + {c} + ls);
    assert Linked(l, e.l) == old@Left(Linked(l, e.l));
    s' := LinkPair(c, x, y, l, r, e, ls + rs);
    c', ns := c, {c} + ls + rs;
  }

  /** Sets both operands of a node. */
  method LinkPair(n: Node, x: Node, y: Node, ghost l: Shape, ghost r: Shape, ghost e: Expr, ghost all: set<Node>)
    returns (ghost s': Shape)
    requires e.Bin? && n.kind == OPERATION(e.op) && Nodes(l) + Nodes(r) <= all
    requires Tree(x, l, e.l) && Tree(y, r, e.r) && Nodes(l) !! Nodes(r) && n !in Nodes(l) + Nodes(r)
    modifies n
    ensures s' == Pair(n, l, r) && Tree(n, s', e)
  {
    n.left, n.right := x, y;
    assert Linked(l, e.l) == old(Linked(l, e.l));
    assert Linked(r, e.r) == old(Linked(r, e.r));
    s' := Pair(n, l, r);
  }

  /** `expr_trans_bool` */
  method TransBoolInPlace(n: Node, ghost s: Shape, ghost e: Expr, ghost all: set<Node>)
    requires Tree(n, s, e) && Nodes(s) <= all
    modifies Nodes(s)
    ensures Tree(n, s, TransBool(e))
    decreases s
  {
    RootKind(s, e);
    if n.kind == NOT {
      TransBoolInPlace(n.left, s.a, e.arg, all);
    } else if n.kind.OPERATION? {
      TransBoolInPlace(n.left, s.l, e.l, all);
      assert Linked(s.r, e.r) == old(Linked(s.r, e.r));
      label Left:
      TransBoolInPlace(n.right, s.r, e.r, all);
      assert Linked(s.l, TransBool(e.l)) == old@Left(Linked(s.l, TransBool(e.l)));
    } else if n.kind == UNEQUAL && n.leftSym.IsTristate() && n.rightSym == No {
      n.kind := SYMBOL;
    }
  }

  // ----- expr_transform -----

  /** What a transformation may do: the tree is made of nodes it had and of new ones. */
  twostate predicate Remade(s: Shape, new s': Shape, new ns: set<Node>, all: set<Node>) {
    ns == Nodes(s') && ns * all <= Nodes(s) && fresh(ns - all)
  }

  /** The comparisons with y, m and n. */
  method TransformComparison(n: Node, ghost s: Shape, ghost e: Expr, ghost all: set<Node>)
    returns (ghost s': Shape, ghost ns: set<Node>)
    requires Tree(n, s, e) && (e.Equal? || e.Unequal?) && Nodes(s) <= all
    modifies n
    ensures Tree(n, s', Transform(e)) && Remade(s, s', ns, all)
  {
    RootKind(s, e);
    s', ns := s, {n};
    if !n.leftSym.IsBoolean() {
      return;
    }
    if n.rightSym == Mod {
      s' := MakeSymbol(n, if n.kind == EQUAL then No else Yes);
    } else if n.rightSym == (if n.kind == EQUAL then Yes else No) {
      n.kind := SYMBOL;
    } else if n.rightSym == (if n.kind == EQUAL then No else Yes) {
      var x := new Node.Symbol(n.leftSym);
      n.kind, n.left := NOT, x;
      s', ns := Neg(n, Atom(x)), {n, x};
    }
  }

  /** `expr_transform` of a node: the operands first, then the node itself. */
  method TransformInPlace(n: Node, ghost s: Shape, ghost e: Expr, ghost all: set<Node>)
    returns (r: Node, ghost s': Shape, ghost ns: set<Node>)
    requires Tree(n, s, e) && Nodes(s) <= all
    modifies Nodes(s)
    ensures Tree(r, s', Transform(e)) && Remade(s, s', ns, all)
    decreases Weight(e), e.Not?, Size(e), 2
  {
    RootKind(s, e);
    r, s', ns := n, s, {n};
    if n.kind == EQUAL || n.kind == UNEQUAL {
      s', ns := TransformComparison(n, s, e, all);
    } else if n.kind.OPERATION? {
      s', ns := TransformPair(n, s, e, all);
    } else if n.kind == NOT {
      r, s', ns := TransformNot(n, s, e, all);
    }
  }

  method TransformPair(n: Node, ghost s: Shape, ghost e: Expr, ghost all: set<Node>)
    returns (ghost s': Shape, ghost ns: set<Node>)
    requires Tree(n, s, e) && Nodes(s) <= all && e.Bin?
    modifies Nodes(s)
    ensures Tree(n, s', Transform(e)) && Remade(s, s', ns, all)
    decreases Weight(e), e.Not?, Size(e), 1
  {
    var x, y;
    ghost var l, r, ls, rs;
    x, l, ls := TransformInPlace(n.left, s.l, e.l, all);
    assert Linked(s.r, e.r) == old(Linked(s.r, e.r));
    label Left:
    y, r, rs := TransformInPlace(n.right, s.r, e.r, all + ls);
    assert Linked(l, Transform(e.l)) == old@Left(Linked(l, Transform(e.l)));
    RemadeApart(n, all, Nodes(s.l), Nodes(s.r), ls, rs);
    s' := LinkPair(n, x, y, l, r, Bin(e.op, Transform(e.l), Transform(e.r)), ls + rs);
    ns := {n} + ls + rs;
  }

  /** Two remade trees have no node in common, and neither has the node above them. */
  lemma RemadeApart(n: Node, all: set<Node>, l: set<Node>, r: set<Node>, l': set<Node>, r': set<Node>)
    requires {n} + l + r <= all && l !! r && n !in l + r
    requires l' * all <= l && r' * (all + l') <= r
    ensures l' !! r' && n !in l' + r'
  {
    assert forall x :: x in l' && x in all ==> x in l;
    assert forall x :: x in r' && x in all + l' ==> x in r;
  }

  method TransformNot(n: Node, ghost s: Shape, ghost e: Expr, ghost all: set<Node>)
    returns (r: Node, ghost s': Shape, ghost ns: set<Node>)
    requires Tree(n, s, e) && Nodes(s) <= all && e.Not?
    modifies Nodes(s)
    ensures Tree(r, s', Transform(e)) && Remade(s, s', ns, all)
    decreases Weight(e), e.Not?, Size(e), 1
  {
    var x;
    ghost var a, as_;
    x, a, as_ := TransformInPlace(n.left, s.a, e.arg, all);
    label Done:
    n.left := x;
    assert Linked(a, Transform(e.arg)) == old@Done(Linked(a, Transform(e.arg)));
    r, s', ns := NegateTransformed(n, Neg(n, a), e.arg, all + as_);
  }

  /** The negation of an operand that is transformed already. */
  method NegateTransformed(n: Node, ghost s: Shape, ghost arg: Expr, ghost all: set<Node>)
    returns (r: Node, ghost s': Shape, ghost ns: set<Node>)
    requires Tree(n, s, Not(Transform(arg))) && Nodes(s) <= all
    modifies Nodes(s)
    ensures Tree(r, s', Transform(Not(arg))) && Remade(s, s', ns, all)
    decreases Weight(Not(arg)), true, Size(Not(arg)), 0
  {
    ghost var t := Transform(arg);
    var x := n.left;
    RootKind(s.a, t);
    assert Proper(s.a);
    r, s', ns := n, s, Nodes(s);
    if x.kind == NOT {
      r, s', ns := TransformInPlace(x.left, s.a.a, t.arg, all);
    } else if x.kind == EQUAL {
      x.kind := UNEQUAL;
      r, s', ns := x, s.a, {x};
    } else if x.kind == UNEQUAL {
      x.kind := EQUAL;
      r, s', ns := x, s.a, {x};
    } else if x.kind.OPERATION? {
      s', ns := DeMorgan(n, s, t, all);
      assert Weight(Not(t.l)) == Weight(t.l) && Weight(Not(t.r)) == Weight(t.r);
      r, s', ns := TransformInPlace(n, s', Bin(Dual(t.op), Not(t.l), Not(t.r)), all + ns);
    } else if x.leftSym.IsBuiltIn() {
      r, ns := x, {x};
      s' := MakeSymbol(x, if x.leftSym == Yes then No else if x.leftSym == Mod then Mod else Yes);
    }
  }

  /** Turns NOT above AND or OR into OR or AND above two NOTs: the old operand node becomes the
      first of them, and the second is new. */
  method DeMorgan(n: Node, ghost s: Shape, ghost t: Expr, ghost all: set<Node>)
    returns (ghost s': Shape, ghost ns: set<Node>)
    requires Tree(n, s, Not(t)) && t.Bin? && Nodes(s) <= all
    modifies Nodes(s)
    ensures Tree(n, s', Bin(Dual(t.op), Not(t.l), Not(t.r))) && Remade(s, s', ns, all)
  {
    RootKind(s.a, t);
    assert Proper(s.a);
    var x := n.left;
    var y := new Node.One(NOT, x.right);
    n.kind, n.right := OPERATION(Dual(x.kind.op)), y;
    x.kind, x.right := NOT, null;
    assert Linked(s.a.l, t.l) == old(Linked(s.a.l, t.l));
    assert Linked(s.a.r, t.r) == old(Linked(s.a.r, t.r));
    s', ns := Pair(n, Neg(x, s.a.l), Neg(y, s.a.r)), Nodes(s) + {y};
  }
}
