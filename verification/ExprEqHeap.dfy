/** Cancellation on the nodes themselves: `expr_eq` and `expr_eliminate_eq`. */
module ExprEqHeap {
  import opened Expr
  import opened ExprEq
  import opened ExprHeap

  /** The result of a step of the cancellation: two trees without a common node, each made of
      nodes its tree had and of new ones. */
  ghost predicate Split(all: set<Node>, a: set<Node>, b: set<Node>, a': set<Node>, b': set<Node>) {
    a' !! b' && a' * all <= a && b' * all <= b
  }

  /** The number of pairs that `__expr_eliminate_eq` cancels. */
  function Cancelled(op: Op, e1: Expr, e2: Expr): nat
    decreases Size(e1) + Size(e2)
  {
    if IsOp(e1, op) then Cancelled(op, e1.l, e2) + Cancelled(op, e1.r, Cancel(op, e1.l, e2).1)
    else if IsOp(e2, op) then Cancelled(op, e1, e2.l) + Cancelled(op, Cancel(op, e1, e2.l).0, e2.r)
    else if (IsYn(e1) && e1 == e2) || !Eq(e1, e2) then 0
    else 1
  }

  /** Without a pair cancelled both expressions stay as they are. */
  lemma {:induction false} NothingCancelled(op: Op, e1: Expr, e2: Expr)
    requires Cancelled(op, e1, e2) == 0
    ensures Cancel(op, e1, e2) == (e1, e2)
    decreases Size(e1) + Size(e2)
  {
    if IsOp(e1, op) {
      NothingCancelled(op, e1.l, e2);
      NothingCancelled(op, e1.r, e2);
    } else if IsOp(e2, op) {
      NothingCancelled(op, e1, e2.l);
      NothingCancelled(op, e1, e2.r);
    }
  }

  lemma CancelOfLeft(op: Op, e1: Expr, e2: Expr)
    requires IsOp(e1, op)
    ensures var a := Cancel(op, e1.l, e2);
            var b := Cancel(op, e1.r, a.1);
            Cancel(op, e1, e2) == (Bin(op, a.0, b.0), b.1)
  {}

  lemma CancelOfRight(op: Op, e1: Expr, e2: Expr)
    requires !IsOp(e1, op) && IsOp(e2, op)
    ensures var a := Cancel(op, e1, e2.l);
            var b := Cancel(op, a.0, e2.r);
            Cancel(op, e1, e2) == (b.0, Bin(op, a.1, b.1))
  {}

  /** The second pass of `expr_eliminate_eq`: only for an operator that e1 does not have. */
  ghost function SecondKind(e1: Expr, e2: Expr): (Expr, Expr) {
    if e2.Bin? && !IsOp(e1, e2.op) then Cancel(e2.op, e1, e2) else (e1, e2)
  }

  class Canceller {
    /** The global counter of changes. */
    var transCount: nat

    constructor ()
      ensures transCount == 0
    {
      transCount := 0;
    }

    /** Replaces both expressions by the neutral symbol. */
    method CancelBoth(op: Op, ghost all: set<Node>)
      returns (r1: Node, r2: Node, ghost t1: Shape, ghost t2: Shape, ghost ns1: set<Node>, ghost ns2: set<Node>)
      modifies this
      ensures Tree(r1, t1, Leaf(Neutral(op))) && Tree(r2, t2, Leaf(Neutral(op)))
      ensures ns1 == Nodes(t1) && ns2 == Nodes(t2) && fresh(ns1 + ns2) && (ns1 + ns2) !! all && ns1 !! ns2
      ensures transCount == old(transCount) + 1
    {
      transCount := transCount + 1;
      r1 := new Node.Symbol(Neutral(op));
      r2 := new Node.Symbol(Neutral(op));
      t1, t2, ns1, ns2 := Atom(r1), Atom(r2), {r1}, {r2};
    }

    /** `__expr_eliminate_eq`. Each cursor is the place of a node in its tree; the caller links
        the node that comes back. */
    method CancelInPlace(op: Op, n1: Node, n2: Node, ghost s1: Shape, ghost s2: Shape, ghost e1: Expr, ghost e2: Expr,
                         ghost all: set<Node>)
      returns (r1: Node, r2: Node, ghost t1: Shape, ghost t2: Shape, ghost ns1: set<Node>, ghost ns2: set<Node>)
      requires Tree(n1, s1, e1) && Tree(n2, s2, e2) && Nodes(s1) !! Nodes(s2) && Nodes(s1) + Nodes(s2) <= all
      modifies this, Nodes(s1), Nodes(s2)
      ensures Tree(r1, t1, Cancel(op, e1, e2).0) && Tree(r2, t2, Cancel(op, e1, e2).1)
      ensures ns1 == Nodes(t1) && ns2 == Nodes(t2) && Split(all, Nodes(s1), Nodes(s2), ns1, ns2)
      ensures fresh(ns1 + ns2 - all)
      ensures transCount == old(transCount) + Cancelled(op, e1, e2)
      decreases Size(e1) + Size(e2), if IsOp(e1, op) || IsOp(e2, op) then 0 else 3, 2
    {
      RootKind(s1, e1);
      RootKind(s2, e2);
      if n1.kind == OPERATION(op) {
        CancelOfLeft(op, e1, e2);
        r1, r2, t1, t2, ns1, ns2 := CancelLeft(op, n1, n2, s1, s2, e1, e2, Cancel(op, e1.l, e2), all);
      } else if n2.kind == OPERATION(op) {
        CancelOfRight(op, e1, e2);
        r1, r2, t1, t2, ns1, ns2 := CancelRight(op, n1, n2, s1, s2, e1, e2, Cancel(op, e1, e2.l), all);
      } else {
        var eq;
        eq, r1, r2, t1, t2, ns1, ns2 := CancelPair(op, n1, n2, s1, s2, e1, e2, all);
      }
    }

    /** Two operands that are no operators of the kind at hand. */
    method CancelPair(op: Op, n1: Node, n2: Node, ghost s1: Shape, ghost s2: Shape, ghost e1: Expr, ghost e2: Expr,
                      ghost all: set<Node>)
      returns (eq: bool, r1: Node, r2: Node, ghost t1: Shape, ghost t2: Shape, ghost ns1: set<Node>,
               ghost ns2: set<Node>)
      requires Tree(n1, s1, e1) && Tree(n2, s2, e2) && Nodes(s1) !! Nodes(s2) && Nodes(s1) + Nodes(s2) <= all
      modifies this
      ensures eq <==> !(IsYn(e1) && e1 == e2) && Eq(e1, e2)
      ensures Tree(r1, t1, if eq then Leaf(Neutral(op)) else e1) && Tree(r2, t2, if eq then Leaf(Neutral(op)) else e2)
      ensures ns1 == Nodes(t1) && ns2 == Nodes(t2) && Split(all, Nodes(s1), Nodes(s2), ns1, ns2)
      ensures fresh(ns1 + ns2 - all)
      ensures transCount == old(transCount) + if eq then 1 else 0
      decreases Size(e1) + Size(e2), 3, 1
    {
      RootKind(s1, e1);
      RootKind(s2, e2);
      r1, r2, t1, t2, ns1, ns2 := n1, n2, s1, s2, Nodes(s1), Nodes(s2);
      if n1.kind == SYMBOL && n2.kind == SYMBOL && n1.leftSym == n2.leftSym
         && (n1.leftSym == Yes || n1.leftSym == No) {
        return false, n1, n2, s1, s2, ns1, ns2;
      }
      eq := EqInPlace(n1, n2, s1, s2, e1, e2, all);
      if eq {
        r1, r2, t1, t2, ns1, ns2 := CancelBoth(op, all);
      } else {
        assert Linked(s1, e1) == old(Linked(s1, e1));
        assert Linked(s2, e2) == old(Linked(s2, e2));
      }
    }

    /** Cancels two trees beside a third tree and a node that are not concerned. */
    method CancelBeside(op: Op, n1: Node, n2: Node, ghost s1: Shape, ghost s2: Shape, ghost e1: Expr, ghost e2: Expr,
                        ghost all: set<Node>, ghost n: Node, ghost sr: Shape, ghost er: Expr)
      returns (r1: Node, r2: Node, ghost t1: Shape, ghost t2: Shape, ghost ns1: set<Node>, ghost ns2: set<Node>)
      requires Tree(n1, s1, e1) && Tree(n2, s2, e2) && Nodes(s1) !! Nodes(s2)
      requires Linked(sr, er) && Nodes(sr) !! Nodes(s1) + Nodes(s2) && n !in Nodes(s1) + Nodes(s2) + Nodes(sr)
      requires {n} + Nodes(s1) + Nodes(s2) + Nodes(sr) <= all
      modifies this, Nodes(s1), Nodes(s2)
      ensures Tree(r1, t1, Cancel(op, e1, e2).0) && Tree(r2, t2, Cancel(op, e1, e2).1) && Linked(sr, er)
      ensures ns1 == Nodes(t1) && ns2 == Nodes(t2) && Split(all, Nodes(s1), Nodes(s2), ns1, ns2)
      ensures Nodes(sr) !! ns1 + ns2 && n !in ns1 + ns2 && fresh(ns1 + ns2 - all)
      ensures transCount == old(transCount) + Cancelled(op, e1, e2)
      decreases Size(e1) + Size(e2), 4, 0
    {
      r1, r2, t1, t2, ns1, ns2 := CancelInPlace(op, n1, n2, s1, s2, e1, e2, all);
      assert Linked(sr, er) == old(Linked(sr, er));
      SplitClear(n, all, Nodes(sr), Nodes(s1), Nodes(s2), ns1, ns2);
    }

    /** Both operands of the first expression in turn. */
    method CancelLeft(op: Op, n1: Node, n2: Node, ghost s1: Shape, ghost s2: Shape, ghost e1: Expr, ghost e2: Expr,
                      ghost a: (Expr, Expr), ghost all: set<Node>)
      returns (r1: Node, r2: Node, ghost t1: Shape, ghost t2: Shape, ghost ns1: set<Node>, ghost ns2: set<Node>)
      requires Tree(n1, s1, e1) && Tree(n2, s2, e2) && Nodes(s1) !! Nodes(s2) && Nodes(s1) + Nodes(s2) <= all
      requires IsOp(e1, op) && s1.Pair?
      requires a == Cancel(op, e1.l, e2)
      modifies this, Nodes(s1), Nodes(s2)
      ensures Tree(r1, t1, Bin(op, a.0, Cancel(op, e1.r, a.1).0)) && Tree(r2, t2, Cancel(op, e1.r, a.1).1)
      ensures ns1 == Nodes(t1) && ns2 == Nodes(t2) && Split(all, Nodes(s1), Nodes(s2), ns1, ns2)
      ensures fresh(ns1 + ns2 - all)
      ensures transCount == old(transCount) + Cancelled(op, e1.l, e2) + Cancelled(op, e1.r, a.1)
      decreases Size(e1) + Size(e2), 0, 1
    {
      var x, y;
      ghost var l, t, ls, ts;
      x, y, l, t, ls, ts := CancelBeside(op, n1.left, n2, s1.l, s2, e1.l, e2, all, n1, s1.r, e1.r);
      r1, r2, t1, t2, ns1, ns2 := CancelLeftRest(op, n1, x, y, s1.r, l, t, e1, a, ls, ts, all,
                                                 Nodes(s1.l), Nodes(s2));
    }

    /** The right operand, after the left one became x and the second expression y. */
    method CancelLeftRest(op: Op, n: Node, x: Node, y: Node, ghost sr: Shape, ghost l: Shape, ghost t: Shape,
                          ghost e1: Expr, ghost a: (Expr, Expr), ghost ls: set<Node>, ghost ts: set<Node>,
                          ghost all: set<Node>, ghost l0: set<Node>, ghost t0: set<Node>)
      returns (r1: Node, r2: Node, ghost t1: Shape, ghost t2: Shape, ghost ns1: set<Node>, ghost ns2: set<Node>)
      requires IsOp(e1, op) && n.kind == OPERATION(op) && n.right == sr.n
      requires Tree(x, l, a.0) && Tree(y, t, a.1) && Tree(sr.n, sr, e1.r) && ls == Nodes(l) && ts == Nodes(t)
      requires ls !! ts && Nodes(sr) !! ls + ts && n !in ls + ts + Nodes(sr)
      requires {n} + l0 + Nodes(sr) + t0 <= all && l0 !! Nodes(sr) && n !in l0 && ({n} + l0 + Nodes(sr)) !! t0
      requires Split(all, l0, t0, ls, ts)
      modifies this, n, Nodes(sr), ts
      ensures Tree(r1, t1, Bin(op, a.0, Cancel(op, e1.r, a.1).0)) && Tree(r2, t2, Cancel(op, e1.r, a.1).1)
      ensures ns1 == Nodes(t1) && ns2 == Nodes(t2) && Split(all, {n} + l0 + Nodes(sr), t0, ns1, ns2)
      ensures fresh(ns1 + ns2 - (all + ls + ts))
      ensures transCount == old(transCount) + Cancelled(op, e1.r, a.1)
      decreases Size(e1) + Size(a.1), 0, 0
    {
      var z;
      ghost var r, rs;
      z, r2, r, t2, rs, ns2 := CancelInPlace(op, n.right, y, sr, t, e1.r, a.1, all + ls + ts);
      assert Linked(l, a.0) == old(Linked(l, a.0));
      SplitClear(n, all + ls + ts, ls, Nodes(sr), ts, rs, ns2);
      SplitWhole(n, all, l0, Nodes(sr), t0, ls, ts, rs, ns2);
      r1, t1, ns1 := LinkBehind(n, x, z, l, r, Bin(op, a.0, Cancel(op, e1.r, a.1).0), ls, rs,
                                t2, Cancel(op, e1.r, a.1).1, ns2);
    }

    /** Both operands of the second expression in turn. */
    method CancelRight(op: Op, n1: Node, n2: Node, ghost s1: Shape, ghost s2: Shape, ghost e1: Expr, ghost e2: Expr,
                       ghost a: (Expr, Expr), ghost all: set<Node>)
      returns (r1: Node, r2: Node, ghost t1: Shape, ghost t2: Shape, ghost ns1: set<Node>, ghost ns2: set<Node>)
      requires Tree(n1, s1, e1) && Tree(n2, s2, e2) && Nodes(s1) !! Nodes(s2) && Nodes(s1) + Nodes(s2) <= all
      requires !IsOp(e1, op) && IsOp(e2, op) && s2.Pair?
      requires a == Cancel(op, e1, e2.l)
      modifies this, Nodes(s1), Nodes(s2)
      ensures Tree(r1, t1, Cancel(op, a.0, e2.r).0) && Tree(r2, t2, Bin(op, a.1, Cancel(op, a.0, e2.r).1))
      ensures ns1 == Nodes(t1) && ns2 == Nodes(t2) && Split(all, Nodes(s1), Nodes(s2), ns1, ns2)
      ensures fresh(ns1 + ns2 - all)
      ensures transCount == old(transCount) + Cancelled(op, e1, e2.l) + Cancelled(op, a.0, e2.r)
      decreases Size(e1) + Size(e2), 0, 1
    {
      var x, y;
      ghost var l, t, ls, ts;
      assert Nodes(s2) == {n2} + Nodes(s2.l) + Nodes(s2.r) && n2.right == s2.r.n;
      y, x, t, l, ts, ls := CancelBeside(op, n1, n2.left, s1, s2.l, e1, e2.l, all, n2, s2.r, e2.r);
      r1, r2, t1, t2, ns1, ns2 := CancelRightRest(op, n2, x, y, s2.r, l, t, e2, a, ls, ts, all,
                                                  Nodes(s2.l), Nodes(s1));
    }

    /** The right operand, after the left one became x and the first expression y. */
    method CancelRightRest(op: Op, n: Node, x: Node, y: Node, ghost sr: Shape, ghost l: Shape, ghost t: Shape,
                           ghost e2: Expr, ghost a: (Expr, Expr), ghost ls: set<Node>, ghost ts: set<Node>,
                           ghost all: set<Node>, ghost l0: set<Node>, ghost t0: set<Node>)
      returns (r1: Node, r2: Node, ghost t1: Shape, ghost t2: Shape, ghost ns1: set<Node>, ghost ns2: set<Node>)
      requires IsOp(e2, op) && n.kind == OPERATION(op) && n.right == sr.n
      requires Tree(x, l, a.1) && Tree(y, t, a.0) && Tree(sr.n, sr, e2.r) && ls == Nodes(l) && ts == Nodes(t)
      requires ls !! ts && Nodes(sr) !! ls + ts && n !in ls + ts + Nodes(sr)
      requires {n} + l0 + Nodes(sr) + t0 <= all && l0 !! Nodes(sr) && n !in l0 && ({n} + l0 + Nodes(sr)) !! t0
      requires Split(all, t0, l0, ts, ls)
      modifies this, n, Nodes(sr), ts
      ensures Tree(r1, t1, Cancel(op, a.0, e2.r).0) && Tree(r2, t2, Bin(op, a.1, Cancel(op, a.0, e2.r).1))
      ensures ns1 == Nodes(t1) && ns2 == Nodes(t2) && Split(all, t0, {n} + l0 + Nodes(sr), ns1, ns2)
      ensures fresh(ns1 + ns2 - (all + ls + ts))
      ensures transCount == old(transCount) + Cancelled(op, a.0, e2.r)
      decreases Size(a.0) + Size(e2), 0, 0
    {
      var z;
      ghost var r, rs;
      SplitSwap(all, t0, l0, ts, ls);
      r1, z, t1, r, ns1, rs := CancelInPlace(op, y, n.right, t, sr, a.0, e2.r, all + ls + ts);
      assert Linked(l, a.1) == old(Linked(l, a.1));
      SplitClear(n, all + ls + ts, ls, Nodes(sr), ts, rs, ns1);
      SplitWhole(n, all, l0, Nodes(sr), t0, ls, ts, rs, ns1);
      SplitSwap(all, {n} + l0 + Nodes(sr), t0, {n} + ls + rs, ns1);
      r2, t2, ns2 := LinkBehind(n, x, z, l, r, Bin(op, a.1, Cancel(op, a.0, e2.r).1), ls, rs,
                                t1, Cancel(op, a.0, e2.r).0, ns1);
    }

    /** Links the operands, which leaves the other tree alone. */
    method LinkBehind(n: Node, x: Node, y: Node, ghost l: Shape, ghost r: Shape, ghost e: Expr,
                      ghost ls: set<Node>, ghost rs: set<Node>, ghost t: Shape, ghost o: Expr, ghost ts: set<Node>)
      returns (n': Node, ghost s': Shape, ghost ns: set<Node>)
      requires e.Bin? && n.kind == OPERATION(e.op)
      requires Tree(x, l, e.l) && Tree(y, r, e.r) && Linked(t, o)
      requires ls == Nodes(l) && rs == Nodes(r) && ts == Nodes(t)
      requires ls !! rs && n !in ls + rs + ts
      modifies n
      ensures n' == n && Tree(n, s', e) && Linked(t, o) && ns == Nodes(s') == {n} + ls + rs
    {
      s' := LinkPair(n, x, y, l, r, e, ls + rs);
      assert Linked(t, o) == old(Linked(t, o));
      n', ns := n, {n} + ls + rs;
    }

    /** `expr_eliminate_eq` */
    method EliminateEqInPlace(n1: Node, n2: Node, ghost s1: Shape, ghost s2: Shape, ghost e1: Expr, ghost e2: Expr,
                              ghost all: set<Node>)
      returns (r1: Node, r2: Node, ghost t1: Shape, ghost t2: Shape)
      requires Tree(n1, s1, e1) && Tree(n2, s2, e2) && Nodes(s1) !! Nodes(s2) && Nodes(s1) + Nodes(s2) <= all
      modifies this, Nodes(s1), Nodes(s2)
      ensures Tree(r1, t1, EliminateEq(e1, e2).0) && Tree(r2, t2, EliminateEq(e1, e2).1)
      ensures Nodes(t1) !! Nodes(t2)
      decreases Size(e1) + Size(e2), 1, 1
    {
      RootKind(s1, e1);
      ghost var ns1, ns2 := Nodes(s1), Nodes(s2);
      r1, r2, t1, t2 := n1, n2, s1, s2;
      ghost var p := (e1, e2);
      if n1.kind.OPERATION? {
        p := Cancel(e1.op, e1, e2);
        r1, r2, t1, t2, ns1, ns2 := CancelInPlace(n1.kind.op, n1, n2, s1, s2, e1, e2, all);
      }
      ghost var q := SecondKind(p.0, p.1);
      r1, r2, t1, t2, ns1, ns2 := CancelSecondKind(r1, r2, t1, t2, p.0, p.1, ns1 + ns2);
      r1, r2, t1, t2 := FoldBoth(r1, r2, t1, t2, q.0, q.1, ns1, ns2);
    }

    /** The pass over the operator of the second expression, unless both are of one kind. */
    method CancelSecondKind(n1: Node, n2: Node, ghost s1: Shape, ghost s2: Shape, ghost e1: Expr, ghost e2: Expr,
                            ghost all: set<Node>)
      returns (r1: Node, r2: Node, ghost t1: Shape, ghost t2: Shape, ghost ns1: set<Node>, ghost ns2: set<Node>)
      requires Tree(n1, s1, e1) && Tree(n2, s2, e2) && Nodes(s1) !! Nodes(s2) && all == Nodes(s1) + Nodes(s2)
      modifies this, all
      ensures Tree(r1, t1, SecondKind(e1, e2).0) && Tree(r2, t2, SecondKind(e1, e2).1)
      ensures ns1 == Nodes(t1) && ns2 == Nodes(t2) && ns1 !! ns2 && fresh(ns1 + ns2 - all)
      decreases Size(e1) + Size(e2), 1, 0
    {
      RootKind(s1, e1);
      RootKind(s2, e2);
      r1, r2, t1, t2, ns1, ns2 := n1, n2, s1, s2, Nodes(s1), Nodes(s2);
      if n1.kind != n2.kind && n2.kind.OPERATION? {
        r1, r2, t1, t2, ns1, ns2 := CancelInPlace(n2.kind.op, n1, n2, s1, s2, e1, e2, all);
      }
    }

    /** Constant folding of both expressions. */
    method FoldBoth(n1: Node, n2: Node, ghost s1: Shape, ghost s2: Shape, ghost e1: Expr, ghost e2: Expr,
                    ghost ns1: set<Node>, ghost ns2: set<Node>)
      returns (r1: Node, r2: Node, ghost t1: Shape, ghost t2: Shape)
      requires Tree(n1, s1, e1) && Tree(n2, s2, e2) && ns1 == Nodes(s1) && ns2 == Nodes(s2) && ns1 !! ns2
      modifies ns1, ns2
      ensures Tree(r1, t1, EliminateYn(e1)) && Tree(r2, t2, EliminateYn(e2)) && Nodes(t1) !! Nodes(t2)
    {
      r1, r2 := n1, n2;
      t1 := EliminateYnInPlace(n1, s1, e1, ns1);
      assert Linked(s2, e2) == old(Linked(s2, e2));
      label Folded:
      t2 := EliminateYnInPlace(n2, s2, e2, ns2);
      assert Linked(t1, EliminateYn(e1)) == old@Folded(Linked(t1, EliminateYn(e1)));
    }

    /** `expr_eq`: works on copies and restores the counter. */
    method EqInPlace(n1: Node, n2: Node, ghost s1: Shape, ghost s2: Shape, ghost e1: Expr, ghost e2: Expr,
                     ghost all: set<Node>)
      returns (eq: bool)
      requires Tree(n1, s1, e1) && Tree(n2, s2, e2) && Nodes(s1) + Nodes(s2) <= all
      modifies this
      ensures eq == Eq(e1, e2) && transCount == old(transCount)
      decreases Size(e1) + Size(e2), 2, 1
    {
      RootKind(s1, e1);
      RootKind(s2, e2);
      if n1.kind != n2.kind {
        return false;
      }
      match n1.kind
      case EQUAL => eq := n1.leftSym == n2.leftSym && n1.rightSym == n2.rightSym;
      case UNEQUAL => eq := n1.leftSym == n2.leftSym && n1.rightSym == n2.rightSym;
      case SYMBOL => eq := n1.leftSym == n2.leftSym;
      case NOT => eq := EqInPlace(n1.left, n2.left, s1.a, s2.a, e1.arg, e2.arg, all);
      case OPERATION(_) => eq := CompareCopies(n1, n2, s1, s2, e1, e2, all);
    }

    /** AND and OR: equal if cancellation leaves the same symbol of both copies. */
    method CompareCopies(n1: Node, n2: Node, ghost s1: Shape, ghost s2: Shape, ghost e1: Expr, ghost e2: Expr,
                         ghost all: set<Node>)
      returns (eq: bool)
      requires Tree(n1, s1, e1) && Tree(n2, s2, e2) && Nodes(s1) + Nodes(s2) <= all
      modifies this
      ensures transCount == old(transCount)
      ensures var r := EliminateEq(e1, e2); eq <==> r.0.Leaf? && r.1.Leaf? && r.0.sym == r.1.sym
      decreases Size(e1) + Size(e2), 2, 0
    {
      var oldCount := transCount;
      var c1, c2;
      ghost var t1, t2, ns1, ns2;
      c1, t1, ns1 := CopyTree(n1, s1, e1, all);
      assert Linked(s2, e2) == old(Linked(s2, e2));
      label First:
      c2, t2, ns2 := CopyTree(n2, s2, e2, all + ns1);
      assert Linked(t1, e1) == old@First(Linked(t1, e1));
      c1, c2, t1, t2 := EliminateEqInPlace(c1, c2, t1, t2, e1, e2, ns1 + ns2);
      RootKind(t1, EliminateEq(e1, e2).0);
      RootKind(t2, EliminateEq(e1, e2).1);
      eq := c1.kind == SYMBOL && c2.kind == SYMBOL && c1.leftSym == c2.leftSym;
      transCount := oldCount;
    }
  }

  lemma SplitSwap(all: set<Node>, a: set<Node>, b: set<Node>, a': set<Node>, b': set<Node>)
    requires Split(all, a, b, a', b')
    ensures Split(all, b, a, b', a') && a' + b' == b' + a'
  {}

  /** A split leaves other nodes alone. */
  lemma SplitClear(n: Node, all: set<Node>, l: set<Node>, r: set<Node>, t: set<Node>, r': set<Node>, t': set<Node>)
    requires {n} + l + r + t <= all && l !! r + t && n !in l + r + t && Split(all, r, t, r', t')
    ensures l !! r' && l !! t' && n !in l + r' + t'
  {
    assert forall x :: x in r' && x in all ==> x in r;
    assert forall x :: x in t' && x in all ==> x in t;
  }

  /** The second step splits r from what the first left of t. */
  lemma SplitWhole(n: Node, all: set<Node>, l: set<Node>, r: set<Node>, t: set<Node>,
                   l': set<Node>, t': set<Node>, r': set<Node>, t'': set<Node>)
    requires {n} + l + r + t <= all && l !! r && n !in l + r && ({n} + l + r) !! t
    requires Split(all, l, t, l', t') && Split(all + l' + t', r, t', r', t'')
    ensures Split(all, {n} + l + r, t, {n} + l' + r', t'')
  {
    assert forall x :: x in l' && x in all ==> x in l;
    assert forall x :: x in t' && x in all ==> x in t;
    assert forall x :: x in r' && x in all + l' + t' ==> x in r;
    assert forall x :: x in t'' && x in all + l' + t' ==> x in t';
  }
}
