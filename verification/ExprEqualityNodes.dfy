// expr_eq, expr_eliminate_eq and expr_extract_eq of scripts/kconfig/expr.c on the
// nodes of two expressions, with the count of changes trans_count. A place that such
// a function overwrites through struct expr ** is a result that its caller stores.
module ExprEqualityNodes {

  import opened Expressions
  import opened ExprEquality
  import opened ExprNodes

  /** Two expressions that share no node. */
  ghost predicate Apart(t1: Tree, n1: Node, all1: set<Node>, t2: Tree, n2: Node, all2: set<Node>)
    reads NodesOf(t1), NodesOf(t2)
  {
    StoredAt(t1, n1, all1) && StoredAt(t2, n2, all2) && NodesOf(t1) !! NodesOf(t2)
  }

  lemma SameKind(op: Op, t: Tree)
    requires Holds(t)
    ensures t.node.kind == KindOf(op) <==> Is(op, Value(t))
    ensures t.node.kind == KindOf(op) ==> t.Two? && t.op == op
  {
  }

  /** The last test of expr_eq. */
  lemma SameSymbol(t1: Tree, t2: Tree)
    requires Holds(t1) && Holds(t2)
    ensures t1.node.kind == ESymbol && t2.node.kind == ESymbol && t1.node.leftSym == t2.node.leftSym <==>
            Value(t1).Sym? && Value(t1) == Value(t2)
  {
  }

  lemma JunctionsEqual(t1: Tree, t2: Tree)
    requires t1.Two? && t2.Two? && t1.op == t2.op
    ensures var (r1, r2) := EliminateEq(Value(t1), Value(t2));
      Eq(Value(t1), Value(t2)) <==> r1.Sym? && r1 == r2
  {
  }

  method EliminateBoth(e1: Node, ghost t1: Tree, e2: Node, ghost t2: Tree, ghost all: set<Node>)
    returns (ghost r1: Tree, ghost r2: Tree)
    requires Apart(t1, e1, all, t2, e2, all)
    modifies NodesOf(t1), NodesOf(t2)
    ensures Apart(r1, e1, NodesOf(t1), r2, e2, NodesOf(t2))
    ensures Value(r1) == EliminateYn(Value(t1)) && Value(r2) == EliminateYn(Value(t2))
  {
    r1 := EliminateConstants(e1, t1, all);
    r2 := EliminateConstants(e2, t2, all);
  }

  /** The operands of one of the expressions are stored; o is the other expression. */
  method Relink(e: Node, left: Node, right: Node, ghost op: Op, ghost a: Tree, ghost b: Tree,
                other: Node, ghost o: Tree, ghost all: set<Node>)
    returns (ghost r: Tree)
    requires e.kind == KindOf(op) && e !in NodesOf(a) + NodesOf(b) + NodesOf(o)
    requires StoredAt(a, left, all) && StoredAt(b, right, all) && StoredAt(o, other, all) && NodesOf(a) !! NodesOf(b)
    modifies e
    ensures r == Two(e, op, a, b) && StoredAt(r, e, {e} + NodesOf(a) + NodesOf(b)) && StoredAt(o, other, all)
    ensures Value(r) == Bin(op, Value(a), Value(b))
  {
    r := SetOperands(e, left, right, op, a, b, all);
  }

  /** expr_alloc_symbol(&symbol_yes) or expr_alloc_symbol(&symbol_no), twice. */
  method Units(op: Op) returns (n1: Node, n2: Node, ghost r1: Tree, ghost r2: Tree, ghost made: set<Node>)
    ensures fresh(made) && Apart(r1, n1, made, r2, n2, made) && Value(r1) == Value(r2) == Unit(op)
  {
    var unit := if op.OpOr? then SYM_NO else SYM_YES;
    n1 := new Node(ESymbol, unit, unit, null, null);
    n2 := new Node(ESymbol, unit, unit, null, null);
    r1, r2, made := Leaf(n1, Unit(op)), Leaf(n2, Unit(op)), {n1, n2};
  }

  class Passes {
    // The static variable trans_count.
    var transCount: nat

    /** __expr_eliminate_eq. */
    method CancelNodes(op: Op, e1: Node, ghost t1: Tree, e2: Node, ghost t2: Tree, ghost all: set<Node>)
      returns (n1: Node, n2: Node, ghost r1: Tree, ghost r2: Tree, ghost made: set<Node>)
      requires Apart(t1, e1, all, t2, e2, all)
      modifies this, NodesOf(t1), NodesOf(t2)
      ensures Apart(r1, n1, NodesOf(t1) + made, r2, n2, NodesOf(t2) + made) && fresh(made)
      ensures (Value(r1), Value(r2)) == Cancel(op, Value(t1), Value(t2))
      decreases Size(Value(t1)) + Size(Value(t2)), if Is(op, Value(t1)) || Is(op, Value(t2)) then 0 else 5, 1
    {
      hide Holds, Unshared, NodesOf, Value;
      SameKind(op, t1);
      SameKind(op, t2);
      if e1.kind == KindOf(op) {
        n1 := e1;
        TwoStored(t1, e1, all);
        n2, r1, r2, made := CancelLeft(op, e1, t1.left, t1.right, e2, t2, all);
      } else if e2.kind == KindOf(op) {
        n2 := e2;
        TwoStored(t2, e2, all);
        n1, r1, r2, made := CancelRight(op, e1, t1, e2, t2.left, t2.right, all);
      } else {
        n1, n2, r1, r2, made := CancelOperands(op, e1, t1, e2, t2, all);
      }
    }

    /** Neither expression is a junction of the type. */
    method CancelOperands(op: Op, e1: Node, ghost t1: Tree, e2: Node, ghost t2: Tree, ghost all: set<Node>)
      returns (n1: Node, n2: Node, ghost r1: Tree, ghost r2: Tree, ghost made: set<Node>)
      requires Apart(t1, e1, all, t2, e2, all) && !Is(op, Value(t1)) && !Is(op, Value(t2))
      modifies this
      ensures Apart(r1, n1, NodesOf(t1) + made, r2, n2, NodesOf(t2) + made) && fresh(made)
      ensures (Value(r1), Value(r2)) == Cancel(op, Value(t1), Value(t2))
      decreases Size(Value(t1)) + Size(Value(t2)), 5, 0
    {
      hide Holds, Unshared, NodesOf, Value;
      n1, n2, r1, r2, made := e1, e2, t1, t2, {};
      var same := SameNodes(e1, t1, e2, t2, all);
      if same {
        transCount := transCount + 1;
        n1, n2, r1, r2, made := Units(op);
      }
    }

    /** The test before the two are replaced: equal, but not the same constant yes or no. */
    method SameNodes(e1: Node, ghost t1: Tree, e2: Node, ghost t2: Tree, ghost all: set<Node>) returns (same: bool)
      requires Apart(t1, e1, all, t2, e2, all)
      modifies this
      ensures transCount == old(transCount)
      ensures same <==> !SameConstant(Value(t1), Value(t2)) && Eq(Value(t1), Value(t2))
      decreases Size(Value(t1)) + Size(Value(t2)), 4, 0
    {
      ConstantNode(t1);
      ConstantNode(t2);
      if e1.kind == ESymbol && e2.kind == ESymbol && e1.leftSym == e2.leftSym &&
         (e1.leftSym == SYM_YES || e1.leftSym == SYM_NO) {
        return false;
      }
      same := EqualNodes(e1, t1, e2, t2, all);
    }

    /** expr_eq leaves its arguments and trans_count alone. */
    method EqualNodes(e1: Node, ghost t1: Tree, e2: Node, ghost t2: Tree, ghost all: set<Node>) returns (res: bool)
      requires Apart(t1, e1, all, t2, e2, all)
      modifies this
      ensures transCount == old(transCount)
      ensures res == Eq(Value(t1), Value(t2))
      decreases Size(Value(t1)) + Size(Value(t2)), 3, 0
    {
      if e1.kind != e2.kind {
        return false;
      }
      match e1.kind {
        case EEqual | EUnequal =>
          res := e1.leftSym == e2.leftSym && e1.rightSym == e2.rightSym;
        case ESymbol =>
          res := e1.leftSym == e2.leftSym;
        case ENot =>
          res := EqualNodes(e1.left, t1.arg, e2.left, t2.arg, all);
        case EOr | EAnd =>
          res := EqualCopies(e1, t1, e2, t2, all);
      }
    }

    /** The branches E_OR and E_AND: what is overwritten are copies. */
    method EqualCopies(e1: Node, ghost t1: Tree, e2: Node, ghost t2: Tree, ghost all: set<Node>) returns (res: bool)
      requires Apart(t1, e1, all, t2, e2, all) && t1.Two? && t2.Two? && t1.op == t2.op
      modifies this
      ensures transCount == old(transCount)
      ensures res == Eq(Value(t1), Value(t2))
      decreases Size(Value(t1)) + Size(Value(t2)), 2, 0
    {
      hide Holds, Unshared, NodesOf, Value, Eq, EliminateEq;
      ghost var a, b, made, more, u, v;
      var c1, c2;
      c1, a, made := Copy(e1, t1, all);
      c2, b, more := Copy(e2, t2, all);
      var oldCount := transCount;
      c1, c2, u, v, made := EliminateEqNodes(c1, a, c2, b, made + more);
      SameSymbol(u, v);
      JunctionsEqual(t1, t2);
      res := c1.kind == ESymbol && c2.kind == ESymbol && c1.leftSym == c2.leftSym;
      transCount := oldCount;
    }

    /** expr_eliminate_eq. */
    method EliminateEqNodes(e1: Node, ghost t1: Tree, e2: Node, ghost t2: Tree, ghost all: set<Node>)
      returns (n1: Node, n2: Node, ghost r1: Tree, ghost r2: Tree, ghost made: set<Node>)
      requires Apart(t1, e1, all, t2, e2, all)
      modifies this, NodesOf(t1), NodesOf(t2)
      ensures Apart(r1, n1, NodesOf(t1) + made, r2, n2, NodesOf(t2) + made) && fresh(made)
      ensures (Value(r1), Value(r2)) == EliminateEq(Value(t1), Value(t2))
      decreases Size(Value(t1)) + Size(Value(t2)), 1, 0
    {
      hide Holds, Unshared, NodesOf, Value;
      ghost var more;
      n1, n2, r1, r2, made := CancelFirst(e1, t1, e2, t2, all);
      n1, n2, r1, r2, more := EliminateEqRest(n1, r1, n2, r2, all + made);
      made := made + more;
    }

    method EliminateEqRest(e1: Node, ghost t1: Tree, e2: Node, ghost t2: Tree, ghost all: set<Node>)
      returns (n1: Node, n2: Node, ghost r1: Tree, ghost r2: Tree, ghost made: set<Node>)
      requires Apart(t1, e1, all, t2, e2, all)
      modifies this, NodesOf(t1), NodesOf(t2)
      ensures Apart(r1, n1, NodesOf(t1) + made, r2, n2, NodesOf(t2) + made) && fresh(made)
      ensures var (a1, a2) := (Value(t1), Value(t2));
        var (b1, b2) := if a2.Bin? && !Is(a2.op, a1) then Cancel(a2.op, a1, a2) else (a1, a2);
        Value(r1) == EliminateYn(b1) && Value(r2) == EliminateYn(b2)
      decreases Size(Value(t1)) + Size(Value(t2)), 0, 3
    {
      n1, n2, r1, r2, made := CancelSecond(e1, t1, e2, t2, all);
      r1, r2 := EliminateBoth(n1, r1, n2, r2, all + made);
    }

    method CancelFirst(e1: Node, ghost t1: Tree, e2: Node, ghost t2: Tree, ghost all: set<Node>)
      returns (n1: Node, n2: Node, ghost r1: Tree, ghost r2: Tree, ghost made: set<Node>)
      requires Apart(t1, e1, all, t2, e2, all)
      modifies this, NodesOf(t1), NodesOf(t2)
      ensures Apart(r1, n1, NodesOf(t1) + made, r2, n2, NodesOf(t2) + made) && fresh(made)
      ensures var e := Value(t1);
        (Value(r1), Value(r2)) == if e.Bin? then Cancel(e.op, e, Value(t2)) else (e, Value(t2))
      decreases Size(Value(t1)) + Size(Value(t2)), 0, 2
    {
      n1, n2, r1, r2, made := e1, e2, t1, t2, {};
      if e1.kind == EOr {
        n1, n2, r1, r2, made := CancelNodes(OpOr, e1, t1, e2, t2, all);
      } else if e1.kind == EAnd {
        n1, n2, r1, r2, made := CancelNodes(OpAnd, e1, t1, e2, t2, all);
      }
    }

    method CancelSecond(e1: Node, ghost t1: Tree, e2: Node, ghost t2: Tree, ghost all: set<Node>)
      returns (n1: Node, n2: Node, ghost r1: Tree, ghost r2: Tree, ghost made: set<Node>)
      requires Apart(t1, e1, all, t2, e2, all)
      modifies this, NodesOf(t1), NodesOf(t2)
      ensures Apart(r1, n1, NodesOf(t1) + made, r2, n2, NodesOf(t2) + made) && fresh(made)
      ensures var e := Value(t2);
        (Value(r1), Value(r2)) ==
          if e.Bin? && !Is(e.op, Value(t1)) then Cancel(e.op, Value(t1), e) else (Value(t1), e)
      decreases Size(Value(t1)) + Size(Value(t2)), 0, 2
    {
      n1, n2, r1, r2, made := e1, e2, t1, t2, {};
      if e1.kind != e2.kind && e2.kind == EOr {
        n1, n2, r1, r2, made := CancelNodes(OpOr, e1, t1, e2, t2, all);
      } else if e1.kind != e2.kind && e2.kind == EAnd {
        n1, n2, r1, r2, made := CancelNodes(OpAnd, e1, t1, e2, t2, all);
      }
    }

    /** The first expression is a junction of the type, of the operands a1 and b1. */
    method CancelLeft(op: Op, e1: Node, ghost a1: Tree, ghost b1: Tree, e2: Node, ghost t2: Tree, ghost all: set<Node>)
      returns (n2: Node, ghost r1: Tree, ghost r2: Tree, ghost made: set<Node>)
      requires e1.kind == KindOf(op) && e1 in all && e1 !in NodesOf(a1) + NodesOf(b1) + NodesOf(t2)
      requires e1.left == a1.node && e1.right == b1.node && NodesOf(a1) !! NodesOf(b1)
      requires Apart(a1, a1.node, all, t2, e2, all) && Apart(b1, b1.node, all, t2, e2, all)
      modifies this, e1, NodesOf(a1), NodesOf(b1), NodesOf(t2)
      ensures Apart(r1, e1, {e1} + NodesOf(a1) + NodesOf(b1) + made, r2, n2, NodesOf(t2) + made) && fresh(made)
      ensures var c := Cancel(op, Value(a1), Value(t2));
        var d := Cancel(op, Value(b1), c.1);
        Value(r1) == Bin(op, c.0, d.0) && Value(r2) == d.1
      decreases 1 + Size(Value(a1)) + Size(Value(b1)) + Size(Value(t2)), 0, 0
    {
      hide Holds, Unshared, NodesOf, Value;
      ghost var a, more;
      var left;
      left, n2, a, r2, made := CancelNodes(op, e1.left, a1, e2, t2, all);
      n2, r1, r2, more := CancelLeftRest(op, e1, left, a, b1, n2, r2, all + made);
      made := made + more;
    }

    method CancelLeftRest(op: Op, e1: Node, left: Node, ghost a: Tree, ghost t1: Tree, e2: Node, ghost t2: Tree,
                          ghost all: set<Node>)
      returns (n2: Node, ghost r1: Tree, ghost r2: Tree, ghost made: set<Node>)
      requires e1.kind == KindOf(op) && e1.right == t1.node && e1 in all && e1 !in NodesOf(a) + NodesOf(t1) + NodesOf(t2)
      requires StoredAt(a, left, all) && Apart(t1, t1.node, all, t2, e2, all) && NodesOf(a) !! NodesOf(t1) + NodesOf(t2)
      modifies this, e1, NodesOf(t1), NodesOf(t2)
      ensures Apart(r1, e1, {e1} + NodesOf(a) + NodesOf(t1) + made, r2, n2, NodesOf(t2) + made) && fresh(made)
      ensures var c := Cancel(op, Value(t1), Value(t2)); Value(r1) == Bin(op, Value(a), c.0) && Value(r2) == c.1
      decreases Size(Value(t1)) + Size(Value(t2)), 6, 0
    {
      hide Holds, Unshared, NodesOf, Value;
      ghost var b;
      var right;
      right, n2, b, r2, made := CancelNodes(op, e1.right, t1, e2, t2, all);
      r1 := Relink(e1, left, right, op, a, b, n2, r2, all + made);
    }

    /** The second expression is a junction of the type, of the operands a2 and b2. */
    method CancelRight(op: Op, e1: Node, ghost t1: Tree, e2: Node, ghost a2: Tree, ghost b2: Tree, ghost all: set<Node>)
      returns (n1: Node, ghost r1: Tree, ghost r2: Tree, ghost made: set<Node>)
      requires e2.kind == KindOf(op) && e2 in all && e2 !in NodesOf(a2) + NodesOf(b2) + NodesOf(t1)
      requires e2.left == a2.node && e2.right == b2.node && NodesOf(a2) !! NodesOf(b2)
      requires Apart(t1, e1, all, a2, a2.node, all) && Apart(t1, e1, all, b2, b2.node, all)
      modifies this, e2, NodesOf(t1), NodesOf(a2), NodesOf(b2)
      ensures Apart(r1, n1, NodesOf(t1) + made, r2, e2, {e2} + NodesOf(a2) + NodesOf(b2) + made) && fresh(made)
      ensures var c := Cancel(op, Value(t1), Value(a2));
        var d := Cancel(op, c.0, Value(b2));
        Value(r1) == d.0 && Value(r2) == Bin(op, c.1, d.1)
      decreases 1 + Size(Value(t1)) + Size(Value(a2)) + Size(Value(b2)), 0, 0
    {
      hide Holds, Unshared, NodesOf, Value;
      ghost var a, more;
      var left;
      n1, left, r1, a, made := CancelNodes(op, e1, t1, e2.left, a2, all);
      n1, r1, r2, more := CancelRightRest(op, n1, r1, e2, left, a, b2, all + made);
      made := made + more;
    }

    method CancelRightRest(op: Op, e1: Node, ghost t1: Tree, e2: Node, left: Node, ghost a: Tree, ghost t2: Tree,
                           ghost all: set<Node>)
      returns (n1: Node, ghost r1: Tree, ghost r2: Tree, ghost made: set<Node>)
      requires e2.kind == KindOf(op) && e2.right == t2.node && e2 in all && e2 !in NodesOf(a) + NodesOf(t1) + NodesOf(t2)
      requires StoredAt(a, left, all) && Apart(t1, e1, all, t2, t2.node, all) && NodesOf(a) !! NodesOf(t1) + NodesOf(t2)
      modifies this, e2, NodesOf(t1), NodesOf(t2)
      ensures Apart(r1, n1, NodesOf(t1) + made, r2, e2, {e2} + NodesOf(a) + NodesOf(t2) + made) && fresh(made)
      ensures var c := Cancel(op, Value(t1), Value(t2)); Value(r1) == c.0 && Value(r2) == Bin(op, Value(a), c.1)
      decreases Size(Value(t1)) + Size(Value(t2)), 6, 0
    {
      hide Holds, Unshared, NodesOf, Value;
      ghost var b;
      var right;
      n1, right, r1, b, made := CancelNodes(op, e1, t1, e2.right, t2, all);
      r2 := Relink(e2, left, right, op, a, b, n1, r1, all + made);
    }
  }
}
