// expr_extract_eq of scripts/kconfig/expr.c on the nodes of two expressions and of the
// factor that their common operands are moved to.
module ExprExtractNodes {

  import opened Options
  import opened Expressions
  import opened ExprEquality
  import opened ExprNodes
  import opened ExprEqualityNodes

  // ----- The factor found so far, if there is one -----

  ghost function FactorNodes(tf: Option<Tree>): set<Node> {
    if tf.Some? then NodesOf(tf.value) else {}
  }

  ghost function FactorExpr(tf: Option<Tree>): Option<Expr> {
    if tf.Some? then Some(Value(tf.value)) else None
  }

  ghost predicate FactorAt(tf: Option<Tree>, f: Node?)
    reads FactorNodes(tf)
  {
    if tf.Some? then f != null && StoredAt(tf.value, f, NodesOf(tf.value)) else f == null
  }

  /** The factor and two expressions, which share no node. */
  ghost predicate ThreeApart(tf: Option<Tree>, f: Node?, all: set<Node>, t1: Tree, n1: Node, all1: set<Node>,
                             t2: Tree, n2: Node, all2: set<Node>)
    reads FactorNodes(tf), NodesOf(t1), NodesOf(t2)
  {
    && FactorAt(tf, f) && FactorNodes(tf) <= all && Apart(t1, n1, all1, t2, n2, all2)
    && FactorNodes(tf) !! NodesOf(t1) && FactorNodes(tf) !! NodesOf(t2)
  }

  /** expr_extract_eq. The factor takes in nodes of the first expression. */
  method ExtractNodes(c: Passes, op: Op, f: Node?, ghost tf: Option<Tree>, e1: Node, ghost t1: Tree,
                      e2: Node, ghost t2: Tree, ghost all: set<Node>)
    returns (g: Node?, n1: Node, n2: Node, ghost rf: Option<Tree>, ghost r1: Tree, ghost r2: Tree, ghost made: set<Node>)
    requires ThreeApart(tf, f, all, t1, e1, all, t2, e2, all)
    modifies c, NodesOf(t1), NodesOf(t2)
    ensures fresh(made) && c.transCount == old(c.transCount)
    ensures ThreeApart(rf, g, FactorNodes(tf) + NodesOf(t1) + made, r1, n1, NodesOf(t1) + made, r2, n2, NodesOf(t2) + made)
    ensures (FactorExpr(rf), Value(r1), Value(r2)) == ExtractEq(op, FactorExpr(tf), Value(t1), Value(t2))
    decreases Size(Value(t1)) + Size(Value(t2)), 1
  {
    hide Holds, Unshared, NodesOf, Value;
    SameKind(op, t1);
    SameKind(op, t2);
    if e1.kind == KindOf(op) {
      n1 := e1;
      TwoStored(t1, e1, all);
      g, n2, rf, r1, r2, made := ExtractLeft(c, op, f, tf, e1, t1.left, t1.right, e2, t2, all);
    } else if e2.kind == KindOf(op) {
      n2 := e2;
      TwoStored(t2, e2, all);
      g, n1, rf, r1, r2, made := ExtractRight(c, op, f, tf, e1, t1, e2, t2.left, t2.right, all);
    } else {
      g, n1, n2, rf, r1, r2, made := ExtractOperands(c, op, f, tf, e1, t1, e2, t2, all);
    }
  }

  /** Neither expression is a junction of the type: equal ones move. */
  method ExtractOperands(c: Passes, op: Op, f: Node?, ghost tf: Option<Tree>, e1: Node, ghost t1: Tree,
                         e2: Node, ghost t2: Tree, ghost all: set<Node>)
    returns (g: Node?, n1: Node, n2: Node, ghost rf: Option<Tree>, ghost r1: Tree, ghost r2: Tree, ghost made: set<Node>)
    requires ThreeApart(tf, f, all, t1, e1, all, t2, e2, all) && !Is(op, Value(t1)) && !Is(op, Value(t2))
    modifies c
    ensures fresh(made) && c.transCount == old(c.transCount)
    ensures ThreeApart(rf, g, FactorNodes(tf) + NodesOf(t1) + made, r1, n1, NodesOf(t1) + made, r2, n2, NodesOf(t2) + made)
    ensures (FactorExpr(rf), Value(r1), Value(r2)) == ExtractEq(op, FactorExpr(tf), Value(t1), Value(t2))
  {
    hide Holds, Unshared, NodesOf, Value, FactorAt, FactorNodes, Size;
    g, n1, n2, rf, r1, r2, made := f, e1, e2, tf, t1, t2, {};
    var same := c.EqualNodes(e1, t1, e2, t2, all);
    if same {
      ghost var more;
      g, rf, made := MoveToFactor(op, f, tf, e1, t1, all);
      n1, n2, r1, r2, more := Units(op);
      made := made + more;
    }
  }

  /** The factor takes in an operand. */
  method MoveToFactor(op: Op, f: Node?, ghost tf: Option<Tree>, e: Node, ghost t: Tree, ghost all: set<Node>)
    returns (g: Node, ghost rf: Option<Tree>, ghost made: set<Node>)
    requires FactorAt(tf, f) && FactorNodes(tf) <= all && StoredAt(t, e, all) && FactorNodes(tf) !! NodesOf(t)
    ensures fresh(made) && FactorAt(rf, g) && FactorNodes(rf) <= FactorNodes(tf) + NodesOf(t) + made
    ensures FactorExpr(rf) == Some(if tf.Some? then Bin(op, Value(tf.value), Value(t)) else Value(t))
  {
    hide Holds, Unshared, NodesOf, Value;
    g, rf, made := e, Some(t), {};
    if f != null {
      g := new Node(KindOf(op), SYM_NO, SYM_NO, f, e);
      made := {g};
      rf := Some(Two(g, op, tf.value, t));
      TwoJoined(g, op, tf.value, t, NodesOf(tf.value) + NodesOf(t) + made);
    }
  }

  /** The first expression is a junction of the type. */
  method ExtractLeft(c: Passes, op: Op, f: Node?, ghost tf: Option<Tree>, e1: Node, ghost a1: Tree, ghost b1: Tree,
                     e2: Node, ghost t2: Tree, ghost all: set<Node>)
    returns (g: Node?, n2: Node, ghost rf: Option<Tree>, ghost r1: Tree, ghost r2: Tree, ghost made: set<Node>)
    requires e1.kind == KindOf(op) && e1 in all && e1 !in NodesOf(a1) + NodesOf(b1) + NodesOf(t2) + FactorNodes(tf)
    requires e1.left == a1.node && e1.right == b1.node && NodesOf(a1) !! NodesOf(b1)
    requires ThreeApart(tf, f, all, a1, a1.node, all, t2, e2, all)
    requires ThreeApart(tf, f, all, b1, b1.node, all, t2, e2, all)
    modifies c, e1, NodesOf(a1), NodesOf(b1), NodesOf(t2)
    ensures fresh(made) && c.transCount == old(c.transCount)
    ensures var s := {e1} + NodesOf(a1) + NodesOf(b1) + made;
      ThreeApart(rf, g, FactorNodes(tf) + s, r1, e1, s, r2, n2, NodesOf(t2) + made)
    ensures var x := ExtractEq(op, FactorExpr(tf), Value(a1), Value(t2));
      var y := ExtractEq(op, x.0, Value(b1), x.2);
      (FactorExpr(rf), Value(r1), Value(r2)) == (y.0, Bin(op, x.1, y.1), y.2)
    decreases 1 + Size(Value(a1)) + Size(Value(b1)) + Size(Value(t2)), 0
  {
    hide Holds, Unshared, NodesOf, Value, FactorAt, FactorNodes, FactorExpr, ExtractEq, Size;
    ghost var a, more;
    var left;
    g, left, n2, rf, a, r2, made := ExtractNodes(c, op, f, tf, e1.left, a1, e2, t2, all);
    g, n2, rf, r1, r2, more := ExtractLeftRest(c, op, g, rf, e1, left, a, b1, n2, r2, all + made);
    made := made + more;
  }

  method ExtractLeftRest(c: Passes, op: Op, f: Node?, ghost tf: Option<Tree>, e1: Node, left: Node, ghost a: Tree,
                         ghost t1: Tree, e2: Node, ghost t2: Tree, ghost all: set<Node>)
    returns (g: Node?, n2: Node, ghost rf: Option<Tree>, ghost r1: Tree, ghost r2: Tree, ghost made: set<Node>)
    requires e1.kind == KindOf(op) && e1.right == t1.node && e1 in all
    requires e1 !in NodesOf(a) + NodesOf(t1) + NodesOf(t2) + FactorNodes(tf)
    requires StoredAt(a, left, all) && ThreeApart(tf, f, all, t1, t1.node, all, t2, e2, all)
    requires NodesOf(a) !! NodesOf(t1) + NodesOf(t2) + FactorNodes(tf)
    modifies c, e1, NodesOf(t1), NodesOf(t2)
    ensures fresh(made) && c.transCount == old(c.transCount)
    ensures var s := {e1} + NodesOf(a) + NodesOf(t1) + made;
      ThreeApart(rf, g, FactorNodes(tf) + NodesOf(t1) + made, r1, e1, s, r2, n2, NodesOf(t2) + made)
    ensures var y := ExtractEq(op, FactorExpr(tf), Value(t1), Value(t2));
      (FactorExpr(rf), Value(r1), Value(r2)) == (y.0, Bin(op, Value(a), y.1), y.2)
    decreases Size(Value(t1)) + Size(Value(t2)), 2
  {
    hide Holds, Unshared, NodesOf, Value, FactorAt, FactorNodes, FactorExpr, ExtractEq, Size;
    ghost var b;
    var right;
    g, right, n2, rf, b, r2, made := ExtractNodes(c, op, f, tf, e1.right, t1, e2, t2, all);
    r1 := Relink(e1, left, right, op, a, b, n2, r2, all + made);
  }

  /** The second expression is a junction of the type. */
  method ExtractRight(c: Passes, op: Op, f: Node?, ghost tf: Option<Tree>, e1: Node, ghost t1: Tree,
                      e2: Node, ghost a2: Tree, ghost b2: Tree, ghost all: set<Node>)
    returns (g: Node?, n1: Node, ghost rf: Option<Tree>, ghost r1: Tree, ghost r2: Tree, ghost made: set<Node>)
    requires e2.kind == KindOf(op) && e2 in all && e2 !in NodesOf(a2) + NodesOf(b2) + NodesOf(t1) + FactorNodes(tf)
    requires e2.left == a2.node && e2.right == b2.node && NodesOf(a2) !! NodesOf(b2)
    requires ThreeApart(tf, f, all, t1, e1, all, a2, a2.node, all)
    requires ThreeApart(tf, f, all, t1, e1, all, b2, b2.node, all)
    modifies c, e2, NodesOf(t1), NodesOf(a2), NodesOf(b2)
    ensures fresh(made) && c.transCount == old(c.transCount)
    ensures var s := {e2} + NodesOf(a2) + NodesOf(b2) + made;
      ThreeApart(rf, g, FactorNodes(tf) + NodesOf(t1) + made, r1, n1, NodesOf(t1) + made, r2, e2, s)
    ensures var x := ExtractEq(op, FactorExpr(tf), Value(t1), Value(a2));
      var y := ExtractEq(op, x.0, x.1, Value(b2));
      (FactorExpr(rf), Value(r1), Value(r2)) == (y.0, y.1, Bin(op, x.2, y.2))
    decreases 1 + Size(Value(t1)) + Size(Value(a2)) + Size(Value(b2)), 0
  {
    hide Holds, Unshared, NodesOf, Value, FactorAt, FactorNodes, FactorExpr, ExtractEq, Size;
    ghost var a, more;
    var left;
    g, n1, left, rf, r1, a, made := ExtractNodes(c, op, f, tf, e1, t1, e2.left, a2, all);
    g, n1, rf, r1, r2, more := ExtractRightRest(c, op, g, rf, n1, r1, e2, left, a, b2, all + made);
    made := made + more;
  }

  method ExtractRightRest(c: Passes, op: Op, f: Node?, ghost tf: Option<Tree>, e1: Node, ghost t1: Tree,
                          e2: Node, left: Node, ghost a: Tree, ghost t2: Tree, ghost all: set<Node>)
    returns (g: Node?, n1: Node, ghost rf: Option<Tree>, ghost r1: Tree, ghost r2: Tree, ghost made: set<Node>)
    requires e2.kind == KindOf(op) && e2.right == t2.node && e2 in all
    requires e2 !in NodesOf(a) + NodesOf(t1) + NodesOf(t2) + FactorNodes(tf)
    requires StoredAt(a, left, all) && ThreeApart(tf, f, all, t1, e1, all, t2, t2.node, all)
    requires NodesOf(a) !! NodesOf(t1) + NodesOf(t2) + FactorNodes(tf)
    modifies c, e2, NodesOf(t1), NodesOf(t2)
    ensures fresh(made) && c.transCount == old(c.transCount)
    ensures var s := {e2} + NodesOf(a) + NodesOf(t2) + made;
      ThreeApart(rf, g, FactorNodes(tf) + NodesOf(t1) + made, r1, n1, NodesOf(t1) + made, r2, e2, s)
    ensures var y := ExtractEq(op, FactorExpr(tf), Value(t1), Value(t2));
      (FactorExpr(rf), Value(r1), Value(r2)) == (y.0, y.1, Bin(op, Value(a), y.2))
    decreases Size(Value(t1)) + Size(Value(t2)), 2
  {
    hide Holds, Unshared, NodesOf, Value, FactorAt, FactorNodes, FactorExpr, ExtractEq, Size;
    ghost var b;
    var right;
    g, n1, right, rf, r1, b, made := ExtractNodes(c, op, f, tf, e1, t1, e2.right, t2, all);
    r2 := Relink(e2, left, right, op, a, b, n1, r1, all + made);
  }

  /** expr_extract_eq_and and expr_extract_eq_or. */
  method ExtractCommon(c: Passes, op: Op, e1: Node, ghost t1: Tree, e2: Node, ghost t2: Tree, ghost all: set<Node>)
    returns (tmp: Node?, n1: Node, n2: Node, ghost rf: Option<Tree>, ghost r1: Tree, ghost r2: Tree, ghost made: set<Node>)
    requires Apart(t1, e1, all, t2, e2, all)
    modifies c, NodesOf(t1), NodesOf(t2)
    ensures fresh(made) && c.transCount == old(c.transCount)
    ensures ThreeApart(rf, tmp, NodesOf(t1) + made, r1, n1, NodesOf(t1) + made, r2, n2, NodesOf(t2) + made)
    ensures (FactorExpr(rf), Value(r1), Value(r2)) == Extract(op, Value(t1), Value(t2))
  {
    hide Holds, Unshared, NodesOf, Value, Size;
    tmp, n1, n2, rf, r1, r2, made := ExtractNodes(c, op, null, None, e1, t1, e2, t2, all);
    if tmp != null {
      r1, r2 := EliminateBoth(n1, r1, n2, r2, all + made);
    }
  }
}
