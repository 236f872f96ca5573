// expr_transform of scripts/kconfig/expr.c on the nodes of an expression.
module ExprTransformNodes {

  import opened Expressions
  import opened ExprTransform
  import opened ExprNodes

  /** expr_transform. The result is made of nodes of the expression and new ones; its
      root may be another node than before. */
  method TransformNodes(e: Node, ghost t: Tree, ghost all: set<Node>)
    returns (n: Node, ghost r: Tree, ghost made: set<Node>)
    requires StoredAt(t, e, all)
    modifies NodesOf(t)
    ensures StoredAt(r, n, NodesOf(t) + made) && fresh(made) && Value(r) == Transform(Value(t))
    decreases Weight(Value(t)), 2
  {
    n, r, made := e, t, {};
    match e.kind {
      case ESymbol =>
      case EEqual | EUnequal =>
        r, made := TransformComparison(e, t, all);
      case EOr | EAnd =>
        r, made := TransformTwo(e, t, all);
      case ENot =>
        ghost var a, more;
        e.left, a, made := TransformNodes(e.left, t.arg, all);
        n, r, more := TransformNot(e, a, Value(t.arg), all + made);
        made := made + more;
    }
  }

  method TransformTwo(e: Node, ghost t: Tree, ghost all: set<Node>) returns (ghost r: Tree, ghost made: set<Node>)
    requires StoredAt(t, e, all) && t.Two?
    modifies NodesOf(t)
    ensures StoredAt(r, e, NodesOf(t) + made) && fresh(made)
    ensures Value(r) == Bin(t.op, Transform(Value(t.left)), Transform(Value(t.right)))
    decreases Weight(Value(t)), 0
  {
    ghost var a, more;
    var left;
    left, a, made := TransformNodes(e.left, t.left, all);
    r, more := TransformRight(e, left, t.op, a, t.right, all + made);
    made := made + more;
  }

  method TransformRight(e: Node, left: Node, ghost op: Op, ghost a: Tree, ghost t: Tree, ghost all: set<Node>)
    returns (ghost r: Tree, ghost made: set<Node>)
    requires e.kind == KindOf(op) && e.right == t.node && e in all && e !in NodesOf(a) + NodesOf(t)
    requires StoredAt(a, left, all) && StoredAt(t, t.node, all) && NodesOf(a) !! NodesOf(t)
    modifies {e} + NodesOf(t)
    ensures StoredAt(r, e, {e} + NodesOf(a) + NodesOf(t) + made) && fresh(made)
    ensures Value(r) == Bin(op, Value(a), Transform(Value(t)))
    decreases Weight(Value(t)), 3
  {
    ghost var b;
    var right;
    right, b, made := TransformNodes(e.right, t, all);
    r := SetOperands(e, left, right, op, a, b, all + made);
  }

  /** The cases E_EQUAL and E_UNEQUAL. */
  method TransformComparison(e: Node, ghost t: Tree, ghost all: set<Node>) returns (ghost r: Tree, ghost made: set<Node>)
    requires StoredAt(t, e, all) && (e.kind == EEqual || e.kind == EUnequal)
    modifies e
    ensures StoredAt(r, e, {e} + made) && fresh(made) && Value(r) == Comparison(Value(t))
  {
    r, made := t, {};
    var s, equal := e.leftSym, e.kind == EEqual;
    if !TypeOf(s).Boolean? || (e.rightSym != SYM_NO && e.rightSym != SYM_MOD && e.rightSym != SYM_YES) {
      return;
    }
    if e.rightSym == SYM_MOD {
      e.kind, e.leftSym := ESymbol, if equal then SYM_NO else SYM_YES;
      r := Leaf(e, Sym(e.leftSym));
    } else if equal == (e.rightSym == SYM_YES) {
      e.kind := ESymbol;
      r := Leaf(e, Sym(s));
    } else {
      e.kind := ENot;
      e.left := new Node(ESymbol, s, s, null, null);
      r, made := One(e, Leaf(e.left, Sym(s))), {e.left};
    }
  }

  /** The case E_NOT, the operand being transformed already: it was arg before. */
  method TransformNot(e: Node, ghost a: Tree, ghost arg: Expr, ghost all: set<Node>)
    returns (n: Node, ghost r: Tree, ghost made: set<Node>)
    requires StoredAt(One(e, a), e, all) && Transform(arg) == Value(a)
    modifies NodesOf(One(e, a))
    ensures StoredAt(r, n, {e} + NodesOf(a) + made) && fresh(made) && Value(r) == Transform(Neg(arg))
    decreases Weight(Neg(Value(a))), 1
  {
    var tmp := e.left;
    assert Holds(a) && Unshared(a);
    n, r, made := tmp, One(e, a), {};
    match tmp.kind {
      case ENot =>
        n, r, made := TransformNodes(tmp.left, a.arg, all);
      case EEqual | EUnequal =>
        r := Flip(tmp, a, all);
      case EOr | EAnd =>
        n, r, made := TransformNotTwo(e, a, arg, all);
      case ESymbol =>
        n, r := TransformNotSymbol(e, a, arg);
    }
  }

  method TransformNotTwo(e: Node, ghost a: Tree, ghost arg: Expr, ghost all: set<Node>)
    returns (n: Node, ghost r: Tree, ghost made: set<Node>)
    requires StoredAt(One(e, a), e, all) && Transform(arg) == Value(a) && a.Two?
    modifies NodesOf(One(e, a))
    ensures StoredAt(r, n, {e} + NodesOf(a) + made) && fresh(made) && Value(r) == Transform(Neg(arg))
    decreases Weight(Neg(Value(a))), 0
  {
    hide Holds, Unshared;
    assert e in NodesOf(One(e, a)) && a.node in NodesOf(a) && NodesOf(a) <= NodesOf(One(e, a));
    ghost var u, more;
    u, made := DeMorgan(e, a, all);
    DeMorganLightens(Value(a), a.op, Value(a.left), Value(a.right));
    n, r, more := TransformNodes(e, u, all + made);
    made := made + more;
  }

  method TransformNotSymbol(e: Node, ghost a: Tree, ghost arg: Expr) returns (n: Node, ghost r: Tree)
    requires StoredAt(One(e, a), e, NodesOf(One(e, a))) && a.node.kind == ESymbol
    requires Transform(arg) == Value(a)
    modifies a.node
    ensures StoredAt(r, n, {e} + NodesOf(a)) && Value(r) == Transform(Neg(arg))
  {
    var tmp := e.left;
    assert Holds(a);
    n, r := tmp, One(e, a);
    if tmp.leftSym == SYM_YES {
      r := Become(tmp, SYM_NO);
    } else if tmp.leftSym == SYM_MOD {
      r := Become(tmp, SYM_MOD);
    } else if tmp.leftSym == SYM_NO {
      r := Become(tmp, SYM_YES);
    } else {
      n := e;
    }
  }

  /** A comparison is turned round. */
  method Flip(e: Node, ghost t: Tree, ghost all: set<Node>) returns (ghost r: Tree)
    requires StoredAt(t, e, all) && (e.kind == EEqual || e.kind == EUnequal)
    modifies e
    ensures StoredAt(r, e, {e})
    ensures Value(r) == if Value(t).Equal? then Unequal(Value(t).lhs, Value(t).rhs) else Equal(Value(t).lhs, Value(t).rhs)
  {
    e.kind := if e.kind == EEqual then EUnequal else EEqual;
    r := Leaf(e, if e.kind == EEqual then Equal(e.leftSym, e.rightSym) else Unequal(e.leftSym, e.rightSym));
  }

  /** The negation moves to the two operands: the node of the negation becomes the
      junction, the node of the junction one of the negations, and the other one is new. */
  method DeMorgan(e: Node, ghost a: Tree, ghost all: set<Node>) returns (ghost u: Tree, ghost made: set<Node>)
    requires StoredAt(One(e, a), e, all) && a.Two?
    modifies e, a.node
    ensures StoredAt(u, e, {e} + NodesOf(a) + made) && fresh(made)
    ensures Value(u) == Bin(Dual(a.op), Neg(Value(a.left)), Neg(Value(a.right)))
  {
    var tmp := e.left;
    assert Holds(a) && Unshared(a);
    assert Holds(a.left) && Holds(a.right);
    e.kind := if tmp.kind == EOr then EAnd else EOr;
    e.right := new Node(ENot, tmp.leftSym, tmp.leftSym, tmp.right, null);
    tmp.kind := ENot;
    tmp.right := null;
    made := {e.right};
    u := Two(e, Dual(a.op), One(tmp, a.left), One(e.right, a.right));
  }
}
