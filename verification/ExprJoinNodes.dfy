// Joining two operands and overwriting a place in memory: expr_join_or and
// expr_join_and of scripts/kconfig/expr.c, and what their callers store.
module ExprJoinNodes {

  import opened Options
  import opened Expressions
  import opened ExprPaths
  import opened ExprDuplicates
  import opened ExprNodes
  import opened ExprEqualityNodes
  import opened ExprPlaces

  // ----- Places -----

  /** What the place holds; w is the root. */
  function Load(w: Node, s: Place): Node?
    reads if s.Field? then {s.node} else {}
  {
    if s.Top? then w else if s.right then s.node.right else s.node.left
  }

  lemma {:induction false} LoadIs(op: Op, w: Node, t: Tree, p: Path)
    requires t.node == w && Holds(t) && Leads(op, t, p)
    ensures Load(w, PlaceOf(op, t, p)) == GetTree(op, t, p).node && Holds(GetTree(op, t, p))
    decreases p
  {
    if p.Down? && p.rest.Down? {
      var s := Sub(t, p.right);
      LoadIs(op, s.node, s, p.rest);
    } else if p.Down? {
      assert GetTree(op, t, p) == GetTree(op, Sub(t, p.right), Here) == Sub(t, p.right);
    }
  }

  /** *ep = x */
  method Store(s: Place, x: Node)
    requires s.Field?
    modifies s.node
    ensures s.node.kind == old(s.node.kind)
    ensures s.node.leftSym == old(s.node.leftSym) && s.node.rightSym == old(s.node.rightSym)
    ensures s.node.left == if s.right then old(s.node.left) else x
    ensures s.node.right == if s.right then x else old(s.node.right)
  {
    if s.right {
      s.node.right := x;
    } else {
      s.node.left := x;
    }
  }

  /** An operand is replaced by another expression, made of new nodes. */
  method StoreAt(op: Op, w: Node, s: Place, x: Node, ghost t: Tree, ghost p: Path, ghost u: Tree, ghost all: set<Node>,
                 ghost made: set<Node>)
    returns (ghost r: Tree)
    requires StoredAt(t, w, all) && Leads(op, t, p) && p.Down? && s == PlaceOf(op, t, p)
    requires StoredAt(u, x, made) && made !! all
    modifies NodesOf(t)
    ensures r == SetTree(op, t, p, u) && StoredAt(r, w, NodesOf(t) + made)
  {
    hide Holds, Unshared, NodesOf, Value;
    ghost var h := Snapshot(all);
    SnapshotHolds(all, t);
    PlaceInside(op, t, p);
    TreeNodes(op, t, p, u);
    SetTreeRoot(op, t, p, u);
    Store(s, x);
    ghost var g := Snapshot(all + made);
    SnapshotHolds(all + made, u);
    SetHolds(h, g, op, t, p, u);
    r := SetTree(op, t, p, u);
    SnapshotHolds(all + made, r);
  }

  lemma SetTreeRoot(op: Op, t: Tree, p: Path, x: Tree)
    requires Leads(op, t, p) && p.Down?
    ensures SetTree(op, t, p, x).node == t.node
  {
  }

  // ----- Joining -----

  /** The symbol an operand is about. */
  method SubjectNode(e: Node, first: bool, ghost t: Tree, ghost all: set<Node>) returns (s: Option<Symbol>)
    requires StoredAt(t, e, all)
    ensures s == Subject(Value(t), first)
  {
    match e.kind {
      case ESymbol | EEqual | EUnequal =>
        s := Some(e.leftSym);
      case ENot =>
        var tmp := e.left;
        assert Holds(t.arg);
        if tmp.kind == ESymbol || (first && (tmp.kind == EEqual || tmp.kind == EUnequal)) {
          s := Some(tmp.leftSym);
        } else {
          s := None;
        }
      case _ =>
        s := None;
    }
  }

  /** An operand that is about a symbol, as a value. */
  function LeafOf(e: Node): Expr
    reads e
  {
    if e.kind == EEqual then Equal(e.leftSym, e.rightSym)
    else if e.kind == EUnequal then Unequal(e.leftSym, e.rightSym)
    else Sym(e.leftSym)
  }

  method OperandNode(e: Node, ghost t: Tree, ghost all: set<Node>) returns (v: Expr)
    requires StoredAt(t, e, all) && Subject(Value(t), true).Some?
    ensures v == Value(t)
  {
    if e.kind == ENot {
      assert Holds(t.arg);
      v := Neg(LeafOf(e.left));
    } else {
      v := LeafOf(e);
    }
  }

  /** expr_alloc_symbol and expr_alloc_comp. */
  method Alloc(e: Expr) returns (n: Node, ghost r: Tree)
    requires e.Sym? || e.Equal? || e.Unequal?
    ensures fresh(n) && StoredAt(r, n, {n}) && Value(r) == e
  {
    if e.Sym? {
      n := new Node(ESymbol, e.sym, e.sym, null, null);
    } else {
      n := new Node(if e.Equal? then EEqual else EUnequal, e.lhs, e.rhs, null, null);
    }
    r := Leaf(n, e);
  }

  /** expr_join_or and expr_join_and; the operands stay as they are. */
  method JoinNodes(c: Passes, op: Op, e1: Node, ghost t1: Tree, e2: Node, ghost t2: Tree, ghost all: set<Node>)
    returns (tmp: Node?, ghost r: Tree, ghost made: set<Node>)
    requires Apart(t1, e1, all, t2, e2, all)
    modifies c
    ensures c.transCount == old(c.transCount)
    ensures tmp == null <==> Join(op, Value(t1), Value(t2)).None?
    ensures tmp != null ==> StoredAt(r, tmp, made) && fresh(made) && Join(op, Value(t1), Value(t2)) == Some(Value(r))
  {
    hide Holds, Unshared, NodesOf, Value;
    tmp, r, made := null, t1, {};
    var same := c.EqualNodes(e1, t1, e2, t2, all);
    if same {
      tmp, r, made := Copy(e1, t1, all);
      return;
    }
    var s1 := SubjectNode(e1, true, t1, all);
    var s2 := SubjectNode(e2, false, t2, all);
    if s1.None? || s1 != s2 || !IsTristate(s1.value) {
      return;
    }
    var v1 := OperandNode(e1, t1, all);
    var v2 := OperandNode(e2, t2, all);
    var joined := if op.OpOr? then JoinOr(s1.value, v1, v2) else JoinAnd(s1.value, v1, v2);
    if joined.Some? {
      tmp, r := Alloc(joined.value);
      made := {tmp};
    }
  }
}
