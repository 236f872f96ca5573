// Expressions in memory, as the passes of scripts/kconfig/expr.c overwrite them node
// by node: expr_copy, expr_eliminate_yn and expr_trans_bool.
module ExprNodes {

  import opened Expressions
  import opened ExprEquality
  import opened ExprTransform

  datatype Kind = ESymbol | EEqual | EUnequal | ENot | EOr | EAnd

  /** struct expr; each of its two unions is a symbol or a pointer, as the type says. */
  class Node {
    var kind: Kind
    var leftSym: Symbol
    var rightSym: Symbol
    var left: Node?
    var right: Node?

    constructor (kind: Kind, leftSym: Symbol, rightSym: Symbol, left: Node?, right: Node?)
      ensures this.kind == kind && this.leftSym == leftSym && this.rightSym == rightSym
      ensures this.left == left && this.right == right
    {
      this.kind, this.leftSym, this.rightSym, this.left, this.right := kind, leftSym, rightSym, left, right;
    }

    /** *e = *x */
    method CopyFrom(x: Node)
      modifies this
      ensures kind == old(x.kind) && leftSym == old(x.leftSym) && rightSym == old(x.rightSym)
      ensures left == old(x.left) && right == old(x.right)
    {
      kind, leftSym, rightSym, left, right := x.kind, x.leftSym, x.rightSym, x.left, x.right;
    }
  }

  function KindOf(op: Op): Kind {
    if op.OpOr? then EOr else EAnd
  }

  // ----- Which nodes make up an expression -----

  datatype Tree =
    | Leaf(node: Node, expr: Expr)
    | One(node: Node, arg: Tree)
    | Two(node: Node, op: Op, left: Tree, right: Tree)

  ghost function Value(t: Tree): Expr {
    match t
    case Leaf(_, e) => e
    case One(_, a) => Neg(Value(a))
    case Two(_, op, l, r) => Bin(op, Value(l), Value(r))
  }

  ghost function NodesOf(t: Tree): set<Node> {
    match t
    case Leaf(n, _) => {n}
    case One(n, a) => {n} + NodesOf(a)
    case Two(n, _, l, r) => {n} + NodesOf(l) + NodesOf(r)
  }

  /** No node is shared. */
  ghost predicate Unshared(t: Tree) {
    match t
    case Leaf(_, e) => true
    case One(n, a) => n !in NodesOf(a) && Unshared(a)
    case Two(n, _, l, r) =>
      n !in NodesOf(l) && n !in NodesOf(r) && NodesOf(l) !! NodesOf(r) && Unshared(l) && Unshared(r)
  }

  /** The fields of the nodes are as the tree says. */
  ghost predicate Holds(t: Tree)
    reads NodesOf(t)
  {
    match t
    case Leaf(n, e) =>
      (match e
       case Sym(s) => n.kind == ESymbol && n.leftSym == s
       case Equal(l, r) => n.kind == EEqual && n.leftSym == l && n.rightSym == r
       case Unequal(l, r) => n.kind == EUnequal && n.leftSym == l && n.rightSym == r
       case _ => false)
    case One(n, a) => n.kind == ENot && n.left == a.node && Holds(a)
    case Two(n, op, l, r) =>
      n.kind == KindOf(op) && n.left == l.node && n.right == r.node && Holds(l) && Holds(r)
  }

  /** The expression e, in the nodes of the set all. */
  ghost predicate StoredAt(t: Tree, n: Node, all: set<Node>)
    reads NodesOf(t)
  {
    t.node == n && Holds(t) && Unshared(t) && NodesOf(t) <= all
  }

  // ----- The passes -----

  /** The node n takes the place of the root. */
  ghost function Rerooted(t: Tree, n: Node): Tree {
    t.(node := n)
  }

  lemma RerootedValue(t: Tree, n: Node)
    ensures Value(Rerooted(t, n)) == Value(t)
    ensures NodesOf(Rerooted(t, n)) <= {n} + NodesOf(t)
    ensures Unshared(t) && n !in NodesOf(t) ==> Unshared(Rerooted(t, n))
  {
  }

  lemma TwoStored(t: Tree, n: Node, all: set<Node>)
    requires StoredAt(t, n, all) && t.Two?
    ensures n.kind == KindOf(t.op) && n.left == t.left.node && n.right == t.right.node
    ensures StoredAt(t.left, t.left.node, all) && StoredAt(t.right, t.right.node, all)
    ensures n in all && n !in NodesOf(t.left) && n !in NodesOf(t.right) && NodesOf(t.left) !! NodesOf(t.right)
    ensures NodesOf(t) == {n} + NodesOf(t.left) + NodesOf(t.right)
    ensures Value(t) == Bin(t.op, Value(t.left), Value(t.right))
  {
  }

  lemma TwoJoined(n: Node, op: Op, a: Tree, b: Tree, all: set<Node>)
    requires n.kind == KindOf(op) && n.left == a.node && n.right == b.node
    requires StoredAt(a, a.node, all) && StoredAt(b, b.node, all)
    requires n in all && n !in NodesOf(a) && n !in NodesOf(b) && NodesOf(a) !! NodesOf(b)
    ensures StoredAt(Two(n, op, a, b), n, all)
    ensures Value(Two(n, op, a, b)) == Bin(op, Value(a), Value(b))
  {
  }

  /** expr_copy. The copy consists of new nodes. */
  method Copy(org: Node, ghost t: Tree, ghost all: set<Node>) returns (e: Node, ghost r: Tree, ghost made: set<Node>)
    requires StoredAt(t, org, all)
    ensures StoredAt(r, e, made) && fresh(made) && Value(r) == Value(t)
    decreases t, 1
  {
    match org.kind {
      case ENot =>
        var left;
        ghost var a;
        left, a, made := Copy(org.left, t.arg, all);
        e := new Node(org.kind, org.leftSym, org.rightSym, left, null);
        r, made := One(e, a), made + {e};
      case EOr | EAnd =>
        e, r, made := CopyTwo(org, t, all);
      case _ =>
        e := new Node(org.kind, org.leftSym, org.rightSym, null, null);
        r, made := Leaf(e, t.expr), {e};
    }
  }

  method CopyTwo(org: Node, ghost t: Tree, ghost all: set<Node>) returns (e: Node, ghost r: Tree, ghost made: set<Node>)
    requires StoredAt(t, org, all) && t.Two?
    ensures StoredAt(r, e, made) && fresh(made) && Value(r) == Value(t)
    decreases t, 0
  {
    hide Holds, Unshared, NodesOf, Value;
    TwoStored(t, org, all);
    ghost var a, b, more;
    var left, right;
    left, a, made := Copy(org.left, t.left, all);
    right, b, more := Copy(org.right, t.right, all);
    e := new Node(org.kind, org.leftSym, org.rightSym, null, null);
    r := SetOperands(e, left, right, t.op, a, b, made + more);
    made := made + more + {e};
  }

  /** expr_trans_bool. */
  method TransformBool(e: Node, ghost t: Tree, ghost all: set<Node>) returns (ghost r: Tree)
    requires StoredAt(t, e, all)
    modifies NodesOf(t)
    ensures StoredAt(r, e, NodesOf(t)) && Value(r) == TransBool(Value(t))
    decreases t, 1
  {
    match e.kind {
      case ENot =>
        ghost var a := TransformBool(e.left, t.arg, all);
        r := One(e, a);
      case EOr | EAnd =>
        r := TransformBoolTwo(e, t, all);
      case EUnequal =>
        r := t;
        if TypeOf(e.leftSym).Tri? && e.rightSym == SYM_NO {
          e.kind := ESymbol;
          r := Leaf(e, Sym(e.leftSym));
        }
      case _ =>
        r := t;
    }
  }

  method TransformBoolTwo(e: Node, ghost t: Tree, ghost all: set<Node>) returns (ghost r: Tree)
    requires StoredAt(t, e, all) && t.Two?
    modifies NodesOf(t)
    ensures StoredAt(r, e, NodesOf(t)) && Value(r) == TransBool(Value(t))
    decreases t, 0
  {
    hide Holds, Unshared, NodesOf, Value;
    TwoStored(t, e, all);
    ghost var a := TransformBool(e.left, t.left, all);
    ghost var b := TransformBool(e.right, t.right, all);
    TwoJoined(e, t.op, a, b, NodesOf(t));
    r := Two(e, t.op, a, b);
  }

  /** The operands of a junction are overwritten. */
  method SetOperands(e: Node, left: Node, right: Node, ghost op: Op, ghost a: Tree, ghost b: Tree, ghost all: set<Node>)
    returns (ghost r: Tree)
    requires e.kind == KindOf(op) && StoredAt(a, left, all) && StoredAt(b, right, all)
    requires e !in NodesOf(a) && e !in NodesOf(b) && NodesOf(a) !! NodesOf(b)
    modifies e
    ensures r == Two(e, op, a, b) && StoredAt(r, e, {e} + NodesOf(a) + NodesOf(b))
    ensures Value(r) == Bin(op, Value(a), Value(b))
  {
    e.left, e.right := left, right;
    r := Two(e, op, a, b);
  }

  /** The node becomes a constant symbol. */
  method Become(e: Node, s: Symbol) returns (ghost r: Tree)
    modifies e
    ensures StoredAt(r, e, {e}) && Value(r) == Sym(s)
  {
    e.kind, e.leftSym, e.right := ESymbol, s, null;
    r := Leaf(e, Sym(s));
  }

  /** The contents of the node tmp move to the node e. */
  method TakeOver(e: Node, tmp: Node, ghost t: Tree, ghost all: set<Node>) returns (ghost r: Tree)
    requires StoredAt(t, tmp, all) && e !in NodesOf(t)
    modifies e
    ensures StoredAt(r, e, {e} + NodesOf(t)) && Value(r) == Value(t)
  {
    e.CopyFrom(tmp);
    r := Rerooted(t, e);
    RerootedValue(t, e);
  }

  /** expr_eliminate_yn. The expression keeps its root node. */
  method EliminateConstants(e: Node, ghost t: Tree, ghost all: set<Node>) returns (ghost r: Tree)
    requires StoredAt(t, e, all)
    modifies NodesOf(t)
    ensures StoredAt(r, e, NodesOf(t)) && Value(r) == EliminateYn(Value(t))
    decreases t
  {
    hide Holds, Unshared, NodesOf, Value;
    r := t;
    StoredKind(t, e, all);
    if e.kind == EOr || e.kind == EAnd {
      TwoStored(t, e, all);
      ghost var a := EliminateConstants(e.left, t.left, all);
      ghost var b := EliminateConstants(e.right, t.right, all);
      r := Simplify(e, t.op, a, b, all);
    }
  }

  lemma StoredKind(t: Tree, n: Node, all: set<Node>)
    requires StoredAt(t, n, all)
    ensures n.kind == EOr || n.kind == EAnd <==> t.Two?
    ensures !t.Two? ==> EliminateYn(Value(t)) == Value(t)
  {
  }

  lemma ConstantNode(t: Tree)
    requires Holds(t)
    ensures forall s :: Value(t) == Sym(s) <==> t.node.kind == ESymbol && t.node.leftSym == s
  {
  }

  method Simplify(e: Node, ghost op: Op, ghost a: Tree, ghost b: Tree, ghost all: set<Node>) returns (ghost r: Tree)
    requires e.kind == KindOf(op) && e.left == a.node && e.right == b.node
    requires StoredAt(a, a.node, all) && StoredAt(b, b.node, all)
    requires e !in NodesOf(a) && e !in NodesOf(b) && NodesOf(a) !! NodesOf(b)
    modifies e
    ensures StoredAt(r, e, {e} + NodesOf(a) + NodesOf(b))
    ensures Value(r) ==
      if Value(a) == Zero(op) then Zero(op)
      else if Value(a) == Unit(op) then Value(b)
      else if Value(b) == Zero(op) then Zero(op)
      else if Value(b) == Unit(op) then Value(a)
      else Bin(op, Value(a), Value(b))
  {
    var unit := if e.kind == EOr then SYM_NO else SYM_YES;
    var zero := if e.kind == EOr then SYM_YES else SYM_NO;
    r := Two(e, op, a, b);
    ConstantNode(a);
    ConstantNode(b);
    if e.left.kind == ESymbol && e.left.leftSym == zero {
      r := Become(e, zero);
    } else if e.left.kind == ESymbol && e.left.leftSym == unit {
      r := TakeOver(e, e.right, b, all);
    } else if e.right.kind == ESymbol && e.right.leftSym == zero {
      r := Become(e, zero);
    } else if e.right.kind == ESymbol && e.right.leftSym == unit {
      r := TakeOver(e, e.left, a, all);
    }
  }
}
