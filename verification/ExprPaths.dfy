// A pointer to the place of a subexpression, struct expr **, is a path from the
// root.  Two such pointers are equal exactly when the paths are, because
// expressions are unshared trees.
module ExprPaths {
  import opened Expressions
  import opened ExprEquality

  datatype Path = Here | Down(right: bool, rest: Path)

  function Child(e: Expr, right: bool): Expr
    requires e.Bin?
  {
    if right then e.right else e.left
  }

  function WithChild(e: Expr, right: bool, x: Expr): Expr
    requires e.Bin?
  {
    if right then e.(right := x) else e.(left := x)
  }

  /** p leads from w through nodes of the connective op only. */
  predicate Slot(op: Op, w: Expr, p: Path) {
    p.Here? || (Is(op, w) && Slot(op, Child(w, p.right), p.rest))
  }

  function Get(op: Op, w: Expr, p: Path): Expr
    requires Slot(op, w, p)
  {
    if p.Here? then w else Get(op, Child(w, p.right), p.rest)
  }

  function Set(op: Op, w: Expr, p: Path, x: Expr): Expr
    requires Slot(op, w, p)
  {
    if p.Here? then x else WithChild(w, p.right, Set(op, Child(w, p.right), p.rest, x))
  }

  function Extend(p: Path, right: bool): Path {
    if p.Here? then Down(right, Here) else p.(rest := Extend(p.rest, right))
  }

  lemma {:induction false} ExtendSlot(op: Op, w: Expr, p: Path, right: bool)
    requires Slot(op, w, p) && Is(op, Get(op, w, p))
    ensures Slot(op, w, Extend(p, right))
    ensures Get(op, w, Extend(p, right)) == Child(Get(op, w, p), right)
  {
    if p.Down? {
      ExtendSlot(op, Child(w, p.right), p.rest, right);
    }
  }

  lemma {:induction false} SetGet(op: Op, w: Expr, p: Path, x: Expr)
    requires Slot(op, w, p)
    ensures Slot(op, Set(op, w, p, x), p)
    ensures Get(op, Set(op, w, p, x), p) == x
    ensures Size(Set(op, w, p, x)) == Size(w) - Size(Get(op, w, p)) + Size(x)
    ensures Set(op, w, p, Get(op, w, p)) == w
    ensures p.Down? ==> Size(Get(op, w, p)) < Size(w)
  {
    if p.Down? {
      SetGet(op, Child(w, p.right), p.rest, x);
    }
  }

  lemma {:induction false} SetSet(op: Op, w: Expr, p: Path, x: Expr, y: Expr)
    requires Slot(op, w, p)
    ensures Slot(op, Set(op, w, p, x), p)
    ensures Set(op, Set(op, w, p, x), p, y) == Set(op, w, p, y)
  {
    if p.Down? {
      SetSet(op, Child(w, p.right), p.rest, x, y);
    }
  }

  /** Two different operands do not overlap. */
  lemma {:induction false} SetOther(op: Op, w: Expr, p: Path, q: Path, x: Expr)
    requires Slot(op, w, p) && Slot(op, w, q) && p != q
    requires !Is(op, Get(op, w, p)) && !Is(op, Get(op, w, q))
    ensures Slot(op, Set(op, w, p, x), q)
    ensures Get(op, Set(op, w, p, x), q) == Get(op, w, q)
  {
    if p.Down? && q.Down? && p.right == q.right {
      SetOther(op, Child(w, p.right), p.rest, q.rest, x);
    }
  }

  /** The nodes of the connective op at the top of the tree. */
  function Nodes(op: Op, e: Expr): nat {
    if Is(op, e) then 1 + Nodes(op, e.left) + Nodes(op, e.right) else 0
  }

  /** Two trees that differ only below the nodes of op at the top. */
  predicate SameShape(op: Op, v: Expr, w: Expr) {
    if Is(op, v) then Is(op, w) && SameShape(op, v.left, w.left) && SameShape(op, v.right, w.right)
    else !Is(op, w)
  }

  lemma {:induction false} SameShapeReflexive(op: Op, v: Expr)
    ensures SameShape(op, v, v)
  {
    if Is(op, v) {
      SameShapeReflexive(op, v.left);
      SameShapeReflexive(op, v.right);
    }
  }

  lemma {:induction false} SameShapeTransitive(op: Op, u: Expr, v: Expr, w: Expr)
    requires SameShape(op, u, v) && SameShape(op, v, w)
    ensures SameShape(op, u, w)
  {
    if Is(op, u) {
      SameShapeTransitive(op, u.left, v.left, w.left);
      SameShapeTransitive(op, u.right, v.right, w.right);
    }
  }

  lemma {:induction false} SetKeepsShape(op: Op, w: Expr, p: Path, x: Expr)
    requires Slot(op, w, p) && !Is(op, Get(op, w, p)) && !Is(op, x)
    ensures SameShape(op, w, Set(op, w, p, x))
  {
    if p.Down? {
      SameShapeReflexive(op, Child(w, !p.right));
      SetKeepsShape(op, Child(w, p.right), p.rest, x);
    }
  }

  lemma {:induction false} SlotShape(op: Op, v: Expr, w: Expr, p: Path)
    requires SameShape(op, v, w) && Slot(op, v, p)
    ensures Slot(op, w, p)
    ensures Is(op, Get(op, w, p)) <==> Is(op, Get(op, v, p))
    ensures Nodes(op, Get(op, w, p)) == Nodes(op, Get(op, v, p))
    ensures SameShape(op, Get(op, v, p), Get(op, w, p))
  {
    if p.Down? {
      SlotShape(op, Child(v, p.right), Child(w, p.right), p.rest);
    } else {
      SameNodes(op, v, w);
    }
  }

  lemma {:induction false} SameNodes(op: Op, v: Expr, w: Expr)
    requires SameShape(op, v, w)
    ensures Nodes(op, v) == Nodes(op, w)
  {
    if Is(op, v) {
      SameNodes(op, v.left, w.left);
      SameNodes(op, v.right, w.right);
    }
  }

  /** A tree of op is any one of its operands combined with all the others. */
  lemma {:induction false} SlotValue(op: Op, w: Expr, p: Path, env: Env)
    requires Slot(op, w, p)
    ensures Eval(w, env) == Apply(op, Eval(Get(op, w, p), env), Eval(Set(op, w, p, Unit(op)), env))
  {
    if p.Down? {
      SlotValue(op, Child(w, p.right), p.rest, env);
    }
  }

  lemma {:induction false} SlotPruned(op: Op, w: Expr, p: Path)
    requires Slot(op, w, p)
    requires (p.Down? && IsConstant(Get(op, w, p))) || !Pruned(Get(op, w, p))
    ensures !Pruned(w)
  {
    if p.Down? && !(p.rest.Here? && IsConstant(Get(op, w, p))) {
      SlotPruned(op, Child(w, p.right), p.rest);
    }
  }
}
