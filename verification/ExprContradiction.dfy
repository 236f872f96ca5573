// The information order in which expr_eliminate_dups keeps the value cannot be
// replaced by equality.
module ExprContradiction {
  import opened Options
  import opened Expressions
  import opened ExprEquality
  import opened ExprTransform
  import opened ExprPaths
  import opened ExprDuplicates

  /** No two operands of w can be joined, and none can be cleaned up. */
  ghost predicate NothingToJoin(op: Op, w: Expr) {
    forall p, q | Operands(op, w, p, q) ::
      Dups1Inner(op, w, p, q) == Rewrite(w, 0) && Join(op, Get(op, w, p), Get(op, w, q)).None?
  }

  lemma {:induction false} Dups1Idle(op: Op, w: Expr, p: Path, q: Path)
    requires Slot(op, w, p) && Slot(op, w, q)
    requires NothingToJoin(op, w)
    ensures Dups1(op, w, p, q) == Rewrite(w, 0)
    decreases Nodes(op, Get(op, w, p)) + Nodes(op, Get(op, w, q))
  {
    if Is(op, Get(op, w, p)) {
      ExtendSlot(op, w, p, false);
      ExtendSlot(op, w, p, true);
      Dups1Idle(op, w, Extend(p, false), q);
      Dups1Idle(op, w, Extend(p, true), q);
    } else if Is(op, Get(op, w, q)) {
      ExtendSlot(op, w, q, false);
      ExtendSlot(op, w, q, true);
      Dups1Idle(op, w, p, Extend(q, false));
      Dups1Idle(op, w, p, Extend(q, true));
    }
  }

  const LEFT := Down(false, Here)
  const RIGHT := Down(true, Here)
  const RIGHT_LEFT := Down(true, Down(false, Here))
  const RIGHT_RIGHT := Down(true, Down(true, Here))

  function Example(a: Symbol, b: Symbol): Expr {
    Bin(OpAnd, Bin(OpOr, Sym(a), Sym(b)), Bin(OpAnd, Neg(Sym(a)), Neg(Sym(b))))
  }

  predicate Distinct(a: Symbol, b: Symbol) {
    a != b && IsTristate(a) && IsTristate(b)
  }

  lemma SlotEnds(op: Op, w: Expr, p: Path)
    requires Slot(op, w, p) && !Is(op, w)
    ensures p.Here?
  {}

  lemma GetStep(op: Op, w: Expr, p: Path)
    requires Slot(op, w, p) && p.Down?
    ensures Get(op, w, p) == Get(op, Child(w, p.right), p.rest)
  {}

  lemma ExampleOperands(a: Symbol, b: Symbol, p: Path)
    requires Distinct(a, b)
    requires Slot(OpAnd, Example(a, b), p) && !Is(OpAnd, Get(OpAnd, Example(a, b), p))
    ensures var e := Get(OpAnd, Example(a, b), p);
      || (p == LEFT && e == Bin(OpOr, Sym(a), Sym(b)))
      || (p == RIGHT_LEFT && e == Neg(Sym(a)))
      || (p == RIGHT_RIGHT && e == Neg(Sym(b)))
  {
    var w := Example(a, b);
    assert p.Down?;
    GetStep(OpAnd, w, p);
    if p.right {
      assert p.rest.Down?;
      GetStep(OpAnd, w.right, p.rest);
      assert Slot(OpAnd, Child(w.right, p.rest.right), p.rest.rest);
      SlotEnds(OpAnd, Child(w.right, p.rest.right), p.rest.rest);
    }
  }

  lemma ExampleParts(a: Symbol, b: Symbol)
    ensures var w := Example(a, b);
      && Slot(OpAnd, w, LEFT) && Get(OpAnd, w, LEFT) == Bin(OpOr, Sym(a), Sym(b))
      && Slot(OpAnd, w, RIGHT) && Get(OpAnd, w, RIGHT) == Bin(OpAnd, Neg(Sym(a)), Neg(Sym(b)))
      && Slot(OpAnd, w, RIGHT_LEFT) && Get(OpAnd, w, RIGHT_LEFT) == Neg(Sym(a))
      && Slot(OpAnd, w, RIGHT_RIGHT) && Get(OpAnd, w, RIGHT_RIGHT) == Neg(Sym(b))
  {
    var w := Example(a, b);
    GetStep(OpAnd, w.right, LEFT);
    assert Slot(OpAnd, w.right, LEFT) && Get(OpAnd, w.right, LEFT) == Neg(Sym(a));
    assert Slot(OpAnd, w.right, RIGHT) && Get(OpAnd, w.right, RIGHT) == Neg(Sym(b));
  }

  lemma OrIdle(a: Symbol, b: Symbol)
    requires Distinct(a, b)
    ensures Dups1(OpOr, Bin(OpOr, Sym(a), Sym(b)), Here, Here) == Rewrite(Bin(OpOr, Sym(a), Sym(b)), 0)
  {
    var w := Bin(OpOr, Sym(a), Sym(b));
    forall p, q | Operands(OpOr, w, p, q)
      ensures Dups1Inner(OpOr, w, p, q) == Rewrite(w, 0) && Join(OpOr, Get(OpOr, w, p), Get(OpOr, w, q)).None?
    {
      SlotEnds(OpOr, Child(w, p.right), p.rest);
      SlotEnds(OpOr, Child(w, q.right), q.rest);
      GetStep(OpOr, w, p);
      GetStep(OpOr, w, q);
    }
    Dups1Idle(OpOr, w, Here, Here);
  }

  lemma ExampleJoins(a: Symbol, b: Symbol, e1: Expr, e2: Expr)
    requires Distinct(a, b) && e1 != e2
    requires e1 == Bin(OpOr, Sym(a), Sym(b)) || e1 == Neg(Sym(a)) || e1 == Neg(Sym(b))
    requires e2 == Bin(OpOr, Sym(a), Sym(b)) || e2 == Neg(Sym(a)) || e2 == Neg(Sym(b))
    ensures Join(OpAnd, e1, e2).None?
  {
    assert !Eq(Sym(a), Sym(b)) && !Eq(Sym(b), Sym(a));
  }

  lemma FirstPassIdle(a: Symbol, b: Symbol)
    requires Distinct(a, b)
    ensures Dups1(OpAnd, Example(a, b), Here, Here) == Rewrite(Example(a, b), 0)
  {
    var w := Example(a, b);
    forall p, q | Operands(OpAnd, w, p, q)
      ensures Dups1Inner(OpAnd, w, p, q) == Rewrite(w, 0) && Join(OpAnd, Get(OpAnd, w, p), Get(OpAnd, w, q)).None?
    {
      ExampleOperands(a, b, p);
      ExampleOperands(a, b, q);
      OrIdle(a, b);
      ExampleJoins(a, b, Get(OpAnd, w, p), Get(OpAnd, w, q));
      SetGet(OpAnd, w, p, Get(OpAnd, w, p));
    }
    Dups1Idle(OpAnd, w, Here, Here);
  }

  lemma {:induction false} Dups2OverSymbols(a: Symbol, b: Symbol, p: Path, q: Path)
    requires Slot(OpOr, Bin(OpOr, Sym(a), Sym(b)), p) && Slot(OpOr, Bin(OpOr, Sym(a), Sym(b)), q)
    ensures Dups2(OpOr, Bin(OpOr, Sym(a), Sym(b)), p, q) == Rewrite(Bin(OpOr, Sym(a), Sym(b)), 0)
    decreases Nodes(OpOr, Get(OpOr, Bin(OpOr, Sym(a), Sym(b)), p)) + Nodes(OpOr, Get(OpOr, Bin(OpOr, Sym(a), Sym(b)), q))
  {
    var w := Bin(OpOr, Sym(a), Sym(b));
    if Is(OpOr, Get(OpOr, w, p)) {
      ExtendSlot(OpOr, w, p, false);
      ExtendSlot(OpOr, w, p, true);
      Dups2OverSymbols(a, b, Extend(p, false), q);
      Dups2OverSymbols(a, b, Extend(p, true), q);
    } else {
      SlotEnds(OpOr, Child(w, p.right), p.rest);
      GetStep(OpOr, w, p);
      if Is(OpOr, Get(OpOr, w, q)) {
        ExtendSlot(OpOr, w, q, false);
        ExtendSlot(OpOr, w, q, true);
        Dups2OverSymbols(a, b, p, Extend(q, false));
        Dups2OverSymbols(a, b, p, Extend(q, true));
      }
    }
  }

  /** Working on the first operand either leaves the example alone or decides it. */
  lemma FirstOperand(a: Symbol, b: Symbol, q: Path, env: Env)
    requires Distinct(a, b)
    requires Slot(OpAnd, Example(a, b), q)
    ensures var r := Dups2At(OpAnd, Example(a, b), LEFT, q).expr;
      Eval(r, env) == NO || (r == Example(a, b) && !Contradicts(OpAnd, Example(a, b), LEFT, q))
  {
    var w := Example(a, b);
    Dups2OverSymbols(a, b, Here, Here);
    SetGet(OpAnd, w, LEFT, Get(OpAnd, w, LEFT));
    assert Set(OpAnd, w, LEFT, Zero(OpAnd)) == w.(left := Sym(SYM_NO));
  }

  lemma SecondOperandContradicts(a: Symbol, b: Symbol)
    requires Distinct(a, b)
    ensures Slot(OpAnd, Example(a, b), RIGHT) && Contradicts(OpAnd, Example(a, b), LEFT, RIGHT)
  {
    var n, m := Neg(Sym(a)), Neg(Sym(b));
    assert Get(OpAnd, Example(a, b), LEFT) == Bin(OpOr, Sym(a), Sym(b));
    assert Get(OpAnd, Example(a, b), RIGHT) == Bin(OpAnd, n, m);
    NormalIsFixed(Bin(OpAnd, n, m));
    assert Transform(Bin(OpOr, Sym(a), Sym(b))) == Bin(OpOr, Sym(a), Sym(b));
    assert Transform(Neg(Bin(OpOr, Sym(a), Sym(b)))) == Bin(OpAnd, n, m);
    ExtractTwo(n, m);
  }

  /** A conjunction is extracted from itself completely. */
  lemma ExtractTwo(n: Expr, m: Expr)
    requires NegatedSymbol(n) && NegatedSymbol(m) && n != m
    ensures Extract(OpAnd, Bin(OpAnd, n, m), Bin(OpAnd, n, m)).1 == Sym(SYM_YES)
  {
    var yes := Sym(SYM_YES);
    assert Eq(n.arg, n.arg) && Eq(m.arg, m.arg) && Eq(n, n) && Eq(m, m);
    assert ExtractEq(OpAnd, None, n, n) == (Some(n), yes, yes);
    assert ExtractEq(OpAnd, Some(n), yes, m) == (Some(n), yes, m);
    assert ExtractEq(OpAnd, None, n, Bin(OpAnd, n, m)) == (Some(n), yes, Bin(OpAnd, yes, m));
    assert ExtractEq(OpAnd, Some(n), m, yes) == (Some(n), m, yes);
    assert ExtractEq(OpAnd, Some(n), m, m) == (Some(Bin(OpAnd, n, m)), yes, yes);
    assert ExtractEq(OpAnd, Some(n), m, Bin(OpAnd, yes, m)) == (Some(Bin(OpAnd, n, m)), yes, Bin(OpAnd, yes, yes));
    assert EliminateYn(Bin(OpAnd, yes, yes)) == yes;
  }

  lemma StaysNo(op: Op, w: Expr, p: Path, q: Path, env: Env)
    requires Slot(op, w, p) && Slot(op, w, q) && Typed(env)
    requires Eval(w, env) == NO
    ensures Eval(Dups2(op, w, p, q).expr, env) == NO
  {
    Dups2Refines(op, w, p, q, env);
  }

  /** The operands of the second operand come first and may already decide. */
  lemma FirstAgainstOperand(a: Symbol, b: Symbol, v: Expr, q: Path, env: Env)
    requires Distinct(a, b) && Typed(env) && (q == RIGHT_LEFT || q == RIGHT_RIGHT)
    requires SameShape(OpAnd, Example(a, b), v)
    requires v == Example(a, b) || Eval(v, env) == NO
    ensures Slot(OpAnd, v, LEFT) && Slot(OpAnd, v, q)
    ensures var r := Dups2(OpAnd, v, LEFT, q).expr; r == Example(a, b) || Eval(r, env) == NO
  {
    ExampleParts(a, b);
    SlotShape(OpAnd, Example(a, b), v, LEFT);
    SlotShape(OpAnd, Example(a, b), v, q);
    if v == Example(a, b) {
      FirstOperand(a, b, q, env);
    } else {
      StaysNo(OpAnd, v, LEFT, q, env);
    }
  }

  lemma FirstAgainstSecond(a: Symbol, b: Symbol, env: Env)
    requires Distinct(a, b) && Typed(env)
    ensures Slot(OpAnd, Example(a, b), RIGHT)
    ensures Eval(Dups2(OpAnd, Example(a, b), LEFT, RIGHT).expr, env) == NO
  {
    var w := Example(a, b);
    SecondOperandContradicts(a, b);
    assert Extend(RIGHT, false) == RIGHT_LEFT && Extend(RIGHT, true) == RIGHT_RIGHT;
    FirstAgainstOperand(a, b, w, RIGHT_LEFT, env);
    var r1 := Dups2(OpAnd, w, LEFT, RIGHT_LEFT);
    FirstAgainstOperand(a, b, r1.expr, RIGHT_RIGHT, env);
    var r2 := Dups2(OpAnd, r1.expr, LEFT, RIGHT_RIGHT);
    SameShapeTransitive(OpAnd, w, r1.expr, r2.expr);
    SlotShape(OpAnd, w, r2.expr, LEFT);
    SlotShape(OpAnd, w, r2.expr, RIGHT);
    if r2.expr == w {
      FirstOperand(a, b, RIGHT, env);
    } else {
      Dups2AtRefines(OpAnd, r2.expr, LEFT, RIGHT, env);
    }
    assert Dups2(OpAnd, w, LEFT, RIGHT).expr == Dups2At(OpAnd, r2.expr, LEFT, RIGHT).expr;
  }

  lemma SecondPassDecides(a: Symbol, b: Symbol, env: Env)
    requires Distinct(a, b) && Typed(env)
    ensures Eval(Dups2(OpAnd, Example(a, b), Here, Here).expr, env) == NO
  {
    var w := Example(a, b);
    assert Extend(Here, false) == LEFT && Extend(Here, true) == RIGHT;
    FirstAgainstSecond(a, b, env);
    ExampleParts(a, b);
    assert Dups2(OpAnd, w, LEFT, LEFT) == Rewrite(w, 0);
    var r2 := Dups2(OpAnd, w, LEFT, RIGHT);
    SlotShape(OpAnd, w, r2.expr, LEFT);
    Dups2AtRefines(OpAnd, r2.expr, LEFT, Here, env);
    var r := Dups2(OpAnd, w, LEFT, Here);
    assert r.expr == Dups2At(OpAnd, r2.expr, LEFT, Here).expr;
    SlotShape(OpAnd, w, r.expr, RIGHT);
    StaysNo(OpAnd, r.expr, RIGHT, Here, env);
    assert Dups2(OpAnd, w, Here, Here).expr == Dups2(OpAnd, r.expr, RIGHT, Here).expr;
  }

  /** (a || b) && (!a && !b) becomes no in every environment, although its value is
      mod whenever the larger of a and b is. */
  lemma ModIsNotKept(a: Symbol, b: Symbol, env: Env)
    requires Distinct(a, b) && Typed(env)
    ensures Eval(EliminateDups(Example(a, b)), env) == NO
    ensures Eval(Example(a, b), env) == MOD <==> Or(env.tri(a), env.tri(b)) == MOD
  {
    var w := Example(a, b);
    FirstPassIdle(a, b);
    SecondPassDecides(a, b, env);
    assert Eval(Round(w).expr, env) == NO;
    EliminateYnExact(Round(w).expr, env);
    EliminateDupsRefines(EliminateYn(Round(w).expr), env);
    EliminateDupsRefines(w, env);
    assert TriValue(a, env) == env.tri(a) && TriValue(b, env) == env.tri(b);
    assert Eval(w, env) == And(Or(env.tri(a), env.tri(b)), And(Not(env.tri(a)), Not(env.tri(b)))) by {
      assert Eval(w.left, env) == Or(env.tri(a), env.tri(b));
      assert Eval(w.right, env) == And(Not(env.tri(a)), Not(env.tri(b)));
    }
  }
}
