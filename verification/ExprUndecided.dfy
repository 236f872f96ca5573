// Expressions whose value expr_eliminate_dups keeps in every environment, also when
// it is mod.
module ExprUndecided {
  import opened Options
  import opened Expressions
  import opened ExprEquality
  import opened ExprTransform
  import opened ExprPaths
  import opened ExprDuplicates
  import opened ExprContradiction

  // ----- Expressions without a decided junction -----

  /** The value that leaves the other operand alone. */
  function UnitValue(op: Op): Tristate {
    if op.OpOr? then NO else YES
  }

  /** A conjunction that can be yes, or a disjunction that can be no. */
  ghost predicate CanBeUnit(op: Op, e: Expr) {
    exists env :: Typed(env) && Eval(e, env) == UnitValue(op)
  }

  /** Every conjunction in e is yes in some environment, every disjunction is no in
      some; a junction of junctions of the same connective counts as one. */
  ghost predicate Undecided(e: Expr)
    decreases Size(e), 1
  {
    e.Bin? ==> CanBeUnit(e.op, e) && OperandsUndecided(e.op, e)
  }

  ghost predicate OperandsUndecided(op: Op, e: Expr)
    decreases Size(e), if Is(op, e) then 0 else 2
  {
    if Is(op, e) then OperandsUndecided(op, e.left) && OperandsUndecided(op, e.right) else Undecided(e)
  }

  /** An undecided tree is undecided as an operand of any connective. */
  lemma UndecidedOperand(op: Op, e: Expr)
    requires Undecided(e)
    ensures OperandsUndecided(op, e)
  {
  }

  lemma {:induction false} OperandAt(op: Op, w: Expr, p: Path)
    requires Slot(op, w, p) && OperandsUndecided(op, w)
    ensures OperandsUndecided(op, Get(op, w, p))
  {
    if p.Down? {
      OperandAt(op, Child(w, p.right), p.rest);
    }
  }

  lemma {:induction false} SetOperand(op: Op, w: Expr, p: Path, x: Expr)
    requires Slot(op, w, p) && OperandsUndecided(op, w) && OperandsUndecided(op, x)
    ensures OperandsUndecided(op, Set(op, w, p, x))
  {
    if p.Down? {
      SetOperand(op, Child(w, p.right), p.rest, x);
    }
  }

  // ----- The first pass keeps this -----

  lemma JoinAtUndecided(op: Op, w: Expr, p: Path, q: Path)
    requires Operands(op, w, p, q) && OperandsUndecided(op, w)
    ensures OperandsUndecided(op, JoinAt(op, w, p, q).expr)
  {
    var t := Join(op, Get(op, w, p), Get(op, w, q));
    if t.Some? {
      OperandAt(op, w, p);
      SetOperand(op, w, p, Unit(op));
      SetOther(op, w, p, q, Unit(op));
      assert OperandsUndecided(op, t.value);
      SetOperand(op, Set(op, w, p, Unit(op)), q, t.value);
    }
  }

  lemma {:induction false} Dups1Undecided(op: Op, w: Expr, p: Path, q: Path)
    requires Slot(op, w, p) && Slot(op, w, q) && OperandsUndecided(op, w)
    ensures OperandsUndecided(op, Dups1(op, w, p, q).expr)
    decreases Size(w), Nodes(op, Get(op, w, p)) + Nodes(op, Get(op, w, q)), 1
  {
    if Is(op, Get(op, w, p)) {
      ExtendSlot(op, w, p, false);
      ExtendSlot(op, w, p, true);
      var r1 := Dups1(op, w, Extend(p, false), q);
      SlotShape(op, w, r1.expr, Extend(p, true));
      SlotShape(op, w, r1.expr, q);
      Dups1Undecided(op, w, Extend(p, false), q);
      Dups1Undecided(op, r1.expr, Extend(p, true), q);
    } else if Is(op, Get(op, w, q)) {
      ExtendSlot(op, w, q, false);
      ExtendSlot(op, w, q, true);
      var r1 := Dups1(op, w, p, Extend(q, false));
      SlotShape(op, w, r1.expr, p);
      SlotShape(op, w, r1.expr, Extend(q, true));
      Dups1Undecided(op, w, p, Extend(q, false));
      Dups1Undecided(op, r1.expr, p, Extend(q, true));
    } else if p != q {
      Dups1InnerUndecided(op, w, p, q);
      JoinAtUndecided(op, Dups1Inner(op, w, p, q).expr, p, q);
    }
  }

  lemma {:induction false} Dups1InnerUndecided(op: Op, w: Expr, p: Path, q: Path)
    requires Operands(op, w, p, q) && OperandsUndecided(op, w)
    ensures OperandsUndecided(op, Dups1Inner(op, w, p, q).expr)
    decreases Size(w), 0, 0
  {
    var e := Get(op, w, p);
    if e.Bin? {
      SetGet(op, w, p, e);
      OperandAt(op, w, p);
      Dups1Undecided(e.op, e, Here, Here);
      var x := Dups1(e.op, e, Here, Here).expr;
      SameUnit(e, x);
      SetOperand(op, w, p, x);
    }
  }

  /** With its operands undecided and the value of e, x is undecided. */
  lemma SameUnit(e: Expr, x: Expr)
    requires e.Bin? && Undecided(e) && x == Dups1(e.op, e, Here, Here).expr
    requires OperandsUndecided(e.op, x)
    ensures Undecided(x)
  {
    var env :| Typed(env) && Eval(e, env) == UnitValue(e.op);
    Dups1Exact(e.op, e, Here, Here, env);
    assert Is(e.op, x);
  }

  // ----- The second pass finds no contradiction -----

  /** A junction that can be the unit has no operand that contradicts another. */
  lemma NoContradiction(op: Op, w: Expr, p: Path, q: Path)
    requires Slot(op, w, p) && Slot(op, w, q) && CanBeUnit(op, w)
    ensures !Contradicts(op, w, p, q)
  {
    var env :| Typed(env) && Eval(w, env) == UnitValue(op);
    var e1, e2 := Get(op, w, p), Get(op, w, q);
    SlotValue(op, w, p, env);
    SlotValue(op, w, q, env);
    TransformExact(Neg(e1), env);
    ExtractKeepsFactor(op, Transform(Neg(e1)), e2, env);
    if Contradicts(op, w, p, q) {
      var (f, _, r2) := Extract(op, Transform(Neg(e1)), e2);
      NoUnit(op, Eval(w, env), Eval(e1, env), Eval(e2, env), FactorValue(op, f, env), Eval(r2, env),
             Eval(Set(op, w, p, Unit(op)), env), Eval(Set(op, w, q, Unit(op)), env));
      assert false;
    }
  }

  lemma NoUnit(op: Op, w: Tristate, e1: Tristate, e2: Tristate, f: Tristate, r: Tristate,
               rest1: Tristate, rest2: Tristate)
    requires w == Apply(op, e1, rest1) == Apply(op, e2, rest2)
    requires Not(e1) == f && e2 == Apply(op, f, r)
    ensures w != UnitValue(op)
  {}

  lemma {:induction false} Dups2Idle(op: Op, w: Expr, p: Path, q: Path)
    requires Slot(op, w, p) && Slot(op, w, q)
    requires CanBeUnit(op, w) && OperandsUndecided(op, w)
    ensures Dups2(op, w, p, q) == Rewrite(w, 0)
    decreases Size(w), Nodes(op, Get(op, w, p)) + Nodes(op, Get(op, w, q)), 1
  {
    if Is(op, Get(op, w, p)) {
      ExtendSlot(op, w, p, false);
      ExtendSlot(op, w, p, true);
      Dups2Idle(op, w, Extend(p, false), q);
      Dups2Idle(op, w, Extend(p, true), q);
    } else if Is(op, Get(op, w, q)) {
      ExtendSlot(op, w, q, false);
      ExtendSlot(op, w, q, true);
      Dups2Idle(op, w, p, Extend(q, false));
      Dups2Idle(op, w, p, Extend(q, true));
      Dups2AtIdle(op, w, p, q);
    } else if p != q {
      Dups2AtIdle(op, w, p, q);
    }
  }

  lemma {:induction false} Dups2AtIdle(op: Op, w: Expr, p: Path, q: Path)
    requires Slot(op, w, p) && Slot(op, w, q) && p.Down?
    requires !Is(op, Get(op, w, p))
    requires CanBeUnit(op, w) && OperandsUndecided(op, w)
    ensures Dups2At(op, w, p, q) == Rewrite(w, 0)
    decreases Size(w), 0, 0
  {
    var e := Get(op, w, p);
    if e.Bin? {
      SetGet(op, w, p, e);
      OperandAt(op, w, p);
      Dups2Idle(e.op, e, Here, Here);
      NoContradiction(op, w, p, q);
    }
  }

  // ----- The loop -----

  lemma SameUnitYn(e: Expr, op: Op)
    requires CanBeUnit(op, e)
    ensures CanBeUnit(op, EliminateYn(e))
  {
    var env :| Typed(env) && Eval(e, env) == UnitValue(op);
    EliminateYnExact(e, env);
  }

  lemma {:induction false} EliminateYnUndecided(e: Expr)
    requires Undecided(e)
    ensures Undecided(EliminateYn(e))
    decreases Size(e), 1
  {
    if e.Bin? {
      EliminateYnOperands(e.op, e);
      SameUnitYn(e, e.op);
    }
  }

  lemma {:induction false} EliminateYnOperands(op: Op, e: Expr)
    requires OperandsUndecided(op, e)
    ensures OperandsUndecided(op, EliminateYn(e))
    decreases Size(e), if Is(op, e) then 0 else 2
  {
    if Is(op, e) {
      EliminateYnOperands(op, e.left);
      EliminateYnOperands(op, e.right);
    } else {
      EliminateYnUndecided(e);
      UndecidedOperand(op, EliminateYn(e));
    }
  }

  /** No round finds a contradiction in an undecided expression. */
  lemma {:induction false} UndecidedIsConsistent(e: Expr)
    requires Undecided(e)
    ensures WithoutContradictions(e)
    decreases Size(e)
  {
    if e.Bin? && Round(e).count > 0 {
      var r := Dups1(e.op, e, Here, Here).expr;
      Dups1Undecided(e.op, e, Here, Here);
      SameUnit(e, r);
      Dups2Idle(e.op, r, Here, Here);
      EliminateYnUndecided(r);
      RoundShrinks(e);
      UndecidedIsConsistent(EliminateYn(r));
    }
  }

  /** expr_eliminate_dups keeps the value of an undecided expression everywhere. */
  lemma UndecidedIsKept(e: Expr, env: Env)
    requires Undecided(e) && Typed(env)
    ensures Eval(EliminateDups(e), env) == Eval(e, env)
  {
    UndecidedIsConsistent(e);
    EliminateDupsExact(e, env);
  }

  /** Only boolean and tristate symbols, joined without a negation. */
  predicate Positive(e: Expr) {
    match e
    case Sym(s) => IsTristate(s)
    case Bin(_, l, r) => Positive(l) && Positive(r)
    case _ => false
  }

  const ALL_YES := Env(_ => YES, _ => "", true)
  const ALL_NO := Env(_ => NO, _ => "", true)

  lemma {:induction false} PositiveValues(e: Expr)
    requires Positive(e)
    ensures Eval(e, ALL_YES) == YES && Eval(e, ALL_NO) == NO
  {
    if e.Bin? {
      PositiveValues(e.left);
      PositiveValues(e.right);
    }
  }

  lemma {:induction false} PositiveIsUndecided(e: Expr)
    requires Positive(e)
    ensures Undecided(e)
    decreases Size(e), 1
  {
    if e.Bin? {
      PositiveValues(e);
      assert Typed(ALL_YES) && Typed(ALL_NO);
      assert Eval(e, if e.op.OpOr? then ALL_NO else ALL_YES) == UnitValue(e.op);
      PositiveOperands(e.op, e);
    }
  }

  lemma {:induction false} PositiveOperands(op: Op, e: Expr)
    requires Positive(e)
    ensures OperandsUndecided(op, e)
    decreases Size(e), if Is(op, e) then 0 else 2
  {
    if Is(op, e) {
      PositiveOperands(op, e.left);
      PositiveOperands(op, e.right);
    } else {
      PositiveIsUndecided(e);
    }
  }

  // ----- Expressions that are never mod -----

  /** No symbol in e, outside comparisons, can be mod. */
  predicate NeverMod(e: Expr) {
    match e
    case Sym(s) => s != SYM_MOD && !TypeOf(s).Tri?
    case Neg(a) => NeverMod(a)
    case Bin(_, l, r) => NeverMod(l) && NeverMod(r)
    case _ => true
  }

  lemma {:induction false} NeverModValue(e: Expr, env: Env)
    requires NeverMod(e) && Typed(env)
    ensures Eval(e, env) != MOD
  {
    match e
    case Neg(a) => NeverModValue(a, env);
    case Bin(_, l, r) =>
      NeverModValue(l, env);
      NeverModValue(r, env);
    case _ =>
  }

  lemma NeverModIsKept(e: Expr, env: Env)
    requires NeverMod(e) && Typed(env)
    ensures Eval(EliminateDups(e), env) == Eval(e, env)
  {
    NeverModValue(e, env);
    EliminateDupsRefines(e, env);
  }

  // ----- No condition of this kind is necessary -----

  /** If nothing is reported, the operand at p has been compared with the tree at q. */
  lemma ComparedWithTree(op: Op, w: Expr, p: Path, q: Path)
    requires Slot(op, w, p) && Slot(op, w, q) && !Is(op, Get(op, w, p)) && Is(op, Get(op, w, q))
    requires Dups2(op, w, p, q).count == 0
    ensures p.Down? && Dups2At(op, w, p, q).count == 0
  {
    ExtendSlot(op, w, q, false);
    ExtendSlot(op, w, q, true);
  }

  lemma LeftFirst(op: Op, w: Expr, p: Path, q: Path)
    requires Slot(op, w, p) && Slot(op, w, q) && Is(op, Get(op, w, p))
    ensures Slot(op, w, Extend(p, false))
    ensures Dups2(op, w, Extend(p, false), q).count <= Dups2(op, w, p, q).count
  {
    ExtendSlot(op, w, p, false);
  }

  lemma RightFirst(op: Op, w: Expr, p: Path, q: Path)
    requires Slot(op, w, p) && Slot(op, w, q) && !Is(op, Get(op, w, p)) && Is(op, Get(op, w, q))
    requires Dups2(op, w, p, q).count == 0
    ensures Slot(op, w, Extend(q, true)) && Dups2(op, w, p, Extend(q, true)).count == 0
  {
    ExtendSlot(op, w, q, false);
    ExtendSlot(op, w, q, true);
  }

  /** The disjunction is compared with the conjunction of its negated operands. */
  lemma ExampleReports(a: Symbol, b: Symbol)
    requires Distinct(a, b)
    ensures Dups2(OpAnd, Example(a, b), Here, Here).count > 0
  {
    var w := Example(a, b);
    ExampleParts(a, b);
    if Dups2(OpAnd, w, Here, Here).count == 0 {
      LeftFirst(OpAnd, w, Here, Here);
      assert Extend(Here, false) == LEFT && Extend(Here, true) == RIGHT;
      RightFirst(OpAnd, w, LEFT, Here);
      ComparedWithTree(OpAnd, w, LEFT, RIGHT);
      FirstOperandReports(a, b);
      assert false;
    }
  }

  lemma FirstOperandReports(a: Symbol, b: Symbol)
    requires Distinct(a, b)
    ensures Slot(OpAnd, Example(a, b), LEFT) && Slot(OpAnd, Example(a, b), RIGHT)
    ensures Dups2At(OpAnd, Example(a, b), LEFT, RIGHT).count > 0
  {
    var w := Example(a, b);
    ExampleParts(a, b);
    SecondOperandContradicts(a, b);
    Dups2OverSymbols(a, b, Here, Here);
    SetGet(OpAnd, w, LEFT, Get(OpAnd, w, LEFT));
  }

  /** With boolean a and b a contradiction is found in (a || b) && (!a && !b), but the
      value, which was never mod, is kept. */
  lemma ContradictionButKept(a: Symbol, b: Symbol, env: Env)
    requires a != b && TypeOf(a).Boolean? && TypeOf(b).Boolean? && Typed(env)
    ensures !WithoutContradictions(Example(a, b))
    ensures Eval(EliminateDups(Example(a, b)), env) == Eval(Example(a, b), env)
  {
    FirstPassIdle(a, b);
    ExampleReports(a, b);
    NeverModIsKept(Example(a, b), env);
  }
}
