// What expr_eliminate_dups of scripts/kconfig/expr.c leaves: no two operands of a
// junction that are the same, or that one of the rules for joining them applies to,
// and no junction of literals that are all denied beside it.
module ExprSettled {
  import opened Options
  import opened Expressions
  import opened ExprEquality
  import opened ExprTransform
  import opened ExprPaths
  import opened ExprDuplicates

  // ----- Every expression is found equal to itself -----

  /** All operands of the tree are constants. */
  predicate Blank(op: Op, e: Expr) {
    if Is(op, e) then Blank(op, e.left) && Blank(op, e.right) else IsConstant(e)
  }

  lemma {:induction false} BlankStays(op: Op, e: Expr, w: Expr)
    requires Blank(op, w)
    ensures Cancel(op, e, w) == (e, w)
    decreases Size(e) + Size(w)
  {
    if Is(op, e) {
      BlankStays(op, e.left, w);
      BlankStays(op, e.right, w);
    } else if Is(op, w) {
      BlankStays(op, e, w.left);
      BlankStays(op, e, w.right);
    }
  }

  lemma {:induction false} ConstantStays(op: Op, c: Expr, w: Expr)
    requires IsConstant(c)
    ensures Cancel(op, c, w) == (c, w)
    decreases w
  {
    if Is(op, w) {
      ConstantStays(op, c, w.left);
      ConstantStays(op, c, w.right);
    }
  }

  lemma {:induction false} OperandStaysOne(op: Op, e: Expr, w: Expr)
    requires !Is(op, e)
    ensures !Is(op, Cancel(op, e, w).0)
    decreases w
  {
    if Is(op, w) {
      OperandStaysOne(op, e, w.left);
      OperandStaysOne(op, Cancel(op, e, w.left).0, w.right);
    }
  }

  /** What is used up by the first part of w never gets to the second. */
  lemma {:induction false} FirstPart(op: Op, e: Expr, w1: Expr, w2: Expr)
    requires Blank(op, Cancel(op, e, w1).0)
    ensures Cancel(op, e, Bin(op, w1, w2)) == (Cancel(op, e, w1).0, Bin(op, Cancel(op, e, w1).1, w2))
    decreases e
  {
    if Is(op, e) {
      FirstPart(op, e.left, w1, w2);
      FirstPart(op, e.right, Cancel(op, e.left, w1).1, w2);
    } else {
      OperandStaysOne(op, e, w1);
      ConstantStays(op, Cancel(op, e, w1).0, w2);
    }
  }

  lemma {:induction false} SecondPart(op: Op, e: Expr, w1: Expr, w2: Expr)
    requires Blank(op, w1)
    ensures Cancel(op, e, Bin(op, w1, w2)) == (Cancel(op, e, w2).0, Bin(op, w1, Cancel(op, e, w2).1))
    decreases e
  {
    if Is(op, e) {
      SecondPart(op, e.left, w1, w2);
      SecondPart(op, e.right, w1, Cancel(op, e.left, w2).1);
    } else {
      BlankStays(op, e, w1);
    }
  }

  lemma {:induction false} SelfCancels(op: Op, e: Expr)
    ensures var r := Cancel(op, e, e).0; Cancel(op, e, e) == (r, r) && Blank(op, r)
    decreases e, if Is(op, e) then 0 else 2
  {
    if Is(op, e) {
      var l, r := Cancel(op, e.left, e.left).0, Cancel(op, e.right, e.right).0;
      SelfCancels(op, e.left);
      SelfCancels(op, e.right);
      FirstPart(op, e.left, e.left, e.right);
      SecondPart(op, e.right, l, e.right);
    } else {
      EqReflexive(e);
    }
  }

  lemma {:induction false} BlankIsConstant(op: Op, e: Expr)
    requires Blank(op, e)
    ensures IsConstant(EliminateYn(e))
  {
    if Is(op, e) {
      BlankIsConstant(op, e.left);
      BlankIsConstant(op, e.right);
    }
  }

  lemma {:induction false} EqReflexive(e: Expr)
    ensures Eq(e, e)
    decreases e, 1
  {
    match e
    case Neg(a) => EqReflexive(a);
    case Bin(op, _, _) =>
      SelfCancels(op, e);
      BlankIsConstant(op, Cancel(op, e, e).0);
    case _ =>
  }

  // ----- Nothing in common is left -----

  function OperandSet(op: Op, w: Expr): set<Expr> {
    if Is(op, w) then OperandSet(op, w.left) + OperandSet(op, w.right) else {w}
  }

  /** No operand but yes or no is in both trees. */
  ghost predicate NoneShared(op: Op, e1: Expr, e2: Expr) {
    forall x | x in OperandSet(op, e1) && x in OperandSet(op, e2) :: IsConstant(x)
  }

  /** An operand that is not used up is none of those of the other tree. */
  lemma {:induction false} OneCancelled(op: Op, e: Expr, w: Expr)
    requires !Is(op, e)
    ensures var r := Cancel(op, e, w);
      && (r.0 == e || r.0 == Unit(op)) && OperandSet(op, r.1) <= OperandSet(op, w) + {Unit(op)}
      && (r.0 == e && !IsConstant(e) ==> e !in OperandSet(op, w))
    decreases w
  {
    if Is(op, w) {
      OneCancelled(op, e, w.left);
      var e' := Cancel(op, e, w.left).0;
      OneCancelled(op, e', w.right);
      if IsConstant(e') {
        ConstantStays(op, e', w.right);
      }
    } else {
      EqReflexive(e);
    }
  }

  /** __expr_eliminate_eq finds all that the two trees have in common. */
  lemma {:induction false} NothingShared(op: Op, e1: Expr, e2: Expr)
    ensures var r := Cancel(op, e1, e2);
      && OperandSet(op, r.0) <= OperandSet(op, e1) + {Unit(op)}
      && OperandSet(op, r.1) <= OperandSet(op, e2) + {Unit(op)}
      && NoneShared(op, r.0, r.1)
    decreases e1
  {
    if Is(op, e1) {
      NothingShared(op, e1.left, e2);
      NothingShared(op, e1.right, Cancel(op, e1.left, e2).1);
    } else {
      OneCancelled(op, e1, e2);
      OperandStaysOne(op, e1, e2);
    }
  }

  predicate PrunedOperands(op: Op, e: Expr) {
    if Is(op, e) then PrunedOperands(op, e.left) && PrunedOperands(op, e.right) else Pruned(e)
  }

  lemma {:induction false} OperandsSurvive(op: Op, e: Expr)
    requires PrunedOperands(op, e)
    ensures OperandSet(op, EliminateYn(e)) <= OperandSet(op, e)
  {
    if Is(op, e) {
      OperandsSurvive(op, e.left);
      OperandsSurvive(op, e.right);
    } else {
      EliminateYnPrunes(e);
    }
  }

  lemma {:induction false} OperandsArePruned(op: Op, e: Expr)
    requires Pruned(e)
    ensures PrunedOperands(op, e)
  {
    if Is(op, e) {
      OperandsArePruned(op, e.left);
      OperandsArePruned(op, e.right);
    }
  }

  lemma {:induction false} FewerOperandsArePruned(op: Op, e: Expr)
    requires forall x | x in OperandSet(op, e) :: Pruned(x)
    ensures PrunedOperands(op, e)
  {
    if Is(op, e) {
      FewerOperandsArePruned(op, e.left);
      FewerOperandsArePruned(op, e.right);
    }
  }

  lemma {:induction false} PrunedOperandsAre(op: Op, e: Expr)
    requires PrunedOperands(op, e)
    ensures forall x | x in OperandSet(op, e) :: Pruned(x)
  {
    if Is(op, e) {
      PrunedOperandsAre(op, e.left);
      PrunedOperandsAre(op, e.right);
    }
  }

  lemma ResidueIsPruned(op: Op, e: Expr, r: Expr)
    requires Pruned(e) && OperandSet(op, r) <= OperandSet(op, e) + {Unit(op)}
    ensures PrunedOperands(op, r)
  {
    OperandsArePruned(op, e);
    PrunedOperandsAre(op, e);
    FewerOperandsArePruned(op, r);
  }

  /** expr_eliminate_eq finds all that an expression and a junction have in common, whichever
      of the two comes first. */
  lemma EliminateEqShares(op: Op, e1: Expr, e2: Expr)
    requires Pruned(e1) && Pruned(e2) && (Is(op, e1) || Is(op, e2))
    requires (e1.Bin? ==> e1.op == op) && (e2.Bin? ==> e2.op == op)
    ensures NoneShared(op, EliminateEq(e1, e2).0, EliminateEq(e1, e2).1)
  {
    hide Cancel, EliminateEq, EliminateYn, OperandSet, Pruned, PrunedOperands;
    var (r1, r2) := Cancel(op, e1, e2);
    NothingShared(op, e1, e2);
    ResidueIsPruned(op, e1, r1);
    ResidueIsPruned(op, e2, r2);
    OperandsSurvive(op, r1);
    OperandsSurvive(op, r2);
    OneCancel(op, e1, e2);
  }

  /** Only one of the two calls of __expr_eliminate_eq has work to do. */
  lemma OneCancel(op: Op, e1: Expr, e2: Expr)
    requires (Is(op, e1) || Is(op, e2)) && (e1.Bin? ==> e1.op == op) && (e2.Bin? ==> e2.op == op)
    ensures EliminateEq(e1, e2) == (EliminateYn(Cancel(op, e1, e2).0), EliminateYn(Cancel(op, e1, e2).1))
  {
    hide EliminateYn, Cancel;
    if e1.Bin? && !e2.Bin? {
      OperandStaysOther(op, e1, e2);
    }
  }

  /** What is no junction stays none. */
  lemma {:induction false} OperandStaysOther(op: Op, e1: Expr, e2: Expr)
    requires !e2.Bin?
    ensures !Cancel(op, e1, e2).1.Bin?
    decreases e1
  {
    if Is(op, e1) {
      OperandStaysOther(op, e1.left, e2);
      OperandStaysOther(op, e1.right, Cancel(op, e1.left, e2).1);
    }
  }
  // ----- Operands that can be written as one -----

  predicate AreYmn(a: Symbol, b: Symbol) {
    IsYmn(a) && IsYmn(b)
  }

  /** The comments of expr_join_or and expr_join_and, for the operands in one order. */
  predicate Rule(op: Op, a: Expr, b: Expr) {
    match op
    case OpOr =>
      // (a='x') || (a='y') for a tristate and two of y, m and n; !a || a for a boolean
      || (a.Equal? && b.Equal? && a.lhs == b.lhs && TypeOf(a.lhs).Tri? && AreYmn(a.rhs, b.rhs))
      || (a == Neg(b) && b.Sym? && TypeOf(b.sym).Boolean?)
    case OpAnd =>
      // a && (a='y'), a && (a!='n'), a && (a!='m'); for a tristate also
      // (a='b') && (a!='c'), and (a!='x') && (a!='y') for two of y, m and n
      || (a.Sym? && IsTristate(a.sym)
          && (b == Equal(a.sym, SYM_YES) || b == Unequal(a.sym, SYM_NO) || b == Unequal(a.sym, SYM_MOD)))
      || (a.Equal? && b.Unequal? && a.lhs == b.lhs && TypeOf(a.lhs).Tri? && a.rhs.Const? && b.rhs.Const?)
      || (a.Unequal? && b.Unequal? && a.lhs == b.lhs && TypeOf(a.lhs).Tri? && AreYmn(a.rhs, b.rhs))
  }

  /** Two operands of which one can go. */
  predicate Redundant(op: Op, a: Expr, b: Expr) {
    a == b || Rule(op, a, b) || Rule(op, b, a)
  }

  lemma RuleJoins(op: Op, a: Expr, b: Expr)
    requires Rule(op, a, b)
    ensures Join(op, a, b).Some? && Join(op, b, a).Some?
  {
  }

  lemma RedundantJoins(op: Op, a: Expr, b: Expr)
    requires Redundant(op, a, b)
    ensures Join(op, a, b).Some?
  {
    if a == b {
      EqReflexive(a);
    } else if Rule(op, a, b) {
      RuleJoins(op, a, b);
    } else {
      RuleJoins(op, b, a);
    }
  }

  /** No two operands of w are redundant. */
  ghost predicate NoneRedundant(op: Op, w: Expr) {
    forall p, q | Operands(op, w, p, q) :: !Redundant(op, Get(op, w, p), Get(op, w, q))
  }

  /** Neither in the junction e nor in those that are operands of it, at any depth. */
  ghost predicate Tidy(e: Expr)
    decreases e, 0
  {
    e.Bin? ==> NoneRedundant(e.op, e) && TidyBelow(e.op, e.left) && TidyBelow(e.op, e.right)
  }

  ghost predicate TidyBelow(op: Op, e: Expr)
    decreases e, 1
  {
    if Is(op, e) then TidyBelow(op, e.left) && TidyBelow(op, e.right) else Tidy(e)
  }

  // ----- The first pass tries every pair of operands -----

  predicate Under(p: Path, a: Path) {
    p.Here? || (a.Down? && a.right == p.right && Under(p.rest, a.rest))
  }

  lemma {:induction false} UnderJunction(op: Op, w: Expr, p: Path, a: Path)
    requires Slot(op, w, p) && Slot(op, w, a) && Under(p, a) && !Is(op, Get(op, w, a))
    ensures if Is(op, Get(op, w, p)) then Under(Extend(p, false), a) || Under(Extend(p, true), a) else p == a
    decreases p
  {
    if p.Down? {
      UnderJunction(op, Child(w, p.right), p.rest, a.rest);
    } else if a.Down? && a.right {
      assert Under(Extend(p, true), a);
    } else if a.Down? {
      assert Under(Extend(p, false), a);
    }
  }

  /** A pass that changed nothing has found nothing to join in any two operands. */
  lemma {:induction false} PairTried(op: Op, w: Expr, p: Path, q: Path, a: Path, b: Path)
    requires Slot(op, w, p) && Slot(op, w, q) && Dups1(op, w, p, q).count == 0
    requires Operands(op, w, a, b) && Under(p, a) && Under(q, b)
    ensures Join(op, Get(op, w, a), Get(op, w, b)).None? && Dups1Inner(op, w, a, b).count == 0
    decreases Nodes(op, Get(op, w, p)) + Nodes(op, Get(op, w, q))
  {
    UnderJunction(op, w, p, a);
    UnderJunction(op, w, q, b);
    if Is(op, Get(op, w, p)) {
      ExtendSlot(op, w, p, false);
      ExtendSlot(op, w, p, true);
      PairTried(op, w, Extend(p, Under(Extend(p, true), a)), q, a, b);
    } else if Is(op, Get(op, w, q)) {
      ExtendSlot(op, w, q, false);
      ExtendSlot(op, w, q, true);
      PairTried(op, w, p, Extend(q, Under(Extend(q, true), b)), a, b);
    }
  }

  lemma FirstPassDone(e: Expr)
    requires e.Bin? && Dups1(e.op, e, Here, Here).count == 0
    ensures NoneRedundant(e.op, e)
  {
    forall p, q | Operands(e.op, e, p, q)
      ensures !Redundant(e.op, Get(e.op, e, p), Get(e.op, e, q))
    {
      PairTried(e.op, e, Here, Here, p, q);
      if Redundant(e.op, Get(e.op, e, p), Get(e.op, e, q)) {
        RedundantJoins(e.op, Get(e.op, e, p), Get(e.op, e, q));
        assert false;
      }
    }
  }

  /** Each junction has a second operand, so that every operand is cleaned up. */
  lemma {:induction false} SomeOperand(op: Op, w: Expr) returns (p: Path)
    ensures Slot(op, w, p) && !Is(op, Get(op, w, p))
  {
    p := Here;
    if Is(op, w) {
      p := SomeOperand(op, w.left);
      p := Down(false, p);
    }
  }

  lemma OtherOperand(op: Op, w: Expr, p: Path) returns (q: Path)
    requires Slot(op, w, p) && p.Down? && !Is(op, Get(op, w, p))
    ensures Operands(op, w, p, q)
  {
    q := SomeOperand(op, Child(w, !p.right));
    q := Down(!p.right, q);
  }

  lemma {:induction false} FirstPassTidies(e: Expr)
    requires e.Bin? && Dups1(e.op, e, Here, Here).count == 0
    ensures Tidy(e)
    decreases Size(e), 0
  {
    FirstPassDone(e);
    assert Get(e.op, e, Down(false, Here)) == e.left && Get(e.op, e, Down(true, Here)) == e.right;
    FirstPassBelow(e, Down(false, Here));
    FirstPassBelow(e, Down(true, Here));
  }

  lemma {:induction false} FirstPassBelow(e: Expr, p: Path)
    requires e.Bin? && Dups1(e.op, e, Here, Here).count == 0
    requires Slot(e.op, e, p) && p.Down?
    ensures TidyBelow(e.op, Get(e.op, e, p))
    decreases Size(Get(e.op, e, p)), 1
  {
    var x := Get(e.op, e, p);
    if Is(e.op, x) {
      ExtendSlot(e.op, e, p, false);
      ExtendSlot(e.op, e, p, true);
      FirstPassBelow(e, Extend(p, false));
      FirstPassBelow(e, Extend(p, true));
    } else if x.Bin? {
      var q := OtherOperand(e.op, e, p);
      PairTried(e.op, e, Here, Here, p, q);
      FirstPassTidies(x);
    }
  }

  // ----- Junctions whose operands are denied -----

  /** A symbol, a negated symbol or a comparison, as expr_transform leaves them. */
  predicate Literal(d: Expr) {
    match d
    case Sym(s) => !IsYmn(s)
    case Bin(_, _, _) => false
    case _ => Normal(d)
  }

  function Denied(d: Expr): Expr {
    match d
    case Neg(a) => a
    case Equal(l, r) => Unequal(l, r)
    case Unequal(l, r) => Equal(l, r)
    case _ => Neg(d)
  }

  /** The operands of e are literals, and the negations of all of them are in others. */
  predicate AllDenied(op: Op, e: Expr, others: set<Expr>) {
    if Is(op, e) then AllDenied(op, e.left, others) && AllDenied(op, e.right, others)
    else Literal(e) && Denied(e) in others
  }

  /** No operand of w is a junction of literals that the operands of w all deny. */
  ghost predicate NoneDenied(op: Op, w: Expr) {
    forall p | Slot(op, w, p) && Is(Dual(op), Get(op, w, p)) :: !AllDenied(Dual(op), Get(op, w, p), OperandSet(op, w))
  }

  /** Neither in e nor in the junctions that are operands of it, at any depth. */
  ghost predicate Undenied(e: Expr)
    decreases e, 0
  {
    e.Bin? ==> NoneDenied(e.op, e) && UndeniedBelow(e.op, e.left) && UndeniedBelow(e.op, e.right)
  }

  ghost predicate UndeniedBelow(op: Op, e: Expr)
    decreases e, 1
  {
    if Is(op, e) then UndeniedBelow(op, e.left) && UndeniedBelow(op, e.right) else Undenied(e)
  }

  // ----- Such a junction is contradicted -----

  predicate Literals(op: Op, e: Expr) {
    if Is(op, e) then Literals(op, e.left) && Literals(op, e.right) else Literal(e)
  }

  /** No operand occurs twice. */
  predicate Unrepeated(op: Op, w: Expr) {
    Is(op, w) ==>
      OperandSet(op, w.left) !! OperandSet(op, w.right) && Unrepeated(op, w.left) && Unrepeated(op, w.right)
  }

  function Denial(op: Op, e: Expr): Expr {
    if Is(op, e) then Bin(Dual(op), Denial(op, e.left), Denial(op, e.right)) else Denied(e)
  }

  lemma {:induction false} LiteralsAreNormal(op: Op, e: Expr)
    requires Literals(op, e)
    ensures Normal(e)
  {
    if Is(op, e) {
      LiteralsAreNormal(op, e.left);
      LiteralsAreNormal(op, e.right);
    }
  }

  lemma LiteralDenied(d: Expr)
    requires Literal(d)
    ensures Transform(Neg(d)) == Denied(d) && Literal(Denied(d)) && Denied(Denied(d)) == d
  {
    NormalIsFixed(d);
  }

  lemma {:induction false} NegationIsDenial(op: Op, e: Expr)
    requires Literals(op, e)
    ensures Transform(Neg(e)) == Denial(op, e)
  {
    if Is(op, e) {
      LiteralsAreNormal(op, e);
      NormalIsFixed(e);
      NegationIsDenial(op, e.left);
      NegationIsDenial(op, e.right);
    } else {
      LiteralDenied(e);
    }
  }

  lemma {:induction false} DenialOperands(op: Op, e: Expr)
    requires Literals(op, e)
    ensures forall d :: d in OperandSet(Dual(op), Denial(op, e)) <==> Literal(d) && Denied(d) in OperandSet(op, e)
    ensures Literals(Dual(op), Denial(op, e))
    ensures Unrepeated(op, e) ==> Unrepeated(Dual(op), Denial(op, e))
  {
    if Is(op, e) {
      DenialOperands(op, e.left);
      DenialOperands(op, e.right);
    } else {
      LiteralDenied(e);
      forall d | Literal(d) && Denied(d) == e ensures d == Denied(e) {
        LiteralDenied(d);
      }
    }
  }

  lemma {:induction false} DenialsInside(op: Op, e: Expr, others: set<Expr>)
    requires AllDenied(op, e, others)
    ensures Literals(op, e) && OperandSet(Dual(op), Denial(op, e)) <= others
  {
    if Is(op, e) {
      DenialsInside(op, e.left, others);
      DenialsInside(op, e.right, others);
    } else {
      LiteralDenied(e);
    }
  }

  /** A literal finds the operand that is the same and takes no other one with it. */
  lemma {:induction false} OneExtracted(op: Op, f: Option<Expr>, e: Expr, w: Expr)
    requires Literal(e) || e == Unit(op)
    ensures var r := ExtractEq(op, f, e, w);
      && r.1 == (if e in OperandSet(op, w) then Unit(op) else e)
      && OperandSet(op, w) - {e} <= OperandSet(op, r.2)
    decreases w
  {
    if Is(op, w) {
      var (g, e', l) := ExtractEq(op, f, e, w.left);
      OneExtracted(op, f, e, w.left);
      OneExtracted(op, g, e', w.right);
      UnitStays(op, g, w.right);
    } else {
      LiteralEq(e, w);
    }
  }

  lemma LiteralEq(e: Expr, w: Expr)
    requires Literal(e) || e.Sym?
    ensures Eq(e, w) <==> e == w
  {
  }

  /** What has become the unit leaves all other operands alone. */
  lemma {:induction false} UnitStays(op: Op, f: Option<Expr>, w: Expr)
    ensures ExtractEq(op, f, Unit(op), w).1 == Unit(op) && ExtractEq(op, f, Unit(op), w).2 == w
    decreases w
  {
    if Is(op, w) {
      UnitStays(op, f, w.left);
      UnitStays(op, ExtractEq(op, f, Unit(op), w.left).0, w.right);
    } else {
      LiteralEq(Unit(op), w);
    }
  }

  predicate AllUnits(op: Op, e: Expr) {
    if Is(op, e) then AllUnits(op, e.left) && AllUnits(op, e.right) else e == Unit(op)
  }

  lemma {:induction false} AllExtracted(op: Op, f: Option<Expr>, e: Expr, w: Expr)
    requires Literals(op, e) && Unrepeated(op, e) && OperandSet(op, e) <= OperandSet(op, w)
    ensures var r := ExtractEq(op, f, e, w);
      && AllUnits(op, r.1) && OperandSet(op, w) - OperandSet(op, e) <= OperandSet(op, r.2)
    decreases e
  {
    if Is(op, e) {
      var (g, l, w') := ExtractEq(op, f, e.left, w);
      AllExtracted(op, f, e.left, w);
      AllExtracted(op, g, e.right, w');
    } else {
      OneExtracted(op, f, e, w);
    }
  }

  lemma {:induction false} UnitsAreUnit(op: Op, e: Expr)
    requires AllUnits(op, e)
    ensures EliminateYn(e) == Unit(op) && !Literals(op, e)
  {
    if Is(op, e) {
      UnitsAreUnit(op, e.left);
      UnitsAreUnit(op, e.right);
    }
  }

  lemma DeniedIsContradicted(op: Op, w: Expr, p: Path)
    requires Slot(op, w, p)
    requires var e := Get(op, w, p); AllDenied(Dual(op), e, OperandSet(op, w)) && Unrepeated(Dual(op), e)
    ensures Contradicts(op, w, p, Here)
  {
    var e := Get(op, w, p);
    var x := Denial(Dual(op), e);
    DenialsInside(Dual(op), e, OperandSet(op, w));
    NegationIsDenial(Dual(op), e);
    DenialOperands(Dual(op), e);
    AllExtracted(op, None, x, w);
    UnitsAreUnit(op, ExtractEq(op, None, x, w).1);
  }

  // ----- The second pass tries every operand with the whole junction -----

  lemma {:induction false} OperandAt(op: Op, w: Expr, x: Expr) returns (p: Path)
    requires x in OperandSet(op, w)
    ensures Slot(op, w, p) && !Is(op, Get(op, w, p)) && Get(op, w, p) == x
  {
    p := Here;
    if Is(op, w) {
      if x in OperandSet(op, w.left) {
        p := OperandAt(op, w.left, x);
        p := Down(false, p);
      } else {
        p := OperandAt(op, w.right, x);
        p := Down(true, p);
      }
    }
  }

  lemma {:induction false} TidyIsUnrepeated(op: Op, w: Expr)
    requires NoneRedundant(op, w)
    ensures Unrepeated(op, w)
  {
    if Is(op, w) {
      forall x | x in OperandSet(op, w.left) ensures x !in OperandSet(op, w.right) {
        if x in OperandSet(op, w.right) {
          var p := OperandAt(op, w.left, x);
          var q := OperandAt(op, w.right, x);
          assert Operands(op, w, Down(false, p), Down(true, q));
          assert false;
        }
      }
      PartIsTidy(op, w, false);
      PartIsTidy(op, w, true);
      TidyIsUnrepeated(op, w.left);
      TidyIsUnrepeated(op, w.right);
    }
  }

  lemma PartIsTidy(op: Op, w: Expr, right: bool)
    requires Is(op, w) && NoneRedundant(op, w)
    ensures NoneRedundant(op, Child(w, right))
  {
    forall p, q | Operands(op, Child(w, right), p, q)
      ensures !Redundant(op, Get(op, Child(w, right), p), Get(op, Child(w, right), q))
    {
      assert Operands(op, w, Down(right, p), Down(right, q));
    }
  }

  lemma {:induction false} OperandTried(op: Op, w: Expr, p: Path, a: Path)
    requires Is(op, w) && Slot(op, w, p) && Dups2(op, w, p, Here).count == 0
    requires Slot(op, w, a) && !Is(op, Get(op, w, a)) && Under(p, a)
    ensures a.Down? && Dups2At(op, w, a, Here).count == 0
    decreases Nodes(op, Get(op, w, p))
  {
    UnderJunction(op, w, p, a);
    if Is(op, Get(op, w, p)) {
      ExtendSlot(op, w, p, false);
      ExtendSlot(op, w, p, true);
      OperandTried(op, w, Extend(p, Under(Extend(p, true), a)), a);
    }
  }

  lemma NotContradicted(op: Op, w: Expr, p: Path)
    requires Is(op, w) && Slot(op, w, p) && p.Down? && !Is(op, Get(op, w, p)) && Get(op, w, p).Bin?
    requires Dups2At(op, w, p, Here).count == 0
    ensures Dups2(Get(op, w, p).op, Get(op, w, p), Here, Here).count == 0 && !Contradicts(op, w, p, Here)
  {
    SetGet(op, w, p, Get(op, w, p));
  }

  lemma {:induction false} OperandIsTidy(op: Op, w: Expr, p: Path)
    requires TidyBelow(op, w) && Slot(op, w, p) && !Is(op, Get(op, w, p))
    ensures Tidy(Get(op, w, p))
    decreases p
  {
    if p.Down? {
      OperandIsTidy(op, Child(w, p.right), p.rest);
    }
  }

  lemma SecondPassAt(e: Expr, p: Path)
    requires e.Bin? && Dups2(e.op, e, Here, Here).count == 0 && Tidy(e)
    requires Slot(e.op, e, p) && Is(Dual(e.op), Get(e.op, e, p))
    ensures !AllDenied(Dual(e.op), Get(e.op, e, p), OperandSet(e.op, e))
  {
    var x := Get(e.op, e, p);
    OperandTried(e.op, e, Here, p);
    NotContradicted(e.op, e, p);
    OperandIsTidy(e.op, e, p);
    TidyIsUnrepeated(x.op, x);
    if AllDenied(Dual(e.op), x, OperandSet(e.op, e)) {
      DeniedIsContradicted(e.op, e, p);
    }
  }

  lemma {:induction false} SecondPassDone(e: Expr)
    requires e.Bin? && Dups2(e.op, e, Here, Here).count == 0 && Tidy(e)
    ensures Undenied(e)
    decreases Size(e), 0
  {
    forall p | Slot(e.op, e, p) && Is(Dual(e.op), Get(e.op, e, p))
      ensures !AllDenied(Dual(e.op), Get(e.op, e, p), OperandSet(e.op, e))
    {
      SecondPassAt(e, p);
    }
    assert Get(e.op, e, Down(false, Here)) == e.left && Get(e.op, e, Down(true, Here)) == e.right;
    SecondPassBelow(e, Down(false, Here));
    SecondPassBelow(e, Down(true, Here));
  }

  lemma {:induction false} SecondPassBelow(e: Expr, p: Path)
    requires e.Bin? && Dups2(e.op, e, Here, Here).count == 0 && Tidy(e)
    requires Slot(e.op, e, p) && p.Down?
    ensures UndeniedBelow(e.op, Get(e.op, e, p))
    decreases Size(Get(e.op, e, p)), 1
  {
    var x := Get(e.op, e, p);
    if Is(e.op, x) {
      ExtendSlot(e.op, e, p, false);
      ExtendSlot(e.op, e, p, true);
      SecondPassBelow(e, Extend(p, false));
      SecondPassBelow(e, Extend(p, true));
    } else if x.Bin? {
      OperandTried(e.op, e, Here, p);
      NotContradicted(e.op, e, p);
      OperandIsTidy(e.op, e, p);
      SecondPassDone(x);
    }
  }

  /** What is left of any expression: in every junction, nested ones included, no two
      operands are the same or fit one of the rules, and no operand is a junction of
      literals that are all denied beside it. */
  lemma {:induction false} EliminateDupsTidies(e: Expr)
    ensures Tidy(EliminateDups(e)) && Undenied(EliminateDups(e))
    decreases Size(e)
  {
    if e.Bin? {
      if Round(e).count > 0 {
        RoundShrinks(e);
        EliminateDupsTidies(EliminateYn(Round(e).expr));
      } else {
        FirstPassTidies(e);
        SecondPassDone(e);
      }
    }
  }
}
