// Normalisation of expressions: expr_transform and expr_trans_bool of
// scripts/kconfig/expr.c.
module ExprTransform {
  import opened Expressions

  /** Pushing a negation through a junction adds nodes; this weight still falls. */
  function Weight(e: Expr): (n: nat)
    ensures n > 0
  {
    match e
    case Sym(_) => 1
    case Equal(_, _) => 2
    case Unequal(_, _) => 2
    case Neg(a) => 2 * Weight(a)
    case Bin(_, l, r) => 1 + Weight(l) + Weight(r)
  }

  function Dual(op: Op): Op {
    if op.OpOr? then OpAnd else OpOr
  }

  lemma Weights(op: Op, l: Expr, r: Expr)
    ensures Weight(Bin(op, l, r)) == 1 + Weight(l) + Weight(r) && Weight(Neg(l)) == 2 * Weight(l)
  {
  }

  lemma DeMorganLightens(arg: Expr, op: Op, l: Expr, r: Expr)
    requires Weight(Bin(op, l, r)) <= Weight(arg)
    ensures Weight(Bin(Dual(op), Neg(l), Neg(r))) < Weight(Neg(arg))
  {
    hide Weight;
    Weights(op, l, r);
    Weights(op, r, l);
    Weights(op, arg, l);
    Weights(Dual(op), Neg(l), Neg(r));
  }

  /** A comparison of a boolean symbol with a tristate constant. */
  function Comparison(e: Expr): (r: Expr)
    requires e.Equal? || e.Unequal?
    ensures Weight(r) <= 2
  {
    if !TypeOf(e.lhs).Boolean? then e
    else if e.rhs == SYM_NO then (if e.Equal? then Neg(Sym(e.lhs)) else Sym(e.lhs))
    else if e.rhs == SYM_MOD then (if e.Equal? then Sym(SYM_NO) else Sym(SYM_YES))
    else if e.rhs == SYM_YES then (if e.Equal? then Sym(e.lhs) else Neg(Sym(e.lhs)))
    else e
  }

  /** expr_transform */
  function Transform(e: Expr): (r: Expr)
    ensures Weight(r) <= Weight(e)
    decreases Weight(e)
  {
    match e
    case Sym(_) => e
    case Equal(_, _) => Comparison(e)
    case Unequal(_, _) => Comparison(e)
    case Bin(op, left, right) => Bin(op, Transform(left), Transform(right))
    case Neg(arg) =>
      match Transform(arg)
      case Neg(a) => Transform(a)
      case Equal(l, r) => Unequal(l, r)
      case Unequal(l, r) => Equal(l, r)
      case Bin(op, l, r) =>
        DeMorganLightens(arg, op, l, r);
        Transform(Bin(Dual(op), Neg(l), Neg(r)))
      case Sym(s) =>
        if s == SYM_YES then Sym(SYM_NO)
        else if s == SYM_MOD then Sym(SYM_MOD)
        else if s == SYM_NO then Sym(SYM_YES)
        else Neg(Sym(s))
  }

  lemma ComparisonExact(e: Expr, env: Env)
    requires e.Equal? || e.Unequal?
    requires Typed(env)
    ensures Eval(Comparison(e), env) == Eval(e, env)
  {
  }

  lemma {:induction false} TransformExact(e: Expr, env: Env)
    requires Typed(env)
    ensures Eval(Transform(e), env) == Eval(e, env)
    decreases Weight(e)
  {
    match e
    case Sym(_) =>
    case Equal(_, _) => ComparisonExact(e, env);
    case Unequal(_, _) => ComparisonExact(e, env);
    case Bin(op, left, right) =>
      TransformExact(left, env);
      TransformExact(right, env);
    case Neg(arg) =>
      TransformExact(arg, env);
      match Transform(arg) {
        case Neg(a) => TransformExact(a, env);
        case Bin(op, l, r) =>
          DeMorganLightens(arg, op, l, r);
          TransformExact(Bin(Dual(op), Neg(l), Neg(r)), env);
        case _ =>
      }
  }

  predicate IsYmn(s: Symbol) {
    s == SYM_YES || s == SYM_MOD || s == SYM_NO
  }

  /** Negation stands only over a symbol other than the three constants, and no
      boolean symbol is compared with one of them. */
  predicate Normal(e: Expr) {
    match e
    case Sym(_) => true
    case Neg(a) => a.Sym? && !IsYmn(a.sym)
    case Bin(_, l, r) => Normal(l) && Normal(r)
    case _ => !(TypeOf(e.lhs).Boolean? && IsYmn(e.rhs))
  }

  lemma {:induction false} TransformNormalizes(e: Expr)
    ensures Normal(Transform(e))
    decreases Weight(e)
  {
    match e
    case Bin(op, left, right) =>
      TransformNormalizes(left);
      TransformNormalizes(right);
    case Neg(arg) =>
      TransformNormalizes(arg);
      match Transform(arg) {
        case Neg(a) => TransformNormalizes(a);
        case Bin(op, l, r) =>
          DeMorganLightens(arg, op, l, r);
          TransformNormalizes(Bin(Dual(op), Neg(l), Neg(r)));
        case _ =>
      }
    case _ =>
  }

  lemma {:induction false} NormalIsFixed(e: Expr)
    requires Normal(e)
    ensures Transform(e) == e
  {
    if e.Bin? {
      NormalIsFixed(e.left);
      NormalIsFixed(e.right);
    }
  }

  /** The normal forms are exactly the fixed points, so transforming twice is
      transforming once. */
  lemma TransformFixedPoints(e: Expr)
    ensures Transform(e) == e <==> Normal(e)
    ensures Transform(Transform(e)) == Transform(e)
  {
    TransformNormalizes(e);
    NormalIsFixed(Transform(e));
  }

  function Leaves(e: Expr): (n: nat)
    ensures n > 0
  {
    match e
    case Neg(a) => Leaves(a)
    case Bin(_, l, r) => Leaves(l) + Leaves(r)
    case _ => 1
  }

  lemma {:induction false} TransformKeepsLeaves(e: Expr)
    ensures Leaves(Transform(e)) == Leaves(e)
    decreases Weight(e)
  {
    match e
    case Bin(_, left, right) =>
      TransformKeepsLeaves(left);
      TransformKeepsLeaves(right);
    case Neg(arg) =>
      TransformKeepsLeaves(arg);
      match Transform(arg) {
        case Neg(a) => TransformKeepsLeaves(a);
        case Bin(op, l, r) =>
          DeMorganLightens(arg, op, l, r);
          TransformKeepsLeaves(Bin(Dual(op), Neg(l), Neg(r)));
        case _ =>
      }
    case _ =>
  }

  lemma {:induction false} NormalSize(e: Expr)
    requires Normal(e)
    ensures Size(e) <= 3 * Leaves(e) - 1
  {
    if e.Bin? {
      NormalSize(e.left);
      NormalSize(e.right);
    }
  }

  lemma {:induction false} LeastSize(e: Expr)
    ensures Size(e) >= 2 * Leaves(e) - 1
  {
    match e
    case Neg(a) => LeastSize(a);
    case Bin(_, l, r) => LeastSize(l); LeastSize(r);
    case _ =>
  }

  /** Normalisation adds at most half of the nodes, and one more. */
  lemma TransformGrowth(e: Expr)
    ensures 2 * Size(Transform(e)) <= 3 * Size(e) + 1
  {
    TransformKeepsLeaves(e);
    TransformNormalizes(e);
    NormalSize(Transform(e));
    LeastSize(e);
  }

  /** The bound is reached. */
  lemma TransformGrowthIsReached(s: Symbol)
    requires TypeOf(s).Boolean?
    ensures 2 * Size(Transform(Equal(s, SYM_NO))) == 3 * Size(Equal(s, SYM_NO)) + 1
  {
  }

  /** Negation stands only over symbols. */
  predicate NegOverSymbols(e: Expr) {
    match e
    case Neg(a) => a.Sym?
    case Bin(_, l, r) => NegOverSymbols(l) && NegOverSymbols(r)
    case _ => true
  }

  lemma {:induction false} NormalNegation(e: Expr)
    requires Normal(e)
    ensures NegOverSymbols(e)
  {
    if e.Bin? {
      NormalNegation(e.left);
      NormalNegation(e.right);
    }
  }

  /** expr_trans_bool */
  function TransBool(e: Expr): Expr {
    match e
    case Bin(op, l, r) => Bin(op, TransBool(l), TransBool(r))
    case Neg(a) => Neg(TransBool(a))
    case Unequal(l, r) => if TypeOf(l).Tri? && r == SYM_NO then Sym(l) else e
    case _ => e
  }

  /** No tristate symbol is compared with n by "!=". */
  predicate BoolForm(e: Expr) {
    match e
    case Neg(a) => BoolForm(a)
    case Bin(_, l, r) => BoolForm(l) && BoolForm(r)
    case Unequal(l, r) => !(TypeOf(l).Tri? && r == SYM_NO)
    case _ => true
  }

  /** What remains has no such comparison, and an expression without them stays as it is. */
  lemma {:induction false} TransBoolFixedPoints(e: Expr)
    ensures BoolForm(TransBool(e))
    ensures TransBool(e) == e <==> BoolForm(e)
  {
    match e
    case Neg(a) => TransBoolFixedPoints(a);
    case Bin(_, l, r) =>
      TransBoolFixedPoints(l);
      TransBoolFixedPoints(r);
    case _ =>
  }

  /** Under negation over symbols only, whether the value is no stays the same; a
      yes may at most be lowered to mod. */
  lemma {:induction false} TransBoolKeepsNo(e: Expr, env: Env)
    requires Typed(env)
    requires NegOverSymbols(e)
    ensures Eval(TransBool(e), env) == NO <==> Eval(e, env) == NO
    ensures Eval(TransBool(e), env) <= Eval(e, env)
  {
    match e
    case Bin(_, l, r) =>
      TransBoolKeepsNo(l, env);
      TransBoolKeepsNo(r, env);
    case Unequal(l, _) =>
      assert env.tri(l) == MOD ==> env.modules;
    case _ =>
  }

  /** Over a negated comparison the outcome is lost exactly when the symbol is mod. */
  lemma TransBoolNegatedComparison(s: Symbol, env: Env)
    requires Typed(env)
    requires TypeOf(s).Tri?
    ensures var e := Neg(Unequal(s, SYM_NO));
      (Eval(TransBool(e), env) == NO <==> Eval(e, env) == NO) <==> env.tri(s) != MOD
  {
  }
}
