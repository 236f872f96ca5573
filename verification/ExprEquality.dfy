// Constant elimination, equality by cancellation and extraction of common
// factors: scripts/kconfig/expr.c.
module ExprEquality {
  import opened Options
  import opened Expressions

  /** expr_eliminate_yn */
  function EliminateYn(e: Expr): (r: Expr)
    ensures Size(r) <= Size(e)
  {
    match e
    case Bin(op, left, right) =>
      var l, r := EliminateYn(left), EliminateYn(right);
      if l == Zero(op) then Zero(op)
      else if l == Unit(op) then r
      else if r == Zero(op) then Zero(op)
      else if r == Unit(op) then l
      else Bin(op, l, r)
    case _ => e
  }

  lemma {:induction false} EliminateYnExact(e: Expr, env: Env)
    ensures Eval(EliminateYn(e), env) == Eval(e, env)
  {
    if e.Bin? {
      EliminateYnExact(e.left, env);
      EliminateYnExact(e.right, env);
    }
  }

  /** No junction has an operand that is the constant yes or no. */
  predicate Pruned(e: Expr) {
    e.Bin? ==> !IsConstant(e.left) && !IsConstant(e.right) && Pruned(e.left) && Pruned(e.right)
  }

  lemma {:induction false} EliminateYnPrunes(e: Expr)
    ensures Pruned(EliminateYn(e))
    ensures Pruned(e) <==> EliminateYn(e) == e
    ensures !Pruned(e) <==> Size(EliminateYn(e)) < Size(e)
  {
    if e.Bin? {
      EliminateYnPrunes(e.left);
      EliminateYnPrunes(e.right);
    }
  }

  predicate SameConstant(e1: Expr, e2: Expr) {
    e1 == e2 && IsConstant(e1)
  }

  /** expr_eq; its two arguments are copied, so nothing is overwritten. */
  function Eq(e1: Expr, e2: Expr): bool
    decreases Size(e1) + Size(e2), 2
  {
    match e1
    case Neg(a) => e2.Neg? && Eq(a, e2.arg)
    case Bin(op, _, _) =>
      Is(op, e2) &&
      var (r1, r2) := EliminateEq(e1, e2);
      r1.Sym? && r1 == r2
    case _ => e1 == e2
  }

  /** expr_eliminate_eq */
  function EliminateEq(e1: Expr, e2: Expr): (r: (Expr, Expr))
    ensures Size(r.0) + Size(r.1) <= Size(e1) + Size(e2)
    decreases Size(e1) + Size(e2), 1
  {
    var (a1, a2) := if e1.Bin? then Cancel(e1.op, e1, e2) else (e1, e2);
    var (b1, b2) := if a2.Bin? && !Is(a2.op, a1) then Cancel(a2.op, a1, a2) else (a1, a2);
    (EliminateYn(b1), EliminateYn(b2))
  }

  /** __expr_eliminate_eq: replaces matching operands of the two trees by the unit. */
  function Cancel(op: Op, e1: Expr, e2: Expr): (r: (Expr, Expr))
    ensures Size(r.0) <= Size(e1) && Size(r.1) <= Size(e2)
    ensures Is(op, e1) ==> Is(op, r.0)
    ensures Is(op, e2) ==> Is(op, r.1)
    decreases Size(e1) + Size(e2), if Is(op, e1) || Is(op, e2) then 0 else 3
  {
    if Is(op, e1) then
      var (l, e2') := Cancel(op, e1.left, e2);
      var (r, e2'') := Cancel(op, e1.right, e2');
      (Bin(op, l, r), e2'')
    else if Is(op, e2) then
      var (e1', l) := Cancel(op, e1, e2.left);
      var (e1'', r) := Cancel(op, e1', e2.right);
      (e1'', Bin(op, l, r))
    else if !SameConstant(e1, e2) && Eq(e1, e2) then
      (Unit(op), Unit(op))
    else
      (e1, e2)
  }

  /** What Cancel takes out of both trees. */
  ghost function Cancelled(op: Op, e1: Expr, e2: Expr): Expr
    decreases Size(e1) + Size(e2)
  {
    if Is(op, e1) then
      var (l, e2') := Cancel(op, e1.left, e2);
      Bin(op, Cancelled(op, e1.left, e2), Cancelled(op, e1.right, e2'))
    else if Is(op, e2) then
      var (e1', l) := Cancel(op, e1, e2.left);
      Bin(op, Cancelled(op, e1, e2.left), Cancelled(op, e1', e2.right))
    else if !SameConstant(e1, e2) && Eq(e1, e2) then e1
    else Unit(op)
  }

  lemma Regroup(op: Op, a: Tristate, b: Tristate, c: Tristate, d: Tristate)
    ensures Apply(op, Apply(op, a, b), Apply(op, c, d)) == Apply(op, Apply(op, a, c), Apply(op, b, d))
    ensures Apply(op, Apply(op, a, b), c) == Apply(op, a, Apply(op, b, c))
  {}

  /** Each of e1 and e2 is the common value c combined with its residue. */
  ghost predicate Factored(op: Op, c: Tristate, e1: Expr, e2: Expr, r1: Expr, r2: Expr, env: Env) {
    Eval(e1, env) == Apply(op, c, Eval(r1, env)) && Eval(e2, env) == Apply(op, c, Eval(r2, env))
  }

  lemma FactoredJoins(op: Op, c1: Tristate, c2: Tristate, left: Expr, right: Expr, e: Expr,
                      l: Expr, r: Expr, e': Expr, e'': Expr, env: Env)
    requires Factored(op, c1, left, e, l, e', env)
    requires Factored(op, c2, right, e', r, e'', env)
    ensures Factored(op, Apply(op, c1, c2), Bin(op, left, right), e, Bin(op, l, r), e'', env)
  {
    Regroup(op, c1, Eval(l, env), c2, Eval(r, env));
    Regroup(op, c1, c2, Eval(e'', env), Eval(e'', env));
  }

  /** The cancellation invariant: the common factor does not depend on the
      environment. */
  lemma {:induction false} CancelKeepsFactor(op: Op, e1: Expr, e2: Expr, env: Env)
    ensures var (r1, r2) := Cancel(op, e1, e2);
      Factored(op, Eval(Cancelled(op, e1, e2), env), e1, e2, r1, r2, env)
    decreases Size(e1) + Size(e2), if Is(op, e1) || Is(op, e2) then 0 else 3
  {
    if Is(op, e1) {
      var (l, e2') := Cancel(op, e1.left, e2);
      var (r, e2'') := Cancel(op, e1.right, e2');
      var c1, c2 := Cancelled(op, e1.left, e2), Cancelled(op, e1.right, e2');
      CancelKeepsFactor(op, e1.left, e2, env);
      CancelKeepsFactor(op, e1.right, e2', env);
      FactoredJoins(op, Eval(c1, env), Eval(c2, env), e1.left, e1.right, e2, l, r, e2', e2'', env);
    } else if Is(op, e2) {
      var (e1', l) := Cancel(op, e1, e2.left);
      var (e1'', r) := Cancel(op, e1', e2.right);
      var c1, c2 := Cancelled(op, e1, e2.left), Cancelled(op, e1', e2.right);
      CancelKeepsFactor(op, e1, e2.left, env);
      CancelKeepsFactor(op, e1', e2.right, env);
      FactoredJoins(op, Eval(c1, env), Eval(c2, env), e2.left, e2.right, e1, l, r, e1', e1'', env);
    } else {
      CancelLeaf(op, e1, e2, env);
    }
  }

  lemma {:induction false} CancelLeaf(op: Op, e1: Expr, e2: Expr, env: Env)
    requires !Is(op, e1) && !Is(op, e2)
    ensures var (r1, r2) := Cancel(op, e1, e2);
      Factored(op, Eval(Cancelled(op, e1, e2), env), e1, e2, r1, r2, env)
    decreases Size(e1) + Size(e2), 2, 1
  {
    if Eq(e1, e2) {
      EqSound(e1, e2, env);
    }
  }

  lemma {:induction false} EqSound(e1: Expr, e2: Expr, env: Env)
    requires Eq(e1, e2)
    ensures Eval(e1, env) == Eval(e2, env)
    decreases Size(e1) + Size(e2), 2, 0
  {
    match e1
    case Neg(a) => EqSound(a, e2.arg, env);
    case Bin(op, _, _) =>
      CancelKeepsFactor(op, e1, e2, env);
      var (r1, r2) := Cancel(op, e1, e2);
      assert EliminateEq(e1, e2) == (EliminateYn(r1), EliminateYn(r2));
      EliminateYnExact(r1, env);
      EliminateYnExact(r2, env);
    case _ =>
  }

  /** r1 and r2 are ordered only if e1 and e2 are. */
  ghost predicate ReflectsOrder(e1: Expr, e2: Expr, r1: Expr, r2: Expr, env: Env) {
    && (Eval(r1, env) <= Eval(r2, env) ==> Eval(e1, env) <= Eval(e2, env))
    && (Eval(r2, env) <= Eval(r1, env) ==> Eval(e2, env) <= Eval(e1, env))
  }

  lemma CancelReflectsOrder(op: Op, e1: Expr, e2: Expr, env: Env)
    ensures var (r1, r2) := Cancel(op, e1, e2); ReflectsOrder(e1, e2, r1, r2, env)
  {
    CancelKeepsFactor(op, e1, e2, env);
  }

  /** expr_eliminate_eq only takes common factors away, so an ordering of the
      residues holds of the two expressions as well. */
  lemma EliminateEqReflectsOrder(e1: Expr, e2: Expr, env: Env)
    ensures var (r1, r2) := EliminateEq(e1, e2); ReflectsOrder(e1, e2, r1, r2, env)
  {
    var (a1, a2) := if e1.Bin? then Cancel(e1.op, e1, e2) else (e1, e2);
    if e1.Bin? {
      CancelReflectsOrder(e1.op, e1, e2, env);
    }
    var (b1, b2) := if a2.Bin? && !Is(a2.op, a1) then Cancel(a2.op, a1, a2) else (a1, a2);
    if a2.Bin? && !Is(a2.op, a1) {
      CancelReflectsOrder(a2.op, a1, a2, env);
    }
    assert EliminateEq(e1, e2) == (EliminateYn(b1), EliminateYn(b2));
    EliminateYnExact(b1, env);
    EliminateYnExact(b2, env);
  }

  /** expr_extract_eq: moves matching operands of both trees into factor. */
  function ExtractEq(op: Op, factor: Option<Expr>, e1: Expr, e2: Expr): (r: (Option<Expr>, Expr, Expr))
    ensures Size(r.1) <= Size(e1) && Size(r.2) <= Size(e2)
    ensures r.0.None? ==> factor.None? && r.1 == e1 && r.2 == e2
    decreases Size(e1) + Size(e2)
  {
    if Is(op, e1) then
      var (f, l, e2') := ExtractEq(op, factor, e1.left, e2);
      var (f', r, e2'') := ExtractEq(op, f, e1.right, e2');
      (f', Bin(op, l, r), e2'')
    else if Is(op, e2) then
      var (f, e1', l) := ExtractEq(op, factor, e1, e2.left);
      var (f', e1'', r) := ExtractEq(op, f, e1', e2.right);
      (f', e1'', Bin(op, l, r))
    else if Eq(e1, e2) then
      (Some(if factor.Some? then Bin(op, factor.value, e1) else e1), Unit(op), Unit(op))
    else
      (factor, e1, e2)
  }

  /** expr_extract_eq_and and expr_extract_eq_or */
  function Extract(op: Op, e1: Expr, e2: Expr): (r: (Option<Expr>, Expr, Expr)) {
    var (f, r1, r2) := ExtractEq(op, None, e1, e2);
    if f.Some? then (f, EliminateYn(r1), EliminateYn(r2)) else (f, r1, r2)
  }

  /** The value of a factor that may not have been found: then it is the unit. */
  function FactorValue(op: Op, factor: Option<Expr>, env: Env): Tristate {
    Eval(if factor.Some? then factor.value else Unit(op), env)
  }

  lemma {:induction false} ExtractEqKeepsFactor(op: Op, factor: Option<Expr>, e1: Expr, e2: Expr, env: Env)
    returns (c: Tristate)
    ensures var (f, r1, r2) := ExtractEq(op, factor, e1, e2);
      && Factored(op, c, e1, e2, r1, r2, env)
      && FactorValue(op, f, env) == Apply(op, FactorValue(op, factor, env), c)
    decreases Size(e1) + Size(e2)
  {
    if Is(op, e1) {
      var (f, l, e2') := ExtractEq(op, factor, e1.left, e2);
      var (f', r, e2'') := ExtractEq(op, f, e1.right, e2');
      var c1 := ExtractEqKeepsFactor(op, factor, e1.left, e2, env);
      var c2 := ExtractEqKeepsFactor(op, f, e1.right, e2', env);
      c := Apply(op, c1, c2);
      FactoredJoins(op, c1, c2, e1.left, e1.right, e2, l, r, e2', e2'', env);
      Regroup(op, FactorValue(op, factor, env), c1, c2, c2);
    } else if Is(op, e2) {
      var (f, e1', l) := ExtractEq(op, factor, e1, e2.left);
      var (f', e1'', r) := ExtractEq(op, f, e1', e2.right);
      var c1 := ExtractEqKeepsFactor(op, factor, e1, e2.left, env);
      var c2 := ExtractEqKeepsFactor(op, f, e1', e2.right, env);
      c := Apply(op, c1, c2);
      FactoredJoins(op, c1, c2, e2.left, e2.right, e1, l, r, e1', e1'', env);
      Regroup(op, FactorValue(op, factor, env), c1, c2, c2);
    } else {
      c := ExtractLeaf(op, factor, e1, e2, env);
    }
  }

  lemma ExtractLeaf(op: Op, factor: Option<Expr>, e1: Expr, e2: Expr, env: Env) returns (c: Tristate)
    requires !Is(op, e1) && !Is(op, e2)
    ensures var (f, r1, r2) := ExtractEq(op, factor, e1, e2);
      && Factored(op, c, e1, e2, r1, r2, env)
      && FactorValue(op, f, env) == Apply(op, FactorValue(op, factor, env), c)
  {
    if Eq(e1, e2) {
      EqSound(e1, e2, env);
      c := Eval(e1, env);
    } else {
      c := Eval(Unit(op), env);
    }
  }

  /** Each expression is the extracted factor combined with its residue. */
  lemma ExtractKeepsFactor(op: Op, e1: Expr, e2: Expr, env: Env)
    ensures var (f, r1, r2) := Extract(op, e1, e2);
      Factored(op, FactorValue(op, f, env), e1, e2, r1, r2, env)
  {
    var (f, r1, r2) := ExtractEq(op, None, e1, e2);
    var c := ExtractEqKeepsFactor(op, None, e1, e2, env);
    assert FactorValue(op, f, env) == c;
    EliminateYnExact(r1, env);
    EliminateYnExact(r2, env);
  }
}
