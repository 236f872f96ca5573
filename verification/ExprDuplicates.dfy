// Removal of duplicate and contradictory operands: expr_eliminate_dups of
// scripts/kconfig/expr.c.
module ExprDuplicates {
  import opened Options
  import opened Expressions
  import opened ExprEquality
  import opened ExprPaths
  import opened ExprTransform

  // ----- Joining two operands -----

  /** The symbol an operand is about; only the first operand of a pair may be the
      negation of a comparison. */
  function Subject(e: Expr, first: bool): Option<Symbol> {
    match e
    case Sym(s) => Some(s)
    case Equal(l, _) => Some(l)
    case Unequal(l, _) => Some(l)
    case Neg(Sym(s)) => Some(s)
    case Neg(Equal(l, _)) => if first then Some(l) else None
    case Neg(Unequal(l, _)) => if first then Some(l) else None
    case _ => None
  }

  predicate Pair(a: Symbol, b: Symbol, x: Symbol, y: Symbol) {
    (a == x && b == y) || (a == y && b == x)
  }

  predicate NegatedSymbol(e: Expr) {
    e.Neg? && e.arg.Sym?
  }

  function JoinOr(s: Symbol, e1: Expr, e2: Expr): Option<Expr> {
    if TypeOf(s).Tri? && e1.Equal? && e2.Equal? && Pair(e1.rhs, e2.rhs, SYM_YES, SYM_MOD) then Some(Unequal(s, SYM_NO))
    else if TypeOf(s).Tri? && e1.Equal? && e2.Equal? && Pair(e1.rhs, e2.rhs, SYM_YES, SYM_NO) then Some(Unequal(s, SYM_MOD))
    else if TypeOf(s).Tri? && e1.Equal? && e2.Equal? && Pair(e1.rhs, e2.rhs, SYM_MOD, SYM_NO) then Some(Unequal(s, SYM_YES))
    else if TypeOf(s).Boolean? && ((NegatedSymbol(e1) && e2.Sym?) || (NegatedSymbol(e2) && e1.Sym?)) then
      Some(Sym(SYM_YES))
    else None
  }

  /** One operand is the symbol itself and the other compares it with x. */
  predicate SymbolAndEqual(e1: Expr, e2: Expr, x: Symbol) {
    (e1.Sym? && e2.Equal? && e2.rhs == x) || (e2.Sym? && e1.Equal? && e1.rhs == x)
  }

  predicate SymbolAndUnequal(e1: Expr, e2: Expr, x: Symbol) {
    (e1.Sym? && e2.Unequal? && e2.rhs == x) || (e2.Sym? && e1.Unequal? && e1.rhs == x)
  }

  function JoinAnd(s: Symbol, e1: Expr, e2: Expr): Option<Expr> {
    if SymbolAndEqual(e1, e2, SYM_YES) then Some(Equal(s, SYM_YES))
    else if SymbolAndUnequal(e1, e2, SYM_NO) then Some(Sym(s))
    else if SymbolAndUnequal(e1, e2, SYM_MOD) then Some(Equal(s, SYM_YES))
    else if !TypeOf(s).Tri? then None
    else if e1.Equal? && e2.Unequal? && e1.rhs.Const? && e2.rhs.Const? then
      Some(if e1.rhs != e2.rhs then Equal(s, e1.rhs) else Sym(SYM_NO))
    else if e1.Unequal? && e2.Equal? && e1.rhs.Const? && e2.rhs.Const? then
      Some(if e2.rhs != e1.rhs then Equal(s, e2.rhs) else Sym(SYM_NO))
    else if e1.Unequal? && e2.Unequal? && Pair(e1.rhs, e2.rhs, SYM_YES, SYM_NO) then Some(Equal(s, SYM_MOD))
    else if e1.Unequal? && e2.Unequal? && Pair(e1.rhs, e2.rhs, SYM_YES, SYM_MOD) then Some(Equal(s, SYM_NO))
    else if e1.Unequal? && e2.Unequal? && Pair(e1.rhs, e2.rhs, SYM_MOD, SYM_NO) then Some(Equal(s, SYM_YES))
    else None
  }

  /** expr_join_or and expr_join_and */
  function Join(op: Op, e1: Expr, e2: Expr): (r: Option<Expr>)
    ensures r.Some? ==> r.value == e1 || Size(r.value) == 1
  {
    if Eq(e1, e2) then Some(e1)
    else
      var s1, s2 := Subject(e1, true), Subject(e2, false);
      if s1.None? || s2.None? || s1 != s2 || !IsTristate(s1.value) then None
      else if op.OpOr? then JoinOr(s1.value, e1, e2)
      else JoinAnd(s1.value, e1, e2)
  }

  lemma JoinOrExact(s: Symbol, e1: Expr, e2: Expr, env: Env)
    requires Typed(env)
    requires Subject(e1, true) == Some(s) == Subject(e2, false)
    requires IsTristate(s)
    requires JoinOr(s, e1, e2).Some?
    ensures Eval(JoinOr(s, e1, e2).value, env) == Or(Eval(e1, env), Eval(e2, env))
  {
  }

  lemma JoinAndExact(s: Symbol, e1: Expr, e2: Expr, env: Env)
    requires Typed(env)
    requires Subject(e1, true) == Some(s) == Subject(e2, false)
    requires IsTristate(s)
    requires JoinAnd(s, e1, e2).Some?
    ensures Eval(JoinAnd(s, e1, e2).value, env) == And(Eval(e1, env), Eval(e2, env))
  {
    assert env.tri(s) == MOD ==> !TypeOf(s).Boolean? && env.modules;
  }

  /** A join replaces two operands by one of the same value. */
  lemma JoinExact(op: Op, e1: Expr, e2: Expr, env: Env)
    requires Typed(env)
    requires Join(op, e1, e2).Some?
    ensures Eval(Join(op, e1, e2).value, env) == Apply(op, Eval(e1, env), Eval(e2, env))
  {
    if Eq(e1, e2) {
      EqSound(e1, e2, env);
    } else if op.OpOr? {
      JoinOrExact(Subject(e1, true).value, e1, e2, env);
    } else {
      JoinAndExact(Subject(e1, true).value, e1, e2, env);
    }
  }

  // ----- One pass over all pairs of operands -----

  /** What a pass makes of a tree, and by how much it raises trans_count. */
  datatype Rewrite = Rewrite(expr: Expr, count: nat)

  /** A pass keeps the nodes of op at the top and never adds nodes; when it reports
      a change it leaves a constant operand for expr_eliminate_yn to remove. */
  predicate Sound(op: Op, w: Expr, r: Rewrite) {
    && Size(r.expr) <= Size(w)
    && SameShape(op, w, r.expr)
    && (if r.count == 0 then r.expr == w else !Pruned(r.expr))
  }

  /** p and q point at two different operands of w. */
  predicate Operands(op: Op, w: Expr, p: Path, q: Path) {
    && Slot(op, w, p) && Slot(op, w, q) && p != q
    && !Is(op, Get(op, w, p)) && !Is(op, Get(op, w, q))
  }

  lemma SoundJoins(op: Op, u: Expr, v: Rewrite, w: Rewrite)
    requires Sound(op, u, v) && Sound(op, v.expr, w)
    ensures Sound(op, u, Rewrite(w.expr, v.count + w.count))
  {
    SameShapeTransitive(op, u, v.expr, w.expr);
  }

  /** Overwriting an operand with a rewritten one. */
  lemma SoundAt(op: Op, w: Expr, p: Path, r: Rewrite)
    requires Slot(op, w, p) && !Is(op, Get(op, w, p)) && !Is(op, r.expr)
    requires Size(r.expr) <= Size(Get(op, w, p))
    requires if r.count == 0 then r.expr == Get(op, w, p)
             else !Pruned(r.expr) || (p.Down? && IsConstant(r.expr))
    ensures Sound(op, w, Rewrite(Set(op, w, p, r.expr), r.count))
  {
    SetGet(op, w, p, r.expr);
    SetKeepsShape(op, w, p, r.expr);
    if r.count > 0 {
      SlotPruned(op, Set(op, w, p, r.expr), p);
    }
  }

  /** The last part of expr_eliminate_dups1: the first operand becomes the unit and
      the second one the join. */
  function JoinAt(op: Op, w: Expr, p: Path, q: Path): Rewrite
    requires Operands(op, w, p, q)
  {
    match Join(op, Get(op, w, p), Get(op, w, q))
    case None => Rewrite(w, 0)
    case Some(t) =>
      SetOther(op, w, p, q, Unit(op));
      Rewrite(Set(op, Set(op, w, p, Unit(op)), q, t), 1)
  }

  lemma JoinAtSound(op: Op, w: Expr, p: Path, q: Path)
    requires Operands(op, w, p, q)
    ensures Sound(op, w, JoinAt(op, w, p, q))
  {
    SameShapeReflexive(op, w);
    var t := Join(op, Get(op, w, p), Get(op, w, q));
    if t.Some? {
      var v := Set(op, w, p, Unit(op));
      SetGet(op, w, p, Unit(op));
      SetOther(op, w, p, q, Unit(op));
      SetKeepsShape(op, w, p, Unit(op));
      var u := Set(op, v, q, t.value);
      SetGet(op, v, q, t.value);
      SetKeepsShape(op, v, q, t.value);
      SetOther(op, v, q, p, t.value);
      SameShapeTransitive(op, w, v, u);
      SlotPruned(op, u, p);
    }
  }

  lemma JoinAtExact(op: Op, w: Expr, p: Path, q: Path, env: Env)
    requires Operands(op, w, p, q)
    requires Typed(env)
    ensures Eval(JoinAt(op, w, p, q).expr, env) == Eval(w, env)
  {
    var e1, e2 := Get(op, w, p), Get(op, w, q);
    var t := Join(op, e1, e2);
    if t.Some? {
      var v := Set(op, w, p, Unit(op));
      SetOther(op, w, p, q, Unit(op));
      SetGet(op, v, q, t.value);
      SetSet(op, v, q, t.value, Unit(op));
      SlotValue(op, w, p, env);
      SlotValue(op, v, q, env);
      SlotValue(op, Set(op, v, q, t.value), q, env);
      JoinExact(op, e1, e2, env);
      var rest := Eval(Set(op, v, q, Unit(op)), env);
      Regroup(op, Eval(e1, env), Eval(e2, env), rest, rest);
    }
  }

  /** expr_eliminate_dups1, called on the places p and q inside w. */
  function Dups1(op: Op, w: Expr, p: Path, q: Path): (r: Rewrite)
    requires Slot(op, w, p) && Slot(op, w, q)
    ensures Sound(op, w, r)
    decreases Size(w), Nodes(op, Get(op, w, p)) + Nodes(op, Get(op, w, q)), 1
  {
    if Is(op, Get(op, w, p)) then
      ExtendSlot(op, w, p, false);
      ExtendSlot(op, w, p, true);
      var r1 := Dups1(op, w, Extend(p, false), q);
      SlotShape(op, w, r1.expr, Extend(p, true));
      SlotShape(op, w, r1.expr, q);
      var r2 := Dups1(op, r1.expr, Extend(p, true), q);
      SoundJoins(op, w, r1, r2);
      Rewrite(r2.expr, r1.count + r2.count)
    else if Is(op, Get(op, w, q)) then
      ExtendSlot(op, w, q, false);
      ExtendSlot(op, w, q, true);
      var r1 := Dups1(op, w, p, Extend(q, false));
      SlotShape(op, w, r1.expr, p);
      SlotShape(op, w, r1.expr, Extend(q, true));
      var r2 := Dups1(op, r1.expr, p, Extend(q, true));
      SoundJoins(op, w, r1, r2);
      Rewrite(r2.expr, r1.count + r2.count)
    else if p == q then
      SameShapeReflexive(op, w);
      Rewrite(w, 0)
    else
      var r1 := Dups1Inner(op, w, p, q);
      var r2 := JoinAt(op, r1.expr, p, q);
      JoinAtSound(op, r1.expr, p, q);
      SoundJoins(op, w, r1, r2);
      Rewrite(r2.expr, r1.count + r2.count)
  }

  /** A first operand that is itself a junction is cleaned up first. */
  function Dups1Inner(op: Op, w: Expr, p: Path, q: Path): (r: Rewrite)
    requires Operands(op, w, p, q)
    ensures Sound(op, w, r)
    ensures Operands(op, r.expr, p, q)
    decreases Size(w), 0, 0
  {
    SameShapeReflexive(op, w);
    var e := Get(op, w, p);
    if e.Bin? then
      SetGet(op, w, p, e);
      var r := Dups1(e.op, e, Here, Here);
      SoundAt(op, w, p, r);
      SetOther(op, w, p, q, r.expr);
      SetGet(op, w, p, r.expr);
      Rewrite(Set(op, w, p, r.expr), r.count)
    else Rewrite(w, 0)
  }

  /** The first pass never changes the value, not even when it is mod. */
  lemma {:induction false} Dups1Exact(op: Op, w: Expr, p: Path, q: Path, env: Env)
    requires Slot(op, w, p) && Slot(op, w, q)
    requires Typed(env)
    ensures Eval(Dups1(op, w, p, q).expr, env) == Eval(w, env)
    decreases Size(w), Nodes(op, Get(op, w, p)) + Nodes(op, Get(op, w, q)), 1
  {
    if Is(op, Get(op, w, p)) {
      ExtendSlot(op, w, p, false);
      ExtendSlot(op, w, p, true);
      var r1 := Dups1(op, w, Extend(p, false), q);
      SlotShape(op, w, r1.expr, Extend(p, true));
      SlotShape(op, w, r1.expr, q);
      Dups1Exact(op, w, Extend(p, false), q, env);
      Dups1Exact(op, r1.expr, Extend(p, true), q, env);
    } else if Is(op, Get(op, w, q)) {
      ExtendSlot(op, w, q, false);
      ExtendSlot(op, w, q, true);
      var r1 := Dups1(op, w, p, Extend(q, false));
      SlotShape(op, w, r1.expr, p);
      SlotShape(op, w, r1.expr, Extend(q, true));
      Dups1Exact(op, w, p, Extend(q, false), env);
      Dups1Exact(op, r1.expr, p, Extend(q, true), env);
    } else if p != q {
      Dups1InnerExact(op, w, p, q, env);
      JoinAtExact(op, Dups1Inner(op, w, p, q).expr, p, q, env);
    }
  }

  lemma {:induction false} Dups1InnerExact(op: Op, w: Expr, p: Path, q: Path, env: Env)
    requires Operands(op, w, p, q)
    requires Typed(env)
    ensures Eval(Dups1Inner(op, w, p, q).expr, env) == Eval(w, env)
    decreases Size(w), 0, 0
  {
    var e := Get(op, w, p);
    if e.Bin? {
      SetGet(op, w, p, e);
      Dups1Exact(e.op, e, Here, Here, env);
      var x := Dups1(e.op, e, Here, Here).expr;
      ReplaceOperand(op, w, p, x, env);
    }
  }

  /** Resolving an operand resolves the tree, and keeping its value keeps the tree's. */
  lemma ReplaceOperand(op: Op, w: Expr, p: Path, x: Expr, env: Env)
    requires Slot(op, w, p)
    ensures Eval(Get(op, w, p), env) == Eval(x, env) ==> Eval(w, env) == Eval(Set(op, w, p, x), env)
    ensures Refines(Eval(Get(op, w, p), env), Eval(x, env)) ==> Refines(Eval(w, env), Eval(Set(op, w, p, x), env))
  {
  }

  // ----- Contradictory operands -----

  /** The negation of the operand at p is a common factor of it and the tree at q. */
  predicate Contradicts(op: Op, w: Expr, p: Path, q: Path)
    requires Slot(op, w, p) && Slot(op, w, q)
  {
    Extract(op, Transform(Neg(Get(op, w, p))), Get(op, w, q)).1 == Unit(op)
  }

  /** An operand whose negation is a factor of some subtree decides the tree: its
      value was mod or is the zero of the connective already. */
  lemma ContradictionRefines(op: Op, w: Expr, p: Path, q: Path, env: Env)
    requires Slot(op, w, p) && Slot(op, w, q)
    requires Typed(env)
    requires Contradicts(op, w, p, q)
    ensures Refines(Eval(w, env), Eval(Set(op, w, p, Zero(op)), env))
  {
    var e1, e2 := Get(op, w, p), Get(op, w, q);
    TransformExact(Neg(e1), env);
    ExtractKeepsFactor(op, Transform(Neg(e1)), e2, env);
    SlotValue(op, w, p, env);
    SlotValue(op, w, q, env);
    SetGet(op, w, p, Zero(op));
    SetSet(op, w, p, Zero(op), Unit(op));
    SlotValue(op, Set(op, w, p, Zero(op)), p, env);
    var (f, r1, r2) := Extract(op, Transform(Neg(e1)), e2);
    Contradiction(op, Eval(w, env), Eval(e1, env), Eval(e2, env), FactorValue(op, f, env), Eval(r2, env),
                  Eval(Set(op, w, p, Unit(op)), env), Eval(Set(op, w, q, Unit(op)), env));
  }

  lemma Contradiction(op: Op, w: Tristate, e1: Tristate, e2: Tristate, f: Tristate, r: Tristate,
                      rest1: Tristate, rest2: Tristate)
    requires w == Apply(op, e1, rest1) == Apply(op, e2, rest2)
    requires Not(e1) == f && e2 == Apply(op, f, r)
    ensures Refines(w, if op.OpOr? then YES else NO)
  {}

  /** expr_eliminate_dups2, called on the places p and q inside w.  After visiting
      the operands of the tree at q it goes on with that tree as a whole. */
  function Dups2(op: Op, w: Expr, p: Path, q: Path): (r: Rewrite)
    requires Slot(op, w, p) && Slot(op, w, q)
    ensures Sound(op, w, r)
    decreases Size(w), Nodes(op, Get(op, w, p)) + Nodes(op, Get(op, w, q)), 1
  {
    if Is(op, Get(op, w, p)) then
      ExtendSlot(op, w, p, false);
      ExtendSlot(op, w, p, true);
      var r1 := Dups2(op, w, Extend(p, false), q);
      SlotShape(op, w, r1.expr, Extend(p, true));
      SlotShape(op, w, r1.expr, q);
      var r2 := Dups2(op, r1.expr, Extend(p, true), q);
      SoundJoins(op, w, r1, r2);
      Rewrite(r2.expr, r1.count + r2.count)
    else if Is(op, Get(op, w, q)) then
      ExtendSlot(op, w, q, false);
      ExtendSlot(op, w, q, true);
      var r1 := Dups2(op, w, p, Extend(q, false));
      SlotShape(op, w, r1.expr, p);
      SlotShape(op, w, r1.expr, Extend(q, true));
      var r2 := Dups2(op, r1.expr, p, Extend(q, true));
      SoundJoins(op, w, r1, r2);
      SameShapeTransitive(op, w, r1.expr, r2.expr);
      SlotShape(op, w, r2.expr, p);
      SlotShape(op, w, r2.expr, q);
      var r3 := Dups2At(op, r2.expr, p, q);
      SoundJoins(op, w, Rewrite(r2.expr, r1.count + r2.count), r3);
      Rewrite(r3.expr, r1.count + r2.count + r3.count)
    else if p == q then
      SameShapeReflexive(op, w);
      Rewrite(w, 0)
    else
      Dups2At(op, w, p, q)
  }

  /** The switch at the end of expr_eliminate_dups2. */
  function Dups2At(op: Op, w: Expr, p: Path, q: Path): (r: Rewrite)
    requires Slot(op, w, p) && Slot(op, w, q) && p.Down?
    requires !Is(op, Get(op, w, p))
    ensures Sound(op, w, r)
    decreases Size(w), 0, 0
  {
    SameShapeReflexive(op, w);
    var e := Get(op, w, p);
    if e.Bin? then
      SetGet(op, w, p, e);
      var x := Dups2(e.op, e, Here, Here);
      SoundAt(op, w, p, x);
      var r1 := Rewrite(Set(op, w, p, x.expr), x.count);
      SetGet(op, w, p, x.expr);
      SlotShape(op, w, r1.expr, q);
      if Contradicts(op, r1.expr, p, q) then
        SoundAt(op, r1.expr, p, Rewrite(Zero(op), 1));
        var r2 := Rewrite(Set(op, r1.expr, p, Zero(op)), 1);
        SoundJoins(op, w, r1, r2);
        Rewrite(r2.expr, r1.count + r2.count)
      else r1
    else Rewrite(w, 0)
  }

  lemma {:induction false} Dups2Refines(op: Op, w: Expr, p: Path, q: Path, env: Env)
    requires Slot(op, w, p) && Slot(op, w, q)
    requires Typed(env)
    ensures Refines(Eval(w, env), Eval(Dups2(op, w, p, q).expr, env))
    decreases Size(w), Nodes(op, Get(op, w, p)) + Nodes(op, Get(op, w, q)), 1
  {
    if Is(op, Get(op, w, p)) {
      ExtendSlot(op, w, p, false);
      ExtendSlot(op, w, p, true);
      var r1 := Dups2(op, w, Extend(p, false), q);
      SlotShape(op, w, r1.expr, Extend(p, true));
      SlotShape(op, w, r1.expr, q);
      Dups2Refines(op, w, Extend(p, false), q, env);
      Dups2Refines(op, r1.expr, Extend(p, true), q, env);
    } else if Is(op, Get(op, w, q)) {
      ExtendSlot(op, w, q, false);
      ExtendSlot(op, w, q, true);
      var r1 := Dups2(op, w, p, Extend(q, false));
      SlotShape(op, w, r1.expr, p);
      SlotShape(op, w, r1.expr, Extend(q, true));
      var r2 := Dups2(op, r1.expr, p, Extend(q, true));
      SameShapeTransitive(op, w, r1.expr, r2.expr);
      SlotShape(op, w, r2.expr, p);
      SlotShape(op, w, r2.expr, q);
      Dups2Refines(op, w, p, Extend(q, false), env);
      Dups2Refines(op, r1.expr, p, Extend(q, true), env);
      Dups2AtRefines(op, r2.expr, p, q, env);
    } else if p != q {
      Dups2AtRefines(op, w, p, q, env);
    }
  }

  lemma {:induction false} Dups2AtRefines(op: Op, w: Expr, p: Path, q: Path, env: Env)
    requires Slot(op, w, p) && Slot(op, w, q) && p.Down?
    requires !Is(op, Get(op, w, p))
    requires Typed(env)
    ensures Refines(Eval(w, env), Eval(Dups2At(op, w, p, q).expr, env))
    decreases Size(w), 0, 0
  {
    var e := Get(op, w, p);
    if e.Bin? {
      SetGet(op, w, p, e);
      Dups2Refines(e.op, e, Here, Here, env);
      var x := Dups2(e.op, e, Here, Here).expr;
      ReplaceOperand(op, w, p, x, env);
      SetKeepsShape(op, w, p, x);
      var v := Set(op, w, p, x);
      SetGet(op, w, p, x);
      SlotShape(op, w, v, q);
      if Contradicts(op, v, p, q) {
        ContradictionRefines(op, v, p, q, env);
      }
    }
  }

  // ----- The fixed-point loop -----

  /** One turn of the loop of expr_eliminate_dups. */
  function Round(e: Expr): (r: Rewrite)
    requires e.Bin?
    ensures Sound(e.op, e, r)
  {
    var r1 := Dups1(e.op, e, Here, Here);
    var r2 := Dups2(e.op, r1.expr, Here, Here);
    SoundJoins(e.op, e, r1, r2);
    Rewrite(r2.expr, r1.count + r2.count)
  }

  /** A round that reports a change loses nodes once the constants are removed. */
  lemma RoundShrinks(e: Expr)
    requires e.Bin? && Round(e).count > 0
    ensures Size(EliminateYn(Round(e).expr)) < Size(e)
  {
    EliminateYnPrunes(Round(e).expr);
  }

  /** expr_eliminate_dups */
  function EliminateDups(e: Expr): (r: Expr)
    decreases Size(e)
  {
    if e.Bin? && Round(e).count > 0 then
      RoundShrinks(e);
      EliminateDups(EliminateYn(Round(e).expr))
    else e
  }

  /** Whatever the environment, a value other than mod survives. */
  lemma {:induction false} EliminateDupsRefines(e: Expr, env: Env)
    requires Typed(env)
    ensures Refines(Eval(e, env), Eval(EliminateDups(e), env))
    decreases Size(e)
  {
    if e.Bin? && Round(e).count > 0 {
      var r := Round(e).expr;
      Dups1Exact(e.op, e, Here, Here, env);
      Dups2Refines(e.op, Dups1(e.op, e, Here, Here).expr, Here, Here, env);
      EliminateYnExact(r, env);
      RoundShrinks(e);
      EliminateDupsRefines(EliminateYn(r), env);
    }
  }

  /** No round finds a contradiction between operands. */
  predicate WithoutContradictions(e: Expr)
    decreases Size(e)
  {
    e.Bin? && Round(e).count > 0 ==>
      && Dups2(e.op, Dups1(e.op, e, Here, Here).expr, Here, Here).count == 0
      && (RoundShrinks(e); WithoutContradictions(EliminateYn(Round(e).expr)))
  }

  /** Then the value stays the same even if it is mod: only contradictions resolve it. */
  lemma {:induction false} EliminateDupsExact(e: Expr, env: Env)
    requires Typed(env) && WithoutContradictions(e)
    ensures Eval(EliminateDups(e), env) == Eval(e, env)
    decreases Size(e)
  {
    if e.Bin? && Round(e).count > 0 {
      Dups1Exact(e.op, e, Here, Here, env);
      EliminateYnExact(Round(e).expr, env);
      RoundShrinks(e);
      EliminateDupsExact(EliminateYn(Round(e).expr), env);
    }
  }

  /** The loop stops at an expression on which it has nothing to do, never larger
      than the one it started from, and strictly smaller if it did anything. */
  lemma {:induction false} EliminateDupsSettles(e: Expr)
    ensures EliminateDups(EliminateDups(e)) == EliminateDups(e)
    ensures EliminateDups(e) == e || Size(EliminateDups(e)) < Size(e)
    decreases Size(e)
  {
    if e.Bin? && Round(e).count > 0 {
      RoundShrinks(e);
      EliminateDupsSettles(EliminateYn(Round(e).expr));
    }
  }
}
