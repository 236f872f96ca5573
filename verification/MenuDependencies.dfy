// How menu_finalize of scripts/kconfig/menu.c prepares the condition of a prompt.
module MenuDependencies {
  import opened Options
  import opened Expressions
  import opened ExprEquality
  import opened ExprTransform
  import opened ExprPaths
  import opened ExprDuplicates
  import opened ExprUndecided
  import opened ExprSettled
  import SymbolValues

  /** expr_alloc_and, on expressions that may be missing. */
  function AllocAnd(e1: Option<Expr>, e2: Option<Expr>): Option<Expr> {
    if e1.None? then e2
    else if e2.None? then e1
    else Some(Bin(OpAnd, e1.value, e2.value))
  }

  function TransformOpt(e: Option<Expr>): Option<Expr> {
    if e.None? then None else Some(Transform(e.value))
  }

  function EliminateDupsOpt(e: Option<Expr>): Option<Expr> {
    if e.None? then None else Some(EliminateDups(e.value))
  }

  /** The condition of an entry: that of the parent and its own. */
  function EntryCondition(parent: Option<Expr>, own: Option<Expr>): Option<Expr> {
    EliminateDupsOpt(AllocAnd(parent, TransformOpt(own)))
  }

  /** The condition of a property of the entry. */
  function PropertyCondition(base: Option<Expr>, own: Option<Expr>, typ: SymbolType): Option<Expr> {
    var dep := EliminateDupsOpt(AllocAnd(base, TransformOpt(own)));
    if dep.Some? && !typ.Tri? then Some(TransBool(dep.value)) else dep
  }

  /** What sym_calc_visibility makes of a prompt's condition (symbol.c:193-200). */
  function Promote(t: Tristate, typ: SymbolType, env: Env): Tristate {
    if t == MOD && (!typ.Tri? || !env.modules) then YES else t
  }

  predicate NegOverSymbolsOpt(e: Option<Expr>) {
    e.Some? ==> NegOverSymbols(e.value)
  }

  // ----- Negation stays over symbols -----

  lemma {:induction false} SlotNegation(op: Op, w: Expr, p: Path, x: Expr)
    requires Slot(op, w, p) && NegOverSymbols(w)
    ensures NegOverSymbols(Get(op, w, p))
    ensures NegOverSymbols(x) ==> NegOverSymbols(Set(op, w, p, x))
  {
    if p.Down? {
      SlotNegation(op, Child(w, p.right), p.rest, x);
    }
  }

  lemma JoinAtNegation(op: Op, w: Expr, p: Path, q: Path)
    requires Operands(op, w, p, q) && NegOverSymbols(w)
    ensures NegOverSymbols(JoinAt(op, w, p, q).expr)
  {
    var t := Join(op, Get(op, w, p), Get(op, w, q));
    SlotNegation(op, w, p, Unit(op));
    if t.Some? {
      SetOther(op, w, p, q, Unit(op));
      SlotNegation(op, Set(op, w, p, Unit(op)), q, t.value);
    }
  }

  lemma {:induction false} Dups1Negation(op: Op, w: Expr, p: Path, q: Path)
    requires Slot(op, w, p) && Slot(op, w, q) && NegOverSymbols(w)
    ensures NegOverSymbols(Dups1(op, w, p, q).expr)
    decreases Size(w), Nodes(op, Get(op, w, p)) + Nodes(op, Get(op, w, q)), 1
  {
    if Is(op, Get(op, w, p)) {
      ExtendSlot(op, w, p, false);
      ExtendSlot(op, w, p, true);
      var r1 := Dups1(op, w, Extend(p, false), q);
      SlotShape(op, w, r1.expr, Extend(p, true));
      SlotShape(op, w, r1.expr, q);
      Dups1Negation(op, w, Extend(p, false), q);
      Dups1Negation(op, r1.expr, Extend(p, true), q);
    } else if Is(op, Get(op, w, q)) {
      ExtendSlot(op, w, q, false);
      ExtendSlot(op, w, q, true);
      var r1 := Dups1(op, w, p, Extend(q, false));
      SlotShape(op, w, r1.expr, p);
      SlotShape(op, w, r1.expr, Extend(q, true));
      Dups1Negation(op, w, p, Extend(q, false));
      Dups1Negation(op, r1.expr, p, Extend(q, true));
    } else if p != q {
      var e := Get(op, w, p);
      SlotNegation(op, w, p, e);
      if e.Bin? {
        SetGet(op, w, p, e);
        Dups1Negation(e.op, e, Here, Here);
        SlotNegation(op, w, p, Dups1(e.op, e, Here, Here).expr);
      }
      JoinAtNegation(op, Dups1Inner(op, w, p, q).expr, p, q);
    }
  }

  lemma {:induction false} Dups2Negation(op: Op, w: Expr, p: Path, q: Path)
    requires Slot(op, w, p) && Slot(op, w, q) && NegOverSymbols(w)
    ensures NegOverSymbols(Dups2(op, w, p, q).expr)
    decreases Size(w), Nodes(op, Get(op, w, p)) + Nodes(op, Get(op, w, q)), 1
  {
    if Is(op, Get(op, w, p)) {
      ExtendSlot(op, w, p, false);
      ExtendSlot(op, w, p, true);
      var r1 := Dups2(op, w, Extend(p, false), q);
      SlotShape(op, w, r1.expr, Extend(p, true));
      SlotShape(op, w, r1.expr, q);
      Dups2Negation(op, w, Extend(p, false), q);
      Dups2Negation(op, r1.expr, Extend(p, true), q);
    } else if Is(op, Get(op, w, q)) {
      ExtendSlot(op, w, q, false);
      ExtendSlot(op, w, q, true);
      var r1 := Dups2(op, w, p, Extend(q, false));
      SlotShape(op, w, r1.expr, p);
      SlotShape(op, w, r1.expr, Extend(q, true));
      var r2 := Dups2(op, r1.expr, p, Extend(q, true));
      SameShapeTransitive(op, w, r1.expr, r2.expr);
      SlotShape(op, w, r2.expr, p);
      SlotShape(op, w, r2.expr, q);
      Dups2Negation(op, w, p, Extend(q, false));
      Dups2Negation(op, r1.expr, p, Extend(q, true));
      Dups2AtNegation(op, r2.expr, p, q);
    } else if p != q {
      Dups2AtNegation(op, w, p, q);
    }
  }

  lemma {:induction false} Dups2AtNegation(op: Op, w: Expr, p: Path, q: Path)
    requires Slot(op, w, p) && Slot(op, w, q) && p.Down?
    requires !Is(op, Get(op, w, p)) && NegOverSymbols(w)
    ensures NegOverSymbols(Dups2At(op, w, p, q).expr)
    decreases Size(w), 0, 0
  {
    var e := Get(op, w, p);
    SlotNegation(op, w, p, e);
    if e.Bin? {
      SetGet(op, w, p, e);
      Dups2Negation(e.op, e, Here, Here);
      var x := Dups2(e.op, e, Here, Here).expr;
      SlotNegation(op, w, p, x);
      SetGet(op, w, p, x);
      SlotNegation(op, Set(op, w, p, x), p, Zero(op));
    }
  }

  lemma {:induction false} EliminateYnNegation(e: Expr)
    requires NegOverSymbols(e)
    ensures NegOverSymbols(EliminateYn(e))
  {
    if e.Bin? {
      EliminateYnNegation(e.left);
      EliminateYnNegation(e.right);
    }
  }

  lemma {:induction false} EliminateDupsNegation(e: Expr)
    requires NegOverSymbols(e)
    ensures NegOverSymbols(EliminateDups(e))
    decreases Size(e)
  {
    if e.Bin? && Round(e).count > 0 {
      RoundShrinks(e);
      Dups1Negation(e.op, e, Here, Here);
      Dups2Negation(e.op, Dups1(e.op, e, Here, Here).expr, Here, Here);
      EliminateYnNegation(Round(e).expr);
      EliminateDupsNegation(EliminateYn(Round(e).expr));
    }
  }

  // ----- What finalizing keeps -----

  /** Conditions handed down the menu tree keep the form expr_trans_bool needs. */
  lemma ConditionNegation(base: Option<Expr>, own: Option<Expr>, typ: SymbolType)
    requires NegOverSymbolsOpt(base)
    ensures NegOverSymbolsOpt(EntryCondition(base, own))
    ensures NegOverSymbolsOpt(PropertyCondition(base, own, typ))
  {
    if own.Some? {
      TransformNormalizes(own.value);
      NormalNegation(Transform(own.value));
    }
    var dep := AllocAnd(base, TransformOpt(own));
    if dep.Some? {
      EliminateDupsNegation(dep.value);
      TransBoolNegation(EliminateDups(dep.value));
    }
  }

  lemma {:induction false} TransBoolNegation(e: Expr)
    requires NegOverSymbols(e)
    ensures NegOverSymbols(TransBool(e))
  {
    if e.Bin? {
      TransBoolNegation(e.left);
      TransBoolNegation(e.right);
    }
  }

  /** Dropping comparisons with n does not change the promoted visibility of a symbol
      that is not tristate, not even where it is mod. */
  lemma PromotedTransBool(e: Expr, typ: SymbolType, env: Env)
    requires Typed(env) && NegOverSymbols(e) && !typ.Tri?
    ensures Promote(Eval(TransBool(e), env), typ, env) == Promote(Eval(e, env), typ, env)
  {
    TransBoolKeepsNo(e, env);
  }

  /** Removing duplicates does not resolve mod in this condition. */
  ghost predicate KeepsMod(base: Option<Expr>, own: Option<Expr>) {
    var dep := AllocAnd(base, TransformOpt(own));
    dep.Some? ==> Undecided(dep.value) || NeverMod(dep.value)
  }

  /** If the base condition and the entry's own make an undecided expression together,
      or one that is never mod, the visibility is as written also where that is mod. */
  lemma VisibilityOfUndecided(base: Option<Expr>, own: Option<Expr>, typ: SymbolType, env: Env)
    requires Typed(env) && NegOverSymbolsOpt(base) && KeepsMod(base, own)
    ensures var written := And(EvalOpt(base, env), EvalOpt(own, env));
      && EvalOpt(EntryCondition(base, own), env) == written
      && Promote(EvalOpt(PropertyCondition(base, own, typ), env), typ, env) == Promote(written, typ, env)
  {
    ConditionNegation(base, own, Tri);
    if own.Some? {
      TransformExact(own.value, env);
    }
    var dep := AllocAnd(base, TransformOpt(own));
    if dep.Some? {
      if Undecided(dep.value) {
        UndecidedIsKept(dep.value, env);
      } else {
        NeverModIsKept(dep.value, env);
      }
      if !typ.Tri? {
        PromotedTransBool(EliminateDups(dep.value), typ, env);
      }
    }
  }

  /** Neither the condition handed down nor that of a property of a tristate symbol has
      redundant operands or operands that are denied beside them; that of another symbol
      has no comparison of a tristate with n. */
  lemma ConditionsAreTidy(base: Option<Expr>, own: Option<Expr>, typ: SymbolType)
    requires base.Some? || own.Some?
    ensures var dep := EntryCondition(base, own); dep.Some? && Tidy(dep.value) && Undenied(dep.value)
    ensures var dep := PropertyCondition(base, own, typ);
      dep.Some? && if typ.Tri? then dep == EntryCondition(base, own) else BoolForm(dep.value)
  {
    var dep := AllocAnd(base, TransformOpt(own));
    EliminateDupsTidies(dep.value);
    TransBoolFixedPoints(EliminateDups(dep.value));
  }

  lemma EntryConditionRefines(base: Option<Expr>, own: Option<Expr>, env: Env)
    requires Typed(env)
    requires NegOverSymbolsOpt(base)
    ensures Refines(And(EvalOpt(base, env), EvalOpt(own, env)), EvalOpt(EntryCondition(base, own), env))
    ensures NegOverSymbolsOpt(EntryCondition(base, own))
  {
    ConditionNegation(base, own, Tri);
    if own.Some? {
      TransformExact(own.value, env);
    }
    var dep := AllocAnd(base, TransformOpt(own));
    if dep.Some? {
      EliminateDupsRefines(dep.value, env);
    }
  }

  /** Transforming, removing duplicates and dropping comparisons with n does not change
      when a prompt is visible: the promoted visibility is that of the condition as
      written, unless this is mod and duplicates were removed that resolve it. */
  lemma PromptVisibilityKept(base: Option<Expr>, own: Option<Expr>, typ: SymbolType, env: Env)
    requires Typed(env)
    requires NegOverSymbolsOpt(base)
    ensures var written := And(EvalOpt(base, env), EvalOpt(own, env));
      var kept := EvalOpt(PropertyCondition(base, own, typ), env);
      written != MOD || KeepsMod(base, own) ==> Promote(kept, typ, env) == Promote(written, typ, env)
  {
    EntryConditionRefines(base, own, env);
    var dep := EntryCondition(base, own);
    if dep.Some? {
      TransBoolKeepsNo(dep.value, env);
    }
    if KeepsMod(base, own) {
      VisibilityOfUndecided(base, own, typ, env);
    }
  }

  // ----- The tests for moving an entry below the one before it -----

  /** expr_contains_symbol */
  predicate ContainsSymbol(dep: Expr, sym: Symbol) {
    match dep
    case Sym(s) => s == sym
    case Equal(l, r) => l == sym || r == sym
    case Unequal(l, r) => l == sym || r == sym
    case Neg(a) => ContainsSymbol(a, sym)
    case Bin(_, l, r) => ContainsSymbol(l, sym) || ContainsSymbol(r, sym)
  }

  /** expr_depends_symbol */
  predicate DependsSymbol(dep: Expr, sym: Symbol) {
    match dep
    case Sym(s) => s == sym
    case Equal(l, r) => l == sym && (r == SYM_YES || r == SYM_MOD)
    case Unequal(l, r) => l == sym && r == SYM_NO
    case Bin(OpAnd, l, r) => DependsSymbol(l, sym) || DependsSymbol(r, sym)
    case _ => false
  }

  /** The first test finds every occurrence of the symbol. */
  lemma {:induction false} ContainedIsMentioned(dep: Expr, sym: Symbol)
    ensures ContainsSymbol(dep, sym) <==> sym in SymbolValues.Mentions(dep)
  {
    match dep
    case Neg(a) => ContainedIsMentioned(a, sym);
    case Bin(_, l, r) =>
      ContainedIsMentioned(l, sym);
      ContainedIsMentioned(r, sym);
    case _ =>
  }

  /** The second test looks for the symbol itself, or a comparison saying that it is set,
      among all operands of a conjunction. */
  lemma {:induction false} DependsOnOperand(dep: Expr, sym: Symbol)
    ensures DependsSymbol(dep, sym) <==>
      OperandSet(OpAnd, dep) * {Sym(sym), Equal(sym, SYM_YES), Equal(sym, SYM_MOD), Unequal(sym, SYM_NO)} != {}
  {
    if Is(OpAnd, dep) {
      DependsOnOperand(dep.left, sym);
      DependsOnOperand(dep.right, sym);
      UnionMeets(OperandSet(OpAnd, dep.left), OperandSet(OpAnd, dep.right),
                 {Sym(sym), Equal(sym, SYM_YES), Equal(sym, SYM_MOD), Unequal(sym, SYM_NO)});
    } else {
      OneMeets(dep, {Sym(sym), Equal(sym, SYM_YES), Equal(sym, SYM_MOD), Unequal(sym, SYM_NO)});
    }
  }

  lemma UnionMeets(a: set<Expr>, b: set<Expr>, c: set<Expr>)
    ensures (a + b) * c != {} <==> a * c != {} || b * c != {}
  {
    assert (a + b) * c == a * c + b * c;
  }

  lemma OneMeets(e: Expr, c: set<Expr>)
    ensures {e} * c != {} <==> e in c
  {
    assert e in c ==> e in {e} * c;
  }

  /** A condition without the symbol has the same value whatever that of the symbol is. */
  lemma {:induction false} WithoutSymbolItStays(dep: Expr, sym: Symbol, env: Env, env': Env)
    requires !ContainsSymbol(dep, sym) && env.modules == env'.modules
    requires forall s | s != sym :: env.tri(s) == env'.tri(s) && env.text(s) == env'.text(s)
    ensures Eval(dep, env) == Eval(dep, env')
  {
    match dep
    case Neg(a) => WithoutSymbolItStays(a, sym, env, env');
    case Bin(_, l, r) =>
      WithoutSymbolItStays(l, sym, env, env');
      WithoutSymbolItStays(r, sym, env, env');
    case _ =>
  }

  /** An entry that passes the syntactic test is visible only when the symbol of the
      entry before it is set. */
  lemma {:induction false} DependingNeedsTheSymbol(dep: Expr, sym: Symbol, env: Env)
    requires DependsSymbol(dep, sym) && IsTristate(sym)
    ensures Eval(dep, env) != NO ==> TriValue(sym, env) != NO
  {
    if dep.Bin? {
      if DependsSymbol(dep.left, sym) {
        DependingNeedsTheSymbol(dep.left, sym, env);
      } else {
        DependingNeedsTheSymbol(dep.right, sym, env);
      }
    }
  }

  /** An entry that passes the other test, because nothing but y is left of the base
      condition when the two are cancelled, is never more visible than that. */
  lemma CancelledBaseIsImplied(dep: Expr, base: Expr, env: Env)
    requires EliminateEq(dep, base).1 == Sym(SYM_YES)
    ensures Eval(dep, env) <= Eval(base, env)
  {
    EliminateEqReflectsOrder(dep, base, env);
  }
}
