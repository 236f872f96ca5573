// Symbols, expressions and their meaning: scripts/kconfig/expr.h and the
// evaluator of scripts/kconfig/expr.c.
module Expressions {
  import opened Options

  /** The order no < mod < yes of expr.h is the order of the integers 0, 1, 2. */
  type Tristate = t: int | 0 <= t <= 2

  const NO: Tristate := 0
  const MOD: Tristate := 1
  const YES: Tristate := 2

  function Or(a: Tristate, b: Tristate): Tristate {
    if a > b then a else b
  }

  function And(a: Tristate, b: Tristate): Tristate {
    if a < b then a else b
  }

  function Not(a: Tristate): Tristate {
    2 - a
  }

  datatype SymbolType = Unknown | Boolean | Tri | Int | Hex | Text | Other

  /** A constant symbol is identified by its name, a configuration symbol by its
      name and type, and a choice, which has no name, by its address. */
  datatype Symbol =
    | Const(name: string)
    | Config(name: string, typ: SymbolType)
    | Choice(address: nat, typ: SymbolType)

  const SYM_YES := Const("y")
  const SYM_MOD := Const("m")
  const SYM_NO := Const("n")

  function TypeOf(s: Symbol): SymbolType {
    if s.Const? then Unknown else s.typ
  }

  predicate IsTristate(s: Symbol) {
    TypeOf(s).Boolean? || TypeOf(s).Tri?
  }

  /** The two connectives E_OR and E_AND. */
  datatype Op = OpOr | OpAnd

  function Apply(op: Op, a: Tristate, b: Tristate): Tristate {
    if op.OpOr? then Or(a, b) else And(a, b)
  }

  datatype Expr =
    | Sym(sym: Symbol)
    | Equal(lhs: Symbol, rhs: Symbol)
    | Unequal(lhs: Symbol, rhs: Symbol)
    | Neg(arg: Expr)
    | Bin(op: Op, left: Expr, right: Expr)

  /** What the symbol table holds when an expression is evaluated: the value of
      every boolean or tristate symbol, the text of every other one, and whether
      the modules symbol is set. */
  datatype Env = Env(tri: Symbol -> Tristate, text: Symbol -> string, modules: bool)

  /** A boolean symbol is never mod, and mod needs modules. */
  ghost predicate Typed(env: Env) {
    forall s :: env.tri(s) == MOD ==> !TypeOf(s).Boolean? && env.modules
  }

  function TriValue(s: Symbol, env: Env): Tristate {
    if s == SYM_YES then YES
    else if s == SYM_MOD then MOD
    else if IsTristate(s) then env.tri(s)
    else NO
  }

  function StringValue(s: Symbol, env: Env): string {
    if s.Const? then s.name
    else if !IsTristate(s) then env.text(s)
    else if env.tri(s) == NO then "n"
    else if env.tri(s) == YES then "y"
    else if env.modules then "m" else "n"
  }

  function Eval(e: Expr, env: Env): Tristate {
    match e
    case Sym(s) => TriValue(s, env)
    case Equal(l, r) => if StringValue(l, env) == StringValue(r, env) then YES else NO
    case Unequal(l, r) => if StringValue(l, env) == StringValue(r, env) then NO else YES
    case Neg(a) => Not(Eval(a, env))
    case Bin(op, l, r) => Apply(op, Eval(l, env), Eval(r, env))
  }

  /** A missing expression counts as yes. */
  function EvalOpt(e: Option<Expr>, env: Env): Tristate {
    if e.None? then YES else Eval(e.value, env)
  }

  /** The value that leaves the other operand alone, and the one that swallows it. */
  function Unit(op: Op): Expr {
    if op.OpOr? then Sym(SYM_NO) else Sym(SYM_YES)
  }

  function Zero(op: Op): Expr {
    if op.OpOr? then Sym(SYM_YES) else Sym(SYM_NO)
  }

  predicate Is(op: Op, e: Expr) {
    e.Bin? && e.op == op
  }

  predicate IsConstant(e: Expr) {
    e == Sym(SYM_YES) || e == Sym(SYM_NO)
  }

  function Size(e: Expr): (n: nat)
    ensures n > 0
  {
    match e
    case Neg(a) => 1 + Size(a)
    case Bin(_, l, r) => 1 + Size(l) + Size(r)
    case _ => 1
  }

  /** The information order of three-valued logic: mod may be resolved either way. */
  predicate Refines(before: Tristate, after: Tristate) {
    before == MOD || before == after
  }
}
