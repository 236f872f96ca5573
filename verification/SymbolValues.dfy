// The value of a configuration symbol: sym_calc_visibility, sym_calc_value,
// sym_tristate_within_range and sym_set_tristate_value of scripts/kconfig/symbol.c,
// for symbols that are neither choices nor choice values.
module SymbolValues {

  import opened Options
  import opened Expressions

  datatype Default = Default(value: Option<Expr>, condition: Option<Expr>)

  /** The user's value: def[S_DEF_USER] with its flag. */
  datatype User = User(text: string, tri: Tristate)

  datatype Entry = Entry(
    prompts: seq<Option<Expr>>,
    defaults: seq<Default>,
    dirDep: Option<Expr>,
    revDep: Option<Expr>,
    user: Option<User>)

  type Table = map<Symbol, Entry>

  /** What sym_calc_value leaves in a symbol: curr, visible, rev_dep.tri and the flag
      SYMBOL_WRITE. */
  datatype Calculated = Calculated(text: string, tri: Tristate, visible: Tristate, rev: Tristate, write: bool)

  // ----- One symbol, the values of the others being known -----

  /** sym_get_type: a tristate symbol is a boolean one without modules. */
  function EffectiveType(s: Symbol, env: Env): SymbolType {
    if TypeOf(s).Tri? && !env.modules then Boolean else TypeOf(s)
  }

  function AnyPrompt(prompts: seq<Option<Expr>>, env: Env): Tristate {
    if prompts == [] then NO else Or(EvalOpt(prompts[0], env), AnyPrompt(prompts[1..], env))
  }

  function Visible(s: Symbol, prompts: seq<Option<Expr>>, env: Env): Tristate {
    var tri := AnyPrompt(prompts, env);
    if tri == MOD && (!TypeOf(s).Tri? || !env.modules) then YES else tri
  }

  function Selected(s: Symbol, revDep: Option<Expr>, env: Env): Tristate {
    var tri := if revDep.None? then NO else Eval(revDep.value, env);
    if tri == MOD && EffectiveType(s, env).Boolean? then YES else tri
  }

  /** sym_get_default_prop. */
  function FirstDefault(defaults: seq<Default>, env: Env): Option<Default> {
    if defaults == [] then None
    else if EvalOpt(defaults[0].condition, env) != NO then Some(defaults[0])
    else FirstDefault(defaults[1..], env)
  }

  function Name(s: Symbol): string {
    if s.Choice? then "" else s.name
  }

  /** The text in curr, whatever the type: curr.val of a boolean or tristate symbol is
      the one of symbol_no. */
  function CurrentText(s: Symbol, env: Env): string {
    if s.Const? then s.name else if IsTristate(s) then "n" else env.text(s)
  }

  /** sym_calc_value of a boolean or tristate symbol. */
  function CalcTristate(s: Symbol, e: Entry, env: Env): Calculated {
    var visible, rev := Visible(s, e.prompts, env), Selected(s, e.revDep, env);
    var fallback := FirstDefault(e.defaults, env);
    var newval :=
      if visible != NO && e.user.Some? then And(e.user.value.tri, visible)
      else if fallback.Some? then And(EvalOpt(fallback.value.value, env), EvalOpt(fallback.value.condition, env))
      else NO;
    var tri := Or(newval, rev);
    Calculated("n", if tri == MOD && EffectiveType(s, env).Boolean? then YES else tri, visible, rev,
               visible != NO || rev != NO || fallback.Some?)
  }

  /** sym_calc_value of an int, hex or string symbol without ranges. */
  function CalcText(s: Symbol, e: Entry, env: Env): Calculated {
    var visible, rev := Visible(s, e.prompts, env), Selected(s, e.revDep, env);
    var fallback := FirstDefault(e.defaults, env);
    var given := fallback.Some? && fallback.value.value.Some? && fallback.value.value.value.Sym?;
    var text :=
      if visible != NO && e.user.Some? then e.user.value.text
      else if given then CurrentText(fallback.value.value.value.sym, env)
      else "";
    Calculated(text, NO, visible, rev, visible != NO || given)
  }

  function CalcOne(s: Symbol, e: Entry, env: Env): Calculated {
    match TypeOf(s)
    case Boolean => CalcTristate(s, e, env)
    case Tri => CalcTristate(s, e, env)
    case Int => CalcText(s, e, env)
    case Hex => CalcText(s, e, env)
    case Text => CalcText(s, e, env)
    case _ => Calculated(Name(s), NO, NO, NO, false)
  }

  // ----- The symbols an entry refers to -----

  function Mentions(e: Expr): set<Symbol> {
    match e
    case Sym(s) => {s}
    case Equal(l, r) => {l, r}
    case Unequal(l, r) => {l, r}
    case Neg(a) => Mentions(a)
    case Bin(_, l, r) => Mentions(l) + Mentions(r)
  }

  function MentionsOpt(e: Option<Expr>): set<Symbol> {
    if e.None? then {} else Mentions(e.value)
  }

  function MentionsPrompts(prompts: seq<Option<Expr>>): set<Symbol> {
    if prompts == [] then {} else MentionsOpt(prompts[0]) + MentionsPrompts(prompts[1..])
  }

  function MentionsDefaults(defaults: seq<Default>): set<Symbol> {
    if defaults == [] then {}
    else MentionsOpt(defaults[0].value) + MentionsOpt(defaults[0].condition) + MentionsDefaults(defaults[1..])
  }

  /** The symbols that the value depends on. Those of dir_dep are evaluated too, but
      they only decide on a warning. */
  function References(e: Entry): set<Symbol> {
    MentionsPrompts(e.prompts) + MentionsDefaults(e.defaults) + MentionsOpt(e.revDep)
  }

  /** The symbols that the calculation asks for. */
  function Visits(e: Entry): set<Symbol> {
    References(e) + MentionsOpt(e.dirDep)
  }

  ghost predicate Agree(syms: set<Symbol>, env: Env, env': Env) {
    env.modules == env'.modules && forall x | x in syms :: env.tri(x) == env'.tri(x) && env.text(x) == env'.text(x)
  }

  lemma {:induction false} EvalAgrees(e: Expr, env: Env, env': Env)
    requires Agree(Mentions(e), env, env')
    ensures Eval(e, env) == Eval(e, env')
  {
    match e
    case Neg(a) => EvalAgrees(a, env, env');
    case Bin(_, l, r) => EvalAgrees(l, env, env'); EvalAgrees(r, env, env');
    case Sym(s) => assert s in Mentions(e);
    case Equal(l, r) => assert l in Mentions(e) && r in Mentions(e);
    case Unequal(l, r) => assert l in Mentions(e) && r in Mentions(e);
  }

  lemma EvalOptAgrees(e: Option<Expr>, env: Env, env': Env)
    requires Agree(MentionsOpt(e), env, env')
    ensures EvalOpt(e, env) == EvalOpt(e, env')
  {
    if e.Some? { EvalAgrees(e.value, env, env'); }
  }

  lemma {:induction false} PromptsAgree(prompts: seq<Option<Expr>>, env: Env, env': Env)
    requires Agree(MentionsPrompts(prompts), env, env')
    ensures AnyPrompt(prompts, env) == AnyPrompt(prompts, env')
  {
    if prompts != [] {
      EvalOptAgrees(prompts[0], env, env');
      PromptsAgree(prompts[1..], env, env');
    }
  }

  lemma {:induction false} DefaultsAgree(defaults: seq<Default>, env: Env, env': Env)
    requires Agree(MentionsDefaults(defaults), env, env')
    ensures FirstDefault(defaults, env) == FirstDefault(defaults, env')
    ensures var d := FirstDefault(defaults, env);
      d.Some? ==>
        && EvalOpt(d.value.value, env) == EvalOpt(d.value.value, env')
        && EvalOpt(d.value.condition, env) == EvalOpt(d.value.condition, env')
        && MentionsOpt(d.value.value) <= MentionsDefaults(defaults)
  {
    if defaults != [] {
      EvalOptAgrees(defaults[0].value, env, env');
      EvalOptAgrees(defaults[0].condition, env, env');
      DefaultsAgree(defaults[1..], env, env');
    }
  }

  lemma ConditionsAgree(s: Symbol, e: Entry, env: Env, env': Env)
    requires Agree(References(e), env, env')
    ensures Visible(s, e.prompts, env) == Visible(s, e.prompts, env')
    ensures Selected(s, e.revDep, env) == Selected(s, e.revDep, env')
    ensures EffectiveType(s, env) == EffectiveType(s, env')
    ensures Agree(MentionsDefaults(e.defaults), env, env')
  {
    PromptsAgree(e.prompts, env, env');
    if e.revDep.Some? { EvalAgrees(e.revDep.value, env, env'); }
  }

  lemma TextAgrees(s: Symbol, e: Entry, env: Env, env': Env)
    requires Agree(References(e), env, env')
    ensures CalcText(s, e, env) == CalcText(s, e, env')
  {
    ConditionsAgree(s, e, env, env');
    DefaultsAgree(e.defaults, env, env');
  }

  lemma CalcOneAgrees(s: Symbol, e: Entry, env: Env, env': Env)
    requires Agree(References(e), env, env')
    ensures CalcOne(s, e, env) == CalcOne(s, e, env')
  {
    ConditionsAgree(s, e, env, env');
    DefaultsAgree(e.defaults, env, env');
    TextAgrees(s, e, env, env');
  }

  // ----- All symbols -----

  /** The values of the symbols outside the table, and whether modules are on. */
  type Given = Env

  ghost predicate Acyclic(table: Table, rank: Symbol -> nat) {
    forall s, x :: s in table && x in References(table[s]) && x in table ==> rank(x) < rank(s)
  }

  /** No symbol is asked for again while it is being calculated, not even by dir_dep. */
  ghost predicate Evaluable(table: Table, rank: Symbol -> nat) {
    forall s, x :: s in table && x in Visits(table[s]) && x in table ==> rank(x) < rank(s)
  }

  lemma EvaluableIsAcyclic(table: Table, rank: Symbol -> nat)
    requires Evaluable(table, rank)
    ensures Acyclic(table, rank)
  {
    forall s, x | s in table && x in References(table[s]) && x in table ensures rank(x) < rank(s) {
      assert x in Visits(table[s]);
    }
  }

  /** The values of the symbols of a rank below the bound. */
  function Below(table: Table, given: Given, rank: Symbol -> nat, bound: nat): Env
    decreases bound, 1
  {
    Env(x => if x in table && rank(x) < bound then Calc(table, given, rank, x).tri else given.tri(x),
        x => if x in table && rank(x) < bound then Calc(table, given, rank, x).text else given.text(x),
        given.modules)
  }

  function Calc(table: Table, given: Given, rank: Symbol -> nat, s: Symbol): Calculated
    requires s in table
    decreases rank(s), 2
  {
    CalcOne(s, table[s], Below(table, given, rank, rank(s)))
  }

  function TriIn(table: Table, given: Given, rank: Symbol -> nat, x: Symbol): Tristate {
    if x in table then Calc(table, given, rank, x).tri else given.tri(x)
  }

  function TextIn(table: Table, given: Given, rank: Symbol -> nat, x: Symbol): string {
    if x in table then Calc(table, given, rank, x).text else given.text(x)
  }

  /** The environment in which every symbol of the table has its calculated value. */
  function Final(table: Table, given: Given, rank: Symbol -> nat): Env {
    Env(x => TriIn(table, given, rank, x), x => TextIn(table, given, rank, x), given.modules)
  }

  /** Every symbol has the value that sym_calc_value gives it when all the symbols it
      refers to have theirs. */
  lemma CalcIsSolution(table: Table, given: Given, rank: Symbol -> nat, s: Symbol)
    requires Acyclic(table, rank) && s in table
    ensures Calc(table, given, rank, s) == CalcOne(s, table[s], Final(table, given, rank))
  {
    CalcOneAgrees(s, table[s], Below(table, given, rank, rank(s)), Final(table, given, rank));
  }

  /** An assignment of values that satisfies all these equations. */
  ghost predicate Solution(table: Table, env: Env, values: Symbol -> Calculated) {
    forall s | s in table ::
      values(s) == CalcOne(s, table[s], env) && env.tri(s) == values(s).tri && env.text(s) == values(s).text
  }

  /** There is only one, so no order of evaluation leads to other values. */
  lemma {:induction false} SolutionIsUnique(table: Table, given: Given, rank: Symbol -> nat,
                                            env: Env, values: Symbol -> Calculated, s: Symbol)
    requires Acyclic(table, rank) && s in table && Solution(table, env, values)
    requires env.modules == given.modules
    requires forall x | x !in table :: env.tri(x) == given.tri(x) && env.text(x) == given.text(x)
    ensures values(s) == Calc(table, given, rank, s)
    decreases rank(s)
  {
    var below := Below(table, given, rank, rank(s));
    forall x | x in References(table[s]) ensures env.tri(x) == below.tri(x) && env.text(x) == below.text(x) {
      if x in table { SolutionIsUnique(table, given, rank, env, values, x); }
    }
    CalcOneAgrees(s, table[s], env, below);
  }
}
