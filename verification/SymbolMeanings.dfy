// What sym_calc_value of scripts/kconfig/symbol.c gives a symbol, in terms of its prompts,
// its defaults, what selects it and the user's value.
module SymbolMeanings {

  import opened Options
  import opened Expressions
  import opened SymbolValues

  /** With modules off, or for a symbol that is not tristate, m counts as y. */
  function Raised(s: Symbol, t: Tristate, modules: bool): Tristate {
    if t == MOD && !(TypeOf(s).Tri? && modules) then YES else t
  }

  /** t is the largest value of a condition, and n if there is none. */
  ghost predicate IsLargest(t: Tristate, conditions: seq<Option<Expr>>, env: Env) {
    && (forall p | p in conditions :: EvalOpt(p, env) <= t)
    && (t == NO || exists p :: p in conditions && EvalOpt(p, env) == t)
  }

  /** The default k is the first whose condition is not n. */
  ghost predicate IsFirst(defaults: seq<Default>, env: Env, k: nat) {
    && k < |defaults| && EvalOpt(defaults[k].condition, env) != NO
    && forall j | 0 <= j < k :: EvalOpt(defaults[j].condition, env) == NO
  }

  ghost predicate NoDefault(defaults: seq<Default>, env: Env) {
    forall j | 0 <= j < |defaults| :: EvalOpt(defaults[j].condition, env) == NO
  }

  lemma {:induction false} LargestIsCalculated(prompts: seq<Option<Expr>>, env: Env)
    ensures IsLargest(AnyPrompt(prompts, env), prompts, env)
  {
    if prompts != [] {
      LargestIsCalculated(prompts[1..], env);
      assert prompts == [prompts[0]] + prompts[1..];
      assert prompts[0] in prompts && forall p | p in prompts[1..] :: p in prompts;
    }
  }

  lemma {:induction false} FirstIsFound(defaults: seq<Default>, env: Env)
    ensures if NoDefault(defaults, env) then FirstDefault(defaults, env) == None
            else exists k: nat :: IsFirst(defaults, env, k) && FirstDefault(defaults, env) == Some(defaults[k])
  {
    if defaults != [] {
      if EvalOpt(defaults[0].condition, env) != NO {
        assert IsFirst(defaults, env, 0);
      } else {
        FirstIsFound(defaults[1..], env);
        if !NoDefault(defaults[1..], env) {
          var k: nat :| IsFirst(defaults[1..], env, k) && FirstDefault(defaults[1..], env) == Some(defaults[1..][k]);
          assert IsFirst(defaults, env, k + 1);
        } else {
          assert forall j | 0 < j < |defaults| :: defaults[j] == defaults[1..][j - 1];
        }
      }
    }
  }

  lemma FirstIsFirst(defaults: seq<Default>, env: Env, k: nat)
    requires IsFirst(defaults, env, k)
    ensures FirstDefault(defaults, env) == Some(defaults[k])
  {
    FirstIsFound(defaults, env);
    var j: nat :| IsFirst(defaults, env, j) && FirstDefault(defaults, env) == Some(defaults[j]);
    assert j == k;
  }

  /** The visibility is that of the largest prompt, and rev_dep the value of its
      expression, both raised. */
  ghost predicate SurroundingsMean(s: Symbol, e: Entry, env: Env, c: Calculated) {
    && (exists t :: IsLargest(t, e.prompts, env) && c.visible == Raised(s, t, env.modules))
    && c.rev == (if e.revDep.None? then NO else Raised(s, Eval(e.revDep.value, env), env.modules))
  }

  lemma SurroundingsCalculated(s: Symbol, e: Entry, env: Env)
    requires IsTristate(s)
    ensures SurroundingsMean(s, e, env, Calculated("", NO, Visible(s, e.prompts, env), Selected(s, e.revDep, env), false))
  {
    LargestIsCalculated(e.prompts, env);
  }

  /** What a boolean or tristate symbol takes from the user or from its defaults. */
  ghost predicate Chosen(e: Entry, env: Env, visible: Tristate, t: Tristate) {
    if visible != NO && e.user.Some? then t == And(e.user.value.tri, visible)
    else
      && (NoDefault(e.defaults, env) ==> t == NO)
      && forall k: nat | IsFirst(e.defaults, env, k) ::
           t == And(EvalOpt(e.defaults[k].value, env), EvalOpt(e.defaults[k].condition, env))
  }

  lemma FirstIsOnly(defaults: seq<Default>, env: Env)
    ensures forall k: nat | IsFirst(defaults, env, k) :: FirstDefault(defaults, env) == Some(defaults[k])
    ensures NoDefault(defaults, env) <==> FirstDefault(defaults, env).None?
  {
    FirstIsFound(defaults, env);
    forall k: nat | IsFirst(defaults, env, k) ensures FirstDefault(defaults, env) == Some(defaults[k]) {
      FirstIsFirst(defaults, env, k);
    }
  }

  /** What a boolean or tristate symbol is, given the values of the others. */
  ghost predicate IsTristateValue(s: Symbol, e: Entry, env: Env, c: Calculated) {
    && SurroundingsMean(s, e, env, c)
    && (exists t :: Chosen(e, env, c.visible, t) && c.tri == Raised(s, Or(t, c.rev), env.modules))
    && (c.write <==> c.visible != NO || c.rev != NO || !NoDefault(e.defaults, env))
  }

  lemma TristateCalculated(s: Symbol, e: Entry, env: Env)
    requires IsTristate(s)
    ensures IsTristateValue(s, e, env, CalcTristate(s, e, env))
  {
    hide Eval, AnyPrompt, IsFirst, NoDefault, IsLargest, FirstDefault;
    var c := CalcTristate(s, e, env);
    SurroundingsCalculated(s, e, env);
    FirstIsOnly(e.defaults, env);
    var d := FirstDefault(e.defaults, env);
    var t := if c.visible != NO && e.user.Some? then And(e.user.value.tri, c.visible)
             else if d.Some? then And(EvalOpt(d.value.value, env), EvalOpt(d.value.condition, env)) else NO;
    assert Chosen(e, env, c.visible, t);
  }

  /** The value of a boolean or tristate symbol: the user's as far as it is visible, or that
      of the first default whose condition is not n, as far as this goes; joined with
      rev_dep and raised. It is written unless nothing speaks for it. */
  lemma TristateMeans(table: Table, given: Given, rank: Symbol -> nat, s: Symbol)
    requires Acyclic(table, rank) && s in table && IsTristate(s)
    ensures IsTristateValue(s, table[s], Final(table, given, rank), Calc(table, given, rank, s))
  {
    CalcIsSolution(table, given, rank, s);
    TristateCalculated(s, table[s], Final(table, given, rank));
  }

  /** curr.val of a symbol: the name of a constant, "n" for a boolean or a tristate, and
      otherwise its text. */
  function TextOf(s: Symbol, env: Env): string {
    if s.Const? then s.name else if IsTristate(s) then "n" else env.text(s)
  }

  predicate NamesSymbol(e: Option<Expr>) {
    e.Some? && e.value.Sym?
  }

  /** What an int, hex or string symbol takes from the user or from its defaults. */
  ghost predicate TextChosen(e: Entry, env: Env, visible: Tristate, text: string) {
    if visible != NO && e.user.Some? then text == e.user.value.text
    else
      && (NoDefault(e.defaults, env) ==> text == "")
      && forall k: nat | IsFirst(e.defaults, env, k) ::
           text == if NamesSymbol(e.defaults[k].value) then TextOf(e.defaults[k].value.value.sym, env) else ""
  }

  /** Some default that names a symbol applies. */
  ghost predicate TextGiven(e: Entry, env: Env) {
    exists k: nat :: IsFirst(e.defaults, env, k) && NamesSymbol(e.defaults[k].value)
  }

  /** What an int, hex or string symbol is, given the values of the others. */
  ghost predicate IsTextValue(s: Symbol, e: Entry, env: Env, c: Calculated) {
    && (exists t :: IsLargest(t, e.prompts, env) && c.visible == Raised(s, t, env.modules))
    && c.rev == (if e.revDep.None? then NO else Eval(e.revDep.value, env))
    && TextChosen(e, env, c.visible, c.text) && c.tri == NO
    && (c.write <==> c.visible != NO || TextGiven(e, env))
  }

  lemma TextCalculated(s: Symbol, e: Entry, env: Env)
    requires !IsTristate(s)
    ensures IsTextValue(s, e, env, CalcText(s, e, env))
  {
    hide Eval, FirstDefault;
    LargestIsCalculated(e.prompts, env);
    FirstIsOnly(e.defaults, env);
    FirstIsFound(e.defaults, env);
  }

  /** The text of an int, hex or string symbol: the user's if it is visible, or that of the
      symbol which the first default with a condition other than n names, or empty. */
  lemma TextMeans(table: Table, given: Given, rank: Symbol -> nat, s: Symbol)
    requires Acyclic(table, rank) && s in table && TypeOf(s) in {Int, Hex, Text}
    ensures IsTextValue(s, table[s], Final(table, given, rank), Calc(table, given, rank, s))
  {
    CalcIsSolution(table, given, rank, s);
    TextCalculated(s, table[s], Final(table, given, rank));
  }

  /** All other symbols have their name for a value. */
  lemma OtherMeans(table: Table, given: Given, rank: Symbol -> nat, s: Symbol)
    requires s in table && !IsTristate(s) && TypeOf(s) !in {Int, Hex, Text}
    ensures Calc(table, given, rank, s).text == (if s.Choice? then "" else s.name)
    ensures Calc(table, given, rank, s).tri == NO && !Calc(table, given, rank, s).write
  {
  }
}
