// What a user's choice does to the value of a configuration symbol:
// sym_tristate_within_range and sym_set_tristate_value of scripts/kconfig/symbol.c.
module SymbolSets {

  import opened Options
  import opened Expressions
  import opened SymbolValues

  // ----- Bounds of a value -----

  /** The value is never below rev_dep, and a user's value never lifts it above both
      the visibility and rev_dep. */
  lemma ValueIsBounded(table: Table, given: Given, rank: Symbol -> nat, s: Symbol)
    requires s in table && IsTristate(s)
    ensures var c := Calc(table, given, rank, s);
      && c.tri >= c.rev
      && (c.visible != NO && table[s].user.Some? ==> c.tri <= Or(c.visible, c.rev))
      && (c.visible == NO && table[s].defaults == [] ==> c.tri == c.rev)
  {
  }

  /** What a boolean symbol, or any symbol without modules, never shows. */
  lemma NoModForBooleans(table: Table, given: Given, rank: Symbol -> nat, s: Symbol)
    requires s in table && EffectiveType(s, given).Boolean?
    ensures var c := Calc(table, given, rank, s); c.tri != MOD && c.visible != MOD && c.rev != MOD
  {
  }

  /** So expressions are evaluated in typed environments only. */
  lemma FinalIsTyped(table: Table, given: Given, rank: Symbol -> nat)
    requires Typed(given)
    ensures Typed(Final(table, given, rank))
  {
    var env := Final(table, given, rank);
    forall s | env.tri(s) == MOD ensures !TypeOf(s).Boolean? && env.modules {
      if s in table {
        if EffectiveType(s, given).Boolean? {
          NoModForBooleans(table, given, rank, s);
        }
      } else {
        assert given.tri(s) == MOD;
      }
    }
  }

  // ----- Setting a value -----

  /** sym_tristate_within_range, given what is calculated for the symbol. */
  predicate WithinRange(s: Symbol, c: Calculated, given: Given, val: Tristate) {
    var typ := EffectiveType(s, given);
    && c.visible != NO
    && (typ.Boolean? || typ.Tri?)
    && !(typ.Boolean? && val == MOD)
    && c.visible > c.rev
    && c.rev <= val <= c.visible
  }

  /** The test of sym_set_tristate_value. */
  predicate Accepted(s: Symbol, c: Calculated, given: Given, val: Tristate) {
    c.tri == val || WithinRange(s, c, given, val)
  }

  function WithUser(e: Entry, val: Tristate): Entry {
    e.(user := Some(User(if e.user.Some? then e.user.value.text else "", val)))
  }

  function SetUser(table: Table, s: Symbol, val: Tristate): Table
    requires s in table
  {
    table[s := WithUser(table[s], val)]
  }

  /** The symbols of the set depend on one another only. */
  ghost predicate Closed(table: Table, syms: set<Symbol>) {
    forall x, y | x in syms && x in table && y in References(table[x]) && y in table :: y in syms
  }

  /** Setting a symbol changes no symbol that does not depend on it. */
  lemma {:induction false} IndependentStay(table: Table, given: Given, rank: Symbol -> nat, s: Symbol, val: Tristate,
                                           syms: set<Symbol>, x: Symbol)
    requires Acyclic(table, rank) && s in table && x in table
    requires Closed(table, syms) && s !in syms && x in syms
    ensures Calc(SetUser(table, s, val), given, rank, x) == Calc(table, given, rank, x)
    decreases rank(x)
  {
    var table' := SetUser(table, s, val);
    var below, below' := Below(table, given, rank, rank(x)), Below(table', given, rank, rank(x));
    forall y | y in References(table[x]) ensures below.tri(y) == below'.tri(y) && below.text(y) == below'.text(y) {
      if y in table {
        IndependentStay(table, given, rank, s, val, syms, y);
      }
    }
    CalcOneAgrees(x, table[x], below, below');
  }

  /** The next calculation sees the symbol in the same surroundings. */
  lemma SameSurroundings(table: Table, given: Given, rank: Symbol -> nat, s: Symbol, val: Tristate)
    requires Acyclic(table, rank) && s in table
    ensures var env := Below(table, given, rank, rank(s));
      Calc(SetUser(table, s, val), given, rank, s) == CalcOne(s, WithUser(table[s], val), env)
  {
    var table' := SetUser(table, s, val);
    var below, below' := Below(table, given, rank, rank(s)), Below(table', given, rank, rank(s));
    var lower := set x | x in table && rank(x) < rank(s);
    assert Closed(table, lower);
    forall y | y in References(table[s]) ensures below.tri(y) == below'.tri(y) && below.text(y) == below'.text(y) {
      if y in table {
        IndependentStay(table, given, rank, s, val, lower, y);
      }
    }
    CalcOneAgrees(s, table'[s], below, below');
  }

  /** The next value in terms of the last one. */
  lemma NextValue(table: Table, given: Given, rank: Symbol -> nat, s: Symbol, val: Tristate)
    requires Acyclic(table, rank) && s in table && IsTristate(s)
    ensures var c := Calc(table, given, rank, s);
      var r := Or(And(val, c.visible), c.rev);
      Calc(SetUser(table, s, val), given, rank, s).tri ==
        if c.visible == NO then c.tri
        else if r == MOD && EffectiveType(s, given).Boolean? then YES else r
  {
    SameSurroundings(table, given, rank, s, val);
  }

  /** When the value the next calculation gives is the one just accepted: always when
      it differs from the old value, but a value that the symbol already had may be
      accepted although the visibility does not reach it. */
  lemma AcceptedIsNext(table: Table, given: Given, rank: Symbol -> nat, s: Symbol, val: Tristate)
    requires Acyclic(table, rank) && s in table && IsTristate(s)
    requires Accepted(s, Calc(table, given, rank, s), given, val)
    ensures var c := Calc(table, given, rank, s);
      Calc(SetUser(table, s, val), given, rank, s).tri == val <==>
        c.tri != val || c.visible == NO || val <= Or(c.visible, c.rev)
  {
    NextValue(table, given, rank, s, val);
    ValueIsBounded(table, given, rank, s);
    if EffectiveType(s, given).Boolean? { NoModForBooleans(table, given, rank, s); }
  }

  /** A refused value is out of the user's reach, but for the value of rev_dep of a
      symbol that its default lifts above that. */
  lemma RefusedIsOutOfReach(table: Table, given: Given, rank: Symbol -> nat, s: Symbol, val: Tristate)
    requires Acyclic(table, rank) && s in table && IsTristate(s)
    requires !Accepted(s, Calc(table, given, rank, s), given, val)
    ensures var c := Calc(table, given, rank, s);
      Calc(SetUser(table, s, val), given, rank, s).tri == val <==>
        NO < c.visible <= c.rev && val == c.rev
  {
    NextValue(table, given, rank, s, val);
    ValueIsBounded(table, given, rank, s);
    if EffectiveType(s, given).Boolean? { NoModForBooleans(table, given, rank, s); }
  }

  /** The other values stay when the value set does. */
  lemma {:induction false} OthersStay(table: Table, given: Given, rank: Symbol -> nat, s: Symbol, val: Tristate,
                                      x: Symbol)
    requires Acyclic(table, rank) && s in table && x in table
    requires Calc(SetUser(table, s, val), given, rank, s) == Calc(table, given, rank, s)
    ensures Calc(SetUser(table, s, val), given, rank, x) == Calc(table, given, rank, x)
    decreases rank(x)
  {
    var table' := SetUser(table, s, val);
    var below, below' := Below(table, given, rank, rank(x)), Below(table', given, rank, rank(x));
    if x != s {
      forall y | y in References(table[x]) ensures below.tri(y) == below'.tri(y) && below.text(y) == below'.text(y) {
        if y in table {
          OthersStay(table, given, rank, s, val, y);
        }
      }
      CalcOneAgrees(x, table[x], below, below');
    }
  }

  // ----- Two inputs -----

  /** A tristate symbol with the default y and a prompt that is visible if the symbol
      other is set, and perhaps selected by it. */
  function Following(other: Symbol, selected: bool): Entry {
    Entry([Some(Sym(other))], [Default(Some(Sym(SYM_YES)), None)], None,
          if selected then Some(Sym(other)) else None, None)
  }

  /** Tristate symbols with modules on, and the value m of the other one. */
  predicate FollowsM(s: Symbol, other: Symbol, given: Given) {
    s.Config? && s.typ.Tri? && other.Config? && other.typ.Tri? && s != other && given.modules && given.tri(other) == MOD
  }

  /** Its value y is accepted as the user's value, and then it is m. */
  lemma AcceptedMayNotBeNext(s: Symbol, other: Symbol, given: Given)
    requires FollowsM(s, other, given)
    ensures var table, rank: Symbol -> nat := map[s := Following(other, false)], x => 0;
      && Accepted(s, Calc(table, given, rank, s), given, YES)
      && Calc(SetUser(table, s, YES), given, rank, s).tri == MOD
  {
    var table, rank: Symbol -> nat := map[s := Following(other, false)], x => 0;
    PromptIsM(s, other, false, given, Below(table, given, rank, 0));
    RefersToOther(s, other, false, rank);
    NextValue(table, given, rank, s, YES);
  }

  /** Selected by the other symbol it is refused the value m, which would be the next one. */
  lemma RefusedMayBeNext(s: Symbol, other: Symbol, given: Given)
    requires FollowsM(s, other, given)
    ensures var table, rank: Symbol -> nat := map[s := Following(other, true)], x => 0;
      && !Accepted(s, Calc(table, given, rank, s), given, MOD)
      && Calc(SetUser(table, s, MOD), given, rank, s).tri == MOD
  {
    var table, rank: Symbol -> nat := map[s := Following(other, true)], x => 0;
    PromptIsM(s, other, true, given, Below(table, given, rank, 0));
    RefersToOther(s, other, true, rank);
    NextValue(table, given, rank, s, MOD);
  }

  lemma RefersToOther(s: Symbol, other: Symbol, selected: bool, rank: Symbol -> nat)
    requires s.Config? && s != other
    ensures Acyclic(map[s := Following(other, selected)], rank)
  {
    var e := Following(other, selected);
    assert MentionsPrompts(e.prompts) == {other};
    assert MentionsDefaults(e.defaults) == {SYM_YES};
    assert References(e) <= {other, SYM_YES};
  }

  lemma PromptIsM(s: Symbol, other: Symbol, selected: bool, given: Given, env: Env)
    requires FollowsM(s, other, given) && env.modules && env.tri(other) == MOD
    ensures CalcOne(s, Following(other, selected), env) ==
      Calculated("n", YES, MOD, if selected then MOD else NO, true)
  {
    assert AnyPrompt(Following(other, selected).prompts[1..], env) == NO;
  }
}
