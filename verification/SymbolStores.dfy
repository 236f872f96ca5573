// The symbol table of scripts/kconfig/symbol.c while values are calculated: every
// symbol is calculated at most once, when its value is first asked for, and marked
// SYMBOL_VALID.
module SymbolStores {

  import opened Options
  import opened Expressions
  import opened SymbolValues
  import opened SymbolSets

  /** The order in which sym_toggle_tristate_value tries the values. */
  function Cycle(val: Tristate): Tristate {
    if val == NO then MOD else if val == MOD then YES else NO
  }

  /** How many steps it takes from a value to another one, at least one. */
  function StepsTo(from: Tristate, to: Tristate): nat {
    if Cycle(from) == to then 1 else if Cycle(Cycle(from)) == to then 2 else 3
  }

  /** The first value after val in this order that is accepted. */
  function Toggled(s: Symbol, c: Calculated, given: Given, val: Tristate): (r: Tristate)
    ensures Accepted(s, c, given, r)
    decreases StepsTo(val, c.tri)
  {
    var next := Cycle(val);
    if Accepted(s, c, given, next) then next else Toggled(s, c, given, next)
  }

  /** What is calculated after a value within the range has been set. */
  lemma SetRecord(table: Table, given: Given, rank: Symbol -> nat, s: Symbol, val: Tristate)
    requires Acyclic(table, rank) && s in table && IsTristate(s)
    requires WithinRange(s, Calc(table, given, rank, s), given, val) && val != Calc(table, given, rank, s).tri
    ensures Calc(SetUser(table, s, val), given, rank, s) == Calc(table, given, rank, s).(tri := val)
  {
    SameSurroundings(table, given, rank, s, val);
    NextValue(table, given, rank, s, val);
    ValueIsBounded(table, given, rank, s);
  }

  /** Every value within the range is reached by toggling once or twice, each time with
      the value calculated anew; so the value stays only if there is no other one. */
  lemma TogglingReachesAll(table: Table, given: Given, rank: Symbol -> nat, s: Symbol, val: Tristate)
    requires Acyclic(table, rank) && s in table && IsTristate(s)
    requires WithinRange(s, Calc(table, given, rank, s), given, val) && val != Calc(table, given, rank, s).tri
    ensures var c := Calc(table, given, rank, s);
      var r := Toggled(s, c, given, c.tri);
      var after := SetUser(table, s, r);
      var c' := Calc(after, given, rank, s);
      && c'.tri == r != c.tri
      && (r != val ==>
          Toggled(s, c', given, r) == val && Calc(SetUser(after, s, val), given, rank, s).tri == val)
  {
    var c := Calc(table, given, rank, s);
    var r := Toggled(s, c, given, c.tri);
    ToggledOn(s, c, given, val);
    SetRecord(table, given, rank, s, r);
    if r != val {
      var after := SetUser(table, s, r);
      StillAcyclic(table, rank, s, r);
      SetRecord(after, given, rank, s, val);
    }
  }

  lemma ToggledOn(s: Symbol, c: Calculated, given: Given, val: Tristate)
    requires WithinRange(s, c, given, val) && val != c.tri
    ensures var r := Toggled(s, c, given, c.tri);
      r != c.tri && WithinRange(s, c, given, r) && (r == val || Toggled(s, c.(tri := r), given, r) == val)
  {
  }

  lemma StillAcyclic(table: Table, rank: Symbol -> nat, s: Symbol, val: Tristate)
    requires Acyclic(table, rank) && s in table
    ensures Acyclic(SetUser(table, s, val), rank)
  {
    var after := SetUser(table, s, val);
    forall x, y | x in after && y in References(after[x]) && y in after ensures rank(y) < rank(x) {
      assert References(after[x]) == References(table[x]);
    }
  }

  /** The stored value stays when the user's value is already there. */
  lemma SameRecord(table: Table, given: Given, rank: Symbol -> nat, s: Symbol, val: Tristate)
    requires Acyclic(table, rank) && s in table && IsTristate(s)
    requires Calc(SetUser(table, s, val), given, rank, s).tri == Calc(table, given, rank, s).tri
    ensures Calc(SetUser(table, s, val), given, rank, s) == Calc(table, given, rank, s)
  {
    SameSurroundings(table, given, rank, s, val);
  }

  /** A calculation in progress: the busy symbols wait for it, and it asks for the free
      ones, whose ranks are below the bound. */
  datatype Work = Work(busy: set<Symbol>, free: set<Symbol>, bound: nat)

  ghost predicate Ready(table: Table, rank: Symbol -> nat, w: Work) {
    (forall x | x in w.free && x in table :: rank(x) < w.bound) && (forall b | b in w.busy :: rank(b) >= w.bound)
  }

  lemma ReferencesAreReady(table: Table, rank: Symbol -> nat, s: Symbol, busy: set<Symbol>)
    requires Evaluable(table, rank) && s in table && forall b | b in busy :: rank(b) > rank(s)
    ensures Ready(table, rank, Work(busy + {s}, Visits(table[s]), rank(s)))
  {
  }

  function TriOf(values: map<Symbol, Calculated>, given: Given, x: Symbol): Tristate {
    if x in values then values[x].tri else given.tri(x)
  }

  function TextOf(values: map<Symbol, Calculated>, given: Given, x: Symbol): string {
    if x in values then values[x].text else given.text(x)
  }

  function EnvironmentOf(values: map<Symbol, Calculated>, given: Given): Env {
    Env(x => TriOf(values, given, x), x => TextOf(values, given, x), given.modules)
  }

  class SymbolStore {
    var table: Table
    const given: Given
    ghost const rank: Symbol -> nat
    // The symbols with SYMBOL_VALID, and curr, visible, rev_dep.tri and SYMBOL_WRITE of
    // every symbol.
    var valid: set<Symbol>
    var values: map<Symbol, Calculated>

    /** The values of the valid symbols are right, but for the busy ones, which are
        being calculated. */
    ghost predicate Sound(busy: set<Symbol>)
      reads this
    {
      && values.Keys == table.Keys && busy <= valid <= table.Keys && Evaluable(table, rank)
      && forall s | s in valid && s !in busy :: values[s] == Calc(table, given, rank, s)
    }

    ghost predicate Working(w: Work)
      reads this
    {
      Sound(w.busy) && Ready(table, rank, w)
    }

    /** More symbols may be valid now. */
    twostate predicate Advanced()
      reads this
    {
      table == old(table) && old(valid) <= valid
    }

    function Now(): Env
      reads this
    {
      EnvironmentOf(values, given)
    }

    constructor (table: Table, given: Given, ghost rank: Symbol -> nat)
      requires Evaluable(table, rank)
      ensures Sound({}) && valid == {} && this.table == table && this.given == given && this.rank == rank
    {
      this.table, this.given, this.rank := table, given, rank;
      valid := {};
      values := map s | s in table :: Calculated("", NO, NO, NO, false);
    }

    /** What has been calculated is what the environment Final says. */
    lemma NowIsFinal(syms: set<Symbol>, w: Work)
      requires Working(w) && syms <= w.free && syms * table.Keys <= valid
      ensures Agree(syms, Now(), Final(table, given, rank))
    {
    }

    /** sym_calc_value for a symbol that an expression refers to. */
    method Require(x: Symbol, ghost w: Work)
      requires Working(w) && x in w.free
      modifies this
      ensures Working(w) && Advanced() && (x in table ==> x in valid)
      decreases w.bound, 0, 0
    {
      if x in table {
        CalcValue(x, w.busy);
      }
    }

    method RequireBoth(l: Symbol, r: Symbol, ghost w: Work)
      requires Working(w) && l in w.free && r in w.free
      modifies this
      ensures Working(w) && Advanced() && {l, r} * table.Keys <= valid
      decreases w.bound, 0, 1
    {
      Require(l, w);
      Require(r, w);
    }

    /** expr_calc_value. */
    method CalcExpr(e: Expr, ghost w: Work) returns (t: Tristate)
      requires Working(w) && Mentions(e) <= w.free
      modifies this
      ensures Working(w) && Advanced() && t == Eval(e, Final(table, given, rank))
      decreases w.bound, 1, Size(e)
    {
      match e {
        case Neg(a) =>
          t := CalcExpr(a, w);
          t := Not(t);
        case Bin(op, l, r) =>
          t := CalcExpr(l, w);
          var t2 := CalcExpr(r, w);
          t := Apply(op, t, t2);
        case Sym(s) =>
          t := CalcLeaf(e, s, s, w);
        case Equal(l, r) =>
          t := CalcLeaf(e, l, r, w);
        case Unequal(l, r) =>
          t := CalcLeaf(e, l, r, w);
      }
    }

    method CalcLeaf(e: Expr, l: Symbol, r: Symbol, ghost w: Work) returns (t: Tristate)
      requires Working(w) && l in w.free && r in w.free
      requires e == Equal(l, r) || e == Unequal(l, r) || (l == r && e == Sym(l))
      modifies this
      ensures Working(w) && Advanced() && t == Eval(e, Final(table, given, rank))
      decreases w.bound, 1, 0
    {
      RequireBoth(l, r, w);
      t := Eval(e, Now());
      LeafIsFinal(e, l, r, w);
    }

    lemma LeafIsFinal(e: Expr, l: Symbol, r: Symbol, w: Work)
      requires Working(w) && l in w.free && r in w.free && {l, r} * table.Keys <= valid
      requires e == Equal(l, r) || e == Unequal(l, r) || (l == r && e == Sym(l))
      ensures Eval(e, Now()) == Eval(e, Final(table, given, rank))
    {
      NowIsFinal({l, r}, w);
      EvalAgrees(e, Now(), Final(table, given, rank));
    }

    method CalcOpt(e: Option<Expr>, ghost w: Work) returns (t: Tristate)
      requires Working(w) && MentionsOpt(e) <= w.free
      modifies this
      ensures Working(w) && Advanced() && t == EvalOpt(e, Final(table, given, rank))
      decreases w.bound, 2, 0
    {
      if e.None? {
        t := YES;
      } else {
        t := CalcExpr(e.value, w);
      }
    }

    /** The loop over the prompts in sym_calc_visibility. */
    method CalcPrompts(prompts: seq<Option<Expr>>, ghost w: Work) returns (tri: Tristate)
      requires Working(w) && MentionsPrompts(prompts) <= w.free
      modifies this
      ensures Working(w) && Advanced() && tri == AnyPrompt(prompts, Final(table, given, rank))
      decreases w.bound, 3, 0
    {
      tri := NO;
      var i := 0;
      while i < |prompts|
        invariant 0 <= i <= |prompts| && Working(w) && Advanced()
        invariant MentionsPrompts(prompts[i..]) <= w.free
        invariant var env := Final(table, given, rank); Or(tri, AnyPrompt(prompts[i..], env)) == AnyPrompt(prompts, env)
      {
        var t := CalcOpt(prompts[i], w);
        tri := Or(tri, t);
        assert prompts[i..][1..] == prompts[i + 1..];
        i := i + 1;
      }
    }

    /** sym_get_default_prop. */
    method FindDefault(defaults: seq<Default>, ghost w: Work)
      returns (d: Option<Default>, condition: Tristate)
      requires Working(w) && MentionsDefaults(defaults) <= w.free
      modifies this
      ensures Working(w) && Advanced() && d == FirstDefault(defaults, Final(table, given, rank))
      ensures d.Some? ==> condition == EvalOpt(d.value.condition, Final(table, given, rank))
      ensures d.Some? ==> MentionsOpt(d.value.value) <= w.free
      decreases w.bound, 3, 0
    {
      var i := 0;
      while i < |defaults|
        invariant 0 <= i <= |defaults| && Working(w) && Advanced()
        invariant MentionsDefaults(defaults[i..]) <= w.free
        invariant var env := Final(table, given, rank); FirstDefault(defaults[i..], env) == FirstDefault(defaults, env)
      {
        condition := CalcOpt(defaults[i].condition, w);
        if condition != NO {
          d := Some(defaults[i]);
          return;
        }
        assert defaults[i..][1..] == defaults[i + 1..];
        i := i + 1;
      }
      d, condition := None, NO;
    }

    /** sym_calc_visibility. The value of dir_dep.tri only serves a warning. */
    method CalcVisibility(s: Symbol, ghost w: Work) returns (visible: Tristate, rev: Tristate)
      requires Working(w) && s in table && Visits(table[s]) <= w.free
      modifies this
      ensures Working(w) && Advanced()
      ensures visible == Visible(s, table[s].prompts, Final(table, given, rank))
      ensures rev == Selected(s, table[s].revDep, Final(table, given, rank))
      decreases w.bound, 4, 0
    {
      var e := table[s];
      visible := CalcPrompts(e.prompts, w);
      if visible == MOD && (!TypeOf(s).Tri? || !given.modules) {
        visible := YES;
      }
      var _ := CalcOpt(e.dirDep, w);
      rev := CalcSelected(s, e.revDep, w);
    }

    method CalcSelected(s: Symbol, revDep: Option<Expr>, ghost w: Work)
      returns (rev: Tristate)
      requires Working(w) && MentionsOpt(revDep) <= w.free
      modifies this
      ensures Working(w) && Advanced() && rev == Selected(s, revDep, Final(table, given, rank))
      decreases w.bound, 3, 0
    {
      rev := NO;
      if revDep.Some? {
        rev := CalcExpr(revDep.value, w);
      }
      if rev == MOD && EffectiveType(s, Now()).Boolean? {
        rev := YES;
      }
    }

    /** The branch of sym_calc_value for boolean and tristate symbols. */
    method CalcTri(s: Symbol, visible: Tristate, rev: Tristate, ghost w: Work) returns (c: Calculated)
      requires Working(w) && s in table && Visits(table[s]) <= w.free
      requires visible == Visible(s, table[s].prompts, Final(table, given, rank))
      requires rev == Selected(s, table[s].revDep, Final(table, given, rank))
      modifies this
      ensures Working(w) && Advanced() && c == CalcTristate(s, table[s], Final(table, given, rank))
      decreases w.bound, 4, 0
    {
      hide Visible, Selected, FirstDefault, Eval, EvalOpt, Calc;
      var e := table[s];
      var tri, write := NO, false;
      if visible != NO {
        write := true;
      }
      if visible != NO && e.user.Some? {
        tri := And(e.user.value.tri, visible);
      } else {
        if rev != NO {
          write := true;
        }
        var d, condition := FindDefault(e.defaults, w);
        if d.Some? {
          write := true;
          tri := CalcOpt(d.value.value, w);
          tri := And(tri, condition);
        }
      }
      tri := Or(tri, rev);
      if tri == MOD && EffectiveType(s, Now()).Boolean? {
        tri := YES;
      }
      c := Calculated("n", tri, visible, rev, write);
    }

    /** The branch for the other types. */
    method CalcOther(s: Symbol, visible: Tristate, rev: Tristate, ghost w: Work) returns (c: Calculated)
      requires Working(w) && s in table && Visits(table[s]) <= w.free
      requires visible == Visible(s, table[s].prompts, Final(table, given, rank))
      requires rev == Selected(s, table[s].revDep, Final(table, given, rank))
      modifies this
      ensures Working(w) && Advanced() && c == CalcText(s, table[s], Final(table, given, rank))
      decreases w.bound, 4, 0
    {
      hide Visible, Selected, FirstDefault, Eval, EvalOpt, Calc;
      var e := table[s];
      var text, write := "", false;
      if visible != NO {
        write := true;
      }
      if visible != NO && e.user.Some? {
        text := e.user.value.text;
      } else {
        var d, _ := FindDefault(e.defaults, w);
        if d.Some? && d.value.value.Some? && d.value.value.value.Sym? {
          var ds := d.value.value.value.sym;
          write := true;
          Require(ds, w);
          text := CurrentText(ds, Now());
          NowIsFinal({ds}, w);
        }
      }
      c := Calculated(text, NO, visible, rev, write);
    }

    /** sym_calc_value. That it leaves no in curr while it works never shows, since no
        symbol refers back to this one. */
    method CalcValue(s: Symbol, ghost busy: set<Symbol>)
      requires Sound(busy) && s in table && forall b | b in busy :: rank(b) > rank(s)
      modifies this
      ensures Sound(busy) && Advanced() && s in valid
      ensures values[s] == Calc(table, given, rank, s)
      decreases rank(s), 6, 0
    {
      if s in valid {
        return;
      }
      ghost var w := Begin(s, busy);
      var c := CalcTyped(s, w);
      Finish(s, c, busy);
    }

    method Begin(s: Symbol, ghost busy: set<Symbol>) returns (ghost w: Work)
      requires Sound(busy) && s in table && s !in valid && forall b | b in busy :: rank(b) > rank(s)
      modifies this`valid
      ensures valid == old(valid) + {s}
      ensures w == Work(busy + {s}, Visits(table[s]), rank(s)) && Working(w)
    {
      valid := valid + {s};
      w := Work(busy + {s}, Visits(table[s]), rank(s));
      ReferencesAreReady(table, rank, s, busy);
    }

    method Finish(s: Symbol, c: Calculated, ghost busy: set<Symbol>)
      requires Sound(busy + {s}) && s in table && s !in busy
      requires c == Calc(table, given, rank, s)
      modifies this`values
      ensures Sound(busy) && values == old(values)[s := c]
    {
      values := values[s := c];
    }

    /** The body of sym_calc_value. */
    method CalcTyped(s: Symbol, ghost w: Work) returns (c: Calculated)
      requires Working(w) && s in table && Visits(table[s]) <= w.free
      modifies this
      ensures Working(w) && Advanced() && c == Calc(table, given, rank, s)
      decreases w.bound, 5, 0
    {
      CalcIsSolution(table, given, rank, s);
      match TypeOf(s) {
        case Boolean | Tri =>
          var visible, rev := CalcVisibility(s, w);
          c := CalcTri(s, visible, rev, w);
        case Int | Hex | Text =>
          var visible, rev := CalcVisibility(s, w);
          c := CalcOther(s, visible, rev, w);
        case _ =>
          c := Calculated(Name(s), NO, NO, NO, false);
      }
    }

    ghost predicate AllValid(symbols: seq<Symbol>)
      reads this
    {
      forall s | s in symbols && s in table :: s in valid
    }

    /** What conf_write does for all symbols in turn. */
    method CalcAll(symbols: seq<Symbol>)
      requires Sound({})
      modifies this
      ensures Sound({}) && Advanced() && AllValid(symbols)
    {
      for i := 0 to |symbols|
        invariant Sound({}) && Advanced() && AllValid(symbols[..i])
      {
        CalcNext(symbols[..i], symbols[i]);
        assert symbols[..i + 1] == symbols[..i] + [symbols[i]];
      }
      assert symbols[..|symbols|] == symbols;
    }

    method CalcNext(done: seq<Symbol>, s: Symbol)
      requires Sound({}) && AllValid(done)
      modifies this
      ensures Sound({}) && Advanced() && AllValid(done + [s])
    {
      if s in table {
        CalcValue(s, {});
      }
    }

    /** sym_clear_all_valid. */
    method ClearAllValid()
      requires values.Keys == table.Keys && Evaluable(table, rank)
      modifies this`valid
      ensures Sound({}) && valid == {}
    {
      valid := {};
    }

    /** sym_set_tristate_value, for a symbol whose value has been calculated. The other
        values that have been calculated stay right unless the symbol keeps a value that
        its visibility does not reach. */
    method SetTristateValue(s: Symbol, val: Tristate) returns (ok: bool)
      requires Sound({}) && s in valid && IsTristate(s)
      modifies this
      ensures ok == Accepted(s, old(values[s]), given, val)
      ensures values == old(values)
      ensures !ok ==> table == old(table) && valid == old(valid)
      ensures ok ==> table == SetUser(old(table), s, val)
      ensures ok ==> valid == if old(values[s]).tri == val then old(valid) else {}
      ensures var c := old(values[s]);
        ok && (c.tri != val || c.visible == NO || val <= Or(c.visible, c.rev)) ==> Sound({})
    {
      hide Evaluable;
      var c := values[s];
      if c.tri != val && !WithinRange(s, c, given, val) {
        return false;
      }
      if c.tri == val && (c.visible == NO || val <= Or(c.visible, c.rev)) {
        KeepsRight(s, val);
      }
      StoreUser(s, val, c.tri != val);
      ok := true;
    }

    /** sym_toggle_tristate_value. */
    method ToggleTristateValue(s: Symbol) returns (newval: Tristate)
      requires Sound({}) && s in valid && IsTristate(s)
      modifies this
      ensures var c := old(values[s]);
        && newval == Toggled(s, c, given, c.tri)
        && table == SetUser(old(table), s, newval)
        && values == old(values) && valid == if newval == c.tri then old(valid) else {}
    {
      ghost var c := values[s];
      newval := values[s].tri;
      while true
        invariant Sound({}) && table == old(table) && valid == old(valid) && values == old(values)
        invariant Toggled(s, c, given, newval) == Toggled(s, c, given, c.tri)
        decreases StepsTo(newval, c.tri)
      {
        newval := Cycle(newval);
        var ok := SetTristateValue(s, newval);
        if ok {
          return;
        }
      }
    }

    method StoreUser(s: Symbol, val: Tristate, clear: bool)
      requires Sound({}) && s in table
      modifies this`table, this`valid
      ensures table == SetUser(old(table), s, val) && valid == if clear then {} else old(valid)
      ensures clear || old(RightFor(SetUser(table, s, val))) ==> Sound({})
    {
      StaysEvaluable(table, s, val);
      table := SetUser(table, s, val);
      if clear {
        ClearAllValid();
      }
    }

    /** The values calculated are those of another table. */
    ghost predicate RightFor(t: Table)
      reads this
      requires valid <= t.Keys
    {
      forall x | x in valid && x in values :: values[x] == Calc(t, given, rank, x)
    }

    lemma KeepsRight(s: Symbol, val: Tristate)
      requires Sound({}) && s in valid && IsTristate(s)
      requires var c := values[s]; c.tri == val && (c.visible == NO || val <= Or(c.visible, c.rev))
      ensures RightFor(SetUser(table, s, val))
    {
      Untouched(table, s, val);
    }

    lemma StaysEvaluable(before: Table, s: Symbol, val: Tristate)
      requires Evaluable(before, rank) && s in before
      ensures Evaluable(SetUser(before, s, val), rank)
    {
    }

    lemma Untouched(before: Table, s: Symbol, val: Tristate)
      requires Acyclic(before, rank) && s in before && IsTristate(s)
      requires var c := Calc(before, given, rank, s); c.tri == val && (c.visible == NO || val <= Or(c.visible, c.rev))
      ensures forall x | x in before :: Calc(SetUser(before, s, val), given, rank, x) == Calc(before, given, rank, x)
    {
      AcceptedIsNext(before, given, rank, s, val);
      SameRecord(before, given, rank, s, val);
      forall x | x in before
        ensures Calc(SetUser(before, s, val), given, rank, x) == Calc(before, given, rank, x)
      {
        OthersStay(before, given, rank, s, val, x);
      }
    }
  }
}
