// A configuration from its menu entries to the check for recursive dependencies in
// conf_parse and to the values of its symbols.
module ConfigRun {
  import opened Options
  import opened Expressions
  import opened ExprDuplicates
  import opened ExprTransform
  import opened SymbolValues
  import opened MenuDependencies
  import D = DependencyCheck
  import S = SymbolStores

  // ----- A symbol as menu_finalize leaves it -----

  /** A menu entry that defines a symbol: the condition of the menu above it and the one
      written for the entry. */
  datatype Definition = Definition(parent: Option<Expr>, own: Option<Expr>)

  datatype Source = Source(
    definitions: seq<Definition>,
    prompts: seq<Option<Expr>>,
    defaults: seq<Default>,
    revDep: Option<Expr>,
    user: Option<User>)

  type Sources = map<Symbol, Source>

  /** menu->dep */
  function Condition(d: Definition): Option<Expr> {
    EntryCondition(d.parent, d.own)
  }

  /** expr_alloc_or, on expressions that may be missing. */
  function AllocOr(e1: Option<Expr>, e2: Option<Expr>): Option<Expr> {
    if e1.None? then e2
    else if e2.None? then e1
    else Some(Bin(OpOr, e1.value, e2.value))
  }

  /** dir_dep grows by the condition of one entry after the other. */
  function DirDep(definitions: seq<Definition>): Option<Expr> {
    if definitions == [] then None
    else
      var n := |definitions| - 1;
      AllocOr(DirDep(definitions[..n]), Condition(definitions[n]))
  }

  function EntryOf(source: Source): Entry {
    Entry(source.prompts, source.defaults, DirDep(source.definitions), source.revDep, source.user)
  }

  function TableOf(sources: Sources): Table {
    map s | s in sources :: EntryOf(sources[s])
  }

  // ----- The same symbols for the check and for the calculation -----

  /** The property P_SYMBOL of every entry. Nothing is written for it, so that its
      condition is made from the one of the entry. */
  function DefinedProperties(s: Symbol, definitions: seq<Definition>): seq<D.Property> {
    if definitions == [] then []
    else
      var n := |definitions| - 1;
      DefinedProperties(s, definitions[..n])
      + [D.Property(D.Defined, PropertyCondition(Condition(definitions[n]), None, TypeOf(s)), None)]
  }

  function PromptProperties(prompts: seq<Option<Expr>>): seq<D.Property> {
    if prompts == [] then [] else [D.Property(D.Prompt, prompts[0], None)] + PromptProperties(prompts[1..])
  }

  function DefaultProperties(defaults: seq<Default>): seq<D.Property> {
    if defaults == [] then []
    else [D.Property(D.PropType.Default, defaults[0].condition, defaults[0].value)] + DefaultProperties(defaults[1..])
  }

  function InfoOf(s: Symbol, source: Source): D.SymbolInfo {
    D.SymbolInfo(source.revDep, DefinedProperties(s, source.definitions) + PromptProperties(source.prompts)
                                + DefaultProperties(source.defaults))
  }

  /** The table for the check, with the symbols that are only mentioned. */
  function InfoTable(sources: Sources, mentioned: set<Symbol>): D.Table {
    map s | s in sources.Keys + mentioned :: if s in sources then InfoOf(s, sources[s]) else D.SymbolInfo(None, [])
  }

  lemma {:induction false} SameSymbols(e: Expr, x: Symbol)
    ensures x in D.Symbols(e) <==> x in Mentions(e)
  {
    match e
    case Neg(a) => SameSymbols(a, x);
    case Bin(_, l, r) => SameSymbols(l, x); SameSymbols(r, x);
    case _ =>
  }

  lemma SameMentions(e: Option<Expr>, x: Symbol)
    ensures D.Mentions(e, x) <==> x in MentionsOpt(e)
  {
    if e.Some? { SameSymbols(e.value, x); }
  }

  ghost predicate AnyUses(props: seq<D.Property>, x: Symbol) {
    exists p | p in props :: D.Uses(p, x)
  }

  lemma AnyUsesJoin(a: seq<D.Property>, b: seq<D.Property>, x: Symbol)
    ensures AnyUses(a + b, x) <==> AnyUses(a, x) || AnyUses(b, x)
  {
  }

  lemma {:induction false} PromptsUse(prompts: seq<Option<Expr>>, x: Symbol)
    ensures AnyUses(PromptProperties(prompts), x) <==> x in MentionsPrompts(prompts)
  {
    if prompts != [] {
      var p := D.Property(D.Prompt, prompts[0], None);
      SameMentions(prompts[0], x);
      PromptsUse(prompts[1..], x);
      AnyUsesJoin([p], PromptProperties(prompts[1..]), x);
      assert AnyUses([p], x) <==> D.Uses(p, x) by { assert p in [p]; }
    }
  }

  lemma {:induction false} DefaultsUse(defaults: seq<Default>, x: Symbol)
    ensures AnyUses(DefaultProperties(defaults), x) <==> x in MentionsDefaults(defaults)
  {
    if defaults != [] {
      var p := D.Property(D.PropType.Default, defaults[0].condition, defaults[0].value);
      SameMentions(defaults[0].condition, x);
      SameMentions(defaults[0].value, x);
      DefaultsUse(defaults[1..], x);
      AnyUsesJoin([p], DefaultProperties(defaults[1..]), x);
      assert AnyUses([p], x) <==> D.Uses(p, x) by { assert p in [p]; }
    }
  }

  /** expr_trans_bool drops nothing but the constant n. */
  lemma {:induction false} TransBoolMentions(e: Expr, x: Symbol)
    ensures x in Mentions(TransBool(e)) ==> x in Mentions(e)
    ensures x in Mentions(e) && x != SYM_NO ==> x in Mentions(TransBool(e))
  {
    match e
    case Neg(a) => TransBoolMentions(a, x);
    case Bin(_, l, r) => TransBoolMentions(l, x); TransBoolMentions(r, x);
    case _ =>
  }

  /** The condition of P_SYMBOL mentions what the condition of its entry mentions. */
  lemma DefinedMentions(d: Definition, typ: SymbolType, x: Symbol)
    ensures var c := PropertyCondition(Condition(d), None, typ);
      && (x in MentionsOpt(c) ==> x in MentionsOpt(Condition(d)))
      && (x in MentionsOpt(Condition(d)) && x != SYM_NO ==> x in MentionsOpt(c))
  {
    var c := AllocAnd(d.parent, TransformOpt(d.own));
    if c.Some? {
      EliminateDupsSettles(c.value);
      TransBoolMentions(EliminateDups(c.value), x);
    }
  }

  lemma {:induction false} DefinedUse(s: Symbol, definitions: seq<Definition>, x: Symbol)
    ensures AnyUses(DefinedProperties(s, definitions), x) ==> x in MentionsOpt(DirDep(definitions))
    ensures x in MentionsOpt(DirDep(definitions)) && x != SYM_NO ==> AnyUses(DefinedProperties(s, definitions), x)
  {
    if definitions != [] {
      var n := |definitions| - 1;
      var c := PropertyCondition(Condition(definitions[n]), None, TypeOf(s));
      var p := D.Property(D.Defined, c, None);
      DefinedUse(s, definitions[..n], x);
      DefinedMentions(definitions[n], TypeOf(s), x);
      SameMentions(c, x);
      AnyUsesJoin(DefinedProperties(s, definitions[..n]), [p], x);
      assert AnyUses([p], x) <==> D.Uses(p, x) by { assert p in [p]; }
    }
  }

  /** sym_check_sym_deps looks at exactly the symbols that the calculation asks for,
      those of dir_dep by way of P_SYMBOL; only the constant n may be missing there. */
  lemma EdgeIsVisit(sources: Sources, mentioned: set<Symbol>, s: Symbol, x: Symbol)
    requires s in sources
    ensures D.Edge(InfoTable(sources, mentioned), s, x) ==> x in Visits(TableOf(sources)[s])
    ensures x in Visits(TableOf(sources)[s]) && x != SYM_NO ==> D.Edge(InfoTable(sources, mentioned), s, x)
  {
    var e := sources[s];
    var defined, prompts := DefinedProperties(s, e.definitions), PromptProperties(e.prompts);
    DefinedUse(s, e.definitions, x);
    PromptsUse(e.prompts, x);
    DefaultsUse(e.defaults, x);
    AnyUsesJoin(defined, prompts, x);
    AnyUsesJoin(defined + prompts, DefaultProperties(e.defaults), x);
    SameMentions(e.revDep, x);
    assert InfoTable(sources, mentioned)[s] == InfoOf(s, e);
  }

  // ----- Cycles and ranks -----

  /** No constant has an entry, and every symbol that is mentioned is known. */
  ghost predicate Parsed(sources: Sources, mentioned: set<Symbol>) {
    && (forall s | s in sources :: !s.Const?)
    && forall s, x | s in sources && x in Visits(EntryOf(sources[s])) :: x in sources.Keys + mentioned
  }

  lemma OnlySourcesHaveEdges(sources: Sources, mentioned: set<Symbol>, s: Symbol, x: Symbol)
    requires D.Edge(InfoTable(sources, mentioned), s, x)
    ensures s in sources && x in Visits(TableOf(sources)[s])
  {
    if s in sources {
      EdgeIsVisit(sources, mentioned, s, x);
    }
  }

  /** An order in which the check has finished the symbols is one in which they can be
      calculated. */
  lemma OrderedRanks(sources: Sources, mentioned: set<Symbol>, order: seq<Symbol>, rank: Symbol -> nat)
    requires Parsed(sources, mentioned)
    requires forall s | s in sources :: s in order && rank(s) == D.IndexOf(order, s)
    requires forall k, t | 0 <= k < |order| && D.Edge(InfoTable(sources, mentioned), order[k], t) && t in sources ::
               t in order[..k]
    ensures Evaluable(TableOf(sources), rank)
  {
    var table := TableOf(sources);
    forall s, x | s in table && x in Visits(table[s]) && x in table
      ensures rank(x) < rank(s)
    {
      EdgeIsVisit(sources, mentioned, s, x);
      var k := D.IndexOf(order, s);
      assert x in order[..k];
    }
  }

  ghost function RankIn(order: seq<Symbol>, s: Symbol): nat {
    if s in order then D.IndexOf(order, s) else 0
  }

  /** Along a path ranks fall. */
  lemma {:induction false} RanksFall(sources: Sources, mentioned: set<Symbol>, rank: Symbol -> nat, p: seq<Symbol>, k: nat)
    requires Evaluable(TableOf(sources), rank) && D.Path(InfoTable(sources, mentioned), p) && k < |p|
    requires forall s | s in p :: s in sources
    ensures rank(p[k]) <= rank(p[0])
  {
    if k > 0 {
      RanksFall(sources, mentioned, rank, p, k - 1);
      assert D.Edge(InfoTable(sources, mentioned), p[k - 1], p[k]) && p[k] in p;
      OnlySourcesHaveEdges(sources, mentioned, p[k - 1], p[k]);
    }
  }

  lemma RanksExcludeCycles(sources: Sources, mentioned: set<Symbol>, rank: Symbol -> nat, c: seq<Symbol>)
    requires Evaluable(TableOf(sources), rank)
    ensures !D.Cycle(InfoTable(sources, mentioned), c)
  {
    var info := InfoTable(sources, mentioned);
    if D.Cycle(info, c) {
      forall i | 0 <= i < |c| ensures c[i] in sources {
        assert D.Edge(info, c[i], if i + 1 < |c| then c[i + 1] else c[0]);
        OnlySourcesHaveEdges(sources, mentioned, c[i], if i + 1 < |c| then c[i + 1] else c[0]);
      }
      RanksFall(sources, mentioned, rank, c, |c| - 1);
      OnlySourcesHaveEdges(sources, mentioned, c[|c| - 1], c[0]);
    }
  }

  /** The symbols can be calculated, whatever is asked for on the way, exactly if there is
      no cycle for the check to find. */
  lemma EvaluableIffNoCycle(sources: Sources, mentioned: set<Symbol>)
    requires Parsed(sources, mentioned)
    ensures (exists rank: Symbol -> nat :: Evaluable(TableOf(sources), rank)) <==>
      forall c :: !D.Cycle(InfoTable(sources, mentioned), c)
  {
    if rank: Symbol -> nat :| Evaluable(TableOf(sources), rank) {
      forall c ensures !D.Cycle(InfoTable(sources, mentioned), c) {
        RanksExcludeCycles(sources, mentioned, rank, c);
      }
    }
    if forall c :: !D.Cycle(InfoTable(sources, mentioned), c) {
      var order := D.FinishingOrder(InfoTable(sources, mentioned), sources.Keys);
      var rank: Symbol -> nat := s => RankIn(order, s);
      OrderedRanks(sources, mentioned, order, rank);
    }
  }

  // ----- From a sweep without reports to values -----

  lemma InfoTableClosed(sources: Sources, mentioned: set<Symbol>)
    requires Parsed(sources, mentioned)
    ensures D.Closed(InfoTable(sources, mentioned))
  {
    var info := InfoTable(sources, mentioned);
    forall s, x | D.Edge(info, s, x) ensures x in info {
      OnlySourcesHaveEdges(sources, mentioned, s, x);
    }
  }

  /** Every symbol has the value that sym_calc_value gives it from the values of all. */
  ghost predicate Solved(table: Table, given: Given, values: map<Symbol, Calculated>) {
    values.Keys == table.Keys &&
    forall s | s in table :: values[s] == CalcOne(s, table[s], S.EnvironmentOf(values, given))
  }

  lemma CalculatedIsSolved(table: Table, given: Given, rank: Symbol -> nat, values: map<Symbol, Calculated>)
    requires Acyclic(table, rank) && values.Keys == table.Keys
    requires forall s | s in table :: values[s] == Calc(table, given, rank, s)
    ensures Solved(table, given, values)
  {
    forall s | s in table
      ensures values[s] == CalcOne(s, table[s], S.EnvironmentOf(values, given))
    {
      OneIsSolved(table, given, rank, values, s);
    }
  }

  lemma OneIsSolved(table: Table, given: Given, rank: Symbol -> nat, values: map<Symbol, Calculated>, s: Symbol)
    requires Acyclic(table, rank) && values.Keys == table.Keys && s in table
    requires forall x | x in table :: values[x] == Calc(table, given, rank, x)
    ensures values[s] == CalcOne(s, table[s], S.EnvironmentOf(values, given))
  {
    CalcIsSolution(table, given, rank, s);
    SameEnvironment(table, given, rank, values, References(table[s]));
    CalcOneAgrees(s, table[s], Final(table, given, rank), S.EnvironmentOf(values, given));
  }

  lemma SameEnvironment(table: Table, given: Given, rank: Symbol -> nat, values: map<Symbol, Calculated>,
                        syms: set<Symbol>)
    requires values.Keys == table.Keys && forall x | x in table :: values[x] == Calc(table, given, rank, x)
    ensures Agree(syms, Final(table, given, rank), S.EnvironmentOf(values, given))
  {
  }

  /** There is no other choice of values. */
  lemma SolvedIsUnique(table: Table, given: Given, rank: Symbol -> nat, values: map<Symbol, Calculated>, s: Symbol)
    requires Acyclic(table, rank) && Solved(table, given, values) && s in table
    ensures values[s] == Calc(table, given, rank, s)
  {
    var env := S.EnvironmentOf(values, given);
    SolutionIsUnique(table, given, rank, env, x => ValueOr(values, x), s);
  }

  function ValueOr(values: map<Symbol, Calculated>, s: Symbol): Calculated {
    if s in values then values[s] else Calculated("", NO, NO, NO, false)
  }

  lemma SolvedIsOnlyOne(table: Table, given: Given, rank: Symbol -> nat, v: map<Symbol, Calculated>,
                        w: map<Symbol, Calculated>)
    requires Acyclic(table, rank) && Solved(table, given, v) && Solved(table, given, w)
    ensures v == w
  {
    forall s | s in table ensures v[s] == w[s] {
      SolvedIsUnique(table, given, rank, v, s);
      SolvedIsUnique(table, given, rank, w, s);
    }
  }

  /** The sweep of conf_parse. */
  method Check(sources: Sources, mentioned: set<Symbol>, symbols: seq<Symbol>)
    returns (clean: bool, ghost order: seq<Symbol>)
    requires Parsed(sources, mentioned)
    requires forall s :: s in symbols <==> s in sources || s in mentioned
    ensures clean <==> forall c :: !D.Cycle(InfoTable(sources, mentioned), c)
    ensures clean ==> Evaluable(TableOf(sources), s => RankIn(order, s))
  {
    InfoTableClosed(sources, mentioned);
    var search := new D.SymbolTable(InfoTable(sources, mentioned));
    forall s, x | D.Edge(search.table, s, x) ensures s in symbols {
      OnlySourcesHaveEdges(sources, mentioned, s, x);
    }
    var _ := search.Sweep(symbols);
    D.ReportsIffCycle(search.table, search.reports);
    clean, order := search.reports == [], search.order;
    if clean {
      OrderedRanks(sources, mentioned, order, s => RankIn(order, s));
    }
  }

  /** The sweep of conf_parse and, if nothing has been reported, the calculation of all
      symbols. Nothing is reported exactly if no symbol is asked for while it is being
      calculated; then the values fit one another, and no others do. */
  method CheckAndCalculate(sources: Sources, mentioned: set<Symbol>, given: Given, symbols: seq<Symbol>)
    returns (clean: bool, values: map<Symbol, Calculated>)
    requires Parsed(sources, mentioned)
    requires forall s :: s in symbols <==> s in sources || s in mentioned
    ensures clean <==> forall c :: !D.Cycle(InfoTable(sources, mentioned), c)
    ensures clean <==> exists rank: Symbol -> nat :: Evaluable(TableOf(sources), rank)
    ensures clean ==> Solved(TableOf(sources), given, values)
    ensures clean ==> forall v :: Solved(TableOf(sources), given, v) ==> v == values
  {
    ghost var order;
    values := map[];
    clean, order := Check(sources, mentioned, symbols);
    EvaluableIffNoCycle(sources, mentioned);
    if clean {
      ghost var rank: Symbol -> nat := s => RankIn(order, s);
      values := CalculateAll(TableOf(sources), given, rank, symbols);
      EvaluableIsAcyclic(TableOf(sources), rank);
      CalculatedIsSolved(TableOf(sources), given, rank, values);
      forall v | Solved(TableOf(sources), given, v) ensures v == values {
        SolvedIsOnlyOne(TableOf(sources), given, rank, v, values);
      }
    }
  }

  method CalculateAll(table: Table, given: Given, ghost rank: Symbol -> nat, symbols: seq<Symbol>)
    returns (values: map<Symbol, Calculated>)
    requires Evaluable(table, rank) && forall s | s in table :: s in symbols
    ensures values.Keys == table.Keys && forall s | s in table :: values[s] == Calc(table, given, rank, s)
  {
    var store := new S.SymbolStore(table, given, rank);
    store.CalcAll(symbols);
    assert forall s | s in table :: s in store.valid;
    values := store.values;
  }
}
