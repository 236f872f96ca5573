// The search for recursive dependencies: sym_check_deps and the functions around it
// in scripts/kconfig/symbol.c, and the sweep of conf_parse, for a configuration
// without choices.
module DependencyCheck {
  import opened Options
  import opened Expressions

  datatype PropType = Prompt | Comment | MenuEntry | Default | ChoiceValue | Select | Range | FromEnv | Defined

  datatype Property = Property(typ: PropType, visible: Option<Expr>, expr: Option<Expr>)

  datatype SymbolInfo = SymbolInfo(revDep: Option<Expr>, props: seq<Property>)

  type Table = map<Symbol, SymbolInfo>

  /** The symbols of an expression, in the order in which they are checked. */
  function Symbols(e: Expr): seq<Symbol> {
    match e
    case Sym(s) => [s]
    case Equal(l, r) => [l, r]
    case Unequal(l, r) => [l, r]
    case Neg(a) => Symbols(a)
    case Bin(_, l, r) => Symbols(l) + Symbols(r)
  }

  predicate Mentions(e: Option<Expr>, t: Symbol) {
    e.Some? && t in Symbols(e.value)
  }

  /** The property makes its symbol depend on t. */
  predicate Uses(p: Property, t: Symbol) {
    && !p.typ.ChoiceValue? && !p.typ.Select?
    && (Mentions(p.visible, t) || (p.typ.Default? && Mentions(p.expr, t)))
  }

  /** s depends on t: its reverse dependency, the condition of one of its properties
      or one of its defaults mentions t. */
  predicate Edge(table: Table, s: Symbol, t: Symbol) {
    s in table && (Mentions(table[s].revDep, t) || exists p | p in table[s].props :: Uses(p, t))
  }

  ghost predicate Closed(table: Table) {
    forall s, t | Edge(table, s, t) :: t in table
  }

  ghost predicate Path(table: Table, p: seq<Symbol>) {
    forall k | 0 <= k < |p| - 1 :: Edge(table, p[k], p[k + 1])
  }

  /** A recursive dependency. */
  ghost predicate Cycle(table: Table, c: seq<Symbol>) {
    c != [] && Path(table, c) && Edge(table, c[|c| - 1], c[0])
  }

  ghost predicate AllDifferent(stack: seq<Symbol>) {
    forall i, j | 0 <= i < j < |stack| :: stack[i] != stack[j]
  }

  /** A recursive dependency in which no symbol occurs twice. */
  ghost predicate SimpleCycle(table: Table, c: seq<Symbol>) {
    Cycle(table, c) && AllDifferent(c)
  }

  // ----- Finishing order -----

  /** Every symbol comes after all the symbols it depends on. */
  ghost predicate Ordered(table: Table, order: seq<Symbol>) {
    forall k, t | 0 <= k < |order| && Edge(table, order[k], t) :: t in order[..k]
  }

  function IndexOf(order: seq<Symbol>, s: Symbol): (k: nat)
    requires s in order
    ensures k < |order| && order[k] == s && s !in order[..k]
  {
    if order[0] == s then 0 else 1 + IndexOf(order[1..], s)
  }

  // ----- Without a cycle there is such an order -----

  ghost predicate HasNext(table: Table, todo: set<Symbol>, s: Symbol) {
    exists t :: t in todo && Edge(table, s, t)
  }

  ghost predicate AllHaveNext(table: Table, todo: set<Symbol>) {
    forall s | s in todo :: HasNext(table, todo, s)
  }

  /** A path of n symbols, when each of them depends on another one of the set. */
  lemma {:induction false} LongPath(table: Table, todo: set<Symbol>, n: nat) returns (p: seq<Symbol>)
    requires todo != {} && n > 0 && AllHaveNext(table, todo)
    ensures |p| == n && Path(table, p) && forall s | s in p :: s in todo
  {
    if n == 1 {
      var s :| s in todo;
      p := [s];
    } else {
      var q := LongPath(table, todo, n - 1);
      var last := q[|q| - 1];
      assert last in q && HasNext(table, todo, last);
      var t :| t in todo && Edge(table, last, t);
      p := q + [t];
      PathSnoc(table, q, t);
    }
  }

  lemma PathSnoc(table: Table, q: seq<Symbol>, t: Symbol)
    requires q != [] && Path(table, q) && Edge(table, q[|q| - 1], t)
    ensures Path(table, q + [t])
  {
    var p := q + [t];
    forall k | 0 <= k < |p| - 1 ensures Edge(table, p[k], p[k + 1]) {
      if k + 1 == |q| {
        assert p[k] == q[|q| - 1] && p[k + 1] == t;
      } else {
        assert p[k] == q[k] && p[k + 1] == q[k + 1];
      }
    }
  }

  lemma {:induction false} Pigeonhole(p: seq<Symbol>, s: set<Symbol>) returns (i: nat, j: nat)
    requires |p| > |s| && forall x | x in p :: x in s
    ensures i < j < |p| && p[i] == p[j]
    decreases |p|
  {
    var n := |p| - 1;
    if i' :| 0 <= i' < n && p[i'] == p[n] {
      i, j := i', n;
    } else {
      assert p[n] in s;
      forall x | x in p[..n] ensures x in s - {p[n]} {
        assert x in p;
      }
      i, j := Pigeonhole(p[..n], s - {p[n]});
    }
  }

  lemma RepeatIsCycle(table: Table, p: seq<Symbol>, i: nat, j: nat)
    requires Path(table, p) && i < j < |p| && p[i] == p[j]
    ensures Cycle(table, p[i..j])
  {
    assert Edge(table, p[j - 1], p[j]);
  }

  /** Some symbol depends on none of the others. */
  lemma Sink(table: Table, todo: set<Symbol>) returns (s: Symbol)
    requires todo != {} && forall c :: !Cycle(table, c)
    ensures s in todo && !HasNext(table, todo, s)
  {
    if AllHaveNext(table, todo) {
      var p := LongPath(table, todo, |todo| + 1);
      var i, j := Pigeonhole(p, todo);
      RepeatIsCycle(table, p, i, j);
      assert false;
    }
    s :| s in todo && !HasNext(table, todo, s);
  }

  /** The symbols in an order in which they can be finished. */
  lemma {:induction false} FinishingOrder(table: Table, todo: set<Symbol>) returns (order: seq<Symbol>)
    requires forall c :: !Cycle(table, c)
    ensures forall s :: s in order <==> s in todo
    ensures forall k, t | 0 <= k < |order| && Edge(table, order[k], t) && t in todo :: t in order[..k]
    decreases todo
  {
    order := [];
    if todo != {} {
      var s := Sink(table, todo);
      var rest := FinishingOrder(table, todo - {s});
      order := [s] + rest;
      forall k, t | 0 <= k < |order| && Edge(table, order[k], t) && t in todo ensures t in order[..k] {
        if k > 0 {
          assert order[k] == rest[k - 1] && order[..k] == [s] + rest[..k - 1];
          assert Edge(table, rest[k - 1], t) && (t == s || t in todo - {s});
          assert t == s || t in rest[..k - 1];
          assert [s][0] == s;
        } else {
          assert HasNext(table, todo, s);
        }
      }
    }
  }

  // ----- What the reports name -----

  ghost function Named(reports: seq<seq<Symbol>>): set<Symbol> {
    set c, s | c in reports && s in c :: s
  }

  lemma NamedJoin(reports: seq<seq<Symbol>>, c: seq<Symbol>)
    ensures Named(reports + [c]) == Named(reports) + (set s | s in c)
  {
  }

  /** No symbol is named by two reports. */
  ghost predicate NamedOnce(reports: seq<seq<Symbol>>) {
    forall i, j, s | 0 <= i < j < |reports| && s in reports[i] :: s !in reports[j]
  }

  /** Every symbol comes after all the symbols it depends on, unless it is named. */
  ghost predicate OrderedButFor(table: Table, named: set<Symbol>, order: seq<Symbol>) {
    forall k, t | 0 <= k < |order| && order[k] !in named && Edge(table, order[k], t) :: t in order[..k]
  }

  /** Then a cycle goes through a named symbol. */
  lemma CycleIsNamed(table: Table, named: set<Symbol>, order: seq<Symbol>, c: seq<Symbol>)
    requires OrderedButFor(table, named, order) && forall s, t | Edge(table, s, t) :: s in order
    requires Cycle(table, c)
    ensures exists s | s in c :: s in named
  {
    if forall s | s in c :: s !in named {
      assert Edge(table, c[0], if |c| > 1 then c[1] else c[0]);
      UnnamedDescends(table, named, order, c, |c| - 1);
    }
  }

  /** An order that contains every symbol with a dependency rules out cycles. */
  lemma OrderedIsAcyclic(table: Table, order: seq<Symbol>, c: seq<Symbol>)
    requires Ordered(table, order) && forall s, t | Edge(table, s, t) :: s in order
    ensures !Cycle(table, c)
  {
    if Cycle(table, c) {
      CycleIsNamed(table, {}, order, c);
    }
  }

  lemma {:induction false} UnnamedDescends(table: Table, named: set<Symbol>, order: seq<Symbol>, p: seq<Symbol>, k: nat)
    requires OrderedButFor(table, named, order) && Path(table, p) && k < |p| && p[0] in order
    requires forall s | s in p :: s !in named
    ensures p[k] in order && IndexOf(order, p[k]) <= IndexOf(order, p[0])
  {
    if k > 0 {
      UnnamedDescends(table, named, order, p, k - 1);
      var i := IndexOf(order, p[k - 1]);
      assert p[k - 1] in p && Edge(table, p[k - 1], p[k]);
      assert p[k] in order[..i];
      assert IndexOf(order, p[k]) < i by {
        assert p[k] !in order[..IndexOf(order, p[k])];
      }
    }
  }

  lemma OrderedButForSnoc(table: Table, named: set<Symbol>, order: seq<Symbol>, s: Symbol)
    requires OrderedButFor(table, named, order)
    requires s in named || forall t | Edge(table, s, t) :: t in order
    ensures OrderedButFor(table, named, order + [s])
  {
    var longer := order + [s];
    forall k, t | 0 <= k < |longer| && longer[k] !in named && Edge(table, longer[k], t)
      ensures t in longer[..k]
    {
      assert longer[..k] == order[..k];
    }
  }

  /** The symbol at the top of the stack, if there is one, depends on s. */
  predicate Follows(table: Table, stack: seq<Symbol>, s: Symbol) {
    s in table && (stack != [] ==> Edge(table, stack[|stack| - 1], s))
  }

  /** The reports have named exactly the symbols of the stack from v up; none of them if
      there is no v. */
  ghost predicate Blamed(stack: seq<Symbol>, named: set<Symbol>, v: Option<Symbol>) {
    match v
    case None => forall j | 0 <= j < |stack| :: stack[j] !in named
    case Some(s) =>
      exists k | 0 <= k < |stack| :: stack[k] == s && forall j | 0 <= j < |stack| :: stack[j] in named <==> j >= k
  }

  /** One more report, of the symbols of the stack from position k up. */
  lemma ReportAdded(stack: seq<Symbol>, reports: seq<seq<Symbol>>, k: nat)
    requires k < |stack| && AllDifferent(stack) && NamedOnce(reports) && Blamed(stack, Named(reports), None)
    ensures var more := reports + [stack[k..]];
      && NamedOnce(more) && Named(more) == Named(reports) + (set s | s in stack[k..])
      && Blamed(stack, Named(more), Some(stack[k]))
  {
    var more := reports + [stack[k..]];
    NamedJoin(reports, stack[k..]);
    forall i, j, s | 0 <= i < j < |more| && s in more[i] ensures s !in more[j] {
      assert s in Named(reports);
    }
    forall j | 0 <= j < |stack| ensures stack[j] in Named(more) <==> j >= k {
      if j >= k {
        assert stack[k..][j - k] == stack[j];
      }
    }
  }

  /** The symbol at position k is met again. */
  lemma StackCycle(table: Table, stack: seq<Symbol>, k: nat)
    requires Path(table, stack) && AllDifferent(stack) && k < |stack| && Follows(table, stack, stack[k])
    ensures SimpleCycle(table, stack[k..])
  {
  }

  /** One symbol less on the stack. */
  lemma BlamedBelow(stack: seq<Symbol>, named: set<Symbol>, r: Option<Symbol>)
    requires stack != [] && AllDifferent(stack) && Blamed(stack, named, r)
    ensures var top := stack[|stack| - 1];
      && Blamed(stack[..|stack| - 1], named, if r == Some(top) then None else r)
      && (r.Some? ==> top in named)
      && top !in stack[..|stack| - 1]
  {
    var top, rest := stack[|stack| - 1], stack[..|stack| - 1];
    if r.Some? {
      var k :| 0 <= k < |stack| && stack[k] == r.value && forall j | 0 <= j < |stack| :: stack[j] in named <==> j >= k;
      if r.value != top {
        assert rest[k] == r.value;
      }
    }
  }

  lemma Popped(table: Table, stack: seq<Symbol>, check: set<Symbol>, checked: set<Symbol>, order: seq<Symbol>)
    requires stack != [] && Path(table, stack) && AllDifferent(stack) && check <= checked
    requires forall s :: s in check <==> s in stack
    requires forall s :: s in order <==> s in checked && s !in check
    ensures var top, rest := stack[|stack| - 1], stack[..|stack| - 1];
      && Path(table, rest) && AllDifferent(rest)
      && (forall s :: s in check - {top} <==> s in rest)
      && (forall s :: s in order + [top] <==> s in checked && s !in check - {top})
  {
    var top, rest := stack[|stack| - 1], stack[..|stack| - 1];
    assert stack == rest + [top];
  }

  // ----- The search -----

  class SymbolTable {
    const table: Table
    // The symbols whose flag SYMBOL_CHECK or SYMBOL_CHECKED is set.
    var check: set<Symbol>
    var checked: set<Symbol>
    // The dependency stack that ends at check_top.
    var stack: seq<Symbol>
    // The symbols named by each report of a recursive dependency.
    var reports: seq<seq<Symbol>>
    // The symbols taken from the stack again, in that order.
    ghost var order: seq<Symbol>

    constructor (table: Table)
      requires Closed(table)
      ensures this.table == table && Valid()
      ensures stack == [] && check == {} && checked == {} && reports == []
    {
      this.table := table;
      check, checked, stack, reports, order := {}, {}, [], [], [];
    }

    ghost predicate Valid()
      reads this
    {
      && Closed(table)
      && Path(table, stack) && AllDifferent(stack)
      && (forall s :: s in check <==> s in stack)
      && check <= checked <= table.Keys
      && (forall c | c in reports :: SimpleCycle(table, c))
      && NamedOnce(reports) && Named(reports) <= checked
      && OrderedButFor(table, Named(reports), order)
      && (forall s :: s in order <==> s in checked && s !in check)
    }

    /** What a call leaves as it was, and what only grows. */
    twostate predicate Progress()
      reads this
    {
      && stack == old(stack) && check == old(check)
      && old(checked) <= checked && old(reports) <= reports && old(order) <= order
    }

    /** What a call says about the stack with the symbol it returns. */
    ghost predicate Says(r: Option<Symbol>)
      reads this
    {
      Blamed(stack, Named(reports), r)
    }

    /** sym_check_print_recursive: the report names the symbols from lastSym up. */
    method PrintRecursive(lastSym: Symbol)
      requires Valid() && Says(None) && lastSym in check && Follows(table, stack, lastSym)
      modifies this`reports
      ensures Valid() && Progress() && Says(Some(lastSym)) && |reports| == |old(reports)| + 1
      ensures exists k | 0 <= k < |stack| :: stack[k] == lastSym && reports[|reports| - 1] == stack[k..]
    {
      var k := |stack| - 1;
      while k >= 0 && stack[k] != lastSym
        invariant -1 <= k < |stack| && lastSym in stack[..k + 1]
      {
        k := k - 1;
      }
      ReportAdded(stack, reports, k);
      StackCycle(table, stack, k);
      reports := reports + [stack[k..]];
    }

    /** Sets both flags and calls dep_stack_insert. */
    method Enter(sym: Symbol)
      requires Valid() && Says(None) && Follows(table, stack, sym) && sym !in checked
      modifies this`check, this`checked, this`stack
      ensures Valid() && Says(None) && stack == old(stack) + [sym] && check == old(check) + {sym}
      ensures checked == old(checked) + {sym}
    {
      check, checked := check + {sym}, checked + {sym};
      stack := stack + [sym];
    }
  
    /** Calls dep_stack_remove and clears the flag SYMBOL_CHECK. */
    method Leave(sym: Symbol, ghost r: Option<Symbol>)
      requires Valid() && Says(r) && stack != [] && stack[|stack| - 1] == sym
      requires r.None? ==> forall t | Edge(table, sym, t) :: t in order
      modifies this`stack, this`check, this`order
      ensures Valid() && Says(if r == Some(sym) then None else r)
      ensures stack == old(stack)[..|old(stack)| - 1] && check == old(check) - {sym} && order == old(order) + [sym]
    {
      hide OrderedButFor, Path, AllDifferent, Blamed, NamedOnce, Edge;
      BlamedBelow(stack, Named(reports), r);
      Popped(table, stack, check, checked, order);
      OrderedButForSnoc(table, Named(reports), order, sym);
      stack := stack[..|stack| - 1];
      check := check - {sym};
      order := order + [sym];
    }

    /** sym_check_deps */
    method CheckDeps(sym: Symbol) returns (r: Option<Symbol>)
      requires Valid() && Says(None) && Follows(table, stack, sym)
      modifies this
      ensures Valid() && Progress() && Says(r)
      ensures r.None? ==> sym in order
      decreases table.Keys - checked, 1
    {
      if sym in check {
        PrintRecursive(sym);
        return Some(sym);
      }
      if sym in checked {
        return None;
      }
      r := CheckUnchecked(sym);
    }

    /** The last part of sym_check_deps. */
    method CheckUnchecked(sym: Symbol) returns (r: Option<Symbol>)
      requires Valid() && Says(None) && Follows(table, stack, sym) && sym !in checked
      modifies this
      ensures Valid() && Progress() && Says(r) && sym in order
      decreases table.Keys - checked, 0
    {
      Enter(sym);
      r := CheckSymDeps(sym);
      Leave(sym, r);
      if r == Some(sym) {
        r := None;
      }
    }

    /** sym_check_expr_deps: stops at the first symbol found to be recursive. */
    method CheckExprDeps(e: Expr) returns (r: Option<Symbol>)
      requires Valid() && Says(None) && forall t | t in Symbols(e) :: Follows(table, stack, t)
      modifies this
      ensures Valid() && Progress() && Says(r)
      ensures r.None? ==> forall t | t in Symbols(e) :: t in order
      decreases table.Keys - checked, 2, e
    {
      match e
      case Sym(s) =>
        r := CheckDeps(s);
      case Neg(a) =>
        r := CheckExprDeps(a);
      case Bin(_, left, right) =>
        assert Symbols(e) == Symbols(left) + Symbols(right);
        r := CheckExprDeps(left);
        if r.None? {
          r := CheckExprDeps(right);
        }
      case _ =>
        assert Symbols(e) == [e.lhs, e.rhs];
        r := CheckDeps(e.lhs);
        if r.None? {
          r := CheckDeps(e.rhs);
        }
    }

    /** sym_check_expr_deps, called with an expression that may be missing. */
    method CheckOptDeps(e: Option<Expr>) returns (r: Option<Symbol>)
      requires Valid() && Says(None) && forall t | Mentions(e, t) :: Follows(table, stack, t)
      modifies this
      ensures Valid() && Progress() && Says(r)
      ensures r.None? ==> forall t | Mentions(e, t) :: t in order
      decreases table.Keys - checked, 3
    {
      r := None;
      if e.Some? {
        assert forall t | t in Symbols(e.value) :: Mentions(e, t);
        r := CheckExprDeps(e.value);
      }
    }

    /** One turn of the loop of sym_check_sym_deps. */
    method CheckProperty(p: Property) returns (r: Option<Symbol>)
      requires Valid() && Says(None) && forall t | Uses(p, t) :: Follows(table, stack, t)
      modifies this
      ensures Valid() && Progress() && Says(r)
      ensures r.None? ==> forall t | Uses(p, t) :: t in order
      decreases table.Keys - checked, 4
    {
      r := None;
      if !p.typ.ChoiceValue? && !p.typ.Select? {
        assert forall t | Mentions(p.visible, t) :: Uses(p, t);
        r := CheckOptDeps(p.visible);
        if r.None? && p.typ.Default? {
          assert forall t | Mentions(p.expr, t) :: Uses(p, t);
          r := CheckOptDeps(p.expr);
        }
      }
    }

    /** sym_check_sym_deps; the symbol has been put on the stack. */
    method CheckSymDeps(sym: Symbol) returns (r: Option<Symbol>)
      requires Valid() && Says(None) && stack != [] && stack[|stack| - 1] == sym && sym in table
      modifies this
      ensures Valid() && Progress() && Says(r)
      ensures r.None? ==> forall t | Edge(table, sym, t) :: t in order
      decreases table.Keys - checked, 5
    {
      forall t | Edge(table, sym, t)
        ensures Follows(table, stack, t)
      {}
      assert forall t | Mentions(table[sym].revDep, t) :: Edge(table, sym, t);
      r := CheckOptDeps(table[sym].revDep);
      var props := table[sym].props;
      var i := 0;
      while i < |props| && r.None?
        invariant i <= |props| && Valid() && Progress() && Says(r)
        invariant r.None? ==> forall t | Mentions(table[sym].revDep, t) :: t in order
        invariant r.None? ==> forall j, t | 0 <= j < i && Uses(props[j], t) :: t in order
      {
        assert forall t | Uses(props[i], t) :: Edge(table, sym, t);
        r := CheckProperty(props[i]);
        i := i + 1;
      }
    }

    /** The sweep of conf_parse over all symbols that have dependencies, which counts
        the calls that return a symbol.  A cycle is always closed below the call that
        started the search, so none does.  Every report is a cycle, and every cycle goes
        through a symbol that is named by some report; but no symbol is named twice. */
    method Sweep(symbols: seq<Symbol>) returns (errors: int)
      requires Valid() && stack == [] && check == {} && checked == {} && reports == []
      requires forall s | s in symbols :: s in table
      requires forall s, t | Edge(table, s, t) :: s in symbols
      modifies this
      ensures Valid() && stack == [] && check == {}
      ensures errors == 0
      ensures Swept(table, reports)
      ensures reports == [] ==> Ordered(table, order) && forall s | s in symbols :: s in order
    {
      errors := 0;
      for i := 0 to |symbols|
        invariant Valid() && stack == [] && check == {} && errors == 0
        invariant forall s | s in symbols[..i] :: s in order
      {
        var r := CheckDeps(symbols[i]);
        if r.Some? {
          errors := errors + 1;
        }
      }
      forall c | Cycle(table, c)
        ensures exists s | s in c :: s in Named(reports)
      {
        CycleIsNamed(table, Named(reports), order, c);
      }
    }
  }

  /** What the reports of a sweep say about the cycles. */
  ghost predicate Swept(table: Table, reports: seq<seq<Symbol>>) {
    && (forall c | c in reports :: SimpleCycle(table, c))
    && NamedOnce(reports)
    && (forall c | Cycle(table, c) :: exists s | s in c :: s in Named(reports))
  }

  /** Something is reported exactly if there is a cycle. */
  lemma ReportsIffCycle(table: Table, reports: seq<seq<Symbol>>)
    requires Swept(table, reports)
    ensures reports != [] <==> exists c :: Cycle(table, c)
  {
    if reports != [] {
      assert SimpleCycle(table, reports[0]);
    }
    if c :| Cycle(table, c) {
      var s :| s in c && s in Named(reports);
    }
  }

  /** The dependencies a cycle consists of, wherever it starts. */
  ghost function Links(c: seq<Symbol>): set<(Symbol, Symbol)> {
    set i | 0 <= i < |c| :: LinkAt(c, i)
  }

  function LinkAt(c: seq<Symbol>, i: nat): (Symbol, Symbol)
    requires i < |c|
  {
    (c[i], if i + 1 < |c| then c[i + 1] else c[0])
  }

  lemma LinkedSymbols(c: seq<Symbol>, r: seq<Symbol>, s: Symbol)
    requires Links(c) == Links(r) && s in c
    ensures s in r
  {
    var i :| 0 <= i < |c| && c[i] == s;
    assert LinkAt(c, i) in Links(c);
    var j :| 0 <= j < |r| && LinkAt(r, j) == LinkAt(c, i);
  }

  ghost predicate IsReported(reports: seq<seq<Symbol>>, c: seq<Symbol>) {
    exists r | r in reports :: Links(r) == Links(c)
  }

  ghost predicate AllReported(table: Table, reports: seq<seq<Symbol>>) {
    forall c | SimpleCycle(table, c) :: IsReported(reports, c)
  }

  /** Two cycles with a symbol in common are one and the same. */
  ghost predicate CyclesAreApart(table: Table) {
    forall c, r, s | SimpleCycle(table, c) && SimpleCycle(table, r) && s in c && s in r :: Links(c) == Links(r)
  }

  lemma SameReport(reports: seq<seq<Symbol>>, r: seq<Symbol>, r': seq<Symbol>, s: Symbol)
    requires NamedOnce(reports) && r in reports && r' in reports && s in r && s in r'
    ensures r == r'
  {
    var i :| 0 <= i < |reports| && reports[i] == r;
    var j :| 0 <= j < |reports| && reports[j] == r';
    if i != j {
      assert false;
    }
  }

  /** Every cycle is reported exactly if no two different ones share a symbol. */
  lemma AllReportedIffApart(table: Table, reports: seq<seq<Symbol>>)
    requires Swept(table, reports)
    ensures AllReported(table, reports) <==> CyclesAreApart(table)
  {
    hide SimpleCycle, Links, NamedOnce;
    if CyclesAreApart(table) {
      forall c | SimpleCycle(table, c) ensures IsReported(reports, c) {
        NamedIsReported(table, reports, c);
      }
    }
    if AllReported(table, reports) {
      forall c, c', s | SimpleCycle(table, c) && SimpleCycle(table, c') && s in c && s in c'
        ensures Links(c) == Links(c')
      {
        ReportedIsOne(reports, c, c', s);
      }
    }
  }

  /** A cycle with a symbol that is named is the report that names it. */
  lemma NamedIsReported(table: Table, reports: seq<seq<Symbol>>, c: seq<Symbol>)
    requires Swept(table, reports) && CyclesAreApart(table) && SimpleCycle(table, c)
    ensures IsReported(reports, c)
  {
    var s :| s in c && s in Named(reports);
    var r :| r in reports && s in r;
    assert SimpleCycle(table, r);
  }

  lemma ReportedIsOne(reports: seq<seq<Symbol>>, c: seq<Symbol>, c': seq<Symbol>, s: Symbol)
    requires NamedOnce(reports) && IsReported(reports, c) && IsReported(reports, c') && s in c && s in c'
    ensures Links(c) == Links(c')
  {
    var r :| r in reports && Links(r) == Links(c);
    var r' :| r' in reports && Links(r') == Links(c');
    LinkedSymbols(c, r, s);
    LinkedSymbols(c', r', s);
    SameReport(reports, r, r', s);
  }

  /** A symbol that depends on two others which depend on it. */
  function TwoCycles(a: Symbol, b: Symbol, c: Symbol): Table {
    map[a := SymbolInfo(Some(Bin(OpOr, Sym(b), Sym(c))), []),
        b := SymbolInfo(Some(Sym(a)), []),
        c := SymbolInfo(Some(Sym(a)), [])]
  }

  lemma TwoCyclesEdges(a: Symbol, b: Symbol, c: Symbol)
    requires a != b && b != c && c != a
    ensures forall s, t :: Edge(TwoCycles(a, b, c), s, t) <==> (s == a && (t == b || t == c)) || ((s == b || s == c) && t == a)
  {
    assert forall t :: t in Symbols(Bin(OpOr, Sym(b), Sym(c))) <==> t == b || t == c;
    assert forall t :: t in Symbols(Sym(a)) <==> t == a;
  }

  lemma CyclesMeet(a: Symbol, b: Symbol, c: Symbol, r: seq<Symbol>)
    requires a != b && b != c && c != a && Cycle(TwoCycles(a, b, c), r)
    ensures a in r
  {
    TwoCyclesEdges(a, b, c);
    assert Edge(TwoCycles(a, b, c), r[|r| - 1], r[0]);
    assert r[0] == a || r[|r| - 1] == a;
  }

  lemma NotNamedAgain(reports: seq<seq<Symbol>>, s: Symbol)
    requires NamedOnce(reports)
    ensures |reports| > 1 && s in reports[0] ==> s !in reports[1]
  {
  }

  /** Only one of its two cycles is reported: once a symbol has been named, the rest of
      its dependencies is never looked at. */
  lemma NotEveryCycleIsReported(a: Symbol, b: Symbol, c: Symbol, reports: seq<seq<Symbol>>)
    requires a != b && b != c && c != a && Swept(TwoCycles(a, b, c), reports)
    ensures Cycle(TwoCycles(a, b, c), [a, b]) && Cycle(TwoCycles(a, b, c), [a, c])
    ensures |reports| == 1
    ensures !([a, b] in reports && [a, c] in reports)
  {
    var table := TwoCycles(a, b, c);
    NotNamedAgain(reports, a);
    TwoCyclesEdges(a, b, c);
    assert Cycle(table, [a, b]);
    ReportsIffCycle(table, reports);
    forall i | 0 <= i < |reports| ensures a in reports[i] {
      assert reports[i] in reports;
      CyclesMeet(a, b, c, reports[i]);
    }
    assert [a, b] != [a, c] by {
      assert [a, b][1] != [a, c][1];
    }
  }
}
