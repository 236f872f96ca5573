// Printing expressions, expr_print of scripts/kconfig/expr.c, and the grammar that
// reads them back, rules 108 to 116 of scripts/kconfig/zconf.tab.c.
module ExprSyntax {
  import opened Options
  import opened Expressions

  datatype Token = Word(name: string) | Eq | Neq | Bang | AndAnd | OrOr | Open | Close

  /** The members of enum expr_type that occur here, E_NONE included. */
  datatype Kind = KNone | KOr | KAnd | KNot | KEqual | KUnequal | KSymbol

  function KindOf(e: Expr): Kind {
    match e
    case Sym(_) => KSymbol
    case Equal(_, _) => KEqual
    case Unequal(_, _) => KUnequal
    case Neg(_) => KNot
    case Bin(op, _, _) => KindOfOp(op)
  }

  function KindOfOp(op: Op): Kind {
    if op.OpOr? then KOr else KAnd
  }

  /** expr_compare_type; each case falls through to the next one. */
  function CompareType(t1: Kind, t2: Kind): int {
    if t1 == t2 then 0
    else if (t1.KEqual? || t1.KUnequal?) && t2.KNot? then 1
    else if (t1.KEqual? || t1.KUnequal? || t1.KNot?) && t2.KAnd? then 1
    else if (t1.KEqual? || t1.KUnequal? || t1.KNot? || t1.KAnd?) && t2.KOr? then 1
    else if (t1.KEqual? || t1.KUnequal? || t1.KNot? || t1.KAnd? || t1.KOr?) && t2.KNone? then 1
    else -1
  }

  function TokenOf(op: Op): Token {
    if op.OpOr? then OrOr else AndAnd
  }

  function Name(s: Symbol): string {
    if s.Choice? then "<choice>" else s.name
  }

  /** expr_print with the enclosing operator prev; k is what is printed afterwards. */
  function Print(e: Expr, prev: Kind, k: seq<Token>): seq<Token>
    decreases e, 1
  {
    if CompareType(prev, KindOf(e)) > 0 then [Open] + Body(e, [Close] + k) else Body(e, k)
  }

  function Body(e: Expr, k: seq<Token>): seq<Token>
    decreases e, 0
  {
    match e
    case Sym(s) => [Word(Name(s))] + k
    case Equal(l, r) => [Word(Name(l)), Eq, Word(Name(r))] + k
    case Unequal(l, r) => [Word(Name(l)), Neq, Word(Name(r))] + k
    case Neg(a) => [Bang] + Print(a, KNot, k)
    case Bin(op, l, r) => Print(l, KindOfOp(op), [TokenOf(op)] + Print(r, KindOfOp(op), k))
  }

  /** A missing expression is printed as y. */
  function PrintOpt(e: Option<Expr>): seq<Token> {
    if e.None? then [Word("y")] else Print(e.value, KNone, [])
  }

  // ----- Parentheses -----

  /** The junctions that need parentheses: those in a negation, and disjunctions in a
      conjunction. */
  function Enclosed(e: Expr): nat {
    match e
    case Neg(a) => Enclosed(a) + if a.Bin? then 1 else 0
    case Bin(op, l, r) =>
      Enclosed(l) + Enclosed(r)
      + (if op.OpAnd? && Is(OpOr, l) then 1 else 0) + (if op.OpAnd? && Is(OpOr, r) then 1 else 0)
    case _ => 0
  }

  /** Words, operators and negations. */
  function Marks(e: Expr): nat {
    match e
    case Sym(_) => 1
    case Neg(a) => 1 + Marks(a)
    case Bin(_, l, r) => 1 + Marks(l) + Marks(r)
    case _ => 3
  }

  lemma {:induction false} BodyLength(e: Expr, k: seq<Token>)
    ensures |Body(e, k)| == Marks(e) + 2 * Enclosed(e) + |k|
    decreases e, 0
  {
    match e
    case Neg(a) =>
      BodyLength(a, k);
      BodyLength(a, [Close] + k);
    case Bin(op, l, r) =>
      OperandLength(op, r, k);
      OperandLength(op, l, [TokenOf(op)] + Print(r, KindOfOp(op), k));
    case _ =>
  }

  lemma {:induction false} OperandLength(op: Op, e: Expr, k: seq<Token>)
    ensures |Print(e, KindOfOp(op), k)| == Marks(e) + 2 * Enclosed(e) + |k| + if op.OpAnd? && Is(OpOr, e) then 2 else 0
    decreases e, 1
  {
    BodyLength(e, k);
    BodyLength(e, [Close] + k);
  }

  /** No other parentheses are printed. */
  lemma ParenthesesAreNeeded(e: Expr)
    ensures |PrintOpt(Some(e))| == Marks(e) + 2 * Enclosed(e)
  {
    BodyLength(e, []);
  }

  // ----- The grammar -----

  /** sym_lookup(name, 0), with the types of the symbols known so far. */
  function Lookup(types: map<string, SymbolType>, name: string): Symbol {
    if name == "y" || name == "m" || name == "n" then Const(name)
    else Config(name, if name in types then types[name] else Unknown)
  }

  datatype Parsed = Error | Parsed(expr: Expr, rest: seq<Token>)

  /** A symbol, a comparison, a negation or an expression in parentheses. */
  function ParsePrimary(types: map<string, SymbolType>, ts: seq<Token>): (r: Parsed)
    ensures r.Parsed? ==> |r.rest| < |ts|
    decreases |ts|, 0
  {
    if ts == [] then Error
    else match ts[0]
      case Bang =>
        var r := ParsePrimary(types, ts[1..]);
        if r.Error? then Error else Parsed(Neg(r.expr), r.rest)
      case Open =>
        var r := ParseLevel(types, OpOr, ts[1..]);
        if r.Error? || r.rest == [] || r.rest[0] != Close then Error else Parsed(r.expr, r.rest[1..])
      case Word(name) =>
        var s := Lookup(types, name);
        if |ts| > 1 && (ts[1].Eq? || ts[1].Neq?) then
          if |ts| > 2 && ts[2].Word? then
            var t := Lookup(types, ts[2].name);
            Parsed(if ts[1].Eq? then Equal(s, t) else Unequal(s, t), ts[3..])
          else Error
        else Parsed(Sym(s), ts[1..])
      case _ => Error
  }

  function ParseOperand(types: map<string, SymbolType>, op: Op, ts: seq<Token>): (r: Parsed)
    ensures r.Parsed? ==> |r.rest| < |ts|
    decreases |ts|, if op.OpOr? then 3 else 1
  {
    if op.OpOr? then ParseLevel(types, OpAnd, ts) else ParsePrimary(types, ts)
  }

  /** Operands joined by op, to the left. */
  function ParseLevel(types: map<string, SymbolType>, op: Op, ts: seq<Token>): (r: Parsed)
    ensures r.Parsed? ==> |r.rest| < |ts|
    decreases |ts|, if op.OpOr? then 4 else 2
  {
    var r := ParseOperand(types, op, ts);
    if r.Error? then Error else ParseMore(types, op, r.expr, r.rest)
  }

  function ParseMore(types: map<string, SymbolType>, op: Op, left: Expr, ts: seq<Token>): (r: Parsed)
    ensures r.Parsed? ==> |r.rest| <= |ts|
    decreases |ts|, 0
  {
    if ts == [] || ts[0] != TokenOf(op) then Parsed(left, ts)
    else
      var r := ParseOperand(types, op, ts[1..]);
      if r.Error? then Error else ParseMore(types, op, Bin(op, left, r.expr), r.rest)
  }

  /** A complete expression. */
  function Parse(types: map<string, SymbolType>, ts: seq<Token>): Option<Expr> {
    var r := ParseLevel(types, OpOr, ts);
    if r.Parsed? && r.rest == [] then Some(r.expr) else None
  }

  // ----- Left association -----

  /** The tree in which every chain of one connective leans to the left. */
  function LeftAssociated(e: Expr): Expr
    decreases e, 0
  {
    match e
    case Neg(a) => Neg(LeftAssociated(a))
    case Bin(op, l, r) => Graft(op, LeftAssociated(l), r)
    case _ => e
  }

  /** Appends the operands of e to the chain left. */
  function Graft(op: Op, left: Expr, e: Expr): Expr
    decreases e, 1
  {
    if Is(op, e) then Graft(op, Graft(op, left, e.left), e.right) else Bin(op, left, LeftAssociated(e))
  }

  predicate LeansLeft(e: Expr) {
    match e
    case Neg(a) => LeansLeft(a)
    case Bin(op, l, r) => !Is(op, r) && LeansLeft(l) && LeansLeft(r)
    case _ => true
  }

  lemma {:induction false} LeansLeftIsFixed(e: Expr)
    requires LeansLeft(e)
    ensures LeftAssociated(e) == e
  {
    match e
    case Neg(a) => LeansLeftIsFixed(a);
    case Bin(_, l, r) =>
      LeansLeftIsFixed(l);
      LeansLeftIsFixed(r);
    case _ =>
  }

  lemma {:induction false} LeftAssociatedExact(e: Expr, env: Env)
    ensures Eval(LeftAssociated(e), env) == Eval(e, env)
    decreases e, 0
  {
    match e
    case Neg(a) => LeftAssociatedExact(a, env);
    case Bin(op, l, r) =>
      LeftAssociatedExact(l, env);
      GraftExact(op, LeftAssociated(l), r, env);
    case _ =>
  }

  lemma {:induction false} GraftExact(op: Op, left: Expr, e: Expr, env: Env)
    ensures Eval(Graft(op, left, e), env) == Apply(op, Eval(left, env), Eval(e, env))
    decreases e, 1
  {
    if Is(op, e) {
      GraftExact(op, left, e.left, env);
      GraftExact(op, Graft(op, left, e.left), e.right, env);
    } else {
      LeftAssociatedExact(e, env);
    }
  }

  // ----- Reading back what was printed -----

  function Reread(types: map<string, SymbolType>, s: Symbol): Symbol {
    Lookup(types, Name(s))
  }

  /** Every symbol replaced by the one found under its printed name. */
  function RereadAll(types: map<string, SymbolType>, e: Expr): Expr {
    match e
    case Sym(s) => Sym(Reread(types, s))
    case Equal(l, r) => Equal(Reread(types, l), Reread(types, r))
    case Unequal(l, r) => Unequal(Reread(types, l), Reread(types, r))
    case Neg(a) => Neg(RereadAll(types, a))
    case Bin(op, l, r) => Bin(op, RereadAll(types, l), RereadAll(types, r))
  }

  /** Every symbol is the one found under its printed name. */
  predicate Readable(types: map<string, SymbolType>, e: Expr) {
    match e
    case Sym(s) => Reread(types, s) == s
    case Neg(a) => Readable(types, a)
    case Bin(_, l, r) => Readable(types, l) && Readable(types, r)
    case _ => Reread(types, e.lhs) == e.lhs && Reread(types, e.rhs) == e.rhs
  }

  /** What may follow an operand of op. */
  predicate Stops(op: Op, k: seq<Token>) {
    k == [] || k[0].Close? || k[0].OrOr? || (op.OpAnd? && k[0].AndAnd?)
  }

  /** The printer reaches e in another operator: an order for the mutual induction. */
  function Rank(op: Op, e: Expr): nat {
    if Is(op, e) then 0 else if op.OpOr? then 3 else 6
  }

  lemma {:induction false} ReadPrimary(types: map<string, SymbolType>, e: Expr, prev: Kind, k: seq<Token>)
    requires Stops(OpAnd, k)
    requires prev.KOr? || prev.KAnd? || prev.KNot?
    requires !e.Bin? || CompareType(prev, KindOf(e)) > 0
    ensures ParsePrimary(types, Print(e, prev, k)) == Parsed(LeftAssociated(RereadAll(types, e)), k)
    decreases e, if e.Bin? then 4 else 1
  {
    match e
    case Neg(a) =>
      ReadPrimary(types, a, KNot, k);
    case Bin(_, _, _) =>
      ReadFirst(types, OpOr, e, [Close] + k);
      assert Print(e, KOr, [Close] + k) == Body(e, [Close] + k);
    case _ => ReadAtom(types, e, k);
  }

  lemma ReadAtom(types: map<string, SymbolType>, e: Expr, k: seq<Token>)
    requires e.Sym? || e.Equal? || e.Unequal?
    requires Stops(OpAnd, k)
    ensures ParsePrimary(types, Body(e, k)) == Parsed(RereadAll(types, e), k)
  {}

  lemma {:induction false} ReadOperand(types: map<string, SymbolType>, op: Op, e: Expr, k: seq<Token>)
    requires Stops(op, k) && !Is(op, e)
    ensures ParseOperand(types, op, Print(e, KindOfOp(op), k)) == Parsed(LeftAssociated(RereadAll(types, e)), k)
    decreases e, if op.OpOr? then 2 else 5
  {
    if op.OpAnd? {
      ReadPrimary(types, e, KAnd, k);
    } else {
      assert Print(e, KOr, k) == Body(e, k);
      if e.Bin? {
        ReadFirst(types, OpAnd, e, k);
      } else {
        ReadPrimary(types, e, KOr, k);
        var x := LeftAssociated(RereadAll(types, e));
        assert ParseLevel(types, OpAnd, Print(e, KOr, k)) == ParseMore(types, OpAnd, x, k) == Parsed(x, k);
      }
    }
  }

  /** Reading the start of a printed chain amounts to having read its
      left-associated form, with the symbols looked up. */
  lemma {:induction false} ReadFirst(types: map<string, SymbolType>, op: Op, e: Expr, k: seq<Token>)
    requires Stops(op, k)
    ensures ParseLevel(types, op, Print(e, KindOfOp(op), k)) ==
      ParseMore(types, op, LeftAssociated(RereadAll(types, e)), k)
    decreases e, Rank(op, e)
  {
    if Is(op, e) {
      ReadFirst(types, op, e.left, [TokenOf(op)] + Print(e.right, KindOfOp(op), k));
      ReadMore(types, op, LeftAssociated(RereadAll(types, e.left)), e.right, k);
    } else {
      ReadOperand(types, op, e, k);
    }
  }

  lemma {:induction false} ReadMore(types: map<string, SymbolType>, op: Op, left: Expr, e: Expr, k: seq<Token>)
    requires Stops(op, k)
    ensures ParseMore(types, op, left, [TokenOf(op)] + Print(e, KindOfOp(op), k))
         == ParseMore(types, op, Graft(op, left, RereadAll(types, e)), k)
    decreases e, Rank(op, e)
  {
    var ts := [TokenOf(op)] + Print(e, KindOfOp(op), k);
    assert ts[1..] == Print(e, KindOfOp(op), k);
    if Is(op, e) {
      ReadMore(types, op, left, e.left, [TokenOf(op)] + Print(e.right, KindOfOp(op), k));
      ReadMore(types, op, Graft(op, left, RereadAll(types, e.left)), e.right, k);
    } else {
      ReadOperand(types, op, e, k);
    }
  }

  /** Reading back a printed expression gives its left-associated form over the
      symbols found under the printed names; that is the form of e itself exactly
      when e is readable. */
  lemma PrintedIsRead(types: map<string, SymbolType>, e: Expr)
    ensures Parse(types, PrintOpt(Some(e))) == Some(LeftAssociated(RereadAll(types, e)))
    ensures Parse(types, PrintOpt(Some(e))) == Some(LeftAssociated(e)) <==> Readable(types, e)
  {
    assert Print(e, KNone, []) == Print(e, KOr, []);
    ReadFirst(types, OpOr, e, []);
    LeftAssociatedReread(types, e);
    RereadAllFixed(types, e);
    RereadAllFixed(types, LeftAssociated(e));
  }

  lemma {:induction false} RereadAllFixed(types: map<string, SymbolType>, e: Expr)
    ensures RereadAll(types, e) == e <==> Readable(types, e)
  {
    match e
    case Neg(a) => RereadAllFixed(types, a);
    case Bin(_, l, r) =>
      RereadAllFixed(types, l);
      RereadAllFixed(types, r);
    case _ =>
  }

  lemma {:induction false} LeftAssociatedReread(types: map<string, SymbolType>, e: Expr)
    ensures LeftAssociated(RereadAll(types, e)) == RereadAll(types, LeftAssociated(e))
    ensures Readable(types, LeftAssociated(e)) <==> Readable(types, e)
    decreases e, 0
  {
    match e
    case Neg(a) => LeftAssociatedReread(types, a);
    case Bin(op, l, r) =>
      LeftAssociatedReread(types, l);
      GraftReread(types, op, LeftAssociated(l), r);
    case _ =>
  }

  lemma {:induction false} GraftReread(types: map<string, SymbolType>, op: Op, left: Expr, e: Expr)
    ensures Graft(op, RereadAll(types, left), RereadAll(types, e)) == RereadAll(types, Graft(op, left, e))
    ensures Readable(types, Graft(op, left, e)) <==> Readable(types, left) && Readable(types, e)
    decreases e, 1
  {
    if Is(op, e) {
      GraftReread(types, op, left, e.left);
      GraftReread(types, op, Graft(op, left, e.left), e.right);
    } else {
      LeftAssociatedReread(types, e);
    }
  }

  /** A readable expression comes back with the same value everywhere, unchanged if
      and only if it leans to the left, and is printed the same way again. */
  lemma PrintedReadsTheSame(types: map<string, SymbolType>, e: Expr, env: Env)
    requires Readable(types, e)
    ensures var r := Parse(types, PrintOpt(Some(e)));
      && r.Some?
      && Eval(r.value, env) == Eval(e, env)
      && (r.value == e <==> LeansLeft(e))
      && PrintOpt(r) == PrintOpt(Some(e))
  {
    PrintedIsRead(types, e);
    LeftAssociatedExact(e, env);
    LeftAssociatedLeans(e);
    if LeansLeft(e) {
      LeansLeftIsFixed(e);
    }
    BodyOfLeftAssociated(e, []);
    assert KindOf(LeftAssociated(e)) == KindOf(e);
  }

  lemma {:induction false} LeftAssociatedLeans(e: Expr)
    ensures LeansLeft(LeftAssociated(e))
    ensures KindOf(LeftAssociated(e)) == KindOf(e)
    decreases e, 0
  {
    match e
    case Neg(a) => LeftAssociatedLeans(a);
    case Bin(op, l, r) =>
      LeftAssociatedLeans(l);
      GraftLeans(op, LeftAssociated(l), r);
    case _ =>
  }

  lemma {:induction false} GraftLeans(op: Op, left: Expr, e: Expr)
    requires LeansLeft(left)
    ensures LeansLeft(Graft(op, left, e)) && Is(op, Graft(op, left, e))
    decreases e, 1
  {
    if Is(op, e) {
      GraftLeans(op, left, e.left);
      GraftLeans(op, Graft(op, left, e.left), e.right);
    } else {
      LeftAssociatedLeans(e);
    }
  }

  lemma {:induction false} BodyOfLeftAssociated(e: Expr, k: seq<Token>)
    ensures Body(LeftAssociated(e), k) == Body(e, k)
    decreases e, 0
  {
    match e
    case Neg(a) => PrintOfLeftAssociated(a, KNot, k);
    case Bin(op, l, r) =>
      var k' := [TokenOf(op)] + Print(r, KindOfOp(op), k);
      PrintOfLeftAssociated(l, KindOfOp(op), k');
      BodyOfGraft(op, LeftAssociated(l), r, k);
    case _ =>
  }

  lemma {:induction false} PrintOfLeftAssociated(e: Expr, prev: Kind, k: seq<Token>)
    ensures Print(LeftAssociated(e), prev, k) == Print(e, prev, k)
    decreases e, 1
  {
    LeftAssociatedLeans(e);
    BodyOfLeftAssociated(e, k);
    BodyOfLeftAssociated(e, [Close] + k);
  }

  lemma {:induction false} BodyOfGraft(op: Op, left: Expr, e: Expr, k: seq<Token>)
    ensures Body(Graft(op, left, e), k)
         == Print(left, KindOfOp(op), [TokenOf(op)] + Print(e, KindOfOp(op), k))
    decreases e, 2
  {
    if Is(op, e) {
      var k' := [TokenOf(op)] + Print(e.right, KindOfOp(op), k);
      BodyOfGraft(op, Graft(op, left, e.left), e.right, k);
      BodyOfGraft(op, left, e.left, k');
      assert Print(e, KindOfOp(op), k) == Print(e.left, KindOfOp(op), k');
      GraftIs(op, left, e.left);
    } else {
      PrintOfLeftAssociated(e, KindOfOp(op), k);
    }
  }

  lemma {:induction false} GraftIs(op: Op, left: Expr, e: Expr)
    ensures Is(op, Graft(op, left, e))
    decreases e
  {
    if Is(op, e) {
      GraftIs(op, Graft(op, left, e.left), e.right);
    }
  }

  /** A missing expression counts as yes and is read back as the constant y. */
  lemma MissingIsRead(types: map<string, SymbolType>)
    ensures Parse(types, PrintOpt(None)) == Some(Sym(SYM_YES))
  {
  }

  /** The printer drops the quotes of a constant: only y, m and n are found again. */
  lemma ConstantIsReadable(types: map<string, SymbolType>, s: Symbol)
    requires s.Const?
    ensures Readable(types, Sym(s)) <==> s == SYM_YES || s == SYM_MOD || s == SYM_NO
  {}
}
