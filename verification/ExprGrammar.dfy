// The grammar of expressions, rules 108 to 116 of scripts/kconfig/zconf.tab.c with their
// precedences, as a set of concrete syntax trees: the parser accepts exactly their texts.
module ExprGrammar {
  import opened Options
  import opened Expressions
  import opened ExprSyntax

  /** How an expression is written: a symbol, a comparison, a negation, parentheses, or two
      expressions joined by an operator. */
  datatype Syntax =
    | Name(name: string)
    | Comparison(left: string, equal: bool, right: string)
    | Negation(arg: Syntax)
    | Parentheses(inner: Syntax)
    | Chain(op: Op, first: Syntax, second: Syntax)

  /** The operators bind in the order !, &&, ||, and the last two associate to the left. */
  predicate WellFormed(t: Syntax) {
    match t
    case Negation(a) => WellFormed(a) && !a.Chain?
    case Parentheses(i) => WellFormed(i)
    case Chain(op, l, r) => WellFormed(l) && WellFormed(r) && Joins(op, l) && Binds(op, r)
    case _ => true
  }

  /** t can be the first operand of op, and the second one. */
  predicate Joins(op: Op, t: Syntax) {
    op.OpOr? || !t.Chain? || t.op.OpAnd?
  }

  predicate Binds(op: Op, t: Syntax) {
    !t.Chain? || (op.OpOr? && t.op.OpAnd?)
  }

  /** The text of t, followed by k. */
  function Text(t: Syntax, k: seq<Token>): seq<Token> {
    match t
    case Name(n) => [Word(n)] + k
    case Comparison(l, equal, r) => [Word(l), if equal then Eq else Neq, Word(r)] + k
    case Negation(a) => [Bang] + Text(a, k)
    case Parentheses(i) => [Open] + Text(i, [Close] + k)
    case Chain(op, l, r) => Text(l, [TokenOf(op)] + Text(r, k))
  }

  /** The expression that t stands for. */
  function Meaning(types: map<string, SymbolType>, t: Syntax): Expr {
    match t
    case Name(n) => Sym(Lookup(types, n))
    case Comparison(l, equal, r) =>
      if equal then Equal(Lookup(types, l), Lookup(types, r)) else Unequal(Lookup(types, l), Lookup(types, r))
    case Negation(a) => Neg(Meaning(types, a))
    case Parentheses(i) => Meaning(types, i)
    case Chain(op, l, r) => Bin(op, Meaning(types, l), Meaning(types, r))
  }

  // ----- Every such text is read -----

  lemma {:induction false} PrimaryIsRead(types: map<string, SymbolType>, t: Syntax, k: seq<Token>)
    requires WellFormed(t) && !t.Chain? && Stops(OpAnd, k)
    ensures ParsePrimary(types, Text(t, k)) == Parsed(Meaning(types, t), k)
    decreases t, 0
  {
    match t
    case Negation(a) => PrimaryIsRead(types, a, k);
    case Parentheses(i) =>
      ChainIsRead(types, OpOr, i, [Close] + k);
      assert ParseMore(types, OpOr, Meaning(types, i), [Close] + k) == Parsed(Meaning(types, i), [Close] + k);
    case _ =>
  }

  lemma {:induction false} OperandIsRead(types: map<string, SymbolType>, op: Op, t: Syntax, k: seq<Token>)
    requires WellFormed(t) && Binds(op, t) && Stops(op, k)
    ensures ParseOperand(types, op, Text(t, k)) == Parsed(Meaning(types, t), k)
    decreases t, if op.OpOr? then 3 else 1
  {
    if op.OpOr? {
      ChainIsRead(types, OpAnd, t, k);
      assert ParseMore(types, OpAnd, Meaning(types, t), k) == Parsed(Meaning(types, t), k);
    } else {
      PrimaryIsRead(types, t, k);
    }
  }

  lemma {:induction false} ChainIsRead(types: map<string, SymbolType>, op: Op, t: Syntax, k: seq<Token>)
    requires WellFormed(t) && Joins(op, t) && Stops(op, k)
    ensures ParseLevel(types, op, Text(t, k)) == ParseMore(types, op, Meaning(types, t), k)
    decreases t, if op.OpOr? then 4 else 2
  {
    if t.Chain? && t.op == op {
      var ts := [TokenOf(op)] + Text(t.second, k);
      ChainIsRead(types, op, t.first, ts);
      OperandIsRead(types, op, t.second, k);
      assert ts[1..] == Text(t.second, k);
    } else {
      OperandIsRead(types, op, t, k);
    }
  }

  // ----- Nothing else is read -----

  lemma {:induction false} PrimaryIsWritten(types: map<string, SymbolType>, ts: seq<Token>) returns (t: Syntax)
    requires ParsePrimary(types, ts).Parsed?
    ensures var r := ParsePrimary(types, ts);
      WellFormed(t) && !t.Chain? && Text(t, r.rest) == ts && Meaning(types, t) == r.expr
    decreases |ts|, 0
  {
    var r := ParsePrimary(types, ts);
    match ts[0]
    case Bang =>
      t := PrimaryIsWritten(types, ts[1..]);
      t := Negation(t);
    case Open =>
      t := ChainIsWritten(types, OpOr, ts[1..]);
      t := Parentheses(t);
      var inner := ParseLevel(types, OpOr, ts[1..]);
      assert inner.rest == [Close] + r.rest;
    case Word(name) =>
      if |ts| > 1 && (ts[1].Eq? || ts[1].Neq?) {
        t := Comparison(name, ts[1].Eq?, ts[2].name);
        assert ts == [ts[0], ts[1], ts[2]] + ts[3..];
      } else {
        t := Name(name);
      }
  }

  lemma {:induction false} OperandIsWritten(types: map<string, SymbolType>, op: Op, ts: seq<Token>) returns (t: Syntax)
    requires ParseOperand(types, op, ts).Parsed?
    ensures var r := ParseOperand(types, op, ts);
      WellFormed(t) && Binds(op, t) && Text(t, r.rest) == ts && Meaning(types, t) == r.expr
    decreases |ts|, if op.OpOr? then 3 else 1
  {
    if op.OpOr? {
      t := ChainIsWritten(types, OpAnd, ts);
    } else {
      t := PrimaryIsWritten(types, ts);
    }
  }

  lemma {:induction false} ChainIsWritten(types: map<string, SymbolType>, op: Op, ts: seq<Token>) returns (t: Syntax)
    requires ParseLevel(types, op, ts).Parsed?
    ensures var r := ParseLevel(types, op, ts);
      WellFormed(t) && Joins(op, t) && Text(t, r.rest) == ts && Meaning(types, t) == r.expr
    decreases |ts|, if op.OpOr? then 4 else 2
  {
    t := OperandIsWritten(types, op, ts);
    t := MoreIsWritten(types, op, t, ParseOperand(types, op, ts).rest);
  }

  lemma {:induction false} MoreIsWritten(types: map<string, SymbolType>, op: Op, first: Syntax, ts: seq<Token>)
    returns (t: Syntax)
    requires WellFormed(first) && Joins(op, first) && ParseMore(types, op, Meaning(types, first), ts).Parsed?
    ensures var r := ParseMore(types, op, Meaning(types, first), ts);
      WellFormed(t) && Joins(op, t) && Text(t, r.rest) == Text(first, ts) && Meaning(types, t) == r.expr
    decreases |ts|, 0
  {
    hide Text, ParseOperand, WellFormed, Binds, Joins, Meaning;
    t := first;
    if ts != [] && ts[0] == TokenOf(op) {
      var r := ParseOperand(types, op, ts[1..]);
      var second := OperandIsWritten(types, op, ts[1..]);
      OneMore(types, op, first, second, ts, r.rest);
      t := MoreIsWritten(types, op, Chain(op, first, second), r.rest);
    }
  }

  lemma OneMore(types: map<string, SymbolType>, op: Op, first: Syntax, second: Syntax, ts: seq<Token>, k: seq<Token>)
    requires ts != [] && ts[0] == TokenOf(op) && Text(second, k) == ts[1..]
    requires ParseOperand(types, op, ts[1..]) == Parsed(Meaning(types, second), k)
    requires WellFormed(first) && WellFormed(second) && Joins(op, first) && Binds(op, second)
    ensures var t := Chain(op, first, second);
      && WellFormed(t) && Joins(op, t) && Text(t, k) == Text(first, ts)
      && ParseMore(types, op, Meaning(types, first), ts) == ParseMore(types, op, Meaning(types, t), k)
  {
    hide ParseOperand;
    assert ts == [TokenOf(op)] + ts[1..];
  }

  /** The parser accepts exactly the texts of well-formed expressions, and gives what they
      stand for. */
  lemma ParsesTheGrammar(types: map<string, SymbolType>, ts: seq<Token>, e: Expr)
    ensures Parse(types, ts) == Some(e) <==> exists t :: WellFormed(t) && Text(t, []) == ts && Meaning(types, t) == e
  {
    forall t | WellFormed(t) && Text(t, []) == ts ensures Parse(types, ts) == Some(Meaning(types, t)) {
      ChainIsRead(types, OpOr, t, []);
    }
    if Parse(types, ts) == Some(e) {
      var t := ChainIsWritten(types, OpOr, ts);
    }
  }
}
