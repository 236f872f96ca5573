// expr_eliminate_dups2 and expr_eliminate_dups of scripts/kconfig/expr.c on the nodes
// of an expression.
module ExprContradictionNodes {

  import opened Options
  import opened Expressions
  import opened ExprEquality
  import opened ExprTransform
  import opened ExprPaths
  import opened ExprDuplicates
  import opened ExprNodes
  import opened ExprTransformNodes
  import opened ExprEqualityNodes
  import opened ExprExtractNodes
  import opened ExprPlaces
  import opened ExprJoinNodes
  import opened ExprDuplicatesNodes

  /** The pass has done to the value what Dups2 does, and has counted its changes. */
  ghost predicate Did2(op: Op, t: Tree, p: Path, q: Path, r: Tree, count: int)
  {
    Slot(op, Value(t), p) && Slot(op, Value(t), q) &&
    var d := Dups2(op, Value(t), p, q); Value(r) == d.expr && count == d.count
  }

  /** expr_eliminate_dups2. */
  method Dups2Nodes(c: Passes, op: Op, w: Node, s1: Place, s2: Place, ghost t: Tree, ghost p: Path, ghost q: Path,
                    ghost all: set<Node>)
    returns (ghost r: Tree, ghost made: set<Node>)
    requires Places(op, w, s1, s2, t, p, q, all)
    modifies c, NodesOf(t)
    ensures Becomes(op, w, t, r, made) && fresh(made)
    ensures Did2(op, t, p, q, r, c.transCount - old(c.transCount))
    decreases Size(Value(t)), 1 + Nodes(op, Value(GetTree(op, t, p))) + Nodes(op, Value(GetTree(op, t, q))), 1
  {
    PlacesLoad(op, w, s1, s2, t, p, q, all);
    var e1, e2 := Load(w, s1), Load(w, s2);
    if e1.kind == KindOf(op) {
      r, made := FirstJunction2(c, op, w, e1, s2, t, p, q, all);
    } else if e2.kind == KindOf(op) {
      r, made := SecondJunction2(c, op, w, s1, s2, e2, t, p, q, all);
    } else {
      PlacesDiffer(op, t, p, q);
      if e1 == e2 {
        r, made := t, {};
        SpineStays(op, t);
      } else {
        OperandValues(op, w, s1, s2, t, p, q, all);
        r, made := Contradict(c, op, w, s1, s2, t, p, q, all);
      }
    }
  }

  /** The first place holds a junction of op: both its operands in turn. */
  method FirstJunction2(c: Passes, op: Op, w: Node, e1: Node, s2: Place, ghost t: Tree, ghost p: Path, ghost q: Path,
                        ghost all: set<Node>)
    returns (ghost r: Tree, ghost made: set<Node>)
    requires Leads(op, t, p) && Places(op, w, PlaceOf(op, t, p), s2, t, p, q, all)
    requires IsJunction(op, GetTree(op, t, p)) && e1 == GetTree(op, t, p).node
    modifies c, NodesOf(t)
    ensures Becomes(op, w, t, r, made) && fresh(made)
    ensures Did2(op, t, p, q, r, c.transCount - old(c.transCount))
    decreases Size(Value(t)), 1 + Nodes(op, Value(GetTree(op, t, p))) + Nodes(op, Value(GetTree(op, t, q))), 0
  {
    hide Holds, Unshared, NodesOf;
    ghost var l, m := Extend(p, false), Extend(p, true);
    PlacesLoad(op, w, PlaceOf(op, t, p), s2, t, p, q, all);
    ExtendPlace(op, t, p, false);
    ExtendPlace(op, t, p, true);
    ghost var more, v;
    v, made := Dups2Nodes(c, op, w, Field(e1, false), s2, t, l, q, all);
    PlacesStay(op, w, Field(e1, true), s2, t, v, m, q, all, made);
    FirstDescends(op, t, p, q, v);
    ghost var first := c.transCount - old(c.transCount);
    r, more := Dups2Nodes(c, op, w, Field(e1, true), s2, v, m, q, all + made);
    FirstDid2(op, t, p, q, v, r, first, c.transCount - old(c.transCount) - first);
    BecomesTwice(op, w, t, v, r, made, more);
    made := made + more;
  }

  lemma FirstDid2(op: Op, t: Tree, p: Path, q: Path, v: Tree, r: Tree, n: int, m: int)
    requires Slot(op, Value(t), p) && Slot(op, Value(t), q) && Is(op, Get(op, Value(t), p))
    requires Did2(op, t, Extend(p, false), q, v, n) && Did2(op, v, Extend(p, true), q, r, m)
    ensures Did2(op, t, p, q, r, n + m)
  {
  }

  /** The second place holds a junction of op: its operands, and then all of it. */
  method SecondJunction2(c: Passes, op: Op, w: Node, s1: Place, s2: Place, e2: Node, ghost t: Tree,
                         ghost p: Path, ghost q: Path, ghost all: set<Node>)
    returns (ghost r: Tree, ghost made: set<Node>)
    requires Places(op, w, s1, s2, t, p, q, all) && !IsJunction(op, GetTree(op, t, p))
    requires IsJunction(op, GetTree(op, t, q)) && e2 == GetTree(op, t, q).node
    modifies c, NodesOf(t)
    ensures Becomes(op, w, t, r, made) && fresh(made)
    ensures Did2(op, t, p, q, r, c.transCount - old(c.transCount))
    decreases Size(Value(t)), 1 + Nodes(op, Value(GetTree(op, t, p))) + Nodes(op, Value(GetTree(op, t, q))), 0
  {
    hide Holds, Unshared, NodesOf;
    PlacesLoad(op, w, s1, s2, t, p, q, all);
    ghost var v, more;
    v, made := BothOperands(c, op, w, s1, s2, e2, t, p, q, all);
    PlacesStay(op, w, s1, s2, t, v, p, q, all, made);
    SpinePlaces(op, t, v, p);
    ghost var first := c.transCount - old(c.transCount);
    r, more := Contradict(c, op, w, s1, s2, v, p, q, all + made);
    SecondDid2(op, t, p, q, v, r, first, c.transCount - old(c.transCount) - first);
    BecomesTwice(op, w, t, v, r, made, more);
    made := made + more;
  }

  /** What has been done once the operands of the junction at q have been visited. */
  ghost predicate DidOperands(op: Op, t: Tree, p: Path, q: Path, v: Tree, count: int) {
    && Slot(op, Value(t), p) && Slot(op, Value(t), Extend(q, false))
    && var x := Dups2(op, Value(t), p, Extend(q, false));
    && Slot(op, x.expr, p) && Slot(op, x.expr, Extend(q, true))
    && var y := Dups2(op, x.expr, p, Extend(q, true));
    && Value(v) == y.expr && count == x.count + y.count
  }

  /** What the switch at the end has done. */
  ghost predicate DidAt(op: Op, v: Tree, p: Path, q: Path, r: Tree, count: int) {
    && Slot(op, Value(v), p) && Slot(op, Value(v), q) && p.Down? && !Is(op, Get(op, Value(v), p))
    && var d := Dups2At(op, Value(v), p, q); Value(r) == d.expr && count == d.count
  }

  lemma SecondDid2(op: Op, t: Tree, p: Path, q: Path, v: Tree, r: Tree, n: int, m: int)
    requires Slot(op, Value(t), p) && Slot(op, Value(t), q)
    requires !Is(op, Get(op, Value(t), p)) && Is(op, Get(op, Value(t), q))
    requires DidOperands(op, t, p, q, v, n) && DidAt(op, v, p, q, r, m)
    ensures Did2(op, t, p, q, r, n + m)
  {
  }

  method BothOperands(c: Passes, op: Op, w: Node, s1: Place, s2: Place, e2: Node, ghost t: Tree,
                      ghost p: Path, ghost q: Path, ghost all: set<Node>)
    returns (ghost r: Tree, ghost made: set<Node>)
    requires Places(op, w, s1, s2, t, p, q, all) && !IsJunction(op, GetTree(op, t, p))
    requires IsJunction(op, GetTree(op, t, q)) && e2 == GetTree(op, t, q).node
    modifies c, NodesOf(t)
    ensures Becomes(op, w, t, r, made) && fresh(made)
    ensures DidOperands(op, t, p, q, r, c.transCount - old(c.transCount)) && Size(Value(r)) <= Size(Value(t)) && p.Down?
    decreases Size(Value(t)), Nodes(op, Value(GetTree(op, t, p))) + Nodes(op, Value(GetTree(op, t, q))), 2
  {
    hide Holds, Unshared, NodesOf;
    ghost var l, m := Extend(q, false), Extend(q, true);
    PlacesLoad(op, w, s1, s2, t, p, q, all);
    ExtendPlace(op, t, q, false);
    ExtendPlace(op, t, q, true);
    ghost var more, v;
    v, made := Dups2Nodes(c, op, w, s1, Field(e2, false), t, p, l, all);
    PlacesStay(op, w, s1, Field(e2, true), t, v, p, m, all, made);
    SecondDescends(op, t, p, q, v);
    r, more := Dups2Nodes(c, op, w, s1, Field(e2, true), v, p, m, all + made);
    BecomesTwice(op, w, t, v, r, made, more);
    made := made + more;
  }

  /** The switch at the end: the first operand is cleaned up, and gives way to a constant
      if its negation is a factor of the tree at the second place. */
  method Contradict(c: Passes, op: Op, w: Node, s1: Place, s2: Place, ghost t: Tree, ghost p: Path, ghost q: Path,
                    ghost all: set<Node>)
    returns (ghost r: Tree, ghost made: set<Node>)
    requires Places(op, w, s1, s2, t, p, q, all) && !IsJunction(op, GetTree(op, t, p)) && p.Down?
    modifies c, NodesOf(t)
    ensures Becomes(op, w, t, r, made) && fresh(made)
    ensures DidAt(op, t, p, q, r, c.transCount - old(c.transCount))
    decreases Size(Value(t)), 0, 2
  {
    PlacesHold(op, w, s1, s2, t, p, q, all);
    JunctionKind(GetTree(op, t, p));
    SpineStays(op, t);
    r, made := t, {};
    var e1 := Load(w, s1);
    if e1.kind == EOr || e1.kind == EAnd {
      r, made := ContradictJunction(c, op, w, s1, s2, e1, t, p, q, all);
    }
  }

  method ContradictJunction(c: Passes, op: Op, w: Node, s1: Place, s2: Place, e1: Node, ghost t: Tree, ghost p: Path,
                            ghost q: Path, ghost all: set<Node>)
    returns (ghost r: Tree, ghost made: set<Node>)
    requires Places(op, w, s1, s2, t, p, q, all) && !IsJunction(op, GetTree(op, t, p)) && p.Down?
    requires e1 == GetTree(op, t, p).node && (e1.kind == EOr || e1.kind == EAnd)
    modifies c, NodesOf(t)
    ensures Becomes(op, w, t, r, made) && fresh(made)
    ensures DidAt(op, t, p, q, r, c.transCount - old(c.transCount))
    decreases Size(Value(t)), 0, 1
  {
    hide Holds, Unshared, NodesOf, Value;
    PlacesLoad(op, w, s1, s2, t, p, q, all);
    ghost var v, more;
    v, made := InnerNodes2(c, op, w, e1, t, p, all);
    PlacesStay(op, w, s1, s2, t, v, p, q, all, made);
    SpinePlaces(op, t, v, p);
    ghost var first := c.transCount - old(c.transCount);
    r, more := ReplaceContradicted(c, op, w, s1, s2, v, p, q, all + made);
    AtDid(op, t, p, q, v, r, first, c.transCount - old(c.transCount) - first);
    BecomesTwice(op, w, t, v, r, made, more);
    made := made + more;
  }

  lemma JunctionKind(t: Tree)
    requires Holds(t)
    ensures Value(t).Bin? <==> t.node.kind == EOr || t.node.kind == EAnd
  {
  }

  /** The operand at p has been cleaned up. */
  ghost predicate DidInner(op: Op, t: Tree, p: Path, v: Tree, count: int) {
    && Slot(op, Value(t), p)
    && var e := Get(op, Value(t), p);
    && e.Bin?
    && var x := Dups2(e.op, e, Here, Here);
    && Value(v) == Set(op, Value(t), p, x.expr) && count == x.count
  }

  /** The operand at p has given way to the constant if it is contradicted. */
  ghost predicate DidReplace(op: Op, v: Tree, p: Path, q: Path, r: Tree, count: int) {
    && Slot(op, Value(v), p) && Slot(op, Value(v), q)
    && if Contradicts(op, Value(v), p, q) then Value(r) == Set(op, Value(v), p, Zero(op)) && count == 1
       else Value(r) == Value(v) && count == 0
  }

  lemma AtDid(op: Op, t: Tree, p: Path, q: Path, v: Tree, r: Tree, n: int, m: int)
    requires Slot(op, Value(t), p) && Slot(op, Value(t), q) && p.Down? && !Is(op, Get(op, Value(t), p))
    requires DidInner(op, t, p, v, n) && DidReplace(op, v, p, q, r, m)
    ensures DidAt(op, t, p, q, r, n + m)
  {
  }

  method InnerNodes2(c: Passes, op: Op, w: Node, e1: Node, ghost t: Tree, ghost p: Path, ghost all: set<Node>)
    returns (ghost r: Tree, ghost made: set<Node>)
    requires StoredAt(t, w, all) && Leads(op, t, p) && p.Down? && !IsJunction(op, GetTree(op, t, p))
    requires e1 == GetTree(op, t, p).node && (e1.kind == EOr || e1.kind == EAnd)
    modifies c, NodesOf(t)
    ensures Becomes(op, w, t, r, made) && fresh(made)
    ensures DidInner(op, t, p, r, c.transCount - old(c.transCount))
    decreases Size(Value(t)), 0, 0
  {
    ghost var x := GetTree(op, t, p);
    TreeNodes(op, t, p, x);
    TreeValue(op, t, p);
    LoadIs(op, w, t, p);
    SetGet(op, Value(t), p, Value(x));
    ghost var h := Snapshot(all);
    SnapshotHolds(all, t);
    ghost var y;
    if e1.kind == EOr {
      y, made := Dups2Nodes(c, OpOr, e1, Top, Top, x, Here, Here, all);
    } else {
      y, made := Dups2Nodes(c, OpAnd, e1, Top, Top, x, Here, Here, all);
    }
    r := PutBack(op, w, t, p, y, h, all, made);
  }

  method ReplaceContradicted(c: Passes, op: Op, w: Node, s1: Place, s2: Place, ghost t: Tree, ghost p: Path,
                             ghost q: Path, ghost all: set<Node>)
    returns (ghost r: Tree, ghost made: set<Node>)
    requires Places(op, w, s1, s2, t, p, q, all) && !IsJunction(op, GetTree(op, t, p)) && p.Down?
    modifies c, NodesOf(t)
    ensures Becomes(op, w, t, r, made) && fresh(made)
    ensures DidReplace(op, t, p, q, r, c.transCount - old(c.transCount))
  {
    hide Holds, Unshared, NodesOf, Value;
    PlacesHold(op, w, s1, s2, t, p, q, all);
    SpineStays(op, t);
    r, made := t, {};
    var contradicted := ContradictsNodes(c, op, Load(w, s1), GetTree(op, t, p), Load(w, s2), GetTree(op, t, q), all);
    if contradicted {
      c.transCount := c.transCount + 1;
      r, made := StoreConstant(op, w, s1, t, p, all);
    }
  }

  method StoreConstant(op: Op, w: Node, s: Place, ghost t: Tree, ghost p: Path, ghost all: set<Node>)
    returns (ghost r: Tree, ghost made: set<Node>)
    requires StoredAt(t, w, all) && Leads(op, t, p) && p.Down? && s == PlaceOf(op, t, p)
    requires !IsJunction(op, GetTree(op, t, p)) && Slot(op, Value(t), p)
    modifies NodesOf(t)
    ensures Becomes(op, w, t, r, made) && fresh(made) && Value(r) == Set(op, Value(t), p, Zero(op))
  {
    var n;
    ghost var x;
    n, x := Alloc(Zero(op));
    made := {n};
    r := StoreAt(op, w, s, n, t, p, x, all, made);
    SetKeepsSpine(op, t, p, x);
    SetTreeValue(op, t, p, x);
  }

  lemma PlacesHold(op: Op, w: Node, s1: Place, s2: Place, t: Tree, p: Path, q: Path, all: set<Node>)
    requires Places(op, w, s1, s2, t, p, q, all)
    ensures var x, y := GetTree(op, t, p), GetTree(op, t, q);
      && Load(w, s1) == x.node && Load(w, s2) == y.node && StoredAt(x, x.node, all) && StoredAt(y, y.node, all)
      && Slot(op, Value(t), p) && Slot(op, Value(t), q)
      && Value(x) == Get(op, Value(t), p) && Value(y) == Get(op, Value(t), q)
  {
    TreeValue(op, t, p);
    TreeValue(op, t, q);
    TreeNodes(op, t, p, t);
    TreeNodes(op, t, q, t);
    LoadIs(op, w, t, p);
    LoadIs(op, w, t, q);
  }

  /** The test on copies: nothing but the unit is left of the negated first expression
      when common factors are moved out. */
  method ContradictsNodes(c: Passes, op: Op, e1: Node, ghost t1: Tree, e2: Node, ghost t2: Tree, ghost all: set<Node>)
    returns (yes: bool)
    requires StoredAt(t1, e1, all) && StoredAt(t2, e2, all)
    modifies c
    ensures c.transCount == old(c.transCount)
    ensures yes <==> Extract(op, Transform(Neg(Value(t1))), Value(t2)).1 == Unit(op)
  {
    var tmp1, tmp2, common;
    ghost var x, y, made, more;
    tmp1, x, made := NegatedCopy(e1, t1, all);
    tmp2, y, more := Copy(e2, t2, all);
    ghost var factor, u, v, last;
    common, tmp1, tmp2, factor, u, v, last := ExtractCommon(c, op, tmp1, x, tmp2, y, made + more);
    ConstantNode(u);
    yes := tmp1.kind == ESymbol && tmp1.leftSym == if op.OpOr? then SYM_NO else SYM_YES;
  }

  /** expr_transform(expr_alloc_one(E_NOT, expr_copy(e))) */
  method NegatedCopy(e: Node, ghost t: Tree, ghost all: set<Node>) returns (n: Node, ghost r: Tree, ghost made: set<Node>)
    requires StoredAt(t, e, all)
    ensures StoredAt(r, n, made) && fresh(made) && Value(r) == Transform(Neg(Value(t)))
  {
    var copy;
    ghost var x, more;
    copy, x, made := Copy(e, t, all);
    n := new Node(ENot, SYM_NO, SYM_NO, copy, null);
    made := made + {n};
    n, r, more := TransformNodes(n, One(n, x), made);
    made := made + more;
  }

  // ----- The loop -----

  /** expr_eliminate_dups: the passes over the whole expression, and then
      expr_eliminate_yn, until trans_count stays zero; then it is put back. */
  method EliminateDuplicates(c: Passes, e: Node, ghost t: Tree, ghost all: set<Node>)
    returns (ghost r: Tree, ghost made: set<Node>)
    requires StoredAt(t, e, all)
    modifies c, NodesOf(t)
    ensures StoredAt(r, e, NodesOf(t) + made) && fresh(made)
    ensures Value(r) == EliminateDups(Value(t)) && c.transCount == old(c.transCount)
  {
    var oldcount := c.transCount;
    r, made := t, {};
    var again := true;
    while again
      invariant StoredAt(r, e, NodesOf(t) + made) && fresh(made)
      invariant EliminateDups(Value(r)) == EliminateDups(Value(t))
      invariant !again ==> EliminateDups(Value(r)) == Value(r)
      decreases Size(Value(r)), again
    {
      ghost var more;
      again, r, more := OneRound(c, e, r, all + made);
      made := made + more;
    }
    c.transCount := oldcount;
  }

  /** One turn of the loop, which is the last one if trans_count stays zero. */
  method OneRound(c: Passes, e: Node, ghost t: Tree, ghost all: set<Node>)
    returns (again: bool, ghost r: Tree, ghost made: set<Node>)
    requires StoredAt(t, e, all)
    modifies c, NodesOf(t)
    ensures StoredAt(r, e, NodesOf(t) + made) && fresh(made)
    ensures EliminateDups(Value(r)) == EliminateDups(Value(t))
    ensures if again then Size(Value(r)) < Size(Value(t)) else Value(r) == Value(t) == EliminateDups(Value(t))
  {
    c.transCount := 0;
    r, made := RoundNodes(c, e, t, all);
    again := c.transCount != 0;
    if again {
      RoundShrinks(Value(t));
      r := EliminateConstants(e, r, all + made);
    }
  }

  method RoundNodes(c: Passes, e: Node, ghost t: Tree, ghost all: set<Node>)
    returns (ghost r: Tree, ghost made: set<Node>)
    requires StoredAt(t, e, all) && c.transCount == 0
    modifies c, NodesOf(t)
    ensures StoredAt(r, e, NodesOf(t) + made) && fresh(made)
    ensures if Value(t).Bin? then Rewrite(Value(r), c.transCount) == Round(Value(t))
            else r == t && c.transCount == 0
  {
    r, made := t, {};
    if e.kind == EOr {
      r, made := BothPasses(c, OpOr, e, t, all);
    } else if e.kind == EAnd {
      r, made := BothPasses(c, OpAnd, e, t, all);
    }
  }

  method BothPasses(c: Passes, op: Op, e: Node, ghost t: Tree, ghost all: set<Node>)
    returns (ghost r: Tree, ghost made: set<Node>)
    requires StoredAt(t, e, all) && IsJunction(op, t) && c.transCount == 0
    modifies c, NodesOf(t)
    ensures StoredAt(r, e, NodesOf(t) + made) && fresh(made)
    ensures Rewrite(Value(r), c.transCount) == Round(Value(t))
  {
    ghost var v, more;
    v, made := Dups1Nodes(c, op, e, Top, Top, t, Here, Here, all);
    r, more := Dups2Nodes(c, op, e, Top, Top, v, Here, Here, all + made);
    made := made + more;
  }
}
