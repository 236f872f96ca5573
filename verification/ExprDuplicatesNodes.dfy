// expr_eliminate_dups1 of scripts/kconfig/expr.c on the nodes of an expression.
module ExprDuplicatesNodes {

  import opened Options
  import opened Expressions
  import opened ExprPaths
  import opened ExprTransform
  import opened ExprDuplicates
  import opened ExprNodes
  import opened ExprEqualityNodes
  import opened ExprPlaces
  import opened ExprJoinNodes

  /** Two places in the tree below w. */
  ghost predicate Places(op: Op, w: Node, s1: Place, s2: Place, t: Tree, p: Path, q: Path, all: set<Node>)
    reads NodesOf(t)
  {
    && StoredAt(t, w, all) && Leads(op, t, p) && Leads(op, t, q)
    && s1 == PlaceOf(op, t, p) && s2 == PlaceOf(op, t, q)
  }

  /** The tree has become r, with the same junctions at its top and some new nodes. */
  ghost predicate Becomes(op: Op, w: Node, t: Tree, r: Tree, made: set<Node>)
    reads NodesOf(r)
  {
    StoredAt(r, w, NodesOf(t) + made) && SameSpine(op, t, r)
  }

  lemma PlacesLoad(op: Op, w: Node, s1: Place, s2: Place, t: Tree, p: Path, q: Path, all: set<Node>)
    requires Places(op, w, s1, s2, t, p, q, all)
    ensures Slot(op, Value(t), p) && Slot(op, Value(t), q)
    ensures var e1, e2 := GetTree(op, t, p), GetTree(op, t, q);
      && Load(w, s1) == e1.node && Load(w, s2) == e2.node
      && (e1.node.kind == KindOf(op) <==> IsJunction(op, e1)) && (e2.node.kind == KindOf(op) <==> IsJunction(op, e2))
      && (IsJunction(op, e1) <==> Is(op, Get(op, Value(t), p))) && (IsJunction(op, e2) <==> Is(op, Get(op, Value(t), q)))
  {
    LoadIs(op, w, t, p);
    LoadIs(op, w, t, q);
    TreeValue(op, t, p);
    TreeValue(op, t, q);
  }

  /** After a change elsewhere the places are still the same ones. */
  lemma PlacesStay(op: Op, w: Node, s1: Place, s2: Place, t: Tree, r: Tree, p: Path, q: Path,
                   all: set<Node>, made: set<Node>)
    requires Leads(op, t, p) && Leads(op, t, q) && s1 == PlaceOf(op, t, p) && s2 == PlaceOf(op, t, q)
    requires Becomes(op, w, t, r, made) && NodesOf(t) <= all
    ensures Places(op, w, s1, s2, r, p, q, all + made)
  {
    SpinePlaces(op, t, r, p);
    SpinePlaces(op, t, r, q);
  }

  lemma BecomesTwice(op: Op, w: Node, t: Tree, r: Tree, u: Tree, made: set<Node>, more: set<Node>)
    requires SameSpine(op, t, r) && NodesOf(r) <= NodesOf(t) + made && Becomes(op, w, r, u, more)
    ensures Becomes(op, w, t, u, made + more)
  {
    SpineJoins(op, t, r, u);
  }

  /** The pass has done to the value what Dups1 does, and has counted its changes. */
  ghost predicate Did1(op: Op, t: Tree, p: Path, q: Path, r: Tree, count: int)
  {
    Slot(op, Value(t), p) && Slot(op, Value(t), q) &&
    var d := Dups1(op, Value(t), p, q); Value(r) == d.expr && count == d.count
  }

  /** expr_eliminate_dups1. */
  method Dups1Nodes(c: Passes, op: Op, w: Node, s1: Place, s2: Place, ghost t: Tree, ghost p: Path, ghost q: Path,
                    ghost all: set<Node>)
    returns (ghost r: Tree, ghost made: set<Node>)
    requires Places(op, w, s1, s2, t, p, q, all)
    modifies c, NodesOf(t)
    ensures Becomes(op, w, t, r, made) && fresh(made)
    ensures Did1(op, t, p, q, r, c.transCount - old(c.transCount))
    decreases Size(Value(t)), 1 + Nodes(op, Value(GetTree(op, t, p))) + Nodes(op, Value(GetTree(op, t, q))), 1
  {
    PlacesLoad(op, w, s1, s2, t, p, q, all);
    var e1, e2 := Load(w, s1), Load(w, s2);
    if e1.kind == KindOf(op) {
      r, made := FirstJunction(c, op, w, e1, s2, t, p, q, all);
    } else if e2.kind == KindOf(op) {
      r, made := SecondJunction(c, op, w, s1, e2, t, p, q, all);
    } else {
      PlacesDiffer(op, t, p, q);
      if e1 == e2 {
        r, made := t, {};
        SpineStays(op, t);
      } else {
        r, made := TwoOperands(c, op, w, s1, s2, t, p, q, all);
      }
    }
  }

  /** The first place holds a junction of op: both its operands in turn. */
  method FirstJunction(c: Passes, op: Op, w: Node, e1: Node, s2: Place, ghost t: Tree, ghost p: Path, ghost q: Path,
                       ghost all: set<Node>)
    returns (ghost r: Tree, ghost made: set<Node>)
    requires Leads(op, t, p) && Places(op, w, PlaceOf(op, t, p), s2, t, p, q, all)
    requires IsJunction(op, GetTree(op, t, p)) && e1 == GetTree(op, t, p).node
    modifies c, NodesOf(t)
    ensures Becomes(op, w, t, r, made) && fresh(made)
    ensures Did1(op, t, p, q, r, c.transCount - old(c.transCount))
    decreases Size(Value(t)), 1 + Nodes(op, Value(GetTree(op, t, p))) + Nodes(op, Value(GetTree(op, t, q))), 0
  {
    hide Holds, Unshared, NodesOf;
    ghost var l, m := Extend(p, false), Extend(p, true);
    PlacesLoad(op, w, PlaceOf(op, t, p), s2, t, p, q, all);
    ExtendPlace(op, t, p, false);
    ExtendPlace(op, t, p, true);
    ghost var more, v;
    v, made := Dups1Nodes(c, op, w, Field(e1, false), s2, t, l, q, all);
    PlacesStay(op, w, Field(e1, true), s2, t, v, m, q, all, made);
    FirstDescends(op, t, p, q, v);
    ghost var first := c.transCount - old(c.transCount);
    r, more := Dups1Nodes(c, op, w, Field(e1, true), s2, v, m, q, all + made);
    FirstDid(op, t, p, q, v, r, first, c.transCount - old(c.transCount) - first);
    BecomesTwice(op, w, t, v, r, made, more);
    made := made + more;
  }

  lemma FirstDid(op: Op, t: Tree, p: Path, q: Path, v: Tree, r: Tree, n: int, m: int)
    requires Slot(op, Value(t), p) && Slot(op, Value(t), q) && Is(op, Get(op, Value(t), p))
    requires Did1(op, t, Extend(p, false), q, v, n) && Did1(op, v, Extend(p, true), q, r, m)
    ensures Did1(op, t, p, q, r, n + m)
  {
  }

  lemma SecondDid(op: Op, t: Tree, p: Path, q: Path, v: Tree, r: Tree, n: int, m: int)
    requires Slot(op, Value(t), p) && Slot(op, Value(t), q)
    requires !Is(op, Get(op, Value(t), p)) && Is(op, Get(op, Value(t), q))
    requires Did1(op, t, p, Extend(q, false), v, n) && Did1(op, v, p, Extend(q, true), r, m)
    ensures Did1(op, t, p, q, r, n + m)
  {
  }

  lemma FirstDescends(op: Op, t: Tree, p: Path, q: Path, v: Tree)
    requires Leads(op, t, p) && Leads(op, t, q) && IsJunction(op, GetTree(op, t, p)) && Leads(op, t, Extend(p, false))
    requires Leads(op, t, Extend(p, true)) && SameShape(op, Value(t), Value(v)) && SameSpine(op, t, v)
    ensures Leads(op, v, Extend(p, true)) && Leads(op, v, q)
    ensures Nodes(op, Value(GetTree(op, v, Extend(p, true)))) < Nodes(op, Value(GetTree(op, t, p)))
    ensures Nodes(op, Value(GetTree(op, v, q))) == Nodes(op, Value(GetTree(op, t, q)))
  {
    var m := Extend(p, true);
    SpinePlaces(op, t, v, m);
    SpinePlaces(op, t, v, q);
    TreeValue(op, t, p);
    TreeValue(op, t, m);
    TreeValue(op, t, q);
    TreeValue(op, v, m);
    TreeValue(op, v, q);
    ExtendSlot(op, Value(t), p, true);
    SlotShape(op, Value(t), Value(v), m);
    SlotShape(op, Value(t), Value(v), q);
  }

  /** The second place holds a junction of op. */
  method SecondJunction(c: Passes, op: Op, w: Node, s1: Place, e2: Node, ghost t: Tree, ghost p: Path, ghost q: Path,
                        ghost all: set<Node>)
    returns (ghost r: Tree, ghost made: set<Node>)
    requires Leads(op, t, q) && Places(op, w, s1, PlaceOf(op, t, q), t, p, q, all) && !IsJunction(op, GetTree(op, t, p))
    requires IsJunction(op, GetTree(op, t, q)) && e2 == GetTree(op, t, q).node
    modifies c, NodesOf(t)
    ensures Becomes(op, w, t, r, made) && fresh(made)
    ensures Did1(op, t, p, q, r, c.transCount - old(c.transCount))
    decreases Size(Value(t)), 1 + Nodes(op, Value(GetTree(op, t, p))) + Nodes(op, Value(GetTree(op, t, q))), 0
  {
    hide Holds, Unshared, NodesOf;
    ghost var l, m := Extend(q, false), Extend(q, true);
    PlacesLoad(op, w, s1, PlaceOf(op, t, q), t, p, q, all);
    ExtendPlace(op, t, q, false);
    ExtendPlace(op, t, q, true);
    ghost var more, v;
    v, made := Dups1Nodes(c, op, w, s1, Field(e2, false), t, p, l, all);
    PlacesStay(op, w, s1, Field(e2, true), t, v, p, m, all, made);
    SecondDescends(op, t, p, q, v);
    ghost var first := c.transCount - old(c.transCount);
    r, more := Dups1Nodes(c, op, w, s1, Field(e2, true), v, p, m, all + made);
    SecondDid(op, t, p, q, v, r, first, c.transCount - old(c.transCount) - first);
    BecomesTwice(op, w, t, v, r, made, more);
    made := made + more;
  }

  lemma SecondDescends(op: Op, t: Tree, p: Path, q: Path, v: Tree)
    requires Leads(op, t, p) && Leads(op, t, q) && IsJunction(op, GetTree(op, t, q)) && Leads(op, t, Extend(q, false))
    requires Leads(op, t, Extend(q, true)) && SameShape(op, Value(t), Value(v)) && SameSpine(op, t, v)
    ensures Leads(op, v, Extend(q, true)) && Leads(op, v, p)
    ensures Nodes(op, Value(GetTree(op, v, Extend(q, true)))) < Nodes(op, Value(GetTree(op, t, q)))
    ensures Nodes(op, Value(GetTree(op, v, p))) == Nodes(op, Value(GetTree(op, t, p)))
  {
    var m := Extend(q, true);
    SpinePlaces(op, t, v, m);
    SpinePlaces(op, t, v, p);
    TreeValue(op, t, q);
    TreeValue(op, t, m);
    TreeValue(op, t, p);
    TreeValue(op, v, m);
    TreeValue(op, v, p);
    ExtendSlot(op, Value(t), q, true);
    SlotShape(op, Value(t), Value(v), m);
    SlotShape(op, Value(t), Value(v), p);
  }

  /** Two places that hold different operands. */
  ghost predicate OperandPlaces(op: Op, w: Node, s1: Place, s2: Place, t: Tree, p: Path, q: Path, all: set<Node>)
    reads NodesOf(t)
  {
    && Places(op, w, s1, s2, t, p, q, all) && p != q
    && !IsJunction(op, GetTree(op, t, p)) && !IsJunction(op, GetTree(op, t, q))
  }

  lemma OperandValues(op: Op, w: Node, s1: Place, s2: Place, t: Tree, p: Path, q: Path, all: set<Node>)
    requires OperandPlaces(op, w, s1, s2, t, p, q, all)
    ensures p.Down? && q.Down? && Operands(op, Value(t), p, q)
    ensures Value(GetTree(op, t, p)) == Get(op, Value(t), p) && Value(GetTree(op, t, q)) == Get(op, Value(t), q)
    ensures Size(Get(op, Value(t), p)) < Size(Value(t))
    ensures Load(w, s1) == GetTree(op, t, p).node && Load(w, s2) == GetTree(op, t, q).node
    ensures Apart(GetTree(op, t, p), GetTree(op, t, p).node, all, GetTree(op, t, q), GetTree(op, t, q).node, all)
  {
    PlacesLoad(op, w, s1, s2, t, p, q, all);
    TreeValue(op, t, p);
    TreeValue(op, t, q);
    TreeNodes(op, t, p, t);
    TreeNodes(op, t, q, t);
    LoadIs(op, w, t, p);
    LoadIs(op, w, t, q);
    PlacesDiffer(op, t, p, q);
    SetGet(op, Value(t), p, Value(t));
  }

  method TwoOperands(c: Passes, op: Op, w: Node, s1: Place, s2: Place, ghost t: Tree, ghost p: Path, ghost q: Path,
                     ghost all: set<Node>)
    returns (ghost r: Tree, ghost made: set<Node>)
    requires OperandPlaces(op, w, s1, s2, t, p, q, all)
    modifies c, NodesOf(t)
    ensures Becomes(op, w, t, r, made) && fresh(made)
    ensures Did1(op, t, p, q, r, c.transCount - old(c.transCount))
    decreases Size(Value(t)), 0, 2
  {
    OperandValues(op, w, s1, s2, t, p, q, all);
    ghost var more, v;
    v, made := InnerNodes(c, op, w, s1, s2, t, p, q, all);
    PlacesStay(op, w, s1, s2, t, v, p, q, all, made);
    SpinePlaces(op, t, v, p);
    SpinePlaces(op, t, v, q);
    r, more := JoinAtNodes(c, op, w, s1, s2, v, p, q, all + made);
    BecomesTwice(op, w, t, v, r, made, more);
    made := made + more;
  }

  /** A first operand that is itself a junction is cleaned up first. */
  method InnerNodes(c: Passes, op: Op, w: Node, s1: Place, s2: Place, ghost t: Tree, ghost p: Path, ghost q: Path,
                    ghost all: set<Node>)
    returns (ghost r: Tree, ghost made: set<Node>)
    requires OperandPlaces(op, w, s1, s2, t, p, q, all) && Operands(op, Value(t), p, q)
    modifies c, NodesOf(t)
    ensures Becomes(op, w, t, r, made) && fresh(made)
    ensures var d := Dups1Inner(op, Value(t), p, q);
      Value(r) == d.expr && c.transCount - old(c.transCount) == d.count
    decreases Size(Value(t)), 0, 1
  {
    hide Unshared, NodesOf, Value;
    OperandValues(op, w, s1, s2, t, p, q, all);
    SameKind(OpOr, GetTree(op, t, p));
    SameKind(OpAnd, GetTree(op, t, p));
    SpineStays(op, t);
    r, made := t, {};
    var e1 := Load(w, s1);
    if e1.kind == EOr || e1.kind == EAnd {
      r, made := JunctionNodes(c, op, w, e1, t, p, all);
    }
  }

  method JunctionNodes(c: Passes, op: Op, w: Node, e1: Node, ghost t: Tree, ghost p: Path, ghost all: set<Node>)
    returns (ghost r: Tree, ghost made: set<Node>)
    requires StoredAt(t, w, all) && Leads(op, t, p) && p.Down? && !IsJunction(op, GetTree(op, t, p))
    requires e1 == GetTree(op, t, p).node && (e1.kind == EOr || e1.kind == EAnd)
    modifies c, NodesOf(t)
    ensures Becomes(op, w, t, r, made) && fresh(made)
    ensures Slot(op, Value(t), p) && Get(op, Value(t), p).Bin?
    ensures var e := Get(op, Value(t), p);
      var d := Dups1(e.op, e, Here, Here);
      Value(r) == Set(op, Value(t), p, d.expr) && c.transCount - old(c.transCount) == d.count
    decreases Size(Value(t)), 0, 0
  {
    ghost var x := GetTree(op, t, p);
    TreeNodes(op, t, p, x);
    TreeValue(op, t, p);
    LoadIs(op, w, t, p);
    SetGet(op, Value(t), p, Value(x));
    ghost var h := Snapshot(all);
    SnapshotHolds(all, t);
    ghost var y;
    if e1.kind == EOr {
      y, made := Dups1Nodes(c, OpOr, e1, Top, Top, x, Here, Here, all);
    } else {
      y, made := Dups1Nodes(c, OpAnd, e1, Top, Top, x, Here, Here, all);
    }
    r := PutBack(op, w, t, p, y, h, all, made);
  }

  /** The operand at a place has been rewritten below its root, which stays there; the
      fields were those of h before. */
  lemma PutBack(op: Op, w: Node, t: Tree, p: Path, y: Tree, h: map<Node, Contents>, all: set<Node>, made: set<Node>)
    returns (r: Tree)
    requires t.node == w && Unshared(t) && NodesOf(t) <= all && Leads(op, t, p) && p.Down?
    requires HoldsIn(h, t) && h.Keys == all && made !! all
    requires var x := GetTree(op, t, p);
      && x.Two? && x.op != op && SameSpine(x.op, x, y) && StoredAt(y, x.node, NodesOf(x) + made)
      && forall n | n in all && n !in NodesOf(x) :: h[n] == Contents(n.kind, n.leftSym, n.rightSym, n.left, n.right)
    ensures Becomes(op, w, t, r, made)
    ensures Slot(op, Value(t), p) && Value(r) == Set(op, Value(t), p, Value(y))
  {
    var x := GetTree(op, t, p);
    var g := Snapshot(all + made);
    r := SetTree(op, t, p, y);
    TreeNodes(op, t, p, y);
    TreeValue(op, t, p);
    SetTreeValue(op, t, p, y);
    SnapshotHolds(all + made, y);
    LinkIs(h, op, t, p);
    SetHolds(h, g, op, t, p, y);
    SnapshotHolds(all + made, r);
    SetKeepsSpine(op, t, p, y);
  }

  /** The place holds the root of the subtree. */
  lemma {:induction false} LinkIs(h: map<Node, Contents>, op: Op, t: Tree, p: Path)
    requires HoldsIn(h, t) && Leads(op, t, p) && p.Down?
    ensures var s := PlaceOf(op, t, p);
      s.Field? && s.node in h && (if s.right then h[s.node].right else h[s.node].left) == GetTree(op, t, p).node
    decreases p
  {
    if p.rest.Down? {
      LinkIs(h, op, Sub(t, p.right), p.rest);
    } else {
      assert GetTree(op, t, p) == GetTree(op, Sub(t, p.right), Here) == Sub(t, p.right);
    }
  }

  /** The last part: the first operand becomes the unit and the second one the join. */
  method JoinAtNodes(c: Passes, op: Op, w: Node, s1: Place, s2: Place, ghost t: Tree, ghost p: Path, ghost q: Path,
                     ghost all: set<Node>)
    returns (ghost r: Tree, ghost made: set<Node>)
    requires OperandPlaces(op, w, s1, s2, t, p, q, all)
    modifies c, NodesOf(t)
    ensures Becomes(op, w, t, r, made) && fresh(made)
    ensures Operands(op, Value(t), p, q)
    ensures var d := JoinAt(op, Value(t), p, q);
      Value(r) == d.expr && c.transCount - old(c.transCount) == d.count
  {
    hide Holds, Unshared, NodesOf, Value;
    OperandValues(op, w, s1, s2, t, p, q, all);
    SpineStays(op, t);
    r := t;
    var e1, e2 := Load(w, s1), Load(w, s2);
    ghost var x, y := GetTree(op, t, p), GetTree(op, t, q);
    var tmp;
    ghost var u;
    tmp, u, made := JoinNodes(c, op, e1, x, e2, y, all);
    if tmp == null {
      made := {};
    } else {
      c.transCount := c.transCount + 1;
      r, made := StoreBoth(op, w, s1, s2, tmp, t, p, q, u, all, made);
    }
  }

  method StoreBoth(op: Op, w: Node, s1: Place, s2: Place, tmp: Node, ghost t: Tree, ghost p: Path, ghost q: Path,
                   ghost u: Tree, ghost all: set<Node>, ghost before: set<Node>)
    returns (ghost r: Tree, ghost made: set<Node>)
    requires OperandPlaces(op, w, s1, s2, t, p, q, all) && Operands(op, Value(t), p, q) && p.Down? && q.Down?
    requires StoredAt(u, tmp, before) && before !! all
    requires Join(op, Get(op, Value(t), p), Get(op, Value(t), q)) == Some(Value(u))
    modifies NodesOf(t)
    ensures Becomes(op, w, t, r, made) && before <= made && fresh(made - before)
    ensures Value(r) == JoinAt(op, Value(t), p, q).expr
  {
    var n;
    ghost var x;
    n, x := Alloc(Unit(op));
    ghost var v := StoreAt(op, w, s1, n, t, p, x, all, {n});
    SetKeepsSpine(op, t, p, x);
    SetTreeValue(op, t, p, x);
    SpinePlaces(op, t, v, q);
    r := StoreAt(op, w, s2, tmp, v, q, u, all + {n}, before);
    JoinIsNoJunction(op, t, p, q, u);
    SetKeepsSpine(op, v, q, u);
    SpineJoins(op, t, v, r);
    TreeValue(op, v, q);
    SetTreeValue(op, v, q, u);
    made := before + {n};
  }

  lemma JoinIsNoJunction(op: Op, t: Tree, p: Path, q: Path, u: Tree)
    requires Operands(op, Value(t), p, q) && Holds(u)
    requires Join(op, Get(op, Value(t), p), Get(op, Value(t), q)) == Some(Value(u))
    ensures !IsJunction(op, u)
  {
  }
}
