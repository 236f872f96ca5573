// Places of subexpressions in memory, struct expr **, and the trees around them.
module ExprPlaces {

  import opened Expressions
  import opened ExprPaths
  import opened ExprNodes

  /** The variable that holds the root, or a field of a node. */
  datatype Place = Top | Field(node: Node, right: bool)

  ghost function Sub(t: Tree, right: bool): Tree
    requires t.Two?
  {
    if right then t.right else t.left
  }

  ghost predicate IsJunction(op: Op, t: Tree) {
    t.Two? && t.op == op
  }

  /** p leads from t through junctions of op only. */
  ghost predicate Leads(op: Op, t: Tree, p: Path) {
    p.Here? || (IsJunction(op, t) && Leads(op, Sub(t, p.right), p.rest))
  }

  ghost function GetTree(op: Op, t: Tree, p: Path): Tree
    requires Leads(op, t, p)
  {
    if p.Here? then t else GetTree(op, Sub(t, p.right), p.rest)
  }

  ghost function SetTree(op: Op, t: Tree, p: Path, x: Tree): Tree
    requires Leads(op, t, p)
  {
    if p.Here? then x
    else
      var s := SetTree(op, Sub(t, p.right), p.rest, x);
      if p.right then t.(right := s) else t.(left := s)
  }

  ghost function PlaceOf(op: Op, t: Tree, p: Path): (s: Place)
    requires Leads(op, t, p)
    ensures p.Here? <==> s.Top?
  {
    if p.Here? then Top
    else if p.rest.Here? then Field(t.node, p.right)
    else PlaceOf(op, Sub(t, p.right), p.rest)
  }

  // ----- Trees and values -----

  lemma {:induction false} TreeValue(op: Op, t: Tree, p: Path)
    requires Leads(op, t, p)
    ensures Slot(op, Value(t), p) && Value(GetTree(op, t, p)) == Get(op, Value(t), p)
  {
    if p.Down? {
      TreeValue(op, Sub(t, p.right), p.rest);
    }
  }

  lemma {:induction false} SetTreeValue(op: Op, t: Tree, p: Path, x: Tree)
    requires Leads(op, t, p) && Slot(op, Value(t), p)
    ensures Value(SetTree(op, t, p, x)) == Set(op, Value(t), p, Value(x))
    ensures p.Down? ==> SetTree(op, t, p, x).node == t.node
  {
    if p.Down? {
      SetTreeValue(op, Sub(t, p.right), p.rest, x);
    }
  }

  /** The subtree is made of nodes of the tree, and the new tree of the others and the
      new nodes. */
  lemma {:induction false} TreeNodes(op: Op, t: Tree, p: Path, x: Tree)
    requires Leads(op, t, p) && Unshared(t)
    ensures var s := GetTree(op, t, p);
      && NodesOf(s) <= NodesOf(t) && Unshared(s) && s.node in NodesOf(s)
      && NodesOf(SetTree(op, t, p, x)) == NodesOf(t) - NodesOf(s) + NodesOf(x)
      && (Unshared(x) && NodesOf(x) * NodesOf(t) <= NodesOf(s) ==> Unshared(SetTree(op, t, p, x)))
  {
    if p.Down? {
      TreeNodes(op, Sub(t, p.right), p.rest, x);
    }
  }

  /** The operand below a place is at the field of the node at the place. */
  lemma {:induction false} ExtendPlace(op: Op, t: Tree, p: Path, right: bool)
    requires Leads(op, t, p) && IsJunction(op, GetTree(op, t, p))
    ensures var q := Extend(p, right);
      && Leads(op, t, q) && PlaceOf(op, t, q) == Field(GetTree(op, t, p).node, right)
      && GetTree(op, t, q) == Sub(GetTree(op, t, p), right)
  {
    if p.Down? {
      ExtendPlace(op, Sub(t, p.right), p.rest, right);
    }
  }

  /** Operands at different places are different nodes, so that comparing pointers
      compares places. */
  lemma {:induction false} PlacesDiffer(op: Op, t: Tree, p: Path, q: Path)
    requires Unshared(t) && Leads(op, t, p) && Leads(op, t, q)
    requires !IsJunction(op, GetTree(op, t, p)) && !IsJunction(op, GetTree(op, t, q))
    ensures GetTree(op, t, p).node == GetTree(op, t, q).node <==> p == q
    ensures p != q ==> NodesOf(GetTree(op, t, p)) !! NodesOf(GetTree(op, t, q))
  {
    TreeNodes(op, t, p, t);
    TreeNodes(op, t, q, t);
    if p.Down? && q.Down? {
      TreeNodes(op, Sub(t, p.right), p.rest, t);
      TreeNodes(op, Sub(t, q.right), q.rest, t);
      if p.right == q.right {
        PlacesDiffer(op, Sub(t, p.right), p.rest, q.rest);
      }
    }
  }

  /** The junctions of op at the top are the same nodes. */
  ghost predicate SameSpine(op: Op, t: Tree, r: Tree) {
    if IsJunction(op, t) then
      IsJunction(op, r) && r.node == t.node && SameSpine(op, t.left, r.left) && SameSpine(op, t.right, r.right)
    else !IsJunction(op, r)
  }

  lemma {:induction false} SpinePlaces(op: Op, t: Tree, r: Tree, p: Path)
    requires SameSpine(op, t, r) && Leads(op, t, p)
    ensures Leads(op, r, p) && PlaceOf(op, r, p) == PlaceOf(op, t, p)
    ensures IsJunction(op, GetTree(op, r, p)) <==> IsJunction(op, GetTree(op, t, p))
  {
    if p.Down? {
      SpinePlaces(op, Sub(t, p.right), Sub(r, p.right), p.rest);
    }
  }

  lemma {:induction false} SpineJoins(op: Op, t: Tree, r: Tree, u: Tree)
    requires SameSpine(op, t, r) && SameSpine(op, r, u)
    ensures SameSpine(op, t, u)
  {
    if IsJunction(op, t) {
      SpineJoins(op, t.left, r.left, u.left);
      SpineJoins(op, t.right, r.right, u.right);
    }
  }

  lemma {:induction false} SpineStays(op: Op, t: Tree)
    ensures SameSpine(op, t, t)
  {
    if IsJunction(op, t) {
      SpineStays(op, t.left);
      SpineStays(op, t.right);
    }
  }

  lemma {:induction false} SetKeepsSpine(op: Op, t: Tree, p: Path, x: Tree)
    requires Leads(op, t, p) && !IsJunction(op, GetTree(op, t, p)) && !IsJunction(op, x)
    ensures SameSpine(op, t, SetTree(op, t, p, x))
  {
    if p.Down? {
      SpineStays(op, Sub(t, !p.right));
      SetKeepsSpine(op, Sub(t, p.right), p.rest, x);
    }
  }

  // ----- The fields of nodes as a value -----

  datatype Contents = Contents(kind: Kind, leftSym: Symbol, rightSym: Symbol, left: Node?, right: Node?)

  ghost function Snapshot(s: set<Node>): map<Node, Contents>
    reads s
  {
    map n | n in s :: Contents(n.kind, n.leftSym, n.rightSym, n.left, n.right)
  }

  /** Holds, for the fields in h. */
  ghost predicate HoldsIn(h: map<Node, Contents>, t: Tree) {
    t.node in h &&
    var c := h[t.node];
    match t
    case Leaf(n, e) =>
      (match e
       case Sym(s) => c.kind == ESymbol && c.leftSym == s
       case Equal(l, r) => c.kind == EEqual && c.leftSym == l && c.rightSym == r
       case Unequal(l, r) => c.kind == EUnequal && c.leftSym == l && c.rightSym == r
       case _ => false)
    case One(n, a) => c.kind == ENot && c.left == a.node && HoldsIn(h, a)
    case Two(n, op, l, r) =>
      c.kind == KindOf(op) && c.left == l.node && c.right == r.node && HoldsIn(h, l) && HoldsIn(h, r)
  }

  lemma {:induction false} SnapshotHolds(s: set<Node>, t: Tree)
    requires NodesOf(t) <= s
    ensures HoldsIn(Snapshot(s), t) <==> Holds(t)
    decreases t
  {
    match t
    case One(_, a) => SnapshotHolds(s, a);
    case Two(_, _, l, r) => SnapshotHolds(s, l); SnapshotHolds(s, r);
    case _ =>
  }

  /** The fields of a node after x has been stored at the place. */
  ghost function Stored(n: Node, c: Contents, s: Place, x: Node): Contents {
    if s == Field(n, false) then c.(left := x) else if s == Field(n, true) then c.(right := x) else c
  }

  lemma {:induction false} HoldsElsewhere(h: map<Node, Contents>, g: map<Node, Contents>, t: Tree)
    requires HoldsIn(h, t) && forall n | n in NodesOf(t) && n in h :: n in g && g[n] == h[n]
    ensures HoldsIn(g, t)
  {
    match t
    case One(_, a) => HoldsElsewhere(h, g, a);
    case Two(_, _, l, r) => HoldsElsewhere(h, g, l); HoldsElsewhere(h, g, r);
    case _ =>
  }

  /** The nodes outside the subtree at p have only got x stored at the place. */
  ghost predicate StoredOutside(h: map<Node, Contents>, g: map<Node, Contents>, op: Op, t: Tree, p: Path, x: Node)
    requires Leads(op, t, p)
  {
    forall n | n in NodesOf(t) && n !in NodesOf(GetTree(op, t, p)) && n in h ::
      n in g && g[n] == Stored(n, h[n], PlaceOf(op, t, p), x)
  }

  /** Another tree at a place. */
  lemma {:induction false} SetHolds(h: map<Node, Contents>, g: map<Node, Contents>, op: Op, t: Tree, p: Path, x: Tree)
    requires Leads(op, t, p) && Unshared(t) && HoldsIn(h, t) && HoldsIn(g, x)
    requires StoredOutside(h, g, op, t, p, x.node)
    ensures HoldsIn(g, SetTree(op, t, p, x))
    decreases p
  {
    if p.Down? {
      var s, o := Sub(t, p.right), Sub(t, !p.right);
      OutsideParts(h, g, op, t, p, x.node);
      HoldsElsewhere(h, g, o);
      if p.rest.Down? {
        SetHolds(h, g, op, s, p.rest, x);
      }
    }
  }

  lemma OutsideParts(h: map<Node, Contents>, g: map<Node, Contents>, op: Op, t: Tree, p: Path, x: Node)
    requires Leads(op, t, p) && p.Down? && Unshared(t) && StoredOutside(h, g, op, t, p, x)
    ensures forall n | n in NodesOf(Sub(t, !p.right)) && n in h :: n in g && g[n] == h[n]
    ensures t.node in h ==> t.node in g && g[t.node] == Stored(t.node, h[t.node], PlaceOf(op, t, p), x)
    ensures p.rest.Down? ==> StoredOutside(h, g, op, Sub(t, p.right), p.rest, x)
    ensures p.rest.Down? ==> PlaceOf(op, t, p).node != t.node
    ensures p.rest.Here? ==> PlaceOf(op, t, p) == Field(t.node, p.right)
  {
    TreeNodes(op, Sub(t, p.right), p.rest, t);
    PlaceInside(op, t, p);
  }

  lemma {:induction false} PlaceInside(op: Op, t: Tree, p: Path)
    requires Leads(op, t, p) && p.Down? && Unshared(t)
    ensures var s := PlaceOf(op, t, p);
      s.Field? && s.node in NodesOf(t) && s.node !in NodesOf(GetTree(op, t, p))
      && (p.rest.Down? ==> s.node in NodesOf(Sub(t, p.right)))
  {
    TreeNodes(op, Sub(t, p.right), p.rest, t);
    if p.rest.Down? {
      PlaceInside(op, Sub(t, p.right), p.rest);
    }
  }
}
