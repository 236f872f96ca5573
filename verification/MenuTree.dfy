// The menu tree of scripts/kconfig/menu.c: first-child and next-sibling pointers
// with a pointer back to the parent, rearranged by menu_finalize.
module MenuTree {

  class Menu {
    var next: Menu?
    var parent: Menu?
    var list: Menu?
    // Whether the entry has a symbol, and a prompt with a text.
    const hasSymbol: bool
    const hasPrompt: bool

    constructor (hasSymbol: bool, hasPrompt: bool)
      ensures next == null && parent == null && list == null
      ensures this.hasSymbol == hasSymbol && this.hasPrompt == hasPrompt
    {
      next, parent, list := null, null, null;
      this.hasSymbol, this.hasPrompt := hasSymbol, hasPrompt;
    }
  }

  // ----- The shape of the tree -----

  /** What is reached from a menu: the menu, its children and its later siblings. */
  datatype Tree = Nil | Node(menu: Menu, list: Tree, next: Tree)

  ghost function Root(t: Tree): Menu? {
    if t.Nil? then null else t.menu
  }

  ghost function Preorder(t: Tree): seq<Menu> {
    match t
    case Nil => []
    case Node(m, list, next) => [m] + Preorder(list) + Preorder(next)
  }

  ghost function Menus(t: Tree): set<Menu> {
    match t
    case Nil => {}
    case Node(m, list, next) => {m} + Menus(list) + Menus(next)
  }

  /** No menu occurs twice. */
  ghost predicate Distinct(t: Tree) {
    match t
    case Nil => true
    case Node(m, list, next) =>
      && m !in Menus(list) && m !in Menus(next) && Menus(list) !! Menus(next)
      && Distinct(list) && Distinct(next)
  }

  /** The pointers starting at m have the shape t, and every parent pointer is right
      when p is the parent of m. */
  ghost predicate Linked(m: Menu?, t: Tree, p: Menu?)
    reads Menus(t)
  {
    match t
    case Nil => m == null
    case Node(x, list, next) =>
      m == x && x.parent == p && Linked(x.list, list, x) && Linked(x.next, next, p)
  }

  lemma LinkedParts(m: Menu?, t: Tree, p: Menu?)
    requires Linked(m, t, p)
    ensures m == Root(t)
    ensures t.Node? ==> t.menu.parent == p && Linked(t.menu.list, t.list, t.menu) && Linked(t.menu.next, t.next, p)
  {
  }

  /** A sibling that has been dealt with, and what is below it. */
  datatype Item = Item(menu: Menu, list: Tree)

  ghost function Visited(done: seq<Item>): set<Menu> {
    if done == [] then {} else {done[0].menu} + Menus(done[0].list) + Visited(done[1..])
  }

  /** The siblings from m up to but not including end are the items done. */
  ghost predicate Chain(m: Menu?, done: seq<Item>, end: Menu?, p: Menu?)
    reads Visited(done)
    decreases |done|
  {
    if done == [] then m == end
    else
      var x := done[0].menu;
      m == x && x.parent == p && Linked(x.list, done[0].list, x) && Chain(x.next, done[1..], end, p)
  }

  /** The items done, followed by t. */
  ghost function Attach(done: seq<Item>, t: Tree): Tree {
    if done == [] then t else Node(done[0].menu, done[0].list, Attach(done[1..], t))
  }

  lemma NothingDone(m: Menu?, p: Menu?, t: Tree)
    ensures Chain(m, [], m, p) && Attach([], t) == t && Visited([]) == {}
  {
  }

  lemma {:induction false} ChainSnoc(m: Menu?, done: seq<Item>, e: Item, end: Menu?, p: Menu?)
    ensures Chain(m, done + [e], end, p) <==>
      Chain(m, done, e.menu, p) && e.menu.parent == p && Linked(e.menu.list, e.list, e.menu) && e.menu.next == end
    decreases |done|
  {
    if done != [] {
      assert (done + [e])[1..] == done[1..] + [e];
      ChainSnoc(done[0].menu.next, done[1..], e, end, p);
    } else {
      assert (done + [e])[1..] == [];
    }
  }

  lemma {:induction false} AttachSnoc(done: seq<Item>, e: Item, t: Tree)
    ensures Attach(done + [e], t) == Attach(done, Node(e.menu, e.list, t))
  {
    if done != [] {
      assert (done + [e])[1..] == done[1..] + [e];
      AttachSnoc(done[1..], e, t);
    } else {
      assert (done + [e])[1..] == [];
    }
  }

  lemma {:induction false} AttachLinked(m: Menu?, done: seq<Item>, t: Tree, p: Menu?)
    requires Chain(m, done, Root(t), p) && Linked(Root(t), t, p)
    ensures Linked(m, Attach(done, t), p)
    decreases |done|
  {
    if done != [] {
      AttachLinked(done[0].menu.next, done[1..], t, p);
    }
  }

  /** Taking the rest of the chain for another tree over the same menus. */
  lemma {:induction false} AttachFacts(done: seq<Item>, t: Tree, u: Tree)
    ensures Menus(Attach(done, t)) == Visited(done) + Menus(t)
    ensures Distinct(Attach(done, t)) ==> Distinct(t) && Visited(done) !! Menus(t)
    ensures Preorder(t) == Preorder(u) ==> Preorder(Attach(done, t)) == Preorder(Attach(done, u))
  {
    if done != [] {
      AttachFacts(done[1..], t, u);
      AttachFacts(done[1..], u, t);
    }
  }

  /** Two trees over the same menus in the same order. */
  ghost predicate SameMenus(t: Tree, r: Tree) {
    Preorder(r) == Preorder(t) && Menus(r) == Menus(t) && (Distinct(t) ==> Distinct(r))
  }

  ghost predicate NoneTwice(s: seq<Menu>) {
    forall i, j :: 0 <= i < j < |s| ==> s[i] != s[j]
  }

  ghost function Elements(s: seq<Menu>): set<Menu> {
    set x | x in s
  }

  lemma NoneTwiceJoin(s: seq<Menu>, t: seq<Menu>)
    ensures Elements(s + t) == Elements(s) + Elements(t)
    ensures NoneTwice(s + t) <==> NoneTwice(s) && NoneTwice(t) && Elements(s) !! Elements(t)
  {
    var u := s + t;
    if NoneTwice(u) {
      assert forall i | 0 <= i < |s| :: u[i] == s[i];
      assert forall i | 0 <= i < |t| :: u[|s| + i] == t[i];
    }
    if NoneTwice(s) && NoneTwice(t) && Elements(s) !! Elements(t) {
      forall i, j | 0 <= i < j < |u| ensures u[i] != u[j] {
        assert i < |s| ==> u[i] in Elements(s);
        assert j >= |s| ==> u[j] in Elements(t);
      }
    }
  }

  lemma NoneTwiceNode(m: Menu, s: seq<Menu>, t: seq<Menu>)
    ensures Elements([m] + s + t) == {m} + Elements(s) + Elements(t)
    ensures NoneTwice([m] + s + t) <==>
      NoneTwice(s) && NoneTwice(t) && m !in Elements(s) && m !in Elements(t) && Elements(s) !! Elements(t)
  {
    NoneTwiceJoin(s, t);
    NoneTwiceJoin([m], s + t);
    assert [m] + (s + t) == [m] + s + t;
    assert Elements([m]) == {m};
  }

  lemma {:induction false} FromPreorder(t: Tree)
    ensures Menus(t) == Elements(Preorder(t))
    ensures Distinct(t) <==> NoneTwice(Preorder(t))
  {
    if t.Node? {
      FromPreorder(t.list);
      FromPreorder(t.next);
      NoneTwiceNode(t.menu, Preorder(t.list), Preorder(t.next));
    }
  }

  lemma SamePreorder(t: Tree, r: Tree)
    requires Preorder(r) == Preorder(t)
    ensures SameMenus(t, r)
  {
    FromPreorder(t);
    FromPreorder(r);
  }

  lemma Exchange(done: seq<Item>, t: Tree, u: Tree)
    requires Preorder(t) == Preorder(u)
    ensures SameMenus(Attach(done, t), Attach(done, u))
  {
    AttachFacts(done, t, u);
    SamePreorder(Attach(done, t), Attach(done, u));
  }

  // ----- What menu_finalize does to the tree -----

  /** The dependency tests for absorbing a sibling, which are left open: whether a
      menu depends on the symbol of another one. */
  type Depends = (Menu, Menu) -> bool

  ghost function Append(t: Tree, u: Tree): (r: Tree)
    ensures Preorder(r) == Preorder(t) + Preorder(u)
  {
    if t.Nil? then u else Node(t.menu, t.list, Append(t.next, u))
  }

  /** The tree with the siblings that depend on its root moved below it. */
  ghost function Absorbed(parent: Menu, depends: Depends, u: Tree): (r: (Tree, Tree))
    ensures Preorder(r.0) + Preorder(r.1) == Preorder(u)
    decreases |Preorder(u)|, 3
  {
    if u.Nil? || !depends(parent, u.menu) then (Nil, u)
    else
      var v := Finalized(depends, u);
      var (list, next) := Absorbed(parent, depends, v.next);
      (Node(v.menu, v.list, list), next)
  }

  ghost function FinalizedAll(depends: Depends, u: Tree): (r: Tree)
    ensures Preorder(r) == Preorder(u)
    decreases |Preorder(u)|, 2
  {
    if u.Nil? then Nil
    else
      var v := Finalized(depends, u);
      Node(v.menu, v.list, FinalizedAll(depends, v.next))
  }

  /** A menu without a prompt gives way to its own children. */
  ghost function Lifted(u: Tree): (r: Tree)
    requires u.Node?
    ensures r.Node? && r.menu == u.menu && Preorder(r) == Preorder(u)
  {
    if u.list.Node? && !u.menu.hasPrompt then Node(u.menu, Nil, Append(u.list, u.next)) else u
  }

  ghost function Flattened(u: Tree): (r: Tree)
    ensures Preorder(r) == Preorder(u)
    decreases |Preorder(u)|
  {
    if u.Nil? then Nil
    else
      var v := Lifted(u);
      Node(v.menu, v.list, Flattened(v.next))
  }

  /** menu_finalize up to its last loop. */
  ghost function Gathered(depends: Depends, t: Tree): (r: Tree)
    requires t.Node?
    ensures r.Node? && r.menu == t.menu && Preorder(r) == Preorder(t)
    decreases |Preorder(t)|, 0
  {
    if t.list.Node? then Node(t.menu, FinalizedAll(depends, t.list), t.next)
    else if t.menu.hasSymbol then
      var (list, next) := Absorbed(t.menu, depends, t.next);
      Node(t.menu, list, next)
    else t
  }

  /** menu_finalize, as far as it rearranges the tree. */
  ghost function Finalized(depends: Depends, t: Tree): (r: Tree)
    requires t.Node?
    ensures r.Node? && r.menu == t.menu && Preorder(r) == Preorder(t)
    decreases |Preorder(t)|, 1
  {
    var s := Gathered(depends, t);
    Node(s.menu, Flattened(s.list), s.next)
  }

  lemma {:induction false} AppendAttach(done: seq<Item>, t: Tree)
    ensures Append(Attach(done, Nil), t) == Attach(done, t)
  {
    if done != [] {
      AppendAttach(done[1..], t);
    }
  }

  // ----- menu_finalize -----
  //
  // The ghost parameters of the methods are the shape t of the tree, the parent q of
  // its root, and a set all that contains the menus of the tree.

  /** The next sibling joins the items done. */
  lemma Advance(first: Menu?, done: seq<Item>, v: Tree, p: Menu?, q: Menu?, rest: Tree)
    requires v.Node? && Chain(first, done, v.menu, p) && v.menu.parent == p
    requires Linked(v.menu.list, v.list, v.menu) && Linked(v.menu.next, v.next, q)
    ensures var e := Item(v.menu, v.list);
      && Chain(first, done + [e], v.menu.next, p)
      && Linked(v.menu.next, v.next, q)
      && Attach(done + [e], v.next) == Attach(done, v)
      && Attach(done + [e], rest) == Attach(done, Node(v.menu, v.list, rest))
  {
    ChainSnoc(first, done, Item(v.menu, v.list), v.menu.next, p);
    AttachSnoc(done, Item(v.menu, v.list), v.next);
    AttachSnoc(done, Item(v.menu, v.list), rest);
  }

  /** menu_finalize for a sibling that follows the items done. */
  method FinalizeSibling(depends: Depends, first: Menu?, menu: Menu, ghost done: seq<Item>, ghost u: Tree,
                         ghost p: Menu?, ghost q: Menu?, ghost all: set<Menu>)
    requires Chain(first, done, menu, p) && Linked(menu, u, q) && Root(u) == menu
    requires Distinct(Attach(done, u)) && Menus(Attach(done, u)) <= all
    modifies Menus(u)
    ensures Chain(first, done, menu, p) && Linked(menu, Finalized(depends, u), q)
    ensures SameMenus(Attach(done, u), Attach(done, Finalized(depends, u)))
    decreases |Preorder(u)|, 2
  {
    AttachFacts(done, u, u);
    Finalize(depends, menu, u, q, all);
    Exchange(done, u, Finalized(depends, u));
  }

  /** The first loop over the children. */
  method FinalizeChildren(depends: Depends, parent: Menu, ghost t: Tree, ghost q: Menu?, ghost all: set<Menu>)
    requires Root(t) == parent && Linked(parent, t, q) && Distinct(t) && Menus(t) <= all
    modifies Menus(t)
    ensures Linked(parent, Node(parent, FinalizedAll(depends, t.list), t.next), q)
    decreases |Preorder(t)|, 0
  {
    ghost var done: seq<Item>, u := [], t.list;
    var menu := parent.list;
    while menu != null
      invariant parent.list == old(parent.list) && parent.next == old(parent.next) && parent.parent == q
      invariant Linked(parent.next, t.next, q)
      invariant Chain(parent.list, done, menu, parent) && Linked(menu, u, parent)
      invariant SameMenus(t.list, Attach(done, u))
      invariant FinalizedAll(depends, t.list) == Attach(done, FinalizedAll(depends, u))
      decreases |Preorder(u)|
    {
      AttachFacts(done, u, u);
      FinalizeSibling(depends, parent.list, menu, done, u, parent, parent, all);
      ghost var v := Finalized(depends, u);
      Advance(parent.list, done, v, parent, parent, FinalizedAll(depends, v.next));
      done, u, menu := done + [Item(menu, v.list)], v.next, menu.next;
    }
    AttachLinked(parent.list, done, Nil, parent);
  }

  /** The branch for a symbol without children: the loop over the following siblings
      and the surgery after it. */
  method AbsorbSiblings(depends: Depends, parent: Menu, ghost t: Tree, ghost q: Menu?, ghost all: set<Menu>)
    requires Root(t) == parent && Linked(parent, t, q) && Distinct(t) && Menus(t) <= all && t.list.Nil?
    modifies Menus(t)
    ensures var a := Absorbed(parent, depends, t.next); Linked(parent, Node(parent, a.0, a.1), q)
    decreases |Preorder(t)|, 0
  {
    ghost var done, u;
    var menu, lastMenu;
    menu, lastMenu, done, u := FindDependent(depends, parent, t, q, all);
    if lastMenu != null {
      ghost var init, e := LastItem(parent.next, done, menu, parent, u);
      MoveBelow(parent, lastMenu, init, e, u, q, all);
    }
  }

  lemma LastItem(first: Menu?, done: seq<Item>, menu: Menu?, p: Menu, u: Tree) returns (init: seq<Item>, e: Item)
    requires done != [] && Chain(first, done, menu, p) && Distinct(Attach(done, u))
    ensures done == init + [e] && e.menu == done[|done| - 1].menu
    ensures Chain(first, init, e.menu, p)
    ensures e.menu.parent == p && Linked(e.menu.list, e.list, e.menu) && e.menu.next == menu
    ensures Distinct(Attach(init, Node(e.menu, e.list, u)))
    ensures Menus(Attach(done, u)) == Visited(init) + {e.menu} + Menus(e.list) + Menus(u)
  {
    init, e := done[..|done| - 1], done[|done| - 1];
    assert done == init + [e];
    ChainSnoc(first, init, e, menu, p);
    AttachSnoc(init, e, u);
    AttachFacts(init, Node(e.menu, e.list, u), Nil);
  }

  /** The absorbed siblings, of which lastMenu is the last one, become the children of
      parent. */
  method MoveBelow(parent: Menu, lastMenu: Menu, ghost init: seq<Item>, ghost e: Item, ghost u: Tree, ghost q: Menu?,
                   ghost all: set<Menu>)
    requires lastMenu == e.menu && parent.parent == q
    requires Chain(parent.next, init, lastMenu, parent)
    requires lastMenu.parent == parent && Linked(lastMenu.list, e.list, lastMenu) && Linked(lastMenu.next, u, q)
    requires Distinct(Attach(init, Node(e.menu, e.list, u)))
    requires var below := Visited(init) + {e.menu} + Menus(e.list) + Menus(u); below <= all && parent !in below
    modifies parent, lastMenu
    ensures Linked(parent, Node(parent, Attach(init + [e], Nil), u), q)
  {
    hide Distinct, Preorder, Attach, Chain;
    ghost var first := parent.next;
    AttachFacts(init, Node(e.menu, e.list, u), Nil);
    parent.list := parent.next;
    parent.next := lastMenu.next;
    lastMenu.next := null;
    assert Chain(first, init, lastMenu, parent);
    assert Linked(lastMenu.list, e.list, lastMenu);
    ChainSnoc(first, init, e, null, parent);
    AttachLinked(first, init + [e], Nil, parent);
  }

  /** What is left of absorbing the siblings t once the items done are in. */
  ghost predicate AbsorbedSoFar(parent: Menu, depends: Depends, t: Tree, done: seq<Item>, u: Tree) {
    var rest := Absorbed(parent, depends, u);
    Absorbed(parent, depends, t) == (Attach(done, rest.0), rest.1)
  }

  /** The loop: siblings are let in as long as the dependency tests succeed. */
  method FindDependent(depends: Depends, parent: Menu, ghost t: Tree, ghost q: Menu?, ghost all: set<Menu>)
    returns (menu: Menu?, lastMenu: Menu?, ghost done: seq<Item>, ghost u: Tree)
    requires Root(t) == parent && Linked(parent, t, q) && Distinct(t) && Menus(t) <= all && t.list.Nil?
    modifies Menus(t.next)
    ensures parent.list == null && parent.next == old(parent.next) && parent.parent == q
    ensures Chain(parent.next, done, menu, parent) && Linked(menu, u, q) && SameMenus(t.next, Attach(done, u))
    ensures Absorbed(parent, depends, t.next) == (Attach(done, Nil), u)
    ensures lastMenu == if done == [] then null else done[|done| - 1].menu
    decreases |Preorder(t.next)|, 4
  {
    hide Attach, Chain, Visited;
    NothingDone(parent.next, parent, t.next);
    NothingDone(parent.next, parent, Absorbed(parent, depends, t.next).0);
    done, u := [], t.next;
    menu, lastMenu := parent.next, null;
    while menu != null && depends(parent, menu)
      invariant parent.list == null && parent.next == old(parent.next) && parent.parent == q
      invariant Chain(parent.next, done, menu, parent) && Linked(menu, u, q) && SameMenus(t.next, Attach(done, u))
      invariant lastMenu == if done == [] then null else done[|done| - 1].menu
      invariant AbsorbedSoFar(parent, depends, t.next, done, u)
      invariant |Preorder(u)| <= |Preorder(t.next)|
      decreases |Preorder(u)|
    {
      AttachFacts(done, u, u);
      ghost var v := AbsorbSibling(depends, parent, menu, t.next, done, u, q, all);
      done, u, lastMenu, menu := done + [Item(menu, v.list)], v.next, menu, menu.next;
    }
  }

  lemma AbsorbedOne(parent: Menu, depends: Depends, t: Tree, done: seq<Item>, u: Tree)
    requires AbsorbedSoFar(parent, depends, t, done, u) && u.Node? && depends(parent, u.menu)
    ensures var v := Finalized(depends, u); AbsorbedSoFar(parent, depends, t, done + [Item(v.menu, v.list)], v.next)
  {
    var v := Finalized(depends, u);
    AttachSnoc(done, Item(v.menu, v.list), Absorbed(parent, depends, v.next).0);
  }

  /** The body of the loop: the sibling is finalized and gets a new parent. */
  method AbsorbSibling(depends: Depends, parent: Menu, menu: Menu, ghost t: Tree, ghost done: seq<Item>, ghost u: Tree,
                       ghost q: Menu?, ghost all: set<Menu>)
    returns (ghost v: Tree)
    requires Chain(parent.next, done, menu, parent) && Linked(menu, u, q) && Root(u) == menu
    requires Distinct(Attach(done, u)) && Menus(Attach(done, u)) <= all && parent !in Menus(Attach(done, u))
    requires AbsorbedSoFar(parent, depends, t, done, u) && depends(parent, menu)
    modifies Menus(u)
    ensures v == Finalized(depends, u)
    ensures Chain(parent.next, done + [Item(menu, v.list)], menu.next, parent) && Linked(menu.next, v.next, q)
    ensures SameMenus(Attach(done, u), Attach(done + [Item(menu, v.list)], v.next))
    ensures AbsorbedSoFar(parent, depends, t, done + [Item(menu, v.list)], v.next)
    decreases |Preorder(u)|, 3
  {
    hide Attach, Chain, Distinct, Preorder, Absorbed;
    AttachFacts(done, u, u);
    FinalizeSibling(depends, parent.next, menu, done, u, parent, q, all);
    v := Finalized(depends, u);
    AttachFacts(done, v, v);
    menu.parent := parent;
    Advance(parent.next, done, v, parent, q, v.next);
    AbsorbedOne(parent, depends, t, done, u);
  }

  /** The last loop: a child without a prompt gives way to its own children. */
  method FlattenChildren(parent: Menu, ghost t: Tree, ghost q: Menu?, ghost all: set<Menu>)
    requires Root(t) == parent && Linked(parent, t, q) && Distinct(t) && Menus(t) <= all
    modifies Menus(t)
    ensures Linked(parent, Node(parent, Flattened(t.list), t.next), q)
  {
    ghost var done: seq<Item>, u := [], t.list;
    var menu := parent.list;
    while menu != null
      invariant parent.list == old(parent.list) && parent.next == old(parent.next) && parent.parent == q
      invariant Linked(parent.next, t.next, q)
      invariant Chain(parent.list, done, menu, parent) && Linked(menu, u, parent)
      invariant SameMenus(t.list, Attach(done, u))
      invariant Flattened(t.list) == Attach(done, Flattened(u))
      decreases |Preorder(u)|
    {
      AttachFacts(done, u, u);
      FlattenChild(parent, menu, done, u, all);
      ghost var v := Lifted(u);
      Advance(parent.list, done, v, parent, parent, Flattened(v.next));
      done, u, menu := done + [Item(menu, v.list)], v.next, menu.next;
    }
    AttachLinked(parent.list, done, Nil, parent);
  }

  /** The body of the loop. */
  method FlattenChild(parent: Menu, menu: Menu, ghost done: seq<Item>, ghost u: Tree, ghost all: set<Menu>)
    requires Chain(parent.list, done, menu, parent) && Linked(menu, u, parent) && Root(u) == menu
    requires Distinct(Attach(done, u)) && Menus(Attach(done, u)) <= all && parent !in Menus(Attach(done, u))
    modifies Menus(u)
    ensures Chain(parent.list, done, menu, parent) && Linked(menu, Lifted(u), parent)
    ensures SameMenus(Attach(done, u), Attach(done, Lifted(u)))
  {
    AttachFacts(done, u, u);
    if menu.list != null && !menu.hasPrompt {
      SpliceIn(parent, menu, u, all);
    }
    Exchange(done, u, Lifted(u));
  }

  /** The children of menu are moved between it and its next sibling. */
  method SpliceIn(parent: Menu, menu: Menu, ghost u: Tree, ghost all: set<Menu>)
    requires Linked(menu, u, parent) && Root(u) == menu && u.list.Node?
    requires Distinct(u) && Menus(u) <= all && parent !in Menus(u)
    modifies Menus(u)
    ensures Linked(menu, Node(menu, Nil, Append(u.list, u.next)), parent)
  {
    ghost var init, e;
    var lastMenu;
    lastMenu, init, e := Reparent(parent, menu, u, all);
    AttachSnoc(init, e, Nil);
    AppendAttach(init + [e], u.next);
    AttachFacts(init, Node(e.menu, e.list, Nil), Nil);
    Reconnect(parent, menu, lastMenu, init, e, u.next, all);
  }

  /** The three pointer assignments after the inner loop. */
  method Reconnect(parent: Menu, menu: Menu, lastMenu: Menu, ghost init: seq<Item>, ghost e: Item, ghost n: Tree,
                   ghost all: set<Menu>)
    requires Chain(menu.list, init, lastMenu, parent) && e.menu == lastMenu && menu.parent == parent
    requires lastMenu.parent == parent && Linked(lastMenu.list, e.list, lastMenu)
    requires Linked(menu.next, n, parent)
    requires Visited(init) + {lastMenu, menu} + Menus(e.list) + Menus(n) <= all
    requires {menu} !! Visited(init) !! {lastMenu} !! Menus(e.list) !! Menus(n)
    modifies menu, lastMenu
    ensures Linked(menu, Node(menu, Nil, Attach(init + [e], n)), parent)
  {
    ghost var first := menu.list;
    lastMenu.next := menu.next;
    menu.next := menu.list;
    menu.list := null;
    assert Chain(first, init, lastMenu, parent);
    assert Linked(lastMenu.list, e.list, lastMenu);
    assert Linked(lastMenu.next, n, parent);
    ChainSnoc(first, init, e, lastMenu.next, parent);
    AttachLinked(first, init + [e], n, parent);
  }

  /** The inner loop: gives the children of menu their new parent and finds the last. */
  method Reparent(parent: Menu, menu: Menu, ghost u: Tree, ghost all: set<Menu>)
    returns (lastMenu: Menu, ghost init: seq<Item>, ghost e: Item)
    requires Linked(menu, u, parent) && Root(u) == menu && u.list.Node?
    requires Distinct(u) && Menus(u) <= all && parent !in Menus(u)
    modifies Menus(u.list)
    ensures menu.list == old(menu.list) && menu.next == old(menu.next) && menu.parent == parent
    ensures Linked(menu.next, u.next, parent)
    ensures e.menu == lastMenu && lastMenu.next == null
    ensures Chain(menu.list, init, lastMenu, parent)
    ensures lastMenu.parent == parent && Linked(lastMenu.list, e.list, lastMenu)
    ensures u.list == Attach(init, Node(lastMenu, e.list, Nil))
  {
    hide Attach, Chain, Visited;
    lastMenu := menu.list;
    init := [];
    NothingDone(menu.list, parent, u.list);
    ghost var k := u.list;
    while true
      invariant menu.list == old(menu.list) && menu.next == old(menu.next) && menu.parent == parent
      invariant Linked(menu.next, u.next, parent)
      invariant k.Node? && Chain(menu.list, init, lastMenu, parent) && Linked(lastMenu, k, menu)
      invariant u.list == Attach(init, k)
      decreases |Preorder(k)|
    {
      AttachFacts(init, k, k);
      lastMenu.parent := parent;
      e := Item(lastMenu, k.list);
      if lastMenu.next == null {
        return;
      }
      Advance(menu.list, init, k, parent, menu, Nil);
      init, k, lastMenu := init + [e], k.next, lastMenu.next;
    }
  }

  /** menu_finalize, as far as it rearranges the tree: the pointers have the shape
      Finalized afterwards, and every parent pointer is right. */
  method Finalize(depends: Depends, parent: Menu, ghost t: Tree, ghost q: Menu?, ghost all: set<Menu>)
    requires Root(t) == parent && Linked(parent, t, q) && Distinct(t) && Menus(t) <= all
    modifies Menus(t)
    ensures Linked(parent, Finalized(depends, t), q)
    decreases |Preorder(t)|, 1
  {
    ghost var s := Gathered(depends, t);
    if parent.list != null {
      FinalizeChildren(depends, parent, t, q, all);
    } else if parent.hasSymbol {
      AbsorbSiblings(depends, parent, t, q, all);
    }
    assert Linked(parent, s, q);
    SamePreorder(t, s);
    FlattenChildren(parent, s, q, all);
  }
}
