// What menu_finalize of scripts/kconfig/menu.c leaves behind, and the walk over all
// menus in conf_write and conf_write_defconfig of scripts/kconfig/confdata.c.
module MenuWalk {

  import opened MenuTree
  import opened MenuBuilders

  // ----- The tree after menu_finalize -----

  /** A menu without a prompt is allowed no children. */
  ghost predicate Flat(t: Tree) {
    t.Node? ==> (t.list.Nil? || t.menu.hasPrompt) && Flat(t.list) && Flat(t.next)
  }

  /** Below each of the siblings, but not for the siblings themselves. */
  ghost predicate FlatBelow(t: Tree) {
    t.Node? ==> Flat(t.list) && FlatBelow(t.next)
  }

  lemma {:induction false} AppendFlat(t: Tree, u: Tree)
    requires Flat(t) && FlatBelow(u)
    ensures FlatBelow(Append(t, u))
  {
    if t.Node? {
      AppendFlat(t.next, u);
    }
  }

  lemma {:induction false} FlattenedIsFlat(u: Tree)
    requires FlatBelow(u)
    ensures Flat(Flattened(u))
    decreases |Preorder(u)|
  {
    if u.Node? {
      AppendFlat(u.list, u.next);
      FlattenedIsFlat(Lifted(u).next);
    }
  }

  lemma {:induction false} AbsorbedIsFlat(parent: Menu, depends: Depends, u: Tree)
    ensures FlatBelow(Absorbed(parent, depends, u).0)
    decreases |Preorder(u)|, 2
  {
    if u.Node? && depends(parent, u.menu) {
      FinalizedIsFlat(depends, u);
      AbsorbedIsFlat(parent, depends, Finalized(depends, u).next);
    }
  }

  lemma {:induction false} FinalizedAllIsFlat(depends: Depends, u: Tree)
    ensures FlatBelow(FinalizedAll(depends, u))
    decreases |Preorder(u)|, 2
  {
    if u.Node? {
      FinalizedIsFlat(depends, u);
      FinalizedAllIsFlat(depends, Finalized(depends, u).next);
    }
  }

  /** After menu_finalize no menu below t, at any depth, has children but no prompt. */
  lemma {:induction false} FinalizedIsFlat(depends: Depends, t: Tree)
    requires t.Node?
    ensures Flat(Finalized(depends, t).list)
    decreases |Preorder(t)|, 1
  {
    if t.list.Node? {
      FinalizedAllIsFlat(depends, t.list);
    } else if t.menu.hasSymbol {
      AbsorbedIsFlat(t.menu, depends, t.next);
    }
    FlattenedIsFlat(Gathered(depends, t).list);
  }

  ghost predicate AllDepend(depends: Depends, parent: Menu, u: Tree) {
    u.Node? ==> depends(parent, u.menu) && AllDepend(depends, parent, u.next)
  }

  /** Exactly the longest run of siblings that depend on the symbol is moved below it. */
  lemma {:induction false} AbsorbsTheLongestRun(parent: Menu, depends: Depends, u: Tree)
    ensures var (list, next) := Absorbed(parent, depends, u);
      && AllDepend(depends, parent, list)
      && (next.Nil? || !depends(parent, next.menu))
    decreases |Preorder(u)|
  {
    if u.Node? && depends(parent, u.menu) {
      AbsorbsTheLongestRun(parent, depends, Finalized(depends, u).next);
    }
  }

  // ----- Nothing is left to be moved -----

  ghost predicate AllPrompted(t: Tree) {
    forall m | m in Preorder(t) :: m.hasPrompt
  }

  /** The menu t with a symbol and no children is followed by none that depends on it. */
  ghost predicate LetsGo(depends: Depends, t: Tree)
    requires t.Node?
  {
    t.menu.hasSymbol && t.list.Nil? ==> t.next.Nil? || !depends(t.menu, t.next.menu)
  }

  /** The same for all menus of the tree, at any depth. */
  ghost predicate AllLetGo(depends: Depends, t: Tree) {
    t.Node? ==> LetsGo(depends, t) && AllLetGo(depends, t.list) && AllLetGo(depends, t.next)
  }

  lemma PromptedParts(t: Tree)
    requires t.Node? && AllPrompted(t)
    ensures t.menu.hasPrompt && AllPrompted(t.list) && AllPrompted(t.next)
  {
    assert t.menu in Preorder(t);
  }

  lemma {:induction false} PromptedStay(u: Tree)
    requires AllPrompted(u)
    ensures Flattened(u) == u
  {
    if u.Node? {
      PromptedParts(u);
      PromptedStay(u.next);
    }
  }

  lemma {:induction false} AbsorbedLetGo(parent: Menu, depends: Depends, u: Tree)
    requires AllPrompted(u)
    ensures AllLetGo(depends, Absorbed(parent, depends, u).0)
    decreases |Preorder(u)|, 2
  {
    if u.Node? && depends(parent, u.menu) {
      var v := Finalized(depends, u);
      FinalizedLetsGo(depends, u);
      PromptedParts(v);
      AbsorbedLetGo(parent, depends, v.next);
    }
  }

  lemma {:induction false} FinalizedAllLetGo(depends: Depends, u: Tree)
    requires AllPrompted(u)
    ensures AllLetGo(depends, FinalizedAll(depends, u))
    decreases |Preorder(u)|, 2
  {
    if u.Node? {
      var v := Finalized(depends, u);
      FinalizedLetsGo(depends, u);
      PromptedParts(v);
      FinalizedAllLetGo(depends, v.next);
    }
  }

  /** If all menus have prompts, then after menu_finalize no menu at any depth that has a
      symbol and no children is followed by one that depends on it. */
  lemma {:induction false} FinalizedLetsGo(depends: Depends, t: Tree)
    requires t.Node? && AllPrompted(t)
    ensures var r := Finalized(depends, t); LetsGo(depends, r) && AllLetGo(depends, r.list)
    decreases |Preorder(t)|, 1
  {
    var s := Gathered(depends, t);
    PromptedParts(t);
    PromptedParts(s);
    PromptedStay(s.list);
    if t.list.Node? {
      FinalizedAllLetGo(depends, t.list);
    } else if t.menu.hasSymbol {
      AbsorbedLetGo(t.menu, depends, t.next);
      AbsorbsTheLongestRun(t.menu, depends, t.next);
    }
  }

  /** A menu takes in the first sibling exactly if that depends on its symbol and it has no
      children of its own. */
  lemma TakesTheFirst(depends: Depends, t: Tree)
    requires t.Node? && t.next.Node?
    ensures var r := Finalized(depends, t);
      if t.list.Nil? && t.menu.hasSymbol && depends(t.menu, t.next.menu)
      then r.list.Node? && r.list.menu == t.next.menu
      else r.next == t.next && (r.list.Nil? <==> t.list.Nil?)
  {
    var s := Gathered(depends, t);
    assert Finalized(depends, t) == Node(s.menu, Flattened(s.list), s.next);
    if t.list.Nil? && t.menu.hasSymbol {
      var (list, next) := Absorbed(t.menu, depends, t.next);
      assert s == Node(t.menu, list, next);
    }
  }

  /** menu_finalize of a menu without siblings, such as the root: the menus below it
      stay the same ones, each once, in the same order. */
  lemma FinalizedKeepsOrder(depends: Depends, t: Tree)
    requires t.Node? && t.next.Nil?
    ensures var r := Finalized(depends, t);
      r.next.Nil? && Preorder(r.list) == Preorder(t.list) && SameMenus(t, r) && Flat(r.list)
  {
    var r := Finalized(depends, t);
    NoSiblingsAppear(depends, t);
    SamePreorder(t, r);
    FinalizedIsFlat(depends, t);
    OnlyChildren(t);
    OnlyChildren(r);
  }

  lemma NoSiblingsAppear(depends: Depends, t: Tree)
    requires t.Node? && t.next.Nil?
    ensures Finalized(depends, t).next.Nil?
  {
  }

  lemma OnlyChildren(t: Tree)
    requires t.Node? && t.next.Nil?
    ensures Preorder(t.list) == Preorder(t)[1..]
  {
  }

  // ----- The walk -----

  /** A menu above the current one, and its later siblings. */
  datatype Level = Level(menu: Menu, next: Tree)

  ghost function Pending(above: seq<Level>): seq<Menu> {
    if above == [] then [] else Preorder(above[0].next) + Pending(above[1..])
  }

  ghost function Footprint(above: seq<Level>): set<Menu> {
    if above == [] then {} else {above[0].menu} + Menus(above[0].next) + Footprint(above[1..])
  }

  ghost function Parent(above: seq<Level>): Menu? {
    if above == [] then null else above[0].menu
  }

  /** The pointers of the menus above the current one, the nearest first. */
  ghost predicate Above(above: seq<Level>)
    reads Footprint(above)
  {
    above != [] ==>
      && var up := Parent(above[1..]);
      && above[0].menu.parent == up
      && Linked(above[0].menu.next, above[0].next, up)
      && Above(above[1..])
  }

  /** The menus that are still to be visited. */
  ghost function Left(u: Tree, above: seq<Level>): seq<Menu> {
    Preorder(u) + Pending(above)
  }

  lemma LeftAtFirst(root: Menu, u: Tree)
    ensures Left(u, [Level(root, Nil)]) == Preorder(u)
  {
    var above := [Level(root, Nil)];
    assert above != [] && above[1..] == [] && Preorder(above[0].next) == [];
    assert Pending(above) == Preorder(above[0].next) + Pending(above[1..]);
    assert Pending(above[1..]) == [];
  }

  lemma LeftAfter(u: Tree, above: seq<Level>)
    requires u.Node?
    ensures Left(u, above) == [u.menu] + Left(u.list, [Level(u.menu, u.next)] + above)
    ensures u.list.Nil? ==> Left(u, above) == [u.menu] + Left(u.next, above)
  {
  }

  /** Goes through the menus below the root by their list, next and parent pointers:
      each of them is visited once, in preorder, and the walk comes to an end. */
  method Walk(root: Menu, ghost t: Tree) returns (visited: seq<Menu>)
    requires Root(t) == root && Linked(root, t, null) && t.next.Nil?
    ensures visited == Preorder(t.list)
  {
    visited := [];
    var menu := root.list;
    ghost var u, above := t.list, [Level(root, Nil)];
    LeftAtFirst(root, u);
    while menu != null
      invariant Above(above) && Linked(menu, u, Parent(above))
      invariant visited + Left(u, above) == Preorder(t.list)
      invariant menu == null ==> Left(u, above) == []
      decreases |Left(u, above)|
    {
      assert visited + ([menu] + Left(u, above)[1..]) == visited + [menu] + Left(u, above)[1..];
      visited := visited + [menu];
      menu, u, above := Onward(menu, u, above);
    }
  }

  /** The menu that comes after this one: its first child, or else the next sibling of
      the nearest menu that has one. */
  method Onward(from: Menu, ghost v: Tree, ghost levels: seq<Level>)
    returns (menu: Menu?, ghost u: Tree, ghost above: seq<Level>)
    requires Above(levels) && Root(v) == from && Linked(from, v, Parent(levels))
    ensures Above(above) && Linked(menu, u, Parent(above))
    ensures Left(v, levels) == [from] + Left(u, above)
    ensures menu == null ==> Left(u, above) == []
  {
    LeftAfter(v, levels);
    if from.list != null {
      menu, u, above := from.list, v.list, [Level(from, v.next)] + levels;
      assert above[1..] == levels;
    } else if from.next != null {
      menu, u, above := from.next, v.next, levels;
    } else {
      menu, u, above := NextAbove(from, levels);
    }
  }

  /** The way up from a menu without children and later siblings. */
  method NextAbove(from: Menu, ghost levels: seq<Level>) returns (menu: Menu?, ghost u: Tree, ghost above: seq<Level>)
    requires Above(levels) && from.parent == Parent(levels)
    ensures Above(above) && Linked(menu, u, Parent(above))
    ensures Left(u, above) == Left(Nil, levels)
    ensures menu == null ==> Left(u, above) == []
  {
    above, u := levels, Nil;
    menu := from.parent;
    while menu != null
      invariant Above(above) && menu == Parent(above)
      invariant Left(Nil, above) == Left(Nil, levels)
      decreases |above|
    {
      if menu.next != null {
        menu, u, above := menu.next, above[0].next, above[1..];
        return;
      }
      menu, above := menu.parent, above[1..];
    }
  }

  /** From the parser to the file: whatever the dependencies are, menu_finalize of the
      root followed by the walk visits every menu that was added, once and in the order
      in which they were added. */
  method FinalizeAndWalk(b: MenuBuilder, depends: Depends) returns (visited: seq<Menu>)
    requires b.Valid()
    modifies b.all
    ensures visited == old(Preorder(b.built))
  {
    ghost var t := Node(b.rootmenu, b.built, Nil);
    Finalize(depends, b.rootmenu, t, null, b.all);
    FinalizedKeepsOrder(depends, t);
    visited := Walk(b.rootmenu, Finalized(depends, t));
  }
}
