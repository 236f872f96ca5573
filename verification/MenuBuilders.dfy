// How the parser builds the menu tree: menu_add_entry, menu_add_menu and menu_end_menu
// of scripts/kconfig/menu.c.
module MenuBuilders {

  import opened MenuTree

  /** What last_entry_ptr points to: the list or the next field of a menu. */
  datatype Place = ListOf(menu: Menu) | NextOf(menu: Menu)

  // ----- The place where the tree grows -----

  /** The menu that is open at a depth below p: from each chain of siblings the way down
      leads through the last one. */
  ghost function OpenAt(p: Menu, chain: Tree, depth: nat): Menu
    decreases chain, depth
  {
    if depth == 0 || chain.Nil? then p
    else if chain.next.Node? then OpenAt(p, chain.next, depth)
    else OpenAt(chain.menu, chain.list, depth - 1)
  }

  /** The end of its children. */
  ghost function EndAt(p: Menu, chain: Tree, depth: nat): Place
    decreases chain, depth
  {
    if chain.Nil? then ListOf(p)
    else if chain.next.Node? then EndAt(p, chain.next, depth)
    else if depth == 0 then NextOf(chain.menu)
    else EndAt(chain.menu, chain.list, depth - 1)
  }

  ghost function DepthOf(chain: Tree): nat {
    if chain.Nil? then 0
    else if chain.next.Node? then DepthOf(chain.next)
    else 1 + DepthOf(chain.list)
  }

  /** A new menu at that place. */
  ghost function Grown(chain: Tree, depth: nat, m: Menu): (r: Tree)
    ensures Preorder(r) == Preorder(chain) + [m]
    decreases chain, depth
  {
    if chain.Nil? then Node(m, Nil, Nil)
    else if chain.next.Node? then Node(chain.menu, chain.list, Grown(chain.next, depth, m))
    else if depth == 0 then Node(chain.menu, chain.list, Node(m, Nil, Nil))
    else Node(chain.menu, Grown(chain.list, depth - 1, m), Nil)
  }

  lemma {:induction false} GrownPlace(p: Menu, chain: Tree, depth: nat, m: Menu)
    requires depth <= DepthOf(chain)
    ensures var r := Grown(chain, depth, m);
      OpenAt(p, r, depth) == OpenAt(p, chain, depth) && EndAt(p, r, depth) == NextOf(m) && DepthOf(r) == depth + 1
    decreases chain, depth
  {
    assert DepthOf(Node(m, Nil, Nil)) == 1;
    if chain.Node? {
      if chain.next.Node? {
        GrownPlace(p, chain.next, depth, m);
      } else if depth > 0 {
        GrownPlace(chain.menu, chain.list, depth - 1, m);
      }
    }
  }

  /** Opening the menu just added. */
  lemma {:induction false} Deeper(p: Menu, chain: Tree, depth: nat, m: Menu)
    requires depth <= DepthOf(chain)
    ensures var r := Grown(chain, depth, m);
      OpenAt(p, r, depth + 1) == m && EndAt(p, r, depth + 1) == ListOf(m)
    decreases chain, depth
  {
    assert OpenAt(p, Node(m, Nil, Nil), 1) == m && EndAt(p, Node(m, Nil, Nil), 1) == ListOf(m);
    if chain.Node? {
      if chain.next.Node? {
        Deeper(p, chain.next, depth, m);
      } else if depth > 0 {
        Deeper(chain.menu, chain.list, depth - 1, m);
      }
    }
  }

  /** Closing a menu. */
  lemma {:induction false} Shallower(p: Menu, chain: Tree, depth: nat, m: Menu?)
    requires 0 < depth <= DepthOf(chain) && Linked(m, chain, p)
    ensures var open := OpenAt(p, chain, depth);
      open in Menus(chain) && EndAt(p, chain, depth - 1) == NextOf(open) && open.parent == OpenAt(p, chain, depth - 1)
    decreases chain, depth
  {
    if chain.next.Node? {
      Shallower(p, chain.next, depth, chain.menu.next);
    } else if depth > 1 {
      Shallower(chain.menu, chain.list, depth - 1, chain.menu.list);
    }
  }

  lemma {:induction false} EndIsInside(p: Menu, chain: Tree, depth: nat)
    ensures var e := EndAt(p, chain, depth);
      if chain.Nil? then e == ListOf(p) else e.menu in Menus(chain)
    ensures OpenAt(p, chain, depth) in Menus(chain) || OpenAt(p, chain, depth) == p
    decreases chain, depth
  {
    if chain.Node? {
      if chain.next.Node? {
        EndIsInside(p, chain.next, depth);
      } else if depth > 0 {
        EndIsInside(chain.menu, chain.list, depth - 1);
      }
    }
  }

  // ----- The pointers as a value -----

  datatype Fields = Fields(next: Menu?, parent: Menu?, list: Menu?)

  ghost function Snapshot(s: set<Menu>): map<Menu, Fields>
    reads s
  {
    map x | x in s :: Fields(x.next, x.parent, x.list)
  }

  /** Linked, for the pointers in h. */
  ghost predicate LinkedIn(h: map<Menu, Fields>, m: Menu?, t: Tree, p: Menu?) {
    match t
    case Nil => m == null
    case Node(x, list, next) =>
      && m == x && x in h && h[x].parent == p
      && LinkedIn(h, h[x].list, list, x) && LinkedIn(h, h[x].next, next, p)
  }

  lemma {:induction false} SnapshotLinked(s: set<Menu>, m: Menu?, t: Tree, p: Menu?)
    requires Menus(t) <= s
    ensures LinkedIn(Snapshot(s), m, t, p) <==> Linked(m, t, p)
    decreases t
  {
    if t.Node? {
      SnapshotLinked(s, t.menu.list, t.list, t.menu);
      SnapshotLinked(s, t.menu.next, t.next, p);
    }
  }

  /** The fields of a menu when m is put at the place e. */
  ghost function Put(x: Menu, f: Fields, e: Place, m: Menu): Fields {
    if e == ListOf(x) then f.(list := m) else if e == NextOf(x) then f.(next := m) else f
  }

  /** The pointers after m has been put at the place e. */
  ghost predicate Updated(h: map<Menu, Fields>, g: map<Menu, Fields>, e: Place, m: Menu) {
    h.Keys <= g.Keys && forall x | x in h :: g[x] == Put(x, h[x], e, m)
  }

  lemma {:induction false} ElsewhereLinked(h: map<Menu, Fields>, g: map<Menu, Fields>, e: Place, n: Menu,
                                           m: Menu?, t: Tree, p: Menu?)
    requires Updated(h, g, e, n) && LinkedIn(h, m, t, p) && e.menu !in Menus(t)
    ensures LinkedIn(g, m, t, p)
  {
    if t.Node? {
      ElsewhereLinked(h, g, e, n, h[t.menu].list, t.list, t.menu);
      ElsewhereLinked(h, g, e, n, h[t.menu].next, t.next, p);
    }
  }

  /** The tree with a new menu at the end of an open one. */
  lemma {:induction false} GrownLinked(h: map<Menu, Fields>, g: map<Menu, Fields>, n: Menu,
                                       m: Menu?, chain: Tree, p: Menu, depth: nat)
    requires depth <= DepthOf(chain) && Distinct(chain) && p !in Menus(chain)
    requires LinkedIn(h, m, chain, p) && Updated(h, g, EndAt(p, chain, depth), n)
    requires n in g && g[n] == Fields(null, OpenAt(p, chain, depth), null)
    ensures LinkedIn(g, if chain.Nil? then n else m, Grown(chain, depth, n), p)
    decreases chain, depth
  {
    if chain.Node? {
      var x, e := chain.menu, EndAt(p, chain, depth);
      EndIsInside(p, chain.next, depth);
      if chain.next.Node? {
        ElsewhereLinked(h, g, e, n, h[x].list, chain.list, x);
        GrownLinked(h, g, n, h[x].next, chain.next, p, depth);
      } else if depth == 0 {
        ElsewhereLinked(h, g, e, n, h[x].list, chain.list, x);
      } else {
        EndIsInside(x, chain.list, depth - 1);
        GrownLinked(h, g, n, h[x].list, chain.list, x, depth - 1);
      }
    }
  }

  /** The menus all form a tree below the root, with right parent pointers. */
  ghost predicate Whole(root: Menu, t: Tree, all: set<Menu>)
    reads all
  {
    var u := Node(root, t, Nil);
    all == Menus(u) && Distinct(u) && Linked(root, u, null)
  }

  /** *last_entry_ptr = menu */
  method PutAt(e: Place, menu: Menu, ghost root: Menu, ghost t: Tree, ghost depth: nat, ghost all: set<Menu>)
    requires Whole(root, t, all)
    requires depth <= DepthOf(t) && e == EndAt(root, t, depth)
    requires menu !in all && menu.parent == OpenAt(root, t, depth) && menu.list == menu.next == null
    modifies e.menu
    ensures Whole(root, Grown(t, depth, menu), all + {menu})
  {
    ghost var h := Snapshot(all);
    SnapshotLinked(all, root.list, t, root);
    EndIsInside(root, t, depth);
    match e {
      case ListOf(x) => x.list := menu;
      case NextOf(x) => x.next := menu;
    }
    ghost var g := Snapshot(all + {menu});
    GrownLinked(h, g, menu, h[root].list, t, root, depth);
    GrownIsDistinct(t, depth, menu);
    SnapshotLinked(all + {menu}, root.list, Grown(t, depth, menu), root);
  }

  lemma {:induction false} GrownIsDistinct(t: Tree, depth: nat, m: Menu)
    requires Distinct(t) && m !in Menus(t)
    ensures var r := Grown(t, depth, m); Distinct(r) && Menus(r) == Menus(t) + {m}
    decreases t, depth
  {
    if t.Node? {
      if t.next.Node? {
        GrownIsDistinct(t.next, depth, m);
      } else if depth > 0 {
        GrownIsDistinct(t.list, depth - 1, m);
      }
    }
  }

  // ----- The parser's calls -----

  /** The static variables current_menu, current_entry and last_entry_ptr. */
  class MenuBuilder {
    const rootmenu: Menu
    var currentMenu: Menu
    var currentEntry: Menu
    var lastEntry: Place
    // What has been built below the root, the number of menus that are open, and all menus.
    ghost var built: Tree
    ghost var depth: nat
    ghost var all: set<Menu>

    /** The pointers form a tree with right parent pointers at every moment. */
    ghost predicate Valid()
      reads this, all
    {
      && Whole(rootmenu, built, all) && depth <= DepthOf(built)
      && currentMenu == OpenAt(rootmenu, built, depth) && lastEntry == EndAt(rootmenu, built, depth)
    }

    /** The current entry was added last, with no call in between. */
    ghost predicate JustAdded()
      reads this
    {
      && depth < DepthOf(built)
      && currentEntry == OpenAt(rootmenu, built, depth + 1) && EndAt(rootmenu, built, depth + 1) == ListOf(currentEntry)
    }

    /** _menu_init. */
    constructor (rootmenu: Menu)
      requires rootmenu.list == null && rootmenu.next == null && rootmenu.parent == null
      ensures Valid() && built == Nil && depth == 0 && this.rootmenu == rootmenu && all == {rootmenu}
    {
      this.rootmenu, currentMenu, currentEntry := rootmenu, rootmenu, rootmenu;
      lastEntry := ListOf(rootmenu);
      built, depth, all := Nil, 0, {rootmenu};
    }

    /** menu_add_entry: the new menu comes behind all menus so far. */
    method AddEntry(hasSymbol: bool, hasPrompt: bool) returns (menu: Menu)
      requires Valid()
      modifies this, lastEntry.menu
      ensures Valid() && JustAdded() && fresh(menu) && currentEntry == menu && depth == old(depth)
      ensures menu.parent == old(currentMenu) == currentMenu
      ensures menu.hasSymbol == hasSymbol && menu.hasPrompt == hasPrompt
      ensures Preorder(built) == old(Preorder(built)) + [menu] && all == old(all) + {menu}
    {
      hide Menus, Distinct, Linked, Grown, DepthOf, EndAt, OpenAt, Preorder;
      ghost var before := built;
      EndIsInside(rootmenu, built, depth);
      menu := new Menu(hasSymbol, hasPrompt);
      menu.parent := currentMenu;
      PutAt(lastEntry, menu, rootmenu, built, depth, all);
      lastEntry := NextOf(menu);
      currentEntry := menu;
      built, all := Grown(built, depth, menu), all + {menu};
      GrownPlace(rootmenu, before, depth, menu);
      Deeper(rootmenu, before, depth, menu);
    }

    /** menu_add_menu: the entry just added becomes the open menu. */
    method AddMenu() returns (menu: Menu)
      requires Valid() && JustAdded()
      modifies this
      ensures Valid() && menu == currentMenu == currentEntry == old(currentEntry) && depth == old(depth) + 1
      ensures built == old(built) && all == old(all)
    {
      lastEntry := ListOf(currentEntry);
      currentMenu := currentEntry;
      depth := depth + 1;
      menu := currentMenu;
    }

    /** menu_end_menu: back to the menu above. */
    method EndMenu()
      requires Valid() && depth > 0
      modifies this
      ensures Valid() && depth == old(depth) - 1 && built == old(built) && all == old(all)
      ensures old(currentMenu).parent == currentMenu && lastEntry == NextOf(old(currentMenu))
    {
      Shallower(rootmenu, built, depth, rootmenu.list);
      lastEntry := NextOf(currentMenu);
      currentMenu := currentMenu.parent;
      depth := depth - 1;
    }
  }
}
