// Menu nodes linked by next, list and parent pointers, and the trees they represent (expr.h,
// struct menu; the walk of conf_write).
module MenuTree {
  import opened Wrappers
  import opened Expr
  import opened Symbols

  // A property that belongs to a menu node (prop->menu is the node); target is the symbol a
  // select or imply names, expr the value of a default.
  datatype MenuProp = MenuProp(kind: PropKind, hasText: bool, cond: Option<Expr>, target: Option<Sym>,
                               expr: Option<Expr>)

  class Menu {
    var next: Menu?
    var parent: Menu?
    var list: Menu?
    const sym: Option<Sym>
    // prompt is the position of the prompt among props
    var prompt: Option<nat>
    var dep: Option<Expr>
    var props: seq<MenuProp>

    // memset(menu, 0, sizeof(*menu)) and the fields menu_add_entry sets
    constructor (sym: Option<Sym>, parent: Menu?)
      ensures next == null && list == null && this.parent == parent && this.sym == sym
      ensures prompt == None && dep == None && props == []
    {
      next, list, this.parent := null, null, parent;
      this.sym := sym;
      prompt, dep, props := None, None, [];
    }

    // menu->prompt && menu->prompt->text
    predicate HasPrompt()
      reads this`prompt, this`props
    {
      prompt.Some? && prompt.value < |props| && props[prompt.value].hasText
    }

    // menu->prompt ? menu->prompt->visible.expr : NULL
    function PromptDep(): Option<Expr>
      reads this`prompt, this`props
    {
      if prompt.Some? && prompt.value < |props| then props[prompt.value].cond else None
    }

    // menu->prompt ? menu->prompt->visible.expr : menu->dep
    function ItemDep(): Option<Expr>
      reads this`prompt, this`props, this`dep
    {
      if prompt.Some? && prompt.value < |props| then props[prompt.value].cond else dep
    }
  }

  datatype Tree = Tree(node: Menu, kids: seq<Tree>)

  // The nodes of a list of trees in preorder.
  ghost function Pre(f: seq<Tree>): seq<Menu> {
    if f == [] then [] else [f[0].node] + Pre(f[0].kids) + Pre(f[1..])
  }

  ghost function Nodes(f: seq<Tree>): set<Menu> { set m | m in Pre(f) }

  ghost predicate Distinct(s: seq<Menu>) {
    forall i, j | 0 <= i < j < |s| :: s[i] != s[j]
  }

  // The pointers of a set of nodes at one moment.
  datatype Link = Link(next: Menu?, list: Menu?, parent: Menu?)

  type Links = map<Menu, Link>

  ghost function Snap(ms: set<Menu>): Links
    reads ms`next, ms`list, ms`parent
  {
    map m | m in ms :: if m in ms then Link(m.next, m.list, m.parent) else Link(null, null, null)
  }

  // The pointers from h on, up to but not including e, represent the trees f, whose roots all
  // have parent p.
  ghost predicate Seg(k: Links, h: Menu?, p: Menu?, f: seq<Tree>, e: Menu?)
    decreases f
  {
    if f == [] then h == e
    else
      var m := f[0].node;
      && m in k && h == m && k[m].parent == p
      && Seg(k, k[m].list, m, f[0].kids, null)
      && Seg(k, k[m].next, p, f[1..], e)
  }

  lemma SubNodes(f: seq<Tree>)
    requires f != []
    ensures f[0].node in Nodes(f) && Nodes(f[0].kids) <= Nodes(f) && Nodes(f[1..]) <= Nodes(f)
    ensures Nodes(f) == {f[0].node} + Nodes(f[0].kids) + Nodes(f[1..])
  {
  }

  lemma {:induction false} PreAppend(f: seq<Tree>, g: seq<Tree>)
    ensures Pre(f + g) == Pre(f) + Pre(g)
  {
    if f == [] {
      assert f + g == g;
    } else {
      assert (f + g)[0] == f[0] && (f + g)[1..] == f[1..] + g;
      PreAppend(f[1..], g);
    }
  }

  lemma PreOne(t: Tree)
    ensures Pre([t]) == [t.node] + Pre(t.kids)
  {
    assert [t][1..] == [];
  }

  lemma {:induction false} SegAppend(k: Links, h: Menu?, p: Menu?, f: seq<Tree>, m: Menu?, g: seq<Tree>, e: Menu?)
    requires Seg(k, h, p, f, m) && Seg(k, m, p, g, e)
    ensures Seg(k, h, p, f + g, e)
  {
    if f == [] {
      assert f + g == g;
    } else {
      assert (f + g)[0] == f[0] && (f + g)[1..] == f[1..] + g;
      SegAppend(k, k[f[0].node].next, p, f[1..], m, g, e);
    }
  }

  lemma {:induction false} SegOne(k: Links, h: Menu, p: Menu?, t: Tree, e: Menu?)
    requires h == t.node && h in k && k[h].parent == p && k[h].next == e && Seg(k, k[h].list, h, t.kids, null)
    ensures Seg(k, h, p, [t], e)
  {
    assert [t][1..] == [];
  }

  ghost function Last(f: seq<Tree>): Menu
    requires f != []
  {
    f[|f| - 1].node
  }

  // The last root of a nonempty segment points at its end.
  lemma {:induction false} SegLast(k: Links, h: Menu?, p: Menu?, f: seq<Tree>, e: Menu?)
    requires Seg(k, h, p, f, e) && f != []
    ensures Last(f) in k && k[Last(f)].next == e && k[Last(f)].parent == p && Last(f) in Nodes(f)
  {
    if |f| > 1 { SegLast(k, k[f[0].node].next, p, f[1..], e); }
  }

  lemma {:induction false} LastIsNode(f: seq<Tree>)
    requires f != []
    ensures Last(f) in Nodes(f)
  {
    if |f| > 1 {
      LastIsNode(f[1..]);
      assert Last(f[1..]) == Last(f);
    }
  }

  lemma DistinctParts(a: seq<Menu>, b: seq<Menu>)
    requires Distinct(a + b)
    ensures Distinct(a) && Distinct(b)
    ensures forall x <- a :: x !in b
  {
    forall i, j | 0 <= i < j < |a|
      ensures a[i] != a[j]
    {
      assert a[i] == (a + b)[i] && a[j] == (a + b)[j];
    }
    forall i, j | 0 <= i < j < |b|
      ensures b[i] != b[j]
    {
      assert b[i] == (a + b)[|a| + i] && b[j] == (a + b)[|a| + j];
    }
    forall i, j | 0 <= i < |a| && 0 <= j < |b|
      ensures a[i] != b[j]
    {
      assert a[i] == (a + b)[i] && b[j] == (a + b)[|a| + j];
    }
  }

  // In trees without sharing, all pieces are apart.
  lemma {:induction false} Apart(f: seq<Tree>)
    requires f != [] && Distinct(Pre(f))
    ensures Distinct(Pre(f[0].kids)) && Distinct(Pre(f[1..]))
    ensures f[0].node !in Nodes(f[0].kids) && f[0].node !in Nodes(f[1..])
    ensures Nodes(f[0].kids) !! Nodes(f[1..])
    ensures Last(f) !in Nodes(f[0].kids)
  {
    var a, b := Pre(f[0].kids), Pre(f[1..]);
    assert Pre(f) == [f[0].node] + (a + b);
    assert f[0].node in [f[0].node];
    DistinctParts([f[0].node], a + b);
    DistinctParts(a, b);
    if |f| > 1 {
      LastIsNode(f[1..]);
      assert Last(f[1..]) == Last(f);
    }
  }

  // Segments only depend on the links of their nodes.
  lemma {:induction false} SegSame(k: Links, k': Links, h: Menu?, p: Menu?, f: seq<Tree>, e: Menu?)
    requires Seg(k, h, p, f, e)
    requires forall m <- Nodes(f) :: m in k && m in k' && k[m] == k'[m]
    ensures Seg(k', h, p, f, e)
    decreases f
  {
    if f != [] {
      var m := f[0].node;
      SubNodes(f);
      assert k[m] == k'[m];
      SegSame(k, k', k[m].list, m, f[0].kids, null);
      SegSame(k, k', k[m].next, p, f[1..], e);
    }
  }

  lemma {:induction false} SegNodes(k: Links, h: Menu?, p: Menu?, f: seq<Tree>, e: Menu?)
    requires Seg(k, h, p, f, e)
    ensures Nodes(f) <= k.Keys
    decreases f
  {
    if f != [] {
      SubNodes(f);
      SegNodes(k, k[f[0].node].list, f[0].node, f[0].kids, null);
      SegNodes(k, k[f[0].node].next, p, f[1..], e);
    }
  }

  // Redirecting the next pointer of the last root moves the end of the segment.
  lemma {:induction false} SegRetarget(k: Links, k': Links, h: Menu?, p: Menu?, f: seq<Tree>, e: Menu?, e2: Menu?)
    requires Seg(k, h, p, f, e) && f != [] && Distinct(Pre(f))
    requires forall m <- Nodes(f) :: m in k && m in k'
    requires forall m <- Nodes(f) :: k'[m] == if m == Last(f) then k[m].(next := e2) else k[m]
    ensures Seg(k', h, p, f, e2)
  {
    var m := f[0].node;
    SubNodes(f);
    Apart(f);
    SegSame(k, k', k[m].list, m, f[0].kids, null);
    if |f| > 1 {
      LastIsNode(f[1..]);
      assert Last(f[1..]) == Last(f) && m != Last(f);
      SegRetarget(k, k', k[m].next, p, f[1..], e, e2);
    } else {
      assert f[1..] == [];
    }
  }

  // Giving all roots a new parent.
  lemma {:induction false} SegReparent(k: Links, k': Links, h: Menu?, p: Menu?, q: Menu?, f: seq<Tree>, e: Menu?)
    requires Seg(k, h, p, f, e) && Distinct(Pre(f))
    requires forall m <- Nodes(f) :: m in k && m in k'
    requires forall m <- Nodes(f) :: k'[m] == if m in Roots(f) then k[m].(parent := q) else k[m]
    ensures Seg(k', h, q, f, e)
  {
    if f != [] {
      var m := f[0].node;
      SubNodes(f);
      Apart(f);
      RootsAreNodes(f[1..]);
      SegSame(k, k', k[m].list, m, f[0].kids, null);
      SegReparent(k, k', k[m].next, p, q, f[1..], e);
    }
  }

  ghost function Roots(f: seq<Tree>): set<Menu> {
    if f == [] then {} else {f[0].node} + Roots(f[1..])
  }

  lemma {:induction false} RootsAreNodes(f: seq<Tree>)
    ensures Roots(f) <= Nodes(f)
  {
    if f != [] {
      SubNodes(f);
      RootsAreNodes(f[1..]);
    }
  }

  // ----- the walk of conf_write and conf_write_defconfig -----

  // An open ancestor of the current node, with the trees that follow it in its list.
  datatype Open = Open(node: Menu, rest: seq<Tree>)

  // p and its ancestors up to the root are the nodes of up.
  ghost predicate Up(k: Links, p: Menu?, up: seq<Open>) {
    if up == [] then p == null
    else
      var m := up[0].node;
      && m in k && p == m
      && Seg(k, k[m].next, k[m].parent, up[0].rest, null)
      && Up(k, k[m].parent, up[1..])
  }

  // What is still to be visited after the subtree of the current node.
  ghost function Pending(up: seq<Open>): seq<Menu> {
    if up == [] then [] else Pre(up[0].rest) + Pending(up[1..])
  }

  // The state of a walk: at menu, where the trees f begin, below the open ancestors.
  ghost predicate AtMenu(k: Links, menu: Menu?, f: seq<Tree>, up: seq<Open>) {
    if menu == null then f == [] && Pending(up) == []
    else f != [] && menu in k && Seg(k, menu, k[menu].parent, f, null) && Up(k, k[menu].parent, up)
  }

  lemma {:induction false} SegStart(k: Links, h: Menu?, p: Menu?, f: seq<Tree>)
    requires Seg(k, h, p, f, null)
    ensures h == null <==> f == []
    ensures h != null ==> h in k && k[h].parent == p
  {
  }

  // The node behind the first of a preorder.
  ghost function Following(s: seq<Menu>): Menu? { if |s| < 2 then null else s[1] }

  lemma {:induction false} FollowingIs(k: Links, menu: Menu, s: seq<Menu>, menu': Menu?, f': seq<Tree>, up': seq<Open>)
    requires AtMenu(k, menu', f', up') && s == [menu] + (Pre(f') + Pending(up'))
    ensures menu' == Following(s) && [menu] + Pre(f') + Pending(up') == s
  {
    assert s[1..] == Pre(f') + Pending(up');
  }

  // What lies ahead of a node: its children, its siblings, and what follows its ancestors.
  lemma {:induction false} Ahead(f: seq<Tree>, up: seq<Open>)
    requires f != []
    ensures Pre(f) + Pending(up) == [f[0].node] + (Pre(f[0].kids) + Pending([Open(f[0].node, f[1..])] + up))
    ensures f[0].kids == [] ==> Pre(f) + Pending(up) == [f[0].node] + (Pre(f[1..]) + Pending(up))
    ensures f[0].kids == [] && f[1..] == [] ==> Pre(f) + Pending(up) == [f[0].node] + Pending(up)
  {
    var o := Open(f[0].node, f[1..]);
    assert ([o] + up)[1..] == up;
    assert Pre(f) == [f[0].node] + (Pre(f[0].kids) + Pre(f[1..]));
  }

  // The step the writers take from one menu to the next, without a stack: into the list, else
  // to the next, else up until an ancestor has a next.
  method Advance(menu: Menu, ghost ms: set<Menu>, ghost f: seq<Tree>, ghost up: seq<Open>)
    returns (menu': Menu?, ghost f': seq<Tree>, ghost up': seq<Open>)
    requires AtMenu(Snap(ms), menu, f, up)
    ensures menu' == Following(Pre(f) + Pending(up))
    ensures [menu] + Pre(f') + Pending(up') == Pre(f) + Pending(up)
    ensures AtMenu(Snap(ms), menu', f', up')
  {
    ghost var k := Snap(ms);
    assert k[menu] == Link(menu.next, menu.list, menu.parent);
    SegStart(k, menu.list, menu, f[0].kids);
    SegStart(k, menu.next, menu.parent, f[1..]);
    Ahead(f, up);
    if menu.list != null {
      menu', f', up' := menu.list, f[0].kids, [Open(menu, f[1..])] + up;
      assert up'[1..] == up;
    } else if menu.next != null {
      menu', f', up' := menu.next, f[1..], up;
    } else {
      menu', f', up' := menu.parent, [], up;
      while menu' != null
        invariant f' == [] && Up(Snap(ms), menu', up')
        invariant Pending(up') == Pending(up)
        decreases |up'|
      {
        SegStart(k, menu'.next, menu'.parent, up'[0].rest);
        f', up' := up'[0].rest, up'[1..];
        if menu'.next != null {
          menu' := menu'.next;
          break;
        }
        menu' := menu'.parent;
      }
    }
    FollowingIs(Snap(ms), menu, Pre(f) + Pending(up), menu', f', up');
  }

  // The walk from the first child of the root visits every node below the root once, in
  // preorder.
  method Walk(root: Menu, ghost ms: set<Menu>, ghost f: seq<Tree>) returns (visited: seq<Menu>)
    requires root in ms && root.next == null && root.parent == null && Seg(Snap(ms), root.list, root, f, null)
    ensures visited == Pre(f)
  {
    visited := [];
    var menu := root.list;
    ghost var g, up := f, [Open(root, [])];
    assert up[1..] == [];
    SegStart(Snap(ms), root.list, root, f);
    assert Snap(ms)[root] == Link(root.next, root.list, root.parent);
    while menu != null
      invariant AtMenu(Snap(ms), menu, g, up)
      invariant visited + (Pre(g) + Pending(up)) == Pre(f)
      decreases |Pre(g) + Pending(up)|
    {
      ghost var seen, before := visited, Pre(g) + Pending(up);
      visited := visited + [menu];
      ghost var m := menu;
      menu, g, up := Advance(menu, ms, g, up);
      assert before == [m] + (Pre(g) + Pending(up));
      assert seen + before == visited + (Pre(g) + Pending(up));
    }
  }
}
