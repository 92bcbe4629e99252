// Building the menu tree while the configuration files are read (_menu_init, menu_add_entry,
// menu_add_menu and menu_end_menu in menu.c), and the whole way from there to the final tree.
module MenuBuild {
  import opened Wrappers
  import opened Expr
  import opened Propagate
  import opened MenuTree
  import opened MenuFlatten
  import opened MenuEffect
  import opened MenuFinalize
  import opened MenuArrange
  import opened MenuLifted
  import opened Submenu

  // What last_entry_ptr points to.
  datatype Slot = ListOf(node: Menu) | NextOf(node: Menu)

  // A menu that has been opened and not yet closed, with its complete children so far.
  datatype Frame = Frame(menu: Menu, done: seq<Tree>)

  // The nodes below open menus, innermost first, in the order of their creation.
  ghost function Order(fs: seq<Frame>): seq<Menu> {
    if fs == [] then [] else Order(fs[1..]) + ([fs[0].menu] + Pre(fs[0].done))
  }

  // The pointers represent the open menus fs; the list of the innermost ends at open.
  ghost predicate Chain(k: Links, fs: seq<Frame>, open: Menu?) {
    fs == [] || (
      var m := fs[0].menu;
      && m in k && Seg(k, k[m].list, m, fs[0].done, open)
      && k[m].next == null && k[m].parent == (if |fs| == 1 then null else fs[1].menu)
      && Chain(k, fs[1..], m))
  }

  ghost function SlotOf(x: Frame): Slot {
    if x.done == [] then ListOf(x.menu) else NextOf(Last(x.done))
  }

  // *last_entry_ptr = m for a new node m with parent p
  ghost function Linked(k: Links, slot: Slot, m: Menu, p: Menu?): Links
    requires slot.node in k
  {
    (if slot.ListOf? then k[slot.node := k[slot.node].(list := m)] else k[slot.node := k[slot.node].(next := m)])
    [m := Link(null, null, p)]
  }

  method Store(slot: Slot, m: Menu, ghost ms: set<Menu>)
    requires slot.node in ms && m !in ms && m.next == null && m.list == null
    modifies slot.node`next, slot.node`list
    ensures Snap(ms + {m}) == Linked(old(Snap(ms)), slot, m, m.parent)
  {
    if slot.ListOf? {
      slot.node.list := m;
    } else {
      slot.node.next := m;
    }
  }

  ghost function Members(s: seq<Menu>): set<Menu> { set m | m in s }

  lemma {:induction false} MembersSnoc(s: seq<Menu>, m: Menu)
    ensures Members(s + [m]) == Members(s) + {m}
  {
  }

  lemma {:induction false} OrderParts(fs: seq<Frame>)
    requires fs != [] && Distinct(Order(fs))
    ensures Distinct(Order(fs[1..])) && Distinct(Pre(fs[0].done))
    ensures fs[0].menu !in Nodes(fs[0].done) && fs[0].menu !in Members(Order(fs[1..]))
    ensures Nodes(fs[0].done) !! Members(Order(fs[1..]))
    ensures Members(Order(fs)) == {fs[0].menu} + Nodes(fs[0].done) + Members(Order(fs[1..]))
  {
    var a, b := Order(fs[1..]), Pre(fs[0].done);
    DistinctParts(a, [fs[0].menu] + b);
    assert fs[0].menu in [fs[0].menu];
    DistinctParts([fs[0].menu], b);
    assert fs[0].menu in [fs[0].menu] + b && forall m <- b :: m in [fs[0].menu] + b;
  }

  lemma {:induction false} ChainNodes(k: Links, fs: seq<Frame>, open: Menu?)
    requires Chain(k, fs, open)
    ensures Members(Order(fs)) <= k.Keys
  {
    if fs != [] {
      SegNodes(k, k[fs[0].menu].list, fs[0].menu, fs[0].done, open);
      ChainNodes(k, fs[1..], fs[0].menu);
    }
  }

  lemma {:induction false} ChainSame(k: Links, k': Links, fs: seq<Frame>, open: Menu?)
    requires Chain(k, fs, open)
    requires forall m <- Members(Order(fs)) :: m in k && m in k' && k'[m] == k[m]
    ensures Chain(k', fs, open)
  {
    if fs != [] {
      var m := fs[0].menu;
      assert m in Order(fs) && (forall n <- Order(fs[1..]) :: n in Order(fs));
      assert forall n <- Pre(fs[0].done) :: n in Order(fs);
      SegSame(k, k', k[m].list, m, fs[0].done, open);
      ChainSame(k, k', fs[1..], m);
    }
  }

  // A new node at the end of the innermost list.
  lemma {:induction false} AddedEntry(k: Links, fs: seq<Frame>, m: Menu)
    requires fs != [] && Chain(k, fs, null) && Distinct(Order(fs)) && m !in k
    ensures SlotOf(fs[0]).node in k
    ensures var fs' := [Frame(fs[0].menu, fs[0].done + [Tree(m, [])])] + fs[1..];
      && Chain(Linked(k, SlotOf(fs[0]), m, fs[0].menu), fs', null)
      && Order(fs') == Order(fs) + [m] && Distinct(Order(fs'))
      && SlotOf(fs'[0]) == NextOf(m)
  {
    var p, done := fs[0].menu, fs[0].done;
    OrderParts(fs);
    ChainNodes(k, fs, null);
    if done != [] { LastIsNode(done); }
    var k' := Linked(k, SlotOf(fs[0]), m, p);
    SegEmpty(k', null, m);
    SegOne(k', m, p, Tree(m, []), null);
    if done == [] {
      SegEmpty(k', k'[p].list, p);
    } else {
      SegRetarget(k, k', k[p].list, p, done, null, m);
    }
    SegAppend(k', k'[p].list, p, done, m, [Tree(m, [])], null);
    ChainSame(k, k', fs[1..], p);
    AddedOrder(k, fs, m);
  }

  lemma {:induction false} AddedOrder(k: Links, fs: seq<Frame>, m: Menu)
    requires fs != [] && Distinct(Order(fs)) && Members(Order(fs)) <= k.Keys && m !in k
    ensures var fs' := [Frame(fs[0].menu, fs[0].done + [Tree(m, [])])] + fs[1..];
      fs'[1..] == fs[1..] && Order(fs') == Order(fs) + [m] && Distinct(Order(fs'))
  {
    var fs' := [Frame(fs[0].menu, fs[0].done + [Tree(m, [])])] + fs[1..];
    PreAppend(fs[0].done, [Tree(m, [])]);
    PreOne(Tree(m, []));
    assert Order(fs') == Order(fs) + [m];
    assert forall n <- Order(fs) :: n in Members(Order(fs));
  }

  // Opening the last entry.
  lemma {:induction false} Opened(k: Links, fs: seq<Frame>, d: seq<Tree>, e: Menu)
    requires fs != [] && Chain(k, fs, null) && fs[0].done == d + [Tree(e, [])]
    ensures var fs' := [Frame(e, [])] + ([Frame(fs[0].menu, d)] + fs[1..]);
      Chain(k, fs', null) && Order(fs') == Order(fs)
  {
    var inner := [Frame(fs[0].menu, d)] + fs[1..];
    assert ([Frame(e, [])] + inner)[1..] == inner && inner[1..] == fs[1..];
    SegSplit(k, k[fs[0].menu].list, fs[0].menu, d, Tree(e, []));
    PreAppend(d, [Tree(e, [])]);
    PreOne(Tree(e, []));
    assert Order(fs[1..]) + ([fs[0].menu] + Pre(d)) + ([e] + []) == Order(fs[1..]) + ([fs[0].menu] + (Pre(d) + [e]));
  }

  lemma {:induction false} SegSplit(k: Links, h: Menu?, p: Menu?, d: seq<Tree>, x: Tree)
    requires Seg(k, h, p, d + [x], null)
    ensures Seg(k, h, p, d, x.node) && x.node in k && k[x.node].parent == p && k[x.node].next == null
    ensures Seg(k, k[x.node].list, x.node, x.kids, null)
    decreases |d|
  {
    if d == [] {
      assert d + [x] == [x] && [x][1..] == [];
    } else {
      assert (d + [x])[0] == d[0] && (d + [x])[1..] == d[1..] + [x];
      SegSplit(k, k[d[0].node].next, p, d[1..], x);
    }
  }

  // Closing the innermost menu.
  lemma {:induction false} Closed(k: Links, fs: seq<Frame>)
    requires |fs| > 1 && Chain(k, fs, null)
    ensures var fs' := [Frame(fs[1].menu, fs[1].done + [Tree(fs[0].menu, fs[0].done)])] + fs[2..];
      Chain(k, fs', null) && Order(fs') == Order(fs)
  {
    var x, p := Tree(fs[0].menu, fs[0].done), fs[1].menu;
    var fs' := [Frame(p, fs[1].done + [x])] + fs[2..];
    assert fs[1..][0] == fs[1] && fs[1..][1..] == fs[2..] && fs'[1..] == fs[2..];
    SegOne(k, x.node, p, x, null);
    SegAppend(k, k[p].list, p, fs[1].done, x.node, [x], null);
    ClosedOrder(fs, fs');
  }

  lemma {:induction false} ClosedOrder(fs: seq<Frame>, fs': seq<Frame>)
    requires |fs| > 1 && fs' == [Frame(fs[1].menu, fs[1].done + [Tree(fs[0].menu, fs[0].done)])] + fs[2..]
    ensures Order(fs') == Order(fs)
  {
    hide Pre;
    var x, p := Tree(fs[0].menu, fs[0].done), fs[1].menu;
    assert fs[1..][0] == fs[1] && fs[1..][1..] == fs[2..] && fs'[1..] == fs[2..];
    PreAppend(fs[1].done, [x]);
    PreOne(x);
    Regrouped(Order(fs[2..]), p, Pre(fs[1].done), x.node, Pre(x.kids));
  }

  // A node with children is not the last of the preorder.
  lemma {:induction false} LastOfOrder(fs: seq<Frame>, d: seq<Tree>, x: Tree)
    requires fs != [] && fs[0].done == d + [x] && Distinct(Order(fs))
    ensures Order(fs) != [] && (Order(fs)[|Order(fs)| - 1] == x.node ==> x.kids == [])
  {
    hide Pre, Distinct;
    PreAppend(d, [x]);
    PreOne(x);
    Regrouped(Order(fs[1..]), fs[0].menu, Pre(d), x.node, Pre(x.kids));
    NotLast(Order(fs[1..]) + ([fs[0].menu] + Pre(d)), x.node, Pre(x.kids));
    PreEmpty(x.kids);
  }

  lemma {:induction false} PreEmpty(f: seq<Tree>)
    ensures Pre(f) == [] ==> f == []
  {
  }

  lemma Regrouped(a: seq<Menu>, p: Menu, b: seq<Menu>, m: Menu, c: seq<Menu>)
    ensures a + ([p] + (b + ([m] + c))) == (a + ([p] + b)) + ([m] + c)
  {
  }

  lemma NotLast(a: seq<Menu>, m: Menu, b: seq<Menu>)
    requires Distinct(a + ([m] + b))
    ensures var s := a + ([m] + b); s[|s| - 1] == m ==> b == []
  {
    var s := a + ([m] + b);
    assert s[|a|] == m;
  }

  // What the parser does for each construct; a menu, an if block or a choice is an entry that
  // is opened at once and closed later.
  datatype Command = Entry(sym: Option<Sym>, data: Data) | Open | Close

  // The node m is what the entry asked for.
  ghost predicate Holds(m: Menu, c: Command)
    reads m`prompt, m`dep, m`props
  {
    c.Entry? && m.sym == c.sym && Data(m.prompt, m.dep, m.props) == c.data
  }

  // The same for all nodes behind the root, whose data at some moment is d.
  ghost predicate AsAsked(created: seq<Menu>, entries: seq<Command>, d: map<Menu, Data>) {
    && |created| == 1 + |entries|
    && forall i | 0 <= i < |entries| ::
        var m, c := created[i + 1], entries[i];
        c.Entry? && m in d && m.sym == c.sym && d[m] == c.data
  }

  function With(entries: seq<Command>, c: Command): seq<Command> {
    if c.Entry? then entries + [c] else entries
  }

  // How many menus are open after a command.
  function Depth(depth: nat, c: Command): nat
    requires c.Close? ==> depth > 0
  {
    match c
    case Entry(_, _) => depth
    case Open => depth + 1
    case Close => depth - 1
  }

  ghost predicate Rooted(root: Menu, d: Data)
    reads root`prompt, root`dep, root`props
  {
    root.sym == None && Data(root.prompt, root.dep, root.props) == d
  }

  // Every entry has its node, behind the root.
  ghost predicate Filled(created: seq<Menu>, entries: seq<Command>)
    reads Members(created)`prompt, Members(created)`dep, Members(created)`props
  {
    |created| == 1 + |entries| && forall i | 0 <= i < |entries| :: Holds(created[i + 1], entries[i])
  }

  lemma {:induction false} FilledSnoc(created: seq<Menu>, entries: seq<Command>, m: Menu, c: Command)
    requires Filled(created, entries) && Holds(m, c)
    ensures Filled(created + [m], entries + [c])
  {
  }

  // The pointers k represent the open menus fs below root, and entry is the last node created.
  ghost predicate Shape(k: Links, root: Menu, entry: Menu, fs: seq<Frame>, created: seq<Menu>) {
    && fs != [] && fs[|fs| - 1].menu == root && Chain(k, fs, null)
    && created == Order(fs) && Distinct(created) && created[|created| - 1] == entry && k.Keys == Members(created)
    && (SlotOf(fs[0]) == NextOf(entry) ==> fs[0].done != [] && fs[0].done[|fs[0].done| - 1] == Tree(entry, []))
  }

  lemma {:induction false} ShapeAdded(k: Links, root: Menu, entry: Menu, fs: seq<Frame>, created: seq<Menu>, m: Menu)
    requires Shape(k, root, entry, fs, created) && m !in k
    ensures fs != [] && SlotOf(fs[0]).node in k
    ensures var fs' := [Frame(fs[0].menu, fs[0].done + [Tree(m, [])])] + fs[1..];
      Shape(Linked(k, SlotOf(fs[0]), m, fs[0].menu), root, m, fs', created + [m]) && SlotOf(fs'[0]) == NextOf(m)
  {
    hide Chain, Distinct, Order;
    AddedEntry(k, fs, m);
    SlotMember(k, fs);
    MembersSnoc(created, m);
  }

  lemma {:induction false} SlotMember(k: Links, fs: seq<Frame>)
    requires fs != []
    ensures SlotOf(fs[0]).node in Members(Order(fs))
  {
    assert fs[0].menu in [fs[0].menu] + Pre(fs[0].done);
    if fs[0].done != [] { LastIsNode(fs[0].done); }
  }

  // Allocates the node and stores it where last_entry_ptr points.
  method NewEntry(sym: Option<Sym>, d: Data, parent: Menu, slot: Slot, ghost created: seq<Menu>,
                  ghost entries: seq<Command>)
    returns (menu: Menu)
    requires slot.node in Members(created) && Filled(created, entries)
    modifies slot.node`next, slot.node`list
    ensures fresh(menu) && menu !in Members(created) && Members(created + [menu]) == Members(created) + {menu}
    ensures Snap(Members(created + [menu])) == Linked(old(Snap(Members(created))), slot, menu, parent)
    ensures menu !in old(Snap(Members(created)))
    ensures Filled(created + [menu], entries + [Entry(sym, d)])
    ensures menu.sym == sym && Data(menu.prompt, menu.dep, menu.props) == d
  {
    hide Filled;
    menu := new Menu(sym, parent);
    menu.prompt, menu.dep, menu.props := d.prompt, d.dep, d.props;
    Store(slot, menu, Members(created));
    FilledSnoc(created, entries, menu, Entry(sym, d));
    MembersSnoc(created, menu);
  }

  // ----- how deep the entries are -----

  // How many menus each node of f is in, in preorder, if the roots are in d.
  ghost function Levels(f: seq<Tree>, d: nat): (r: seq<nat>)
    ensures |r| == |Pre(f)|
  {
    if f == [] then [] else [d] + Levels(f[0].kids, d + 1) + Levels(f[1..], d)
  }

  // The same for the nodes below open menus, with the root in none.
  ghost function OpenLevels(fs: seq<Frame>): seq<nat> {
    if fs == [] then [] else OpenLevels(fs[1..]) + ([|fs| - 1] + Levels(fs[0].done, |fs|))
  }

  // What the commands ask for, if depth menus are open.
  function EntryLevels(cs: seq<Command>, depth: nat): seq<nat> {
    if cs == [] then []
    else
      match cs[0]
      case Entry(_, _) => [depth + 1] + EntryLevels(cs[1..], depth)
      case Open => EntryLevels(cs[1..], depth + 1)
      case Close => EntryLevels(cs[1..], if depth > 0 then depth - 1 else 0)
  }

  lemma {:induction false} LevelsSnoc(f: seq<Tree>, x: Tree, d: nat)
    ensures Levels(f + [x], d) == Levels(f, d) + ([d] + Levels(x.kids, d + 1))
  {
    if f == [] {
      assert [] + [x] == [x] && [x][1..] == [] && Levels([], d) == [];
    } else {
      assert (f + [x])[0] == f[0] && (f + [x])[1..] == f[1..] + [x];
      LevelsSnoc(f[1..], x, d);
    }
  }

  lemma {:induction false} AddedLevels(fs: seq<Frame>, m: Menu)
    requires fs != []
    ensures OpenLevels([Frame(fs[0].menu, fs[0].done + [Tree(m, [])])] + fs[1..]) == OpenLevels(fs) + [|fs|]
  {
    var gs := [Frame(fs[0].menu, fs[0].done + [Tree(m, [])])] + fs[1..];
    assert gs[1..] == fs[1..] && Levels([], |fs| + 1) == [];
    LevelsSnoc(fs[0].done, Tree(m, []), |fs|);
  }

  lemma {:induction false} OpenedLevels(fs: seq<Frame>, d: seq<Tree>, m: Menu)
    requires fs != [] && fs[0].done == d + [Tree(m, [])]
    ensures OpenLevels([Frame(m, [])] + ([Frame(fs[0].menu, d)] + fs[1..])) == OpenLevels(fs)
  {
    var hs := [Frame(fs[0].menu, d)] + fs[1..];
    var gs := [Frame(m, [])] + hs;
    assert gs[1..] == hs && hs[1..] == fs[1..] && Levels([], |fs| + 1) == [];
    LevelsSnoc(d, Tree(m, []), |fs|);
  }

  lemma {:induction false} ClosedLevels(fs: seq<Frame>)
    requires |fs| > 1
    ensures OpenLevels([Frame(fs[1].menu, fs[1].done + [Tree(fs[0].menu, fs[0].done)])] + fs[2..]) == OpenLevels(fs)
  {
    hide Levels;
    var x := Tree(fs[0].menu, fs[0].done);
    var gs := [Frame(fs[1].menu, fs[1].done + [x])] + fs[2..];
    assert gs[1..] == fs[2..] == fs[1..][1..];
    LevelsSnoc(fs[1].done, x, |fs| - 1);
  }

  lemma {:induction false} LevelsFrom(f: seq<Tree>, d: nat)
    ensures forall l <- Levels(f, d) :: l >= d
    ensures Levels(f, d) != [] ==> Levels(f, d)[0] == d
    decreases f
  {
    if f != [] {
      LevelsFrom(f[0].kids, d + 1);
      LevelsFrom(f[1..], d);
    }
  }

  // Nodes in preorder and how deep they are make one forest only.
  lemma {:induction false} OneForest(f: seq<Tree>, g: seq<Tree>, d: nat)
    requires Pre(f) == Pre(g) && Levels(f, d) == Levels(g, d)
    ensures f == g
    decreases f
  {
    hide Levels, Pre;
    Ends(f);
    Ends(g);
    if f != [] && g != [] {
      var a, b := Levels(f[0].kids, d + 1), Levels(g[0].kids, d + 1);
      var r, s := Levels(f[1..], d), Levels(g[1..], d);
      LevelsFrom(f[0].kids, d + 1);
      LevelsFrom(g[0].kids, d + 1);
      LevelsFrom(f[1..], d);
      LevelsFrom(g[1..], d);
      LevelsCons(f, d);
      LevelsCons(g, d);
      SameCut(a, r, b, s, d);
      SameParts(f, g);
      OneForest(f[0].kids, g[0].kids, d + 1);
      OneForest(f[1..], g[1..], d);
      assert f == [f[0]] + f[1..] && g == [g[0]] + g[1..];
    }
  }

  lemma Ends(f: seq<Tree>)
    ensures Pre(f) == [] <==> f == []
  {
  }

  lemma LevelsCons(f: seq<Tree>, d: nat)
    requires f != []
    ensures Levels(f, d) == [d] + (Levels(f[0].kids, d + 1) + Levels(f[1..], d))
  {
  }

  lemma SameCut(a: seq<nat>, r: seq<nat>, b: seq<nat>, s: seq<nat>, d: nat)
    requires [d] + (a + r) == [d] + (b + s)
    requires (forall l <- a :: l > d) && (forall l <- b :: l > d) && (r != [] ==> r[0] == d) && (s != [] ==> s[0] == d)
    ensures a == b && r == s
  {
    var x, y := a + r, b + s;
    assert ([d] + x)[1..] == x && ([d] + y)[1..] == y;
    NoShorter(a, r, b, s, d);
    NoShorter(b, s, a, r, d);
    assert a == x[..|a|] && b == y[..|b|] && r == x[|a|..] && s == y[|b|..];
  }

  lemma NoShorter(a: seq<nat>, r: seq<nat>, b: seq<nat>, s: seq<nat>, d: nat)
    requires a + r == b + s && (forall l <- b :: l > d) && (r != [] ==> r[0] == d)
    ensures |a| >= |b|
  {
    var x, y := a + r, b + s;
    assert |x| == |a| + |r| && |y| == |b| + |s|;
    forall k | 0 <= k < |b|
      ensures y[k] > d
    {
      assert (b + s)[k] == b[k] && b[k] in b;
    }
    if r != [] { assert x[|a|] == d; }
  }

  lemma SameParts(f: seq<Tree>, g: seq<Tree>)
    requires f != [] && g != [] && Pre(f) == Pre(g) && |Pre(f[0].kids)| == |Pre(g[0].kids)|
    ensures f[0].node == g[0].node && Pre(f[0].kids) == Pre(g[0].kids) && Pre(f[1..]) == Pre(g[1..])
  {
    var a, r, b, s := Pre(f[0].kids), Pre(f[1..]), Pre(g[0].kids), Pre(g[1..]);
    var x, y := [f[0].node] + a + r, [g[0].node] + b + s;
    assert x == y && x[0] == f[0].node && y[0] == g[0].node;
    assert a == x[1..1 + |a|] && b == y[1..1 + |b|] && r == x[1 + |a|..] && s == y[1 + |b|..];
  }

  class Builder {
    const root: Menu
    ghost const rootData: Data
    var currentEntry: Menu
    var currentMenu: Menu
    var lastEntry: Slot
    // the open menus, innermost first, all nodes in the order of their creation, and what has
    // been asked for
    ghost var frames: seq<Frame>
    ghost var created: seq<Menu>
    ghost var entries: seq<Command>

    ghost predicate Valid()
      reads this, root, Members(created)
    {
      && frames != [] && currentMenu == frames[0].menu && lastEntry == SlotOf(frames[0])
      && Shape(Snap(Members(created)), root, currentEntry, frames, created)
      && Filled(created, entries) && Rooted(root, rootData)
    }

    // _menu_init, with the static root menu
    constructor (d: Data)
      ensures Valid() && fresh(root) && created == [root] && frames == [Frame(root, [])] && entries == []
      ensures rootData == d
    {
      var r := new Menu(None, null);
      r.prompt, r.dep, r.props := d.prompt, d.dep, d.props;
      root, currentEntry, currentMenu, lastEntry := r, r, r, ListOf(r);
      rootData := d;
      frames, created, entries := [Frame(r, [])], [r], [];
      new;
      assert frames[1..] == [] && Order([]) == [];
      assert Snap(Members(created))[root] == Link(null, null, null);
    }

    // menu_add_entry, with the dependencies and properties the entry gets until the next one
    method AddEntry(sym: Option<Sym>, d: Data)
      requires Valid()
      modifies this, Members(created)`next, Members(created)`list
      ensures Valid() && lastEntry == NextOf(currentEntry) && fresh(Members(created) - old(Members(created)))
      ensures created == old(created) + [currentEntry] && entries == old(entries) + [Entry(sym, d)]
      ensures frames == [Frame(old(frames)[0].menu, old(frames)[0].done + [Tree(currentEntry, [])])] + old(frames)[1..]
    {
      hide Seg, Pre, Distinct, Chain, Order, Filled, Shape, SlotOf, Linked, Members, Holds;
      SlotIsMember();
      var menu := NewEntry(sym, d, currentMenu, lastEntry, created, entries);
      ShapeAdded(old(Snap(Members(created))), root, currentEntry, frames, created, menu);
      lastEntry := NextOf(menu);
      currentEntry := menu;
      frames := [Frame(frames[0].menu, frames[0].done + [Tree(menu, [])])] + frames[1..];
      created, entries := created + [menu], entries + [Entry(sym, d)];
    }

    lemma {:induction false} SlotIsMember()
      requires Valid()
      ensures lastEntry.node in Members(created) && frames != []
    {
      SlotMember(Snap(Members(created)), frames);
    }

    // menu_add_menu: the entry that has just been added becomes the current menu
    method AddMenu() returns (menu: Menu)
      requires Valid() && lastEntry == NextOf(currentEntry)
      modifies this
      ensures Valid() && menu == currentMenu == old(currentEntry)
      ensures created == old(created) && entries == old(entries)
      ensures var x := old(frames)[0];
        && x.done != [] && x.done[|x.done| - 1] == Tree(menu, [])
        && frames == [Frame(menu, [])] + ([Frame(x.menu, x.done[..|x.done| - 1])] + old(frames)[1..])
    {
      hide Seg, Pre, Distinct, Order;
      ghost var done := frames[0].done;
      ghost var d := done[..|done| - 1];
      assert done == d + [Tree(currentEntry, [])];
      Opened(Snap(Members(created)), frames, d, currentEntry);
      frames := [Frame(currentEntry, [])] + ([Frame(frames[0].menu, d)] + frames[1..]);
      lastEntry := ListOf(currentEntry);
      currentMenu := currentEntry;
      menu := currentMenu;
    }

    // menu_end_menu
    method EndMenu()
      requires Valid() && |frames| > 1
      modifies this
      ensures Valid() && created == old(created) && entries == old(entries)
      ensures var fs := old(frames);
        frames == [Frame(fs[1].menu, fs[1].done + [Tree(fs[0].menu, fs[0].done)])] + fs[2..]
    {
      hide Seg, Pre, Distinct, Order;
      ghost var k := Snap(Members(created));
      Closed(k, frames);
      lastEntry := NextOf(currentMenu);
      assert k[currentMenu] == Link(currentMenu.next, currentMenu.list, currentMenu.parent);
      currentMenu := currentMenu.parent;
      ghost var x, d := Tree(frames[0].menu, frames[0].done), frames[1].done;
      frames := [Frame(frames[1].menu, d + [x])] + frames[2..];
      LastOfOrder(frames, d, x);
    }

    method Execute(c: Command)
      requires Valid() && frames != [] && (c.Open? ==> lastEntry == NextOf(currentEntry)) && (c.Close? ==> |frames| > 1)
      modifies this, Members(created)`next, Members(created)`list
      ensures Valid() && fresh(Members(created) - old(Members(created)))
      ensures entries == With(old(entries), c)
      ensures c.Entry? ==> lastEntry == NextOf(currentEntry)
      ensures |frames| == Depth(|old(frames)| - 1, c) + 1
      // an entry is put into the innermost menu, and nothing else moves
      ensures OpenLevels(frames) == old(OpenLevels(frames)) + if c.Entry? then [|old(frames)|] else []
    {
      hide OpenLevels, Levels, Seg, Pre, Distinct, Chain, Order, Holds, SlotOf, Shape, Filled;
      match c {
        case Entry(sym, d) =>
          AddEntry(sym, d);
          AddedLevels(old(frames), currentEntry);
        case Open =>
          var menu := AddMenu();
          ghost var x := old(frames)[0];
          assert x.done == x.done[..|x.done| - 1] + [Tree(menu, [])];
          OpenedLevels(old(frames), x.done[..|x.done| - 1], menu);
        case Close =>
          EndMenu();
          ClosedLevels(old(frames));
      }
    }
  }

  // ----- whole configurations -----

  // depth menus are open; added says that the last command was an entry.
  predicate Bracketed(cs: seq<Command>, depth: nat, added: bool) {
    if cs == [] then depth == 0
    else
      match cs[0]
      case Entry(_, _) => Bracketed(cs[1..], depth, true)
      case Open => added && Bracketed(cs[1..], depth + 1, false)
      case Close => depth > 0 && Bracketed(cs[1..], depth - 1, false)
  }

  function Entries(cs: seq<Command>): seq<Command> {
    if cs == [] then [] else (if cs[0].Entry? then [cs[0]] else []) + Entries(cs[1..])
  }

  method Build(cs: seq<Command>, rootData: Data) returns (b: Builder, ghost f: seq<Tree>)
    requires Bracketed(cs, 0, false)
    ensures fresh(b) && fresh(Members(b.created)) && Distinct(b.created)
    // the tree has the nodes in the order of their creation
    ensures Seg(Snap(Members(b.created)), b.root, null, [Tree(b.root, f)], null)
    ensures b.created == Pre([Tree(b.root, f)]) == [b.root] + Pre(f) && b.root in Members(b.created)
    // in the menus that were open, and every entry has its node
    ensures Levels(f, 1) == EntryLevels(cs, 0)
    ensures AsAsked(b.created, Entries(cs), DataOf(Members(b.created)))
    ensures b.root.sym == None && Data(b.root.prompt, b.root.dep, b.root.props) == rootData
  {
    hide Seg, Pre, Distinct, Chain, Order, Holds, OpenLevels, Levels, EntryLevels;
    b := Run(cs, rootData);
    f := b.frames[0].done;
    assert b.frames == [b.frames[0]];
    RootLevels(b.frames[0]);
    assert ([0] + Levels(f, 1))[1..] == Levels(f, 1) && ([0] + EntryLevels(cs, 0))[1..] == EntryLevels(cs, 0);
    OnlyFrame(Snap(Members(b.created)), b.frames[0]);
    TreeOfRoot(Snap(Members(b.created)), b.root, f);
    FilledData(b.created, b.entries);
  }

  lemma {:induction false} FilledData(created: seq<Menu>, entries: seq<Command>)
    requires Filled(created, entries)
    ensures AsAsked(created, entries, DataOf(Members(created)))
  {
    assert forall i | 0 <= i < |entries| :: Holds(created[i + 1], entries[i]);
  }

  lemma {:induction false} OnlyFrame(k: Links, x: Frame)
    requires Chain(k, [x], null)
    ensures Order([x]) == [x.menu] + Pre(x.done) && x.menu in Members(Order([x]))
    ensures x.menu in k && k[x.menu].next == null && k[x.menu].parent == null
    ensures Seg(k, k[x.menu].list, x.menu, x.done, null)
  {
    assert [x][1..] == [];
    assert x.menu in [x.menu];
  }

  lemma {:induction false} BracketedStep(cs: seq<Command>, i: nat, depth: nat, added: bool)
    requires i < |cs| && Bracketed(cs[i..], depth, added)
    ensures (cs[i].Open? ==> added) && (cs[i].Close? ==> depth > 0)
    ensures Bracketed(cs[i + 1..], Depth(depth, cs[i]), cs[i].Entry?)
  {
    assert cs[i..][0] == cs[i] && cs[i..][1..] == cs[i + 1..];
  }

  // Where the parser stands before command i.
  ghost predicate Reached(cs: seq<Command>, rootData: Data, i: nat, depth: nat, added: bool, b: Builder)
    reads b, b.root, Members(b.created)
  {
    && i <= |cs| && Bracketed(cs[i..], depth, added)
    && b.Valid() && b.entries == Entries(cs[..i]) && b.rootData == rootData
    && |b.frames| == depth + 1 && (added ==> b.lastEntry == NextOf(b.currentEntry))
    && OpenLevels(b.frames) + EntryLevels(cs[i..], depth) == [0] + EntryLevels(cs, 0)
  }

  lemma {:induction false} EntryLevelsStep(cs: seq<Command>, i: nat, depth: nat, l: seq<nat>)
    requires i < |cs| && (cs[i].Close? ==> depth > 0)
    ensures l + EntryLevels(cs[i..], depth)
      == (l + if cs[i].Entry? then [depth + 1] else []) + EntryLevels(cs[i + 1..], Depth(depth, cs[i]))
  {
    assert cs[i..][0] == cs[i] && cs[i..][1..] == cs[i + 1..];
  }

  method Step(cs: seq<Command>, rootData: Data, i: nat, depth: nat, added: bool, b: Builder)
    returns (depth': nat, added': bool)
    requires i < |cs| && Reached(cs, rootData, i, depth, added, b)
    modifies b, Members(b.created)`next, Members(b.created)`list
    ensures Reached(cs, rootData, i + 1, depth', added', b) && fresh(Members(b.created) - old(Members(b.created)))
  {
    hide Seg, Pre, Distinct, Chain, Order, Holds, SlotOf, Members, Builder.Valid, Bracketed, Entries, With, Depth,
         OpenLevels, EntryLevels;
    EntriesSnoc(cs, i);
    BracketedStep(cs, i, depth, added);
    EntryLevelsStep(cs, i, depth, OpenLevels(b.frames));
    b.Execute(cs[i]);
    depth', added' := Depth(depth, cs[i]), cs[i].Entry?;
  }

  method Run(cs: seq<Command>, rootData: Data) returns (b: Builder)
    requires Bracketed(cs, 0, false)
    ensures b.Valid() && fresh(b) && fresh(Members(b.created)) && |b.frames| == 1 && b.entries == Entries(cs)
    ensures b.rootData == rootData && OpenLevels(b.frames) == [0] + EntryLevels(cs, 0)
  {
    b := new Builder(rootData);
    var i, depth: nat, added := 0, 0, false;
    assert cs[..0] == [] && cs[0..] == cs;
    RootLevels(b.frames[0]);
    assert b.frames == [b.frames[0]];
    while i < |cs|
      invariant Reached(cs, rootData, i, depth, added, b) && fresh(b) && fresh(Members(b.created))
      decreases |cs| - i
    {
      hide Reached, Members, Builder.Valid;
      depth, added := Step(cs, rootData, i, depth, added, b);
      i := i + 1;
    }
    assert cs[..i] == cs && EntryLevels(cs[i..], depth) == [];
  }

  lemma {:induction false} RootLevels(x: Frame)
    ensures OpenLevels([x]) == [0] + Levels(x.done, 1)
  {
    assert [x][1..] == [] && OpenLevels([]) == [];
  }

  // Following next pointers from h leads to m.
  ghost predicate OnList(k: Links, h: Menu?, m: Menu, steps: nat) {
    h != null && h in k && (h == m || (steps > 0 && OnList(k, k[h].next, m, steps - 1)))
  }

  // The parent of m is the node whose list holds m.
  ghost predicate Held(k: Links, m: Menu) {
    && m in k && k[m].parent != null && k[m].parent in k
    && exists steps: nat :: OnList(k, k[k[m].parent].list, m, steps)
  }

  // In a represented forest, that holds of every node.
  lemma {:induction false} SegHeld(k: Links, p: Menu, h: Menu?, f: seq<Tree>, before: nat)
    requires p in k && Seg(k, h, p, f, null)
    requires forall m, steps: nat | OnList(k, h, m, steps) :: OnList(k, k[p].list, m, before + steps)
    ensures forall m <- Nodes(f) :: Held(k, m)
    decreases f
  {
    if f != [] {
      var m := f[0].node;
      SubNodes(f);
      assert OnList(k, h, m, 0) && OnList(k, k[p].list, m, before + 0);
      SegHeld(k, m, k[m].list, f[0].kids, 0);
      forall n, steps: nat | OnList(k, k[m].next, n, steps)
        ensures OnList(k, k[p].list, n, before + 1 + steps)
      {
        assert OnList(k, h, n, steps + 1);
      }
      SegHeld(k, p, k[m].next, f[1..], before + 1);
    }
  }

  // No node of f keeps children without a prompt.
  lemma {:induction false} CleanMeans(k: Links, prompted: set<Menu>, h: Menu?, p: Menu?, f: seq<Tree>, e: Menu?)
    requires Seg(k, h, p, f, e) && Clean(prompted, f)
    ensures forall m <- Nodes(f) :: m in k && (k[m].list != null ==> m in prompted)
    decreases f
  {
    if f != [] {
      var m := f[0].node;
      SubNodes(f);
      SegStart(k, k[m].list, m, f[0].kids);
      CleanMeans(k, prompted, k[m].list, m, f[0].kids, null);
      CleanMeans(k, prompted, k[m].next, p, f[1..], e);
    }
  }

  lemma {:induction false} TreeOfRoot(k: Links, root: Menu, f: seq<Tree>)
    requires root in k && k[root].next == null && k[root].parent == null && Seg(k, k[root].list, root, f, null)
    ensures Seg(k, root, null, [Tree(root, f)], null) && Pre([Tree(root, f)]) == [root] + Pre(f)
  {
    SegEmpty(k, null, null);
    SegOne(k, root, null, Tree(root, f), null);
    PreOne(Tree(root, f));
  }

  // What menu_finalize(&rootmenu) achieves, without the intermediate notions.
  lemma {:induction false} LoadDone(modules: Sym, prompted: set<Menu>, k: Links, s0: Facts, s: Facts, root: Menu,
                                    f: seq<Tree>, t: Tree, left: seq<Tree>, j: nat)
    requires Done(modules, prompted, k, s0, s, root, null, [Tree(root, f)], t, left, j) && Prompts(s.data, prompted)
    requires k.Keys == s.data.Keys
    ensures Seg(k, root, null, [t], null) && Pre([t]) == Pre([Tree(root, f)]) && t.node == root
    ensures forall m <- Nodes(t.kids) ::
      Held(k, m) && m in k && (k[m].list != null ==> m in s.data && s.data[m].HasPrompt())
    ensures Pre([t]) == [root] + Pre(t.kids)
    ensures Effect(modules, [Tree(root, f)], s0, s) && Final(prompted, s.data, [Tree(root, f)]) == (t, [])
  {
    assert left == [] && [t] + left == [t] && [t][1..] == [];
    PartlyAll(modules, [Tree(root, f)], j, s0, s);
    PreOne(t);
    SegHeld(k, root, k[root].list, t.kids, 0);
    CleanMeans(k, prompted, k[root].list, root, t.kids, null);
  }

  // conf_parse, from _menu_init to the end of menu_finalize(&rootmenu).  The final tree t has
  // the nodes in the order of their creation, each hanging where its parent pointer says; every
  // node has been finalised exactly once, only the root may keep children without a prompt, and
  // the dependencies have been passed down the tree f that was built.  The final tree is what
  // Final makes of f and the final data.
  method Load(cs: seq<Command>, rootData: Data, modules: Sym)
    returns (b: Builder, fin: Finalizer, ghost f: seq<Tree>, ghost t: Tree, ghost before: map<Menu, Data>)
    requires Bracketed(cs, 0, false)
    ensures b.root in before && before[b.root] == rootData && AsAsked(b.created, Entries(cs), before)
    ensures b.root.sym == None && before.Keys == Members(b.created)
    ensures Distinct(b.created) && b.created == Pre([Tree(b.root, f)]) == [b.root] + Pre(f)
    ensures Levels(f, 1) == EntryLevels(cs, 0)
    ensures var k := Snap(Members(b.created));
      && Seg(k, b.root, null, [t], null) && Pre([t]) == b.created && t.node == b.root
      && (forall m <- Nodes(t.kids) :: Held(k, m))
    // only a menu whose prompt has a text holds others
    ensures forall m <- Nodes(t.kids) | m.list != null ::
      m.prompt.Some? && m.prompt.value < |m.props| && m.props[m.prompt.value].hasText
    ensures Logged([], fin.log, b.created)
    ensures Effect(modules, [Tree(b.root, f)], Facts(before, map[], map[], map[]), fin.Now(Members(b.created)))
    ensures var d := DataOf(Members(b.created)); Final(PromptedIn(d), d, [Tree(b.root, f)]) == (t, [])
  {
    hide Levels, EntryLevels, Seg, Pre, Distinct, Done, Prompts, Effect, Logged, AsAsked, Held, Nodes, Clean,
         Final, PromptedIn;
    b, f := Build(cs, rootData);
    fin := new Finalizer(modules);
    ghost var all, tree := Members(b.created), [Tree(b.root, f)];
    ghost var s0 := fin.Now(all);
    before := s0.data;
    ghost var prompted := PromptedOf(all);
    ghost var left, j;
    NodesMembers(tree);
    t, left, j := fin.FinalizeMenu(b.root, all, null, tree, prompted);
    LoadDone(modules, prompted, Snap(all), s0, fin.Now(all), b.root, f, t, left, j);
    OnHeap(all, Nodes(t.kids));
    PromptsExactly(fin.Now(all).data, prompted);
  }

  lemma PromptsExactly(d: map<Menu, Data>, prompted: set<Menu>)
    requires Prompts(d, prompted) && prompted <= d.Keys
    ensures prompted == PromptedIn(d)
  {
  }

  // After loading, the items of every automatic submenu are sound below its symbol: f2 is any list
  // of siblings from some node on in the tree that was built.
  lemma {:induction false} LoadedSubmenus(modules: Sym, root: Menu, f: seq<Tree>, s0: Facts, s: Facts, f2: seq<Tree>,
                                          env: Env)
    requires Effect(modules, [Tree(root, f)], s0, s) && Nodes(f) <= s0.data.Keys && Nodes(f) <= s.data.Keys
    requires root in s0.data && s0.data[root].ItemDep() == None
    requires Sane(env) && forall m <- Nodes(f) :: WellFormedData(s0.data[m])
    requires f2 != [] && Nodes(f2) <= Nodes(f) && f2[0].kids == [] && f2[0].node.sym.Some?
    requires IsLogic(f2[0].node.sym.value)
    ensures f2[0].node in s.data
    ensures forall x <- Kids(PromptedIn(s.data), s.data, f2).0 ::
      x.node in s.data && SoundUnder(s.data[x.node], s.data[f2[0].node].PromptDep(), f2[0].node.sym.value, env)
  {
    hide Eval, WellFormedData, Sane, Inherits, Below, Direct, SoundUnder, Kids, Nodes, Roots;
    assert Settled(modules, [Tree(root, f)], s0.data, s.data);
    NoneFormed();
    InheritsForms(modules, None, f, s0.data, s.data);
    RootsAreNodes(f2);
    SubmenuItemsSound(PromptedIn(s.data), s.data, f2, env);
  }

  // And in the final tree: whatever hangs below a symbol is visible only where an item sound below
  // it is, if each symbol without a prompt is n where its dependencies are, and what has been moved
  // under it depends on it.  MenuLifted.LiftedEscapes shows what happens otherwise.
  lemma {:induction false} LoadedFinalItems(modules: Sym, root: Menu, f: seq<Tree>, s0: Facts, s: Facts, env: Env)
    requires Effect(modules, [Tree(root, f)], s0, s) && Nodes(f) <= s0.data.Keys && Nodes(f) <= s.data.Keys
    requires root in s0.data && s0.data[root].ItemDep() == None
    requires Sane(env) && forall m <- Nodes(f) :: WellFormedData(s0.data[m])
    requires SupportsSymbols(PromptedIn(s.data), s.data, env, f)
    ensures AllSound(PromptedIn(s.data), s.data, env, f)
  {
    hide Eval, WellFormedData, Sane, Inherits, Below, Direct, SupportsSymbols, AllSound, Nodes, PromptedIn, Named;
    assert Settled(modules, [Tree(root, f)], s0.data, s.data);
    NoneFormed();
    InheritsForms(modules, None, f, s0.data, s.data);
    SupportedWhen(modules, None, PromptedIn(s.data), f, s0.data, s.data, env);
    SupportedIsSound(PromptedIn(s.data), s.data, env, f);
  }

  lemma {:induction false} NodesMembers(f: seq<Tree>)
    ensures Nodes(f) == Members(Pre(f))
  {
  }

  // After loading, every dependency and every condition in the tree is n exactly when the
  // conjunction of all dependencies around it, as written, is n.
  lemma {:induction false} LoadedMeaning(modules: Sym, root: Menu, f: seq<Tree>, s0: Facts, s: Facts, env: Env)
    requires Effect(modules, [Tree(root, f)], s0, s) && Nodes(f) <= s0.data.Keys && Nodes(f) <= s.data.Keys
    requires root in s0.data && s0.data[root].ItemDep() == None
    requires Sane(env) && forall m <- Nodes(f) :: WellFormedData(s0.data[m])
    ensures Means(modules, YES, f, s0.data, s.data, env)
  {
    hide Eval, WellFormedData, Sane, Inherits, Below, Direct;
    assert Settled(modules, [Tree(root, f)], s0.data, s.data);
    InheritsMeans(modules, None, YES, f, s0.data, s.data, env);
  }

  lemma {:induction false} OnHeap(all: set<Menu>, ms: set<Menu>)
    requires forall m <- ms ::
      m in Snap(all) && (Snap(all)[m].list != null ==> m in DataOf(all) && DataOf(all)[m].HasPrompt())
    ensures forall m <- ms :: m.list != null ==> m.HasPrompt()
  {
    forall m <- ms | m.list != null
      ensures m.HasPrompt()
    {
      assert Snap(all)[m] == Link(m.next, m.list, m.parent);
      assert DataOf(all)[m] == Data(m.prompt, m.dep, m.props);
    }
  }

  lemma {:induction false} PromptedOf(all: set<Menu>) returns (prompted: set<Menu>)
    ensures Prompts(DataOf(all), prompted) && prompted <= all
  {
    prompted := set m | m in all && m.HasPrompt();
    assert forall m <- all :: DataOf(all)[m].HasPrompt() == m.HasPrompt();
  }

  lemma {:induction false} EntriesSnoc(cs: seq<Command>, i: nat)
    requires i < |cs|
    ensures Entries(cs[..i + 1]) == With(Entries(cs[..i]), cs[i])
  {
    assert cs[..i + 1] == cs[..i] + [cs[i]];
    EntriesAppend(cs[..i], [cs[i]]);
    assert [cs[i]][1..] == [];
  }

  lemma {:induction false} EntriesAppend(a: seq<Command>, b: seq<Command>)
    ensures Entries(a + b) == Entries(a) + Entries(b)
  {
    if a == [] {
      assert a + b == b;
    } else {
      assert (a + b)[0] == a[0] && (a + b)[1..] == a[1..] + b;
      EntriesAppend(a[1..], b);
    }
  }
}
