// Flattening the children of menus without a prompt (the last loop of menu_finalize).
module MenuFlatten {
  import opened MenuTree

  // ----- trees that need no further flattening -----

  // No node without a prompt keeps children.
  ghost predicate Clean(prompted: set<Menu>, f: seq<Tree>) {
    f == [] || (
      && (f[0].kids != [] ==> f[0].node in prompted)
      && Clean(prompted, f[0].kids) && Clean(prompted, f[1..]))
  }

  // The same below the roots.
  ghost predicate CleanBelow(prompted: set<Menu>, f: seq<Tree>) {
    f == [] || (Clean(prompted, f[0].kids) && CleanBelow(prompted, f[1..]))
  }

  lemma {:induction false} CleanAppend(prompted: set<Menu>, f: seq<Tree>, g: seq<Tree>)
    requires Clean(prompted, f) && Clean(prompted, g)
    ensures Clean(prompted, f + g)
  {
    if f == [] {
      assert f + g == g;
    } else {
      assert (f + g)[0] == f[0] && (f + g)[1..] == f[1..] + g;
      CleanAppend(prompted, f[1..], g);
    }
  }

  lemma {:induction false} CleanBelowAppend(prompted: set<Menu>, f: seq<Tree>, g: seq<Tree>)
    requires CleanBelow(prompted, f) && CleanBelow(prompted, g)
    ensures CleanBelow(prompted, f + g)
  {
    if f == [] {
      assert f + g == g;
    } else {
      assert (f + g)[0] == f[0] && (f + g)[1..] == f[1..] + g;
      CleanBelowAppend(prompted, f[1..], g);
    }
  }

  lemma {:induction false} CleanIsCleanBelow(prompted: set<Menu>, f: seq<Tree>)
    requires Clean(prompted, f)
    ensures CleanBelow(prompted, f)
  {
    if f != [] { CleanIsCleanBelow(prompted, f[1..]); }
  }

  // ----- flattening -----

  ghost predicate PromptsOf(ms: set<Menu>, prompted: set<Menu>)
    reads ms`prompt, ms`props
  {
    forall m <- ms :: m in prompted <==> m.HasPrompt()
  }

  lemma {:induction false} SegCons(k: Links, m: Menu, p: Menu?, t: Tree, g: seq<Tree>, e: Menu?)
    requires t.node == m && m in k && k[m].parent == p
    requires Seg(k, k[m].list, m, t.kids, null) && Seg(k, k[m].next, p, g, e)
    ensures Seg(k, m, p, [t] + g, e)
  {
    assert ([t] + g)[1..] == g;
  }

  lemma ReparentStep(k: Links, head: Menu, q: Menu, done: seq<Tree>, last: Menu, p: Menu?, todo: seq<Tree>)
    requires Seg(k, head, q, done, last) && Seg(k, last, p, todo, null) && todo != []
    requires Distinct(Pre(todo)) && Nodes(done) !! Nodes(todo)
    ensures last == todo[0].node && last in k && last in Nodes(todo)
    ensures var k' := k[last := k[last].(parent := q)];
      && Seg(k', head, q, done + [todo[0]], k[last].next) && Seg(k', k[last].next, p, todo[1..], null)
    ensures k[last].next == null <==> todo[1..] == []
    ensures Nodes(done + [todo[0]]) !! Nodes(todo[1..]) && Distinct(Pre(todo[1..]))
    ensures Nodes(done + [todo[0]]) + Nodes(todo[1..]) == Nodes(done) + Nodes(todo)
  {
    var k' := k[last := k[last].(parent := q)];
    var x, r := todo[0], todo[1..];
    SegNodes(k, head, q, done, last);
    SegNodes(k, last, p, todo, null);
    Apart(todo);
    SubNodes(todo);
    SegSame(k, k', head, q, done, last);
    SegSame(k, k', k[last].list, last, x.kids, null);
    SegSame(k, k', k[last].next, p, r, null);
    SegOne(k', last, q, x, k[last].next);
    SegAppend(k', head, q, done, last, [x], k[last].next);
    SegStart(k', k[last].next, p, r);
    PreAppend(done, [x]);
    PreOne(x);
  }

  // The loop that makes q the parent of the nodes from head on; returns the last of them.
  method Reparent(head: Menu, q: Menu, ghost all: set<Menu>, ghost p: Menu?, ghost f: seq<Tree>) returns (last: Menu)
    requires Seg(Snap(all), head, p, f, null) && f != [] && Distinct(Pre(f))
    modifies Nodes(f)`parent
    ensures last == Last(f) && Seg(Snap(all), head, q, f, null)
  {
    hide Seg, Pre, Distinct;
    last := head;
    ghost var done, todo := [], f;
    SegEmpty(Snap(all), head, q);
    while true
      invariant todo != [] && f == done + todo
      invariant Distinct(Pre(todo)) && Nodes(done) !! Nodes(todo) && Nodes(f) == Nodes(done) + Nodes(todo)
      invariant Seg(Snap(all), head, q, done, last) && Seg(Snap(all), last, p, todo, null)
      decreases |todo|
    {
      ghost var k := Snap(all);
      ReparentStep(k, head, q, done, last, p, todo);
      last.parent := q;
      assert Snap(all) == k[last := k[last].(parent := q)];
      assert k[last].next == last.next;
      if last.next == null {
        assert f == done + [todo[0]];
        break;
      }
      assert done + todo == (done + [todo[0]]) + todo[1..];
      done, todo := done + [todo[0]], todo[1..];
      last := last.next;
    }
  }

  lemma {:induction false} SegEmpty(k: Links, h: Menu?, p: Menu?)
    ensures Seg(k, h, p, [], h)
    ensures Pre([]) == []
  {
  }

  lemma {:induction false} LiftStep(k: Links, menu: Menu, parent: Menu, x: Tree, r: seq<Tree>)
    requires menu == x.node && x.kids != [] && menu in k && k[menu].parent == parent
    requires Seg(k, k[menu].list, parent, x.kids, null) && Seg(k, k[menu].next, parent, r, null)
    requires Distinct(Pre([x] + r))
    ensures Last(x.kids) in k && Last(x.kids) != menu
    ensures var last := Last(x.kids);
      var k' := k[last := k[last].(next := k[menu].next)][menu := Link(k[menu].list, null, parent)];
      Seg(k', menu, parent, [Tree(menu, [])] + (x.kids + r), null)
  {
    var f := x.kids;
    assert ([x] + r)[1..] == r && ([x] + r)[0] == x;
    SegLast(k, k[menu].list, parent, f, null);
    SegNodes(k, k[menu].list, parent, f, null);
    SegNodes(k, k[menu].next, parent, r, null);
    Apart([x] + r);
    var last := Last(f);
    var k' := k[last := k[last].(next := k[menu].next)][menu := Link(k[menu].list, null, parent)];
    SegRetarget(k, k', k[menu].list, parent, f, null, k[menu].next);
    SegSame(k, k', k[menu].next, parent, r, null);
    SegAppend(k', k[menu].list, parent, f, k[menu].next, r, null);
    SegEmpty(k', null, menu);
    SegCons(k', menu, parent, Tree(menu, []), f + r, null);
  }

  lemma {:induction false} ReparentKeeps(k: Links, k': Links, menu: Menu, parent: Menu, x: Tree, r: seq<Tree>)
    requires menu == x.node && Seg(k, menu, parent, [x] + r, null) && Distinct(Pre([x] + r))
    requires k.Keys == k'.Keys && forall m <- k | m !in Nodes(x.kids) :: k'[m] == k[m]
    ensures menu in k && Seg(k, k[menu].list, menu, x.kids, null) && (k[menu].list != null ==> x.kids != [])
    ensures Distinct(Pre(x.kids)) && menu in k' && k'[menu] == k[menu] && k[menu].parent == parent
    ensures Nodes(x.kids) <= Nodes([x]) && menu in Nodes([x])
    ensures Seg(k', k[menu].next, parent, r, null)
  {
    assert ([x] + r)[1..] == r && ([x] + r)[0] == x;
    SegNodes(k, menu, parent, [x] + r, null);
    SubNodes([x] + r);
    SubNodes([x]);
    Apart([x] + r);
    SegStart(k, k[menu].list, menu, x.kids);
    SegSame(k, k', k[menu].next, parent, r, null);
  }

  // The children of menu, the first node of the segment, move behind it: the inner loop of the
  // flattening step and the three assignments after it.
  method Lift(menu: Menu, parent: Menu, ghost all: set<Menu>, ghost x: Tree, ghost r: seq<Tree>)
    requires menu == x.node && menu in all && Seg(Snap(all), menu, parent, [x] + r, null) && Distinct(Pre([x] + r))
    requires menu.list != null
    modifies Nodes([x])`next, Nodes([x])`list, Nodes([x])`parent
    ensures Seg(Snap(all), menu, parent, [Tree(menu, [])] + (x.kids + r), null)
  {
    hide Seg, Pre, Distinct;
    ghost var k0 := Snap(all);
    ReparentKeeps(k0, k0, menu, parent, x, r);
    var last := Reparent(menu.list, parent, all, menu, x.kids);
    ghost var k1 := Snap(all);
    ReparentKeeps(k0, k1, menu, parent, x, r);
    LiftStep(k1, menu, parent, x, r);
    LastIsNode(x.kids);
    LiftLinks(menu, last, all);
  }

  // The three assignments.
  method LiftLinks(menu: Menu, last: Menu, ghost all: set<Menu>)
    requires menu in all && last in all && menu != last
    modifies menu`next, menu`list, last`next
    ensures var k := old(Snap(all));
      Snap(all) == k[last := k[last].(next := k[menu].next)][menu := Link(k[menu].list, null, k[menu].parent)]
  {
    ghost var k := Snap(all);
    last.next := menu.next;
    menu.next := menu.list;
    menu.list := null;
    assert Snap(all) == k[last := k[last].(next := k[menu].next)][menu := Link(k[menu].list, null, k[menu].parent)];
  }

  // Where a loop over siblings stands: the trees before menu and those from menu on.
  ghost predicate Sweep(k: Links, head: Menu?, parent: Menu, done: seq<Tree>, menu: Menu?, todo: seq<Tree>) {
    && Seg(k, head, parent, done, menu) && Seg(k, menu, parent, todo, null)
    && (menu == null <==> todo == [])
    && Distinct(Pre(done) + Pre(todo))
  }

  lemma {:induction false} SweepStart(k: Links, head: Menu?, parent: Menu, f: seq<Tree>)
    requires Seg(k, head, parent, f, null) && Distinct(Pre(f))
    ensures Sweep(k, head, parent, [], head, f) && Pre([]) + Pre(f) == Pre(f)
  {
    SegStart(k, head, parent, f);
    assert Pre([]) == [] && [] + Pre(f) == Pre(f);
  }

  lemma {:induction false} SweepHead(k: Links, head: Menu?, parent: Menu, done: seq<Tree>, menu: Menu, todo: seq<Tree>)
    requires Sweep(k, head, parent, done, menu, todo)
    ensures todo != [] && menu == todo[0].node && menu in k && k[menu].parent == parent && todo == [todo[0]] + todo[1..]
    ensures Distinct(Pre(todo)) && Nodes(done) !! Nodes(todo)
    ensures Nodes([todo[0]]) <= Nodes(todo) && menu in Nodes(todo) && Nodes(todo) <= k.Keys
    ensures Pre(todo) == Pre([todo[0]]) + Pre(todo[1..])
  {
    DistinctParts(Pre(done), Pre(todo));
    SegNodes(k, menu, parent, todo, null);
    PreAppend([todo[0]], todo[1..]);
    assert todo == [todo[0]] + todo[1..];
    SubNodes(todo);
  }

  // The pointers change only at and behind menu, where they now represent [x] + r, a
  // rearrangement with the same preorder; the sweep goes on behind x.
  lemma {:induction false} SweepStep(k: Links, k': Links, head: Menu?, parent: Menu, done: seq<Tree>, menu: Menu,
                                     todo: seq<Tree>, x: Tree, r: seq<Tree>)
    requires Sweep(k, head, parent, done, menu, todo)
    requires Seg(k', menu, parent, [x] + r, null) && Pre([x] + r) == Pre(todo)
    requires k.Keys == k'.Keys && forall m <- k | m !in Nodes(todo) :: k'[m] == k[m]
    ensures menu == x.node && menu in k' && Sweep(k', head, parent, done + [x], k'[menu].next, r)
    ensures Pre(done + [x]) + Pre(r) == Pre(done) + Pre(todo)
    ensures |Pre(r)| < |Pre(todo)|
  {
    SweepHead(k, head, parent, done, menu, todo);
    assert ([x] + r)[1..] == r && ([x] + r)[0] == x;
    SegNodes(k, head, parent, done, menu);
    SegSame(k, k', head, parent, done, menu);
    SegOne(k', menu, parent, x, k'[menu].next);
    SegAppend(k', head, parent, done, menu, [x], k'[menu].next);
    SegStart(k', k'[menu].next, parent, r);
    PreStep(done, x, r);
  }

  lemma {:induction false} PreStep(done: seq<Tree>, x: Tree, r: seq<Tree>)
    ensures Pre(done + [x]) + Pre(r) == Pre(done) + Pre([x] + r)
    ensures |Pre(r)| < |Pre([x] + r)|
  {
    PreAppend(done, [x]);
    PreAppend([x], r);
    PreOne(x);
    assert Pre(done) + (Pre([x]) + Pre(r)) == (Pre(done) + Pre([x])) + Pre(r);
  }

  // What flattening makes of the children of a menu: a child without a prompt hands its
  // children over to the menu, behind itself.
  ghost function Flattened(prompted: set<Menu>, f: seq<Tree>): seq<Tree> {
    if f == [] then []
    else if f[0].kids != [] && f[0].node !in prompted
    then [Tree(f[0].node, [])] + Flattened(prompted, f[0].kids) + Flattened(prompted, f[1..])
    else [f[0]] + Flattened(prompted, f[1..])
  }

  // What it makes of the first child.
  ghost function Raised(prompted: set<Menu>, t: Tree): seq<Tree> {
    if t.kids != [] && t.node !in prompted then [Tree(t.node, [])] + Flattened(prompted, t.kids) else [t]
  }

  lemma FlattenedCons(prompted: set<Menu>, f: seq<Tree>)
    requires f != []
    ensures Flattened(prompted, f) == Raised(prompted, f[0]) + Flattened(prompted, f[1..])
  {
  }

  lemma {:induction false} FlattenedAppend(prompted: set<Menu>, f: seq<Tree>, g: seq<Tree>)
    ensures Flattened(prompted, f + g) == Flattened(prompted, f) + Flattened(prompted, g)
  {
    if f == [] {
      assert f + g == g;
    } else {
      hide Raised, Flattened;
      assert (f + g)[0] == f[0] && (f + g)[1..] == f[1..] + g;
      FlattenedCons(prompted, f + g);
      FlattenedCons(prompted, f);
      FlattenedAppend(prompted, f[1..], g);
    }
  }

  // A child with a prompt keeps what it holds; one without loses it to the menu.
  lemma {:induction false} FlattenedHolds(prompted: set<Menu>, f: seq<Tree>)
    ensures forall t <- f | t.node in prompted :: t in Flattened(prompted, f)
    ensures forall t <- f | t.node !in prompted ::
      && Tree(t.node, []) in Flattened(prompted, f)
      && forall y <- Flattened(prompted, t.kids) :: y in Flattened(prompted, f)
  {
    if f != [] {
      FlattenedHolds(prompted, f[1..]);
      assert f == [f[0]] + f[1..];
      if f[0].kids == [] { assert f[0] == Tree(f[0].node, []) && Flattened(prompted, f[0].kids) == []; }
    }
  }

  // Flattening keeps the preorder.
  lemma {:induction false} FlattenedPre(prompted: set<Menu>, f: seq<Tree>)
    ensures Pre(Flattened(prompted, f)) == Pre(f)
    decreases f
  {
    if f != [] {
      FlattenedPre(prompted, f[1..]);
      PreOne(f[0]);
      if f[0].kids != [] && f[0].node !in prompted {
        FlattenedPre(prompted, f[0].kids);
        PreOne(Tree(f[0].node, []));
        PreAppend([Tree(f[0].node, [])], Flattened(prompted, f[0].kids));
        PreAppend([Tree(f[0].node, [])] + Flattened(prompted, f[0].kids), Flattened(prompted, f[1..]));
      } else {
        PreAppend([f[0]], Flattened(prompted, f[1..]));
      }
    }
  }

  // If that is so below the roots, no node without a prompt keeps children.
  lemma {:induction false} FlattenedClean(prompted: set<Menu>, f: seq<Tree>)
    requires CleanBelow(prompted, f)
    ensures Clean(prompted, Flattened(prompted, f))
    decreases f
  {
    if f != [] {
      FlattenedClean(prompted, f[1..]);
      if f[0].kids != [] && f[0].node !in prompted {
        CleanIsCleanBelow(prompted, f[0].kids);
        FlattenedClean(prompted, f[0].kids);
        assert [Tree(f[0].node, [])][1..] == [];
        CleanAppend(prompted, [Tree(f[0].node, [])], Flattened(prompted, f[0].kids));
        CleanAppend(prompted, [Tree(f[0].node, [])] + Flattened(prompted, f[0].kids), Flattened(prompted, f[1..]));
      } else {
        assert [f[0]][1..] == [];
        CleanAppend(prompted, [f[0]], Flattened(prompted, f[1..]));
      }
    }
  }

  // One turn of the loop: x, with r behind it, is left behind as x', with r' behind it.
  lemma {:induction false} FlattenedStep(prompted: set<Menu>, x: Tree, r: seq<Tree>)
    ensures x.kids != [] && x.node !in prompted ==>
      Flattened(prompted, [x] + r) == [Tree(x.node, [])] + Flattened(prompted, x.kids + r)
      && Pre([Tree(x.node, [])] + (x.kids + r)) == Pre([x] + r)
    ensures x.kids == [] || x.node in prompted ==> Flattened(prompted, [x] + r) == [x] + Flattened(prompted, r)
  {
    assert ([x] + r)[1..] == r && ([x] + r)[0] == x;
    var y := Tree(x.node, []);
    assert ([y] + (x.kids + r))[1..] == x.kids + r && ([y] + (x.kids + r))[0] == y;
    PreAppend(x.kids, r);
    FlattenedAppend(prompted, x.kids, r);
  }

  // The second loop of menu_finalize.
  method Flatten(parent: Menu, ghost all: set<Menu>, ghost f: seq<Tree>, ghost prompted: set<Menu>)
    requires parent in all && parent !in Nodes(f)
    requires Seg(Snap(all), parent.list, parent, f, null) && Distinct(Pre(f)) && PromptsOf(Nodes(f), prompted)
    modifies Nodes(f)`next, Nodes(f)`list, Nodes(f)`parent
    ensures Seg(Snap(all), parent.list, parent, Flattened(prompted, f), null)
  {
    hide Seg, Pre, Distinct, Sweep, Flattened;
    ghost var done, todo := [], f;
    var menu := parent.list;
    SweepStart(Snap(all), menu, parent, f);
    FlattenedNone(prompted);
    while menu != null
      invariant Sweep(Snap(all), parent.list, parent, done, menu, todo)
      invariant Pre(f) == Pre(done) + Pre(todo)
      invariant Flattened(prompted, f) == done + Flattened(prompted, todo)
      decreases |Pre(todo)|
    {
      ghost var k := Snap(all);
      SweepHead(k, parent.list, parent, done, menu, todo);
      ghost var x, r := todo[0], todo[1..];
      SweepSeg(k, parent.list, parent, done, menu, todo);
      ListMeansKids(k, menu, parent, todo);
      FlattenedStep(prompted, x, r);
      if menu.list != null && !menu.HasPrompt() {
        Lift(menu, parent, all, x, r);
        x, r := Tree(menu, []), x.kids + r;
      }
      SweepStep(k, Snap(all), parent.list, parent, done, menu, todo, x, r);
      assert done + Flattened(prompted, todo) == (done + [x]) + Flattened(prompted, r);
      done, todo := done + [x], r;
      menu := menu.next;
    }
    SweepEnd(Snap(all), parent.list, parent, done, todo);
    assert Flattened(prompted, f) == done;
  }

  lemma {:induction false} FlattenedNone(prompted: set<Menu>)
    ensures Flattened(prompted, []) == []
  {
  }

  lemma {:induction false} CleanEmpty(prompted: set<Menu>)
    ensures Clean(prompted, []) && CleanBelow(prompted, [])
  {
  }

  lemma {:induction false} SweepSeg(k: Links, head: Menu?, parent: Menu, done: seq<Tree>, menu: Menu?, todo: seq<Tree>)
    requires Sweep(k, head, parent, done, menu, todo)
    ensures Seg(k, menu, parent, todo, null)
  {
  }

  lemma {:induction false} SweepEnd(k: Links, head: Menu?, parent: Menu, done: seq<Tree>, todo: seq<Tree>)
    requires Sweep(k, head, parent, done, null, todo)
    ensures Seg(k, head, parent, done, null) && todo == [] && Pre(done) + Pre(todo) == Pre(done)
  {
  }

  lemma {:induction false} ListMeansKids(k: Links, menu: Menu, parent: Menu, todo: seq<Tree>)
    requires Seg(k, menu, parent, todo, null)
    ensures todo != [] && menu in k && (k[menu].list == null <==> todo[0].kids == [])
  {
    SegStart(k, k[menu].list, menu, todo[0].kids);
  }
}
