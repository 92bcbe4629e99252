// Finalising the menu tree (menu_finalize in menu.c): dependency propagation, automatic
// submenus and flattening.
module MenuFinalize {
  import opened Wrappers
  import opened Expr
  import opened Propagate
  import opened Submenu
  import Symbols
  import opened MenuTree
  import opened MenuFlatten
  import opened MenuEffect
  import opened MenuArrange

  // prompted are the nodes that have a prompt.
  ghost predicate Prompts(d: map<Menu, Data>, prompted: set<Menu>) {
    forall m <- d :: m in prompted <==> d[m].HasPrompt()
  }

  lemma SpreadPrompts(modules: Sym, dep: Option<Expr>, f: seq<Tree>, s0: Facts, s: Facts, prompted: set<Menu>)
    requires Spread(modules, dep, f, s0, s) && Prompts(s0.data, prompted)
    ensures Prompts(s.data, prompted)
  {
    hide PropertyCond, EntryDep, Gained;
    forall m <- s.data
      ensures s.data[m].HasPrompt() == s0.data[m].HasPrompt()
    {
      if m in Roots(f) { assert Propagated(modules, dep, m.sym, s0.data[m], s.data[m]); }
    }
  }

  // A sweep over siblings has finalised the first j of the trees f; todo is the rest.
  ghost predicate Partly(modules: Sym, f: seq<Tree>, j: nat, todo: seq<Tree>, s0: Facts, s: Facts) {
    && j <= |f| && todo == f[j..] && Effect(modules, f[..j], s0, s)
    && Agree(Nodes(todo), s0.data, s.data) && Nodes(f) <= s0.data.Keys == s.data.Keys
  }

  lemma PartlyStart(modules: Sym, f: seq<Tree>, s: Facts)
    requires Nodes(f) <= s.data.Keys
    ensures Partly(modules, f, 0, f, s, s)
  {
    EffectNone(modules, s);
    assert f[..0] == [];
  }

  lemma {:induction false} PartlyStep(modules: Sym, f: seq<Tree>, j: nat, todo: seq<Tree>, s0: Facts, s: Facts, i: nat,
                                      r: seq<Tree>, s': Facts)
    requires Distinct(Pre(f)) && Partly(modules, f, j, todo, s0, s) && Partly(modules, todo, i, r, s, s')
    requires forall m <- s.data.Keys - Nodes(todo) :: s'.data[m] == s.data[m]
    ensures Partly(modules, f, j + i, r, s0, s')
  {
    hide Effect, Pre, Distinct;
    var a, b := f[..j], todo[..i];
    assert f == a + todo && todo == b + r && f[..j + i] == a + b && f[j + i..] == r;
    SplitNodes(f, a, todo);
    SplitNodes(todo, b, r);
    EffectAppend(modules, a, b, s0, s, s');
  }

  lemma {:induction false} SplitNodes(f: seq<Tree>, a: seq<Tree>, b: seq<Tree>)
    requires f == a + b && Distinct(Pre(f))
    ensures Nodes(a) !! Nodes(b) && Nodes(f) == Nodes(a) + Nodes(b)
    ensures Distinct(Pre(a)) && Distinct(Pre(b))
  {
    PreAppend(a, b);
    DistinctParts(Pre(a), Pre(b));
  }

  lemma PartlyAll(modules: Sym, f: seq<Tree>, j: nat, s0: Facts, s: Facts)
    requires Partly(modules, f, j, [], s0, s)
    ensures Effect(modules, f, s0, s)
  {
    assert f[..j] == f;
  }

  lemma PartlyAt(modules: Sym, f: seq<Tree>, j: nat, todo: seq<Tree>, s0: Facts, s: Facts, m: Menu)
    requires Partly(modules, f, j, todo, s0, s) && m in Nodes(todo)
    ensures m in s0.data && m in s.data && s.data[m] == s0.data[m]
  {
  }

  // menu, the first node of f, has become the tree t.  Nothing is lost or reordered, no node
  // below menu without a prompt keeps children, and the trees left behind menu, those of f
  // from j on, have not been touched.  Which trees these are is what Final says.
  ghost predicate Done(modules: Sym, prompted: set<Menu>, k: Links, s0: Facts, s: Facts,
                       menu: Menu, pp: Menu?, f: seq<Tree>, t: Tree, left: seq<Tree>, j: nat) {
    && t.node == menu && Seg(k, menu, pp, [t] + left, null)
    && Pre([t] + left) == Pre(f)
    && Clean(prompted, t.kids)
    && 1 <= j && Partly(modules, f, j, left, s0, s)
    && Grouped(s0.data, f, left, j)
    && Final(prompted, s.data, f) == (t, left)
  }

  // Only a symbol without children takes over siblings: all up to the first that does not
  // belong under it.
  ghost predicate Grouped(d: map<Menu, Data>, f: seq<Tree>, left: seq<Tree>, j: nat) {
    && f != [] && f[0].node in d
    && (f[0].kids != [] || f[0].node.sym.None? ==> j == 1)
    && (f[0].kids == [] && f[0].node.sym.Some? && left != [] ==> StaysOut(d, f[0].node, left[0].node))
  }

  ghost predicate StaysOut(d: map<Menu, Data>, parent: Menu, m: Menu) {
    parent in d && m in d && parent.sym.Some? && !BelongsUnder(d[m].ItemDep(), d[parent].PromptDep(), parent.sym.value)
  }

  // Only the nodes of ms may have changed.
  ghost predicate Outside(ms: set<Menu>, k: Links, k': Links, d: map<Menu, Data>, d': map<Menu, Data>) {
    && k.Keys == k'.Keys && d.Keys == d'.Keys
    && (forall m <- k.Keys - ms :: k'[m] == k[m])
    && (forall m <- d.Keys - ms :: d'[m] == d[m])
  }

  // The calls l0 have been followed by one call for each of nodes, giving l.
  ghost predicate Logged(l0: seq<Menu>, l: seq<Menu>, nodes: seq<Menu>) {
    multiset(l) == multiset(l0) + multiset(nodes)
  }

  lemma LoggedStart(l: seq<Menu>)
    ensures Logged(l, l, Pre([]))
  {
  }

  lemma LoggedStep(l0: seq<Menu>, l: seq<Menu>, l': seq<Menu>, a: seq<Menu>, b: seq<Menu>)
    requires Logged(l0, l, a) && Logged(l, l', b)
    ensures Logged(l0, l', a + b)
  {
  }

  lemma LoggedHead(l0: seq<Menu>, l: seq<Menu>, menu: Menu, b: seq<Menu>)
    requires Logged(l0 + [menu], l, b)
    ensures Logged(l0, l, [menu] + b)
  {
  }

  // The pieces of the trees that begin at menu.
  lemma {:induction false} HeadParts(k: Links, menu: Menu, pp: Menu?, f: seq<Tree>)
    requires Seg(k, menu, pp, f, null) && Distinct(Pre(f))
    ensures f != [] && menu == f[0].node && menu in k && k[menu].parent == pp && Nodes(f) <= k.Keys
    ensures Seg(k, k[menu].list, menu, f[0].kids, null) && Seg(k, k[menu].next, pp, f[1..], null)
    ensures k[menu].list == null <==> f[0].kids == []
    ensures Distinct(Pre(f[0].kids)) && Distinct(Pre(f[1..])) && Nodes(f[0].kids) !! Nodes(f[1..])
    ensures menu !in Nodes(f[0].kids) && menu !in Nodes(f[1..])
    ensures Nodes(f) == {menu} + Nodes(f[0].kids) + Nodes(f[1..])
    ensures Pre(f) == [menu] + Pre(f[0].kids) + Pre(f[1..])
    ensures |Pre(f[0].kids)| < |Pre(f)| && |Pre(f[1..])| < |Pre(f)|
  {
    SegStart(k, menu, pp, f);
    SegStart(k, k[menu].list, menu, f[0].kids);
    SegNodes(k, menu, pp, f, null);
    SubNodes(f);
    Apart(f);
  }

  // Putting menu, its final children and what follows it together again.
  lemma {:induction false} HeadJoin(k: Links, menu: Menu, pp: Menu?, kids: seq<Tree>, left: seq<Tree>)
    requires menu in k && k[menu].parent == pp
    requires Seg(k, k[menu].list, menu, kids, null) && Seg(k, k[menu].next, pp, left, null)
    ensures Seg(k, menu, pp, [Tree(menu, kids)] + left, null)
    ensures Pre([Tree(menu, kids)] + left) == [menu] + Pre(kids) + Pre(left)
    ensures Pre([Tree(menu, kids)]) == [menu] + Pre(kids)
  {
    SegCons(k, menu, pp, Tree(menu, kids), left, null);
    PreOne(Tree(menu, kids));
    assert ([Tree(menu, kids)] + left)[1..] == left;
  }

  lemma {:induction false} CleanBelowSnoc(prompted: set<Menu>, done: seq<Tree>, x: Tree)
    requires CleanBelow(prompted, done) && Clean(prompted, x.kids)
    ensures CleanBelow(prompted, done + [x])
    ensures Pre(done + [x]) == Pre(done) + Pre([x])
  {
    assert [x][1..] == [];
    CleanBelowAppend(prompted, done, [x]);
    PreAppend(done, [x]);
  }

  // A step of a sweep that leaves the pointers alone.
  lemma {:induction false} SweepNext(k: Links, head: Menu?, parent: Menu, done: seq<Tree>, menu: Menu, todo: seq<Tree>,
                                     f: seq<Tree>)
    requires Sweep(k, head, parent, done, menu, todo) && f == done + todo
    ensures todo != [] && menu == todo[0].node && menu in k && menu in Nodes(f) && menu !in Roots(done)
    ensures Sweep(k, head, parent, done + [todo[0]], k[menu].next, todo[1..])
    ensures f == (done + [todo[0]]) + todo[1..]
  {
    hide Seg, Pre, Distinct, Roots;
    SweepHead(k, head, parent, done, menu, todo);
    SweepSeg(k, head, parent, done, menu, todo);
    SweepStep(k, k, head, parent, done, menu, todo, todo[0], todo[1..]);
    RootsAreNodes(done);
    PreAppend(done, todo);
  }

  // The invariant of the loop over the children f of parent: done are final, todo are not.
  ghost predicate Midway(modules: Sym, prompted: set<Menu>, s0: Facts, parent: Menu, f: seq<Tree>, k: Links, s: Facts,
                         done: seq<Tree>, menu: Menu?, todo: seq<Tree>, n: nat) {
    && parent in k && Sweep(k, k[parent].list, parent, done, menu, todo)
    && Pre(f) == Pre(done) + Pre(todo)
    && CleanBelow(prompted, done)
    && Partly(modules, f, n, todo, s0, s)
    && Steps(prompted, s.data, f, done, todo)
  }

  lemma {:induction false} MidwayStart(modules: Sym, prompted: set<Menu>, s0: Facts, parent: Menu, f: seq<Tree>,
                                       k: Links)
    requires parent in k && Seg(k, k[parent].list, parent, f, null) && Distinct(Pre(f)) && k.Keys == s0.data.Keys
    ensures Midway(modules, prompted, s0, parent, f, k, s0, [], k[parent].list, f, 0)
  {
    SegNodes(k, k[parent].list, parent, f, null);
    SweepStart(k, k[parent].list, parent, f);
    CleanEmpty(prompted);
    PartlyStart(modules, f, s0);
  }

  lemma {:induction false} MidwayHead(modules: Sym, prompted: set<Menu>, s0: Facts, parent: Menu, f: seq<Tree>,
                                      k: Links, s: Facts, done: seq<Tree>, menu: Menu, todo: seq<Tree>, n: nat)
    requires Midway(modules, prompted, s0, parent, f, k, s, done, menu, todo, n)
    ensures Seg(k, menu, parent, todo, null) && Distinct(Pre(todo)) && menu in k
    ensures Nodes(todo) <= Nodes(f) && |Pre(todo)| <= |Pre(f)|
  {
    hide Seg, Distinct, CleanBelow, Partly;
    SweepHead(k, k[parent].list, parent, done, menu, todo);
    SweepSeg(k, k[parent].list, parent, done, menu, todo);
  }

  lemma {:induction false} MidwayStep(modules: Sym, prompted: set<Menu>, s0: Facts, parent: Menu, f: seq<Tree>,
                                      k: Links, s: Facts, done: seq<Tree>, menu: Menu, todo: seq<Tree>, n: nat,
                                      k': Links, s': Facts, x: Tree, r: seq<Tree>, j: nat)
    requires Midway(modules, prompted, s0, parent, f, k, s, done, menu, todo, n)
    requires Distinct(Pre(f)) && parent !in Nodes(f)
    requires Done(modules, prompted, k', s, s', menu, parent, todo, x, r, j)
    requires Outside(Nodes(todo), k, k', s.data, s'.data)
    ensures menu in k' && Midway(modules, prompted, s0, parent, f, k', s', done + [x], k'[menu].next, r, n + j)
    ensures |Pre(r)| < |Pre(todo)| && Pre(done + [x]) == Pre(done) + Pre([x])
  {
    hide Seg, Pre, Distinct, Sweep, CleanBelow, Clean, Partly, Grouped, Steps, Final;
    SweepStep(k, k', k[parent].list, parent, done, menu, todo, x, r);
    PartlyStep(modules, f, n, todo, s0, s, j, r, s');
    CleanBelowSnoc(prompted, done, x);
    StepsOn(modules, prompted, f, n, todo, s0, s, done, j, r, s');
  }

  lemma {:induction false} MidwayEnd(modules: Sym, prompted: set<Menu>, s0: Facts, parent: Menu, f: seq<Tree>, k: Links,
                                     s: Facts, done: seq<Tree>, todo: seq<Tree>, n: nat)
    requires Midway(modules, prompted, s0, parent, f, k, s, done, null, todo, n)
    ensures Seg(k, k[parent].list, parent, done, null) && Pre(done) == Pre(f) && CleanBelow(prompted, done)
    ensures Effect(modules, f, s0, s) && Siblings(prompted, s.data, f) == done
  {
    hide Seg, Steps, Siblings, Effect;
    SweepEnd(k, k[parent].list, parent, done, todo);
    PartlyAll(modules, f, n, s0, s);
    StepsAll(prompted, s.data, f, done);
  }

  // The data of the trees dealt with, and of the roots of all others, stay as they are while the
  // first of todo are finalised.
  lemma {:induction false} SameSoFar(modules: Sym, f: seq<Tree>, n: nat, todo: seq<Tree>, s0: Facts, s: Facts, j: nat,
                                     r: seq<Tree>, s': Facts)
    requires Distinct(Pre(f)) && Partly(modules, f, n, todo, s0, s) && Partly(modules, todo, j, r, s, s')
    requires forall m <- s.data.Keys - Nodes(todo) :: s'.data[m] == s.data[m]
    ensures Same(f, todo, s.data, s'.data)
  {
    hide Pre, Distinct;
    assert f == f[..n] + todo;
    SplitNodes(f, f[..n], todo);
    RootsOfRest(f, n);
    RootsSame(modules, todo, j, r, s, s');
  }

  lemma {:induction false} RootsSame(modules: Sym, f: seq<Tree>, j: nat, r: seq<Tree>, s0: Facts, s: Facts)
    requires Partly(modules, f, j, r, s0, s)
    ensures Agree(Roots(f), s0.data, s.data)
  {
    hide Recorded, Directed;
    assert f == f[..j] + r;
    RootsAppend(f[..j], r);
    RootsStay(modules, f[..j], s0.data, s.data);
    RootsAreNodes(r);
  }

  // One more step, which has changed s to s'.
  lemma {:induction false} StepsOn(modules: Sym, prompted: set<Menu>, f: seq<Tree>, n: nat, todo: seq<Tree>, s0: Facts,
                                   s: Facts, done: seq<Tree>, j: nat, r: seq<Tree>, s': Facts)
    requires Distinct(Pre(f)) && Partly(modules, f, n, todo, s0, s) && Partly(modules, todo, j, r, s, s')
    requires forall m <- s.data.Keys - Nodes(todo) :: s'.data[m] == s.data[m]
    requires Steps(prompted, s.data, f, done, todo) && todo != [] && Final(prompted, s'.data, todo).1 == r
    ensures Steps(prompted, s'.data, f, done + [Final(prompted, s'.data, todo).0], r)
  {
    hide Partly, Steps, Final, Same, Distinct, Pre;
    SameSoFar(modules, f, n, todo, s0, s, j, r, s');
    StepsSame(prompted, s.data, s'.data, f, done, todo);
    StepsSnoc(prompted, s'.data, f, done, todo);
  }

  // ----- automatic submenus -----

  // Where automatic submenu creation stands: the nodes taken over by parent, still linked
  // behind it, and those not looked at yet.
  ghost predicate Taking(k: Links, head: Menu?, parent: Menu, moved: seq<Tree>, menu: Menu?, pp: Menu?,
                         todo: seq<Tree>) {
    && Seg(k, head, parent, moved, menu) && Seg(k, menu, pp, todo, null)
    && (menu == null <==> todo == [])
    && Distinct(Pre(moved) + Pre(todo))
  }

  lemma {:induction false} TakeStart(k: Links, head: Menu?, parent: Menu, pp: Menu?, f: seq<Tree>)
    requires Seg(k, head, pp, f, null) && Distinct(Pre(f))
    ensures Taking(k, head, parent, [], head, pp, f) && Pre([]) + Pre(f) == Pre(f)
  {
    SegStart(k, head, pp, f);
    assert Pre([]) == [] && [] + Pre(f) == Pre(f);
  }

  lemma {:induction false} TakeHead(k: Links, head: Menu?, parent: Menu, moved: seq<Tree>, menu: Menu, pp: Menu?,
                                    todo: seq<Tree>, f: seq<Tree>)
    requires Taking(k, head, parent, moved, menu, pp, todo) && Pre(f) == Pre(moved) + Pre(todo)
    ensures todo != [] && menu == todo[0].node && menu in k && menu in Nodes(f) && menu in Nodes(todo)
    ensures Seg(k, menu, pp, todo, null) && Distinct(Pre(todo)) && Nodes(todo) <= Nodes(f)
  {
    DistinctParts(Pre(moved), Pre(todo));
    SegNodes(k, menu, pp, todo, null);
    SubNodes(todo);
  }

  // One node is finalised, becoming x with r behind it, and gets parent as its parent.
  lemma {:induction false} TakeStep(k: Links, k': Links, head: Menu?, parent: Menu, moved: seq<Tree>, menu: Menu,
                                    pp: Menu?, todo: seq<Tree>, x: Tree, r: seq<Tree>)
    requires Taking(k, head, parent, moved, menu, pp, todo)
    requires Seg(k', menu, pp, [x] + r, null) && Pre([x] + r) == Pre(todo)
    requires k.Keys == k'.Keys && forall m <- k | m !in Nodes(todo) :: k'[m] == k[m]
    ensures menu in k' && x.node == menu
    ensures Taking(k'[menu := k'[menu].(parent := parent)], head, parent, moved + [x], k'[menu].next, pp, r)
    ensures Pre(moved + [x]) + Pre(r) == Pre(moved) + Pre(todo) && Pre(moved + [x]) == Pre(moved) + Pre([x])
    ensures |Pre(r)| < |Pre(todo)|
  {
    var k2 := k'[menu := k'[menu].(parent := parent)];
    assert ([x] + r)[1..] == r && ([x] + r)[0] == x;
    DistinctParts(Pre(moved), Pre(todo));
    SegNodes(k, head, parent, moved, menu);
    SegSame(k, k', head, parent, moved, menu);
    ReparentStep(k', head, parent, moved, menu, pp, [x] + r);
    PreStep(moved, x, r);
    PreAppend(moved, [x]);
  }

  // The three assignments after the loop.
  lemma {:induction false} TakeEnd(k: Links, head: Menu, parent: Menu, moved: seq<Tree>, menu: Menu?, pp: Menu?,
                                   left: seq<Tree>)
    requires Taking(k, head, parent, moved, menu, pp, left) && moved != []
    requires parent in k && parent !in Nodes(moved) && parent !in Nodes(left)
    ensures Last(moved) in k && Last(moved) != parent && Last(moved) in Nodes(moved) && k[Last(moved)].next == menu
    ensures var k' := k[Last(moved) := k[Last(moved)].(next := null)][parent := Link(menu, head, pp)];
      Seg(k', head, parent, moved, null) && Seg(k', menu, pp, left, null)
  {
    DistinctParts(Pre(moved), Pre(left));
    SegLast(k, head, parent, moved, menu);
    SegNodes(k, head, parent, moved, menu);
    SegNodes(k, menu, pp, left, null);
    var k' := k[Last(moved) := k[Last(moved)].(next := null)][parent := Link(menu, head, pp)];
    SegRetarget(k, k', head, parent, moved, menu, null);
    SegSame(k, k', menu, pp, left, null);
  }

  lemma {:induction false} TakeNodes(k: Links, head: Menu?, parent: Menu, moved: seq<Tree>, menu: Menu?, pp: Menu?,
                                     left: seq<Tree>, f: seq<Tree>)
    requires Taking(k, head, parent, moved, menu, pp, left) && Pre(f) == Pre(moved) + Pre(left)
    ensures Nodes(moved) <= Nodes(f) && Nodes(left) <= Nodes(f)
    ensures moved != [] ==> head != null
  {
  }

  lemma {:induction false} TakeNothing(k: Links, head: Menu?, parent: Menu, menu: Menu?, pp: Menu?, left: seq<Tree>)
    requires Taking(k, head, parent, [], menu, pp, left)
    ensures head == menu && Seg(k, head, pp, left, null) && Seg(k, null, parent, [], null)
  {
  }

  lemma TakeLeft(k: Links, head: Menu?, parent: Menu, moved: seq<Tree>, menu: Menu?, pp: Menu?, left: seq<Tree>)
    requires Taking(k, head, parent, moved, menu, pp, left)
    ensures menu == null <==> left == []
    ensures left != [] ==> left[0].node == menu
  {
  }

  // Every node taken over passed the test.
  ghost predicate Tested(d: map<Menu, Data>, promptDep: Option<Expr>, s: Sym, moved: seq<Tree>) {
    forall x <- moved :: x.node in d && BelongsUnder(d[x.node].ItemDep(), promptDep, s)
  }

  lemma TestedNone(d: map<Menu, Data>, promptDep: Option<Expr>, s: Sym)
    ensures Tested(d, promptDep, s, [])
  {
  }

  lemma TestedSnoc(d: map<Menu, Data>, promptDep: Option<Expr>, s: Sym, moved: seq<Tree>, x: Tree)
    requires Tested(d, promptDep, s, moved)
    requires x.node in d && BelongsUnder(d[x.node].ItemDep(), promptDep, s)
    ensures Tested(d, promptDep, s, moved + [x])
  {
  }

  // The surroundings of one run of automatic submenu creation: parent, the menu of symbol s,
  // takes over siblings from head on, which have parent pp and are the trees f.
  datatype Site = Site(modules: Sym, prompted: set<Menu>, s0: Facts, head: Menu?, parent: Menu, promptDep: Option<Expr>,
                       s: Sym, pp: Menu?, f: seq<Tree>)

  // The invariant of the loop: moved have been taken over, left is the rest of f from j on.
  ghost predicate Halfway(c: Site, k: Links, s: Facts, moved: seq<Tree>, menu: Menu?, left: seq<Tree>, j: nat) {
    && Taking(k, c.head, c.parent, moved, menu, c.pp, left) && Pre(c.f) == Pre(moved) + Pre(left)
    && CleanBelow(c.prompted, moved)
    && Partly(c.modules, c.f, j, left, c.s0, s)
    && Tested(c.s0.data, c.promptDep, c.s, moved)
    && Steps(c.prompted, s.data, c.f, moved, left)
  }

  lemma {:induction false} HalfwayStart(c: Site, k: Links)
    requires Seg(k, c.head, c.pp, c.f, null) && Distinct(Pre(c.f)) && k.Keys == c.s0.data.Keys
    ensures Halfway(c, k, c.s0, [], c.head, c.f, 0)
    ensures Pre([]) == []
  {
    TakeStart(k, c.head, c.parent, c.pp, c.f);
    CleanEmpty(c.prompted);
    SegNodes(k, c.head, c.pp, c.f, null);
    PartlyStart(c.modules, c.f, c.s0);
    TestedNone(c.s0.data, c.promptDep, c.s);
  }

  lemma {:induction false} HalfwayHead(c: Site, k: Links, s: Facts, moved: seq<Tree>, menu: Menu, left: seq<Tree>,
                                       j: nat)
    requires Halfway(c, k, s, moved, menu, left, j)
    ensures left != [] && menu == left[0].node && menu in k && menu in Nodes(left) && Nodes(left) <= Nodes(c.f)
    ensures Seg(k, menu, c.pp, left, null) && Distinct(Pre(left)) && |Pre(left)| <= |Pre(c.f)|
    ensures menu in c.s0.data && menu in s.data && s.data[menu] == c.s0.data[menu]
  {
    TakeHead(k, c.head, c.parent, moved, menu, c.pp, left, c.f);
    PartlyAt(c.modules, c.f, j, left, c.s0, s, menu);
  }

  lemma HalfwayWithin(c: Site, k: Links, s: Facts, moved: seq<Tree>, menu: Menu, left: seq<Tree>, j: nat)
    requires Halfway(c, k, s, moved, menu, left, j)
    ensures Nodes(left) <= Nodes(c.f) && |Pre(left)| <= |Pre(c.f)|
  {
    HalfwayHead(c, k, s, moved, menu, left, j);
  }

  lemma {:induction false} HalfwayStep(c: Site, k: Links, s: Facts, moved: seq<Tree>, menu: Menu, left: seq<Tree>,
                                       j: nat, k': Links, s': Facts, x: Tree, r: seq<Tree>, i: nat)
    requires Halfway(c, k, s, moved, menu, left, j) && Distinct(Pre(c.f))
    requires Done(c.modules, c.prompted, k', s, s', menu, c.pp, left, x, r, i)
    requires Outside(Nodes(left), k, k', s.data, s'.data)
    requires menu in c.s0.data && BelongsUnder(c.s0.data[menu].ItemDep(), c.promptDep, c.s)
    ensures menu in k'
    ensures Halfway(c, k'[menu := k'[menu].(parent := c.parent)], s', moved + [x], k'[menu].next, r, j + i)
    ensures Pre(moved + [x]) == Pre(moved) + Pre([x]) && |Pre(r)| < |Pre(left)|
    ensures Last(moved + [x]) == menu
  {
    hide Seg, Pre, Distinct, Taking, CleanBelow, Clean, BelongsUnder, Tested, Partly, Nodes, Grouped, Steps, Final;
    TakeStep(k, k', c.head, c.parent, moved, menu, c.pp, left, x, r);
    PartlyStep(c.modules, c.f, j, left, c.s0, s, i, r, s');
    CleanBelowSnoc(c.prompted, moved, x);
    TestedSnoc(c.s0.data, c.promptDep, c.s, moved, x);
    StepsOn(c.modules, c.prompted, c.f, j, left, c.s0, s, moved, i, r, s');
  }

  lemma HalfwayEnd(c: Site, k: Links, s: Facts, moved: seq<Tree>, menu: Menu?, left: seq<Tree>, j: nat)
    requires Halfway(c, k, s, moved, menu, left, j)
    ensures menu == null <==> left == []
    ensures left != [] ==> left[0].node == menu
    ensures Nodes(moved) <= Nodes(c.f) && Nodes(left) <= Nodes(c.f) && (moved != [] ==> c.head != null)
    ensures Taking(k, c.head, c.parent, moved, menu, c.pp, left)
  {
    TakeLeft(k, c.head, c.parent, moved, menu, c.pp, left);
    TakeNodes(k, c.head, c.parent, moved, menu, c.pp, left, c.f);
  }

  // The submenu is made: parent holds moved, the siblings up to the first that does not belong
  // under its symbol; left stays behind it.
  ghost predicate Taken(c: Site, k: Links, s: Facts, moved: seq<Tree>, left: seq<Tree>, j: nat) {
    && c.parent in k && Seg(k, k[c.parent].list, c.parent, moved, null) && Seg(k, k[c.parent].next, c.pp, left, null)
    && Pre(c.f) == Pre(moved) + Pre(left)
    && CleanBelow(c.prompted, moved)
    && Partly(c.modules, c.f, j, left, c.s0, s)
    && Tested(c.s0.data, c.promptDep, c.s, moved)
    && Steps(c.prompted, s.data, c.f, moved, left)
    && (left != [] ==> left[0].node in c.s0.data && !BelongsUnder(c.s0.data[left[0].node].ItemDep(), c.promptDep, c.s))
  }

  // The pointers are cut.
  lemma {:induction false} TakenNow(c: Site, k: Links, k': Links, s: Facts, moved: seq<Tree>, menu: Menu?,
                                    left: seq<Tree>, j: nat)
    requires Halfway(c, k, s, moved, menu, left, j)
    requires c.parent in k' && Seg(k', k'[c.parent].list, c.parent, moved, null)
    requires Seg(k', k'[c.parent].next, c.pp, left, null)
    requires left != [] ==>
      left[0].node in c.s0.data && !BelongsUnder(c.s0.data[left[0].node].ItemDep(), c.promptDep, c.s)
    ensures Taken(c, k', s, moved, left, j)
  {
    hide Seg, Pre, Taking, CleanBelow, Partly, Tested, Steps, BelongsUnder;
  }

  // ----- one menu -----

  // The first half of menu_finalize is over: before flattening, the children of menu are kids.
  ghost predicate Gathered(modules: Sym, prompted: set<Menu>, k: Links, s0: Facts, s: Facts,
                           menu: Menu, pp: Menu?, f: seq<Tree>, kids: seq<Tree>, left: seq<Tree>, j: nat) {
    && menu in k && k[menu].parent == pp
    && Seg(k, k[menu].list, menu, kids, null) && Seg(k, k[menu].next, pp, left, null)
    && Pre(f) == [menu] + Pre(kids) + Pre(left) && CleanBelow(prompted, kids)
    && 1 <= j && Partly(modules, f, j, left, s0, s)
    && Grouped(s0.data, f, left, j)
    && Under(s0.data, f, kids)
    && Kids(prompted, s.data, f) == (kids, left)
  }

  // What an automatic submenu holds belongs there.
  ghost predicate Under(d: map<Menu, Data>, f: seq<Tree>, kids: seq<Tree>) {
    && f != [] && f[0].node in d
    && (f[0].kids == [] && f[0].node.sym.Some? ==> Tested(d, d[f[0].node].PromptDep(), f[0].node.sym.value, kids))
  }

  lemma {:induction false} GatheredParts(modules: Sym, prompted: set<Menu>, k: Links, s0: Facts, s: Facts,
                      menu: Menu, pp: Menu?, f: seq<Tree>, kids: seq<Tree>, left: seq<Tree>, j: nat)
    requires Gathered(modules, prompted, k, s0, s, menu, pp, f, kids, left, j) && Distinct(Pre(f))
    ensures menu in k && Seg(k, k[menu].list, menu, kids, null)
    ensures menu !in Nodes(kids) && Distinct(Pre(kids)) && Nodes(kids) <= Nodes(f) && Nodes(kids) !! Nodes(left)
    ensures menu !in Nodes(left)
  {
    hide Seg, CleanBelow, Partly, Grouped, Under, Kids;
    assert Pre(f) == [menu] + (Pre(kids) + Pre(left));
    assert menu in [menu];
    DistinctParts([menu], Pre(kids) + Pre(left));
    DistinctParts(Pre(kids), Pre(left));
  }

  // After flattening, menu is finished.
  lemma {:induction false} GatheredDone(modules: Sym, prompted: set<Menu>, k: Links, s0: Facts, s: Facts,
                     menu: Menu, pp: Menu?, f: seq<Tree>, kids: seq<Tree>, left: seq<Tree>, j: nat, k': Links)
    requires Gathered(modules, prompted, k, s0, s, menu, pp, f, kids, left, j)
    requires k.Keys == k'.Keys && menu in k' && menu !in Nodes(kids) && Nodes(kids) !! Nodes(left)
    requires forall m <- k.Keys - Nodes(kids) :: k'[m] == k[m]
    requires Seg(k', k'[menu].list, menu, Flattened(prompted, kids), null)
    ensures var t := Tree(menu, Flattened(prompted, kids));
      Done(modules, prompted, k', s0, s, menu, pp, f, t, left, j) && Pre([t]) == [menu] + Pre(kids)
  {
    hide Partly, Flattened, Clean, CleanBelow, Kids, Tested, StaysOut;
    assert menu == f[0].node by { assert Pre(f)[0] == menu; }
    SegNodes(k, k[menu].next, pp, left, null);
    SegSame(k, k', k[menu].next, pp, left, null);
    FlattenedPre(prompted, kids);
    FlattenedClean(prompted, kids);
    HeadJoin(k', menu, pp, Flattened(prompted, kids), left);
  }

  // A node with children.
  lemma {:induction false} GatheredChildren(modules: Sym, prompted: set<Menu>, k: Links, s0: Facts, menu: Menu,
                                            pp: Menu?, f: seq<Tree>, s1: Facts, k': Links, s: Facts, kids: seq<Tree>)
    requires Seg(k, menu, pp, f, null) && Distinct(Pre(f)) && Nodes(f) <= s0.data.Keys && f[0].kids != []
    requires k.Keys == k'.Keys && forall m <- k.Keys - Nodes(f[0].kids) :: k'[m] == k[m]
    requires s0.data.Keys == s.data.Keys && forall m <- s.data.Keys - Nodes(f[0].kids) :: s.data[m] == s0.data[m]
    requires menu in k && Seg(k', k[menu].list, menu, kids, null) && Pre(kids) == Pre(f[0].kids)
    requires CleanBelow(prompted, kids)
    requires menu in s0.data && Spread(modules, s0.data[menu].ItemDep(), f[0].kids, s0, s1)
    requires Effect(modules, f[0].kids, s1, s)
    requires kids == Siblings(prompted, s.data, f[0].kids)
    ensures Gathered(modules, prompted, k', s0, s, menu, pp, f, kids, f[1..], 1)
  {
    hide Seg, Spread, Effect, CleanBelow, Pre, Distinct, Siblings;
    HeadParts(k, menu, pp, f);
    SegSame(k, k', k[menu].next, pp, f[1..], null);
    var x := f[0];
    assert f[..1] == [x] && f == [x] + f[1..];
    SplitNodes(f, [x], f[1..]);
    EffectOfChildren(modules, x, s0, s1, s);
  }

  // A node without children and symbol.
  lemma {:induction false} GatheredNothing(modules: Sym, prompted: set<Menu>, k: Links, s0: Facts, menu: Menu,
                                           pp: Menu?, f: seq<Tree>)
    requires Seg(k, menu, pp, f, null) && Distinct(Pre(f)) && Nodes(f) <= s0.data.Keys && f[0].kids == []
    requires menu.sym.None?
    ensures Gathered(modules, prompted, k, s0, s0, menu, pp, f, [], f[1..], 1)
  {
    hide Effect, Distinct;
    HeadParts(k, menu, pp, f);
    assert f[..1] == [f[0]];
    CleanEmpty(prompted);
    EffectOfLeaf(modules, f[0], s0, s0);
  }

  // A symbol without children.
  lemma {:induction false} GatheredSubmenu(c: Site, k: Links, menu: Menu, f: seq<Tree>, k': Links, s: Facts, s': Facts,
                        moved: seq<Tree>, left: seq<Tree>, i: nat)
    requires Seg(k, menu, c.pp, f, null) && Distinct(Pre(f)) && Nodes(f) <= c.s0.data.Keys && f[0].kids == []
    requires menu.sym == Some(c.s)
    requires c.f == f[1..] && menu in c.s0.data && c.promptDep == c.s0.data[menu].PromptDep()
    requires menu in k' && k'[menu].parent == c.pp && menu == c.parent && Taken(c, k', s, moved, left, i)
    requires menu in s.data && s.data[menu] == c.s0.data[menu]
    requires s' == if s.data[menu].dep.Some? then s.(dir := AddOr(s.dir, c.s, s.data[menu].dep.value)) else s
    ensures Gathered(c.modules, c.prompted, k', c.s0, s', menu, c.pp, f, moved, left, i + 1)
  {
    hide Effect, Seg, Pre, Distinct, CleanBelow, Tested, BelongsUnder, Steps, TakenBehind;
    HeadParts(k, menu, c.pp, f);
    var x := f[0];
    assert [menu] + (Pre(moved) + Pre(left)) == [menu] + Pre(moved) + Pre(left);
    SegEmpty(k, menu, menu);
    assert [menu] + Pre(x.kids) + Pre(f[1..]) == [menu] + Pre(f[1..]);
    assert f == [x] + f[1..] && f[..i + 1] == [x] + f[1..][..i] && f[i + 1..] == f[1..][i..];
    SplitNodes(f, [x], f[1..]);
    assert f[1..] == f[1..][..i] + left;
    SplitNodes(f[1..], f[1..][..i], left);
    EffectOfLeafLast(c.modules, x, f[1..][..i], c.s0, s, s');
    TakenIs(c, s, moved, left, i);
  }

  // The siblings that passed the test, and the first that did not, are those of TakenBehind.
  lemma {:induction false} TakenIs(c: Site, s: Facts, moved: seq<Tree>, left: seq<Tree>, i: nat)
    requires Partly(c.modules, c.f, i, left, c.s0, s) && Tested(c.s0.data, c.promptDep, c.s, moved)
    requires Steps(c.prompted, s.data, c.f, moved, left)
    requires left != [] ==>
      left[0].node in c.s0.data && !BelongsUnder(c.s0.data[left[0].node].ItemDep(), c.promptDep, c.s)
    ensures TakenBehind(c.prompted, s.data, c.promptDep, c.s, c.f) == (moved, left)
  {
    hide Partly, Steps, TakenBehind, BelongsUnder;
    RootsSame(c.modules, c.f, i, left, c.s0, s);
    StepsRest(c.prompted, s.data, c.f, moved, left);
    if left != [] { RestRoots(left, c.f); RestRoots(left, left); }
    StepsTaken(c.prompted, s.data, c.promptDep, c.s, c.f, moved, left);
  }

  class Finalizer {
    const modules: Sym
    // rev_dep.expr, implied.expr and dir_dep.expr of the symbols where they are not NULL
    var revDep: map<Sym, Expr>
    var implied: map<Sym, Expr>
    var dirDep: map<Sym, Expr>
    // the nodes menu_finalize has been called for, in this order
    ghost var log: seq<Menu>

    constructor (modules: Sym)
      ensures this.modules == modules && revDep == map[] && implied == map[] && dirDep == map[] && log == []
    {
      this.modules := modules;
      revDep, implied, dirDep, log := map[], map[], map[], [];
    }

    ghost function Now(all: set<Menu>): Facts
      reads this`revDep, this`implied, this`dirDep, all`prompt, all`dep, all`props
    {
      Facts(DataOf(all), revDep, implied, dirDep)
    }

    // The body of the first loop of menu_finalize, for one child.
    method PropagateEntry(menu: Menu, parentDep: Option<Expr>)
      modifies this`revDep, this`implied, menu`dep, menu`props
      ensures Propagated(modules, parentDep, menu.sym, old(Data(menu.prompt, menu.dep, menu.props)),
                         Data(menu.prompt, menu.dep, menu.props))
      ensures revDep == AddTargets(old(revDep), Symbols.PSelect, menu.sym, menu.props)
      ensures implied == AddTargets(old(implied), Symbols.PImply, menu.sym, menu.props)
    {
      hide EntryDep, PropertyCond, AddTarget;
      menu.dep := EntryDep(parentDep, menu.dep, modules);
      var i := 0;
      while i < |menu.props|
        invariant 0 <= i <= |menu.props| == |old(menu.props)|
        invariant menu.dep == EntryDep(parentDep, old(menu.dep), modules)
        invariant forall j | 0 <= j < i ::
          menu.props[j] == PropagatedProp(menu.dep, old(menu.props[j]), menu.sym, modules)
        invariant forall j | i <= j < |menu.props| :: menu.props[j] == old(menu.props[j])
        invariant revDep == AddTargets(old(revDep), Symbols.PSelect, menu.sym, menu.props[..i])
        invariant implied == AddTargets(old(implied), Symbols.PImply, menu.sym, menu.props[..i])
      {
        var p := PropagatedProp(menu.dep, menu.props[i], menu.sym, modules);
        assert menu.props[i := p][..i] == menu.props[..i];
        menu.props := menu.props[i := p];
        if menu.sym.Some? {
          revDep := AddTarget(revDep, Symbols.PSelect, menu.sym.value, p);
          implied := AddTarget(implied, Symbols.PImply, menu.sym.value, p);
        }
        assert menu.props[..i + 1][..i] == menu.props[..i];
        i := i + 1;
      }
      assert menu.props[..i] == menu.props;
    }

    // The same, said of the facts about all menus.
    method PropagateHere(menu: Menu, parentDep: Option<Expr>, ghost all: set<Menu>)
      requires menu in all
      modifies this`revDep, this`implied, menu`dep, menu`props
      ensures Snap(all) == old(Snap(all)) && DataOf(all).Keys == all == old(DataOf(all)).Keys
      ensures Propagated(modules, parentDep, menu.sym, old(DataOf(all))[menu], DataOf(all)[menu])
      ensures forall m <- all - {menu} :: DataOf(all)[m] == old(DataOf(all))[m]
      ensures revDep == AddTargets(old(revDep), Symbols.PSelect, menu.sym, DataOf(all)[menu].props)
      ensures implied == AddTargets(old(implied), Symbols.PImply, menu.sym, DataOf(all)[menu].props)
    {
      hide Propagated, AddTargets;
      ghost var d0 := DataOf(all);
      assert d0[menu] == Data(menu.prompt, menu.dep, menu.props);
      PropagateEntry(menu, parentDep);
      assert DataOf(all)[menu] == Data(menu.prompt, menu.dep, menu.props);
      forall m <- all - {menu}
        ensures DataOf(all)[m] == d0[m]
      {
        assert DataOf(all)[m] == Data(m.prompt, m.dep, m.props);
      }
    }

    // The first loop of menu_finalize: the dependency parentDep goes into every child.
    method PropagateAll(parent: Menu, parentDep: Option<Expr>, ghost all: set<Menu>, ghost f: seq<Tree>)
      requires parent in all && parent !in Nodes(f) && Seg(Snap(all), parent.list, parent, f, null) && Distinct(Pre(f))
      modifies this`revDep, this`implied, Nodes(f)`dep, Nodes(f)`props
      ensures Spread(modules, parentDep, f, old(Now(all)), Now(all))
    {
      hide Logged, Seg, Pre, Distinct, Sweep, Roots, Nodes, Spread, Propagated, AddTargets;
      ghost var s0, k := Now(all), Snap(all);
      ghost var done, todo := [], f;
      var menu := parent.list;
      SweepStart(k, menu, parent, f);
      SpreadNone(modules, parentDep, s0);
      while menu != null
        invariant Snap(all) == k && Sweep(k, parent.list, parent, done, menu, todo) && f == done + todo
        invariant Spread(modules, parentDep, done, s0, Now(all))
        decreases |todo|
      {
        ghost var s := Now(all);
        SweepNext(k, parent.list, parent, done, menu, todo, f);
        PropagateHere(menu, parentDep, all);
        SpreadStep(modules, parentDep, done, todo[0], s0, s, Now(all));
        done, todo := done + [todo[0]], todo[1..];
        menu := menu.next;
      }
      SweepEnd(k, parent.list, parent, done, todo);
      assert done == f;
    }

    // The recursive calls of menu_finalize for all children of parent.
    method FinalizeKids(parent: Menu, ghost all: set<Menu>, ghost f: seq<Tree>, ghost prompted: set<Menu>)
      returns (ghost g: seq<Tree>)
      requires parent in all && parent !in Nodes(f) && Seg(Snap(all), parent.list, parent, f, null)
      requires Distinct(Pre(f)) && Prompts(DataOf(all), prompted)
      modifies this, Nodes(f)
      ensures Seg(Snap(all), parent.list, parent, g, null) && Pre(g) == Pre(f)
      ensures CleanBelow(prompted, g) && Prompts(DataOf(all), prompted)
      ensures Effect(modules, f, old(Now(all)), Now(all)) && g == Siblings(prompted, DataOf(all), f)
      ensures Logged(old(log), log, Pre(f))
      decreases |Pre(f)|, 5
    {
      hide Logged, Seg, Pre, Distinct, Midway, CleanBelow, Prompts, Done, Nodes, Effect, Outside;
      ghost var s0 := Now(all);
      ghost var todo, n := f, 0;
      g := [];
      var menu := parent.list;
      MidwayStart(modules, prompted, s0, parent, f, Snap(all));
      LoggedStart(log);
      while menu != null
        invariant Midway(modules, prompted, s0, parent, f, Snap(all), Now(all), g, menu, todo, n)
        invariant Prompts(DataOf(all), prompted) && Logged(old(log), log, Pre(g))
        decreases |Pre(todo)|
      {
        ghost var k, s, l := Snap(all), Now(all), log;
        MidwayHead(modules, prompted, s0, parent, f, k, s, g, menu, todo, n);
        ghost var x, r, j := FinalizeMenu(menu, all, parent, todo, prompted);
        MidwayStep(modules, prompted, s0, parent, f, k, s, g, menu, todo, n, Snap(all), Now(all), x, r, j);
        LoggedStep(old(log), l, log, Pre(g), Pre([x]));
        g, todo, n := g + [x], r, n + j;
        menu := menu.next;
      }
      MidwayEnd(modules, prompted, s0, parent, f, Snap(all), Now(all), g, todo, n);
    }

    // "Superset, put in submenu": finalises menu and makes parent its parent.
    method TakeOne(menu: Menu, parent: Menu, ghost c: Site, ghost all: set<Menu>, ghost moved: seq<Tree>,
                   ghost left: seq<Tree>, ghost j: nat)
      returns (ghost x: Tree, ghost r: seq<Tree>, ghost i: nat)
      requires c.modules == modules && c.parent == parent && Distinct(Pre(c.f))
      requires Halfway(c, Snap(all), Now(all), moved, menu, left, j)
      requires Prompts(DataOf(all), c.prompted) && menu in c.s0.data
      requires BelongsUnder(c.s0.data[menu].ItemDep(), c.promptDep, c.s)
      modifies this, Nodes(left)
      ensures Halfway(c, Snap(all), Now(all), moved + [x], menu.next, r, j + i)
      ensures Prompts(DataOf(all), c.prompted) && |Pre(r)| < |Pre(left)|
      ensures Logged(old(log), log, Pre([x]))
      ensures Pre(moved + [x]) == Pre(moved) + Pre([x]) && Last(moved + [x]) == menu
      decreases |Pre(left)|, 5
    {
      hide Logged, Seg, Pre, Distinct, Halfway, Prompts, BelongsUnder, Done, Nodes, Outside;
      ghost var k, s := Snap(all), Now(all);
      HalfwayHead(c, k, s, moved, menu, left, j);
      x, r, i := FinalizeMenu(menu, all, c.pp, left, c.prompted);
      ghost var k', s' := Snap(all), Now(all);
      HalfwayStep(c, k, s, moved, menu, left, j, k', s', x, r, i);
      Adopt(menu, parent, all);
    }

    // menu->parent = parent
    method Adopt(menu: Menu, parent: Menu, ghost all: set<Menu>)
      requires menu in all
      modifies menu`parent
      ensures Snap(all) == old(Snap(all))[menu := old(Snap(all))[menu].(parent := parent)]
      ensures DataOf(all) == old(DataOf(all))
    {
      ghost var k, d := Snap(all), DataOf(all);
      menu.parent := parent;
      assert Snap(all) == k[menu := k[menu].(parent := parent)] && DataOf(all) == d;
    }

    // One turn of the loop: menu is taken over if it passes the test.  l0 is the log before the
    // loop.
    method TakeNext(menu: Menu, parent: Menu, s: Sym, promptDep: Option<Expr>, ghost c: Site, ghost all: set<Menu>,
                    ghost l0: seq<Menu>, ghost moved: seq<Tree>, ghost left: seq<Tree>, ghost j: nat)
      returns (belongs: bool, ghost moved': seq<Tree>, ghost left': seq<Tree>, ghost j': nat)
      requires c.modules == modules && c.parent == parent && c.s == s && c.promptDep == promptDep && Distinct(Pre(c.f))
      requires Halfway(c, Snap(all), Now(all), moved, menu, left, j) && Prompts(DataOf(all), c.prompted)
      requires Logged(l0, log, Pre(moved))
      modifies this, Nodes(left)
      ensures left != [] && left[0].node == menu && menu in c.s0.data
      ensures belongs <==> BelongsUnder(c.s0.data[menu].ItemDep(), promptDep, s)
      ensures Halfway(c, Snap(all), Now(all), moved', if belongs then menu.next else menu, left', j')
      ensures Prompts(DataOf(all), c.prompted) && Logged(l0, log, Pre(moved'))
      ensures belongs ==> |Pre(left')| < |Pre(left)| && moved' != [] && Last(moved') == menu
      ensures !belongs ==> moved' == moved && left' == left
      decreases |Pre(left)|, 6
    {
      hide Logged, Seg, Pre, Distinct, Halfway, Prompts, BelongsUnder, Nodes, Done;
      HalfwayHead(c, Snap(all), Now(all), moved, menu, left, j);
      assert DataOf(all)[menu] == Data(menu.prompt, menu.dep, menu.props);
      belongs := BelongsUnder(menu.ItemDep(), promptDep, s);
      moved', left', j' := moved, left, j;
      if belongs {
        ghost var l := log;
        ghost var x, r, i := TakeOne(menu, parent, c, all, moved, left, j);
        LoggedStep(l0, l, log, Pre(moved), Pre([x]));
        moved', left', j' := moved + [x], r, j + i;
      }
    }

    // The loop of automatic submenu creation over the siblings f behind parent, the menu of
    // symbol s, whose prompt depends on promptDep.
    method TakeOver(parent: Menu, s: Sym, promptDep: Option<Expr>, ghost c: Site, ghost all: set<Menu>)
      returns (last: Menu?, ghost moved: seq<Tree>, ghost menu': Menu?, ghost left: seq<Tree>, ghost j: nat)
      requires c.modules == modules && c.parent == parent && c.s == s && c.promptDep == promptDep
      requires c.s0 == Now(all) && c.head == parent.next
      requires Seg(Snap(all), parent.next, c.pp, c.f, null) && Distinct(Pre(c.f)) && Prompts(DataOf(all), c.prompted)
      modifies this, Nodes(c.f)
      ensures Halfway(c, Snap(all), Now(all), moved, menu', left, j)
      ensures Prompts(DataOf(all), c.prompted)
      ensures Logged(old(log), log, Pre(moved))
      ensures left != [] ==> left[0].node in c.s0.data && !BelongsUnder(c.s0.data[left[0].node].ItemDep(), promptDep, s)
      ensures if moved == [] then last == null else last == Last(moved)
      decreases |Pre(c.f)|, 7
    {
      hide Logged, Seg, Pre, Distinct, Halfway, Prompts, BelongsUnder, Nodes, Done;
      last, moved, left, j := null, [], c.f, 0;
      var menu := parent.next;
      HalfwayStart(c, Snap(all));
      LoggedStart(log);
      while menu != null
        invariant Halfway(c, Snap(all), Now(all), moved, menu, left, j)
        invariant Prompts(DataOf(all), c.prompted)
        invariant Logged(old(log), log, Pre(moved))
        invariant if moved == [] then last == null else last == Last(moved)
        decreases |Pre(left)|
      {
        HalfwayWithin(c, Snap(all), Now(all), moved, menu, left, j);
        var belongs;
        belongs, moved, left, j := TakeNext(menu, parent, s, promptDep, c, all, old(log), moved, left, j);
        if !belongs {
          break;
        }
        last := menu;
        menu := menu.next;
      }
      menu' := menu;
      HalfwayEnd(c, Snap(all), Now(all), moved, menu, left, j);
    }

    // Automatic submenu creation behind parent, the menu of symbol s: parent takes over its
    // siblings up to the first that does not belong under s.
    method MakeSubmenu(parent: Menu, s: Sym, ghost c: Site, ghost all: set<Menu>)
      returns (ghost moved: seq<Tree>, ghost left: seq<Tree>, ghost j: nat)
      requires parent in all && parent.list == null && parent.parent == c.pp && parent !in Nodes(c.f)
      requires c.modules == modules && c.parent == parent && c.s == s && c.promptDep == parent.PromptDep()
      requires c.s0 == Now(all) && c.head == parent.next
      requires Seg(Snap(all), parent.next, c.pp, c.f, null) && Distinct(Pre(c.f)) && Prompts(DataOf(all), c.prompted)
      modifies this, parent`list, parent`next, Nodes(c.f)
      ensures Taken(c, Snap(all), Now(all), moved, left, j)
      ensures Prompts(DataOf(all), c.prompted) && Logged(old(log), log, Pre(moved))
      ensures forall m <- all - Nodes(c.f) :: m in DataOf(all) && DataOf(all)[m] == c.s0.data[m]
      decreases |Pre(c.f)|, 8
    {
      hide Logged, Seg, Pre, Distinct, Taking, Taken, Halfway, BelongsUnder, Nodes, Prompts;
      var last;
      ghost var menu;
      last, moved, menu, left, j := TakeOver(parent, s, parent.PromptDep(), c, all);
      ghost var k, facts := Snap(all), Now(all);
      HalfwayEnd(c, k, facts, moved, menu, left, j);
      Relink(parent, last, all, c.pp, moved, menu, left, c.f);
      TakenNow(c, k, Snap(all), facts, moved, menu, left, j);
      forall m <- all - Nodes(c.f)
        ensures Data(m.prompt, m.dep, m.props) == c.s0.data[m]
      {
      }
    }

    // The three assignments that cut the list behind the last node taken over.
    method Relink(parent: Menu, last: Menu?, ghost all: set<Menu>, ghost pp: Menu?, ghost moved: seq<Tree>,
                  ghost menu: Menu?, ghost left: seq<Tree>, ghost f: seq<Tree>)
      requires parent in all && parent.list == null && parent.parent == pp && parent !in Nodes(f)
      requires Taking(Snap(all), parent.next, parent, moved, menu, pp, left)
      requires Nodes(moved) <= Nodes(f) && Nodes(left) <= Nodes(f) && (moved != [] ==> parent.next != null)
      requires if moved == [] then last == null else last == Last(moved)
      modifies parent`list, parent`next, Nodes(f)`next
      ensures Seg(Snap(all), parent.list, parent, moved, null) && Seg(Snap(all), parent.next, pp, left, null)
      ensures parent in Snap(all) && Snap(all)[parent] == Link(parent.next, parent.list, pp)
      ensures DataOf(all) == old(DataOf(all))
    {
      hide Logged, Seg, Pre, Distinct, Taking, Nodes;
      ghost var k, head := Snap(all), parent.next;
      if last != null {
        TakeEnd(k, head, parent, moved, menu, pp, left);
        Cut(parent, last, all);
      } else {
        TakeNothing(k, head, parent, menu, pp, left);
      }
    }

    method Cut(parent: Menu, last: Menu, ghost all: set<Menu>)
      requires parent in all && last in all && parent != last
      modifies parent`list, parent`next, last`next
      ensures var k := old(Snap(all));
        Snap(all) == k[last := k[last].(next := null)][parent := Link(k[last].next, k[parent].next, k[parent].parent)]
      ensures parent.list == old(parent.next) && parent.next == old(last.next) && DataOf(all) == old(DataOf(all))
    {
      ghost var k, d := Snap(all), DataOf(all);
      parent.list := parent.next;
      parent.next := last.next;
      last.next := null;
      ghost var k' := k[last := k[last].(next := null)][parent := Link(k[last].next, k[parent].next, k[parent].parent)];
      forall m <- all
        ensures Link(m.next, m.list, m.parent) == k'[m]
      {
      }
      assert Snap(all) == k' && DataOf(all) == d;
    }

    // sym->dir_dep.expr = expr_alloc_or(sym->dir_dep.expr, parent->dep)
    method AddDirDep(s: Sym, dep: Option<Expr>, ghost all: set<Menu>)
      modifies this`dirDep
      ensures Snap(all) == old(Snap(all)) && DataOf(all) == old(DataOf(all))
      ensures dirDep == if dep.Some? then AddOr(old(dirDep), s, dep.value) else old(dirDep)
    {
      if dep.Some? {
        dirDep := AddOr(dirDep, s, dep.value);
      }
    }

    // The first half of menu_finalize: what menu has for children before flattening.
    method Gather(menu: Menu, ghost all: set<Menu>, ghost pp: Menu?, ghost f: seq<Tree>, ghost prompted: set<Menu>)
      returns (ghost kids: seq<Tree>, ghost left: seq<Tree>, ghost j: nat)
      requires menu in all && Seg(Snap(all), menu, pp, f, null) && Distinct(Pre(f)) && Prompts(DataOf(all), prompted)
      modifies this, Nodes(f)
      ensures Gathered(modules, prompted, Snap(all), old(Now(all)), Now(all), menu, pp, f, kids, left, j)
      ensures Prompts(DataOf(all), prompted)
      ensures Logged(old(log), log, Pre(kids))
      decreases |Pre(f)|, 1
    {
      hide Logged, Seg, Pre, Distinct, Prompts, Gathered;
      ghost var k := Snap(all);
      HeadParts(k, menu, pp, f);
      if menu.list != null {
        kids := GatherChildren(menu, all, pp, f, prompted);
        left, j := f[1..], 1;
      } else if menu.sym.Some? {
        kids, left, j := GatherSubmenu(menu, menu.sym.value, all, pp, f, prompted);
      } else {
        kids, left, j := [], f[1..], 1;
        GatheredNothing(modules, prompted, k, Now(all), menu, pp, f);
        LoggedStart(log);
      }
    }

    // The case of a symbol without children: an automatic submenu.
    method GatherSubmenu(menu: Menu, s: Sym, ghost all: set<Menu>, ghost pp: Menu?, ghost f: seq<Tree>,
                         ghost prompted: set<Menu>)
      returns (ghost kids: seq<Tree>, ghost left: seq<Tree>, ghost j: nat)
      requires menu in all && Seg(Snap(all), menu, pp, f, null) && Distinct(Pre(f)) && Prompts(DataOf(all), prompted)
      requires menu.list == null && menu.sym == Some(s)
      modifies this, Nodes(f)
      ensures Gathered(modules, prompted, Snap(all), old(Now(all)), Now(all), menu, pp, f, kids, left, j)
      ensures Prompts(DataOf(all), prompted)
      ensures Logged(old(log), log, Pre(kids))
      decreases |Pre(f)|, 0
    {
      hide Logged, Seg, Pre, Distinct, Prompts, Gathered, Taken, Nodes, AddOr;
      ghost var k, s0 := Snap(all), Now(all);
      HeadParts(k, menu, pp, f);
      ghost var c := Site(modules, prompted, s0, menu.next, menu, menu.PromptDep(), s, pp, f[1..]);
      ghost var i;
      kids, left, i := MakeSubmenu(menu, s, c, all);
      ghost var k', s1 := Snap(all), Now(all);
      AddDirDep(s, menu.dep, all);
      GatheredSubmenu(c, k, menu, f, k', s1, Now(all), kids, left, i);
      j := i + 1;
    }

    // The case of a node that has children: propagate dependencies, then finalise them.
    method GatherChildren(menu: Menu, ghost all: set<Menu>, ghost pp: Menu?, ghost f: seq<Tree>,
                          ghost prompted: set<Menu>)
      returns (ghost kids: seq<Tree>)
      requires menu in all && Seg(Snap(all), menu, pp, f, null) && Distinct(Pre(f)) && Prompts(DataOf(all), prompted)
      requires menu.list != null
      modifies this, Nodes(f)
      ensures Gathered(modules, prompted, Snap(all), old(Now(all)), Now(all), menu, pp, f, kids, f[1..], 1)
      ensures Prompts(DataOf(all), prompted)
      ensures Logged(old(log), log, Pre(kids))
      decreases |Pre(f)|, 0
    {
      hide Logged, Seg, Pre, Distinct, Prompts, Gathered, CleanBelow, Spread, Effect, Nodes;
      ghost var k, s0 := Snap(all), Now(all);
      HeadParts(k, menu, pp, f);
      ghost var s1;
      kids, s1 := PropagateAndFinalize(menu, all, f[0].kids, prompted);
      GatheredChildren(modules, prompted, k, s0, menu, pp, f, s1, Snap(all), Now(all), kids);
    }

    // Both loops over the children f of menu.
    method PropagateAndFinalize(menu: Menu, ghost all: set<Menu>, ghost f: seq<Tree>, ghost prompted: set<Menu>)
      returns (ghost kids: seq<Tree>, ghost s1: Facts)
      requires menu in all && menu !in Nodes(f) && Seg(Snap(all), menu.list, menu, f, null)
      requires Distinct(Pre(f)) && Prompts(DataOf(all), prompted)
      modifies this, Nodes(f)
      ensures Outside(Nodes(f), old(Snap(all)), Snap(all), old(DataOf(all)), DataOf(all))
      ensures Seg(Snap(all), menu.list, menu, kids, null) && Pre(kids) == Pre(f) && CleanBelow(prompted, kids)
      ensures Spread(modules, old(menu.ItemDep()), f, old(Now(all)), s1) && Effect(modules, f, s1, Now(all))
      ensures kids == Siblings(prompted, DataOf(all), f)
      ensures Prompts(DataOf(all), prompted) && Logged(old(log), log, Pre(f))
      decreases |Pre(f)|, 6
    {
      hide Logged, Seg, Pre, Distinct, Prompts, CleanBelow, Spread, Effect, Nodes, Siblings;
      ghost var k0, s0 := Snap(all), Now(all);
      PropagateAll(menu, menu.ItemDep(), all, f);
      s1 := Now(all);
      SpreadPrompts(modules, old(menu.ItemDep()), f, s0, s1, prompted);
      kids := FinalizeKids(menu, all, f, prompted);
      assert Outside(Nodes(f), k0, Snap(all), s0.data, DataOf(all)) by {
        forall m <- all - Nodes(f)
          ensures Link(m.next, m.list, m.parent) == k0[m] && Data(m.prompt, m.dep, m.props) == s0.data[m]
        {
        }
      }
    }

    // menu_finalize: menu becomes the final tree t, and every node of t has been finalised once.
    method FinalizeMenu(menu: Menu, ghost all: set<Menu>, ghost pp: Menu?, ghost f: seq<Tree>,
                        ghost prompted: set<Menu>)
      returns (ghost t: Tree, ghost left: seq<Tree>, ghost j: nat)
      requires menu in all && Seg(Snap(all), menu, pp, f, null) && Distinct(Pre(f)) && Prompts(DataOf(all), prompted)
      modifies this, Nodes(f)
      ensures Done(modules, prompted, Snap(all), old(Now(all)), Now(all), menu, pp, f, t, left, j)
      ensures Outside(Nodes(f), old(Snap(all)), Snap(all), old(DataOf(all)), DataOf(all))
      ensures Prompts(DataOf(all), prompted)
      ensures Logged(old(log), log, Pre([t]))
      decreases |Pre(f)|, 3
    {
      hide Logged, Seg, Pre, Distinct, Prompts, Done, Flattened, Nodes;
      ghost var k0, s0 := Snap(all), Now(all);
      log := log + [menu];
      ghost var kids;
      t, kids, left, j := GatherAndFlatten(menu, all, pp, f, prompted);
      LoggedHead(old(log), log, menu, Pre(kids));
      assert Outside(Nodes(f), k0, Snap(all), s0.data, DataOf(all)) by {
        forall m <- all - Nodes(f)
          ensures Link(m.next, m.list, m.parent) == k0[m] && Data(m.prompt, m.dep, m.props) == s0.data[m]
        {
        }
      }
    }

    // Both halves of menu_finalize.
    method GatherAndFlatten(menu: Menu, ghost all: set<Menu>, ghost pp: Menu?, ghost f: seq<Tree>,
                            ghost prompted: set<Menu>)
      returns (ghost t: Tree, ghost kids: seq<Tree>, ghost left: seq<Tree>, ghost j: nat)
      requires menu in all && Seg(Snap(all), menu, pp, f, null) && Distinct(Pre(f)) && Prompts(DataOf(all), prompted)
      modifies this, Nodes(f)
      ensures t == Tree(menu, Flattened(prompted, kids)) && Pre([t]) == [menu] + Pre(kids)
      ensures Done(modules, prompted, Snap(all), old(Now(all)), Now(all), menu, pp, f, t, left, j)
      ensures Prompts(DataOf(all), prompted)
      ensures Logged(old(log), log, Pre(kids))
      decreases |Pre(f)|, 2
    {
      hide Logged, Seg, Pre, Distinct, Prompts, Done, Gathered, Flattened, Nodes;
      ghost var s0 := Now(all);
      HeadParts(Snap(all), menu, pp, f);
      kids, left, j := Gather(menu, all, pp, f, prompted);
      t := FlattenKids(menu, all, s0, pp, f, kids, left, j, prompted);
    }

    // The second half: the children of menu are flattened.
    method FlattenKids(menu: Menu, ghost all: set<Menu>, ghost s0: Facts, ghost pp: Menu?, ghost f: seq<Tree>,
                       ghost kids: seq<Tree>, ghost left: seq<Tree>, ghost j: nat, ghost prompted: set<Menu>)
      returns (ghost t: Tree)
      requires menu in all && Nodes(f) <= all && Distinct(Pre(f)) && Prompts(DataOf(all), prompted)
      requires Gathered(modules, prompted, Snap(all), s0, Now(all), menu, pp, f, kids, left, j)
      modifies Nodes(f)`next, Nodes(f)`list, Nodes(f)`parent
      ensures t == Tree(menu, Flattened(prompted, kids)) && Pre([t]) == [menu] + Pre(kids)
      ensures DataOf(all) == old(DataOf(all))
      ensures Done(modules, prompted, Snap(all), s0, Now(all), menu, pp, f, t, left, j)
    {
      hide Seg, Pre, Distinct, Prompts, Done, Gathered, Flattened, Nodes;
      ghost var k, s := Snap(all), Now(all);
      GatheredParts(modules, prompted, k, s0, s, menu, pp, f, kids, left, j);
      PromptsWithin(all, Nodes(kids), prompted);
      Flatten(menu, all, kids, prompted);
      t := Tree(menu, Flattened(prompted, kids));
      GatheredDone(modules, prompted, k, s0, s, menu, pp, f, kids, left, j, Snap(all));
    }

    lemma PromptsWithin(all: set<Menu>, ms: set<Menu>, prompted: set<Menu>)
      requires Prompts(DataOf(all), prompted) && ms <= all
      ensures PromptsOf(ms, prompted)
    {
      forall m <- ms
        ensures m in prompted <==> m.HasPrompt()
      {
        assert DataOf(all)[m] == Data(m.prompt, m.dep, m.props);
      }
    }
  }
}
