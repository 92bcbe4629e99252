// Where every menu ends up: the final tree as a function of the tree that was built and of the
// dependencies after propagation (menu_finalize in menu.c).
module MenuArrange {
  import opened Wrappers
  import opened Expr
  import opened Submenu
  import opened MenuTree
  import opened MenuFlatten
  import opened MenuEffect

  // r is the end of f.
  predicate Rest(r: seq<Tree>, f: seq<Tree>) { |r| <= |f| && r == f[|f| - |r|..] }

  lemma RestTrans(a: seq<Tree>, b: seq<Tree>, c: seq<Tree>)
    requires Rest(a, b) && Rest(b, c)
    ensures Rest(a, c)
  {
    assert b[|b| - |a|..] == c[|c| - |b|..][|b| - |a|..] == c[|c| - |a|..];
  }

  lemma RestTail(r: seq<Tree>, f: seq<Tree>)
    requires f != [] && Rest(r, f[1..])
    ensures Rest(r, f) && |r| < |f|
  {
    RestTrans(r, f[1..], f);
  }

  // The siblings f behind a menu of symbol s: those that move under it, finalised themselves,
  // and those that stay.  Each one moved first takes over siblings of its own.
  ghost function TakenBehind(prompted: set<Menu>, d: map<Menu, Data>, promptDep: Option<Expr>, s: Sym,
                             f: seq<Tree>): (r: (seq<Tree>, seq<Tree>))
    ensures Rest(r.1, f)
    decreases f, 2
  {
    if f == [] || !Moves(d, f[0].node, promptDep, s) then ([], f)
    else
      var (x, rest) := Final(prompted, d, f);
      var (moved, left) := TakenBehind(prompted, d, promptDep, s, rest);
      RestTrans(left, rest, f);
      ([x] + moved, left)
  }

  ghost predicate Moves(d: map<Menu, Data>, m: Menu, promptDep: Option<Expr>, s: Sym) {
    m in d && BelongsUnder(d[m].ItemDep(), promptDep, s)
  }

  // The children of the first of f before flattening, and the siblings it does not take over.
  ghost function Kids(prompted: set<Menu>, d: map<Menu, Data>, f: seq<Tree>): (r: (seq<Tree>, seq<Tree>))
    requires f != []
    ensures Rest(r.1, f) && |r.1| < |f|
    decreases f, 0
  {
    var n := f[0].node;
    if f[0].kids != [] then Behind(f, Siblings(prompted, d, f[0].kids))
    else if n.sym.None? || n !in d then Behind(f, [])
    else
      var r := TakenBehind(prompted, d, d[n].PromptDep(), n.sym.value, f[1..]);
      RestTail(r.1, f);
      r
  }

  // Only the first of f is dealt with.
  ghost function Behind(f: seq<Tree>, kids: seq<Tree>): (r: (seq<Tree>, seq<Tree>))
    requires f != []
    ensures Rest(r.1, f) && |r.1| < |f|
  {
    (kids, f[1..])
  }

  // What menu_finalize makes of the first of the siblings f, and the siblings it leaves.
  ghost function Final(prompted: set<Menu>, d: map<Menu, Data>, f: seq<Tree>): (r: (Tree, seq<Tree>))
    requires f != []
    ensures Rest(r.1, f) && |r.1| < |f| && r.0.node == f[0].node
    decreases f, 1
  {
    var (kids, left) := Kids(prompted, d, f);
    (Tree(f[0].node, Flattened(prompted, kids)), left)
  }

  ghost function Siblings(prompted: set<Menu>, d: map<Menu, Data>, f: seq<Tree>): seq<Tree>
    decreases f, 2
  {
    if f == [] then []
    else
      var (x, rest) := Final(prompted, d, f);
      [x] + Siblings(prompted, d, rest)
  }

  // ----- one after the other -----

  // Finalising siblings from f on has given done, with todo still to come.
  ghost predicate Steps(prompted: set<Menu>, d: map<Menu, Data>, f: seq<Tree>, done: seq<Tree>, todo: seq<Tree>) {
    if done == [] then todo == f
    else
      && f != [] && Final(prompted, d, f).0 == done[0]
      && Steps(prompted, d, Final(prompted, d, f).1, done[1..], todo)
  }

  lemma {:induction false} StepsSnoc(prompted: set<Menu>, d: map<Menu, Data>, f: seq<Tree>, done: seq<Tree>,
                                     todo: seq<Tree>)
    requires Steps(prompted, d, f, done, todo) && todo != []
    ensures var (x, r) := Final(prompted, d, todo); Steps(prompted, d, f, done + [x], r)
    decreases |done|
  {
    hide Final, Kids, Siblings, TakenBehind, Moves;
    var (x, r) := Final(prompted, d, todo);
    if done == [] {
      assert [x][1..] == [];
    } else {
      StepsSnoc(prompted, d, Final(prompted, d, f).1, done[1..], todo);
      assert (done + [x])[1..] == done[1..] + [x];
    }
  }

  lemma {:induction false} StepsAll(prompted: set<Menu>, d: map<Menu, Data>, f: seq<Tree>, done: seq<Tree>)
    requires Steps(prompted, d, f, done, [])
    ensures Siblings(prompted, d, f) == done
    decreases |done|
  {
    hide Final, Kids, TakenBehind, Moves;
    if done != [] {
      StepsAll(prompted, d, Final(prompted, d, f).1, done[1..]);
      assert done == [done[0]] + done[1..];
    }
  }

  lemma {:induction false} StepsTaken(prompted: set<Menu>, d: map<Menu, Data>, promptDep: Option<Expr>, s: Sym,
                                      f: seq<Tree>, moved: seq<Tree>, left: seq<Tree>)
    requires Steps(prompted, d, f, moved, left)
    requires forall x <- moved :: Moves(d, x.node, promptDep, s)
    requires left != [] ==> !Moves(d, left[0].node, promptDep, s)
    ensures TakenBehind(prompted, d, promptDep, s, f) == (moved, left)
    decreases |moved|
  {
    hide Final, Kids, Siblings, Moves, TakenBehind, Rest;
    if moved == [] {
      TakenNone(prompted, d, promptDep, s, f);
    } else {
      assert moved[0] in moved;
      StepsTaken(prompted, d, promptDep, s, Final(prompted, d, f).1, moved[1..], left);
      TakenFirst(prompted, d, promptDep, s, f);
      assert moved == [moved[0]] + moved[1..];
    }
  }

  lemma TakenNone(prompted: set<Menu>, d: map<Menu, Data>, promptDep: Option<Expr>, s: Sym, f: seq<Tree>)
    requires f == [] || !Moves(d, f[0].node, promptDep, s)
    ensures TakenBehind(prompted, d, promptDep, s, f) == ([], f)
  {
  }

  lemma TakenFirst(prompted: set<Menu>, d: map<Menu, Data>, promptDep: Option<Expr>, s: Sym, f: seq<Tree>)
    requires f != [] && Moves(d, f[0].node, promptDep, s)
    ensures var (x, rest) := Final(prompted, d, f);
      var (moved, left) := TakenBehind(prompted, d, promptDep, s, rest);
      TakenBehind(prompted, d, promptDep, s, f) == ([x] + moved, left)
  {
    hide Final, Moves;
  }

  lemma {:induction false} StepsRest(prompted: set<Menu>, d: map<Menu, Data>, f: seq<Tree>, done: seq<Tree>,
                                     todo: seq<Tree>)
    requires Steps(prompted, d, f, done, todo)
    ensures Rest(todo, f)
    ensures forall x <- done :: x.node in Roots(f)
    decreases |done|
  {
    if done != [] {
      hide Final, Kids, Siblings, TakenBehind, Moves, Roots, Nodes, Rest;
      var r := Final(prompted, d, f).1;
      StepsRest(prompted, d, r, done[1..], todo);
      RestTrans(todo, r, f);
      RestRoots(r, f);
      assert done == [done[0]] + done[1..];
    }
  }

  lemma {:induction false} RestRoots(r: seq<Tree>, f: seq<Tree>)
    requires Rest(r, f) && f != []
    ensures Roots(r) <= Roots(f) && f[0].node in Roots(f)
  {
    RootsOfRest(f, |f| - |r|);
  }

  lemma {:induction false} RootsOfRest(f: seq<Tree>, i: nat)
    requires i <= |f|
    ensures Roots(f[i..]) <= Roots(f) && Nodes(f[i..]) <= Nodes(f) && Nodes(f[..i]) <= Nodes(f)
    ensures Roots(f) <= Nodes(f[..i]) + Roots(f[i..])
  {
    assert f == f[..i] + f[i..];
    RootsAppend(f[..i], f[i..]);
    PreAppend(f[..i], f[i..]);
    RootsAreNodes(f[..i]);
  }

  // ----- only the data of the nodes dealt with, and of their siblings, matter -----

  ghost predicate Same(f: seq<Tree>, left: seq<Tree>, d: map<Menu, Data>, e: map<Menu, Data>) {
    |left| <= |f| && Agree(Nodes(f[..|f| - |left|]) + Roots(f), d, e)
  }

  lemma {:induction false} SameInside(f: seq<Tree>, mid: seq<Tree>, left: seq<Tree>, d: map<Menu, Data>,
                                      e: map<Menu, Data>)
    requires Same(f, left, d, e) && |left| <= |mid| && Rest(mid, f)
    ensures Same(f, mid, d, e) && Same(mid, left, d, e)
  {
    hide Nodes, Roots;
    var i, n := |f| - |mid|, |f| - |left|;
    assert f[..n][..i] == f[..i] && f[..n][i..] == f[i..][..n - i];
    assert f[i..] == mid && |mid| - |left| == n - i;
    RootsOfRest(f[..n], i);
    RootsOfRest(f, i);
    assert Nodes(f[..i]) <= Nodes(f[..n]) && Nodes(mid[..n - i]) <= Nodes(f[..n]) && Roots(mid) <= Roots(f);
  }

  lemma {:induction false} SameHead(f: seq<Tree>, left: seq<Tree>, d: map<Menu, Data>, e: map<Menu, Data>)
    requires f != [] && |left| < |f| && Same(f, left, d, e)
    ensures f[0].node in d && f[0].node in e && d[f[0].node] == e[f[0].node] && Agree(Nodes(f[0].kids), d, e)
  {
    assert f[0] == f[..|f| - |left|][0];
    SubNodes(f[..|f| - |left|]);
  }

  lemma {:induction false} FinalSame(prompted: set<Menu>, d: map<Menu, Data>, e: map<Menu, Data>, f: seq<Tree>)
    requires f != [] && Same(f, Final(prompted, d, f).1, d, e)
    ensures Final(prompted, e, f) == Final(prompted, d, f) && Kids(prompted, e, f) == Kids(prompted, d, f)
    decreases f, 1
  {
    hide Siblings, TakenBehind, Moves, Same, Roots, Flattened, Pre;
    var left := Final(prompted, d, f).1;
    var n := f[0].node;
    SameHead(f, left, d, e);
    if f[0].kids != [] {
      SiblingsSame(prompted, d, e, f[0].kids);
    } else if n.sym.Some? {
      SameInside(f, f[1..], left, d, e);
      TakenSame(prompted, d, e, d[n].PromptDep(), n.sym.value, f[1..]);
    }
  }

  lemma {:induction false} SiblingsSame(prompted: set<Menu>, d: map<Menu, Data>, e: map<Menu, Data>, f: seq<Tree>)
    requires Agree(Nodes(f), d, e)
    ensures Siblings(prompted, e, f) == Siblings(prompted, d, f)
    decreases f, 2
  {
    hide Final, Kids, TakenBehind, Moves, Roots, Nodes, Flattened;
    if f != [] {
      var r := Final(prompted, d, f).1;
      RootsOfRest(f, |f| - |r|);
      RootsAreNodes(f);
      FinalSame(prompted, d, e, f);
      SiblingsSame(prompted, d, e, r);
    }
  }

  lemma {:induction false} SameRoot(f: seq<Tree>, left: seq<Tree>, promptDep: Option<Expr>, s: Sym, d: map<Menu, Data>,
                                    e: map<Menu, Data>)
    requires f != [] && Same(f, left, d, e)
    ensures Moves(d, f[0].node, promptDep, s) <==> Moves(e, f[0].node, promptDep, s)
  {
    assert f[0].node in Roots(f);
  }

  lemma {:induction false} TakenSame(prompted: set<Menu>, d: map<Menu, Data>, e: map<Menu, Data>,
                                     promptDep: Option<Expr>, s: Sym, f: seq<Tree>)
    requires Same(f, TakenBehind(prompted, d, promptDep, s, f).1, d, e)
    ensures TakenBehind(prompted, e, promptDep, s, f) == TakenBehind(prompted, d, promptDep, s, f)
    decreases f, 2
  {
    hide Final, Kids, Siblings, Moves, Same, Nodes, Flattened;
    if f != [] {
      SameRoot(f, TakenBehind(prompted, d, promptDep, s, f).1, promptDep, s, d, e);
      if Moves(d, f[0].node, promptDep, s) {
        var r := Final(prompted, d, f).1;
        SameInside(f, r, TakenBehind(prompted, d, promptDep, s, f).1, d, e);
        FinalSame(prompted, d, e, f);
        TakenSame(prompted, d, e, promptDep, s, r);
      }
    }
  }

  lemma {:induction false} StepsSame(prompted: set<Menu>, d: map<Menu, Data>, e: map<Menu, Data>, f: seq<Tree>,
                                     done: seq<Tree>, todo: seq<Tree>)
    requires Steps(prompted, d, f, done, todo) && Same(f, todo, d, e)
    ensures Steps(prompted, e, f, done, todo)
    decreases |done|
  {
    hide Final, Kids, Siblings, TakenBehind, Moves, Same, Roots, Nodes, Flattened;
    if done != [] {
      var r := Final(prompted, d, f).1;
      StepsRest(prompted, d, r, done[1..], todo);
      SameInside(f, r, todo, d, e);
      FinalSame(prompted, d, e, f);
      StepsSame(prompted, d, e, r, done[1..], todo);
    }
  }

  // ----- what automatic submenus hold -----

  ghost function PromptedIn(d: map<Menu, Data>): set<Menu> { set m | m in d && d[m].HasPrompt() }

  lemma {:induction false} TakenMove(prompted: set<Menu>, d: map<Menu, Data>, promptDep: Option<Expr>, s: Sym,
                                     f: seq<Tree>)
    ensures var (moved, left) := TakenBehind(prompted, d, promptDep, s, f);
      && (forall x <- moved :: Moves(d, x.node, promptDep, s) && x.node in Roots(f))
      && (left != [] ==> !Moves(d, left[0].node, promptDep, s))
    decreases |f|
  {
    hide Final, Kids, Siblings, Moves, Nodes;
    if f != [] && Moves(d, f[0].node, promptDep, s) {
      var (x, rest) := Final(prompted, d, f);
      TakenMove(prompted, d, promptDep, s, rest);
      RestRoots(rest, f);
      var (moved, left) := TakenBehind(prompted, d, promptDep, s, rest);
      assert TakenBehind(prompted, d, promptDep, s, f) == ([x] + moved, left);
    }
  }

  // The item with data a is sound below a symbol s whose prompt depends on promptDep.
  predicate SoundUnder(a: Data, promptDep: Option<Expr>, s: Sym, env: Env) {
    var dep := a.ItemDep();
    && dep.Some?
    && (DependsSymbol(dep.value, s) && TriOf(env, s) == NO ==> EvalOpt(dep, env) == NO)
    && ((!DependsSymbol(dep.value, s) && Readable(dep.value, promptDep, env)
         && EvalOpt(dep, env) != NO) ==> EvalOpt(promptDep, env) != NO)
  }

  // Every item that the final tree gets from an automatic submenu is sound there: it is n
  // whenever the symbol is, or visible only where the prompt of the symbol is.
  lemma {:induction false} SubmenuItemsSound(prompted: set<Menu>, d: map<Menu, Data>, f: seq<Tree>, env: Env)
    requires f != [] && f[0].kids == [] && f[0].node.sym.Some? && IsLogic(f[0].node.sym.value) && Sane(env)
    requires forall m <- Roots(f) :: m in d && DependencyOpt(d[m].ItemDep()) && DependencyOpt(d[m].PromptDep())
    ensures f[0].node in Roots(f)
    ensures forall x <- Kids(prompted, d, f).0 ::
      x.node in d && SoundUnder(d[x.node], d[f[0].node].PromptDep(), f[0].node.sym.value, env)
  {
    hide TakenBehind, Siblings, BelongsUnder, DependencyOpt, Readable, Nodes, EvalOpt;
    var n := f[0].node;
    RestRoots(f, f);
    RestRoots(f[1..], f);
    var promptDep, s := d[n].PromptDep(), n.sym.value;
    TakenMove(prompted, d, promptDep, s, f[1..]);
    forall x <- Kids(prompted, d, f).0
      ensures x.node in d && SoundUnder(d[x.node], promptDep, s, env)
    {
      ItemSound(d[x.node], promptDep, s, env);
    }
  }

  lemma ItemSound(a: Data, promptDep: Option<Expr>, s: Sym, env: Env)
    requires BelongsUnder(a.ItemDep(), promptDep, s) && IsLogic(s) && Sane(env)
    requires DependencyOpt(a.ItemDep()) && DependencyOpt(promptDep)
    ensures SoundUnder(a, promptDep, s, env)
  {
    hide Sane, DependencyOpt, Readable, EvalOpt, DependsSymbol;
    SubmenuSound(a.ItemDep(), promptDep, s, env);
  }
}
