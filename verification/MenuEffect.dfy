// What finalising menus does to the dependencies of their entries and to the reverse, implied
// and direct dependencies of symbols, stated on the original trees.
module MenuEffect {
  import opened Wrappers
  import opened Expr
  import opened Symbols
  import opened Propagate
  import opened MenuTree

  // prompt, dep and props of a node.
  datatype Data = Data(prompt: Option<nat>, dep: Option<Expr>, props: seq<MenuProp>) {
    predicate HasPrompt() { prompt.Some? && prompt.value < |props| && props[prompt.value].hasText }

    function PromptDep(): Option<Expr> {
      if prompt.Some? && prompt.value < |props| then props[prompt.value].cond else None
    }

    function ItemDep(): Option<Expr> {
      if prompt.Some? && prompt.value < |props| then props[prompt.value].cond else dep
    }
  }

  ghost function DataOf(ms: set<Menu>): map<Menu, Data>
    reads ms`prompt, ms`dep, ms`props
  {
    map m | m in ms :: if m in ms then Data(m.prompt, m.dep, m.props) else Data(None, None, [])
  }

  // The state of a finalisation apart from the pointers: rev_dep.expr, implied.expr and
  // dir_dep.expr of the symbols, where they are not NULL.
  datatype Facts = Facts(data: map<Menu, Data>, rev: map<Sym, Expr>, imp: map<Sym, Expr>, dir: map<Sym, Expr>)

  // ----- what one entry records -----

  function PropagatedProp(entryDep: Option<Expr>, p: MenuProp, sym: Option<Sym>, modules: Sym): MenuProp {
    p.(cond := PropertyCond(entryDep, p.cond, sym, modules))
  }

  // after is before with the dependency parentDep propagated into it.
  ghost predicate Propagated(modules: Sym, parentDep: Option<Expr>, sym: Option<Sym>, before: Data, after: Data) {
    && after.prompt == before.prompt
    && after.dep == EntryDep(parentDep, before.dep, modules)
    && |after.props| == |before.props|
    && forall i | 0 <= i < |before.props| :: after.props[i] == PropagatedProp(after.dep, before.props[i], sym, modules)
  }

  function AddOr(deps: map<Sym, Expr>, t: Sym, e: Expr): map<Sym, Expr> {
    deps[t := if t in deps then Bin(OpOr, deps[t], e) else e]
  }

  // What one property adds to the reverse dependencies of the symbols it selects (or implies).
  function AddTarget(deps: map<Sym, Expr>, kind: PropKind, sym: Sym, p: MenuProp): map<Sym, Expr> {
    if p.kind != kind || p.target.None? then deps
    else AddOr(deps, p.target.value, AllocBin(OpAnd, Some(Leaf(sym)), p.cond).value)
  }

  function AddTargets(deps: map<Sym, Expr>, kind: PropKind, sym: Option<Sym>, props: seq<MenuProp>): map<Sym, Expr> {
    if props == [] || sym.None? then deps
    else AddTarget(AddTargets(deps, kind, sym, props[..|props| - 1]), kind, sym.value, props[|props| - 1])
  }

  function DepValue(deps: map<Sym, Expr>, t: Sym, env: Env): Tri {
    if t in deps then Eval(deps[t], env) else NO
  }

  // The strongest value with which the properties of sym select (or imply) t.
  function SelectedWith(kind: PropKind, sym: Sym, props: seq<MenuProp>, t: Sym, env: Env): Tri {
    if props == [] then NO
    else
      var rest, p := SelectedWith(kind, sym, props[..|props| - 1], t, env), props[|props| - 1];
      if p.kind == kind && p.target == Some(t) then Max(rest, Min(TriOf(env, sym), EvalOpt(p.cond, env))) else rest
  }

  // A reverse dependency is the strongest of all selects that name the symbol.
  lemma {:induction false} AddTargetsValue(deps: map<Sym, Expr>, kind: PropKind, sym: Sym, props: seq<MenuProp>, t: Sym,
                                           env: Env)
    ensures DepValue(AddTargets(deps, kind, Some(sym), props), t, env)
      == Max(DepValue(deps, t, env), SelectedWith(kind, sym, props, t, env))
  {
    if props != [] {
      var n := |props| - 1;
      AddTargetsValue(deps, kind, sym, props[..n], t, env);
      AddTargetValue(AddTargets(deps, kind, Some(sym), props[..n]), kind, sym, props[n], t, env);
    }
  }

  lemma AddTargetValue(deps: map<Sym, Expr>, kind: PropKind, sym: Sym, p: MenuProp, t: Sym, env: Env)
    ensures DepValue(AddTarget(deps, kind, sym, p), t, env)
      == if p.kind == kind && p.target == Some(t)
         then Max(DepValue(deps, t, env), Min(TriOf(env, sym), EvalOpt(p.cond, env)))
         else DepValue(deps, t, env)
  {
    assert Eval(AllocBin(OpAnd, Some(Leaf(sym)), p.cond).value, env) == Min(TriOf(env, sym), EvalOpt(p.cond, env));
  }

  // ----- what whole trees record -----

  // The strongest value with which the node m selects (or implies) t.
  ghost function Own(kind: PropKind, m: Menu, d: map<Menu, Data>, t: Sym, env: Env): Tri {
    if m in d && m.sym.Some? then SelectedWith(kind, m.sym.value, d[m].props, t, env) else NO
  }

  // The same for the roots of f.
  ghost function OwnOf(kind: PropKind, f: seq<Tree>, d: map<Menu, Data>, t: Sym, env: Env): Tri {
    if f == [] then NO else Max(Own(kind, f[0].node, d, t, env), OwnOf(kind, f[1..], d, t, env))
  }

  // The same for all nodes below the roots of f.
  ghost function Below(kind: PropKind, f: seq<Tree>, d: map<Menu, Data>, t: Sym, env: Env): Tri {
    if f == [] then NO
    else Max(Max(OwnOf(kind, f[0].kids, d, t, env), Below(kind, f[0].kids, d, t, env)), Below(kind, f[1..], d, t, env))
  }

  // The dependency of a definition: a node without children for the symbol t.
  ghost function Definition(x: Tree, d: map<Menu, Data>, t: Sym, env: Env): Tri {
    if x.kids == [] && x.node in d && x.node.sym == Some(t) && d[x.node].dep.Some?
    then Eval(d[x.node].dep.value, env) else NO
  }

  // The strongest dependency of a definition of t in f.  A definition without dependencies counts
  // as n, because expr_alloc_or drops an operand that is NULL.
  ghost function Direct(f: seq<Tree>, d: map<Menu, Data>, t: Sym, env: Env): Tri {
    if f == [] then NO
    else Max(Max(Definition(f[0], d, t, env), Direct(f[0].kids, d, t, env)), Direct(f[1..], d, t, env))
  }

  // Every node of f got its parent's dependency, the roots of f the dependency dep.
  ghost predicate Inherits(modules: Sym, dep: Option<Expr>, f: seq<Tree>, d0: map<Menu, Data>, d: map<Menu, Data>)
    decreases f
  {
    f == [] || (
      var n := f[0].node;
      && n in d0 && n in d && Propagated(modules, dep, n.sym, d0[n], d[n])
      && Inherits(modules, d[n].ItemDep(), f[0].kids, d0, d)
      && Inherits(modules, dep, f[1..], d0, d))
  }

  // The roots of f are as before, every node below has its parent's dependency.
  ghost predicate Settled(modules: Sym, f: seq<Tree>, d0: map<Menu, Data>, d: map<Menu, Data>) {
    f == [] || (
      var n := f[0].node;
      && n in d0 && n in d && d[n] == d0[n]
      && Inherits(modules, d[n].ItemDep(), f[0].kids, d0, d)
      && Settled(modules, f[1..], d0, d))
  }

  ghost predicate Recorded(kind: PropKind, f: seq<Tree>, d: map<Menu, Data>, deps0: map<Sym, Expr>,
                           deps: map<Sym, Expr>) {
    forall t, env :: DepValue(deps, t, env) == Max(DepValue(deps0, t, env), Below(kind, f, d, t, env))
  }

  ghost predicate Directed(f: seq<Tree>, d: map<Menu, Data>, dir0: map<Sym, Expr>, dir: map<Sym, Expr>) {
    forall t, env :: DepValue(dir, t, env) == Max(DepValue(dir0, t, env), Direct(f, d, t, env))
  }

  // A direct dependency mentions what the dependencies of its definitions mention, and nothing
  // else; the definitions are the leaves of the trees.
  ghost predicate Named(ms: set<Menu>, leaves: set<Menu>, d: map<Menu, Data>, dir0: map<Sym, Expr>,
                        dir: map<Sym, Expr>) {
    && (forall t <- dir, x <- Syms(dir[t]) :: (t in dir0 && x in Syms(dir0[t])) || NamedBy(ms, d, t, x))
    && (forall t <- dir0 :: t in dir && Syms(dir0[t]) <= Syms(dir[t]))
    && (forall m <- leaves :: Covered(m, d, dir))
  }

  ghost predicate Covered(m: Menu, d: map<Menu, Data>, dir: map<Sym, Expr>) {
    m in d && m.sym.Some? && d[m].dep.Some? ==>
      m.sym.value in dir && Syms(d[m].dep.value) <= Syms(dir[m.sym.value])
  }

  ghost function Leaves(f: seq<Tree>): set<Menu> {
    if f == [] then {} else (if f[0].kids == [] then {f[0].node} else Leaves(f[0].kids)) + Leaves(f[1..])
  }

  ghost predicate NamedBy(ms: set<Menu>, d: map<Menu, Data>, t: Sym, x: Sym) {
    exists m <- ms :: m in d && m.sym == Some(t) && d[m].dep.Some? && x in Syms(d[m].dep.value)
  }

  // What finalising the trees f does to the facts: every dependency is passed down once and
  // every select, imply and definition is recorded once.
  ghost predicate Effect(modules: Sym, f: seq<Tree>, s0: Facts, s: Facts) {
    && Settled(modules, f, s0.data, s.data)
    && Recorded(PSelect, f, s.data, s0.rev, s.rev)
    && Recorded(PImply, f, s.data, s0.imp, s.imp)
    && Directed(f, s.data, s0.dir, s.dir)
    && Named(Nodes(f), Leaves(f), s.data, s0.dir, s.dir)
  }

  ghost predicate Agree(ms: set<Menu>, d: map<Menu, Data>, e: map<Menu, Data>) {
    forall m <- ms :: m in d && m in e && d[m] == e[m]
  }

  lemma {:induction false} InheritsSame(modules: Sym, dep: Option<Expr>, f: seq<Tree>, d0: map<Menu, Data>,
                                        d: map<Menu, Data>, e0: map<Menu, Data>, e: map<Menu, Data>)
    requires Inherits(modules, dep, f, d0, d) && Agree(Nodes(f), d0, e0) && Agree(Nodes(f), d, e)
    ensures Inherits(modules, dep, f, e0, e)
    decreases f
  {
    if f != [] {
      SubNodes(f);
      InheritsSame(modules, d[f[0].node].ItemDep(), f[0].kids, d0, d, e0, e);
      InheritsSame(modules, dep, f[1..], d0, d, e0, e);
    }
  }

  lemma {:induction false} SettledSame(modules: Sym, f: seq<Tree>, d0: map<Menu, Data>, d: map<Menu, Data>,
                                       e0: map<Menu, Data>, e: map<Menu, Data>)
    requires Settled(modules, f, d0, d) && Agree(Nodes(f), d0, e0) && Agree(Nodes(f), d, e)
    ensures Settled(modules, f, e0, e)
  {
    if f != [] {
      SubNodes(f);
      InheritsSame(modules, d[f[0].node].ItemDep(), f[0].kids, d0, d, e0, e);
      SettledSame(modules, f[1..], d0, d, e0, e);
    }
  }

  lemma {:induction false} OwnOfSame(kind: PropKind, f: seq<Tree>, d: map<Menu, Data>, e: map<Menu, Data>, t: Sym,
                                     env: Env)
    requires Agree(Roots(f), d, e)
    ensures OwnOf(kind, f, d, t, env) == OwnOf(kind, f, e, t, env)
  {
    if f != [] { OwnOfSame(kind, f[1..], d, e, t, env); }
  }

  lemma {:induction false} BelowSame(kind: PropKind, f: seq<Tree>, d: map<Menu, Data>, e: map<Menu, Data>, t: Sym,
                                     env: Env)
    requires Agree(Nodes(f), d, e)
    ensures Below(kind, f, d, t, env) == Below(kind, f, e, t, env)
    decreases f
  {
    if f != [] {
      SubNodes(f);
      RootsAreNodes(f[0].kids);
      OwnOfSame(kind, f[0].kids, d, e, t, env);
      BelowSame(kind, f[0].kids, d, e, t, env);
      BelowSame(kind, f[1..], d, e, t, env);
    }
  }

  lemma {:induction false} DirectSame(f: seq<Tree>, d: map<Menu, Data>, e: map<Menu, Data>, t: Sym, env: Env)
    requires Agree(Nodes(f), d, e)
    ensures Direct(f, d, t, env) == Direct(f, e, t, env)
    decreases f
  {
    if f != [] {
      SubNodes(f);
      DirectSame(f[0].kids, d, e, t, env);
      DirectSame(f[1..], d, e, t, env);
    }
  }

  lemma {:induction false} SettledAppend(modules: Sym, f: seq<Tree>, g: seq<Tree>, d0: map<Menu, Data>,
                                         d: map<Menu, Data>)
    requires Settled(modules, f, d0, d) && Settled(modules, g, d0, d)
    ensures Settled(modules, f + g, d0, d)
  {
    if f == [] {
      assert f + g == g;
    } else {
      assert (f + g)[0] == f[0] && (f + g)[1..] == f[1..] + g;
      SettledAppend(modules, f[1..], g, d0, d);
    }
  }

  lemma {:induction false} BelowAppend(kind: PropKind, f: seq<Tree>, g: seq<Tree>, d: map<Menu, Data>, t: Sym, env: Env)
    ensures Below(kind, f + g, d, t, env) == Max(Below(kind, f, d, t, env), Below(kind, g, d, t, env))
  {
    if f == [] {
      assert f + g == g;
    } else {
      assert (f + g)[0] == f[0] && (f + g)[1..] == f[1..] + g;
      BelowAppend(kind, f[1..], g, d, t, env);
    }
  }

  lemma {:induction false} DirectAppend(f: seq<Tree>, g: seq<Tree>, d: map<Menu, Data>, t: Sym, env: Env)
    ensures Direct(f + g, d, t, env) == Max(Direct(f, d, t, env), Direct(g, d, t, env))
  {
    if f == [] {
      assert f + g == g;
    } else {
      assert (f + g)[0] == f[0] && (f + g)[1..] == f[1..] + g;
      DirectAppend(f[1..], g, d, t, env);
    }
  }

  lemma RecordedAppend(kind: PropKind, f: seq<Tree>, g: seq<Tree>, d1: map<Menu, Data>, d2: map<Menu, Data>,
                       a: map<Sym, Expr>, b: map<Sym, Expr>, c: map<Sym, Expr>)
    requires Recorded(kind, f, d1, a, b) && Recorded(kind, g, d2, b, c) && Agree(Nodes(f), d1, d2)
    ensures Recorded(kind, f + g, d2, a, c)
  {
    forall t, env
      ensures DepValue(c, t, env) == Max(DepValue(a, t, env), Below(kind, f + g, d2, t, env))
    {
      BelowAppend(kind, f, g, d2, t, env);
      BelowSame(kind, f, d1, d2, t, env);
    }
  }

  lemma DirectedAppend(f: seq<Tree>, g: seq<Tree>, d1: map<Menu, Data>, d2: map<Menu, Data>,
                       a: map<Sym, Expr>, b: map<Sym, Expr>, c: map<Sym, Expr>)
    requires Directed(f, d1, a, b) && Directed(g, d2, b, c) && Agree(Nodes(f), d1, d2)
    ensures Directed(f + g, d2, a, c)
  {
    forall t, env
      ensures DepValue(c, t, env) == Max(DepValue(a, t, env), Direct(f + g, d2, t, env))
    {
      DirectAppend(f, g, d2, t, env);
      DirectSame(f, d1, d2, t, env);
    }
  }

  lemma {:induction false} NamedAppend(ms: set<Menu>, ls: set<Menu>, ns: set<Menu>, ks: set<Menu>, d1: map<Menu, Data>,
                                       d2: map<Menu, Data>, a: map<Sym, Expr>, b: map<Sym, Expr>, c: map<Sym, Expr>)
    requires Named(ms, ls, d1, a, b) && Named(ns, ks, d2, b, c) && Agree(ms, d1, d2) && ls <= ms
    ensures Named(ms + ns, ls + ks, d2, a, c)
  {
    forall t <- c, x <- Syms(c[t])
      ensures (t in a && x in Syms(a[t])) || NamedBy(ms + ns, d2, t, x)
    {
      if !NamedBy(ns, d2, t, x) {
        assert t in b && x in Syms(b[t]);
      }
    }
    forall m <- ls
      ensures Covered(m, d2, c)
    {
      assert Covered(m, d1, b);
    }
  }

  lemma {:induction false} NamedMore(ms: set<Menu>, ns: set<Menu>, ls: set<Menu>, d: map<Menu, Data>,
                                     a: map<Sym, Expr>, b: map<Sym, Expr>)
    requires Named(ms, ls, d, a, b) && ms <= ns
    ensures Named(ns, ls, d, a, b)
  {
  }

  lemma {:induction false} NamedLeaf(m: Menu, ms: set<Menu>, ns: set<Menu>, ls: set<Menu>, d: map<Menu, Data>,
                                     a: map<Sym, Expr>, b: map<Sym, Expr>)
    requires Named(ms, ls, d, a, b) && ms + {m} <= ns && m.sym.Some? && m in d
    ensures Named(ns, {m} + ls, d, a, if d[m].dep.Some? then AddOr(b, m.sym.value, d[m].dep.value) else b)
  {
    var c := if d[m].dep.Some? then AddOr(b, m.sym.value, d[m].dep.value) else b;
    forall t <- c, x <- Syms(c[t])
      ensures (t in a && x in Syms(a[t])) || NamedBy(ns, d, t, x)
    {
      if t in b && x in Syms(b[t]) {
        assert (t in a && x in Syms(a[t])) || NamedBy(ms, d, t, x);
      } else {
        assert m in ns && m.sym == Some(t) && d[m].dep.Some? && x in Syms(d[m].dep.value);
      }
    }
    forall l <- ls
      ensures Covered(l, d, c)
    {
      assert Covered(l, d, b);
    }
  }

  lemma {:induction false} LeavesAppend(f: seq<Tree>, g: seq<Tree>)
    ensures Leaves(f + g) == Leaves(f) + Leaves(g)
  {
    if f == [] {
      assert f + g == g;
    } else {
      assert (f + g)[0] == f[0] && (f + g)[1..] == f[1..] + g;
      LeavesAppend(f[1..], g);
    }
  }

  lemma {:induction false} LeavesOne(x: Tree)
    ensures Leaves([x]) == if x.kids == [] then {x.node} else Leaves(x.kids)
  {
    assert [x][1..] == [] && Leaves([]) == {};
  }

  lemma {:induction false} LeavesAreNodes(f: seq<Tree>)
    ensures Leaves(f) <= Nodes(f)
    decreases f
  {
    if f != [] {
      SubNodes(f);
      LeavesAreNodes(f[0].kids);
      LeavesAreNodes(f[1..]);
    }
  }

  lemma {:induction false} NodesAppend(f: seq<Tree>, g: seq<Tree>)
    ensures Nodes(f + g) == Nodes(f) + Nodes(g)
  {
    PreAppend(f, g);
  }

  // Finalising f and then g, which have no node in common.
  lemma EffectAppend(modules: Sym, f: seq<Tree>, g: seq<Tree>, s0: Facts, s1: Facts, s2: Facts)
    requires Effect(modules, f, s0, s1) && Effect(modules, g, s1, s2)
    requires Agree(Nodes(f), s1.data, s2.data) && Agree(Nodes(f), s0.data, s0.data)
    requires Agree(Nodes(g), s0.data, s1.data) && Agree(Nodes(g), s2.data, s2.data)
    ensures Effect(modules, f + g, s0, s2)
  {
    hide Settled, Recorded, Directed, Named;
    LeavesAreNodes(f);
    LeavesAppend(f, g);
    NamedAppend(Nodes(f), Leaves(f), Nodes(g), Leaves(g), s1.data, s2.data, s0.dir, s1.dir, s2.dir);
    NodesAppend(f, g);
    SettledSame(modules, f, s0.data, s1.data, s0.data, s2.data);
    AgreeSym(Nodes(g), s0.data, s1.data);
    SettledSame(modules, g, s1.data, s2.data, s0.data, s2.data);
    SettledAppend(modules, f, g, s0.data, s2.data);
    RecordedAppend(PSelect, f, g, s1.data, s2.data, s0.rev, s1.rev, s2.rev);
    RecordedAppend(PImply, f, g, s1.data, s2.data, s0.imp, s1.imp, s2.imp);
    DirectedAppend(f, g, s1.data, s2.data, s0.dir, s1.dir, s2.dir);
  }

  lemma AgreeSym(ms: set<Menu>, d: map<Menu, Data>, e: map<Menu, Data>)
    requires Agree(ms, d, e)
    ensures Agree(ms, e, d)
  {
  }

  lemma EffectNone(modules: Sym, s: Facts)
    ensures Effect(modules, [], s, s)
  {
  }

  // ----- one node with its children -----

  ghost predicate Gained(kind: PropKind, f: seq<Tree>, d: map<Menu, Data>, deps0: map<Sym, Expr>,
                         deps: map<Sym, Expr>) {
    forall t, env :: DepValue(deps, t, env) == Max(DepValue(deps0, t, env), OwnOf(kind, f, d, t, env))
  }

  // What the first loop of menu_finalize does: the roots of f get the dependency dep and what
  // they select and imply is recorded; nothing else changes.
  ghost predicate Spread(modules: Sym, dep: Option<Expr>, f: seq<Tree>, s0: Facts, s: Facts) {
    && s.data.Keys == s0.data.Keys && Roots(f) <= s.data.Keys
    && (forall m <- Roots(f) :: Propagated(modules, dep, m.sym, s0.data[m], s.data[m]))
    && (forall m <- s.data.Keys - Roots(f) :: s.data[m] == s0.data[m])
    && Gained(PSelect, f, s.data, s0.rev, s.rev) && Gained(PImply, f, s.data, s0.imp, s.imp)
    && s.dir == s0.dir
  }

  lemma SpreadNone(modules: Sym, dep: Option<Expr>, s: Facts)
    ensures Spread(modules, dep, [], s, s)
  {
  }

  lemma {:induction false} OwnOfAppend(kind: PropKind, f: seq<Tree>, g: seq<Tree>, d: map<Menu, Data>, t: Sym, env: Env)
    ensures OwnOf(kind, f + g, d, t, env) == Max(OwnOf(kind, f, d, t, env), OwnOf(kind, g, d, t, env))
  {
    if f == [] {
      assert f + g == g;
    } else {
      assert (f + g)[0] == f[0] && (f + g)[1..] == f[1..] + g;
      OwnOfAppend(kind, f[1..], g, d, t, env);
    }
  }

  lemma {:induction false} GainedStep(kind: PropKind, f: seq<Tree>, x: Tree, d: map<Menu, Data>, d': map<Menu, Data>,
                   a: map<Sym, Expr>, b: map<Sym, Expr>, c: map<Sym, Expr>)
    requires Gained(kind, f, d, a, b) && Agree(Roots(f), d, d') && x.node in d'
    requires c == AddTargets(b, kind, x.node.sym, d'[x.node].props)
    ensures Gained(kind, f + [x], d', a, c)
  {
    forall t, env
      ensures DepValue(c, t, env) == Max(DepValue(a, t, env), OwnOf(kind, f + [x], d', t, env))
    {
      OwnOfSame(kind, f, d, d', t, env);
      OwnOfAppend(kind, f, [x], d', t, env);
      assert [x][1..] == [];
      if x.node.sym.Some? { AddTargetsValue(b, kind, x.node.sym.value, d'[x.node].props, t, env); }
    }
  }

  // One more root.
  lemma {:induction false} SpreadStep(modules: Sym, dep: Option<Expr>, f: seq<Tree>, x: Tree, s0: Facts, s: Facts,
                                      s': Facts)
    requires Spread(modules, dep, f, s0, s) && x.node in s.data && x.node !in Roots(f)
    requires s'.data.Keys == s.data.Keys && forall m <- s.data | m != x.node :: s'.data[m] == s.data[m]
    requires Propagated(modules, dep, x.node.sym, s.data[x.node], s'.data[x.node])
    requires s'.rev == AddTargets(s.rev, PSelect, x.node.sym, s'.data[x.node].props)
    requires s'.imp == AddTargets(s.imp, PImply, x.node.sym, s'.data[x.node].props)
    requires s'.dir == s.dir
    ensures Spread(modules, dep, f + [x], s0, s')
  {
    hide Gained, Propagated, Own, OwnOf, AddTargets, SelectedWith;
    RootsSnoc(f, x);
    GainedStep(PSelect, f, x, s.data, s'.data, s0.rev, s.rev, s'.rev);
    GainedStep(PImply, f, x, s.data, s'.data, s0.imp, s.imp, s'.imp);
  }

  lemma {:induction false} RootsAppend(f: seq<Tree>, g: seq<Tree>)
    ensures Roots(f + g) == Roots(f) + Roots(g)
  {
    if f == [] {
      assert f + g == g;
    } else {
      assert (f + g)[0] == f[0] && (f + g)[1..] == f[1..] + g;
      RootsAppend(f[1..], g);
    }
  }

  lemma {:induction false} RootsSnoc(f: seq<Tree>, x: Tree)
    ensures Roots(f + [x]) == Roots(f) + {x.node}
  {
    RootsAppend(f, [x]);
    assert [x][1..] == [] && Roots([x]) == {x.node};
  }

  lemma {:induction false} InheritsIntro(modules: Sym, dep: Option<Expr>, f: seq<Tree>, d0: map<Menu, Data>,
                                         d1: map<Menu, Data>, d2: map<Menu, Data>)
    requires Distinct(Pre(f)) && Settled(modules, f, d1, d2) && Nodes(f) <= d2.Keys
    requires forall m <- Roots(f) :: m in d0 && m in d1 && Propagated(modules, dep, m.sym, d0[m], d1[m])
    requires forall m <- Nodes(f) - Roots(f) :: m in d0 && m in d1 && d1[m] == d0[m]
    ensures Inherits(modules, dep, f, d0, d2)
  {
    if f != [] {
      hide Propagated, Pre, Distinct;
      SubNodes(f);
      Apart(f);
      RootsAreNodes(f[1..]);
      var x := f[0];
      InheritsSame(modules, d2[x.node].ItemDep(), x.kids, d1, d2, d0, d2);
      InheritsIntro(modules, dep, f[1..], d0, d1, d2);
    }
  }

  // A node with children: the dependency is passed to the children, then they are finalised.
  lemma EffectOfChildren(modules: Sym, x: Tree, s0: Facts, s1: Facts, s2: Facts)
    requires Distinct(Pre([x])) && x.kids != [] && x.node in s0.data && x.node in s2.data
    requires s2.data[x.node] == s0.data[x.node]
    requires Nodes(x.kids) <= s0.data.Keys && Nodes(x.kids) <= s2.data.Keys
    requires Spread(modules, s0.data[x.node].ItemDep(), x.kids, s0, s1) && Effect(modules, x.kids, s1, s2)
    ensures Effect(modules, [x], s0, s2)
  {
    hide Propagated, Own, Settled, Recorded, Directed, Gained, Pre, Distinct, Named;
    SubNodes([x]);
    LeavesOne(x);
    NamedMore(Nodes(x.kids), Nodes([x]), Leaves(x.kids), s2.data, s0.dir, s2.dir);
    SettledChildren(modules, x, s0, s1, s2);
    RootsStay(modules, x.kids, s1.data, s2.data);
    RecordedChildren(PSelect, x, s1.data, s2.data, s0.rev, s1.rev, s2.rev);
    RecordedChildren(PImply, x, s1.data, s2.data, s0.imp, s1.imp, s2.imp);
    DirectedChildren(x, s2.data, s0.dir, s2.dir);
  }

  lemma {:induction false} SettledChildren(modules: Sym, x: Tree, s0: Facts, s1: Facts, s2: Facts)
    requires Distinct(Pre([x])) && x.node in s0.data && x.node in s2.data && s2.data[x.node] == s0.data[x.node]
    requires Nodes(x.kids) <= s0.data.Keys && Nodes(x.kids) <= s2.data.Keys
    requires Spread(modules, s0.data[x.node].ItemDep(), x.kids, s0, s1) && Settled(modules, x.kids, s1.data, s2.data)
    ensures Settled(modules, [x], s0.data, s2.data)
  {
    hide Propagated, Gained, Distinct;
    assert [x][1..] == [] && [x][0] == x;
    Apart([x]);
    RootsAreNodes(x.kids);
    InheritsIntro(modules, s0.data[x.node].ItemDep(), x.kids, s0.data, s1.data, s2.data);
  }

  lemma {:induction false} RootsStay(modules: Sym, f: seq<Tree>, d0: map<Menu, Data>, d: map<Menu, Data>)
    requires Settled(modules, f, d0, d)
    ensures Agree(Roots(f), d0, d)
  {
    if f != [] { RootsStay(modules, f[1..], d0, d); }
  }

  lemma RecordedChildren(kind: PropKind, x: Tree, d1: map<Menu, Data>, d2: map<Menu, Data>,
                         a: map<Sym, Expr>, b: map<Sym, Expr>, c: map<Sym, Expr>)
    requires Gained(kind, x.kids, d1, a, b) && Recorded(kind, x.kids, d2, b, c) && Agree(Roots(x.kids), d1, d2)
    ensures Recorded(kind, [x], d2, a, c)
  {
    forall t, env
      ensures DepValue(c, t, env) == Max(DepValue(a, t, env), Below(kind, [x], d2, t, env))
    {
      assert [x][1..] == [];
      OwnOfSame(kind, x.kids, d1, d2, t, env);
    }
  }

  lemma DirectedChildren(x: Tree, d: map<Menu, Data>, a: map<Sym, Expr>, b: map<Sym, Expr>)
    requires Directed(x.kids, d, a, b) && x.kids != []
    ensures Directed([x], d, a, b)
  {
    forall t, env
      ensures DepValue(b, t, env) == Max(DepValue(a, t, env), Direct([x], d, t, env))
    {
      assert [x][1..] == [];
    }
  }

  // A node without children records its own dependency as a direct dependency of its symbol.
  lemma EffectOfLeaf(modules: Sym, x: Tree, s0: Facts, s: Facts)
    requires x.kids == [] && x.node in s0.data
    requires var d := s0.data[x.node];
      s == if x.node.sym.Some? && d.dep.Some? then s0.(dir := AddOr(s0.dir, x.node.sym.value, d.dep.value)) else s0
    ensures Effect(modules, [x], s0, s)
  {
    if x.node.sym.Some? {
      EffectOfEntry(modules, x, s0, s);
    } else {
      EffectOfBlock(modules, x, s0);
    }
  }

  lemma EffectOfEntry(modules: Sym, x: Tree, s0: Facts, s: Facts)
    requires x.kids == [] && x.node in s0.data && x.node.sym.Some?
    requires var d := s0.data[x.node];
      s == if d.dep.Some? then s0.(dir := AddOr(s0.dir, x.node.sym.value, d.dep.value)) else s0
    ensures Effect(modules, [x], s0, s)
  {
    hide Effect;
    EffectNone(modules, s0);
    EffectOfLeafLast(modules, x, [], s0, s0, s);
    assert [x] + [] == [x];
  }

  lemma EffectOfBlock(modules: Sym, x: Tree, s: Facts)
    requires x.kids == [] && x.node in s.data && x.node.sym.None?
    ensures Effect(modules, [x], s, s)
  {
    LeavesOne(x);
    NamedNone(x, s);
    assert [x][1..] == [];
    SubNodes([x]);
    assert Named(Nodes([x]), Leaves([x]), s.data, s.dir, s.dir);
  }

  lemma NamedNone(x: Tree, s: Facts)
    requires x.kids == [] && x.node.sym.None?
    ensures Named(Nodes([x]), {x.node}, s.data, s.dir, s.dir)
  {
  }

  // A leaf x in front of the trees g selects and implies nothing below it.
  lemma RecordedCons(kind: PropKind, x: Tree, g: seq<Tree>, d: map<Menu, Data>, a: map<Sym, Expr>, b: map<Sym, Expr>)
    requires x.kids == [] && Recorded(kind, g, d, a, b)
    ensures Recorded(kind, [x] + g, d, a, b)
  {
    forall t, env
      ensures DepValue(b, t, env) == Max(DepValue(a, t, env), Below(kind, [x] + g, d, t, env))
    {
      assert ([x] + g)[1..] == g;
    }
  }

  lemma DirectedCons(x: Tree, g: seq<Tree>, d: map<Menu, Data>, a: map<Sym, Expr>, b: map<Sym, Expr>, c: map<Sym, Expr>)
    requires x.kids == [] && x.node in d && x.node.sym.Some? && Directed(g, d, a, b)
    requires c == if d[x.node].dep.Some? then AddOr(b, x.node.sym.value, d[x.node].dep.value) else b
    ensures Directed([x] + g, d, a, c)
  {
    forall t, env
      ensures DepValue(c, t, env) == Max(DepValue(a, t, env), Direct([x] + g, d, t, env))
    {
      assert ([x] + g)[1..] == g;
    }
  }

  // Recording the leaf x after the trees g behind it.
  lemma EffectOfLeafLast(modules: Sym, x: Tree, g: seq<Tree>, s0: Facts, s: Facts, s': Facts)
    requires x.kids == [] && x.node.sym.Some? && x.node in s0.data && x.node in s.data
    requires s.data[x.node] == s0.data[x.node]
    requires Effect(modules, g, s0, s)
    requires var d := s.data[x.node];
      s' == if d.dep.Some? then s.(dir := AddOr(s.dir, x.node.sym.value, d.dep.value)) else s
    ensures Effect(modules, [x] + g, s0, s')
  {
    hide Recorded, Directed, Named;
    assert ([x] + g)[1..] == g && ([x] + g)[0] == x;
    SubNodes([x] + g);
    LeavesOne(x);
    LeavesAppend([x], g);
    NamedLeaf(x.node, Nodes(g), Nodes([x] + g), Leaves(g), s.data, s0.dir, s.dir);
    RecordedCons(PSelect, x, g, s.data, s0.rev, s.rev);
    RecordedCons(PImply, x, g, s.data, s0.imp, s.imp);
    DirectedCons(x, g, s.data, s0.dir, s.dir, s'.dir);
  }

  // ----- what the propagated dependencies mean -----

  // plain is the value of the dependencies of the parent; a dependency or a condition below
  // is n exactly when the conjunction of all of them down to it, unsimplified, is.
  ghost predicate Means(modules: Sym, plain: Tri, f: seq<Tree>, d0: map<Menu, Data>, d: map<Menu, Data>, env: Env)
    requires Nodes(f) <= d0.Keys && Nodes(f) <= d.Keys
  {
    f == [] || (
      SubNodes(f);
      var b, a := d0[f[0].node], d[f[0].node];
      var own := Min(plain, ReadM(b.dep, modules, env));
      && |a.props| == |b.props|
      && (EvalOpt(a.dep, env) == NO <==> own == NO)
      && (forall i | 0 <= i < |b.props| ::
            EvalOpt(a.props[i].cond, env) == NO <==> Min(own, ReadM(b.props[i].cond, modules, env)) == NO)
      && Means(modules, PlainItem(plain, b, modules, env), f[0].kids, d0, d, env)
      && Means(modules, plain, f[1..], d0, d, env))
  }

  // The unsimplified value of what the children of a node depend on.
  function PlainItem(plain: Tri, b: Data, modules: Sym, env: Env): Tri {
    var own := Min(plain, ReadM(b.dep, modules, env));
    if b.prompt.Some? && b.prompt.value < |b.props|
    then Min(own, ReadM(b.props[b.prompt.value].cond, modules, env))
    else own
  }

  predicate WellFormedData(b: Data) {
    WellFormedOpt(b.dep) && forall p <- b.props :: WellFormedOpt(p.cond)
  }

  lemma PropagatedMeans(modules: Sym, dep: Option<Expr>, plain: Tri, sym: Option<Sym>, b: Data, a: Data, env: Env)
    requires Propagated(modules, dep, sym, b, a) && WellFormedData(b)
    requires Sane(env) && WellFormedOpt(dep) && NnfOpt(dep) && (EvalOpt(dep, env) == NO <==> plain == NO)
    ensures var own := Min(plain, ReadM(b.dep, modules, env));
      && (EvalOpt(a.dep, env) == NO <==> own == NO)
      && (forall i | 0 <= i < |b.props| ::
            EvalOpt(a.props[i].cond, env) == NO <==> Min(own, ReadM(b.props[i].cond, modules, env)) == NO)
    ensures WellFormedOpt(a.ItemDep()) && NnfOpt(a.ItemDep())
    ensures EvalOpt(a.ItemDep(), env) == NO <==> PlainItem(plain, b, modules, env) == NO
  {
    hide EntryDep, PropertyCond, ReadM, Eval, WellFormed, Nnf, Sane;
    EntryDepSound(dep, b.dep, modules, env);
    forall i | 0 <= i < |b.props|
      ensures EvalOpt(a.props[i].cond, env) == NO
        <==> Min(Min(plain, ReadM(b.dep, modules, env)), ReadM(b.props[i].cond, modules, env)) == NO
      ensures WellFormedOpt(a.props[i].cond) && NnfOpt(a.props[i].cond)
    {
      PropertyCondSound(dep, b.dep, b.props[i].cond, sym, modules, env);
    }
  }

  // In trees through which a dependency has been passed down, everything means the plain
  // conjunction of all enclosing dependencies.
  lemma {:induction false} InheritsMeans(modules: Sym, dep: Option<Expr>, plain: Tri, f: seq<Tree>, d0: map<Menu, Data>,
                                         d: map<Menu, Data>, env: Env)
    requires Inherits(modules, dep, f, d0, d) && Nodes(f) <= d0.Keys && Nodes(f) <= d.Keys
    requires Sane(env) && WellFormedOpt(dep) && NnfOpt(dep) && (EvalOpt(dep, env) == NO <==> plain == NO)
    requires forall m <- Nodes(f) :: WellFormedData(d0[m])
    ensures Means(modules, plain, f, d0, d, env)
    decreases f
  {
    if f != [] {
      hide ReadM, Eval, WellFormedData, Sane;
      SubNodes(f);
      var b, a := d0[f[0].node], d[f[0].node];
      PropagatedMeans(modules, dep, plain, f[0].node.sym, b, a, env);
      InheritsMeans(modules, a.ItemDep(), PlainItem(plain, b, modules, env), f[0].kids, d0, d, env);
      InheritsMeans(modules, dep, plain, f[1..], d0, d, env);
    }
  }

  // What has been passed down is in the form that the tests of menu_finalize work on.
  lemma {:induction false} InheritsForms(modules: Sym, dep: Option<Expr>, f: seq<Tree>, d0: map<Menu, Data>,
                                         d: map<Menu, Data>)
    requires Inherits(modules, dep, f, d0, d) && Nodes(f) <= d0.Keys && Nodes(f) <= d.Keys
    requires WellFormedOpt(dep) && NnfOpt(dep) && forall m <- Nodes(f) :: WellFormedData(d0[m])
    ensures forall m <- Nodes(f) :: FormedData(d[m])
    decreases f
  {
    hide Propagated, WellFormedData, FormedData, WellFormedOpt, NnfOpt, Data.ItemDep;
    if f != [] {
      var n := f[0].node;
      SubNodes(f);
      PropagatedForms(modules, dep, n.sym, d0[n], d[n]);
      InheritsForms(modules, d[n].ItemDep(), f[0].kids, d0, d);
      InheritsForms(modules, dep, f[1..], d0, d);
    }
  }

  predicate FormedData(a: Data) {
    && WellFormedOpt(a.ItemDep()) && NnfOpt(a.ItemDep())
    && WellFormedOpt(a.PromptDep()) && NnfOpt(a.PromptDep())
  }

  lemma PropagatedForms(modules: Sym, dep: Option<Expr>, sym: Option<Sym>, b: Data, a: Data)
    requires Propagated(modules, dep, sym, b, a) && WellFormedData(b)
    requires WellFormedOpt(dep) && NnfOpt(dep)
    ensures FormedData(a) && WellFormedOpt(a.ItemDep()) && NnfOpt(a.ItemDep())
  {
    hide PropertyCond, EntryDep, WellFormedOpt, NnfOpt, EvalOpt, ReadM, Sane;
    var env := SomeEnv();
    EntryDepSound(dep, b.dep, modules, env);
    forall i | 0 <= i < |b.props|
      ensures WellFormedOpt(a.props[i].cond) && NnfOpt(a.props[i].cond)
    {
      PropertyCondSound(dep, b.dep, b.props[i].cond, sym, modules, env);
    }
    NoneFormed();
  }

  lemma NoneFormed()
    ensures WellFormedOpt(None) && NnfOpt(None)
  {
  }

  function SomeEnv(): (env: Env)
    ensures Sane(env)
  {
    Env(map[], YES, (_, _) => None)
  }
}
