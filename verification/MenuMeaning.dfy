// What the menus as written say about the values of their symbols, once menu_finalize has passed
// dependencies down and recorded selects (menu.c), and sym_calc_value calculates (symbol.c).
module MenuMeaning {
  import opened Wrappers
  import opened Expr
  import opened Symbols
  import opened ValueLaws
  import opened Propagate
  import opened MenuTree
  import opened MenuEffect
  import opened MenuGraph

  // In f, which depends on plain, the entry m stands where all dependencies around it and its own
  // come to own, as they are written.
  ghost predicate Stands(modules: Sym, plain: Tri, f: seq<Tree>, d0: map<Menu, Data>, env: Env, m: Menu, own: Tri)
    decreases f
  {
    f != [] && f[0].node in d0 && (
      || (m == f[0].node && own == Min(plain, ReadM(d0[m].dep, modules, env)))
      || Stands(modules, PlainItem(plain, d0[f[0].node], modules, env), f[0].kids, d0, env, m, own)
      || Stands(modules, plain, f[1..], d0, env, m, own))
  }

  // Its property at i counts there.
  ghost predicate Counts(modules: Sym, d0: map<Menu, Data>, env: Env, m: Menu, own: Tri, i: int) {
    m in d0 && 0 <= i < |d0[m].props| && Min(own, ReadM(d0[m].props[i].cond, modules, env)) != NO
  }

  lemma {:induction false} StandsSomewhere(modules: Sym, plain: Tri, f: seq<Tree>, d0: map<Menu, Data>, env: Env,
                                           m: Menu)
    returns (own: Tri)
    requires m in Nodes(f) && Nodes(f) <= d0.Keys
    ensures Stands(modules, plain, f, d0, env, m, own)
    decreases f
  {
    hide PlainItem, ReadM;
    SubNodes(f);
    if m == f[0].node {
      own := Min(plain, ReadM(d0[m].dep, modules, env));
    } else if m in Nodes(f[0].kids) {
      own := StandsSomewhere(modules, PlainItem(plain, d0[f[0].node], modules, env), f[0].kids, d0, env, m);
    } else {
      own := StandsSomewhere(modules, plain, f[1..], d0, env, m);
    }
  }

  // The condition stored for a property is n exactly where it does not count.
  lemma {:induction false} StoredCounts(modules: Sym, plain: Tri, f: seq<Tree>, d0: map<Menu, Data>, d: map<Menu, Data>,
                                        env: Env, m: Menu, own: Tri)
    requires Nodes(f) <= d0.Keys && Nodes(f) <= d.Keys && Means(modules, plain, f, d0, d, env)
    requires Stands(modules, plain, f, d0, env, m, own)
    ensures m in Nodes(f) && |d[m].props| == |d0[m].props|
    ensures forall i | 0 <= i < |d[m].props| ::
      EvalOpt(d[m].props[i].cond, env) != NO <==> Counts(modules, d0, env, m, own, i)
    ensures forall i | Counts(modules, d0, env, m, own, i) :: 0 <= i < |d[m].props|
    decreases f
  {
    hide PlainItem, ReadM, Eval;
    SubNodes(f);
    if m == f[0].node && own == Min(plain, ReadM(d0[m].dep, modules, env)) {
    } else if Stands(modules, PlainItem(plain, d0[f[0].node], modules, env), f[0].kids, d0, env, m, own) {
      StoredCounts(modules, PlainItem(plain, d0[f[0].node], modules, env), f[0].kids, d0, d, env, m, own);
    } else {
      StoredCounts(modules, plain, f[1..], d0, d, env, m, own);
    }
  }

  // ----- selects and implies -----

  lemma {:induction false} SelectedExactly(kind: PropKind, sym: Sym, props: seq<MenuProp>, t: Sym, env: Env)
    ensures SelectedWith(kind, sym, props, t, env) != NO
      <==> TriOf(env, sym) != NO && exists i :: Selects(kind, props, t, env, i)
  {
    hide EvalOpt, TriOf;
    if props != [] {
      hide Selects;
      var rest, p := props[..|props| - 1], props[|props| - 1];
      assert props == rest + [p];
      SelectedExactly(kind, sym, rest, t, env);
      OneMoreSelects(kind, rest, p, t, env);
      LastSelects(kind, sym, rest, p, t, env);
    }
  }

  predicate SelectsBy(kind: PropKind, p: MenuProp, t: Sym, env: Env) {
    p.kind == kind && p.target == Some(t) && EvalOpt(p.cond, env) != NO
  }

  lemma OneMoreSelects(kind: PropKind, rest: seq<MenuProp>, p: MenuProp, t: Sym, env: Env)
    ensures (exists i :: Selects(kind, rest + [p], t, env, i))
      <==> SelectsBy(kind, p, t, env) || exists i :: Selects(kind, rest, t, env, i)
  {
    hide SelectsBy;
    var props, n := rest + [p], |rest|;
    assert Selects(kind, props, t, env, n) <==> SelectsBy(kind, p, t, env);
    if i :| Selects(kind, rest, t, env, i) { assert Selects(kind, props, t, env, i); }
    if i :| Selects(kind, props, t, env, i) { assert i == n || Selects(kind, rest, t, env, i); }
  }

  lemma LastSelects(kind: PropKind, sym: Sym, rest: seq<MenuProp>, p: MenuProp, t: Sym, env: Env)
    ensures SelectedWith(kind, sym, rest + [p], t, env) != NO
      <==> SelectedWith(kind, sym, rest, t, env) != NO || (TriOf(env, sym) != NO && SelectsBy(kind, p, t, env))
  {
    hide EvalOpt, TriOf, SelectedWith;
    SelectedSnoc(kind, sym, rest, p, t, env);
  }

  lemma SelectedSnoc(kind: PropKind, sym: Sym, rest: seq<MenuProp>, p: MenuProp, t: Sym, env: Env)
    ensures SelectedWith(kind, sym, rest + [p], t, env)
      == if p.kind == kind && p.target == Some(t)
         then Max(SelectedWith(kind, sym, rest, t, env), Min(TriOf(env, sym), EvalOpt(p.cond, env)))
         else SelectedWith(kind, sym, rest, t, env)
  {
    assert (rest + [p])[..|rest|] == rest;
  }

  // The property at i selects (or implies) t, and its condition is met.
  predicate Selects(kind: PropKind, props: seq<MenuProp>, t: Sym, env: Env, i: int) {
    0 <= i < |props| && SelectsBy(kind, props[i], t, env)
  }

  // m selects (or implies) t.
  ghost predicate Chooses(kind: PropKind, m: Menu, d: map<Menu, Data>, t: Sym, env: Env) {
    m in d && m.sym.Some? && TriOf(env, m.sym.value) != NO && exists i :: Selects(kind, d[m].props, t, env, i)
  }

  lemma OwnExactly(kind: PropKind, m: Menu, d: map<Menu, Data>, t: Sym, env: Env)
    ensures Own(kind, m, d, t, env) != NO <==> Chooses(kind, m, d, t, env)
  {
    hide SelectedWith, Selects;
    if m in d && m.sym.Some? { SelectedExactly(kind, m.sym.value, d[m].props, t, env); }
  }

  // The strongest value with which the nodes of f select (or imply) t: its roots, and those below.
  ghost function AllOf(kind: PropKind, f: seq<Tree>, d: map<Menu, Data>, t: Sym, env: Env): Tri {
    Max(OwnOf(kind, f, d, t, env), MenuEffect.Below(kind, f, d, t, env))
  }

  lemma AllOfCons(kind: PropKind, f: seq<Tree>, d: map<Menu, Data>, t: Sym, env: Env)
    requires f != []
    ensures AllOf(kind, f, d, t, env)
      == Max(Own(kind, f[0].node, d, t, env), Max(AllOf(kind, f[0].kids, d, t, env), AllOf(kind, f[1..], d, t, env)))
  {
  }

  lemma NodesCons(kind: PropKind, f: seq<Tree>, d: map<Menu, Data>, t: Sym, env: Env)
    requires f != []
    ensures (exists m <- Nodes(f) :: Chooses(kind, m, d, t, env))
      <==> || Chooses(kind, f[0].node, d, t, env)
           || (exists m <- Nodes(f[0].kids) :: Chooses(kind, m, d, t, env))
           || (exists m <- Nodes(f[1..]) :: Chooses(kind, m, d, t, env))
  {
    hide Chooses, Nodes;
    SubNodes(f);
  }

  lemma {:induction false} BelowExactly(kind: PropKind, f: seq<Tree>, d: map<Menu, Data>, t: Sym, env: Env)
    ensures AllOf(kind, f, d, t, env) != NO <==> exists m <- Nodes(f) :: Chooses(kind, m, d, t, env)
    decreases f
  {
    if f == [] {
      NothingOf(kind, d, t, env);
    } else {
      hide Chooses, Own, AllOf, Nodes;
      AllOfCons(kind, f, d, t, env);
      NodesCons(kind, f, d, t, env);
      OwnExactly(kind, f[0].node, d, t, env);
      BelowExactly(kind, f[0].kids, d, t, env);
      BelowExactly(kind, f[1..], d, t, env);
    }
  }

  lemma NothingOf(kind: PropKind, d: map<Menu, Data>, t: Sym, env: Env)
    ensures AllOf(kind, [], d, t, env) == NO && Nodes([]) == {}
  {
  }

  // ----- loaded configurations -----

  // All of that as menu_finalize(&rootmenu) leaves it, where the root has no dependencies, under an
  // assignment such as a calculation gives.
  ghost predicate Usual(modules: Sym, root: Menu, f: seq<Tree>, s0: Facts, s: Facts, env: Env) {
    && Loaded(modules, root, f, s0, s) && s0.rev == map[] && s0.imp == map[]
    && root in s0.data && s0.data[root].ItemDep() == None
    && Sane(env) && forall m <- Nodes(f) :: WellFormedData(s0.data[m])
  }

  lemma {:induction false} UsualMeans(modules: Sym, root: Menu, f: seq<Tree>, s0: Facts, s: Facts, env: Env)
    requires Usual(modules, root, f, s0, s, env)
    ensures Nodes(f) <= s0.data.Keys && Nodes(f) <= s.data.Keys && Means(modules, YES, f, s0.data, s.data, env)
  {
    hide Eval, WellFormedData, Sane, Inherits, Recorded, Directed, Named, Means;
    assert Settled(modules, [Tree(root, f)], s0.data, s.data);
    InheritsMeans(modules, None, YES, f, s0.data, s.data, env);
  }

  // The stored properties are those that were written, up to their conditions.
  lemma {:induction false} StoredKinds(modules: Sym, root: Menu, f: seq<Tree>, s0: Facts, s: Facts, m: Menu, i: nat)
    requires Loaded(modules, root, f, s0, s) && m in Nodes(f) && m in s0.data && m in s.data && i < |s.data[m].props|
    ensures i < |s0.data[m].props| && s0.data[m].props[i] == s.data[m].props[i].(cond := s0.data[m].props[i].cond)
  {
    hide PropertyCond, EntryDep, Recorded, Directed, Named;
    assert Settled(modules, [Tree(root, f)], s0.data, s.data);
    var above := InheritsNode(modules, s.data[root].ItemDep(), f, s0.data, s.data, m);
    assert s.data[m].props[i] == PropagatedProp(s.data[m].dep, s0.data[m].props[i], m.sym, modules);
  }

  // An entry of t offers it: one of its prompts counts.
  ghost predicate Offered(modules: Sym, f: seq<Tree>, d0: map<Menu, Data>, env: Env, t: Sym, m: Menu, own: Tri,
                          i: int) {
    && Stands(modules, YES, f, d0, env, m, own) && Counts(modules, d0, env, m, own, i)
    && m.sym == Some(t) && d0[m].props[i].hasText
  }

  // A symbol is visible if and only if some entry offers it where all dependencies around that
  // entry, as they are written, and those of its prompt are met.
  lemma {:induction false} LoadedVisible(modules: Sym, root: Menu, f: seq<Tree>, s0: Facts, s: Facts, t: Sym, env: Env)
    requires Usual(modules, root, f, s0, s, env) && t in GraphOf(Pre([Tree(root, f)]), s)
    ensures Visible(t, GraphOf(Pre([Tree(root, f)]), s)[t], env) != NO
      <==> exists m, own, i :: Offered(modules, f, s0.data, env, t, m, own, i)
  {
    hide Usual, Pre, PropsFor, PromptsOr, Prompted, Offered;
    PartsExactly(t, GraphOf(Pre([Tree(root, f)]), s)[t], env);
    if Prompted(PropsFor(t, Pre([Tree(root, f)]), s.data), env, MOD) { PromptOffered(modules, root, f, s0, s, t, env); }
    if m, own, i :| Offered(modules, f, s0.data, env, t, m, own, i) {
      OfferPrompted(modules, root, f, s0, s, t, env, m, own, i);
    }
  }

  lemma {:induction false} PromptOffered(modules: Sym, root: Menu, f: seq<Tree>, s0: Facts, s: Facts, t: Sym, env: Env)
    requires Usual(modules, root, f, s0, s, env) && Prompted(PropsFor(t, Pre([Tree(root, f)]), s.data), env, MOD)
    ensures exists m, own, i :: Offered(modules, f, s0.data, env, t, m, own, i)
  {
    hide Loaded, Pre, PropsFor, Stands, Counts, ReadM, Eval, Means;
    var ms := Pre([Tree(root, f)]);
    UsualMeans(modules, root, f, s0, s, env);
    var p :| p in PropsFor(t, ms, s.data) && p.hasText && EvalOpt(p.cond, env) >= MOD;
    PropsForOnly(t, ms, s.data, p);
    var m :| m in ms && m.sym == Some(t) && m in s.data
      && exists i :: 0 <= i < |s.data[m].props| && p == PropOf(s.data[m].props[i]);
    var i :| 0 <= i < |s.data[m].props| && p == PropOf(s.data[m].props[i]);
    var above := LoadedNode(modules, root, f, s0, s, m);
    var own := StandsSomewhere(modules, YES, f, s0.data, env, m);
    StoredCounts(modules, YES, f, s0.data, s.data, env, m, own);
    StoredKinds(modules, root, f, s0, s, m, i);
    assert Offered(modules, f, s0.data, env, t, m, own, i);
  }

  lemma {:induction false} OfferPrompted(modules: Sym, root: Menu, f: seq<Tree>, s0: Facts, s: Facts, t: Sym, env: Env,
                                         m: Menu, own: Tri, i: int)
    requires Usual(modules, root, f, s0, s, env) && Offered(modules, f, s0.data, env, t, m, own, i)
    ensures Prompted(PropsFor(t, Pre([Tree(root, f)]), s.data), env, MOD)
  {
    hide Loaded, Pre, PropsFor, Stands, Counts, ReadM, Eval, Means;
    UsualMeans(modules, root, f, s0, s, env);
    StoredCounts(modules, YES, f, s0.data, s.data, env, m, own);
    StoredKinds(modules, root, f, s0, s, m, i);
    NodesBelow(root, f, m);
    PropsForHas(t, Pre([Tree(root, f)]), s.data, m, i);
    assert PropOf(s.data[m].props[i]) in PropsFor(t, Pre([Tree(root, f)]), s.data);
  }

  lemma NodesBelow(root: Menu, f: seq<Tree>, m: Menu)
    requires m in Nodes(f)
    ensures m in Pre([Tree(root, f)]) && m in Nodes([Tree(root, f)])
  {
    PreOne(Tree(root, f));
  }

  // An entry selects t (or implies it): its symbol is not n, and one of its properties counts.
  ghost predicate Chosen(kind: PropKind, modules: Sym, f: seq<Tree>, d0: map<Menu, Data>, env: Env, t: Sym, m: Menu,
                         own: Tri, i: int) {
    && Stands(modules, YES, f, d0, env, m, own) && Counts(modules, d0, env, m, own, i)
    && m.sym.Some? && TriOf(env, m.sym.value) != NO && d0[m].props[i].kind == kind && d0[m].props[i].target == Some(t)
  }

  // A symbol is selected if and only if some entry selects it where all dependencies around that
  // entry, as they are written, and those of the select are met.
  lemma {:induction false} LoadedSelected(modules: Sym, root: Menu, f: seq<Tree>, s0: Facts, s: Facts, t: Sym, env: Env)
    requires Usual(modules, root, f, s0, s, env) && t in GraphOf(Pre([Tree(root, f)]), s)
    ensures RevDep(t, GraphOf(Pre([Tree(root, f)]), s)[t], env) != NO
      <==> exists m, own, i :: Chosen(PSelect, modules, f, s0.data, env, t, m, own, i)
  {
    hide Loaded, Pre, PropsFor, PromptsOr, Prompted, Stands, Counts, ReadM, Eval, Means, Chooses, AllOf;
    PartsExactly(t, GraphOf(Pre([Tree(root, f)]), s)[t], env);
    RecordedBelow(modules, root, f, s0, s, t, env);
    BelowExactly(PSelect, f, s.data, t, env);
    ChoosesWritten(PSelect, modules, root, f, s0, s, t, env);
  }

  // The same for implies, which count where the dependencies of the symbol are met.
  lemma {:induction false} LoadedImplied(modules: Sym, root: Menu, f: seq<Tree>, s0: Facts, s: Facts, t: Sym, env: Env)
    requires Usual(modules, root, f, s0, s, env) && t in GraphOf(Pre([Tree(root, f)]), s)
    ensures Implied(t, GraphOf(Pre([Tree(root, f)]), s)[t], env) != NO
      <==> && EvalOpt(GraphOf(Pre([Tree(root, f)]), s)[t].dirDep, env) != NO
           && exists m, own, i :: Chosen(PImply, modules, f, s0.data, env, t, m, own, i)
  {
    hide Loaded, Pre, PropsFor, PromptsOr, Prompted, Stands, Counts, ReadM, Eval, Means, Chooses, AllOf;
    PartsExactly(t, GraphOf(Pre([Tree(root, f)]), s)[t], env);
    RecordedBelow(modules, root, f, s0, s, t, env);
    BelowExactly(PImply, f, s.data, t, env);
    ChoosesWritten(PImply, modules, root, f, s0, s, t, env);
  }

  lemma RecordedBelow(modules: Sym, root: Menu, f: seq<Tree>, s0: Facts, s: Facts, t: Sym, env: Env)
    requires Usual(modules, root, f, s0, s, env)
    ensures DepValue(s.rev, t, env) == AllOf(PSelect, f, s.data, t, env)
    ensures DepValue(s.imp, t, env) == AllOf(PImply, f, s.data, t, env)
  {
    hide Settled, Directed, Named, OwnOf;
    assert [Tree(root, f)][1..] == [];
    assert DepValue(s.rev, t, env) == Max(NO, MenuEffect.Below(PSelect, [Tree(root, f)], s.data, t, env));
    assert DepValue(s.imp, t, env) == Max(NO, MenuEffect.Below(PImply, [Tree(root, f)], s.data, t, env));
    assert MenuEffect.Below(PSelect, [], s.data, t, env) == MenuEffect.Below(PImply, [], s.data, t, env) == NO;
  }

  // Selecting under the stored conditions is selecting under the written ones.
  lemma {:induction false} ChoosesWritten(kind: PropKind, modules: Sym, root: Menu, f: seq<Tree>, s0: Facts, s: Facts,
                                          t: Sym, env: Env)
    requires Usual(modules, root, f, s0, s, env)
    ensures (exists m <- Nodes(f) :: Chooses(kind, m, s.data, t, env))
      <==> exists m, own, i :: Chosen(kind, modules, f, s0.data, env, t, m, own, i)
  {
    hide Usual, Chooses, Chosen, Nodes;
    if m :| m in Nodes(f) && Chooses(kind, m, s.data, t, env) {
      var own, i := ChosenBy(kind, modules, root, f, s0, s, t, env, m);
    }
    if m, own, i :| Chosen(kind, modules, f, s0.data, env, t, m, own, i) {
      ChosenChooses(kind, modules, root, f, s0, s, t, env, m, own, i);
    }
  }

  lemma {:induction false} ChosenBy(kind: PropKind, modules: Sym, root: Menu, f: seq<Tree>, s0: Facts, s: Facts, t: Sym,
                                    env: Env, m: Menu) returns (own: Tri, i: int)
    requires Usual(modules, root, f, s0, s, env) && m in Nodes(f) && Chooses(kind, m, s.data, t, env)
    ensures Chosen(kind, modules, f, s0.data, env, t, m, own, i)
  {
    hide Loaded, Stands, Counts, ReadM, Eval, Means, Nodes;
    UsualMeans(modules, root, f, s0, s, env);
    i :| Selects(kind, s.data[m].props, t, env, i);
    own := StandsSomewhere(modules, YES, f, s0.data, env, m);
    StoredCounts(modules, YES, f, s0.data, s.data, env, m, own);
    StoredKinds(modules, root, f, s0, s, m, i);
  }

  lemma {:induction false} ChosenChooses(kind: PropKind, modules: Sym, root: Menu, f: seq<Tree>, s0: Facts, s: Facts,
                                         t: Sym, env: Env, m: Menu, own: Tri, i: int)
    requires Usual(modules, root, f, s0, s, env) && Chosen(kind, modules, f, s0.data, env, t, m, own, i)
    ensures m in Nodes(f) && Chooses(kind, m, s.data, t, env)
  {
    hide Loaded, Stands, Counts, ReadM, Eval, Means, Nodes;
    UsualMeans(modules, root, f, s0, s, env);
    StoredCounts(modules, YES, f, s0.data, s.data, env, m, own);
    StoredKinds(modules, root, f, s0, s, m, i);
    assert Selects(kind, s.data[m].props, t, env, i);
  }

  // So a select that counts forces its symbol, in every solution and whatever the user says.
  lemma {:induction false} LoadedSelectForces(modules: Sym, root: Menu, f: seq<Tree>, s0: Facts, s: Facts, cfg: Config,
                                              user: User, vals: Values, t: Sym, m: Menu, own: Tri, i: int)
    requires cfg.graph == GraphOf(Pre([Tree(root, f)]), s) && Solution(cfg, user, vals) && t in cfg.graph && IsLogic(t)
    requires Usual(modules, root, f, s0, s, EnvOf(cfg, vals))
    requires Chosen(PSelect, modules, f, s0.data, EnvOf(cfg, vals), t, m, own, i)
    ensures vals[t].tri != NO
  {
    hide GraphOf, Pre, Chosen, Usual, RevDep, LogicValue;
    LoadedSelected(modules, root, f, s0, s, t, EnvOf(cfg, vals));
    PartsExactly(t, cfg.graph[t], EnvOf(cfg, vals));
    SelectForces(t, cfg.graph[t], user, EnvOf(cfg, vals));
  }

  // ----- defaults -----

  lemma {:induction false} DefaultAppend(a: seq<Prop>, b: seq<Prop>, env: Env)
    ensures FirstDefault(a + b, env)
      == if FirstDefault(a, env).Some? then FirstDefault(a, env) else FirstDefault(b, env)
  {
    if a == [] {
      assert a + b == b;
    } else {
      assert (a + b)[0] == a[0] && (a + b)[1..] == a[1..] + b;
      DefaultAppend(a[1..], b, env);
    }
  }

  // The entry ms[k] has a default for t that counts.
  ghost predicate HasDefault(ms: seq<Menu>, d: map<Menu, Data>, t: Sym, env: Env, k: int) {
    0 <= k < |ms| && ms[k].sym == Some(t) && ms[k] in d && FirstDefault(PropsOf(d[ms[k]].props), env).Some?
  }

  // The default of the first such entry is that of the symbol.
  lemma {:induction false} DefaultByEntry(ms: seq<Menu>, d: map<Menu, Data>, t: Sym, env: Env) returns (k: nat)
    ensures FirstDefault(PropsFor(t, ms, d), env).Some? ==>
      && HasDefault(ms, d, t, env, k)
      && FirstDefault(PropsFor(t, ms, d), env) == FirstDefault(PropsOf(d[ms[k]].props), env)
      && forall j | HasDefault(ms, d, t, env, j) :: k <= j
    ensures FirstDefault(PropsFor(t, ms, d), env).None? ==> forall j :: !HasDefault(ms, d, t, env, j)
  {
    if ms == [] {
      k := 0;
    } else {
      hide FirstDefault, PropsFor, HasDefault;
      var n := |ms| - 1;
      var init := ms[..n];
      k := DefaultByEntry(init, d, t, env);
      LastDefault(ms, d, t, env);
      if FirstDefault(PropsFor(t, init, d), env).None? { k := n; }
    }
  }

  lemma {:induction false} LastDefault(ms: seq<Menu>, d: map<Menu, Data>, t: Sym, env: Env)
    requires ms != []
    ensures var n := |ms| - 1; var r := FirstDefault(PropsFor(t, ms[..n], d), env);
      && (r.Some? ==> FirstDefault(PropsFor(t, ms, d), env) == r)
      && (r.None? && !HasDefault(ms, d, t, env, n) ==> FirstDefault(PropsFor(t, ms, d), env).None?)
      && (r.None? && HasDefault(ms, d, t, env, n) ==>
            FirstDefault(PropsFor(t, ms, d), env) == FirstDefault(PropsOf(d[ms[n]].props), env))
    ensures var n := |ms| - 1; forall j | HasDefault(ms, d, t, env, j) :: j == n || HasDefault(ms[..n], d, t, env, j)
    ensures var n := |ms| - 1;
      forall j | HasDefault(ms[..n], d, t, env, j) :: j < n && ms[..n][j] == ms[j] && HasDefault(ms, d, t, env, j)
  {
    hide FirstDefault;
    var n := |ms| - 1;
    var own := if ms[n].sym == Some(t) && ms[n] in d then PropsOf(d[ms[n]].props) else [];
    DefaultAppend(PropsFor(t, ms[..n], d), own, env);
    NoDefaultOfNothing(env);
  }

  lemma NoDefaultOfNothing(env: Env)
    ensures FirstDefault([], env).None?
  {
  }

  // An entry of t has a default at i that counts.
  ghost predicate Defaulted(modules: Sym, f: seq<Tree>, d0: map<Menu, Data>, env: Env, t: Sym, m: Menu, own: Tri,
                            i: int) {
    && Stands(modules, YES, f, d0, env, m, own) && Counts(modules, d0, env, m, own, i)
    && m.sym == Some(t) && d0[m].props[i].kind.PDefault?
  }

  // The default that a symbol gets is the first, in the order of the menus, that stands where all
  // dependencies around its entry, as they are written, and its own are met.
  lemma {:induction false} LoadedDefault(modules: Sym, root: Menu, f: seq<Tree>, s0: Facts, s: Facts, t: Sym, env: Env)
    returns (k: nat, own: Tri, i: nat)
    requires Usual(modules, root, f, s0, s, env) && t in GraphOf(Pre([Tree(root, f)]), s)
    ensures var ms, r := Pre([Tree(root, f)]), FirstDefault(GraphOf(Pre([Tree(root, f)]), s)[t].props, env);
      && (r.Some? ==>
            && k < |ms| && Defaulted(modules, f, s0.data, env, t, ms[k], own, i)
            && r.value.expr == s0.data[ms[k]].props[i].expr
            && forall j, own', i' | 0 <= j < |ms| && Defaulted(modules, f, s0.data, env, t, ms[j], own', i') ::
                 k < j || (k == j && i <= i'))
      && (r.None? ==> forall m, own', i' :: !Defaulted(modules, f, s0.data, env, t, m, own', i'))
  {
    hide Usual, GraphOf, Pre, Defaulted, PropsFor, HasDefault, FirstDefault;
    var ms := Pre([Tree(root, f)]);
    GraphProps(ms, s, t);
    k := DefaultByEntry(ms, s.data, t, env);
    forall m, own', i' | Defaulted(modules, f, s0.data, env, t, m, own', i')
      ensures exists j :: 0 <= j < |ms| && ms[j] == m && HasDefault(ms, s.data, t, env, j)
      ensures forall j | 0 <= j < |ms| && ms[j] == m :: HasDefault(ms, s.data, t, env, j)
    {
      DefaultedHas(modules, root, f, s0, s, t, env, m, own', i');
    }
    if FirstDefault(PropsFor(t, ms, s.data), env).Some? {
      own, i := HasDefaulted(modules, root, f, s0, s, t, env, k);
    } else {
      own, i := NO, 0;
    }
  }

  lemma GraphProps(ms: seq<Menu>, s: Facts, t: Sym)
    requires t in GraphOf(ms, s)
    ensures GraphOf(ms, s)[t].props == PropsFor(t, ms, s.data)
  {
  }

  lemma {:induction false} DefaultedHas(modules: Sym, root: Menu, f: seq<Tree>, s0: Facts, s: Facts, t: Sym, env: Env,
                                        m: Menu, own: Tri, i: int)
    requires Usual(modules, root, f, s0, s, env) && Defaulted(modules, f, s0.data, env, t, m, own, i)
    ensures m in Pre([Tree(root, f)])
    ensures var ms := Pre([Tree(root, f)]);
      forall j | 0 <= j < |ms| && ms[j] == m :: HasDefault(ms, s.data, t, env, j)
  {
    hide Loaded, Pre, Stands, Counts, ReadM, Eval, Means, FirstDefault, FirstMet;
    UsualMeans(modules, root, f, s0, s, env);
    StoredCounts(modules, YES, f, s0.data, s.data, env, m, own);
    StoredKinds(modules, root, f, s0, s, m, i);
    NodesBelow(root, f, m);
    assert Met(PropsOf(s.data[m].props), env, i);
    SomeMet(PropsOf(s.data[m].props), env, i);
  }

  lemma {:induction false} SomeMet(props: seq<Prop>, env: Env, i: int)
    requires Met(props, env, i)
    ensures FirstDefault(props, env).Some?
  {
    if i > 0 {
      assert Met(props[1..], env, i - 1);
      SomeMet(props[1..], env, i - 1);
    }
  }

  lemma {:induction false} HasDefaulted(modules: Sym, root: Menu, f: seq<Tree>, s0: Facts, s: Facts, t: Sym, env: Env,
                                        k: int)
    returns (own: Tri, i: nat)
    requires Usual(modules, root, f, s0, s, env) && HasDefault(Pre([Tree(root, f)]), s.data, t, env, k)
    ensures 0 <= k < |Pre([Tree(root, f)])|
    ensures var m := Pre([Tree(root, f)])[k];
      && Defaulted(modules, f, s0.data, env, t, m, own, i)
      && FirstDefault(PropsOf(s.data[m].props), env).value.expr == s0.data[m].props[i].expr
      && forall own', i' | Defaulted(modules, f, s0.data, env, t, m, own', i') :: i <= i'
  {
    hide Loaded, Pre, Stands, Counts, ReadM, Eval, Means, FirstDefault;
    var m := Pre([Tree(root, f)])[k];
    var above := LoadedNode(modules, root, f, s0, s, m);
    UsualMeans(modules, root, f, s0, s, env);
    var props := PropsOf(s.data[m].props);
    FirstDefaultExactly(props, env);
    i :| FirstMet(props, env, i);
    own := StandsSomewhere(modules, YES, f, s0.data, env, m);
    StoredCounts(modules, YES, f, s0.data, s.data, env, m, own);
    StoredKinds(modules, root, f, s0, s, m, i);
    forall own', i' | Defaulted(modules, f, s0.data, env, t, m, own', i')
      ensures i <= i'
    {
      StoredCounts(modules, YES, f, s0.data, s.data, env, m, own');
      StoredKinds(modules, root, f, s0, s, m, i');
      assert Met(props, env, i');
    }
  }
}
