// The symbol graph that parsing and finalising the menus leave for the calculator and the cycle
// checker (menu.c, and the properties prop_alloc hangs on symbols in symbol.c).
module MenuGraph {
  import opened Wrappers
  import opened Expr
  import opened Normalize
  import opened Dups
  import opened Propagate
  import opened Symbols
  import opened CheckDeps
  import Ranks
  import opened MenuTree
  import opened MenuEffect

  // ----- from menus to symbols -----

  function PropOf(p: MenuProp): Prop {
    Prop(p.kind, p.hasText, p.cond,
         if p.kind.PDefault? then p.expr else if p.target.Some? then Some(Leaf(p.target.value)) else None)
  }

  function PropsOf(props: seq<MenuProp>): (r: seq<Prop>)
    ensures |r| == |props| && forall i | 0 <= i < |props| :: r[i] == PropOf(props[i])
  {
    if props == [] then [] else [PropOf(props[0])] + PropsOf(props[1..])
  }

  // The properties of t, menu by menu in the order of their creation.
  ghost function PropsFor(t: Sym, ms: seq<Menu>, d: map<Menu, Data>): seq<Prop> {
    if ms == [] then []
    else
      var m := ms[|ms| - 1];
      PropsFor(t, ms[..|ms| - 1], d) + if m.sym == Some(t) && m in d then PropsOf(d[m].props) else []
  }

  function Lookup(deps: map<Sym, Expr>, t: Sym): Option<Expr> {
    if t in deps then Some(deps[t]) else None
  }

  ghost function GraphOf(ms: seq<Menu>, s: Facts): Graph {
    map t | t in DefinedIn(ms) :: SymDef(PropsFor(t, ms, s.data), Lookup(s.dir, t), Lookup(s.rev, t), Lookup(s.imp, t))
  }

  ghost function DefinedIn(ms: seq<Menu>): set<Sym> {
    set m | m in ms && m.sym.Some? :: m.sym.value
  }

  // ----- what the parser provides -----

  // An entry for a symbol has the P_SYMBOL property that menu_add_entry gives it.
  predicate Marked(b: Data) {
    exists i :: 0 <= i < |b.props| && b.props[i].kind.PSymbol? && b.props[i].cond == None
  }

  // Only prompts and menus have a text.
  predicate TextIsPrompt(b: Data) {
    forall p <- b.props :: p.hasText ==> !p.kind.PSelect?
  }

  // Prompts and menus have a text, nothing else has, and a P_SYMBOL property has no condition.
  predicate AsParsed(b: Data) {
    forall p <- b.props :: (p.hasText <==> p.kind.PPrompt? || p.kind.PMenu?) && (p.kind.PSymbol? ==> p.cond == None)
  }

  // ----- what the calculator reads, and the checker follows -----

  lemma {:induction false} TransBoolSyms(e: Expr)
    ensures Syms(e) <= Syms(TransBool(e)) + {SymNo}
  {
    match e
    case Not(x) => TransBoolSyms(x);
    case Bin(_, l, r) => TransBoolSyms(l); TransBoolSyms(r);
    case Cmp(_, _, _) =>
    case Leaf(_) =>
  }

  // The condition of the P_SYMBOL property is the dependency of the entry once more.
  lemma {:induction false} MarkSyms(dep: Option<Expr>, own: Option<Expr>, sym: Option<Sym>, modules: Sym)
    ensures var d := EntryDep(dep, own, modules);
      OptSyms(d) <= OptSyms(PropertyCond(d, None, sym, modules)) + {SymNo}
  {
    hide Deduplicate, TransBool, Transform, RewriteM, Syms;
    var d := EntryDep(dep, own, modules);
    var e := AllocBin(OpAnd, dep, Prepared(own, modules));
    if e.Some? {
      DeduplicateTwice(e.value);
      TransBoolSyms(d.value);
    }
  }

  // Every node got its data from somewhere above.
  lemma {:induction false} InheritsNode(modules: Sym, dep: Option<Expr>, f: seq<Tree>, d0: map<Menu, Data>,
                                        d: map<Menu, Data>, m: Menu)
    returns (above: Option<Expr>)
    requires Inherits(modules, dep, f, d0, d) && m in Nodes(f)
    ensures m in d0 && m in d && Propagated(modules, above, m.sym, d0[m], d[m])
    decreases f
  {
    hide Propagated;
    SubNodes(f);
    if m == f[0].node {
      above := dep;
    } else if m in Nodes(f[0].kids) {
      above := InheritsNode(modules, d[f[0].node].ItemDep(), f[0].kids, d0, d, m);
    } else {
      above := InheritsNode(modules, dep, f[1..], d0, d, m);
    }
  }

  lemma {:induction false} PropsForHas(t: Sym, ms: seq<Menu>, d: map<Menu, Data>, m: Menu, i: nat)
    requires m in ms && m.sym == Some(t) && m in d && i < |d[m].props|
    ensures PropOf(d[m].props[i]) in PropsFor(t, ms, d)
  {
    var init, last := ms[..|ms| - 1], ms[|ms| - 1];
    assert ms == init + [last];
    if m == last {
      assert PropsOf(d[m].props)[i] == PropOf(d[m].props[i]);
    } else {
      PropsForHas(t, init, d, m, i);
    }
  }

  lemma {:induction false} PropsForOnly(t: Sym, ms: seq<Menu>, d: map<Menu, Data>, p: Prop)
    requires p in PropsFor(t, ms, d)
    ensures exists m <- ms :: m.sym == Some(t) && m in d
                              && exists i :: 0 <= i < |d[m].props| && p == PropOf(d[m].props[i])
  {
    if ms != [] {
      var init, last := ms[..|ms| - 1], ms[|ms| - 1];
      assert ms == init + [last];
      if p in PropsFor(t, init, d) { PropsForOnly(t, init, d, p); }
    }
  }

  lemma {:induction false} EdgesOf(props: seq<Prop>, p: Prop)
    requires p in props
    ensures PropEdges(p) <= PropsEdges(props)
  {
    var i :| 0 <= i < |props| && props[i] == p;
    PropsEdgesSplit(props, i);
  }

  lemma {:induction false} ReadsFrom(props: seq<Prop>, x: Sym)
    requires x in PropsReads(props)
    ensures exists p <- props :: x in PropReads(p)
  {
    if x !in PropReads(props[0]) { ReadsFrom(props[1..], x); }
  }

  // The menus of a loaded configuration: s0 are the facts before menu_finalize(&rootmenu), s those
  // after it.
  ghost predicate Loaded(modules: Sym, root: Menu, f: seq<Tree>, s0: Facts, s: Facts) {
    && Effect(modules, [Tree(root, f)], s0, s) && s0.dir == map[] && root.sym == None
    && Nodes(f) <= s0.data.Keys && Nodes(f) <= s.data.Keys
    && forall m <- Nodes(f) | m.sym.Some? :: m.sym.value.Ref? && Marked(s0.data[m]) && TextIsPrompt(s0.data[m])
  }

  lemma {:induction false} LoadedNode(modules: Sym, root: Menu, f: seq<Tree>, s0: Facts, s: Facts, m: Menu)
    returns (above: Option<Expr>)
    requires Loaded(modules, root, f, s0, s) && m in Pre([Tree(root, f)]) && m.sym.Some?
    ensures m in Nodes(f) && m in s0.data && m in s.data && m.sym.value.Ref?
    ensures Marked(s0.data[m]) && TextIsPrompt(s0.data[m])
    ensures Propagated(modules, above, m.sym, s0.data[m], s.data[m])
  {
    hide Propagated, Recorded, Directed, Named, Marked, TextIsPrompt;
    PreOne(Tree(root, f));
    assert m != root && m in Pre(f) && m in Nodes(f);
    assert Settled(modules, [Tree(root, f)], s0.data, s.data);
    above := InheritsNode(modules, s.data[root].ItemDep(), f, s0.data, s.data, m);
  }

  // The dependency of a definition is mentioned by its P_SYMBOL property.
  lemma {:induction false} DependencyFollowed(modules: Sym, root: Menu, f: seq<Tree>, s0: Facts, s: Facts, m: Menu,
                                              x: Sym)
    requires Loaded(modules, root, f, s0, s) && m in Pre([Tree(root, f)]) && m.sym.Some? && m in s.data
    requires s.data[m].dep.Some? && x in Syms(s.data[m].dep.value) && x != SymNo
    ensures x in PropsEdges(PropsFor(m.sym.value, Pre([Tree(root, f)]), s.data))
  {
    hide Loaded, PropertyCond, EntryDep, Syms, PropsFor, PropsEdges, Pre;
    var above := LoadedNode(modules, root, f, s0, s, m);
    var i :| 0 <= i < |s0.data[m].props| && s0.data[m].props[i].kind.PSymbol? && s0.data[m].props[i].cond == None;
    var p := s.data[m].props[i];
    assert p == PropagatedProp(s.data[m].dep, s0.data[m].props[i], m.sym, modules);
    MarkSyms(above, s0.data[m].dep, m.sym, modules);
    PropsForHas(m.sym.value, Pre([Tree(root, f)]), s.data, m, i);
    EdgesOf(PropsFor(m.sym.value, Pre([Tree(root, f)]), s.data), PropOf(p));
    assert x in PropEdges(PropOf(p));
  }

  // What the calculator reads of a property, the checker follows.
  lemma {:induction false} PropertyFollowed(modules: Sym, root: Menu, f: seq<Tree>, s0: Facts, s: Facts, t: Sym, x: Sym)
    requires Loaded(modules, root, f, s0, s) && x in PropsReads(PropsFor(t, Pre([Tree(root, f)]), s.data))
    ensures x in PropsEdges(PropsFor(t, Pre([Tree(root, f)]), s.data))
  {
    hide Loaded, PropertyCond, EntryDep, Syms, PropsFor, PropsEdges, PropsReads, Pre, Marked;
    var props := PropsFor(t, Pre([Tree(root, f)]), s.data);
    ReadsFrom(props, x);
    var p :| p in props && x in PropReads(p);
    PropsForOnly(t, Pre([Tree(root, f)]), s.data, p);
    var m :| m in Pre([Tree(root, f)]) && m.sym == Some(t) && m in s.data
      && exists i :: 0 <= i < |s.data[m].props| && p == PropOf(s.data[m].props[i]);
    var i :| 0 <= i < |s.data[m].props| && p == PropOf(s.data[m].props[i]);
    var above := LoadedNode(modules, root, f, s0, s, m);
    var q := s0.data[m].props[i];
    assert s.data[m].props[i] == PropagatedProp(s.data[m].dep, q, m.sym, modules);
    assert q in s0.data[m].props && (q.hasText ==> !q.kind.PSelect?);
    EdgesOf(props, p);
  }

  // In the graph of a loaded configuration, the calculator reads nothing that the checker does not
  // follow, apart from implies.
  lemma {:induction false} ReadsFollowed(modules: Sym, root: Menu, f: seq<Tree>, s0: Facts, s: Facts, t: Sym, x: Sym)
    requires Loaded(modules, root, f, s0, s)
    requires var g := GraphOf(Pre([Tree(root, f)]), s); t in g && x in Reads(g[t]) && x in g
    ensures var g := GraphOf(Pre([Tree(root, f)]), s); x in Edges(g[t]) + OptSyms(g[t].implied)
  {
    hide Loaded, PropsFor, PropsEdges, PropsReads, Syms, Pre;
    var ms := Pre([Tree(root, f)]);
    var g := GraphOf(ms, s);
    var def := g[t];
    DefinedAreRefs(modules, root, f, s0, s, x);
    if x in PropsReads(def.props) {
      PropertyFollowed(modules, root, f, s0, s, t, x);
    } else if x in OptSyms(def.dirDep) {
      DirectFollowed(modules, root, f, s0, s, t, x);
    }
  }

  // ----- what the checker follows, and the calculator reads -----

  // The symbols in the conditions of implies.
  function ImplyConds(props: seq<Prop>): (r: set<Sym>)
    ensures forall p <- props | p.kind.PImply? :: OptSyms(p.cond) <= r
  {
    if props == [] then {} else (if props[0].kind.PImply? then OptSyms(props[0].cond) else {}) + ImplyConds(props[1..])
  }

  lemma {:induction false} ReadOf(props: seq<Prop>, p: Prop)
    requires p in props
    ensures PropReads(p) <= PropsReads(props)
  {
    if p != props[0] { ReadOf(props[1..], p); }
  }

  lemma {:induction false} EdgesFrom(props: seq<Prop>, x: Sym)
    requires x in PropsEdges(props)
    ensures exists p <- props :: x in PropEdges(p)
  {
    if x !in PropEdges(props[0]) { EdgesFrom(props[1..], x); }
  }

  lemma {:induction false} TransBoolAdds(e: Expr)
    ensures Syms(TransBool(e)) <= Syms(e)
  {
    match e
    case Not(x) => TransBoolAdds(x);
    case Bin(_, l, r) => TransBoolAdds(l); TransBoolAdds(r);
    case Cmp(_, _, _) =>
    case Leaf(_) =>
  }

  // The condition of the P_SYMBOL property mentions nothing else.
  lemma {:induction false} MarkAdds(dep: Option<Expr>, own: Option<Expr>, sym: Option<Sym>, modules: Sym)
    ensures var d := EntryDep(dep, own, modules);
      OptSyms(PropertyCond(d, None, sym, modules)) <= OptSyms(d)
  {
    hide Deduplicate, TransBool, Transform, RewriteM, Syms;
    var e := AllocBin(OpAnd, dep, Prepared(own, modules));
    if e.Some? {
      DeduplicateTwice(e.value);
      TransBoolAdds(Deduplicate(e.value));
    }
  }

  // Menus below the root that belong to a symbol are entries, without children, as parsed.
  ghost predicate Parsed(root: Menu, f: seq<Tree>, s0: Facts) {
    forall m <- Nodes(f) | m.sym.Some? :: m in s0.data && AsParsed(s0.data[m]) && m in Leaves([Tree(root, f)])
  }

  // What the checker follows through the P_SYMBOL property is the direct dependency.
  lemma {:induction false} DependencyRead(modules: Sym, root: Menu, f: seq<Tree>, s0: Facts, s: Facts, m: Menu, i: nat,
                                          above: Option<Expr>, x: Sym)
    requires Loaded(modules, root, f, s0, s) && Parsed(root, f, s0) && m in Nodes(f) && m.sym.Some?
    requires m in s0.data && m in s.data && Propagated(modules, above, m.sym, s0.data[m], s.data[m])
    requires i < |s0.data[m].props| && s0.data[m].props[i].kind.PSymbol? && i < |s.data[m].props|
    requires x in OptSyms(s.data[m].props[i].cond)
    ensures m.sym.value in s.dir && x in Syms(s.dir[m.sym.value])
  {
    hide Settled, Recorded, Directed, Syms, Nodes, Leaves, EntryDep, PropertyCond, Marked, TextIsPrompt, NamedBy;
    assert s0.data[m].props[i] in s0.data[m].props;
    assert s.data[m].props[i] == PropagatedProp(s.data[m].dep, s0.data[m].props[i], m.sym, modules);
    MarkAdds(above, s0.data[m].dep, m.sym, modules);
    assert Covered(m, s.data, s.dir);
  }

  // In such a graph, the checker follows what the calculator reads, apart from implies, and the
  // conditions of implies, and nothing else; in particular not the conditions of selects.
  lemma {:induction false} EdgesExactly(modules: Sym, root: Menu, f: seq<Tree>, s0: Facts, s: Facts, t: Sym, x: Sym)
    requires Loaded(modules, root, f, s0, s) && Parsed(root, f, s0)
    requires var g := GraphOf(Pre([Tree(root, f)]), s); t in g && x in g
    ensures var g := GraphOf(Pre([Tree(root, f)]), s);
      x in Edges(g[t]) <==> x in Reads(g[t].(implied := None)) || x in ImplyConds(g[t].props)
  {
    hide Loaded, Parsed, PropsFor, PropsEdges, PropsReads, Syms, Pre, ImplyConds;
    var g := GraphOf(Pre([Tree(root, f)]), s);
    var def := g[t];
    DefinedAreRefs(modules, root, f, s0, s, x);
    if x in PropsEdges(def.props) { EdgeRead(modules, root, f, s0, s, t, x); }
    if x in PropsReads(def.props) { PropertyFollowed(modules, root, f, s0, s, t, x); }
    if x in OptSyms(def.dirDep) { DirectFollowed(modules, root, f, s0, s, t, x); }
    ImpliesFollowed(def.props);
  }

  lemma {:induction false} ImpliesFollowed(props: seq<Prop>)
    ensures ImplyConds(props) <= PropsEdges(props)
  {
    if props != [] { ImpliesFollowed(props[1..]); }
  }

  // One direction, for the properties.
  lemma {:induction false} EdgeRead(modules: Sym, root: Menu, f: seq<Tree>, s0: Facts, s: Facts, t: Sym, x: Sym)
    requires Loaded(modules, root, f, s0, s) && Parsed(root, f, s0)
    requires var g := GraphOf(Pre([Tree(root, f)]), s); t in g && x in PropsEdges(g[t].props)
    ensures var g := GraphOf(Pre([Tree(root, f)]), s);
      x in PropsReads(g[t].props) || x in OptSyms(g[t].dirDep) || x in ImplyConds(g[t].props)
  {
    hide Loaded, Parsed, PropertyCond, EntryDep, Syms, PropsFor, PropsEdges, PropsReads, Pre, Marked, ImplyConds;
    var ms := Pre([Tree(root, f)]);
    var props := PropsFor(t, ms, s.data);
    EdgesFrom(props, x);
    var p :| p in props && x in PropEdges(p);
    PropsForOnly(t, ms, s.data, p);
    var m :| m in ms && m.sym == Some(t) && m in s.data
      && exists i :: 0 <= i < |s.data[m].props| && p == PropOf(s.data[m].props[i]);
    var i :| 0 <= i < |s.data[m].props| && p == PropOf(s.data[m].props[i]);
    var above := LoadedNode(modules, root, f, s0, s, m);
    ParsedAt(modules, root, f, s0, s, m, i, above);
    ReadOf(props, p);
    if p.kind.PSymbol? { DependencyRead(modules, root, f, s0, s, m, i, above, x); }
  }

  lemma {:induction false} ParsedAt(modules: Sym, root: Menu, f: seq<Tree>, s0: Facts, s: Facts, m: Menu, i: nat,
                                    above: Option<Expr>)
    requires Parsed(root, f, s0) && m in Nodes(f) && m.sym.Some? && m in s0.data && m in s.data
    requires Propagated(modules, above, m.sym, s0.data[m], s.data[m]) && i < |s.data[m].props|
    ensures var p := s.data[m].props[i]; p.hasText <==> p.kind.PPrompt? || p.kind.PMenu?
    ensures i < |s0.data[m].props| && s0.data[m].props[i].kind == s.data[m].props[i].kind
  {
    hide PropertyCond, EntryDep, Nodes, Leaves;
    assert s0.data[m].props[i] in s0.data[m].props;
    assert s.data[m].props[i] == PropagatedProp(s.data[m].dep, s0.data[m].props[i], m.sym, modules);
  }

  lemma {:induction false} DefinedAreRefs(modules: Sym, root: Menu, f: seq<Tree>, s0: Facts, s: Facts, x: Sym)
    requires Loaded(modules, root, f, s0, s) && x in DefinedIn(Pre([Tree(root, f)]))
    ensures x.Ref?
  {
    hide Loaded, Pre;
    var m :| m in Pre([Tree(root, f)]) && m.sym == Some(x);
    var above := LoadedNode(modules, root, f, s0, s, m);
  }

  lemma {:induction false} DirectFollowed(modules: Sym, root: Menu, f: seq<Tree>, s0: Facts, s: Facts, t: Sym, x: Sym)
    requires Loaded(modules, root, f, s0, s) && t in s.dir && x in Syms(s.dir[t]) && x != SymNo
    ensures x in PropsEdges(PropsFor(t, Pre([Tree(root, f)]), s.data))
  {
    hide Settled, Recorded, Directed, Syms, PropsFor, PropsEdges, Marked, TextIsPrompt;
    assert NamedBy(Nodes([Tree(root, f)]), s.data, t, x);
    var m :| m in Nodes([Tree(root, f)]) && m in s.data && m.sym == Some(t)
      && s.data[m].dep.Some? && x in Syms(s.data[m].dep.value);
    DependencyFollowed(modules, root, f, s0, s, m, x);
  }

  // So after a silent sweep over that graph, the calculator has no cycle if and only if no symbol
  // is implied by an expression over symbols that, directly or on the way, ask for it.
  lemma {:induction false} LoadedRanks(modules: Sym, root: Menu, f: seq<Tree>, s0: Facts, s: Facts, cfg: Config,
                                       done: seq<Sym>)
    requires Loaded(modules, root, f, s0, s) && cfg.graph == GraphOf(Pre([Tree(root, f)]), s)
    requires Finished(cfg.graph, done) && forall t <- cfg.graph :: t in done
    ensures (exists rank :: Ranked(cfg, rank))
      <==> !exists t <- cfg.graph, x <- OptSyms(cfg.graph[t].implied) :: x in cfg.graph && Ranks.Reaches(cfg, x, t)
  {
    hide Loaded, GraphOf, Pre, Reads, Edges, Ranked;
    forall t <- cfg.graph, x <- Reads(cfg.graph[t]) | x in cfg.graph
      ensures x in Edges(cfg.graph[t]) + OptSyms(cfg.graph[t].implied)
    {
      ReadsFollowed(modules, root, f, s0, s, t, x);
    }
    Ranks.ImpliesExactly(cfg, done);
  }

  // A step of a cycle that is not only there because of the condition of an imply.
  predicate Serious(g: Graph, s: Sym, t: Sym) {
    s in g && t in g && t in Reads(g[s].(implied := None))
  }

  // A cycle the checker reports without using the condition of an imply is one of the calculator,
  // and a cycle of the calculator that uses no imply is one the checker can report.
  lemma {:induction false} ReportsExactly(modules: Sym, root: Menu, f: seq<Tree>, s0: Facts, s: Facts, cfg: Config,
                                          c: seq<Sym>)
    requires Loaded(modules, root, f, s0, s) && Parsed(root, f, s0) && cfg.graph == GraphOf(Pre([Tree(root, f)]), s)
    requires c != [] && forall i | 0 <= i < |c| :: c[i] in cfg.graph
    ensures IsCycle(cfg.graph, c) ==>
      !Ranks.NoCycle(cfg) || exists i | 0 <= i < |c| :: Next(c, i) in ImplyConds(cfg.graph[c[i]].props)
    ensures (forall i | 0 <= i < |c| :: Serious(cfg.graph, c[i], Next(c, i))) ==> IsCycle(cfg.graph, c)
  {
    hide Loaded, Parsed, GraphOf, Pre, Reads, Edges, Ranks.NoCycle, ImplyConds;
    forall i | 0 <= i < |c|
      ensures Edge(cfg.graph, c[i], Next(c, i))
        <==> Serious(cfg.graph, c[i], Next(c, i)) || Next(c, i) in ImplyConds(cfg.graph[c[i]].props)
    {
      EdgesExactly(modules, root, f, s0, s, c[i], Next(c, i));
    }
    Rounds(cfg.graph, c);
    if IsCycle(cfg.graph, c) && forall i | 0 <= i < |c| :: Next(c, i) !in ImplyConds(cfg.graph[c[i]].props) {
      forall i | 0 <= i < |c|
        ensures Ranks.Asks(cfg, c[i], Next(c, i))
      {
        assert Serious(cfg.graph, c[i], Next(c, i));
        ReadsMore(cfg.graph[c[i]]);
      }
      Ranks.CycleOf(cfg, c);
    }
  }

  lemma Rounds(g: Graph, c: seq<Sym>)
    requires c != []
    ensures IsCycle(g, c) <==> forall i | 0 <= i < |c| :: Edge(g, c[i], Next(c, i))
  {
    hide Edge;
    if forall i | 0 <= i < |c| :: Edge(g, c[i], Next(c, i)) {
      assert Edge(g, c[|c| - 1], Next(c, |c| - 1));
      forall i | 0 <= i < |c| - 1
        ensures Edge(g, c[i], c[i + 1])
      {
        assert Edge(g, c[i], Next(c, i));
      }
    }
  }

  lemma ReadsMore(def: SymDef)
    ensures Reads(def.(implied := None)) <= Reads(def)
  {
  }
}
