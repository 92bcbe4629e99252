// Detection of recursive dependencies (sym_check_deps and its helpers in symbol.c).
module CheckDeps {
  import opened Wrappers
  import opened Expr
  import opened Symbols

  // ----- the graph the checker walks -----

  type Graph = map<Sym, SymDef>

  function PropEdges(p: Prop): set<Sym> {
    if p.kind.PSelect? then {} else OptSyms(p.cond) + (if p.kind.PDefault? then OptSyms(p.expr) else {})
  }

  function PropsEdges(props: seq<Prop>): set<Sym> {
    if props == [] then {} else PropEdges(props[0]) + PropsEdges(props[1..])
  }

  function Edges(def: SymDef): set<Sym> { OptSyms(def.revDep) + PropsEdges(def.props) }

  predicate Edge(g: Graph, s: Sym, t: Sym) { s in g && t in Edges(g[s]) }

  predicate Path(g: Graph, c: seq<Sym>) {
    forall i | 0 <= i < |c| - 1 :: Edge(g, c[i], c[i + 1])
  }

  predicate IsCycle(g: Graph, c: seq<Sym>) {
    c != [] && Path(g, c) && Edge(g, c[|c| - 1], c[0])
  }

  // The symbol behind position i of a cycle.
  function Next(c: seq<Sym>, i: nat): Sym
    requires i < |c|
  {
    if i == |c| - 1 then c[0] else c[i + 1]
  }

  lemma {:induction false} PropsEdgesSplit(props: seq<Prop>, i: nat)
    requires i < |props|
    ensures PropEdges(props[i]) <= PropsEdges(props)
    ensures PropsEdges(props[..i + 1]) == PropsEdges(props[..i]) + PropEdges(props[i])
  {
    if i > 0 {
      PropsEdgesSplit(props[1..], i - 1);
      assert props[..i + 1][1..] == props[1..][..i] && props[..i][1..] == props[1..][..i - 1];
    }
  }

  lemma PathSnoc(g: Graph, c: seq<Sym>, s: Sym)
    requires Path(g, c) && (c != [] ==> Edge(g, c[|c| - 1], s))
    ensures Path(g, c + [s])
  {
  }

  // The symbols being checked are those on the stack, and those checked before are done.
  ghost predicate OnStack(check: set<Sym>, stack: seq<Sym>) {
    forall s :: s in check <==> s in stack
  }

  ghost predicate AllDone(done: seq<Sym>, checked: set<Sym>, check: set<Sym>) {
    forall s :: s in done <==> s in checked && s !in check
  }

  lemma PushStates(done: seq<Sym>, checked: set<Sym>, check: set<Sym>, stack: seq<Sym>, s: Sym)
    requires s !in checked && OnStack(check, stack) && check <= checked
    ensures OnStack(check + {s}, stack + [s]) && check + {s} <= checked + {s} && s !in check && s !in stack
    ensures AllDone(done, checked, check) ==> AllDone(done, checked + {s}, check + {s})
  {
  }

  // ----- finished symbols -----

  // Whatever a symbol of done depends on stands before it.
  ghost predicate Finished(g: Graph, done: seq<Sym>) {
    forall i, t | 0 <= i < |done| && Edge(g, done[i], t) :: t in done[..i]
  }

  lemma FinishedSnoc(g: Graph, done: seq<Sym>, s: Sym)
    requires Finished(g, done) && (s in g ==> forall t <- Edges(g[s]) :: t in done)
    ensures Finished(g, done + [s])
  {
    forall i, t | 0 <= i < |done + [s]| && Edge(g, (done + [s])[i], t)
      ensures t in (done + [s])[..i]
    {
      assert (done + [s])[..i] == done[..i];
      if i == |done| { assert done[..i] == done; }
    }
  }

  // A path of dependencies leads back in the order.
  lemma {:induction false} PathLeadsBack(g: Graph, done: seq<Sym>, c: seq<Sym>, i: nat) returns (j: nat)
    requires Finished(g, done) && c != [] && Path(g, c) && i < |done| && done[i] == c[0]
    ensures j < |done| && done[j] == c[|c| - 1] && if |c| == 1 then j == i else j < i
    decreases |c|
  {
    hide Finished, Edge;
    if |c| == 1 {
      j := i;
    } else {
      assert Edge(g, c[0], c[1]);
      var k := EdgeLeadsBack(g, done, i, c[1]);
      assert c[1..][0] == c[1] && c[1..][|c| - 2] == c[|c| - 1];
      j := PathLeadsBack(g, done, c[1..], k);
    }
  }

  lemma EdgeLeadsBack(g: Graph, done: seq<Sym>, i: nat, t: Sym) returns (k: nat)
    requires Finished(g, done) && i < |done| && Edge(g, done[i], t)
    ensures k < i && done[k] == t
  {
    k :| 0 <= k < i && done[k] == t;
  }

  lemma NoCycleWhenFinished(g: Graph, done: seq<Sym>, c: seq<Sym>)
    requires Finished(g, done) && forall s <- g :: s in done
    ensures !IsCycle(g, c)
  {
    if IsCycle(g, c) {
      var i := FirstIndex(done, c[0]);
      var round := c + [c[0]];
      assert Path(g, round);
      var j := PathLeadsBack(g, done, round, i);
    }
  }

  lemma {:induction false} FirstIndex(done: seq<Sym>, s: Sym) returns (i: nat)
    requires s in done
    ensures i < |done| && done[i] == s && forall k | 0 <= k < i :: done[k] != s
  {
    if done[0] == s {
      i := 0;
    } else {
      i := FirstIndex(done[1..], s);
      i := i + 1;
    }
  }

  ghost function RankIn(done: seq<Sym>, s: Sym): nat {
    if done == [] then 0 else if s in done[..|done| - 1] then RankIn(done[..|done| - 1], s) else |done|
  }

  lemma {:induction false} RankInFirst(done: seq<Sym>, s: Sym, i: nat)
    requires i < |done| && done[i] == s && forall k | 0 <= k < i :: done[k] != s
    ensures RankIn(done, s) == i + 1
    decreases |done|
  {
    var n := |done| - 1;
    if i < n {
      assert done[..n][i] == s;
      RankInFirst(done[..n], s, i);
    }
  }

  // The order in which the symbols were finished ranks the graph the checker follows, and the
  // graph the calculator reads if that is no larger.
  lemma {:induction false} FinishedRanks(cfg: Config, done: seq<Sym>)
    requires Finished(cfg.graph, done) && forall s <- cfg.graph :: s in done
    ensures forall s <- cfg.graph, t <- Edges(cfg.graph[s]) :: RankIn(done, t) < RankIn(done, s)
    ensures (forall s <- cfg.graph, t <- Reads(cfg.graph[s]) | t in cfg.graph :: t in Edges(cfg.graph[s]))
      ==> Ranked(cfg, map s | s in cfg.graph :: RankIn(done, s))
  {
    forall s <- cfg.graph, t <- Edges(cfg.graph[s])
      ensures RankIn(done, t) < RankIn(done, s)
    {
      var i := FirstIndex(done, s);
      assert Edge(cfg.graph, done[i], t);
      assert t in done[..i];
      var j := FirstIndex(done, t);
      RankInFirst(done, s, i);
      RankInFirst(done, t, j);
    }
  }

  // ----- the checker -----

  class Checker {
    const graph: Graph
    // the symbols with SYMBOL_CHECK and with SYMBOL_CHECKED, and the stack below check_top
    var check: set<Sym>
    var checked: set<Sym>
    var stack: seq<Sym>
    // the cycles printed, innermost symbol last
    var reports: seq<seq<Sym>>
    // as long as nothing has been reported: the symbols that are completely checked, in order
    ghost var done: seq<Sym>

    ghost predicate Ok()
      reads this
    {
      && OnStack(check, stack) && check <= checked
      && Path(graph, stack)
      && (forall c <- reports :: IsCycle(graph, c))
      && (reports == [] ==> Finished(graph, done) && AllDone(done, checked, check))
    }

    constructor (graph: Graph)
      ensures Ok() && this.graph == graph && check == {} && checked == {} && stack == [] && reports == []
    {
      this.graph := graph;
      check, checked, stack, reports, done := {}, {}, [], [], [];
    }

    // The symbols that can ever be checked.
    ghost function Universe(): set<Sym> {
      graph.Keys + set s, t | s in graph && t in Edges(graph[s]) :: t
    }

    // The call is made while the symbol on top of the stack is looked at.
    ghost predicate Called(syms: set<Sym>)
      reads this`stack
    {
      if stack == [] then syms <= Universe()
      else forall t <- syms :: Edge(graph, stack[|stack| - 1], t)
    }

    // sym_check_print_recursive: the part of the stack from the symbol found again to the top.
    // Its message "unexpected recursive dependency error" never appears.
    method PrintRecursive(last: Sym)
      requires Ok() && last in check && Called({last})
      modifies this`reports
      ensures Ok() && reports != [] && old(reports) <= reports
    {
      var i := |stack| - 1;
      while stack[i] != last
        invariant 0 <= i < |stack| && last in stack[..i + 1]
        decreases i
      {
        i := i - 1;
      }
      assert IsCycle(graph, stack[i..]);
      reports := reports + [stack[i..]];
    }

    // sym_check_deps of a symbol outside choices.  The symbol returned is being checked, so the
    // outermost call returns nothing even if it has reported a recursion.
    method CheckDeps(s: Sym) returns (r: Option<Sym>)
      requires Ok() && Called({s})
      modifies this
      ensures Ok() && check == old(check) && stack == old(stack) && old(checked) <= checked
      ensures (reports == [] ==> old(reports) == [])
      ensures r.Some? ==> r.value in check && reports != []
      ensures reports == [] ==> s in checked - check
      decreases |Universe() - checked|, 0
    {
      hide Checker.Ok, Checker.Universe, Checker.Called, Edges, Path, IsCycle;
      if s in check {
        PrintRecursive(s);
        return Some(s);
      }
      if s in checked {
        return None;
      }
      Push(s);
      r := CheckSymDeps(s);
      Pop(s);
      if r == Some(s) {
        r := None;
      }
    }

    // sym->flags |= SYMBOL_CHECK | SYMBOL_CHECKED; dep_stack_insert
    method Push(s: Sym)
      requires Ok() && s !in checked && Called({s})
      modifies this`check, this`checked, this`stack
      ensures Ok() && check == old(check) + {s} && checked == old(checked) + {s} && stack == old(stack) + [s]
      ensures s !in old(check) && s !in old(stack) && |Universe() - checked| < |Universe() - old(checked)|
    {
      hide Finished, IsCycle, Path, Edges, Edge, OnStack, AllDone, Checker.Universe;
      InUniverse(s);
      OneFewerLeft(Universe(), checked, s);
      PathSnoc(graph, stack, s);
      PushStates(done, checked, check, stack, s);
      check, checked, stack := check + {s}, checked + {s}, stack + [s];
    }

    // dep_stack_remove; sym->flags &= ~SYMBOL_CHECK
    method Pop(s: Sym)
      requires Ok() && stack != [] && stack[|stack| - 1] == s && s !in stack[..|stack| - 1]
      requires reports == [] && s in graph ==> Edges(graph[s]) <= checked - check
      modifies this`check, this`stack, this`done
      ensures Ok() && check == old(check) - {s} && stack == old(stack)[..|old(stack)| - 1]
    {
      hide IsCycle, Finished, Edges;
      if reports == [] { FinishedSnoc(graph, done, s); }
      assert stack == stack[..|stack| - 1] + [s];
      check, stack, done := check - {s}, stack[..|stack| - 1], done + [s];
    }

    // sym_check_expr_deps
    method CheckExpr(e: Expr) returns (r: Option<Sym>)
      requires Ok() && stack != [] && Called(Syms(e))
      modifies this
      ensures Ok() && check == old(check) && stack == old(stack) && old(checked) <= checked
      ensures (reports == [] ==> old(reports) == [])
      ensures r.Some? ==> r.value in check && reports != []
      ensures reports == [] ==> Syms(e) <= checked - check
      decreases |Universe() - checked|, 1, e
    {
      hide Checker.Ok, Checker.Called, Checker.Universe;
      CalledParts(e);
      match e {
        case Leaf(s) =>
          r := CheckDeps(s);
        case Not(x) =>
          r := CheckExpr(x);
        case Bin(_, l, x) =>
          r := CheckExpr(l);
          if r.Some? { return; }
          Shrinks(old(checked));
          r := CheckExpr(x);
        case Cmp(_, a, b) =>
          r := CheckDeps(a);
          if r.Some? { return; }
          Shrinks(old(checked));
          r := CheckDeps(b);
      }
    }

    lemma {:induction false} CalledParts(e: Expr)
      requires Called(Syms(e))
      ensures e.Not? ==> Called(Syms(e.e))
      ensures e.Bin? ==> Called(Syms(e.l)) && Called(Syms(e.r))
      ensures e.Cmp? ==> Called({e.s1}) && Called({e.s2})
    {
    }

    method CheckExprOpt(e: Option<Expr>) returns (r: Option<Sym>)
      requires Ok() && stack != [] && Called(OptSyms(e))
      modifies this
      ensures Ok() && check == old(check) && stack == old(stack) && old(checked) <= checked
      ensures (reports == [] ==> old(reports) == [])
      ensures r.Some? ==> r.value in check && reports != []
      ensures reports == [] ==> OptSyms(e) <= checked - check
      decreases |Universe() - checked|, 2
    {
      if e.Some? { r := CheckExpr(e.value); } else { r := None; }
    }

    // sym_check_sym_deps, for the symbol on top of the stack
    method CheckSymDeps(s: Sym) returns (r: Option<Sym>)
      requires Ok() && stack != [] && stack[|stack| - 1] == s
      modifies this
      ensures Ok() && check == old(check) && stack == old(stack) && old(checked) <= checked
      ensures (reports == [] ==> old(reports) == [])
      ensures r.Some? ==> r.value in check && reports != []
      ensures reports == [] && s in graph ==> Edges(graph[s]) <= checked - check
      decreases |Universe() - checked|, 4
    {
      hide Checker.Ok, Checker.Universe;
      if s !in graph {
        return None;
      }
      var def := graph[s];
      r := CheckExprOpt(def.revDep);
      if r.Some? {
        return;
      }
      var i := 0;
      while i < |def.props|
        invariant 0 <= i <= |def.props| && r == None
        invariant Ok() && check == old(check) && stack == old(stack) && old(checked) <= checked
        invariant (reports == [] ==> old(reports) == [])
        invariant reports == [] ==> OptSyms(def.revDep) + PropsEdges(def.props[..i]) <= checked - check
      {
        Shrinks(old(checked));
        PropsEdgesSplit(def.props, i);
        r := CheckProp(s, def.props[i]);
        if r.Some? {
          return;
        }
        i := i + 1;
      }
      assert def.props[..i] == def.props;
    }

    // The body of the loop over all properties.
    method CheckProp(s: Sym, p: Prop) returns (r: Option<Sym>)
      requires Ok() && stack != [] && stack[|stack| - 1] == s && s in graph && PropEdges(p) <= Edges(graph[s])
      modifies this
      ensures Ok() && check == old(check) && stack == old(stack) && old(checked) <= checked
      ensures (reports == [] ==> old(reports) == [])
      ensures r.Some? ==> r.value in check && reports != []
      ensures reports == [] ==> PropEdges(p) <= checked - check
      decreases |Universe() - checked|, 3
    {
      if p.kind.PSelect? {
        return None;
      }
      r := CheckExprOpt(p.cond);
      if r.Some? {
        return;
      }
      if !p.kind.PDefault? {
        return;
      }
      Shrinks(old(checked));
      r := CheckExprOpt(p.expr);
    }

    lemma Shrinks(before: set<Sym>)
      requires before <= checked
      ensures |Universe() - checked| <= |Universe() - before|
    {
      Subset(Universe() - checked, Universe() - before);
    }

    static lemma {:induction false} Subset(a: set<Sym>, b: set<Sym>)
      requires a <= b
      ensures |a| <= |b|
    {
      if a != {} {
        var x :| x in a;
        Subset(a - {x}, b - {x});
      }
    }

    lemma InUniverse(s: Sym)
      requires Called({s})
      ensures s in Universe()
    {
      if stack != [] { assert Edge(graph, stack[|stack| - 1], s); }
    }
  }

  // The sweep of conf_parse over all symbols: a recursion is reported if and only if the graph
  // has a cycle.  The number of errors counted by the caller is always 0.
  method Sweep(graph: Graph, syms: seq<Sym>) returns (reports: seq<seq<Sym>>, errors: nat, ghost done: seq<Sym>)
    requires forall s <- graph :: s in syms
    requires forall s <- syms :: s in graph
    ensures errors == 0
    ensures forall c <- reports :: IsCycle(graph, c)
    ensures reports != [] <==> exists c :: IsCycle(graph, c)
    ensures reports == [] ==> Finished(graph, done) && forall s <- graph :: s in done
  {
    var ch := new Checker(graph);
    errors := 0;
    var i := 0;
    while i < |syms|
      invariant 0 <= i <= |syms| && errors == 0
      invariant fresh(ch) && ch.graph == graph && ch.Ok() && ch.stack == [] && ch.check == {}
      invariant ch.reports == [] ==> forall j | 0 <= j < i :: syms[j] in ch.checked
    {
      var r := ch.CheckDeps(syms[i]);
      errors := errors + if r.Some? then 1 else 0;
      i := i + 1;
    }
    reports, done := ch.reports, ch.done;
    if reports == [] {
      forall c
        ensures !IsCycle(graph, c)
      {
        NoCycleWhenFinished(graph, done, c);
      }
    } else {
      assert IsCycle(graph, reports[0]);
    }
  }

  // ----- what the checker does not follow -----

  const P := Ref("P", TBoolean)
  const Q := Ref("Q", TBoolean)

  // Q depends on P and implies it: evaluating P needs Q and the other way round, but the
  // checker has no edge from P to Q.
  function ImplyGraph(): Graph {
    map[P := SymDef([], None, None, Some(Leaf(Q))),
        Q := SymDef([Prop(PPrompt, true, Some(Leaf(P)), None)], None, None, None)]
  }

  lemma ImplyCycleUnseen(mods: Tri, strto: (string, int) -> Option<int>)
    ensures Finished(ImplyGraph(), [P, Q])
    ensures forall c :: !IsCycle(ImplyGraph(), c)
    ensures forall rank :: !Ranked(Config(ImplyGraph(), mods, strto), rank)
  {
    var g := ImplyGraph();
    assert g[Q].props[1..] == [] && g[P].props == [];
    assert Edges(g[P]) == {} && Edges(g[Q]) == {P};
    assert [P, Q][..1] == [P] && [P, Q][..0] == [];
    forall c
      ensures !IsCycle(g, c)
    {
      NoCycleWhenFinished(g, [P, Q], c);
    }
    forall rank
      ensures !Ranked(Config(g, mods, strto), rank)
    {
      assert Q in Reads(g[P]) && P in Reads(g[Q]);
    }
  }

  // ----- the conditions of selects -----

  const A := Ref("A", TBoolean)

  // A, with a prompt, selects Q if P; P depends on A.
  function SelectGraph(): Graph {
    map[A := SymDef([Prop(PPrompt, true, None, None), Prop(PSelect, false, Some(Leaf(P)), Some(Leaf(Q)))],
                    None, None, None),
        P := SymDef([Prop(PPrompt, true, Some(Leaf(A)), None)], Some(Leaf(A)), None, None),
        Q := SymDef([], None, Some(Bin(OpAnd, Leaf(A), Leaf(P))), None)]
  }

  // The condition of a select is no dependency of the symbol that selects: there is no cycle.
  lemma SelectConditionUnseen(mods: Tri, strto: (string, int) -> Option<int>)
    ensures Finished(SelectGraph(), [A, P, Q])
    ensures forall c :: !IsCycle(SelectGraph(), c)
    ensures exists rank :: Ranked(Config(SelectGraph(), mods, strto), rank)
  {
    hide Edges, Reads;
    var g, done := SelectGraph(), [A, P, Q];
    SelectGraphEdges();
    assert done[..0] == [] && done[..1] == [A] && done[..2] == [A, P];
    forall c
      ensures !IsCycle(g, c)
    {
      NoCycleWhenFinished(g, done, c);
    }
    assert Ranked(Config(g, mods, strto), map[A := 0, P := 1, Q := 2]);
  }

  lemma SelectGraphEdges()
    ensures var g := SelectGraph(); Edges(g[A]) == Reads(g[A]) == {} && Edges(g[P]) == Reads(g[P]) == {A}
    ensures var g := SelectGraph(); Edges(g[Q]) == Reads(g[Q]) == {A, P}
  {
    var g := SelectGraph();
    var a, p := g[A].props, g[P].props;
    TwoProps(a[0], a[1]);
    OneProp(p[0]);
    assert a == [a[0], a[1]] && p == [p[0]];
    assert Syms(Bin(OpAnd, Leaf(A), Leaf(P))) == {A, P};
  }

  lemma OneProp(p: Prop)
    ensures PropsEdges([p]) == PropEdges(p) && PropsReads([p]) == PropReads(p)
  {
    assert [p][1..] == [] && PropsEdges([]) == {} && PropsReads([]) == {};
  }

  lemma TwoProps(p: Prop, q: Prop)
    ensures PropsEdges([p, q]) == PropEdges(p) + PropEdges(q) && PropsReads([p, q]) == PropReads(p) + PropReads(q)
  {
    OneProp(q);
    assert [p, q][1..] == [q];
  }
}
