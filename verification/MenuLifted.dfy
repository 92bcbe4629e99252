// What hangs below a symbol in the final tree, after flattening has lifted the items of `if` blocks
// and of symbols without a prompt (menu_finalize in menu.c).
module MenuLifted {
  import opened Wrappers
  import Symbols
  import opened Expr
  import opened Eliminate
  import opened Normalize
  import opened Propagate
  import opened Dups
  import opened Submenu
  import opened MenuTree
  import opened MenuFlatten
  import opened MenuEffect
  import opened MenuArrange

  // The item m is not n only where n is not; null stands for no restriction.
  ghost predicate Up(d: map<Menu, Data>, env: Env, m: Menu, n: Menu?) {
    n == null || (m in d && n in d && (EvalOpt(d[m].ItemDep(), env) != NO ==> EvalOpt(d[n].ItemDep(), env) != NO))
  }

  // Below nodes without a prompt, that is so from child to parent.
  ghost predicate UpTree(prompted: set<Menu>, d: map<Menu, Data>, env: Env, t: Tree)
    decreases t
  {
    forall c <- t.kids :: UpTree(prompted, d, env, c) && (t.node !in prompted ==> Up(d, env, c.node, t.node))
  }

  ghost predicate UpTrees(prompted: set<Menu>, d: map<Menu, Data>, env: Env, f: seq<Tree>, n: Menu?) {
    forall t <- f :: UpTree(prompted, d, env, t) && Up(d, env, t.node, n)
  }

  // What flattening lifts keeps depending on what it has been lifted out of.
  lemma {:induction false} FlattenedUp(prompted: set<Menu>, d: map<Menu, Data>, env: Env, f: seq<Tree>, n: Menu?)
    requires UpTrees(prompted, d, env, f, n)
    ensures UpTrees(prompted, d, env, Flattened(prompted, f), n)
    decreases f
  {
    if f != [] {
      hide UpTree, Up;
      var t := f[0];
      assert t in f;
      FlattenedUp(prompted, d, env, f[1..], n);
      if t.kids != [] && t.node !in prompted {
        UpChildren(prompted, d, env, t, n);
        FlattenedUp(prompted, d, env, t.kids, n);
        UpAlone(prompted, d, env, t.node);
      }
    }
  }

  lemma {:induction false} UpChildren(prompted: set<Menu>, d: map<Menu, Data>, env: Env, t: Tree, n: Menu?)
    requires UpTree(prompted, d, env, t) && t.node !in prompted && Up(d, env, t.node, n)
    ensures UpTrees(prompted, d, env, t.kids, n)
  {
  }

  lemma {:induction false} UpAlone(prompted: set<Menu>, d: map<Menu, Data>, env: Env, m: Menu)
    ensures UpTree(prompted, d, env, Tree(m, []))
  {
  }

  // ----- where that comes from -----

  // Before flattening, no child of a node without a prompt is visible where that node is not: the
  // first of f, everything below it, and its siblings.
  ghost predicate Supported(prompted: set<Menu>, d: map<Menu, Data>, env: Env, f: seq<Tree>)
    decreases f
  {
    f == [] || (
      && (f[0].node !in prompted ==> forall k <- Kids(prompted, d, f).0 :: Up(d, env, k.node, f[0].node))
      && Supported(prompted, d, env, f[0].kids) && Supported(prompted, d, env, f[1..]))
  }

  lemma {:induction false} SupportedParts(prompted: set<Menu>, d: map<Menu, Data>, env: Env, f: seq<Tree>)
    requires Supported(prompted, d, env, f) && f != []
    ensures Supported(prompted, d, env, f[0].kids) && Supported(prompted, d, env, f[1..])
  {
  }

  lemma {:induction false} SupportedRest(prompted: set<Menu>, d: map<Menu, Data>, env: Env, r: seq<Tree>, f: seq<Tree>)
    requires Supported(prompted, d, env, f) && Rest(r, f)
    ensures Supported(prompted, d, env, r)
    decreases |f|
  {
    if |r| < |f| {
      assert f[1..][|f| - 1 - |r|..] == r;
      SupportedRest(prompted, d, env, r, f[1..]);
    }
  }

  lemma {:induction false} FinalUp(prompted: set<Menu>, d: map<Menu, Data>, env: Env, g: seq<Tree>)
    requires Supported(prompted, d, env, g) && g != []
    ensures UpTree(prompted, d, env, Final(prompted, d, g).0)
    ensures UpTrees(prompted, d, env, Kids(prompted, d, g).0, null)
    decreases g, 1
  {
    hide UpTree, Up, Supported, Siblings, TakenBehind, Rest;
    var kids := Kids(prompted, d, g).0;
    var n := g[0].node;
    SupportedParts(prompted, d, env, g);
    if g[0].kids != [] {
      SiblingsUp(prompted, d, env, g[0].kids);
    } else if n.sym.Some? && n in d {
      TakenUp(prompted, d, env, d[n].PromptDep(), n.sym.value, g[1..]);
    } else {
      NoneUp(prompted, d, env, null);
    }
    var above := if n in prompted then null else n;
    KidsUp(prompted, d, env, g);
    FlattenedUp(prompted, d, env, kids, above);
    JoinUp(prompted, d, env, n, Flattened(prompted, kids));
  }

  lemma {:induction false} NoneUp(prompted: set<Menu>, d: map<Menu, Data>, env: Env, n: Menu?)
    ensures UpTrees(prompted, d, env, [], n)
  {
  }

  lemma {:induction false} KidsUp(prompted: set<Menu>, d: map<Menu, Data>, env: Env, g: seq<Tree>)
    requires Supported(prompted, d, env, g) && g != []
    requires UpTrees(prompted, d, env, Kids(prompted, d, g).0, null)
    ensures UpTrees(prompted, d, env, Kids(prompted, d, g).0, if g[0].node in prompted then null else g[0].node)
  {
    hide UpTree, Kids;
  }

  lemma {:induction false} JoinUp(prompted: set<Menu>, d: map<Menu, Data>, env: Env, n: Menu, kids: seq<Tree>)
    requires UpTrees(prompted, d, env, kids, if n in prompted then null else n)
    ensures UpTree(prompted, d, env, Tree(n, kids))
  {
  }

  lemma {:induction false} SiblingsUp(prompted: set<Menu>, d: map<Menu, Data>, env: Env, g: seq<Tree>)
    requires Supported(prompted, d, env, g)
    ensures UpTrees(prompted, d, env, Siblings(prompted, d, g), null)
    decreases g, 2
  {
    hide UpTree, Up, Supported, TakenBehind, Final, Kids;
    if g == [] {
      NoneUp(prompted, d, env, null);
    } else {
      var (x, r) := Final(prompted, d, g);
      FinalUp(prompted, d, env, g);
      SupportedRest(prompted, d, env, r, g);
      SiblingsUp(prompted, d, env, r);
      NoLimit(d, env, x.node);
    }
  }

  lemma NoLimit(d: map<Menu, Data>, env: Env, m: Menu)
    ensures Up(d, env, m, null)
  {
  }

  lemma {:induction false} TakenUp(prompted: set<Menu>, d: map<Menu, Data>, env: Env, promptDep: Option<Expr>, s: Sym,
                                   g: seq<Tree>)
    requires Supported(prompted, d, env, g)
    ensures UpTrees(prompted, d, env, TakenBehind(prompted, d, promptDep, s, g).0, null)
    decreases g, 2
  {
    hide UpTree, Up, Supported, Siblings, Final, Kids, Moves;
    if g == [] || !Moves(d, g[0].node, promptDep, s) {
      NoneUp(prompted, d, env, null);
    } else {
      var (x, r) := Final(prompted, d, g);
      FinalUp(prompted, d, env, g);
      SupportedRest(prompted, d, env, r, g);
      TakenUp(prompted, d, env, promptDep, s, r);
      NoLimit(d, env, x.node);
      assert TakenBehind(prompted, d, promptDep, s, g).0 == [x] + TakenBehind(prompted, d, promptDep, s, r).0;
    }
  }

  // ----- the items of a final submenu -----

  // Whatever flattening leaves below a menu comes from one of the children it had before.
  lemma {:induction false} FlattenedFrom(prompted: set<Menu>, d: map<Menu, Data>, env: Env, f: seq<Tree>)
    requires UpTrees(prompted, d, env, f, null) && forall t <- f :: t.node in d
    ensures forall y <- Flattened(prompted, f) :: exists x <- f :: Up(d, env, y.node, x.node)
  {
    if f != [] {
      hide UpTree, Up;
      assert f == [f[0]] + f[1..];
      FlattenedFrom(prompted, d, env, f[1..]);
      FlattenedAppend(prompted, [f[0]], f[1..]);
      UpItself(d, env, f[0].node);
      FlattenedUp(prompted, d, env, [f[0]], f[0].node);
    }
  }

  lemma UpItself(d: map<Menu, Data>, env: Env, m: Menu)
    requires m in d
    ensures Up(d, env, m, m)
  {
  }

  // The item m of a final submenu is visible only where an item that is sound below s is.
  ghost predicate SoundBelow(d: map<Menu, Data>, env: Env, m: Menu, promptDep: Option<Expr>, s: Sym, items: seq<Tree>) {
    exists x <- items :: x.node in d && SoundUnder(d[x.node], promptDep, s, env) && Up(d, env, m, x.node)
  }

  // That is so for all items below a symbol in the final tree, if children support their parents.
  lemma {:induction false} FinalItemsSound(prompted: set<Menu>, d: map<Menu, Data>, f: seq<Tree>, env: Env)
    requires f != [] && f[0].kids == [] && f[0].node.sym.Some? && IsLogic(f[0].node.sym.value) && Sane(env)
    requires forall m <- Roots(f) :: m in d && DependencyOpt(d[m].ItemDep()) && DependencyOpt(d[m].PromptDep())
    requires Supported(prompted, d, env, f)
    ensures f[0].node in Roots(f)
    ensures forall y <- Final(prompted, d, f).0.kids ::
      SoundBelow(d, env, y.node, d[f[0].node].PromptDep(), f[0].node.sym.value, Kids(prompted, d, f).0)
  {
    hide Kids, UpTree, Up, SoundUnder, DependencyOpt, Supported, Roots, Nodes, Sane;
    SubmenuItemsSound(prompted, d, f, env);
    FinalUp(prompted, d, env, f);
    FlattenedFrom(prompted, d, env, Kids(prompted, d, f).0);
  }

  // ----- what supports a parent -----

  // A promptless symbol is supported by what is moved under it if that depends on the symbol, and
  // the symbol itself is n where its dependencies are.
  ghost predicate SupportsSymbol(prompted: set<Menu>, d: map<Menu, Data>, env: Env, f: seq<Tree>)
    requires f != []
  {
    var n := f[0].node;
    n !in prompted && f[0].kids == [] && n.sym.Some? && n in d ==>
      forall k <- Kids(prompted, d, f).0 ::
        && IsLogic(n.sym.value)
        && (EvalOpt(d[n].ItemDep(), env) == NO ==> TriOf(env, n.sym.value) == NO)
        && k.node in d && d[k.node].ItemDep().Some? && DependsSymbol(d[k.node].ItemDep().value, n.sym.value)
  }

  ghost predicate SupportsSymbols(prompted: set<Menu>, d: map<Menu, Data>, env: Env, f: seq<Tree>)
    decreases f
  {
    f == [] || (
      && SupportsSymbol(prompted, d, env, f)
      && SupportsSymbols(prompted, d, env, f[0].kids) && SupportsSymbols(prompted, d, env, f[1..]))
  }

  // An `if` block is supported by its items, because its dependency has been passed down to them.
  lemma {:induction false} SupportedWhen(modules: Sym, dep: Option<Expr>, prompted: set<Menu>, f: seq<Tree>,
                                         d0: map<Menu, Data>, d: map<Menu, Data>, env: Env)
    requires Inherits(modules, dep, f, d0, d) && Nodes(f) <= d0.Keys && Nodes(f) <= d.Keys
    requires Sane(env) && WellFormedOpt(dep) && NnfOpt(dep) && forall m <- Nodes(f) :: WellFormedData(d0[m])
    requires SupportsSymbols(prompted, d, env, f)
    ensures Supported(prompted, d, env, f)
    decreases f
  {
    if f != [] {
      hide Propagated, WellFormedData, WellFormedOpt, NnfOpt, Data.ItemDep, Kids, SupportsSymbol, Sane, Eval;
      var n := f[0].node;
      SubNodes(f);
      PropagatedForms(modules, dep, n.sym, d0[n], d[n]);
      SupportedWhen(modules, d[n].ItemDep(), prompted, f[0].kids, d0, d, env);
      SupportedWhen(modules, dep, prompted, f[1..], d0, d, env);
      if f[0].kids != [] {
        ChildrenUp(modules, d[n].ItemDep(), f[0].kids, d0, d, env, n);
        BlockSupported(prompted, d, env, f);
      } else {
        SymbolSupported(prompted, d, env, f);
      }
    }
  }

  lemma {:induction false} ChildrenUp(modules: Sym, dep: Option<Expr>, f: seq<Tree>, d0: map<Menu, Data>,
                                      d: map<Menu, Data>, env: Env, n: Menu)
    requires Inherits(modules, dep, f, d0, d) && Nodes(f) <= d0.Keys && n in d && d[n].ItemDep() == dep
    requires Sane(env) && WellFormedOpt(dep) && NnfOpt(dep) && forall m <- Nodes(f) :: WellFormedData(d0[m])
    ensures forall c <- Roots(f) :: Up(d, env, c, n)
    decreases |f|
  {
    if f != [] {
      hide Propagated, WellFormedData, WellFormedOpt, NnfOpt, Data.ItemDep, Sane, EvalOpt;
      SubNodes(f);
      ChildrenUp(modules, dep, f[1..], d0, d, env, n);
      PropagatedMeans(modules, dep, EvalOpt(dep, env), f[0].node.sym, d0[f[0].node], d[f[0].node], env);
    }
  }

  lemma {:induction false} BlockSupported(prompted: set<Menu>, d: map<Menu, Data>, env: Env, f: seq<Tree>)
    requires f != [] && f[0].kids != [] && forall c <- Roots(f[0].kids) :: Up(d, env, c, f[0].node)
    ensures forall k <- Kids(prompted, d, f).0 :: Up(d, env, k.node, f[0].node)
  {
    hide Up, Siblings, Roots;
    SiblingRoots(prompted, d, f[0].kids);
  }

  lemma {:induction false} SiblingRoots(prompted: set<Menu>, d: map<Menu, Data>, f: seq<Tree>)
    ensures forall x <- Siblings(prompted, d, f) :: x.node in Roots(f)
    decreases |f|
  {
    if f != [] {
      hide Final, Kids, Roots, Rest;
      var (x, r) := Final(prompted, d, f);
      SiblingRoots(prompted, d, r);
      RestRoots(r, f);
      assert Siblings(prompted, d, f) == [x] + Siblings(prompted, d, r);
    }
  }

  lemma {:induction false} SymbolSupported(prompted: set<Menu>, d: map<Menu, Data>, env: Env, f: seq<Tree>)
    requires f != [] && f[0].kids == [] && SupportsSymbol(prompted, d, env, f) && Sane(env)
    ensures f[0].node !in prompted ==> forall k <- Kids(prompted, d, f).0 :: Up(d, env, k.node, f[0].node)
  {
    hide TakenBehind, Data.ItemDep, Sane, DependsSymbol;
    var n := f[0].node;
    if n !in prompted && n.sym.Some? && n in d {
      forall k <- Kids(prompted, d, f).0
        ensures Up(d, env, k.node, n)
      {
        if TriOf(env, n.sym.value) == NO { DependsSound(d[k.node].ItemDep().value, n.sym.value, env); }
      }
    }
  }

  // Everywhere in f, what the final tree holds below a symbol that had no children is sound there.
  ghost predicate AllSound(prompted: set<Menu>, d: map<Menu, Data>, env: Env, f: seq<Tree>)
    decreases f
  {
    f == [] || (
      && f[0].node in d
      && (f[0].kids == [] && f[0].node.sym.Some? && IsLogic(f[0].node.sym.value) ==>
            forall y <- Final(prompted, d, f).0.kids ::
              SoundBelow(d, env, y.node, d[f[0].node].PromptDep(), f[0].node.sym.value, Kids(prompted, d, f).0))
      && AllSound(prompted, d, env, f[0].kids) && AllSound(prompted, d, env, f[1..]))
  }

  lemma {:induction false} SupportedIsSound(prompted: set<Menu>, d: map<Menu, Data>, env: Env, f: seq<Tree>)
    requires Supported(prompted, d, env, f) && Sane(env)
    requires forall m <- Nodes(f) :: m in d && DependencyOpt(d[m].ItemDep()) && DependencyOpt(d[m].PromptDep())
    ensures AllSound(prompted, d, env, f)
    decreases f
  {
    if f != [] {
      hide Final, Kids, SoundBelow, DependencyOpt, Data.ItemDep, Data.PromptDep, Sane;
      SubNodes(f);
      RootsAreNodes(f);
      SupportedParts(prompted, d, env, f);
      SupportedIsSound(prompted, d, env, f[0].kids);
      SupportedIsSound(prompted, d, env, f[1..]);
      if f[0].kids == [] && f[0].node.sym.Some? && IsLogic(f[0].node.sym.value) {
        FinalItemsSound(prompted, d, f, env);
      }
    }
  }

  // ----- an item that is lifted out of a symbol it does not depend on -----

  // A has no prompt and depends on S; B depends on "A || C".  A moves under S, B under A, because
  // a symbol without a prompt takes every item that mentions it, and flattening lifts B out of A.
  // So B is below S, whose prompt depends on R, and is visible with C = y where both S and R are n.
  lemma {:induction false} LiftedEscapes(s: Menu, a: Menu, b: Menu, c: Sym, r: Sym, env: Env)
    requires s != a && s != b && a != b && s.sym.Some? && a.sym.Some? && Sane(env)
    requires TypeOf(s.sym.value).TTristate? && TypeOf(a.sym.value).TTristate? && TypeOf(c).TTristate?
    requires TypeOf(r).TTristate?
    requires s.sym != a.sym && s.sym.value != c && a.sym.value != c
    requires TriOf(env, c) == YES && TriOf(env, r) == NO
    ensures var dep := Bin(OpOr, Leaf(a.sym.value), Leaf(c));
      var d := map[s := Data(Some(0), None, [MenuProp(Symbols.PPrompt, true, Some(Leaf(r)), None, None)]),
                   a := Data(None, Some(Leaf(s.sym.value)), []), b := Data(None, Some(dep), [])];
      && Final({s}, d, [Tree(s, []), Tree(a, []), Tree(b, [])]) == (Tree(s, [Tree(a, []), Tree(b, [])]), [])
      && Readable(dep, d[s].PromptDep(), env) && !SoundUnder(d[b], d[s].PromptDep(), s.sym.value, env)
  {
    hide Final, Kids, TakenBehind, BelongsUnder, Eval, Flattened;
    var dep := Bin(OpOr, Leaf(a.sym.value), Leaf(c));
    var d := map[s := Data(Some(0), None, [MenuProp(Symbols.PPrompt, true, Some(Leaf(r)), None, None)]),
                 a := Data(None, Some(Leaf(s.sym.value)), []), b := Data(None, Some(dep), [])];
    var f := [Tree(s, []), Tree(a, []), Tree(b, [])];
    var ta, tb := Tree(a, [Tree(b, [])]), Tree(b, []);
    assert f[1..] == [Tree(a, []), tb] && f[1..][1..] == [tb];
    MovesOfExample(s, a, b, c, r, d);
    LeafFinal({s}, d, b);
    TakesAll({s}, d, None, a.sym.value, [tb]);
    SymbolFinal({s}, d, f[1..], [tb]);
    NothingFlat({s}, b);
    TakesAll({s}, d, Some(Leaf(r)), s.sym.value, f[1..]);
    SymbolFinal({s}, d, f, [ta]);
    OneLifted({s}, a, b);
    ValuesOfExample(s, a, c, r, env);
  }

  lemma {:induction false} MovesOfExample(s: Menu, a: Menu, b: Menu, c: Sym, r: Sym, d: map<Menu, Data>)
    requires s.sym.Some? && a.sym.Some? && a in d && b in d
    requires d[a] == Data(None, Some(Leaf(s.sym.value)), [])
    requires d[b] == Data(None, Some(Bin(OpOr, Leaf(a.sym.value), Leaf(c))), [])
    ensures Moves(d, b, None, a.sym.value) && Moves(d, a, Some(Leaf(r)), s.sym.value)
  {
    hide NotNo, EliminateEq;
    var dep := Bin(OpOr, Leaf(a.sym.value), Leaf(c));
    assert a.sym.value in Syms(Leaf(a.sym.value)) && a.sym.value in Syms(dep);
    PromptlessTakesAll(Some(dep), a.sym.value);
    assert s.sym.value in Syms(Leaf(s.sym.value)) && DependsSymbol(Leaf(s.sym.value), s.sym.value);
  }

  lemma {:induction false} ValuesOfExample(s: Menu, a: Menu, c: Sym, r: Sym, env: Env)
    requires s.sym.Some? && a.sym.Some? && s.sym != a.sym && s.sym.value != c && TriOf(env, c) == YES
    requires TriOf(env, r) == NO
    requires IsLogic(r)
    ensures var dep := Bin(OpOr, Leaf(a.sym.value), Leaf(c));
      Eval(dep, env) == YES && Eval(Leaf(r), env) == NO && Readable(dep, Some(Leaf(r)), env)
  {
    assert BareTell(Leaf(r), env);
  }

  lemma {:induction false} LeafFinal(prompted: set<Menu>, d: map<Menu, Data>, b: Menu)
    ensures Final(prompted, d, [Tree(b, [])]) == (Tree(b, []), [])
  {
    assert Kids(prompted, d, [Tree(b, [])]) == ([], []);
  }

  lemma {:induction false} TakesAll(prompted: set<Menu>, d: map<Menu, Data>, promptDep: Option<Expr>, s: Sym,
                                    f: seq<Tree>)
    requires f != [] && Moves(d, f[0].node, promptDep, s) && Final(prompted, d, f).1 == []
    ensures TakenBehind(prompted, d, promptDep, s, f) == ([Final(prompted, d, f).0], [])
  {
    hide Final;
    var x := Final(prompted, d, f).0;
    assert TakenBehind(prompted, d, promptDep, s, []) == ([], []) && [x] + [] == [x];
  }

  lemma {:induction false} SymbolFinal(prompted: set<Menu>, d: map<Menu, Data>, f: seq<Tree>, moved: seq<Tree>)
    requires f != [] && f[0].kids == [] && f[0].node.sym.Some? && f[0].node in d
    requires TakenBehind(prompted, d, d[f[0].node].PromptDep(), f[0].node.sym.value, f[1..]) == (moved, [])
    ensures Final(prompted, d, f) == (Tree(f[0].node, Flattened(prompted, moved)), [])
  {
    hide TakenBehind, Flattened;
  }

  lemma {:induction false} NothingFlat(prompted: set<Menu>, b: Menu)
    ensures Flattened(prompted, [Tree(b, [])]) == [Tree(b, [])]
  {
  }

  lemma {:induction false} OneLifted(prompted: set<Menu>, a: Menu, b: Menu)
    requires a !in prompted
    ensures Flattened(prompted, [Tree(a, [Tree(b, [])])]) == [Tree(a, []), Tree(b, [])]
  {
    NothingFlat(prompted, b);
    assert [Tree(a, [Tree(b, [])])][1..] == [] && Flattened(prompted, []) == [];
  }
}
