// The writers of configuration files: the walk over all menus in conf_write_defconfig and
// conf_write (confdata.c), with the calculator and the line printer.
module ConfWrite {
  import opened Wrappers
  import opened Expr
  import opened Symbols
  import opened Settings
  import opened Engine
  import opened MenuTree
  import opened ConfFile
  import opened Lossless

  function SymsOf(ms: seq<Menu>): seq<Option<Sym>> {
    if ms == [] then [] else SymsOf(ms[..|ms| - 1]) + [ms[|ms| - 1].sym]
  }

  // What a writer that selects pick has written after visiting ms.
  ghost function Output(prefix: string, pick: set<Sym>, ms: seq<Menu>, texts: Texts): seq<string>
    requires forall s <- pick :: s.Ref? && s in texts
  {
    ListedOnce(pick, SymsOf(ms));
    Lines(prefix, Listed(pick, SymsOf(ms)), texts)
  }

  // One more menu visited.
  lemma {:induction false} OutputStep(prefix: string, pick: set<Sym>, ms: seq<Menu>, m: Menu, texts: Texts)
    requires forall s <- pick :: s.Ref? && s in texts
    ensures Output(prefix, pick, ms + [m], texts) == Output(prefix, pick, ms, texts)
      + if m.sym.Some? && m.sym.value in pick && m.sym !in SymsOf(ms)
        then [PrintSymbol(prefix, m.sym.value, texts[m.sym.value])] else []
    ensures SymsOf(ms + [m]) == SymsOf(ms) + [m.sym]
  {
    assert (ms + [m])[..|ms|] == ms;
    var syms := SymsOf(ms + [m]);
    assert syms == SymsOf(ms) + [m.sym] && syms[..|syms| - 1] == SymsOf(ms);
    ListedOnce(pick, SymsOf(ms));
    ListedOnce(pick, syms);
    var list := Listed(pick, syms);
    if m.sym.Some? && m.sym.value in pick && m.sym !in SymsOf(ms) {
      assert list[..|list| - 1] == Listed(pick, SymsOf(ms));
    }
  }

  // Which symbols have lost SYMBOL_WRITE after a writer has visited the menus syms, if it was off
  // for gone before.
  ghost predicate Taken(cfg: Config, user: User, vals: Values, gone: set<Sym>, syms: seq<Option<Sym>>,
                        emitted: set<Sym>) {
    forall s :: s in emitted <==> s in gone || (Some(s) in syms && s in FullSet(cfg, user, vals))
  }

  lemma TakenStep(cfg: Config, user: User, vals: Values, gone: set<Sym>, syms: seq<Option<Sym>>, emitted: set<Sym>,
                  o: Option<Sym>)
    requires Taken(cfg, user, vals, gone, syms, emitted)
    ensures Taken(cfg, user, vals, gone, syms + [o],
                  if o.Some? && o.value in FullSet(cfg, user, vals) then emitted + {o.value} else emitted)
  {
    hide FullSet;
  }

  // Calculates s and takes SYMBOL_WRITE off it; tells whether it was set.
  method Take(t: SymbolTable, s: Sym) returns (write: bool)
    requires t.Ok() && t.busy == {} && t.rank.Some? && s in t.cfg.graph
    modifies t`valid, t`states, t`busy, t`emitted
    ensures t.Ok() && t.busy == {} && s in t.valid && s in t.plain && t.plain.Keys == t.cfg.graph.Keys
    ensures write <==> s !in old(t.emitted) && s in FullSet(t.cfg, t.user, t.plain)
    ensures t.emitted == if s in FullSet(t.cfg, t.user, t.plain) then old(t.emitted) + {s} else old(t.emitted)
    ensures t.states[s] == Final(s, t.cfg.graph[s], t.user, EnvOf(t.cfg, t.plain)).(write := t.states[s].write)
      && t.states[s].curr == t.plain[s]
  {
    hide Coherent, Solution, Ranked, Above, Visible, DirDep, RevDep, Implied, Calc, Written;
    NothingBusy(t.rank, {s});
    t.CalcValue(s);
    t.Calculated(s);
    write := t.states[s].write;
    WrittenKinds(s, t.cfg.graph[s], t.user, EnvOf(t.cfg, t.plain));
    if write {
      t.ClearWrite(s);
    } else if s !in t.emitted {
      NotWritten(s, t.cfg.graph[s], t.user, EnvOf(t.cfg, t.plain));
    }
  }

  lemma NotWritten(s: Sym, def: SymDef, user: User, env: Env)
    ensures Final(s, def, user, env).write <==> Written(s, def, user, env)
  {
  }

  // The part of conf_write_defconfig for one menu that has a symbol; at most one line.
  method DefconfigEntry(t: SymbolTable, prefix: string, s: Sym, ghost ms: set<Menu>) returns (lines: seq<string>)
    requires t.Ok() && t.busy == {} && t.rank.Some? && s in t.cfg.graph && s.Ref?
    modifies t`valid, t`states, t`busy, t`emitted
    ensures t.Ok() && t.busy == {} && t.plain.Keys == t.cfg.graph.Keys
    ensures t.emitted == if s in FullSet(t.cfg, t.user, t.plain) then old(t.emitted) + {s} else old(t.emitted)
    ensures lines == if s !in old(t.emitted) && s in MinimalSet(t.cfg, t.user, t.plain)
                     then [PrintSymbol(prefix, s, TextsOf(t.cfg, t.plain)[s])] else []
    ensures Snap(ms) == old(Snap(ms))
  {
    hide Coherent, Solution, Ranked, Above, FullSet, MinimalSet, TextsOf, PrintSymbol, Final;
    var write := Take(t, s);
    MinimalIsFull(t.cfg, t.user, t.plain);
    lines := [];
    if write {
      lines := MinimalLine(t, prefix, s);
    }
    assert Snap(ms) == old(Snap(ms));
  }

  // The tests on a symbol that carried SYMBOL_WRITE.
  method MinimalLine(t: SymbolTable, prefix: string, s: Sym) returns (lines: seq<string>)
    requires t.Ok() && t.busy == {} && t.rank.Some? && s in t.cfg.graph && s.Ref?
    requires s in t.valid && t.plain.Keys == t.cfg.graph.Keys && s in FullSet(t.cfg, t.user, t.plain)
    requires t.states[s] == Final(s, t.cfg.graph[s], t.user, EnvOf(t.cfg, t.plain)).(write := t.states[s].write)
      && t.states[s].curr == t.plain[s]
    modifies t`valid, t`states, t`busy
    ensures t.Ok() && t.busy == {}
    ensures lines == if s in MinimalSet(t.cfg, t.user, t.plain)
                     then [PrintSymbol(prefix, s, TextsOf(t.cfg, t.plain)[s])] else []
  {
    hide Coherent, Solution, Ranked, Above, Visible, DirDep, RevDep, Implied, Calc, Written, StringDefault;
    lines := [];
    if !Changeable(t.states[s]) {
      return;
    }
    WrittenKinds(s, t.cfg.graph[s], t.user, EnvOf(t.cfg, t.plain));
    var text := ValueText(s, t.states[s].curr, t.cfg.mods);
    var def := t.GetStringDefault(s);
    if text == def {
      return;
    }
    lines := [PrintSymbol(prefix, s, text)];
  }

  // The part of conf_write for one menu that has a symbol.
  method FullEntry(t: SymbolTable, prefix: string, s: Sym, ghost ms: set<Menu>) returns (lines: seq<string>)
    requires t.Ok() && t.busy == {} && t.rank.Some? && s in t.cfg.graph && s.Ref?
    modifies t`valid, t`states, t`busy, t`emitted
    ensures t.Ok() && t.busy == {} && t.plain.Keys == t.cfg.graph.Keys
    ensures t.emitted == if s in FullSet(t.cfg, t.user, t.plain) then old(t.emitted) + {s} else old(t.emitted)
    ensures lines == if s !in old(t.emitted) && s in FullSet(t.cfg, t.user, t.plain)
                     then [PrintSymbol(prefix, s, TextsOf(t.cfg, t.plain)[s])] else []
    ensures Snap(ms) == old(Snap(ms))
  {
    hide Coherent, Solution, Ranked, Above, Visible, DirDep, RevDep, Implied, Calc, Written;
    var write := Take(t, s);
    lines := if write then [PrintSymbol(prefix, s, ValueText(s, t.states[s].curr, t.cfg.mods))] else [];
  }

  // The menus of a tree below root, all of whose symbols are in the table.
  ghost predicate Walkable(t: SymbolTable, root: Menu, ms: set<Menu>, f: seq<Tree>)
    reads root, ms
  {
    && root in ms && root.next == null && root.parent == null && Seg(Snap(ms), root.list, root, f, null)
    && (forall m <- Nodes(f) :: m.sym.Some? ==> m.sym.value in t.cfg.graph)
    && (forall s <- t.cfg.graph :: s.Ref?)
  }

  // The invariant of both loops: menu is where the walk stands after visited, out is what
  // has been written so far.
  ghost predicate Writing(cfg: Config, user: User, vals: Values, gone: set<Sym>, emitted: set<Sym>, prefix: string,
                          pick: set<Sym>, k: Links, f: seq<Tree>, menu: Menu?, g: seq<Tree>, up: seq<Open>,
                          visited: seq<Menu>, out: seq<string>) {
    && vals.Keys == cfg.graph.Keys && pick <= FullSet(cfg, user, vals) - gone && (forall s <- cfg.graph :: s.Ref?)
    && AtMenu(k, menu, g, up) && visited + (Pre(g) + Pending(up)) == Pre(f)
    && out == Output(prefix, pick, visited, TextsOf(cfg, vals))
    && Taken(cfg, user, vals, gone, SymsOf(visited), emitted)
  }

  lemma {:induction false} WalkStart(k: Links, root: Menu, f: seq<Tree>)
    requires root in k && k[root].next == null && k[root].parent == null && Seg(k, k[root].list, root, f, null)
    ensures AtMenu(k, k[root].list, f, [Open(root, [])])
    ensures [] + (Pre(f) + Pending([Open(root, [])])) == Pre(f)
  {
    assert [Open(root, [])][1..] == [];
    SegStart(k, k[root].list, root, f);
  }

  // The menu the walk stands at, and whether its symbol has been dealt with already.
  lemma {:induction false} WritingHead(cfg: Config, user: User, vals: Values, gone: set<Sym>, emitted: set<Sym>,
                                       prefix: string, pick: set<Sym>, k: Links, f: seq<Tree>, menu: Menu,
                                       g: seq<Tree>, up: seq<Open>, visited: seq<Menu>, out: seq<string>)
    requires Writing(cfg, user, vals, gone, emitted, prefix, pick, k, f, menu, g, up, visited, out)
    ensures AtMenu(k, menu, g, up) && menu in Nodes(f) && gone <= emitted
    ensures menu.sym.Some? && menu.sym.value in pick ==> (menu.sym.value in emitted <==> menu.sym in SymsOf(visited))
  {
    hide Output, FullSet;
    assert menu == g[0].node && Pre(g)[0] == menu;
    assert Pre(f)[|visited|] == menu;
  }

  // After menu has been dealt with, adding lines to out.
  lemma {:induction false} WalkStep(prefix: string, pick: set<Sym>, texts: Texts, f: seq<Tree>, menu: Menu,
                                    g: seq<Tree>, up: seq<Open>, visited: seq<Menu>, out: seq<string>, g': seq<Tree>,
                                    up': seq<Open>, lines: seq<string>)
    requires forall s <- pick :: s.Ref? && s in texts
    requires visited + (Pre(g) + Pending(up)) == Pre(f) && [menu] + Pre(g') + Pending(up') == Pre(g) + Pending(up)
    requires out == Output(prefix, pick, visited, texts)
    requires lines == if menu.sym.Some? && menu.sym.value in pick && menu.sym !in SymsOf(visited)
                      then [PrintSymbol(prefix, menu.sym.value, texts[menu.sym.value])] else []
    ensures (visited + [menu]) + (Pre(g') + Pending(up')) == Pre(f)
    ensures out + lines == Output(prefix, pick, visited + [menu], texts)
    ensures SymsOf(visited + [menu]) == SymsOf(visited) + [menu.sym]
    ensures |Pre(g') + Pending(up')| < |Pre(g) + Pending(up)|
  {
    hide Output, Pre, Pending, SymsOf;
    OutputStep(prefix, pick, visited, menu, texts);
    var rest, rest' := Pre(g) + Pending(up), Pre(g') + Pending(up');
    assert [menu] + Pre(g') + Pending(up') == [menu] + rest';
    assert visited + ([menu] + rest') == (visited + [menu]) + rest';
  }

  // One turn of either loop.
  lemma {:induction false} WritingStep(cfg: Config, user: User, vals: Values, gone: set<Sym>, emitted: set<Sym>,
                                       prefix: string, pick: set<Sym>, k: Links, f: seq<Tree>,
                    menu: Menu, g: seq<Tree>, up: seq<Open>, visited: seq<Menu>, out: seq<string>,
                    menu': Menu?, g': seq<Tree>, up': seq<Open>, emitted': set<Sym>, lines: seq<string>)
    requires Writing(cfg, user, vals, gone, emitted, prefix, pick, k, f, menu, g, up, visited, out)
    requires AtMenu(k, menu', g', up') && [menu] + Pre(g') + Pending(up') == Pre(g) + Pending(up)
    requires emitted' == if menu.sym.Some? && menu.sym.value in FullSet(cfg, user, vals) then emitted + {menu.sym.value}
                         else emitted
    requires lines == if menu.sym.Some? && menu.sym.value in pick && menu.sym.value !in emitted
                      then [PrintSymbol(prefix, menu.sym.value, TextsOf(cfg, vals)[menu.sym.value])] else []
    ensures Writing(cfg, user, vals, gone, emitted', prefix, pick, k, f, menu', g', up', visited + [menu], out + lines)
    ensures |Pre(g') + Pending(up')| < |Pre(g) + Pending(up)|
  {
    hide Output, Pre, Pending, AtMenu, Taken, FullSet, SymsOf, PrintSymbol;
    WritingHead(cfg, user, vals, gone, emitted, prefix, pick, k, f, menu, g, up, visited, out);
    FullInGraph(cfg, user, vals);
    WalkStep(prefix, pick, TextsOf(cfg, vals), f, menu, g, up, visited, out, g', up', lines);
    TakenStep(cfg, user, vals, gone, SymsOf(visited), emitted, menu.sym);
  }

  lemma FullInGraph(cfg: Config, user: User, vals: Values)
    ensures FullSet(cfg, user, vals) <= cfg.graph.Keys
  {
    hide Written;
  }

  lemma FullTexts(cfg: Config, user: User, vals: Values)
    requires vals.Keys == cfg.graph.Keys && forall s <- cfg.graph :: s.Ref?
    ensures forall s <- FullSet(cfg, user, vals) :: s.Ref? && s in TextsOf(cfg, vals)
  {
    hide Written;
  }

  lemma MinimalIsFull(cfg: Config, user: User, vals: Values)
    requires vals.Keys == cfg.graph.Keys
    ensures MinimalSet(cfg, user, vals) <= FullSet(cfg, user, vals) <= cfg.graph.Keys
  {
    hide Written, StringDefault;
  }

  lemma {:induction false} WritingStart(cfg: Config, user: User, vals: Values, gone: set<Sym>, prefix: string,
                                        pick: set<Sym>, k: Links, root: Menu, f: seq<Tree>)
    requires vals.Keys == cfg.graph.Keys && pick <= FullSet(cfg, user, vals) - gone && forall s <- cfg.graph :: s.Ref?
    requires root in k && k[root].next == null && k[root].parent == null && Seg(k, k[root].list, root, f, null)
    ensures Writing(cfg, user, vals, gone, gone, prefix, pick, k, f, k[root].list, f, [Open(root, [])], [], [])
  {
    WalkStart(k, root, f);
    FullInGraph(cfg, user, vals);
  }

  lemma {:induction false} WritingEnd(cfg: Config, user: User, vals: Values, gone: set<Sym>, emitted: set<Sym>,
                                      prefix: string, pick: set<Sym>, k: Links, f: seq<Tree>, g: seq<Tree>,
                                      up: seq<Open>, visited: seq<Menu>, out: seq<string>)
    requires Writing(cfg, user, vals, gone, emitted, prefix, pick, k, f, null, g, up, visited, out)
    ensures forall s <- pick :: s.Ref? && s in vals
    ensures vals.Keys == cfg.graph.Keys && out == Output(prefix, pick, Pre(f), TextsOf(cfg, vals))
    ensures Taken(cfg, user, vals, gone, SymsOf(Pre(f)), emitted)
  {
    hide Output, FullSet;
    assert Pre(g) + Pending(up) == [] && visited == Pre(f);
    FullInGraph(cfg, user, vals);
  }

  // conf_write_defconfig: writes the minimal file, one line for each of its symbols, in the
  // order in which the menus mention them first.
  method ConfWriteDefconfig(t: SymbolTable, prefix: string, root: Menu, ghost ms: set<Menu>, ghost f: seq<Tree>)
    returns (out: seq<string>)
    requires t.Shaped() && t.Ctx().Grounded() && t.busy == {} && t.rank.Some? && Walkable(t, root, ms, f)
    modifies t`valid, t`states, t`busy, t`emitted
    ensures t.Ok() && t.busy == {} && t.plain.Keys == t.cfg.graph.Keys
    ensures Taken(t.cfg, t.user, t.plain, {}, SymsOf(Pre(f)), t.emitted)
    ensures out == Output(prefix, MinimalSet(t.cfg, t.user, t.plain), Pre(f), TextsOf(t.cfg, t.plain))
  {
    hide Ranked, Above, Coherent, Minimal, MinimalSet, FullSet, Seg, Pre, Output, AtMenu, Pending, Calc, SymsOf,
         Writing, Taken, Context.Grounded, PrintSymbol, TextsOf, Roots, Nodes, SymbolTable.Ok;
    t.ClearAllValid();
    t.PlainKeys();
    ghost var pick := MinimalSet(t.cfg, t.user, t.plain);
    out := [];
    var menu := root.list;
    ghost var k, g, up := Snap(ms), f, [Open(root, [])];
    ghost var visited: seq<Menu> := [];
    MinimalIsFull(t.cfg, t.user, t.plain);
    WritingStart(t.cfg, t.user, t.plain, {}, prefix, pick, k, root, f);
    while menu != null
      invariant t.Ok() && t.busy == {}
      invariant Writing(t.cfg, t.user, t.plain, {}, t.emitted, prefix, pick, k, f, menu, g, up, visited, out)
      decreases |Pre(g) + Pending(up)|
    {
      ghost var m: Menu, g0, up0, e0 := menu, g, up, t.emitted;
      WritingHead(t.cfg, t.user, t.plain, {}, e0, prefix, pick, k, f, m, g, up, visited, out);
      var lines := [];
      if menu.sym.Some? {
        lines := DefconfigEntry(t, prefix, menu.sym.value, ms);
      }
      menu, g, up := Advance(menu, ms, g, up);
      WritingStep(t.cfg, t.user, t.plain, {}, e0, prefix, pick, k, f, m, g0, up0, visited, out,
                  menu, g, up, t.emitted, lines);
      out, visited := out + lines, visited + [m];
    }
    WritingEnd(t.cfg, t.user, t.plain, {}, t.emitted, prefix, pick, k, f, g, up, visited, out);
  }

  // conf_write: writes the full file; changed is what conf_get_changed returns.  If it is set,
  // symbols whose SYMBOL_WRITE an earlier writer has taken are missing.
  method ConfWrite(t: SymbolTable, changed: bool, prefix: string, root: Menu, ghost ms: set<Menu>, ghost f: seq<Tree>)
    returns (out: seq<string>)
    requires t.Shaped() && t.Ctx().Grounded() && t.busy == {} && t.rank.Some? && Walkable(t, root, ms, f)
    requires changed ==> t.Ok()
    modifies t`valid, t`states, t`busy, t`emitted
    ensures t.Ok() && t.busy == {} && t.plain.Keys == t.cfg.graph.Keys
    ensures Taken(t.cfg, t.user, t.plain, if changed then old(t.emitted) else {}, SymsOf(Pre(f)), t.emitted)
    ensures forall s <- FullSet(t.cfg, t.user, t.plain) :: s.Ref? && s in TextsOf(t.cfg, t.plain)
    ensures out == Output(prefix, FullSet(t.cfg, t.user, t.plain) - (if changed then old(t.emitted) else {}),
                          Pre(f), TextsOf(t.cfg, t.plain))
  {
    hide Ranked, Above, Coherent, FullSet, Seg, Pre, Output, AtMenu, Pending, Calc, SymsOf, Writing, Taken,
         Context.Grounded, PrintSymbol, TextsOf, Roots, Nodes, SymbolTable.Ok;
    if !changed {
      t.ClearAllValid();
    }
    t.PlainKeys();
    ghost var gone := t.emitted;
    ghost var pick := FullSet(t.cfg, t.user, t.plain) - gone;
    FullTexts(t.cfg, t.user, t.plain);
    out := [];
    var menu := root.list;
    ghost var k, g, up := Snap(ms), f, [Open(root, [])];
    ghost var visited: seq<Menu> := [];
    WritingStart(t.cfg, t.user, t.plain, gone, prefix, pick, k, root, f);
    while menu != null
      invariant t.Ok() && t.busy == {}
      invariant Writing(t.cfg, t.user, t.plain, gone, t.emitted, prefix, pick, k, f, menu, g, up, visited, out)
      decreases |Pre(g) + Pending(up)|
    {
      ghost var m: Menu, g0, up0, e0 := menu, g, up, t.emitted;
      WritingHead(t.cfg, t.user, t.plain, gone, e0, prefix, pick, k, f, m, g, up, visited, out);
      var lines := [];
      if menu.sym.Some? {
        lines := FullEntry(t, prefix, menu.sym.value, ms);
      }
      menu, g, up := Advance(menu, ms, g, up);
      WritingStep(t.cfg, t.user, t.plain, gone, e0, prefix, pick, k, f, m, g0, up0, visited, out,
                  menu, g, up, t.emitted, lines);
      out, visited := out + lines, visited + [m];
    }
    WritingEnd(t.cfg, t.user, t.plain, gone, t.emitted, prefix, pick, k, f, g, up, visited, out);
  }

  // Saving the minimal configuration and loading it again: all symbols have the values they
  // had, if and only if those that are written but cannot be changed have their defaults.
  method SaveAndLoad(t: SymbolTable, prefix: string, names: Names, root: Menu, ghost ms: set<Menu>, ghost f: seq<Tree>)
    requires t.Shaped() && t.Ctx().Grounded() && t.busy == {} && t.rank.Some? && Walkable(t, root, ms, f)
    requires WellListed(t.cfg, prefix, names, SymsOf(Pre(f))) && ValidUser(t.cfg, t.user)
    modifies t
    ensures t.Ok() && t.plain.Keys == t.cfg.graph.Keys == old(t.plain).Keys
    ensures t.plain == old(t.plain) <==> FixedAreDefault(t.cfg, old(t.user), old(t.plain))
    ensures BooleanGraph(t.cfg) ==> t.plain == old(t.plain)
  {
    hide Ranked, Above, Coherent, Minimal, MinimalSet, Seg, Pre, Calc, SymsOf, FixedIsDefault, WellListed, ValidUser,
         ReadLines;
    var out := ConfWriteDefconfig(t, prefix, root, ms, f);
    var user := ConfReadSimple(prefix, names, out);
    ghost var user0, vals := t.user, t.plain;
    assert Solution(t.cfg, user0, vals);
    t.Load(user);
    WellListedRefs(t.cfg, prefix, names, SymsOf(Pre(f)));
    MinimalIsFull(t.cfg, user0, vals);
    assert user == Reloaded(prefix, names, MinimalSet(t.cfg, user0, vals), SymsOf(Pre(f)), TextsOf(t.cfg, vals));
    MinimalIsLossless(t.cfg, t.rank.value, user0, vals, prefix, names, SymsOf(Pre(f)), t.plain);
    if BooleanGraph(t.cfg) {
      BooleanIsLossless(t.cfg, t.rank.value, user0, vals, prefix, names, SymsOf(Pre(f)), t.plain);
    }
  }

  lemma EmptyOrNot(list: seq<Sym>)
    ensures list == [] || exists s :: s in list
  {
    if list != [] { assert list[0] in list; }
  }

  lemma {:induction false} NothingWritten(prefix: string, pick: set<Sym>, ms: seq<Menu>, texts: Texts)
    requires forall s <- pick :: s.Ref? && s in texts && Some(s) !in SymsOf(ms)
    ensures Output(prefix, pick, ms, texts) == []
  {
    hide Listed, SymsOf;
    ListedOnce(pick, SymsOf(ms));
    EmptyOrNot(Listed(pick, SymsOf(ms)));
  }

  // conf_write_defconfig raises the change count, so a conf_write after it starts from the flags
  // it left: the full file holds no symbol.
  method SaveBoth(t: SymbolTable, prefix: string, root: Menu, ghost ms: set<Menu>, ghost f: seq<Tree>)
    returns (minimal: seq<string>, full: seq<string>)
    requires t.Shaped() && t.Ctx().Grounded() && t.busy == {} && t.rank.Some? && Walkable(t, root, ms, f)
    modifies t`valid, t`states, t`busy, t`emitted
    ensures full == []
  {
    hide Ranked, Above, Coherent, FullSet, Seg, Pre, SymsOf, Listed, TextsOf, Roots, Nodes;
    minimal := ConfWriteDefconfig(t, prefix, root, ms, f);
    ghost var gone := t.emitted;
    full := ConfWrite(t, true, prefix, root, ms, f);
    ghost var pick := FullSet(t.cfg, t.user, t.plain) - gone;
    NothingWritten(prefix, pick, Pre(f), TextsOf(t.cfg, t.plain));
  }
}
