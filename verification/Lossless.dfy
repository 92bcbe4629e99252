// What saving a configuration and loading it again preserves: the minimal file of
// conf_write_defconfig and the full file of conf_write (confdata.c).
module Lossless {
  import opened Wrappers
  import opened Expr
  import opened Symbols
  import opened Settings
  import opened ConfFile

  function TextsOf(cfg: Config, vals: Values): Texts
    requires vals.Keys == cfg.graph.Keys
  {
    map s | s in cfg.graph :: ValueText(s, vals[s], cfg.mods)
  }

  // What decides in conf_write_defconfig that a symbol is written.
  predicate Minimal(cfg: Config, user: User, vals: Values, s: Sym)
    requires s in cfg.graph && s in vals
  {
    var def, env := cfg.graph[s], EnvOf(cfg, vals);
    && Written(s, def, user, env)
    && Changeable(Final(s, def, user, env))
    && ValueText(s, vals[s], cfg.mods) != StringDefault(s, def, env)
  }

  function MinimalSet(cfg: Config, user: User, vals: Values): set<Sym>
    requires vals.Keys == cfg.graph.Keys
  {
    set s | s in cfg.graph && Minimal(cfg, user, vals, s)
  }

  // conf_write writes whatever has a value worth writing.
  function FullSet(cfg: Config, user: User, vals: Values): set<Sym> {
    set s | s in cfg.graph && Written(s, cfg.graph[s], user, EnvOf(cfg, vals))
  }

  // The user values after a file with the symbols of pick has been written and read.
  function Reloaded(prefix: string, names: Names, pick: set<Sym>, syms: seq<Option<Sym>>, texts: Texts): User
    requires forall s <- pick :: s.Ref? && s in texts
  {
    ListedOnce(pick, syms);
    ReadLines(prefix, names, Lines(prefix, Listed(pick, syms), texts))
  }

  // Every symbol with a prompt has a menu, and names lead back to symbols.
  ghost predicate WellListed(cfg: Config, prefix: string, names: Names, syms: seq<Option<Sym>>) {
    && (forall s <- cfg.graph :: Named(prefix, names, s))
    && (forall s <- cfg.graph, p <- cfg.graph[s].props | p.hasText :: Some(s) in syms)
  }

  // Text values the user entered are valid for their symbols and stay on one line.
  predicate ValidUser(cfg: Config, user: User) {
    forall s <- cfg.graph | s in user && IsText(s) :: StringValid(TypeOf(s), user[s].str) && '\n' !in user[s].str
  }

  // What a reloaded file of the symbols pick says about every symbol.
  ghost predicate Holding(cfg: Config, pick: set<Sym>, syms: seq<Option<Sym>>, texts: Texts, saved: User)
    requires cfg.graph.Keys <= texts.Keys
  {
    forall s <- cfg.graph ::
      && (s in saved <==> s in pick && Some(s) in syms && ReadBack(s, texts[s]).Some?)
      && (s in saved ==> saved[s] == ReadBack(s, texts[s]).value)
  }

  lemma WellListedRefs(cfg: Config, prefix: string, names: Names, syms: seq<Option<Sym>>)
    requires WellListed(cfg, prefix, names, syms)
    ensures forall s <- cfg.graph :: s.Ref?
  {
    assert forall s <- cfg.graph :: Named(prefix, names, s);
  }

  lemma ReloadedHolding(cfg: Config, prefix: string, names: Names, pick: set<Sym>, syms: seq<Option<Sym>>, texts: Texts)
    requires WellListed(cfg, prefix, names, syms) && pick <= cfg.graph.Keys <= texts.Keys
    requires forall s <- pick :: Printable(s, texts[s])
    ensures Holding(cfg, pick, syms, texts, Reloaded(prefix, names, pick, syms, texts))
  {
    hide Printable, ReadBack;
    ListedOnce(pick, syms);
    forall s <- pick
      ensures s.Ref?
    {
      assert Named(prefix, names, s);
    }
    WrittenFileIsRead(prefix, names, Listed(pick, syms), texts);
  }

  // ----- the value of one symbol, given the user values read back -----

  lemma {:induction false} NoPromptNotVisible(props: seq<Prop>, env: Env)
    requires forall p <- props :: !p.hasText
    ensures PromptsOr(props, env) == NO
  {
    if props != [] { NoPromptNotVisible(props[..|props| - 1], env); }
  }

  lemma NotListedNotVisible(cfg: Config, prefix: string, names: Names, syms: seq<Option<Sym>>, s: Sym, env: Env)
    requires WellListed(cfg, prefix, names, syms) && s in cfg.graph && Some(s) !in syms
    ensures Visible(s, cfg.graph[s], env) == NO
  {
    NoPromptNotVisible(cfg.graph[s].props, env);
  }

  // A symbol without user value has its default, a visible one with user value that value.
  lemma CalcByUser(s: Sym, def: SymDef, user1: User, user2: User, env: Env)
    requires Visible(s, def, env) == NO || (s !in user1 && s !in user2)
      || (s in user1 && s in user2 && user1[s] == user2[s])
    ensures Calc(s, def, user1, env) == Calc(s, def, user2, env)
  {
  }

  lemma NoUser(user: User, s: Sym)
    ensures s !in user - {s}
  {
  }

  // Equal texts of proper values mean equal values.
  lemma SameText(s: Sym, def: SymDef, user1: User, user2: User, env: Env)
    requires IsLogic(s) || IsText(s)
    requires ValueText(s, Calc(s, def, user1, env), env.mods) == ValueText(s, Calc(s, def, user2, env), env.mods)
    ensures Calc(s, def, user1, env) == Calc(s, def, user2, env)
  {
    hide Visible, DirDep, RevDep, Implied, DefaultTri, DefaultText, BaseTri;
    CalcGood(s, def, user1, env);
    CalcGood(s, def, user2, env);
  }

  // The value is the default, and no user value is read back.
  lemma DefaultStays(s: Sym, def: SymDef, user: User, saved: User, env: Env)
    requires s !in saved
    requires ValueText(s, Calc(s, def, user, env), env.mods) == StringDefault(s, def, env) || Visible(s, def, env) == NO
    ensures Calc(s, def, saved, env) == Calc(s, def, user, env)
  {
    hide Visible, DirDep, RevDep, Implied, DefaultLogic, DefaultText;
    NoUser(user, s);
    if Visible(s, def, env) == NO {
      CalcByUser(s, def, saved, user, env);
    } else if IsLogic(s) || IsText(s) {
      CalcByUser(s, def, saved, user - {s}, env);
      DefaultIsValueWithoutUser(s, def, user, env);
      SameText(s, def, user, user - {s}, env);
    }
  }

  // Conversely the value that remains is the default.
  lemma StaysOnlyDefault(s: Sym, def: SymDef, user: User, saved: User, env: Env)
    requires s !in saved && (IsLogic(s) || IsText(s))
    requires Calc(s, def, saved, env) == Calc(s, def, user, env)
    ensures ValueText(s, Calc(s, def, user, env), env.mods) == StringDefault(s, def, env)
  {
    hide Visible, DirDep, RevDep, Implied, DefaultLogic, DefaultText;
    NoUser(user, s);
    CalcByUser(s, def, saved, user - {s}, env);
    DefaultIsValueWithoutUser(s, def, user, env);
  }

  // A printed tristate is read back as the same tristate.
  lemma LogicReadBack(s: Sym, v: Value, mods: Tri)
    requires IsLogic(s) && GoodValue(s, v, mods)
    ensures Printable(s, ValueText(s, v, mods))
    ensures ReadBack(s, ValueText(s, v, mods)) == Some(Value(v.tri, ""))
  {
  }

  // A tristate read back as user value gives the same value exactly in these cases.
  lemma LogicStays(s: Sym, def: SymDef, user: User, saved: User, env: Env)
    requires IsLogic(s) && s in saved && saved[s].tri == LogicValue(s, def, user, env)
    ensures Calc(s, def, saved, env) == Calc(s, def, user, env)
      <==> var vis, rev, imp, v := Visible(s, def, env), RevDep(s, def, env), Implied(s, def, env), saved[s].tri;
           vis == NO || v <= vis || v == rev || imp == YES
  {
    hide Visible, DirDep, RevDep, Implied, DefaultTri;
    CalcByUser(s, def, saved, user[s := saved[s]], env);
    SettingSameValue(s, def, user, saved[s], env);
  }

  // A changeable symbol that differs from its default got its value from the user.
  lemma FromUser(s: Sym, def: SymDef, user: User, env: Env)
    requires IsLogic(s) || IsText(s)
    requires ValueText(s, Calc(s, def, user, env), env.mods) != StringDefault(s, def, env)
    ensures Visible(s, def, env) != NO && s in user
  {
    hide Visible, DirDep, RevDep, Implied, DefaultLogic, DefaultText;
    NoUser(user, s);
    DefaultIsValueWithoutUser(s, def, user, env);
    if Visible(s, def, env) == NO || s !in user { CalcByUser(s, def, user, user - {s}, env); }
  }

  // A user value is capped by the visibility; only imply lifts it above.
  lemma UserValueCapped(s: Sym, def: SymDef, user: User, env: Env)
    requires IsLogic(s) && s in user && Visible(s, def, env) > RevDep(s, def, env)
    ensures LogicValue(s, def, user, env) <= Visible(s, def, env) || Implied(s, def, env) == YES
  {
    hide DirDep, DefaultTri, PromptsOr;
    var vis, rev := Visible(s, def, env), RevDep(s, def, env);
    assert TypeOf(s).TBoolean? || env.mods == NO ==> vis != MOD && rev != MOD;
  }

  // ----- the minimal file -----

  // The condition: what the user cannot change has its default.
  ghost predicate FixedAreDefault(cfg: Config, user: User, vals: Values)
    requires vals.Keys == cfg.graph.Keys
  {
    forall s <- cfg.graph :: FixedIsDefault(cfg, user, vals, s)
  }

  predicate FixedIsDefault(cfg: Config, user: User, vals: Values, s: Sym)
    requires s in cfg.graph && s in vals
  {
    var def, env := cfg.graph[s], EnvOf(cfg, vals);
    Written(s, def, user, env) && !Changeable(Final(s, def, user, env)) ==>
      ValueText(s, vals[s], cfg.mods) == StringDefault(s, def, env)
  }

  lemma WrittenKinds(s: Sym, def: SymDef, user: User, env: Env)
    ensures Written(s, def, user, env) ==> IsLogic(s) || IsText(s)
    ensures (IsLogic(s) || IsText(s)) && Visible(s, def, env) != NO ==> Written(s, def, user, env)
  {
  }

  lemma MinimalReadBack(cfg: Config, user: User, vals: Values, s: Sym)
    requires Solution(cfg, user, vals) && ValidUser(cfg, user) && s in cfg.graph && Minimal(cfg, user, vals, s)
    ensures var text := ValueText(s, vals[s], cfg.mods);
      && Printable(s, text) && ReadBack(s, text).Some?
      && (IsLogic(s) ==> ReadBack(s, text).value.tri == vals[s].tri)
      && (IsText(s) ==> ReadBack(s, text).value.str == vals[s].str)
  {
    hide Visible, DirDep, RevDep, Implied, DefaultTri, DefaultText, DefaultLogic, StringValid, LogicValue;
    var def, env := cfg.graph[s], EnvOf(cfg, vals);
    WrittenKinds(s, def, user, env);
    CalcGood(s, def, user, env);
    if IsLogic(s) {
      LogicReadBack(s, vals[s], cfg.mods);
    } else {
      FromUser(s, def, user, env);
      assert vals[s].str == user[s].str;
      if TypeOf(s).TInt? || TypeOf(s).THex? { ValidIsPlain(TypeOf(s), user[s].str); }
    }
  }

  // Reading back the minimal file leaves the rule of every symbol with the value it had, up to
  // the fixed symbols.
  lemma MinimalStays(cfg: Config, user: User, vals: Values, prefix: string, names: Names, syms: seq<Option<Sym>>,
                     saved: User, s: Sym)
    requires Solution(cfg, user, vals) && ValidUser(cfg, user) && WellListed(cfg, prefix, names, syms)
    requires Holding(cfg, MinimalSet(cfg, user, vals), syms, TextsOf(cfg, vals), saved) && s in cfg.graph
    ensures Calc(s, cfg.graph[s], saved, EnvOf(cfg, vals)) == vals[s] <==> FixedIsDefault(cfg, user, vals, s)
  {
    hide Visible, DirDep, RevDep, Implied, DefaultTri, DefaultText, StringDefault, Written, Calc, WellListed, ValidUser,
         ReadBack, ValueText, Holding;
    var def, env := cfg.graph[s], EnvOf(cfg, vals);
    WrittenKinds(s, def, user, env);
    HoldingAt(cfg, user, vals, syms, saved, s);
    if s in saved {
      MinimalReadBack(cfg, user, vals, s);
      MinimalChosen(cfg, user, vals, saved, s);
    } else {
      if Minimal(cfg, user, vals, s) {
        MinimalReadBack(cfg, user, vals, s);
        NotListedNotVisible(cfg, prefix, names, syms, s, env);
      } else if IsLogic(s) || IsText(s) {
        if Calc(s, def, saved, env) == Calc(s, def, user, env) { StaysOnlyDefault(s, def, user, saved, env); }
      } else {
        CalcOfOther(s, def, user, saved, env);
      }
      if ValueText(s, vals[s], cfg.mods) == StringDefault(s, def, env) || Visible(s, def, env) == NO {
        DefaultStays(s, def, user, saved, env);
      }
      if Visible(s, def, env) == NO && (IsLogic(s) || IsText(s)) { StaysOnlyDefault(s, def, user, saved, env); }
    }
  }

  lemma HoldingAt(cfg: Config, user: User, vals: Values, syms: seq<Option<Sym>>, saved: User, s: Sym)
    requires vals.Keys == cfg.graph.Keys && s in cfg.graph
    requires Holding(cfg, MinimalSet(cfg, user, vals), syms, TextsOf(cfg, vals), saved)
    ensures var back := ReadBack(s, ValueText(s, vals[s], cfg.mods));
      && (s in saved <==> Minimal(cfg, user, vals, s) && Some(s) in syms && back.Some?)
      && (s in saved ==> saved[s] == back.value)
  {
    hide ReadBack, ValueText, Minimal;
  }

  lemma CalcOfOther(s: Sym, def: SymDef, user1: User, user2: User, env: Env)
    requires !IsLogic(s) && !IsText(s)
    ensures Calc(s, def, user1, env) == Calc(s, def, user2, env)
  {
  }

  lemma MinimalChosen(cfg: Config, user: User, vals: Values, saved: User, s: Sym)
    requires Solution(cfg, user, vals) && s in cfg.graph && s in saved && Minimal(cfg, user, vals, s)
    requires IsLogic(s) ==> saved[s].tri == vals[s].tri
    requires IsText(s) ==> saved[s].str == vals[s].str
    ensures Calc(s, cfg.graph[s], saved, EnvOf(cfg, vals)) == vals[s]
  {
    hide DirDep, RevDep, Implied, DefaultTri, DefaultText, StringDefault, Visible, LogicValue;
    var def, env := cfg.graph[s], EnvOf(cfg, vals);
    WrittenKinds(s, def, user, env);
    FromUser(s, def, user, env);
    if IsLogic(s) {
      UserValueCapped(s, def, user, env);
      LogicStays(s, def, user, saved, env);
    }
  }

  // Without a user value, a symbol of the minimal file loses its value.
  lemma NoneToSpare(cfg: Config, user: User, vals: Values, saved: User, s: Sym)
    requires Solution(cfg, user, vals) && s in cfg.graph && Minimal(cfg, user, vals, s)
    ensures Calc(s, cfg.graph[s], saved - {s}, EnvOf(cfg, vals)) != vals[s]
  {
    hide Visible, DirDep, RevDep, Implied, DefaultTri, DefaultText, StringDefault, LogicValue;
    WrittenKinds(s, cfg.graph[s], user, EnvOf(cfg, vals));
    DefaultIsValueWithoutUser(s, cfg.graph[s], saved, EnvOf(cfg, vals));
  }

  // The minimal file is the least one: whatever file restores the values sets every symbol that the
  // minimal file sets.
  lemma MinimalIsLeast(cfg: Config, user: User, vals: Values, prefix: string, names: Names, lines: seq<string>)
    requires Solution(cfg, user, vals) && Solution(cfg, ReadLines(prefix, names, lines), vals)
    ensures MinimalSet(cfg, user, vals) <= ReadLines(prefix, names, lines).Keys
  {
    hide Minimal, Calc, ReadLines;
    var saved := ReadLines(prefix, names, lines);
    forall s <- MinimalSet(cfg, user, vals)
      ensures s in saved
    {
      NoneToSpare(cfg, user, vals, saved, s);
      WithoutNothing(saved, s);
    }
  }

  lemma WithoutNothing(user: User, s: Sym)
    ensures s !in user ==> user - {s} == user
  {
  }

  // The minimal file is lossless if and only if every symbol that is written but that the user
  // cannot change has its default value.
  lemma MinimalIsLossless(cfg: Config, rank: Rank, user: User, vals: Values, prefix: string, names: Names,
                          syms: seq<Option<Sym>>, after: Values)
    requires Ranked(cfg, rank) && Solution(cfg, user, vals) && ValidUser(cfg, user)
    requires WellListed(cfg, prefix, names, syms)
    requires Solution(cfg, Reloaded(prefix, names, MinimalSet(cfg, user, vals), syms, TextsOf(cfg, vals)), after)
    ensures after == vals <==> FixedAreDefault(cfg, user, vals)
  {
    hide Calc, Ranked, FixedIsDefault, Minimal, ValidUser, WellListed, Holding, ValueText, Printable;
    var pick, texts := MinimalSet(cfg, user, vals), TextsOf(cfg, vals);
    forall s <- pick
      ensures Printable(s, texts[s])
    {
      MinimalReadBack(cfg, user, vals, s);
    }
    ReloadedHolding(cfg, prefix, names, pick, syms, texts);
    WellListedRefs(cfg, prefix, names, syms);
    var saved := Reloaded(prefix, names, pick, syms, texts);
    forall s <- cfg.graph
      ensures Calc(s, cfg.graph[s], saved, EnvOf(cfg, vals)) == vals[s] <==> FixedIsDefault(cfg, user, vals, s)
    {
      MinimalStays(cfg, user, vals, prefix, names, syms, saved, s);
    }
    if FixedAreDefault(cfg, user, vals) {
      assert Solution(cfg, saved, vals);
      SolutionUnique(cfg, saved, vals, rank);
      SolutionUnique(cfg, saved, after, rank);
    }
  }

  // Symbols that are effectively boolean, and no select of a symbol with text.
  ghost predicate BooleanGraph(cfg: Config) {
    forall s <- cfg.graph ::
      && (IsLogic(s) ==> EffectiveType(s, cfg.mods).TBoolean?)
      && (IsText(s) ==> cfg.graph[s].revDep == None)
  }

  lemma BooleanFixed(cfg: Config, user: User, vals: Values, s: Sym)
    requires BooleanGraph(cfg) && Solution(cfg, user, vals) && s in cfg.graph
    ensures FixedIsDefault(cfg, user, vals, s)
  {
    hide DirDep, DefaultTri, DefaultText, PromptsOr;
    var def, env := cfg.graph[s], EnvOf(cfg, vals);
    WrittenKinds(s, def, user, env);
    if IsLogic(s) || IsText(s) {
      DefaultIsValueWithoutUser(s, def, user, env);
      NoUser(user, s);
      if Visible(s, def, env) == NO { CalcByUser(s, def, user, user - {s}, env); }
    }
  }

  // For boolean symbols, as in Buildroot, the minimal file is always lossless.
  lemma BooleanIsLossless(cfg: Config, rank: Rank, user: User, vals: Values, prefix: string, names: Names,
                          syms: seq<Option<Sym>>, after: Values)
    requires Ranked(cfg, rank) && Solution(cfg, user, vals) && ValidUser(cfg, user)
    requires WellListed(cfg, prefix, names, syms)
    requires BooleanGraph(cfg)
    requires Solution(cfg, Reloaded(prefix, names, MinimalSet(cfg, user, vals), syms, TextsOf(cfg, vals)), after)
    ensures after == vals
  {
    hide Ranked, FixedIsDefault, ValidUser, WellListed, BooleanGraph, Calc;
    forall s <- cfg.graph
      ensures FixedIsDefault(cfg, user, vals, s)
    {
      BooleanFixed(cfg, user, vals, s);
    }
    MinimalIsLossless(cfg, rank, user, vals, prefix, names, syms, after);
  }

  // After reading a file, conf_read drops the user values of invisible symbols, without
  // calculating anything again: all values stay what they are.
  lemma DroppingInvisible(cfg: Config, rank: Rank, user: User, vals: Values, dropped: set<Sym>, after: Values)
    requires Ranked(cfg, rank) && Solution(cfg, user, vals) && Solution(cfg, user - dropped, after)
    requires forall s <- dropped | s in cfg.graph :: Visible(s, cfg.graph[s], EnvOf(cfg, vals)) == NO
    ensures after == vals
  {
    hide Ranked, Calc, Visible;
    forall s <- cfg.graph
      ensures Calc(s, cfg.graph[s], user - dropped, EnvOf(cfg, vals)) == Calc(s, cfg.graph[s], user, EnvOf(cfg, vals))
    {
      CalcByUser(s, cfg.graph[s], user - dropped, user, EnvOf(cfg, vals));
    }
    SolutionUnique(cfg, user - dropped, vals, rank);
    SolutionUnique(cfg, user - dropped, after, rank);
  }

  // ----- the full file -----

  // A visible symbol keeps the value written for it exactly if that is within its visibility,
  // or what select or imply force.
  predicate KeepsWritten(cfg: Config, vals: Values, s: Sym)
    requires s in cfg.graph && s in vals
  {
    var def, env, v := cfg.graph[s], EnvOf(cfg, vals), vals[s].tri;
    IsLogic(s) ==>
      || Visible(s, def, env) == NO || v <= Visible(s, def, env)
      || v == RevDep(s, def, env) || Implied(s, def, env) == YES
  }

  // Text values stay on one line.
  predicate OneLine(cfg: Config, vals: Values)
    requires vals.Keys == cfg.graph.Keys
  {
    forall s <- cfg.graph | IsText(s) :: Printable(s, vals[s].str)
  }

  lemma FullStays(cfg: Config, user: User, vals: Values, prefix: string, names: Names, syms: seq<Option<Sym>>,
                  saved: User, s: Sym)
    requires Solution(cfg, user, vals) && ValidUser(cfg, user) && WellListed(cfg, prefix, names, syms)
    requires Holding(cfg, FullSet(cfg, user, vals), syms, TextsOf(cfg, vals), saved) && s in cfg.graph
    ensures Calc(s, cfg.graph[s], saved, EnvOf(cfg, vals)) == vals[s] <==> KeepsWritten(cfg, vals, s)
  {
    hide Visible, DirDep, RevDep, Implied, DefaultTri, DefaultText, Written, WellListed, LogicValue, StringValid;
    var def, env := cfg.graph[s], EnvOf(cfg, vals);
    WrittenKinds(s, def, user, env);
    if Visible(s, def, env) == NO {
      CalcByUser(s, def, saved, user, env);
    } else if Some(s) !in syms {
      NotListedNotVisible(cfg, prefix, names, syms, s, env);
      assert false;
    } else if IsLogic(s) {
      CalcGood(s, def, user, env);
      LogicReadBack(s, vals[s], cfg.mods);
      LogicStays(s, def, user, saved, env);
    } else if IsText(s) {
      assert s in saved ==> saved[s].str == vals[s].str;
      assert s in user ==> vals[s].str == user[s].str;
    }
  }

  // Reading back the full file is lossless if and only if that holds of every symbol.
  lemma FullIsLossless(cfg: Config, rank: Rank, user: User, vals: Values, prefix: string, names: Names,
                       syms: seq<Option<Sym>>, after: Values)
    requires Ranked(cfg, rank) && Solution(cfg, user, vals) && ValidUser(cfg, user)
    requires WellListed(cfg, prefix, names, syms)
    requires OneLine(cfg, vals)
    requires Solution(cfg, Reloaded(prefix, names, FullSet(cfg, user, vals), syms, TextsOf(cfg, vals)), after)
    ensures after == vals <==> forall s <- cfg.graph :: KeepsWritten(cfg, vals, s)
  {
    hide Calc, Ranked, KeepsWritten, ValidUser, WellListed, Holding, ValueText, Printable, Written;
    var pick, texts := FullSet(cfg, user, vals), TextsOf(cfg, vals);
    forall s <- pick
      ensures Printable(s, texts[s])
    {
      FullPrintable(cfg, user, vals, s);
    }
    ReloadedHolding(cfg, prefix, names, pick, syms, texts);
    WellListedRefs(cfg, prefix, names, syms);
    var saved := Reloaded(prefix, names, pick, syms, texts);
    forall s <- cfg.graph
      ensures Calc(s, cfg.graph[s], saved, EnvOf(cfg, vals)) == vals[s] <==> KeepsWritten(cfg, vals, s)
    {
      FullStays(cfg, user, vals, prefix, names, syms, saved, s);
    }
    if forall s <- cfg.graph :: KeepsWritten(cfg, vals, s) {
      assert Solution(cfg, saved, vals);
      SolutionUnique(cfg, saved, vals, rank);
      SolutionUnique(cfg, saved, after, rank);
    }
  }

  lemma FullPrintable(cfg: Config, user: User, vals: Values, s: Sym)
    requires Solution(cfg, user, vals) && OneLine(cfg, vals) && s in cfg.graph
    requires Written(s, cfg.graph[s], user, EnvOf(cfg, vals))
    ensures Printable(s, ValueText(s, vals[s], cfg.mods))
  {
    hide Written, Calc;
    WrittenKinds(s, cfg.graph[s], user, EnvOf(cfg, vals));
    CalcGood(s, cfg.graph[s], user, EnvOf(cfg, vals));
    if IsLogic(s) { LogicReadBack(s, vals[s], cfg.mods); }
  }

  // ----- the corner where the minimal file loses a value -----

  const M := Ref("M", TTristate)
  const A := Ref("A", TTristate)

  // A is visible only up to m and selected by M; its default is y.
  function CornerGraph(): map<Sym, SymDef> {
    map[M := SymDef([Prop(PPrompt, true, None, None)], None, None, None),
        A := SymDef([Prop(PPrompt, true, Some(Leaf(M)), None), Prop(PDefault, false, None, Some(Leaf(SymYes)))],
                    None, Some(Leaf(M)), None)]
  }

  // With M = m and A = n chosen by the user, A is m; the file only holds M, and A comes back
  // as y.
  lemma TristateLosesValue(strto: (string, int) -> Option<int>)
    ensures var cfg := Config(CornerGraph(), YES, strto);
      var user: User := map[M := Value(MOD, ""), A := Value(NO, "")];
      var vals: Values := map[M := Value(MOD, "n"), A := Value(MOD, "n")];
      var after: Values := map[M := Value(MOD, "n"), A := Value(YES, "n")];
      && Ranked(cfg, map[M := 0, A := 1]) && Solution(cfg, user, vals)
      && MinimalSet(cfg, user, vals) == {M}
      && Solution(cfg, map[M := Value(MOD, "")], after) && after != vals
  {
    hide Visible, DirDep, RevDep, Implied, DefaultTri, FirstDefault, PromptsOr, Reads, Eval;
    var cfg := Config(CornerGraph(), YES, strto);
    var vals: Values := map[M := Value(MOD, "n"), A := Value(MOD, "n")];
    var after: Values := map[M := Value(MOD, "n"), A := Value(YES, "n")];
    CornerParts(EnvOf(cfg, vals));
    CornerParts(EnvOf(cfg, after));
    assert cfg.graph.Keys == {M, A};
  }

  lemma CornerParts(env: Env)
    requires env.mods == YES && M in env.vals && env.vals[M].tri == MOD
    ensures var m, a := CornerGraph()[M], CornerGraph()[A];
      && Visible(M, m, env) == YES && RevDep(M, m, env) == NO && Implied(M, m, env) == NO && DefaultTri(m, env) == NO
      && Visible(A, a, env) == MOD && RevDep(A, a, env) == MOD && Implied(A, a, env) == NO && DefaultTri(a, env) == YES
    ensures Reads(CornerGraph()[M]) == {} && Reads(CornerGraph()[A]) == {M, SymYes}
  {
    var m, a := CornerGraph()[M].props, CornerGraph()[A].props;
    PromptsOrStep(m, 0, env);
    PromptsOrStep(a, 0, env);
    PromptsOrStep(a, 1, env);
    assert m[..1] == m && a[..2] == a && a[1..] == [a[1]] && m[1..] == [] && a[..0] == [] && m[..0] == [];
    assert FirstDefault(m[1..], env) == None && FirstDefault(a[1..], env) == Some(a[1]);
    assert PropsReads(m[1..]) == {} && PropsReads([a[1]][1..]) == {};
    assert PropsReads(a[1..]) == PropReads(a[1]) == {SymYes};
  }

  // ----- where the full file loses a value -----

  // A is visible only up to m; its default is y, and nobody selects it.
  function DefaultGraph(): map<Sym, SymDef> {
    map[M := SymDef([Prop(PPrompt, true, None, None)], None, None, None),
        A := SymDef([Prop(PPrompt, true, Some(Leaf(M)), None), Prop(PDefault, false, None, Some(Leaf(SymYes)))],
                    None, None, None)]
  }

  // With M = m chosen by the user, A is y by default; both are written, and A comes back as m.
  lemma FullLosesValue(strto: (string, int) -> Option<int>)
    ensures var cfg := Config(DefaultGraph(), YES, strto);
      var user: User := map[M := Value(MOD, "")];
      var vals: Values := map[M := Value(MOD, "n"), A := Value(YES, "n")];
      var after: Values := map[M := Value(MOD, "n"), A := Value(MOD, "n")];
      && Ranked(cfg, map[M := 0, A := 1]) && Solution(cfg, user, vals)
      && FullSet(cfg, user, vals) == {M, A} && !KeepsWritten(cfg, vals, A)
      && TextsOf(cfg, vals) == map[M := "m", A := "y"]
      && ReadBack(M, "m") == Some(Value(MOD, "")) && ReadBack(A, "y") == Some(Value(YES, ""))
      && Solution(cfg, map[M := Value(MOD, ""), A := Value(YES, "")], after) && after != vals
  {
    hide Visible, DirDep, RevDep, Implied, DefaultTri, FirstDefault, PromptsOr, Reads, Eval;
    var cfg := Config(DefaultGraph(), YES, strto);
    var vals: Values := map[M := Value(MOD, "n"), A := Value(YES, "n")];
    var after: Values := map[M := Value(MOD, "n"), A := Value(MOD, "n")];
    DefaultParts(EnvOf(cfg, vals));
    DefaultParts(EnvOf(cfg, after));
    assert cfg.graph.Keys == {M, A};
  }

  lemma DefaultParts(env: Env)
    requires env.mods == YES && M in env.vals && env.vals[M].tri == MOD
    ensures var m, a := DefaultGraph()[M], DefaultGraph()[A];
      && Visible(M, m, env) == YES && RevDep(M, m, env) == NO && Implied(M, m, env) == NO && DefaultTri(m, env) == NO
      && Visible(A, a, env) == MOD && RevDep(A, a, env) == NO && Implied(A, a, env) == NO && DefaultTri(a, env) == YES
    ensures Reads(DefaultGraph()[M]) == {} && Reads(DefaultGraph()[A]) == {M, SymYes}
  {
    CornerParts(env);
    assert DefaultGraph()[A] == CornerGraph()[A].(revDep := None);
  }
}
