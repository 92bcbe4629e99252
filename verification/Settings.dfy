// Setting a symbol and asking for its default (sym_tristate_within_range,
// sym_set_tristate_value and sym_get_string_default in symbol.c), on the plain definition.
module Settings {
  import opened Wrappers
  import opened Expr
  import opened Symbols

  // sym_tristate_within_range of a symbol outside choices, given what has been calculated for
  // it.
  predicate WithinRange(s: Sym, mods: Tri, st: SymState, val: Tri) {
    var typ := EffectiveType(s, mods);
    && st.visible != NO
    && (typ.TBoolean? || typ.TTristate?)
    && !(typ.TBoolean? && val == MOD)
    && st.visible > st.revDep
    && !(st.implied == YES && val == MOD)
    && st.revDep <= val <= st.visible
  }

  // sym_is_changable
  predicate Changeable(st: SymState) { st.visible > st.revDep }

  // sym_get_string_default, the tristate part: select is applied before, imply after the
  // promotion from m to y.
  function DefaultLogic(s: Sym, def: SymDef, env: Env): Tri {
    var a := Max(DefaultTri(def, env), RevDep(s, def, env));
    var b := if a == MOD && env.mods == NO then YES else a;
    var c := if TypeOf(s).TBoolean? && b == MOD then YES else b;
    Max(c, Implied(s, def, env))
  }

  function StringDefault(s: Sym, def: SymDef, env: Env): string {
    if IsLogic(s) then TriText(DefaultLogic(s, def, env), YES)
    else if IsText(s) then DefaultText(def, env)
    else ""
  }

  // sym_get_string_value of a calculated value
  function ValueText(s: Sym, v: Value, mods: Tri): string {
    if IsLogic(s) then TriText(v.tri, mods) else v.str
  }

  // The default reported for a symbol is the value the calculator produces when the user value
  // is dropped.
  lemma DefaultIsValueWithoutUser(s: Sym, def: SymDef, user: User, env: Env)
    requires IsLogic(s) || IsText(s)
    ensures StringDefault(s, def, env) == ValueText(s, Calc(s, def, user - {s}, env), env.mods)
  {
    if IsLogic(s) {
      DefaultLogicAgrees(s, def, user, env);
      assert GoodValue(s, Calc(s, def, user - {s}, env), env.mods);
    }
  }

  lemma DefaultLogicAgrees(s: Sym, def: SymDef, user: User, env: Env)
    requires IsLogic(s)
    ensures DefaultLogic(s, def, env) == LogicValue(s, def, user - {s}, env)
  {
    hide DefaultTri, Visible, DirDep, PromptsOr;
  }

  // ----- setting a value -----

  // t is s or is calculated, directly or through other symbols, from s.
  ghost predicate DependsOn(cfg: Config, rank: Rank, t: Sym, s: Sym)
    requires Ranked(cfg, rank) && t in cfg.graph
    decreases rank[t]
  {
    t == s || exists r <- Reads(cfg.graph[t]) :: r in cfg.graph && rank[r] < rank[t] && DependsOn(cfg, rank, r, s)
  }

  // Only symbols that depend on s notice a change of its user value.
  lemma {:induction false} OthersKeepValue(cfg: Config, rank: Rank, user1: User, user2: User, vals1: Values,
                                           vals2: Values, s: Sym, t: Sym)
    requires Ranked(cfg, rank) && t in cfg.graph
    requires Solution(cfg, user1, vals1) && Solution(cfg, user2, vals2)
    requires user1 - {s} == user2 - {s}
    requires !DependsOn(cfg, rank, t, s)
    ensures vals1[t] == vals2[t]
    decreases rank[t]
  {
    InputsKeepValue(cfg, rank, user1, user2, vals1, vals2, s, t);
    CalcAgree(t, cfg.graph[t], user1, EnvOf(cfg, vals1), EnvOf(cfg, vals2));
    SameUser(t, cfg.graph[t], user1, user2, s, EnvOf(cfg, vals2));
  }

  lemma SameUser(t: Sym, def: SymDef, user1: User, user2: User, s: Sym, env: Env)
    requires user1 - {s} == user2 - {s} && t != s
    ensures Calc(t, def, user1, env) == Calc(t, def, user2, env)
  {
    assert t in user1 <==> t in user1 - {s};
    assert t in user2 <==> t in user2 - {s};
    assert t in user1 ==> user1[t] == (user1 - {s})[t] == (user2 - {s})[t];
  }

  // What s itself is calculated from does not depend on s, and neither does what any symbol
  // independent of s is calculated from.
  lemma {:induction false} InputsKeepValue(cfg: Config, rank: Rank, user1: User, user2: User, vals1: Values,
                                           vals2: Values, s: Sym, t: Sym)
    requires Ranked(cfg, rank) && t in cfg.graph
    requires Solution(cfg, user1, vals1) && Solution(cfg, user2, vals2)
    requires user1 - {s} == user2 - {s}
    requires t == s || !DependsOn(cfg, rank, t, s)
    ensures Agree(EnvOf(cfg, vals1), EnvOf(cfg, vals2), Reads(cfg.graph[t]))
    decreases rank[t], 0
  {
    forall r <- Reads(cfg.graph[t])
      ensures ValueOf(EnvOf(cfg, vals1), r) == ValueOf(EnvOf(cfg, vals2), r)
    {
      if r in cfg.graph {
        if t == s { DependsRanksAbove(cfg, rank, r, s); }
        OthersKeepValue(cfg, rank, user1, user2, vals1, vals2, s, r);
      }
    }
  }

  lemma {:induction false} DependsRanksAbove(cfg: Config, rank: Rank, t: Sym, s: Sym)
    requires Ranked(cfg, rank) && t in cfg.graph && s in cfg.graph
    ensures DependsOn(cfg, rank, t, s) ==> rank[t] >= rank[s]
    decreases rank[t]
  {
    if DependsOn(cfg, rank, t, s) && t != s {
      var r :| r in Reads(cfg.graph[t]) && r in cfg.graph && rank[r] < rank[t] && DependsOn(cfg, rank, r, s);
      DependsRanksAbove(cfg, rank, r, s);
    }
  }

  // The default reported for a symbol, as things stand, is the value the calculator produces for
  // the whole graph once the user value is dropped.
  lemma DefaultIsValueAfterDropping(cfg: Config, rank: Rank, user: User, vals: Values, s: Sym, after: Values)
    requires Ranked(cfg, rank) && s in cfg.graph && (IsLogic(s) || IsText(s))
    requires Solution(cfg, user, vals) && Solution(cfg, user - {s}, after)
    ensures StringDefault(s, cfg.graph[s], EnvOf(cfg, vals)) == ValueText(s, after[s], cfg.mods)
  {
    hide Ranked, Calc, StringDefault, ValueText;
    assert user - {s} == (user - {s}) - {s};
    InputsKeepValue(cfg, rank, user, user - {s}, vals, after, s, s);
    CalcAgree(s, cfg.graph[s], user - {s}, EnvOf(cfg, vals), EnvOf(cfg, after));
    DefaultIsValueWithoutUser(s, cfg.graph[s], user, EnvOf(cfg, vals));
  }

  // The user may change s, and the value v would be the one s gets.
  predicate Obeyed(s: Sym, def: SymDef, user: User, v: Value, env: Env) {
    && Visible(s, def, env) > RevDep(s, def, env) && v.tri <= Visible(s, def, env)
    && LogicValue(s, def, user[s := v], env) == v.tri
  }

  // These are the values within range, no fewer and no more.
  lemma InRangeExactly(s: Sym, def: SymDef, user: User, v: Value, env: Env)
    ensures WithinRange(s, env.mods, Final(s, def, user, env), v.tri) <==> IsLogic(s) && Obeyed(s, def, user, v, env)
  {
    hide PromptsOr, DirDep, DefaultTri, Written;
  }

  // A bool or tristate is changeable if and only if some value is within range.
  lemma ChangeableExactly(s: Sym, def: SymDef, user: User, env: Env)
    requires IsLogic(s)
    ensures Changeable(Final(s, def, user, env))
      <==> exists v: Tri :: WithinRange(s, env.mods, Final(s, def, user, env), v)
  {
    hide PromptsOr, DirDep, DefaultTri, Written, LogicValue;
    var st := Final(s, def, user, env);
    if Changeable(st) {
      // where an imply makes y of m, m cannot be set, but n can
      var v: Tri := if st.visible == MOD && st.implied == YES then NO else st.visible;
      assert WithinRange(s, env.mods, st, v);
    }
  }

  // An accepted setting takes effect: a value within range becomes the value of the symbol, and
  // symbols that do not depend on it keep theirs.
  lemma {:induction false} SettingTakesEffect(cfg: Config, rank: Rank, user: User, vals: Values, s: Sym, v: Value,
                                              after: Values)
    requires Ranked(cfg, rank) && s in cfg.graph
    requires Solution(cfg, user, vals) && Solution(cfg, user[s := v], after)
    requires WithinRange(s, cfg.mods, Final(s, cfg.graph[s], user, EnvOf(cfg, vals)), v.tri)
    ensures after[s].tri == v.tri
    ensures forall t <- cfg.graph :: !DependsOn(cfg, rank, t, s) ==> after[t] == vals[t]
  {
    hide Solution, Ranked, WithinRange, Final, Reads;
    UserUpdate(user, s, v);
    SetValueOf(cfg, rank, user, vals, s, v, after);
    OthersKeepValues(cfg, rank, user, user[s := v], vals, after, s);
  }

  lemma UserUpdate(user: User, s: Sym, v: Value)
    ensures user - {s} == user[s := v] - {s}
  {
  }

  lemma {:induction false} OthersKeepValues(cfg: Config, rank: Rank, user1: User, user2: User, vals1: Values,
                                            vals2: Values, s: Sym)
    requires Ranked(cfg, rank)
    requires Solution(cfg, user1, vals1) && Solution(cfg, user2, vals2)
    requires user1 - {s} == user2 - {s}
    ensures forall t <- cfg.graph :: !DependsOn(cfg, rank, t, s) ==> vals1[t] == vals2[t]
  {
    hide DependsOn, Reads, Calc;
    forall t <- cfg.graph | !DependsOn(cfg, rank, t, s)
      ensures vals1[t] == vals2[t]
    {
      OthersKeepValue(cfg, rank, user1, user2, vals1, vals2, s, t);
    }
  }

  lemma SetValueOf(cfg: Config, rank: Rank, user: User, vals: Values, s: Sym, v: Value, after: Values)
    requires Ranked(cfg, rank) && s in cfg.graph
    requires Solution(cfg, user, vals) && Solution(cfg, user[s := v], after)
    requires WithinRange(s, cfg.mods, Final(s, cfg.graph[s], user, EnvOf(cfg, vals)), v.tri)
    ensures after[s].tri == v.tri
  {
    hide DependsOn, Ranked, Final, Calc;
    var def := cfg.graph[s];
    assert user - {s} == user[s := v] - {s};
    InputsKeepValue(cfg, rank, user, user[s := v], vals, after, s, s);
    CalcAgree(s, def, user[s := v], EnvOf(cfg, vals), EnvOf(cfg, after));
    InRangeValue(s, def, user, v, EnvOf(cfg, vals));
  }

  lemma InRangeValue(s: Sym, def: SymDef, user: User, v: Value, env: Env)
    requires WithinRange(s, env.mods, Final(s, def, user, env), v.tri)
    ensures Calc(s, def, user[s := v], env).tri == v.tri
  {
    hide Visible, DirDep, Implied, RevDep, DefaultTri, Written;
  }

  // Setting a symbol to the value it already has is accepted without a range check.  The value
  // survives the next calculation exactly if the symbol is invisible, or the value does not
  // exceed its visibility, or it is what select or imply force anyway.
  lemma SettingSameValue(s: Sym, def: SymDef, user: User, v: Value, env: Env)
    requires IsLogic(s) && v.tri == LogicValue(s, def, user, env)
    ensures LogicValue(s, def, user[s := v], env) == v.tri
      <==> var vis, rev, imp := Visible(s, def, env), RevDep(s, def, env), Implied(s, def, env);
           vis == NO || v.tri <= vis || v.tri == rev || imp == YES
  {
    hide DirDep, DefaultTri, PromptsOr;
    var vis, rev, imp := Visible(s, def, env), RevDep(s, def, env), Implied(s, def, env);
    assert TypeOf(s).TBoolean? || env.mods == NO ==> vis != MOD && rev != MOD && imp != MOD;
  }

  // A user value that does not change the value of its own symbol changes nothing.
  lemma HarmlessUserValue(cfg: Config, user: User, vals: Values, s: Sym, v: Value)
    requires Solution(cfg, user, vals) && s in cfg.graph
    requires Calc(s, cfg.graph[s], user[s := v], EnvOf(cfg, vals)) == vals[s]
    ensures Solution(cfg, user[s := v], vals)
    ensures forall t <- cfg.graph ::
      Final(t, cfg.graph[t], user[s := v], EnvOf(cfg, vals)) == Final(t, cfg.graph[t], user, EnvOf(cfg, vals))
  {
    hide Visible, DirDep, RevDep, Implied, Calc, Written;
    UserUpdate(user, s, v);
    forall t <- cfg.graph
      ensures Calc(t, cfg.graph[t], user[s := v], EnvOf(cfg, vals)) == vals[t]
      ensures Final(t, cfg.graph[t], user[s := v], EnvOf(cfg, vals)) == Final(t, cfg.graph[t], user, EnvOf(cfg, vals))
    {
      if t != s { SameUser(t, cfg.graph[t], user, user[s := v], s, EnvOf(cfg, vals)); }
      WrittenIgnoresUser(t, cfg.graph[t], user, user[s := v], EnvOf(cfg, vals));
    }
  }

  lemma WrittenIgnoresUser(s: Sym, def: SymDef, user1: User, user2: User, env: Env)
    ensures Written(s, def, user1, env) == Written(s, def, user2, env)
  {
  }

  // ----- MODULES -----

  // A change of modules_val reaches symbols that mention MODULES nowhere: a tristate whose default
  // is m becomes y without modules.
  lemma ModulesReachesOthers(s: Sym, user: User, env1: Env, env2: Env)
    requires TypeOf(s).TTristate? && env1.mods != NO && env2.mods == NO
    ensures var def := SymDef([Prop(PDefault, false, None, Some(Leaf(SymMod)))], None, None, None);
      && Reads(def) == {SymMod}
      && LogicValue(s, def, user, env1) == MOD && LogicValue(s, def, user, env2) == YES
  {
    OneDefault(Prop(PDefault, false, None, Some(Leaf(SymMod))), env1);
    OneDefault(Prop(PDefault, false, None, Some(Leaf(SymMod))), env2);
  }

  lemma OneDefault(p: Prop, env: Env)
    requires p.kind.PDefault? && !p.hasText && p.cond.None?
    ensures PropsReads([p]) == PropReads(p)
    ensures PromptsOr([p], env) == NO && FirstDefault([p], env) == Some(p)
  {
    assert [p][1..] == [] && [p][..0] == [] && PropsReads([]) == {} && PromptsOr([], env) == NO;
  }

  // cfg holds the value that vals gives MODULES.
  predicate ModulesAre(cfg: Config, modules: Sym, vals: Values) {
    modules in cfg.graph && modules in vals && vals[modules].tri == cfg.mods
  }

  // An accepted setting of any symbol, MODULES included, with modules_val calculated anew: if
  // MODULES has the value it had, the setting takes effect and what does not depend on its symbol
  // stays.
  lemma SettingWithModules(cfg: Config, rank: Rank, modules: Sym, user: User, vals: Values, s: Sym, v: Value,
                           mods: Tri, after: Values)
    requires Ranked(cfg, rank) && s in cfg.graph
    requires Solution(cfg, user, vals) && ModulesAre(cfg, modules, vals)
    requires Solution(cfg.(mods := mods), user[s := v], after) && ModulesAre(cfg.(mods := mods), modules, after)
    requires WithinRange(s, cfg.mods, Final(s, cfg.graph[s], user, EnvOf(cfg, vals)), v.tri)
    ensures after[modules].tri == vals[modules].tri ==>
      after[s].tri == v.tri && forall t <- cfg.graph :: !DependsOn(cfg, rank, t, s) ==> after[t] == vals[t]
  {
    hide Ranked, Final, WithinRange, DependsOn, Calc;
    if after[modules].tri == vals[modules].tri {
      assert cfg.(mods := mods) == cfg;
      SettingTakesEffect(cfg, rank, user, vals, s, v, after);
    }
  }
}
