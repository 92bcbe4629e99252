// The value of every symbol as a plain definition, without cache (symbol.c).
module Symbols {
  import opened Wrappers
  import opened Expr

  // ----- symbol definitions -----

  datatype PropKind = PPrompt | PMenu | PDefault | PSelect | PImply | PSymbol

  // cond is visible.expr, expr the value of a default or the target of a select; hasText says
  // that prop->text is not NULL.
  datatype Prop = Prop(kind: PropKind, hasText: bool, cond: Option<Expr>, expr: Option<Expr>)

  datatype SymDef = SymDef(props: seq<Prop>, dirDep: Option<Expr>, revDep: Option<Expr>, implied: Option<Expr>)

  // mods is modules_val, the value MODULES had when it was last calculated.  It is one number
  // during a calculation; that the values calculated give MODULES that value again is for those
  // to see to who change values (SymbolTable.SetTristateValue).
  datatype Config = Config(graph: map<Sym, SymDef>, mods: Tri, strto: (string, int) -> Option<int>)

  // The user values: def[S_DEF_USER] of the symbols carrying SYMBOL_DEF_USER.
  type User = map<Sym, Value>

  type Values = map<Sym, Value>

  function EnvOf(cfg: Config, vals: Values): Env { Env(vals, cfg.mods, cfg.strto) }

  // sym_get_type of a symbol outside choices
  function EffectiveType(s: Sym, mods: Tri): SymType {
    if TypeOf(s).TTristate? && mods == NO then TBoolean else TypeOf(s)
  }

  // ----- what sym_calc_visibility computes -----

  // The || of all prompt conditions.
  function PromptsOr(props: seq<Prop>, env: Env): Tri {
    if props == [] then NO
    else
      var rest, p := PromptsOr(props[..|props| - 1], env), props[|props| - 1];
      if p.hasText then Max(rest, EvalOpt(p.cond, env)) else rest
  }

  lemma {:induction false} PromptsOrStep(props: seq<Prop>, i: nat, env: Env)
    requires i < |props|
    ensures PromptsOr(props[..i + 1], env)
      == if props[i].hasText then Max(PromptsOr(props[..i], env), EvalOpt(props[i].cond, env))
         else PromptsOr(props[..i], env)
  {
    assert props[..i + 1][..i] == props[..i];
  }

  function Promote(t: Tri, s: Sym, mods: Tri): Tri {
    if t == MOD && EffectiveType(s, mods).TBoolean? then YES else t
  }

  function Visible(s: Sym, def: SymDef, env: Env): Tri {
    var tri := PromptsOr(def.props, env);
    if tri == MOD && (!TypeOf(s).TTristate? || env.mods == NO) then YES else tri
  }

  function DirDep(s: Sym, def: SymDef, env: Env): Tri {
    Promote(EvalOpt(def.dirDep, env), s, env.mods)
  }

  function RevDep(s: Sym, def: SymDef, env: Env): Tri {
    Promote(if def.revDep.Some? then Eval(def.revDep.value, env) else NO, s, env.mods)
  }

  function Implied(s: Sym, def: SymDef, env: Env): Tri {
    Promote(if def.implied.Some? && DirDep(s, def, env) != NO then Eval(def.implied.value, env) else NO, s, env.mods)
  }

  // ----- what sym_calc_value computes -----

  // sym_get_default_prop: the first default whose condition is not n.
  function FirstDefault(props: seq<Prop>, env: Env): Option<Prop> {
    if props == [] then None
    else if props[0].kind.PDefault? && EvalOpt(props[0].cond, env) != NO then Some(props[0])
    else FirstDefault(props[1..], env)
  }

  function DefaultTri(def: SymDef, env: Env): Tri {
    var p := FirstDefault(def.props, env);
    if p.None? then NO else Min(EvalOpt(p.value.expr, env), EvalOpt(p.value.cond, env))
  }

  // prop_get_symbol
  function PropSymbol(p: Prop): Option<Sym> {
    if p.expr.Some? && p.expr.value.Leaf? then Some(p.expr.value.sym) else None
  }

  // curr.val of a symbol; that of a bool or tristate is not its printed value.
  function RawText(env: Env, s: Sym): string {
    if s.Ref? then ValueOf(env, s).str else StrOf(env, s)
  }

  function DefaultText(def: SymDef, env: Env): string {
    var p := FirstDefault(def.props, env);
    if p.Some? && PropSymbol(p.value).Some? then RawText(env, PropSymbol(p.value).value) else ""
  }

  // The tristate before select and the final promotion are applied.
  function BaseTri(s: Sym, def: SymDef, user: User, env: Env): Tri {
    if Visible(s, def, env) != NO && s in user then Min(user[s].tri, Visible(s, def, env))
    else Max(DefaultTri(def, env), Implied(s, def, env))
  }

  function LogicValue(s: Sym, def: SymDef, user: User, env: Env): Tri {
    var t := Max(BaseTri(s, def, user, env), RevDep(s, def, env));
    if t == MOD && (EffectiveType(s, env.mods).TBoolean? || Implied(s, def, env) == YES) then YES else t
  }

  function TextValue(s: Sym, def: SymDef, user: User, env: Env): string {
    if Visible(s, def, env) != NO && s in user then user[s].str else DefaultText(def, env)
  }

  predicate IsText(s: Sym) { TypeOf(s) in {TInt, THex, TString} }

  // sym_calc_value, given the values of the symbols it looks at.
  function Calc(s: Sym, def: SymDef, user: User, env: Env): Value {
    if IsLogic(s) then Value(LogicValue(s, def, user, env), "n")
    else if IsText(s) then Value(NO, TextValue(s, def, user, env))
    else Undefined(s)
  }

  // Whether sym_calc_value leaves SYMBOL_WRITE set.
  predicate Written(s: Sym, def: SymDef, user: User, env: Env) {
    || (Visible(s, def, env) != NO && (IsLogic(s) || IsText(s)))
    || (IsLogic(s) && (RevDep(s, def, env) != NO || DefaultTri(def, env) != NO || Implied(s, def, env) != NO))
    || (IsText(s) && FirstDefault(def.props, env).Some? && PropSymbol(FirstDefault(def.props, env).value).Some?)
  }

  // The calculated part of struct symbol: curr, visible, dir_dep.tri, rev_dep.tri, implied.tri
  // and SYMBOL_WRITE.
  datatype SymState = SymState(curr: Value, visible: Tri, dirDep: Tri, revDep: Tri, implied: Tri, write: bool)

  const CLEAR := SymState(Value(NO, ""), NO, NO, NO, NO, false)

  // What sym_calc_value leaves in a symbol whose inputs have the values in env.
  function Final(s: Sym, def: SymDef, user: User, env: Env): SymState {
    if IsLogic(s) || IsText(s) then
      SymState(Calc(s, def, user, env), Visible(s, def, env), DirDep(s, def, env), RevDep(s, def, env),
               Implied(s, def, env), Written(s, def, user, env))
    else CLEAR.(curr := Undefined(s))
  }

  // ----- consistent assignments -----

  // Every symbol has the value its own rule gives it.
  ghost predicate Solution(cfg: Config, user: User, vals: Values) {
    && vals.Keys == cfg.graph.Keys
    && forall s <- cfg.graph :: vals[s] == Calc(s, cfg.graph[s], user, EnvOf(cfg, vals))
  }

  function OptSyms(e: Option<Expr>): set<Sym> { if e.Some? then Syms(e.value) else {} }

  // The symbols the rule for a definition reads.
  function PropReads(p: Prop): set<Sym> {
    (if p.hasText || p.kind.PDefault? then OptSyms(p.cond) else {}) + (if p.kind.PDefault? then OptSyms(p.expr) else {})
  }

  function PropsReads(props: seq<Prop>): set<Sym> {
    if props == [] then {} else PropReads(props[0]) + PropsReads(props[1..])
  }

  function Reads(def: SymDef): set<Sym> {
    PropsReads(def.props) + OptSyms(def.dirDep) + OptSyms(def.revDep) + OptSyms(def.implied)
  }

  type Rank = map<Sym, nat>

  // The graph has no cycle: every symbol reads symbols of smaller rank only.
  ghost predicate Ranked(cfg: Config, rank: Rank) {
    && rank.Keys == cfg.graph.Keys
    && forall s <- cfg.graph, t <- Reads(cfg.graph[s]) | t in cfg.graph :: rank[t] < rank[s]
  }

  // The cache-free recursive definition of a symbol's value.
  ghost function Plain(cfg: Config, user: User, rank: Rank, s: Sym): Value
    requires Ranked(cfg, rank) && s in cfg.graph
    decreases rank[s]
  {
    var below := map t | t in cfg.graph && rank[t] < rank[s] :: Plain(cfg, user, rank, t);
    Calc(s, cfg.graph[s], user, EnvOf(cfg, below))
  }

  ghost function PlainValues(cfg: Config, user: User, rank: Rank): Values
    requires Ranked(cfg, rank)
  {
    map s | s in cfg.graph :: Plain(cfg, user, rank, s)
  }

  // ----- the rule depends on what it reads -----

  ghost predicate Agree(env1: Env, env2: Env, syms: set<Sym>) {
    && env1.mods == env2.mods && env1.strto == env2.strto
    && forall s <- syms :: ValueOf(env1, s) == ValueOf(env2, s)
  }

  lemma EvalOptAgree(e: Option<Expr>, env1: Env, env2: Env)
    requires Agree(env1, env2, OptSyms(e))
    ensures EvalOpt(e, env1) == EvalOpt(e, env2)
  {
    if e.Some? { EvalDependsOnSyms(e.value, env1, env2); }
  }

  lemma {:induction false} PropsReadsSplit(props: seq<Prop>, i: nat)
    requires i < |props|
    ensures PropReads(props[i]) <= PropsReads(props)
  {
    if i > 0 { PropsReadsSplit(props[1..], i - 1); }
  }

  lemma {:induction false} PromptsAgree(props: seq<Prop>, all: seq<Prop>, env1: Env, env2: Env)
    requires Agree(env1, env2, PropsReads(all)) && props <= all
    ensures PromptsOr(props, env1) == PromptsOr(props, env2)
  {
    if props != [] {
      var n := |props| - 1;
      assert props[..n] <= all;
      PromptsAgree(props[..n], all, env1, env2);
      PropsReadsSplit(all, n);
      if props[n].hasText { EvalOptAgree(props[n].cond, env1, env2); }
    }
  }

  lemma {:induction false} DefaultAgree(props: seq<Prop>, env1: Env, env2: Env)
    requires Agree(env1, env2, PropsReads(props))
    ensures FirstDefault(props, env1) == FirstDefault(props, env2)
    ensures FirstDefault(props, env1).Some? ==>
      var p := FirstDefault(props, env1).value;
      && EvalOpt(p.expr, env1) == EvalOpt(p.expr, env2) && EvalOpt(p.cond, env1) == EvalOpt(p.cond, env2)
      && (PropSymbol(p).Some? ==> RawText(env1, PropSymbol(p).value) == RawText(env2, PropSymbol(p).value))
  {
    if props != [] {
      if props[0].kind.PDefault? {
        EvalOptAgree(props[0].cond, env1, env2);
        EvalOptAgree(props[0].expr, env1, env2);
        var q := PropSymbol(props[0]);
        assert q.Some? ==> q.value in OptSyms(props[0].expr);
      }
      DefaultAgree(props[1..], env1, env2);
    }
  }

  // All intermediate results of the rule, as one tuple.
  function Parts(s: Sym, def: SymDef, env: Env): (Tri, Tri, Tri, Tri, Tri, string) {
    (Visible(s, def, env), DirDep(s, def, env), RevDep(s, def, env), Implied(s, def, env),
     DefaultTri(def, env), DefaultText(def, env))
  }

  lemma {:induction false} PartsAgree(s: Sym, def: SymDef, env1: Env, env2: Env)
    requires Agree(env1, env2, Reads(def))
    ensures Parts(s, def, env1) == Parts(s, def, env2) && FirstDefault(def.props, env1) == FirstDefault(def.props, env2)
  {
    hide Eval, PromptsOr, FirstDefault, PropsReads;
    PromptsAgree(def.props, def.props, env1, env2);
    DefaultAgree(def.props, env1, env2);
    EvalOptAgree(def.dirDep, env1, env2);
    EvalOptAgree(def.revDep, env1, env2);
    EvalOptAgree(def.implied, env1, env2);
  }

  lemma CalcAgree(s: Sym, def: SymDef, user: User, env1: Env, env2: Env)
    requires Agree(env1, env2, Reads(def))
    ensures Parts(s, def, env1) == Parts(s, def, env2)
    ensures Calc(s, def, user, env1) == Calc(s, def, user, env2)
    ensures Written(s, def, user, env1) == Written(s, def, user, env2)
  {
    hide Visible, DirDep, RevDep, Implied, DefaultTri, DefaultText, FirstDefault;
    PartsAgree(s, def, env1, env2);
  }

  // ----- existence and uniqueness -----

  // The values below s, all that the recursion for s looks at.
  ghost function Below(cfg: Config, user: User, rank: Rank, s: Sym): Values
    requires Ranked(cfg, rank) && s in cfg.graph
  {
    map t | t in cfg.graph && rank[t] < rank[s] :: Plain(cfg, user, rank, t)
  }

  lemma BelowAgrees(cfg: Config, user: User, rank: Rank, s: Sym)
    requires Ranked(cfg, rank) && s in cfg.graph
    ensures Agree(EnvOf(cfg, Below(cfg, user, rank, s)), EnvOf(cfg, PlainValues(cfg, user, rank)), Reads(cfg.graph[s]))
  {
  }

  lemma {:induction false} PlainUnfolds(cfg: Config, user: User, rank: Rank, s: Sym)
    requires Ranked(cfg, rank) && s in cfg.graph
    ensures Plain(cfg, user, rank, s) == Calc(s, cfg.graph[s], user, EnvOf(cfg, Below(cfg, user, rank, s)))
  {
  }

  // On an acyclic graph the recursive definition is a consistent assignment ...
  lemma PlainIsSolution(cfg: Config, user: User, rank: Rank)
    requires Ranked(cfg, rank)
    ensures Solution(cfg, user, PlainValues(cfg, user, rank))
  {
    var vals := PlainValues(cfg, user, rank);
    forall s <- cfg.graph
      ensures vals[s] == Calc(s, cfg.graph[s], user, EnvOf(cfg, vals))
    {
      PlainUnfolds(cfg, user, rank, s);
      BelowAgrees(cfg, user, rank, s);
      CalcAgree(s, cfg.graph[s], user, EnvOf(cfg, Below(cfg, user, rank, s)), EnvOf(cfg, vals));
    }
  }

  // ... and the only one; more generally two consistent assignments for user values that make
  // no difference agree.
  lemma {:induction false} SolutionsAgree(cfg: Config, user1: User, user2: User, vals1: Values, vals2: Values,
                                          rank: Rank, s: Sym)
    requires Ranked(cfg, rank) && s in cfg.graph
    requires Solution(cfg, user1, vals1) && Solution(cfg, user2, vals2)
    requires forall t <- cfg.graph | rank[t] <= rank[s] ::
      Calc(t, cfg.graph[t], user1, EnvOf(cfg, vals1)) == Calc(t, cfg.graph[t], user2, EnvOf(cfg, vals1))
    ensures vals1[s] == vals2[s]
    decreases rank[s]
  {
    forall t <- Reads(cfg.graph[s])
      ensures ValueOf(EnvOf(cfg, vals1), t) == ValueOf(EnvOf(cfg, vals2), t)
    {
      if t in cfg.graph { SolutionsAgree(cfg, user1, user2, vals1, vals2, rank, t); }
    }
    CalcAgree(s, cfg.graph[s], user2, EnvOf(cfg, vals1), EnvOf(cfg, vals2));
  }

  lemma SolutionUnique(cfg: Config, user: User, vals: Values, rank: Rank)
    requires Ranked(cfg, rank) && Solution(cfg, user, vals)
    ensures vals == PlainValues(cfg, user, rank)
  {
    PlainIsSolution(cfg, user, rank);
    forall s <- cfg.graph
      ensures vals[s] == PlainValues(cfg, user, rank)[s]
    {
      SolutionsAgree(cfg, user, user, vals, PlainValues(cfg, user, rank), rank, s);
    }
  }

  // Calculated values are what Expr.Sane asks of an assignment.
  lemma CalcGood(s: Sym, def: SymDef, user: User, env: Env)
    ensures GoodValue(s, Calc(s, def, user, env), env.mods)
  {
  }

  // ----- the measure of the calculator and of the cycle checker -----

  lemma OneFewerLeft(all: set<Sym>, before: set<Sym>, s: Sym)
    requires s in all && s !in before
    ensures |all - (before + {s})| < |all - before|
  {
    assert all - (before + {s}) == all - before - {s};
  }
}
