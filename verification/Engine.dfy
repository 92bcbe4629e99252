// The caching evaluator of symbol.c: sym_calc_value with the SYMBOL_VALID flag.
module Engine {
  import opened Wrappers
  import opened Expr
  import opened Symbols
  import opened Settings
  import opened ValueLaws

  type States = map<Sym, SymState>

  const NODEF := SymDef([], None, None, None)

  // The context a calculation does not change: the definitions, the user values, the values of
  // the plain definition for them (when the graph is acyclic, as witnessed by rank), and the
  // symbols whose SYMBOL_WRITE has been taken off by a writer.
  datatype Context = Context(cfg: Config, rank: Option<Rank>, user: User, plain: Values, emitted: set<Sym>)
  {
    function Env(): Env { EnvOf(cfg, plain) }

    // The cache entry for s is what the plain definition says.
    ghost predicate Cached(s: Sym, st: SymState) {
      && s in plain && st.curr == plain[s]
      && var f := Final(s, Def(cfg, s), user, Env());
         st == f.(write := f.write && s !in emitted)
    }

    ghost predicate Grounded() {
      rank.Some? ==> Ranked(cfg, rank.value) && Solution(cfg, user, plain)
    }
  }

  function Def(cfg: Config, s: Sym): SymDef {
    if s in cfg.graph then cfg.graph[s] else NODEF
  }

  // The invariant of every run: on an acyclic graph each valid entry that is not being
  // calculated right now (busy) agrees with the plain definition.
  ghost predicate Coherent(c: Context, valid: set<Sym>, states: States, busy: set<Sym>) {
    c.rank.Some? ==> forall s <- valid - busy :: s in states && c.Cached(s, states[s])
  }

  // Everything that is being calculated ranks above the given symbols.
  ghost predicate Above(rank: Option<Rank>, busy: set<Sym>, syms: set<Sym>) {
    rank.Some? ==> forall b <- busy, t <- syms | b in rank.value && t in rank.value :: rank.value[t] < rank.value[b]
  }

  // A calculation makes more symbols valid and keeps the entries of those that were.
  ghost predicate Grown(all: set<Sym>, v0: set<Sym>, s0: States, v: set<Sym>, s: States, except: set<Sym>)
    ensures Grown(all, v0, s0, v, s, except) ==> |all - v| <= |all - v0|
  {
    && v0 <= v && |all - v| <= |all - v0|
    && s.Keys == s0.Keys
    && forall x <- v0 - except | x in s0 :: s[x] == s0[x]
  }

  lemma AboveFewer(rank: Option<Rank>, busy: set<Sym>, syms: set<Sym>, fewer: set<Sym>)
    requires Above(rank, busy, syms) && fewer <= syms
    ensures Above(rank, busy, fewer)
  {
  }

  lemma GrownTrans(all: set<Sym>, v0: set<Sym>, s0: States, v1: set<Sym>, s1: States, v2: set<Sym>, s2: States,
                   except: set<Sym>)
    requires Grown(all, v0, s0, v1, s1, except) && Grown(all, v1, s1, v2, s2, except)
    ensures Grown(all, v0, s0, v2, s2, except)
  {
  }

  lemma GrownValid(all: set<Sym>, v0: set<Sym>, s0: States, v: set<Sym>, s: States, except: set<Sym>)
    requires Grown(all, v0, s0, v, s, except)
    ensures v0 <= v
  {
  }

  // What lies below an expression lies below its parts.
  lemma {:induction false} AboveParts(rank: Option<Rank>, busy: set<Sym>, e: Expr)
    requires Above(rank, busy, Syms(e))
    ensures match e
            case Leaf(_) => true
            case Not(_) => true
            case Bin(_, l, r) => Above(rank, busy, Syms(l)) && Above(rank, busy, Syms(r))
            case Cmp(_, a, b) => Above(rank, busy, {a}) && Above(rank, busy, {b}) && Syms(e) == {a, b}
  {
  }

  lemma GrownExcept(all: set<Sym>, v: set<Sym>, s: States, except: set<Sym>)
    ensures Grown(all, v, s, v, s, except)
  {
  }

  // What was stored before and not excepted is still there.
  lemma GrownKeeps(all: set<Sym>, v0: set<Sym>, s0: States, v: set<Sym>, s: States, x: Sym)
    requires Grown(all, v0, s0, v, s, {}) && x in v0 && x in s0
    ensures x in s && s[x] == s0[x] && x in v
  {
  }

  // A symbol is marked valid, and then calculated.
  lemma GrownNew(all: set<Sym>, v0: set<Sym>, s0: States, v: set<Sym>, s: States, x: Sym, st: SymState)
    requires x in all && x !in v0 && x in s0
    requires Grown(all, v0 + {x}, s0[x := st], v, s, {x})
    ensures Grown(all, v0, s0, v, s, {}) && x in v
  {
    OneFewerLeft(all, v0, x);
  }

  lemma GrownLess(all: set<Sym>, v0: set<Sym>, s0: States, v: set<Sym>, s: States, except: set<Sym>)
    requires Grown(all, v0, s0, v, s, {})
    ensures Grown(all, v0, s0, v, s, except)
  {
  }

  // Storing into a symbol leaves all others alone.
  lemma GrownStored(all: set<Sym>, v0: set<Sym>, s0: States, v: set<Sym>, s: States, x: Sym, st: SymState)
    requires Grown(all, v0, s0, v, s, {x}) && x in s
    ensures Grown(all, v0, s0, v, s[x := st], {x})
  {
  }

  // d is the default; the rest of the rule is applied to what sym_calc_visibility has stored.
  lemma LogicFinal(s: Sym, def: SymDef, user: User, env: Env, st: SymState, d: Tri)
    requires IsLogic(s) && VisibilityFinal(s, def, st, env)
    requires (st.visible != NO && s in user) || d == DefaultTri(def, env)
    ensures var byUser := st.visible != NO && s in user;
      var tri := Max(if byUser then Min(user[s].tri, st.visible) else Max(d, st.implied), st.revDep);
      var promoted := if tri == MOD && (EffectiveType(s, env.mods).TBoolean? || st.implied == YES) then YES else tri;
      Final(s, def, user, env)
      == st.(curr := Value(promoted, "n"),
             write := st.visible != NO || (!byUser && (st.revDep != NO || d != NO || st.implied != NO)))
  {
    hide Visible, DirDep, RevDep, Implied, DefaultTri;
  }

  lemma GrownRefl(all: set<Sym>, v: set<Sym>, s: States)
    ensures Grown(all, v, s, v, s, {})
  {
  }

  lemma BeginCoherent(c: Context, valid: set<Sym>, states: States, busy: set<Sym>, s: Sym, st: SymState)
    requires Coherent(c, valid, states, busy) && s !in valid
    ensures Coherent(c, valid + {s}, states[s := st], busy + {s})
  {
  }

  lemma StoreCoherent(c: Context, valid: set<Sym>, states: States, busy: set<Sym>, s: Sym, st: SymState)
    requires Coherent(c, valid, states, busy) && s in busy
    ensures Coherent(c, valid, states[s := st], busy)
  {
  }

  lemma FinishCoherent(c: Context, valid: set<Sym>, states: States, busy: set<Sym>, s: Sym)
    requires Coherent(c, valid, states, busy)
    requires c.rank.Some? ==> s in states && c.Cached(s, states[s])
    ensures Coherent(c, valid, states, busy - {s})
  {
  }

  lemma ReadsBelow(c: Context, busy: set<Sym>, s: Sym)
    requires c.Grounded() && Above(c.rank, busy, {s}) && s in c.cfg.graph
    ensures Above(c.rank, busy + {s}, Reads(Def(c.cfg, s)))
  {
    hide Solution;
  }

  // The loop over all defaults.
  lemma {:induction false} FirstDefaultStep(props: seq<Prop>, i: nat, env: Env)
    requires i < |props|
    ensures FirstDefault(props[i..], env)
      == if props[i].kind.PDefault? && EvalOpt(props[i].cond, env) != NO then Some(props[i])
         else FirstDefault(props[i + 1..], env)
  {
    assert props[i..][0] == props[i] && props[i..][1..] == props[i + 1..];
  }

  lemma FirstDefaultNone(env: Env)
    ensures FirstDefault([], env) == None
  {
  }

  lemma {:induction false} DefaultReads(def: SymDef, i: nat)
    requires i < |def.props| && def.props[i].kind.PDefault?
    ensures OptSyms(def.props[i].cond) <= Reads(def) && OptSyms(def.props[i].expr) <= Reads(def)
  {
    PropsReadsSplit(def.props, i);
  }

  // The four results of sym_calc_visibility are those of the plain definition.
  ghost predicate VisibilityFinal(s: Sym, def: SymDef, st: SymState, env: Env) {
    && st.visible == Visible(s, def, env)
    && st.dirDep == DirDep(s, def, env)
    && st.revDep == RevDep(s, def, env)
    && st.implied == Implied(s, def, env)
  }

  lemma VisibilityKept(s: Sym, def: SymDef, st: SymState, st': SymState, env: Env)
    requires VisibilityFinal(s, def, st, env) && st' == st.(curr := st'.curr, write := st'.write)
    ensures VisibilityFinal(s, def, st', env)
  {
  }

  function CurrEnv(cfg: Config, states: States): Env {
    EnvOf(cfg, map s | s in states :: states[s].curr)
  }

  // What is read off the cache for symbols that have just been calculated.
  lemma CurrentSymbol(c: Context, valid: set<Sym>, states: States, busy: set<Sym>, s: Sym)
    requires c.Grounded() && Coherent(c, valid, states, busy) && Above(c.rank, busy, {s})
    requires states.Keys == c.cfg.graph.Keys && busy <= valid && (s in c.cfg.graph ==> s in valid)
    ensures c.rank.Some? ==> ValueOf(CurrEnv(c.cfg, states), s) == ValueOf(c.Env(), s)
  {
    hide Final;
    if c.rank.Some? && s in c.cfg.graph {
      assert s !in busy;
      assert c.Cached(s, states[s]);
    }
  }

  lemma {:induction false} CurrentIsPlain(c: Context, valid: set<Sym>, states: States, busy: set<Sym>, e: Expr)
    requires c.Grounded() && Coherent(c, valid, states, busy) && Above(c.rank, busy, Syms(e))
    requires states.Keys == c.cfg.graph.Keys && busy <= valid
    requires forall s <- Syms(e) | s in c.cfg.graph :: s in valid
    ensures c.rank.Some? ==> Eval(e, CurrEnv(c.cfg, states)) == Eval(e, c.Env())
  {
    hide Solution, Ranked, Coherent;
    if c.rank.Some? {
      forall s <- Syms(e)
        ensures ValueOf(CurrEnv(c.cfg, states), s) == ValueOf(c.Env(), s)
      {
        AboveFewer(c.rank, busy, Syms(e), {s});
        CurrentSymbol(c, valid, states, busy, s);
      }
      EvalDependsOnSyms(e, CurrEnv(c.cfg, states), c.Env());
    }
  }

  class SymbolTable {
    const cfg: Config
    const modulesSym: Option<Sym>
    // def[S_DEF_USER] of the symbols with SYMBOL_DEF_USER
    var user: User
    // the symbols with SYMBOL_VALID, and the calculated part of each symbol
    var valid: set<Sym>
    var states: States

    ghost const rank: Option<Rank>
    ghost var plain: Values
    ghost var busy: set<Sym>
    ghost var emitted: set<Sym>

    ghost function Ctx(): Context
      reads this`user, this`plain, this`emitted
    {
      Context(cfg, rank, user, plain, emitted)
    }

    ghost predicate Shaped()
      reads this`valid, this`states, this`busy, this`emitted
    {
      && states.Keys == cfg.graph.Keys
      && busy <= valid <= cfg.graph.Keys && emitted <= valid
    }

    ghost predicate Ok()
      reads this
      ensures Ok() ==> Shaped()
    {
      Shaped() && Ctx().Grounded() && Coherent(Ctx(), valid, states, busy)
    }

    constructor (cfg: Config, modulesSym: Option<Sym>, ghost rank: Option<Rank>)
      requires rank.Some? ==> Ranked(cfg, rank.value)
      ensures Ok() && this.cfg == cfg && this.rank == rank && this.modulesSym == modulesSym
      ensures user == map[] && valid == {} && busy == {} && emitted == {}
    {
      this.cfg := cfg;
      this.modulesSym := modulesSym;
      this.rank := rank;
      user, valid := map[], {};
      states := map s | s in cfg.graph :: CLEAR;
      busy, emitted := {}, {};
      plain := if rank.Some? then PlainValues(cfg, map[], rank.value) else map[];
      if rank.Some? { PlainIsSolution(cfg, map[], rank.value); }
    }

    // expr_calc_value
    method CalcExpr(e: Expr) returns (t: Tri)
      requires Ok() && Above(rank, busy, Syms(e))
      modifies this`valid, this`states, this`busy
      ensures Ok() && busy == old(busy) && Grown(cfg.graph.Keys, old(valid), old(states), valid, states, {})
      ensures rank.Some? ==> t == Eval(e, Ctx().Env())
      decreases |cfg.graph.Keys - valid|, 1, Size(e)
    {
      hide Ok, Above, TriOf, EvalCmp, Grown;
      match e {
        case Leaf(s) =>
          CalcValue(s);
          t := TriOf(CurrEnv(cfg, states), s);
          ReadBack(e);
        case Not(x) =>
          t := CalcExpr(x);
          t := Neg(t);
        case Bin(op, _, _) =>
          var a, b := CalcOperands(e);
          t := Combine(op, a, b);
        case Cmp(op, a, b) =>
          CalcBoth(e);
          t := EvalCmp(CurrEnv(cfg, states), op, a, b);
          ReadBack(e);
      }
    }

    method CalcOperands(e: Expr) returns (a: Tri, b: Tri)
      requires Ok() && e.Bin? && Above(rank, busy, Syms(e))
      modifies this`valid, this`states, this`busy
      ensures Ok() && busy == old(busy) && Grown(cfg.graph.Keys, old(valid), old(states), valid, states, {})
      ensures rank.Some? ==> a == Eval(e.l, Ctx().Env()) && b == Eval(e.r, Ctx().Env())
      decreases |cfg.graph.Keys - valid|, 1, Size(e), 0
    {
      hide Ok, Above, Eval, Grown;
      AboveParts(rank, busy, e);
      a := CalcExpr(e.l);
      ghost var v1, s1 := valid, states;
      b := CalcExpr(e.r);
      GrownTrans(cfg.graph.Keys, old(valid), old(states), v1, s1, valid, states, {});
    }

    // sym_calc_value for both symbols of a comparison
    method CalcBoth(e: Expr)
      requires Ok() && e.Cmp? && Above(rank, busy, Syms(e))
      modifies this`valid, this`states, this`busy
      ensures Ok() && busy == old(busy) && Grown(cfg.graph.Keys, old(valid), old(states), valid, states, {})
      ensures forall s <- Syms(e) | s in cfg.graph :: s in valid
      decreases |cfg.graph.Keys - valid|, 1, Size(e), 0
    {
      hide Ok, Above, Grown;
      AboveParts(rank, busy, e);
      CalcValue(e.s1);
      ghost var v1, s1 := valid, states;
      CalcValue(e.s2);
      GrownTrans(cfg.graph.Keys, old(valid), old(states), v1, s1, valid, states, {});
      GrownValid(cfg.graph.Keys, v1, s1, valid, states, {});
    }

    lemma {:induction false} ReadBack(e: Expr)
      requires Ok() && Above(rank, busy, Syms(e))
      requires forall s <- Syms(e) | s in cfg.graph :: s in valid
      ensures rank.Some? ==> Eval(e, CurrEnv(cfg, states)) == Eval(e, Ctx().Env())
    {
      hide Coherent, Above, Solution, Ranked;
      CurrentIsPlain(Ctx(), valid, states, busy, e);
    }

    method CalcExprOpt(e: Option<Expr>, absent: Tri) returns (t: Tri)
      requires Ok() && Above(rank, busy, OptSyms(e))
      modifies this`valid, this`states, this`busy
      ensures Ok() && busy == old(busy) && Grown(cfg.graph.Keys, old(valid), old(states), valid, states, {})
      ensures rank.Some? ==> t == if e.Some? then Eval(e.value, Ctx().Env()) else absent
      decreases |cfg.graph.Keys - valid|, 2
    {
      hide Ok, Above;
      if e.Some? { t := CalcExpr(e.value); } else { t := absent; }
    }

    // sym_calc_visibility of a symbol outside choices
    method CalcVisibility(s: Sym)
      requires Ok() && s in busy && Above(rank, busy, Reads(Def(cfg, s)))
      modifies this`valid, this`states, this`busy
      ensures Ok() && busy == old(busy) && Grown(cfg.graph.Keys, old(valid), old(states), valid, states, {s})
      ensures states[s].curr == old(states[s].curr) && states[s].write == old(states[s].write)
      ensures rank.Some? ==> VisibilityFinal(s, Def(cfg, s), states[s], Ctx().Env())
      decreases |cfg.graph.Keys - valid|, 6
    {
      hide Ok, Above, Visible, DirDep, RevDep, Implied;
      var a, b, c, d := VisibilityNow(s);
      Store(s, states[s].(visible := a, dirDep := b, revDep := c, implied := d));
    }

    method VisibilityNow(s: Sym) returns (a: Tri, b: Tri, c: Tri, d: Tri)
      requires Ok() && Above(rank, busy, Reads(Def(cfg, s)))
      modifies this`valid, this`states, this`busy
      ensures Ok() && busy == old(busy) && Grown(cfg.graph.Keys, old(valid), old(states), valid, states, {})
      ensures rank.Some? ==> var def, env := Def(cfg, s), Ctx().Env();
        a == Visible(s, def, env) && b == DirDep(s, def, env) && c == RevDep(s, def, env) && d == Implied(s, def, env)
      decreases |cfg.graph.Keys - valid|, 5
    {
      hide Ok, Above, Visible, DirDep, RevDep, Implied, Grown, Reads, Def;
      a := VisibleNow(s);
      ghost var v1, s1 := valid, states;
      b := DirDepNow(s);
      GrownTrans(cfg.graph.Keys, old(valid), old(states), v1, s1, valid, states, {});
      ghost var v2, s2 := valid, states;
      c := RevDepNow(s);
      GrownTrans(cfg.graph.Keys, old(valid), old(states), v2, s2, valid, states, {});
      ghost var v3, s3 := valid, states;
      d := ImpliedNow(s, b);
      GrownTrans(cfg.graph.Keys, old(valid), old(states), v3, s3, valid, states, {});
    }

    method VisibleNow(s: Sym) returns (tri: Tri)
      requires Ok() && Above(rank, busy, Reads(Def(cfg, s)))
      modifies this`valid, this`states, this`busy
      ensures Ok() && busy == old(busy) && Grown(cfg.graph.Keys, old(valid), old(states), valid, states, {})
      ensures rank.Some? ==> tri == Visible(s, Def(cfg, s), Ctx().Env())
      decreases |cfg.graph.Keys - valid|, 4
    {
      hide Ok, Above, PromptsOr;
      tri := PromptsVisible(s);
      if tri == MOD && (!TypeOf(s).TTristate? || cfg.mods == NO) {
        tri := YES;
      }
    }

    method DirDepNow(s: Sym) returns (tri: Tri)
      requires Ok() && Above(rank, busy, Reads(Def(cfg, s)))
      modifies this`valid, this`states, this`busy
      ensures Ok() && busy == old(busy) && Grown(cfg.graph.Keys, old(valid), old(states), valid, states, {})
      ensures rank.Some? ==> tri == DirDep(s, Def(cfg, s), Ctx().Env())
      decreases |cfg.graph.Keys - valid|, 4
    {
      hide Ok, Above;
      var e := Def(cfg, s).dirDep;
      AboveFewer(rank, busy, Reads(Def(cfg, s)), OptSyms(e));
      tri := CalcExprOpt(e, YES);
      tri := Promote(tri, s, cfg.mods);
    }

    method RevDepNow(s: Sym) returns (tri: Tri)
      requires Ok() && Above(rank, busy, Reads(Def(cfg, s)))
      modifies this`valid, this`states, this`busy
      ensures Ok() && busy == old(busy) && Grown(cfg.graph.Keys, old(valid), old(states), valid, states, {})
      ensures rank.Some? ==> tri == RevDep(s, Def(cfg, s), Ctx().Env())
      decreases |cfg.graph.Keys - valid|, 4
    {
      hide Ok, Above;
      var e := Def(cfg, s).revDep;
      AboveFewer(rank, busy, Reads(Def(cfg, s)), OptSyms(e));
      tri := CalcExprOpt(e, NO);
      tri := Promote(tri, s, cfg.mods);
    }

    // dir is the dir_dep.tri calculated just before.
    method ImpliedNow(s: Sym, dir: Tri) returns (tri: Tri)
      requires Ok() && Above(rank, busy, Reads(Def(cfg, s)))
      requires rank.Some? ==> dir == DirDep(s, Def(cfg, s), Ctx().Env())
      modifies this`valid, this`states, this`busy
      ensures Ok() && busy == old(busy) && Grown(cfg.graph.Keys, old(valid), old(states), valid, states, {})
      ensures rank.Some? ==> tri == Implied(s, Def(cfg, s), Ctx().Env())
      decreases |cfg.graph.Keys - valid|, 4
    {
      hide Ok, Above, DirDep;
      var e := Def(cfg, s).implied;
      tri := NO;
      if e.Some? && dir != NO {
        AboveFewer(rank, busy, Reads(Def(cfg, s)), OptSyms(e));
        tri := CalcExpr(e.value);
      }
      tri := Promote(tri, s, cfg.mods);
    }

    // The loop over all prompts in sym_calc_visibility.
    method PromptsVisible(s: Sym) returns (tri: Tri)
      requires Ok() && Above(rank, busy, Reads(Def(cfg, s)))
      modifies this`valid, this`states, this`busy
      ensures Ok() && busy == old(busy) && Grown(cfg.graph.Keys, old(valid), old(states), valid, states, {})
      ensures rank.Some? ==> tri == PromptsOr(Def(cfg, s).props, Ctx().Env())
      decreases |cfg.graph.Keys - valid|, 3
    {
      hide Ok, Above, Grown, PromptsOr, PropsReads;
      GrownRefl(cfg.graph.Keys, valid, states);
      var props := Def(cfg, s).props;
      tri := NO;
      if rank.Some? { NoPrompts(Ctx().Env()); }
      var i := 0;
      while i < |props|
        invariant 0 <= i <= |props|
        invariant Ok() && busy == old(busy) && Grown(cfg.graph.Keys, old(valid), old(states), valid, states, {})
        invariant rank.Some? ==> tri == PromptsOr(props[..i], Ctx().Env())
      {
        if rank.Some? { PromptsOrStep(props, i, Ctx().Env()); }
        if props[i].hasText {
          PropsReadsSplit(props, i);
          AboveFewer(rank, busy, Reads(Def(cfg, s)), OptSyms(props[i].cond));
          ghost var v, st := valid, states;
          var t := CalcExprOpt(props[i].cond, YES);
          GrownTrans(cfg.graph.Keys, old(valid), old(states), v, st, valid, states, {});
          tri := Max(tri, t);
        }
        i := i + 1;
      }
      assert props[..i] == props;
    }

    // sym_get_default_prop; also returns the value of the condition (prop->visible.tri).
    method GetDefaultProp(s: Sym) returns (p: Option<Prop>, cond: Tri)
      requires Ok() && Above(rank, busy, Reads(Def(cfg, s)))
      modifies this`valid, this`states, this`busy
      ensures Ok() && busy == old(busy) && Grown(cfg.graph.Keys, old(valid), old(states), valid, states, {})
      ensures p.Some? ==> OptSyms(p.value.expr) <= Reads(Def(cfg, s))
      ensures rank.Some? ==> p == FirstDefault(Def(cfg, s).props, Ctx().Env())
      ensures rank.Some? && p.Some? ==> cond == EvalOpt(p.value.cond, Ctx().Env())
      decreases |cfg.graph.Keys - valid|, 3
    {
      hide Ok, Above, Grown, FirstDefault, PropsReads, PropReads;
      GrownRefl(cfg.graph.Keys, valid, states);
      var props := Def(cfg, s).props;
      p, cond := None, NO;
      assert props[0..] == props;
      var i := 0;
      while i < |props|
        invariant 0 <= i <= |props|
        invariant Ok() && busy == old(busy) && Grown(cfg.graph.Keys, old(valid), old(states), valid, states, {})
        invariant rank.Some? ==> FirstDefault(props, Ctx().Env()) == FirstDefault(props[i..], Ctx().Env())
      {
        FirstDefaultStep(props, i, Ctx().Env());
        if props[i].kind.PDefault? {
          DefaultReads(Def(cfg, s), i);
          AboveFewer(rank, busy, Reads(Def(cfg, s)), OptSyms(props[i].cond));
          ghost var v, st := valid, states;
          cond := CalcExprOpt(props[i].cond, YES);
          GrownTrans(cfg.graph.Keys, old(valid), old(states), v, st, valid, states, {});
          if cond != NO {
            return Some(props[i]), cond;
          }
        }
        i := i + 1;
      }
      assert props[i..] == [];
      FirstDefaultNone(Ctx().Env());
    }

    // The value sym_calc_value takes from the first applicable default.
    method CalcDefaultTri(s: Sym) returns (t: Tri)
      requires Ok() && Above(rank, busy, Reads(Def(cfg, s)))
      modifies this`valid, this`states, this`busy
      ensures Ok() && busy == old(busy) && Grown(cfg.graph.Keys, old(valid), old(states), valid, states, {})
      ensures rank.Some? ==> t == DefaultTri(Def(cfg, s), Ctx().Env())
      decreases |cfg.graph.Keys - valid|, 4
    {
      hide Ok, Above;
      var p, cond := GetDefaultProp(s);
      t := NO;
      if p.Some? {
        AboveFewer(rank, busy, Reads(Def(cfg, s)), OptSyms(p.value.expr));
        t := CalcExprOpt(p.value.expr, YES);
        t := Min(t, cond);
      }
    }

    method CalcDefaultText(s: Sym) returns (found: bool, text: string)
      requires Ok() && Above(rank, busy, Reads(Def(cfg, s)))
      modifies this`valid, this`states, this`busy
      ensures Ok() && busy == old(busy) && Grown(cfg.graph.Keys, old(valid), old(states), valid, states, {})
      ensures rank.Some? ==> text == DefaultText(Def(cfg, s), Ctx().Env())
      ensures rank.Some? ==> var d := FirstDefault(Def(cfg, s).props, Ctx().Env());
        found <==> d.Some? && PropSymbol(d.value).Some?
      decreases |cfg.graph.Keys - valid|, 4
    {
      hide Ok, Above, FirstDefault, Reads, Def, Grown, ParseString;
      var p, cond := GetDefaultProp(s);
      found, text := false, "";
      if p.Some? && PropSymbol(p.value).Some? {
        var ds := PropSymbol(p.value).value;
        AboveFewer(rank, busy, Reads(Def(cfg, s)), {ds});
        ghost var v1, s1 := valid, states;
        CalcValue(ds);
        GrownTrans(cfg.graph.Keys, old(valid), old(states), v1, s1, valid, states, {});
        found, text := true, RawText(CurrEnv(cfg, states), ds);
        ReadBackSymbol(ds);
      }
    }

    lemma ReadBackSymbol(s: Sym)
      requires Ok() && Above(rank, busy, {s}) && (s in cfg.graph ==> s in valid)
      ensures rank.Some? ==> ValueOf(CurrEnv(cfg, states), s) == ValueOf(Ctx().Env(), s)
    {
      hide Coherent, Above, Solution, Ranked;
      CurrentSymbol(Ctx(), valid, states, busy, s);
    }

    // sym_calc_value.  It ends on every graph, because a symbol is marked valid before anything
    // it depends on is calculated.
    method CalcValue(s: Sym)
      requires Ok() && Above(rank, busy, {s})
      modifies this`valid, this`states, this`busy
      ensures Ok() && busy == old(busy) && Grown(cfg.graph.Keys, old(valid), old(states), valid, states, {})
      ensures s in cfg.graph ==> s in valid
      // what selects a symbol holds, whatever else there is
      ensures rank.Some? && s in cfg.graph && s !in busy ==> Selected(s)
      decreases |cfg.graph.Keys - valid|, 0, 1
    {
      hide Ok, Above, Final, Reads, Def, Grown, IsLogic, IsText, Selected;
      GrownRefl(cfg.graph.Keys, valid, states);
      if s !in cfg.graph || s in valid {
        SelectHolds(s);
        return;
      }
      ghost var st;
      if IsLogic(s) || IsText(s) {
        st := CalcNew(s);
      } else {
        st := CLEAR.(curr := Undefined(s));
        Begin(s, CLEAR.(curr := Undefined(s)));
        FinalOfUnknown(s, Def(cfg, s), user, Ctx().Env());
        GrownExcept(cfg.graph.Keys, valid, states, {s});
      }
      GrownNew(cfg.graph.Keys, old(valid), old(states), valid, states, s, st);
      Finish(s);
      SelectHolds(s);
    }

    // The value of s is at least what its selects give it.
    ghost predicate Selected(s: Sym)
      requires s in cfg.graph
      reads this
    {
      IsLogic(s) && cfg.graph[s].revDep.Some? ==>
        s in states && states[s].curr.tri >= Eval(cfg.graph[s].revDep.value, Ctx().Env())
    }

    lemma SelectHolds(s: Sym)
      requires Ok()
      ensures rank.Some? && s in cfg.graph && s in valid - busy ==> Selected(s)
    {
      hide Ranked, LogicValue;
      if rank.Some? && s in cfg.graph && s in valid - busy && IsLogic(s) && cfg.graph[s].revDep.Some? {
        assert Ctx().Cached(s, states[s]);
        SelectForces(s, cfg.graph[s], user, Ctx().Env());
      }
    }

    // A symbol of known type that has not been calculated yet.
    method CalcNew(s: Sym) returns (ghost st: SymState)
      requires Ok() && Above(rank, busy, {s}) && s in cfg.graph && s !in valid && (IsLogic(s) || IsText(s))
      modifies this`valid, this`states, this`busy
      ensures Ok() && busy == old(busy) + {s} && s !in old(busy)
      ensures Grown(cfg.graph.Keys, old(valid) + {s}, old(states)[s := st], valid, states, {s})
      ensures s in states && (rank.Some? ==> states[s] == Final(s, Def(cfg, s), user, Ctx().Env()))
      decreases |cfg.graph.Keys - valid|, 0, 0
    {
      hide Ok, Above, Final, Reads, Def, Grown, IsLogic, IsText;
      st := states[s].(write := false);
      Begin(s, states[s].(write := false));
      CalcKnown(s);
    }

    // sym->flags |= SYMBOL_VALID, and a first store.
    method Begin(s: Sym, st: SymState)
      requires Ok() && Above(rank, busy, {s}) && s in cfg.graph && s !in valid
      modifies this`valid, this`states, this`busy
      ensures Ok() && valid == old(valid) + {s} && busy == old(busy) + {s} && states == old(states)[s := st]
      ensures Above(rank, busy, Reads(Def(cfg, s)))
      ensures |cfg.graph.Keys - valid| < |cfg.graph.Keys - old(valid)|
    {
      hide Coherent, Above, Context.Grounded, Context.Cached, Reads, Def;
      OneFewerLeft(cfg.graph.Keys, valid, s);
      BeginCoherent(Ctx(), valid, states, busy, s, st);
      ReadsBelow(Ctx(), busy, s);
      valid := valid + {s};
      busy := busy + {s};
      states := states[s := st];
    }

    // Stores into a symbol that is being calculated.
    method Store(s: Sym, st: SymState)
      requires Ok() && s in busy
      modifies this`states
      ensures Ok() && states == old(states)[s := st]
    {
      hide Coherent, Context.Grounded, Context.Cached;
      StoreCoherent(Ctx(), valid, states, busy, s, st);
      states := states[s := st];
    }

    // The calculation of s is complete.
    ghost method Finish(s: Sym)
      requires Ok() && s in busy && s !in emitted
      requires rank.Some? ==> states[s] == Final(s, Def(cfg, s), user, Ctx().Env())
      modifies this`busy
      ensures Ok() && busy == old(busy) - {s}
    {
      hide Coherent, Ranked, Final, Solution;
      FinalIsPlain(s);
      FinishCoherent(Ctx(), valid, states, busy, s);
      busy := busy - {s};
    }

    lemma FinalIsPlain(s: Sym)
      requires rank.Some? ==> Solution(cfg, user, plain)
      requires s in cfg.graph
      ensures rank.Some? ==> s in plain && Final(s, Def(cfg, s), user, Ctx().Env()).curr == plain[s]
    {
      hide Calc;
      CalcOfUnknown(s, Def(cfg, s), user, Ctx().Env());
    }

    // The rest of sym_calc_value for a symbol of known type.
    method CalcKnown(s: Sym)
      requires Ok() && s in busy && Above(rank, busy, Reads(Def(cfg, s)))
      requires IsLogic(s) || IsText(s)
      modifies this`valid, this`states, this`busy
      ensures Ok() && busy == old(busy) && Grown(cfg.graph.Keys, old(valid), old(states), valid, states, {s})
      ensures rank.Some? ==> states[s] == Final(s, Def(cfg, s), user, Ctx().Env())
      decreases |cfg.graph.Keys - valid|, 7
    {
      hide Ok, Above, Final, Grown, Reads, Def, VisibilityFinal, IsText;
      CalcVisibility(s);
      var st := states[s];
      ghost var v1, s1 := valid, states;
      Store(s, st.(write := st.visible != NO, curr := Value(NO, if IsLogic(s) then "n" else "")));
      if rank.Some? { VisibilityKept(s, Def(cfg, s), st, states[s], Ctx().Env()); }
      GrownStored(cfg.graph.Keys, old(valid), old(states), v1, s1, s, states[s]);
      ghost var v2, s2 := valid, states;
      if IsLogic(s) {
        CalcLogic(s);
      } else {
        CalcText(s);
      }
      GrownTrans(cfg.graph.Keys, old(valid), old(states), v2, s2, valid, states, {s});
    }

    // The tristate part of sym_calc_value, after the visibility has been calculated.
    method CalcLogic(s: Sym)
      requires Ok() && s in busy && Above(rank, busy, Reads(Def(cfg, s)))
      requires IsLogic(s) && states[s].write == (states[s].visible != NO)
      requires rank.Some? ==> VisibilityFinal(s, Def(cfg, s), states[s], Ctx().Env())
      modifies this`valid, this`states, this`busy
      ensures Ok() && busy == old(busy) && Grown(cfg.graph.Keys, old(valid), old(states), valid, states, {s})
      ensures rank.Some? ==> states[s] == Final(s, Def(cfg, s), user, Ctx().Env())
      decreases |cfg.graph.Keys - valid|, 5
    {
      hide Ok, Above, Visible, DirDep, RevDep, Implied, DefaultTri, Grown, VisibilityFinal, Final;
      var st := states[s];
      var tri, write := NO, st.visible != NO;
      ghost var d := NO;
      GrownRefl(cfg.graph.Keys, valid, states);
      if st.visible != NO && s in user {
        tri := Min(user[s].tri, st.visible);
      } else {
        tri := CalcDefaultTri(s);
        d := tri;
        GrownKeeps(cfg.graph.Keys, old(valid), old(states), valid, states, s);
        write := write || st.revDep != NO || tri != NO || st.implied != NO;
        tri := Max(tri, st.implied);
      }
      tri := Max(tri, st.revDep);
      if tri == MOD && (EffectiveType(s, cfg.mods).TBoolean? || st.implied == YES) {
        tri := YES;
      }
      if rank.Some? { LogicFinal(s, Def(cfg, s), user, Ctx().Env(), st, d); }
      ghost var v1, s1 := valid, states;
      Store(s, st.(curr := Value(tri, "n"), write := write));
      GrownLess(cfg.graph.Keys, old(valid), old(states), v1, s1, {s});
      GrownStored(cfg.graph.Keys, old(valid), old(states), v1, s1, s, states[s]);
    }

    // The S_STRING, S_HEX and S_INT part of sym_calc_value.
    method CalcText(s: Sym)
      requires Ok() && s in busy && Above(rank, busy, Reads(Def(cfg, s)))
      requires IsText(s) && states[s].write == (states[s].visible != NO)
      requires rank.Some? ==> VisibilityFinal(s, Def(cfg, s), states[s], Ctx().Env())
      modifies this`valid, this`states, this`busy
      ensures Ok() && busy == old(busy) && Grown(cfg.graph.Keys, old(valid), old(states), valid, states, {s})
      ensures rank.Some? ==> states[s] == Final(s, Def(cfg, s), user, Ctx().Env())
      decreases |cfg.graph.Keys - valid|, 5
    {
      hide Ok, Above, Visible, DirDep, RevDep, Implied, DefaultText;
      var st := states[s];
      var text, write := "", st.visible != NO;
      if st.visible != NO && s in user {
        text := user[s].str;
      } else {
        var found;
        found, text := CalcDefaultText(s);
        write := write || found;
      }
      Store(s, st.(curr := Value(NO, text), write := write));
    }

    // sym_clear_all_valid
    method ClearAllValid()
      requires Shaped() && Ctx().Grounded() && busy == {}
      modifies this`valid, this`states, this`busy, this`emitted
      ensures Ok() && busy == {} && emitted == {}
      ensures modulesSym.Some? && modulesSym.value in cfg.graph ==> modulesSym.value in valid
    {
      hide Solution, Ranked, Final, Above;
      valid := {};
      emitted := {};
      if modulesSym.Some? {
        NothingBusy(rank, {modulesSym.value});
        CalcValue(modulesSym.value);
      }
    }

    // What conf_read_simple and conf_read do to the symbols: all user values are replaced,
    // nothing is valid any more.
    method Load(u: User)
      requires Shaped() && Ctx().Grounded() && busy == {}
      modifies this
      ensures Ok() && busy == {} && emitted == {} && user == u
      ensures rank.Some? ==>
        Ranked(cfg, rank.value) && plain == PlainValues(cfg, u, rank.value) && Solution(cfg, u, plain)
    {
      hide Solution, Ranked, Final, Above;
      user := u;
      plain := if rank.Some? then PlainValues(cfg, u, rank.value) else plain;
      if rank.Some? { PlainIsSolution(cfg, u, rank.value); }
      ClearAllValid();
    }

    // sym_tristate_within_range
    method TristateWithinRange(s: Sym, val: Tri) returns (ok: bool)
      requires Ok() && s in valid
      ensures ok <==> WithinRange(s, cfg.mods, states[s], val)
    {
      hide Ok;
      var typ := EffectiveType(s, cfg.mods);
      var st := states[s];
      if st.visible == NO {
        return false;
      }
      if typ != TBoolean && typ != TTristate {
        return false;
      }
      if typ == TBoolean && val == MOD {
        return false;
      }
      if st.visible <= st.revDep {
        return false;
      }
      if st.implied == YES && val == MOD {
        return false;
      }
      return st.revDep <= val && val <= st.visible;
    }

    // MODULES is neither s nor calculated from s.
    ghost predicate SparesModules(s: Sym)
    {
      && modulesSym != Some(s)
      && (rank.Some? && Ranked(cfg, rank.value) && modulesSym.Some? && modulesSym.value in cfg.graph ==>
            !DependsOn(cfg, rank.value, modulesSym.value, s))
    }

    // MODULES has the value it had, so that modules_val is what it was.
    ghost predicate ModulesKept(before: Values, after: Values)
    {
      rank.Some? && modulesSym.Some? && modulesSym.value in cfg.graph ==>
        var m := modulesSym.value; m in before && m in after && before[m] == after[m]
    }

    // sym_set_tristate_value of a symbol outside choices that has been calculated.  If MODULES is
    // not kept, the program goes on with another modules_val: another Config.
    method SetTristateValue(s: Sym, val: Tri) returns (ok: bool)
      requires Ok() && busy == {} && s in valid && IsLogic(s)
      modifies this
      ensures ok <==> old(states[s].curr.tri) == val || WithinRange(s, cfg.mods, old(states[s]), val)
      ensures !ok ==> Ok() && user == old(user) && plain == old(plain) && states == old(states) && valid == old(valid)
      // what is refused is neither the value of s nor one that s would get
      ensures !ok && rank.Some? ==>
        s in plain && plain[s].tri != val && forall str :: !Obeyed(s, cfg.graph[s], user, Value(val, str), Ctx().Env())
      ensures ok ==> s in user && user[s].tri == val && user - {s} == old(user) - {s}
      ensures busy == {}
      // an accepted change leaves a coherent cache, and the new definition gives s that value
      // and leaves everything that does not depend on s alone
      ensures ok && old(states[s].curr.tri) != val && ModulesKept(old(plain), plain) ==> Ok()
      ensures ok && rank.Some? && WithinRange(s, cfg.mods, old(states[s]), val) && ModulesKept(old(plain), plain) ==>
        && Ranked(cfg, rank.value) && s in plain && plain[s].tri == val
        && forall t <- cfg.graph :: !DependsOn(cfg, rank.value, t, s) ==>
             t in plain && t in old(plain) && plain[t] == old(plain[t])
      // in particular after setting a symbol that MODULES is not calculated from
      ensures ok && rank.Some? && WithinRange(s, cfg.mods, old(states[s]), val) && SparesModules(s) ==>
        ModulesKept(old(plain), plain)
      // storing the value the symbol already has keeps the cache coherent in the cases that
      // SettingSameValue lists
      ensures ok && KeepsValue(old(states[s]), val) ==> Ok()
    {
      hide Coherent, Ranked, Solution, WithinRange, DependsOn, KeepsValue, Above;
      var oldval := states[s].curr.tri;
      if oldval != val {
        var inRange := TristateWithinRange(s, val);
        if !inRange {
          NotObeyed(s, val);
          return false;
        }
      }
      var v := Value(val, if s in user then user[s].str else "");
      UserUpdate(user, s, v);
      SettingPlan(s, v);
      user := user[s := v];
      plain := if rank.Some? then PlainValues(cfg, user, rank.value) else plain;
      if oldval != val {
        ClearAllValid();
      }
      return true;
    }

    lemma NotObeyed(s: Sym, val: Tri)
      requires Ok() && busy == {} && s in valid && IsLogic(s) && states[s].curr.tri != val
      requires !WithinRange(s, cfg.mods, states[s], val)
      ensures rank.Some? ==>
        s in plain && plain[s].tri != val && forall str :: !Obeyed(s, cfg.graph[s], user, Value(val, str), Ctx().Env())
    {
      hide Ok, Ranked, Solution, Final, Obeyed, Context.Grounded, Coherent;
      Calculated(s);
      if rank.Some? {
        var f := Final(s, cfg.graph[s], user, Ctx().Env());
        assert states[s] == f.(write := states[s].write) && Ctx().Env() == EnvOf(cfg, plain);
        RangeIgnoresWrite(s, cfg.mods, f, states[s].write, val);
        forall str
          ensures !Obeyed(s, cfg.graph[s], user, Value(val, str), Ctx().Env())
        {
          InRangeExactly(s, cfg.graph[s], user, Value(val, str), Ctx().Env());
        }
      }
    }

    lemma RangeIgnoresWrite(s: Sym, mods: Tri, st: SymState, write: bool, val: Tri)
      ensures WithinRange(s, mods, st.(write := write), val) == WithinRange(s, mods, st, val)
    {
    }

    // sym->flags &= ~SYMBOL_WRITE
    method ClearWrite(s: Sym)
      requires Ok() && busy == {} && s in valid
      modifies this`states, this`emitted
      ensures Ok() && emitted == old(emitted) + {s} && states == old(states)[s := old(states)[s].(write := false)]
    {
      hide Final, Ranked, Solution;
      states := states[s := states[s].(write := false)];
      emitted := emitted + {s};
    }

    lemma PlainKeys()
      requires Ok()
      ensures rank.Some? ==> plain.Keys == cfg.graph.Keys
    {
      hide Ranked, Coherent;
    }

    // What has been calculated for s, once it is valid.
    lemma Calculated(s: Sym)
      requires Ok() && busy == {} && s in valid
      ensures rank.Some? ==> s in plain && plain.Keys == cfg.graph.Keys && Solution(cfg, user, plain)
      ensures rank.Some? ==> var f := Final(s, cfg.graph[s], user, EnvOf(cfg, plain));
        states[s] == f.(write := f.write && s !in emitted) && states[s].curr == plain[s]
    {
      hide Final, Ranked, Calc;
      assert rank.Some? ==> Ctx().Cached(s, states[s]);
    }

    // sym_get_string_default of a symbol that has been calculated
    method GetStringDefault(s: Sym) returns (str: string)
      requires Ok() && busy == {} && s in valid && (IsLogic(s) || IsText(s))
      modifies this`valid, this`states, this`busy
      ensures Ok() && busy == {} && Grown(cfg.graph.Keys, old(valid), old(states), valid, states, {s})
      ensures rank.Some? ==> states[s] == old(states[s])
      ensures rank.Some? ==> str == StringDefault(s, Def(cfg, s), Ctx().Env())
      // that is the value s gets in the whole graph without its user value
      ensures rank.Some? ==> forall after | Solution(cfg, user - {s}, after) ::
        s in after && str == ValueText(s, after[s], cfg.mods)
    {
      hide Ok, Above, StringDefault, Reads, Def, Solution, ValueText, Grown, IsLogic, IsText;
      OkShaped();
      DefaultDropped(s);
      RefreshVisibility(s);
      ghost var v1, s1 := valid, states;
      GrownValid(cfg.graph.Keys, old(valid), old(states), v1, s1, {s});
      str := DefaultNow(s);
      GrownKeeps(cfg.graph.Keys, v1, s1, valid, states, s);
      GrownLess(cfg.graph.Keys, v1, s1, valid, states, {s});
      GrownTrans(cfg.graph.Keys, old(valid), old(states), v1, s1, valid, states, {s});
    }

    method DefaultNow(s: Sym) returns (str: string)
      requires Ok() && busy == {} && s in valid && (IsLogic(s) || IsText(s))
      modifies this`valid, this`states, this`busy
      ensures Ok() && busy == {} && Grown(cfg.graph.Keys, old(valid), old(states), valid, states, {})
      ensures rank.Some? ==> str == StringDefault(s, Def(cfg, s), Ctx().Env())
    {
      hide Ok, Above, DefaultLogic, DefaultText, Reads, Def, Grown;
      if IsLogic(s) {
        var val := DefaultLogicNow(s);
        str := TriText(val, YES);
      } else {
        var found;
        NothingBusy(rank, Reads(Def(cfg, s)));
        found, str := CalcDefaultText(s);
      }
    }

    lemma OkShaped()
      requires Ok()
      ensures Shaped()
    {
    }

    lemma DefaultDropped(s: Sym)
      requires Ok() && busy == {} && s in valid && (IsLogic(s) || IsText(s))
      ensures rank.Some? ==> forall after | Solution(cfg, user - {s}, after) ::
        s in after && StringDefault(s, Def(cfg, s), Ctx().Env()) == ValueText(s, after[s], cfg.mods)
    {
      if rank.Some? {
        hide Solution, Ranked, StringDefault, ValueText;
        CachedState(s);
        forall after | Solution(cfg, user - {s}, after)
          ensures s in after && StringDefault(s, Def(cfg, s), Ctx().Env()) == ValueText(s, after[s], cfg.mods)
        {
          SolutionKeys(cfg, user - {s}, after);
          DefaultIsValueAfterDropping(cfg, rank.value, user, plain, s, after);
        }
      }
    }

    // sym_calc_visibility(sym); sym_calc_value(modules_sym);
    method RefreshVisibility(s: Sym)
      requires Ok() && busy == {} && s in valid && (IsLogic(s) || IsText(s))
      modifies this`valid, this`states, this`busy
      ensures Ok() && busy == {} && Grown(cfg.graph.Keys, old(valid), old(states), valid, states, {s})
      ensures rank.Some? ==> states[s] == old(states[s])
    {
      hide Ok, Above, Visible, DirDep, RevDep, Implied, Reads, Def, Grown;
      OkShaped();
      NothingBusy(rank, Reads(Def(cfg, s)));
      var a, b, c, d := VisibilityNow(s);
      ghost var v1, s1 := valid, states;
      GrownKeeps(cfg.graph.Keys, old(valid), old(states), v1, s1, s);
      Revisit(s, a, b, c, d);
      GrownLess(cfg.graph.Keys, old(valid), old(states), v1, s1, {s});
      GrownStored(cfg.graph.Keys, old(valid), old(states), v1, s1, s, states[s]);
      ghost var v2, s2 := valid, states;
      GrownRefl(cfg.graph.Keys, valid, states);
      if modulesSym.Some? {
        NothingBusy(rank, {modulesSym.value});
        CalcValue(modulesSym.value);
      }
      GrownKeeps(cfg.graph.Keys, v2, s2, valid, states, s);
      GrownLess(cfg.graph.Keys, v2, s2, valid, states, {s});
      GrownTrans(cfg.graph.Keys, old(valid), old(states), v2, s2, valid, states, {s});
    }

    method DefaultLogicNow(s: Sym) returns (val: Tri)
      requires Ok() && busy == {} && s in valid && IsLogic(s)
      modifies this`valid, this`states, this`busy
      ensures Ok() && busy == {} && Grown(cfg.graph.Keys, old(valid), old(states), valid, states, {})
      ensures rank.Some? ==> val == DefaultLogic(s, Def(cfg, s), Ctx().Env())
    {
      hide Ok, Above, Visible, DirDep, RevDep, Implied, DefaultTri, Reads, Def;
      CachedVisibility(s);
      var st := states[s];
      NothingBusy(rank, Reads(Def(cfg, s)));
      val := CalcDefaultTri(s);
      // select
      val := Max(val, st.revDep);
      val := if val == MOD && cfg.mods == NO then YES else val;
      val := if TypeOf(s).TBoolean? && val == MOD then YES else val;
      // imply
      val := Max(val, st.implied);
    }

    // Stores the results of sym_calc_visibility in a symbol that is valid already.
    method Revisit(s: Sym, a: Tri, b: Tri, c: Tri, d: Tri)
      requires Ok() && busy == {} && s in valid && (IsLogic(s) || IsText(s))
      requires rank.Some? ==> var def, env := Def(cfg, s), Ctx().Env();
        a == Visible(s, def, env) && b == DirDep(s, def, env) && c == RevDep(s, def, env) && d == Implied(s, def, env)
      modifies this`states
      ensures Ok() && states == old(states)[s := old(states)[s].(visible := a, dirDep := b, revDep := c, implied := d)]
      ensures rank.Some? ==> states == old(states)
    {
      hide Visible, DirDep, RevDep, Implied, Ranked, Solution, Final;
      CachedVisibility(s);
      var st := states[s].(visible := a, dirDep := b, revDep := c, implied := d);
      SameEntry(states, s, st);
      states := states[s := st];
    }

    lemma CachedVisibility(s: Sym)
      requires Ok() && busy == {} && s in valid && (IsLogic(s) || IsText(s))
      ensures rank.Some? ==> VisibilityFinal(s, Def(cfg, s), states[s], Ctx().Env())
    {
      hide Ranked, Solution, Visible, DirDep, RevDep, Implied, Calc, Written;
      assert rank.Some? ==> Ctx().Cached(s, states[s]);
    }

    // What storing the user value v for s does to the plain definition.
    lemma {:induction false} SettingPlan(s: Sym, v: Value)
      requires Ok() && busy == {} && s in valid && IsLogic(s) && v.str == (if s in user then user[s].str else "")
      ensures rank.Some? ==> Ranked(cfg, rank.value)
      ensures rank.Some? ==> var after := PlainValues(cfg, user[s := v], rank.value);
        && Solution(cfg, user[s := v], after)
        && (WithinRange(s, cfg.mods, states[s], v.tri) ==>
             && s in after && after[s].tri == v.tri
             && forall t <- cfg.graph :: !DependsOn(cfg, rank.value, t, s) ==>
                  t in after && t in plain && after[t] == plain[t])
        && (KeepsValue(states[s], v.tri) && states[s].curr.tri == v.tri ==>
             Coherent(Ctx().(user := user[s := v], plain := after), valid, states, busy))
      ensures rank.None? ==> Coherent(Ctx().(user := user[s := v]), valid, states, busy)
    {
      if rank.Some? {
        hide Ranked, Solution, KeepsValue, DependsOn, Coherent, Final;
        var after := PlainValues(cfg, user[s := v], rank.value);
        CachedState(s);
        PlainIsSolution(cfg, user[s := v], rank.value);
        if WithinRange(s, cfg.mods, states[s], v.tri) {
          SettingTakesEffect(cfg, rank.value, user, plain, s, v, after);
          SolutionKeys(cfg, user, plain);
          SolutionKeys(cfg, user[s := v], after);
        }
        if KeepsValue(states[s], v.tri) && states[s].curr.tri == v.tri {
          SettingKeepsCache(s, v);
        }
      }
    }

    lemma CachedState(s: Sym)
      requires Ok() && busy == {} && s in valid
      ensures rank.Some? ==> Ranked(cfg, rank.value) && Solution(cfg, user, plain)
      ensures rank.Some? ==> Ctx().Cached(s, states[s])
      ensures rank.Some? ==> states[s] == Final(s, cfg.graph[s], user, EnvOf(cfg, plain)).(write := states[s].write)
    {
      hide Final, Ranked, Solution;
    }

    lemma SettingKeepsCache(s: Sym, v: Value)
      requires Ok() && busy == {} && s in valid && IsLogic(s) && rank.Some?
      requires Ranked(cfg, rank.value)
      requires KeepsValue(states[s], v.tri) && states[s].curr.tri == v.tri
      ensures Coherent(Ctx().(user := user[s := v], plain := PlainValues(cfg, user[s := v], rank.value)),
                       valid, states, busy)
    {
      hide Ranked, Coherent, Visible, RevDep, Implied, DirDep, Written, LogicValue;
      CachedState(s);
      var env := EnvOf(cfg, plain);
      SolutionAt(cfg, user, plain, s);
      SettingSameValue(s, cfg.graph[s], user, v, env);
      HarmlessUserValue(cfg, user, plain, s, v);
      SolutionUnique(cfg, user[s := v], plain, rank.value);
      CoherentForUser(Ctx(), valid, states, busy, user[s := v]);
    }

    // The value st.curr.tri, when equal to val, would also come out with val as user value.
    static ghost predicate KeepsValue(st: SymState, val: Tri) {
      st.visible == NO || val <= st.visible || val == st.revDep || st.implied == YES
    }
  }

  lemma CoherentForUser(c: Context, valid: set<Sym>, states: States, busy: set<Sym>, user: User)
    requires Coherent(c, valid, states, busy) && valid <= c.cfg.graph.Keys
    requires forall t <- c.cfg.graph ::
      Final(t, c.cfg.graph[t], user, c.Env()) == Final(t, c.cfg.graph[t], c.user, c.Env())
    ensures Coherent(c.(user := user), valid, states, busy)
  {
    hide Final;
  }

  lemma SolutionKeys(cfg: Config, user: User, vals: Values)
    requires Solution(cfg, user, vals)
    ensures vals.Keys == cfg.graph.Keys
  {
  }

  lemma SolutionAt(cfg: Config, user: User, vals: Values, s: Sym)
    requires Solution(cfg, user, vals) && s in cfg.graph
    ensures s in vals && vals[s] == Calc(s, cfg.graph[s], user, EnvOf(cfg, vals))
  {
  }

  lemma SameEntry(states: States, s: Sym, st: SymState)
    requires s in states
    ensures states[s] == st ==> states[s := st] == states
  {
  }

  lemma NothingBusy(rank: Option<Rank>, syms: set<Sym>)
    ensures Above(rank, {}, syms)
  {
  }

  lemma {:induction false} NoPrompts(env: Env)
    ensures PromptsOr([], env) == NO
  {
  }

  lemma FinalOfUnknown(s: Sym, def: SymDef, user: User, env: Env)
    requires !IsLogic(s) && !IsText(s)
    ensures Final(s, def, user, env) == CLEAR.(curr := Undefined(s))
  {
  }

  lemma CalcOfUnknown(s: Sym, def: SymDef, user: User, env: Env)
    ensures !IsLogic(s) && !IsText(s) ==> Calc(s, def, user, env) == Undefined(s)
  {
  }
}
