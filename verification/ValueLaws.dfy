// What prompts, defaults, selects and implies do to the value of a symbol (sym_calc_visibility and
// sym_calc_value in symbol.c), said on the expressions themselves.
module ValueLaws {
  import opened Wrappers
  import opened Expr
  import opened Symbols

  // Some prompt is visible at level t or above.
  ghost predicate Prompted(props: seq<Prop>, env: Env, t: Tri) {
    exists p <- props :: p.hasText && EvalOpt(p.cond, env) >= t
  }

  // The property at i is a default whose condition is met ...
  predicate Met(props: seq<Prop>, env: Env, i: int) {
    0 <= i < |props| && props[i].kind.PDefault? && EvalOpt(props[i].cond, env) != NO
  }

  // ... and no default in front of it is.
  ghost predicate FirstMet(props: seq<Prop>, env: Env, i: int) {
    Met(props, env, i) && forall j | 0 <= j < i :: !Met(props, env, j)
  }

  // The default that counts gives t or more.
  ghost predicate DefaultGives(props: seq<Prop>, env: Env, t: Tri) {
    exists i :: FirstMet(props, env, i) && EvalOpt(props[i].expr, env) >= t && EvalOpt(props[i].cond, env) >= t
  }

  // The selects of the symbol, and its implies if its dependencies are met, give t or more.
  predicate SelectGives(def: SymDef, env: Env, t: Tri) {
    def.revDep.Some? && Eval(def.revDep.value, env) >= t
  }

  predicate ImplyGives(def: SymDef, env: Env, t: Tri) {
    def.implied.Some? && EvalOpt(def.dirDep, env) != NO && Eval(def.implied.value, env) >= t
  }

  // The user has a say: there is a value, and a prompt is visible.
  ghost predicate UserDecides(s: Sym, def: SymDef, user: User, env: Env) {
    s in user && Prompted(def.props, env, MOD)
  }

  predicate TwoValued(s: Sym, env: Env) {
    TypeOf(s).TBoolean? || (TypeOf(s).TTristate? && env.mods == NO)
  }

  // ----- the parts -----

  lemma {:induction false} PromptsExactly(props: seq<Prop>, env: Env, t: Tri)
    requires t != NO
    ensures PromptsOr(props, env) >= t <==> Prompted(props, env, t)
  {
    if props != [] {
      var rest, p := props[..|props| - 1], props[|props| - 1];
      PromptsExactly(rest, env, t);
      assert props == rest + [p];
    }
  }

  lemma {:induction false} FirstDefaultExactly(props: seq<Prop>, env: Env)
    ensures forall i | FirstMet(props, env, i) :: FirstDefault(props, env) == Some(props[i])
    ensures FirstDefault(props, env).Some? ==> exists i :: FirstMet(props, env, i)
  {
    if props != [] {
      var tail := props[1..];
      forall i
        ensures Met(tail, env, i) <==> 0 <= i && Met(props, env, i + 1)
      {
      }
      FirstDefaultExactly(tail, env);
      if Met(props, env, 0) {
        assert FirstMet(props, env, 0);
      } else {
        LaterMet(props, env);
      }
    }
  }

  lemma LaterMet(props: seq<Prop>, env: Env)
    requires props != [] && !Met(props, env, 0)
    ensures forall i | FirstMet(props, env, i) :: 0 < i && FirstMet(props[1..], env, i - 1)
    ensures forall i | FirstMet(props[1..], env, i) :: FirstMet(props, env, i + 1)
  {
    var tail := props[1..];
    forall i | FirstMet(props, env, i)
      ensures 0 < i && FirstMet(tail, env, i - 1)
    {
      forall j | 0 <= j < i - 1
        ensures !Met(tail, env, j)
      {
        assert !Met(props, env, j + 1);
      }
    }
    forall i | FirstMet(tail, env, i)
      ensures FirstMet(props, env, i + 1)
    {
      forall j | 0 <= j < i + 1
        ensures !Met(props, env, j)
      {
        if j > 0 { assert !Met(tail, env, j - 1); }
      }
    }
  }

  lemma DefaultExactly(def: SymDef, env: Env, t: Tri)
    requires t != NO
    ensures DefaultTri(def, env) >= t <==> DefaultGives(def.props, env, t)
  {
    FirstDefaultExactly(def.props, env);
    if i :| FirstMet(def.props, env, i) {
      forall j | FirstMet(def.props, env, j)
        ensures def.props[j] == def.props[i]
      {
      }
      assert DefaultTri(def, env) == Min(EvalOpt(def.props[i].expr, env), EvalOpt(def.props[i].cond, env));
    }
  }

  // Visibility, reverse and implied dependency of a symbol with two values are never m.
  lemma PartsExactly(s: Sym, def: SymDef, env: Env)
    ensures Visible(s, def, env) != NO <==> Prompted(def.props, env, MOD)
    ensures Visible(s, def, env) == YES
      <==> Prompted(def.props, env, if TypeOf(s).TTristate? && env.mods != NO then YES else MOD)
    ensures RevDep(s, def, env) != NO <==> SelectGives(def, env, MOD)
    ensures RevDep(s, def, env) == YES <==> SelectGives(def, env, if TwoValued(s, env) then MOD else YES)
    ensures Implied(s, def, env) != NO <==> ImplyGives(def, env, MOD)
    ensures Implied(s, def, env) == YES <==> ImplyGives(def, env, if TwoValued(s, env) then MOD else YES)
    ensures DirDep(s, def, env) != NO <==> EvalOpt(def.dirDep, env) != NO
    ensures DirDep(s, def, env) == YES <==> EvalOpt(def.dirDep, env) >= if TwoValued(s, env) then MOD else YES
  {
    hide PromptsOr, Prompted;
    PromptsExactly(def.props, env, MOD);
    PromptsExactly(def.props, env, YES);
  }

  // ----- the value -----

  // The symbol is not n: something selects it, or the user wants it, or without a say of the user
  // a default or an imply.
  ghost predicate On(s: Sym, def: SymDef, user: User, env: Env) {
    || SelectGives(def, env, MOD)
    || if UserDecides(s, def, user, env) then user[s].tri != NO
       else DefaultGives(def.props, env, MOD) || ImplyGives(def, env, MOD)
  }

  // The symbol is y rather than m.
  ghost predicate Full(s: Sym, def: SymDef, user: User, env: Env) {
    || TwoValued(s, env) || SelectGives(def, env, YES) || ImplyGives(def, env, YES)
    || if UserDecides(s, def, user, env) then user[s].tri == YES && Prompted(def.props, env, YES)
       else DefaultGives(def.props, env, YES)
  }

  // That is all there is to the value of a bool or tristate.
  lemma ValueExactly(s: Sym, def: SymDef, user: User, env: Env)
    requires IsLogic(s)
    ensures LogicValue(s, def, user, env) != NO <==> On(s, def, user, env)
    ensures LogicValue(s, def, user, env) == YES <==> On(s, def, user, env) && Full(s, def, user, env)
  {
    hide DefaultTri, DefaultGives, Prompted, SelectGives, ImplyGives, Visible, RevDep, Implied, DirDep;
    PartsExactly(s, def, env);
    DefaultExactly(def, env, MOD);
    DefaultExactly(def, env, YES);
  }

  // A select holds whatever the dependencies, the prompts and the user say.
  lemma SelectForces(s: Sym, def: SymDef, user: User, env: Env)
    requires IsLogic(s) && def.revDep.Some?
    ensures LogicValue(s, def, user, env) >= Eval(def.revDep.value, env)
  {
    hide Visible, DirDep, Implied, DefaultTri;
  }

  // An imply holds for a symbol the user leaves alone and whose dependencies are met; otherwise it
  // adds nothing to its value.
  lemma ImplyHolds(s: Sym, def: SymDef, user: User, env: Env)
    requires IsLogic(s) && def.implied.Some?
    ensures EvalOpt(def.dirDep, env) != NO && s !in user ==>
      LogicValue(s, def, user, env) >= Eval(def.implied.value, env)
    ensures EvalOpt(def.dirDep, env) == NO ==>
      LogicValue(s, def, user, env) == LogicValue(s, def.(implied := None), user, env)
  {
    hide PromptsOr, FirstDefault;
    assert DefaultTri(def, env) == DefaultTri(def.(implied := None), env);
    assert RevDep(s, def, env) == RevDep(s, def.(implied := None), env);
    assert Visible(s, def, env) == Visible(s, def.(implied := None), env);
  }

  // A user value between the selects and the visibility counts as it is; the user cannot go
  // beyond the visibility.
  lemma UserCounts(s: Sym, def: SymDef, user: User, env: Env)
    requires IsLogic(s) && UserDecides(s, def, user, env)
    requires !TwoValued(s, env) && !ImplyGives(def, env, YES)
    ensures Prompted(def.props, env, user[s].tri) && (forall t: Tri | t > user[s].tri :: !SelectGives(def, env, t)) ==>
      LogicValue(s, def, user, env) == user[s].tri
    ensures LogicValue(s, def, user, env) == YES ==> Prompted(def.props, env, YES) || SelectGives(def, env, YES)
  {
    hide Prompted, SelectGives, ImplyGives, DefaultGives, LogicValue;
    ValueExactly(s, def, user, env);
    SelectLevels(def, env);
  }

  lemma SelectLevels(def: SymDef, env: Env)
    ensures SelectGives(def, env, YES) ==> SelectGives(def, env, MOD)
  {
  }

  // Without a visible prompt the user has no say.
  lemma InvisibleIgnoresUser(s: Sym, def: SymDef, user: User, env: Env)
    requires !Prompted(def.props, env, MOD)
    ensures Calc(s, def, user, env) == Calc(s, def, user - {s}, env)
  {
    hide Prompted, PromptsOr, RevDep, Implied, DefaultTri, DefaultText;
    PromptsExactly(def.props, env, MOD);
  }

  // ----- texts -----

  // An int, hex or string has the text of the user, or else that of the symbol its default names.
  lemma TextExactly(s: Sym, def: SymDef, user: User, env: Env)
    ensures UserDecides(s, def, user, env) ==> TextValue(s, def, user, env) == user[s].str
    ensures !UserDecides(s, def, user, env) ==>
      forall i | FirstMet(def.props, env, i) && PropSymbol(def.props[i]).Some? ::
        TextValue(s, def, user, env) == RawText(env, PropSymbol(def.props[i]).value)
    ensures !UserDecides(s, def, user, env) && TextValue(s, def, user, env) != "" ==>
      exists i :: FirstMet(def.props, env, i) && PropSymbol(def.props[i]).Some?
  {
    hide Prompted, FirstMet, Visible, PropSymbol, RawText;
    PartsExactly(s, def, env);
    FirstDefaultExactly(def.props, env);
  }

  // A bool or tristate that a default of a text names gives "n", whatever its value.
  lemma LogicAsText(cfg: Config, user: User, vals: Values, b: Sym)
    requires Solution(cfg, user, vals) && b in cfg.graph && IsLogic(b)
    ensures RawText(EnvOf(cfg, vals), b) == "n"
  {
    hide LogicValue;
  }

  // ----- what is written -----

  // A bool or tristate is written unless it is n and has no visible prompt; a text if it has a
  // visible prompt or a default.
  lemma WrittenExactly(s: Sym, def: SymDef, user: User, env: Env)
    ensures IsLogic(s) ==> (Written(s, def, user, env)
              <==> Prompted(def.props, env, MOD) || LogicValue(s, def, user, env) != NO)
    ensures IsText(s) ==> (Written(s, def, user, env)
              <==> Prompted(def.props, env, MOD)
                   || exists i :: FirstMet(def.props, env, i) && PropSymbol(def.props[i]).Some?)
    ensures Written(s, def, user, env) ==> IsLogic(s) || IsText(s)
  {
    hide Prompted, FirstMet, Visible, DefaultTri, PropSymbol, RevDep, Implied;
    PartsExactly(s, def, env);
    FirstDefaultExactly(def.props, env);
  }
}
