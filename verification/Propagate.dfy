// Propagation of dependencies from a menu to its entries (the first loop of menu_finalize).
module Propagate {
  import opened Wrappers
  import opened Expr
  import opened Normalize
  import opened Dups

  // expr_transform(rewrite_m(e))
  function Prepared(e: Option<Expr>, modules: Sym): Option<Expr> {
    TransformOpt(RewriteMOpt(e, modules))
  }

  // The new menu->dep: the parent's dependency && the entry's own.
  function EntryDep(parentDep: Option<Expr>, dep: Option<Expr>, modules: Sym): Option<Expr> {
    DeduplicateOpt(AllocBin(OpAnd, parentDep, Prepared(dep, modules)))
  }

  // The new condition of a property of the entry; sym is the symbol of the entry, if any.
  function PropertyCond(entryDep: Option<Expr>, cond: Option<Expr>, sym: Option<Sym>, modules: Sym): Option<Expr> {
    var d := DeduplicateOpt(AllocBin(OpAnd, entryDep, Prepared(cond, modules)));
    if d.Some? && sym.Some? && !TypeOf(sym.value).TTristate? then Some(TransBool(d.value)) else d
  }

  predicate WellFormedOpt(e: Option<Expr>) { e.Some? ==> WellFormed(e.value) }

  predicate NnfOpt(e: Option<Expr>) { e.Some? ==> Nnf(e.value) }

  // The value of an optional dependency in which the constant m means m && MODULES.
  function ReadM(e: Option<Expr>, modules: Sym, env: Env): Tri {
    if e.None? then YES else EvalM(e.value, Min(MOD, TriOf(env, modules)), env)
  }

  lemma PreparedSound(e: Option<Expr>, modules: Sym, env: Env)
    requires Sane(env) && WellFormedOpt(e)
    ensures var p := Prepared(e, modules);
      && EvalOpt(p, env) == ReadM(e, modules, env)
      && WellFormedOpt(p) && NnfOpt(p)
  {
    if e.Some? {
      RewriteMSound(e.value, modules, env);
      TransformSound(RewriteM(e.value, modules), env);
      NormalIsNnf(Transform(RewriteM(e.value, modules)));
    }
  }

  lemma ConjunctionSound(a: Option<Expr>, b: Option<Expr>, env: Env)
    requires Sane(env) && WellFormedOpt(a) && WellFormedOpt(b) && NnfOpt(a) && NnfOpt(b)
    ensures var d := DeduplicateOpt(AllocBin(OpAnd, a, b));
      && EvalOpt(d, env) == Min(EvalOpt(a, env), EvalOpt(b, env))
      && WellFormedOpt(d) && NnfOpt(d)
  {
    var c := AllocBin(OpAnd, a, b);
    if c.Some? { DeduplicateSound(c.value, env); }
  }

  // The dependency of an entry means exactly the unsimplified conjunction.
  lemma EntryDepSound(parentDep: Option<Expr>, dep: Option<Expr>, modules: Sym, env: Env)
    requires Sane(env) && WellFormedOpt(parentDep) && NnfOpt(parentDep) && WellFormedOpt(dep)
    ensures var d := EntryDep(parentDep, dep, modules);
      && EvalOpt(d, env) == Min(EvalOpt(parentDep, env), ReadM(dep, modules, env))
      && WellFormedOpt(d) && NnfOpt(d)
  {
    PreparedSound(dep, modules, env);
    ConjunctionSound(parentDep, Prepared(dep, modules), env);
  }

  // The condition of a property is n exactly when the unsimplified conjunction is; for a
  // tristate symbol or an entry without a symbol it has the very same value.
  lemma PropertyCondSound(parentDep: Option<Expr>, dep: Option<Expr>, cond: Option<Expr>, sym: Option<Sym>,
                          modules: Sym, env: Env)
    requires Sane(env) && WellFormedOpt(parentDep) && NnfOpt(parentDep) && WellFormedOpt(dep) && WellFormedOpt(cond)
    ensures var d := PropertyCond(EntryDep(parentDep, dep, modules), cond, sym, modules);
      var plain := Min(EvalOpt(parentDep, env), Min(ReadM(dep, modules, env), ReadM(cond, modules, env)));
      && (EvalOpt(d, env) == NO <==> plain == NO) && EvalOpt(d, env) <= plain
      && (sym.None? || TypeOf(sym.value).TTristate? ==> EvalOpt(d, env) == plain)
      && WellFormedOpt(d) && NnfOpt(d)
  {
    var base := EntryDep(parentDep, dep, modules);
    EntryDepSound(parentDep, dep, modules, env);
    PreparedSound(cond, modules, env);
    ConjunctionSound(base, Prepared(cond, modules), env);
    var d := DeduplicateOpt(AllocBin(OpAnd, base, Prepared(cond, modules)));
    if d.Some? {
      TransBoolSound(d.value, env);
      TransBoolBound(d.value, env);
    }
  }

  // What a visibility means for a bool symbol: m counts as y.
  lemma BooleanVisibilityUnchanged(parentDep: Option<Expr>, dep: Option<Expr>, cond: Option<Expr>, sym: Sym,
                                   modules: Sym, env: Env)
    requires Sane(env) && WellFormedOpt(parentDep) && NnfOpt(parentDep) && WellFormedOpt(dep) && WellFormedOpt(cond)
    requires TypeOf(sym).TBoolean?
    ensures var d := EvalOpt(PropertyCond(EntryDep(parentDep, dep, modules), cond, Some(sym), modules), env);
      var plain := Min(EvalOpt(parentDep, env), Min(ReadM(dep, modules, env), ReadM(cond, modules, env)));
      (if d == MOD then YES else d) == (if plain == MOD then YES else plain)
  {
    PropertyCondSound(parentDep, dep, cond, Some(sym), modules, env);
  }

  // A property of a bool, int, hex or string asks nowhere whether a tristate is other than n: it asks
  // for the tristate itself.
  lemma NoTestsNonN(entryDep: Option<Expr>, cond: Option<Expr>, sym: Sym, modules: Sym)
    requires !TypeOf(sym).TTristate?
    ensures var d := PropertyCond(entryDep, cond, Some(sym), modules); d.Some? ==> !TestsNonN(d.value)
  {
    var d := DeduplicateOpt(AllocBin(OpAnd, entryDep, Prepared(cond, modules)));
    if d.Some? { TransBoolExact(d.value); }
  }

  lemma {:induction false} TransBoolBound(e: Expr, env: Env)
    requires Sane(env) && Nnf(e)
    ensures Eval(TransBool(e), env) <= Eval(e, env)
  {
    match e
    case Bin(_, l, r) => TransBoolBound(l, env); TransBoolBound(r, env);
    case Cmp(op, a, b) =>
      if op == Neq && b.SymNo? && TypeOf(a).TTristate? { CompareWithConstant(env, a, b); }
    case _ =>
  }

  // For a visibility that makes no difference, but a select or imply in the entry of a bool can get
  // weaker: under A != n it gives m, not y, where A is m.
  lemma BoolSelectsWeaker(a: Sym, sym: Sym, modules: Sym, env: Env)
    requires Sane(env) && TypeOf(a).TTristate? && TriOf(env, a) == MOD && TypeOf(sym).TBoolean?
    ensures PropertyCond(None, Some(Cmp(Neq, a, SymNo)), Some(sym), modules) == Some(Leaf(a))
    ensures EvalOpt(PropertyCond(None, Some(Cmp(Neq, a, SymNo)), Some(sym), modules), env) == MOD
    ensures ReadM(Some(Cmp(Neq, a, SymNo)), modules, env) == YES
  {
    var e := Cmp(Neq, a, SymNo);
    CompareWithConstant(env, a, SymNo);
    assert Transform(RewriteM(e, modules)) == e;
    assert Pass(e) == (e, 0) && Deduplicate(e) == e;
    assert TransBool(e) == Leaf(a);
  }
}
