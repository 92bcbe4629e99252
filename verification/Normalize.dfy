// Negation normal form and boolean simplification (expr_transform, expr_trans_bool, rewrite_m).
module Normalize {
  import opened Wrappers
  import opened Expr

  function Dual(op: BinOp): BinOp { if op.OpAnd? then OpOr else OpAnd }

  // Number of && and || nodes: De Morgan steps keep it although they make the tree larger.
  function Bins(e: Expr): nat {
    match e
    case Bin(_, l, r) => 1 + Bins(l) + Bins(r)
    case Not(x) => Bins(x)
    case _ => 0
  }

  // The cases for E_EQUAL and E_UNEQUAL: a bool compared with y, m or n.
  function TransformCmp(op: CmpOp, a: Sym, b: Sym): Expr {
    if !TypeOf(a).TBoolean? then Cmp(op, a, b)
    else
      match (op, b)
      case (Eq, SymNo) => Not(Leaf(a))
      case (Eq, SymMod) => Leaf(SymNo)
      case (Eq, SymYes) => Leaf(a)
      case (Neq, SymNo) => Leaf(a)
      case (Neq, SymMod) => Leaf(SymYes)
      case (Neq, SymYes) => Not(Leaf(a))
      case _ => Cmp(op, a, b)
  }

  // expr_transform.  The measure is lexicographic: a De Morgan step keeps the number of && and
  // || nodes and trades a NOT at the root for one of them, and every other call descends.
  function Transform(e: Expr): (r: Expr)
    ensures Normal(r) && Bins(r) <= Bins(e)
    decreases Bins(e), if e.Not? then 1 else 0, Size(e)
  {
    match e
    case Leaf(_) => e
    case Cmp(op, a, b) => TransformCmp(op, a, b)
    case Bin(op, l, r) => Bin(op, Transform(l), Transform(r))
    case Not(x) =>
      var y := Transform(x);
      match y
      case Not(z) => Transform(z)
      case Cmp(op, a, b) => Cmp(Negation(op), a, b)
      case Bin(op, a, b) =>
        assert Bins(Not(a)) == Bins(a) && Bins(Not(b)) == Bins(b);
        Transform(Bin(Dual(op), Not(a), Not(b)))
      case Leaf(SymYes) => Leaf(SymNo)
      case Leaf(SymMod) => Leaf(SymMod)
      case Leaf(SymNo) => Leaf(SymYes)
      case Leaf(_) => Not(y)
  }

  function TransformOpt(e: Option<Expr>): Option<Expr> {
    if e.None? then None else Some(Transform(e.value))
  }

  // Negation normal form in which no bool is compared with y, m or n.
  predicate Normal(e: Expr) {
    match e
    case Leaf(_) => true
    case Cmp(op, a, b) => TypeOf(a).TBoolean? && (op == Eq || op == Neq) ==> !IsTriConst(b)
    case Not(x) => x.Leaf? && !IsTriConst(x.sym)
    case Bin(_, l, r) => Normal(l) && Normal(r)
  }

  lemma {:induction false} NormalIsNnf(e: Expr)
    requires Normal(e)
    ensures Nnf(e)
  {
    if e.Bin? {
      NormalIsNnf(e.l);
      NormalIsNnf(e.r);
    }
  }

  // Transform leaves exactly the normal expressions alone, so applying it twice is applying
  // it once.
  lemma {:induction false} TransformFixpoint(e: Expr)
    ensures Transform(e) == e <==> Normal(e)
    ensures Transform(Transform(e)) == Transform(e)
  {
    if Normal(e) { TransformNormal(e); }
    TransformNormal(Transform(e));
  }

  lemma {:induction false} TransformNormal(e: Expr)
    requires Normal(e)
    ensures Transform(e) == e
  {
    if e.Bin? {
      TransformNormal(e.l);
      TransformNormal(e.r);
    }
  }

  lemma {:induction false} TransformCmpSound(op: CmpOp, a: Sym, b: Sym, env: Env)
    requires Sane(env) && Comparable(op, a, b)
    ensures Eval(TransformCmp(op, a, b), env) == EvalCmp(env, op, a, b)
    ensures WellFormed(TransformCmp(op, a, b))
  {
    if TypeOf(a).TBoolean? && IsTriConst(b) {
      CompareWithConstant(env, a, b);
      assert a in env.vals ==> GoodValue(a, env.vals[a], env.mods);
    }
  }

  lemma NegateComparable(op: CmpOp, a: Sym, b: Sym, env: Env)
    requires Comparable(op, a, b)
    ensures EvalCmp(env, Negation(op), a, b) == Neg(EvalCmp(env, op, a, b))
    ensures Comparable(Negation(op), a, b)
  {
    NegatedComparison(env, op, a, b);
    if op != Eq && op != Neq {
      assert !ParseString(env.strto, StrOf(env, a), TypeOf(a)).KInvalid?;
      assert !ParseString(env.strto, StrOf(env, b), TypeOf(b)).KInvalid?;
    }
  }

  // expr_transform preserves the value under every assignment.
  lemma {:induction false} TransformSound(e: Expr, env: Env)
    requires Sane(env) && WellFormed(e)
    ensures Eval(Transform(e), env) == Eval(e, env)
    ensures WellFormed(Transform(e))
    decreases Bins(e), if e.Not? then 1 else 0, Size(e)
  {
    match e
    case Leaf(_) =>
    case Cmp(op, a, b) => TransformCmpSound(op, a, b, env);
    case Bin(op, l, r) =>
      TransformSound(l, env);
      TransformSound(r, env);
    case Not(x) =>
      TransformSound(x, env);
      var y := Transform(x);
      match y
      case Not(z) => TransformSound(z, env);
      case Cmp(op, a, b) => NegateComparable(op, a, b, env);
      case Bin(op, a, b) =>
        assert Bins(Not(a)) == Bins(a) && Bins(Not(b)) == Bins(b);
        TransformSound(Bin(Dual(op), Not(a), Not(b)), env);
      case Leaf(_) =>
  }

  // With an operand of type S_OTHER the negated ordering is not the complement: both are n.
  lemma {:induction false} OtherOperandsBreakNegation(a: Sym, b: Sym, env: Env)
    requires TypeOf(a).TOther? && env.strto(StrOf(env, b), 10).Some? && TypeOf(b).TInt?
    ensures Transform(Not(Cmp(Le, a, b))) == Cmp(Gt, a, b)
    ensures Eval(Not(Cmp(Le, a, b)), env) == YES && Eval(Cmp(Gt, a, b), env) == NO
  {
  }

  // ----- expr_trans_bool -----

  function TransBool(e: Expr): Expr {
    match e
    case Not(x) => Not(TransBool(x))
    case Bin(op, l, r) => Bin(op, TransBool(l), TransBool(r))
    case Cmp(Neq, a, SymNo) => if TypeOf(a).TTristate? then Leaf(a) else e
    case _ => e
  }

  // On negation normal form the result is n exactly when the expression is n, and it is never
  // larger: only an m in place of a y.
  lemma {:induction false} TransBoolSound(e: Expr, env: Env)
    requires Sane(env) && Nnf(e)
    ensures Eval(TransBool(e), env) == NO <==> Eval(e, env) == NO
    ensures Eval(TransBool(e), env) <= Eval(e, env)
    ensures Nnf(TransBool(e)) && (WellFormed(e) ==> WellFormed(TransBool(e)))
  {
    match e
    case Bin(_, l, r) =>
      TransBoolSound(l, env);
      TransBoolSound(r, env);
    case Cmp(op, a, b) => if IsLogic(a) && IsTriConst(b) { CompareWithConstant(env, a, b); }
    case _ =>
  }

  // Below a NOT it would turn an n into an m.
  lemma {:induction false} TransBoolNeedsNnf(a: Sym, env: Env)
    requires Sane(env) && TypeOf(a).TTristate? && TriOf(env, a) == MOD
    ensures Eval(Not(Cmp(Neq, a, SymNo)), env) == NO
    ensures Eval(TransBool(Not(Cmp(Neq, a, SymNo))), env) == MOD
  {
    CompareWithConstant(env, a, SymNo);
  }

  // Some tristate is tested for being other than n.
  predicate TestsNonN(e: Expr) {
    match e
    case Not(x) => TestsNonN(x)
    case Bin(_, l, r) => TestsNonN(l) || TestsNonN(r)
    case Cmp(op, a, b) => op == Neq && b.SymNo? && TypeOf(a).TTristate?
    case Leaf(_) => false
  }

  // No such test is left, and only expressions with one change.
  lemma {:induction false} TransBoolExact(e: Expr)
    ensures !TestsNonN(TransBool(e))
    ensures TransBool(e) == e <==> !TestsNonN(e)
  {
    match e
    case Not(x) => TransBoolExact(x);
    case Bin(_, l, r) => TransBoolExact(l); TransBoolExact(r);
    case Cmp(_, _, _) =>
    case Leaf(_) =>
  }

  // ----- rewrite_m -----

  // 'm' becomes 'm' && MODULES.
  function RewriteM(e: Expr, modules: Sym): Expr {
    match e
    case Not(x) => Not(RewriteM(x, modules))
    case Bin(op, l, r) => Bin(op, RewriteM(l, modules), RewriteM(r, modules))
    case Leaf(SymMod) => Bin(OpAnd, e, Leaf(modules))
    case _ => e
  }

  function RewriteMOpt(e: Option<Expr>, modules: Sym): Option<Expr> {
    if e.None? then None else Some(RewriteM(e.value, modules))
  }

  // The value of e where the constant m reads as k.
  function EvalM(e: Expr, k: Tri, env: Env): Tri {
    match e
    case Not(x) => Neg(EvalM(x, k, env))
    case Bin(op, l, r) => Combine(op, EvalM(l, k, env), EvalM(r, k, env))
    case Leaf(SymMod) => k
    case _ => Eval(e, env)
  }

  lemma {:induction false} RewriteMSound(e: Expr, modules: Sym, env: Env)
    ensures Eval(RewriteM(e, modules), env) == EvalM(e, Min(MOD, TriOf(env, modules)), env)
    ensures WellFormed(e) ==> WellFormed(RewriteM(e, modules))
  {
    match e
    case Not(x) => RewriteMSound(x, modules, env);
    case Bin(_, l, r) =>
      RewriteMSound(l, modules, env);
      RewriteMSound(r, modules, env);
    case _ =>
  }
}
