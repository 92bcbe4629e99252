// When an item belongs under the symbol before it (expr_contains_symbol, expr_depends_symbol,
// expr_trans_compare in expr.c and the test in menu_finalize).
module Submenu {
  import opened Wrappers
  import opened Expr
  import opened Eliminate
  import opened Join
  import opened JoinExact
  import opened Slots
  import opened Normalize
  import opened Dups

  // expr_contains_symbol
  predicate ContainsSymbol(e: Option<Expr>, s: Sym) {
    e.Some? && s in Syms(e.value)
  }

  // expr_depends_symbol of a non-NULL expression
  predicate DependsSymbol(e: Expr, s: Sym) {
    match e
    case Bin(OpAnd, l, r) => DependsSymbol(l, s) || DependsSymbol(r, s)
    case Leaf(t) => t == s
    case Cmp(Eq, t, c) => t == s && (c.SymYes? || c.SymMod?)
    case Cmp(Neq, t, c) => t == s && c.SymNo?
    case _ => false
  }

  // An expression that depends on a bool or tristate is n whenever that symbol is.
  lemma {:induction false} DependsSound(e: Expr, s: Sym, env: Env)
    requires Sane(env) && IsLogic(s) && DependsSymbol(e, s) && TriOf(env, s) == NO
    ensures Eval(e, env) == NO
  {
    match e
    case Bin(_, l, r) =>
      if DependsSymbol(l, s) { DependsSound(l, s, env); } else { DependsSound(r, s, env); }
    case Cmp(_, t, c) => CompareWithConstant(env, t, c);
    case _ =>
  }

  // For one test of a tristate that is exact.
  lemma {:induction false} DependsExactly(e: Expr, s: Sym)
    requires TypeOf(s).TTristate? && IsTest(e, s)
    ensures DependsSymbol(e, s) <==> forall env: Env | Sane(env) && TriOf(env, s) == NO :: Eval(e, env) == NO
  {
    forall env: Env | Sane(env)
      ensures Eval(e, env) == TestAt(e, TriOf(env, s))
    {
      TestValue(e, s, env);
    }
    var off := Where(s, NO);
    assert Eval(e, off) == TestAt(e, NO);
  }

  // expr_trans_compare(e, equal ? E_EQUAL : E_UNEQUAL, c) for the constants y and n
  function TransCompare(e: Expr, equal: bool, c: Sym): Expr
    requires c.SymYes? || c.SymNo?
  {
    match e
    case Bin(op, l, r) =>
      var x := Bin(if c.SymYes? then op else Dual(op), TransCompare(l, true, c), TransCompare(r, true, c));
      if equal then x else Not(x)
    case Not(x) => TransCompare(x, !equal, c)
    case Cmp(_, _, _) => if equal == c.SymYes? then e else Not(e)
    case Leaf(s) => Cmp(if equal then Eq else Neq, s, c)
  }

  function TransCompareOpt(e: Option<Expr>, equal: bool, c: Sym): Expr
    requires c.SymYes? || c.SymNo?
  {
    if e.Some? then TransCompare(e.value, equal, c)
    else if equal then Leaf(c) else Not(Leaf(c))
  }

  // What menu_finalize has stored in an item: negation normal form and legal comparisons.
  predicate Dependency(e: Expr) { Nnf(e) && WellFormed(e) }

  predicate DependencyOpt(e: Option<Expr>) { e.Some? ==> Dependency(e.value) }

  // Comparing the symbol with n asks whether it is n.  A symbol that is neither bool nor tristate
  // is n, but its text is compared.
  predicate Tells(s: Sym, env: Env) {
    IsLogic(s) || IsTriConst(s) || StrOf(env, s) == "n"
  }

  // That is so for all symbols that are negated ...
  predicate NegatedTell(e: Expr, env: Env) {
    match e
    case Bin(_, l, r) => NegatedTell(l, env) && NegatedTell(r, env)
    case Not(x) => x.Leaf? && Tells(x.sym, env)
    case Leaf(_) => true
    case Cmp(_, _, _) => true
  }

  // ... or for all that stand for themselves.
  predicate BareTell(e: Expr, env: Env) {
    match e
    case Bin(_, l, r) => BareTell(l, env) && BareTell(r, env)
    case Leaf(s) => Tells(s, env)
    case Not(_) => true
    case Cmp(_, _, _) => true
  }

  // The value of a dependency in which !A counts only when A is n.
  function StrictEval(e: Expr, env: Env): Tri {
    match e
    case Bin(op, l, r) => Combine(op, StrictEval(l, env), StrictEval(r, env))
    case Not(Leaf(s)) => Truth(TriOf(env, s) == NO)
    case _ => Eval(e, env)
  }

  predicate NoNegatedMod(e: Expr, env: Env) {
    match e
    case Bin(_, l, r) => NoNegatedMod(l, env) && NoNegatedMod(r, env)
    case Not(x) => Eval(x, env) != MOD
    case _ => true
  }

  lemma {:induction false} StrictEvalBound(e: Expr, env: Env)
    ensures StrictEval(e, env) <= Eval(e, env)
    ensures NoNegatedMod(e, env) ==> StrictEval(e, env) == Eval(e, env)
  {
    if e.Bin? {
      StrictEvalBound(e.l, env);
      StrictEvalBound(e.r, env);
    }
  }

  lemma TellsExactly(s: Sym, env: Env)
    requires Sane(env)
    ensures EvalCmp(env, Eq, s, SymNo) == Truth(TriOf(env, s) == NO) <==> Tells(s, env)
    ensures EvalCmp(env, Neq, s, SymNo) == Truth(TriOf(env, s) != NO) <==> Tells(s, env)
    ensures !Tells(s, env) ==> TriOf(env, s) == NO
  {
    StrcmpZero(StrOf(env, s), "n");
    if IsLogic(s) { CompareWithConstant(env, s, SymNo); }
    assert s in env.vals ==> GoodValue(s, env.vals[s], env.mods);
  }

  // Comparing a dependency with n by expr_trans_compare asks whether its strict value is n, which
  // differs from the value only through a negated symbol that is m.  A dependency that is not n
  // is seen to be so if the symbols it negates tell, and one that is n if its bare symbols do.
  lemma {:induction false} TransCompareSound(e: Expr, equal: bool, env: Env)
    requires Sane(env) && Dependency(e)
    ensures NegatedTell(e, env) && StrictEval(e, env) != NO ==>
      Eval(TransCompare(e, equal, SymNo), env) == Truth(!equal)
    ensures BareTell(e, env) && StrictEval(e, env) == NO ==> Eval(TransCompare(e, equal, SymNo), env) == Truth(equal)
    ensures Eval(TransCompare(e, equal, SymNo), env) != MOD && WellFormed(TransCompare(e, equal, SymNo))
  {
    match e
    case Bin(_, l, r) =>
      TransCompareSound(l, true, env);
      TransCompareSound(r, true, env);
    case Not(x) => TellsExactly(x.sym, env);
    case Leaf(s) => TellsExactly(s, env);
    case Cmp(_, _, _) => ComparisonIsBoolean(e, env);
  }

  // For a single symbol, bare or negated, these conditions are exact.
  lemma {:induction false} TransCompareExactly(e: Expr, env: Env)
    requires Sane(env) && Dependency(e) && (e.Leaf? || e.Not?)
    ensures Eval(TransCompare(e, false, SymNo), env) == Truth(StrictEval(e, env) != NO)
      <==> NegatedTell(e, env) && BareTell(e, env)
  {
    TellsExactly(if e.Leaf? then e.sym else e.e.sym, env);
  }

  lemma {:induction false} ComparisonIsBoolean(e: Expr, env: Env)
    requires e.Cmp?
    ensures Eval(e, env) != MOD
  {
  }

  // The simplified form of "dep is not n" that menu_finalize computes.
  function NotNo(dep: Option<Expr>): Expr {
    Deduplicate(Transform(TransCompareOpt(dep, false, SymNo)))
  }

  lemma {:induction false} NotNoSound(dep: Option<Expr>, env: Env)
    requires Sane(env) && DependencyOpt(dep)
    ensures dep.Some? && NegatedTell(dep.value, env) && StrictEval(dep.value, env) != NO ==>
      Eval(NotNo(dep), env) == YES
    ensures dep.Some? && BareTell(dep.value, env) && StrictEval(dep.value, env) == NO ==> Eval(NotNo(dep), env) == NO
    ensures dep.None? ==> Eval(NotNo(dep), env) == YES
  {
    var t := TransCompareOpt(dep, false, SymNo);
    if dep.Some? { TransCompareSound(dep.value, false, env); }
    TransformSound(t, env);
    DeduplicateSound(Transform(t), env);
  }

  // The test for one item with dependency dep that follows a symbol s whose prompt depends on
  // promptDep.
  predicate BelongsUnder(dep: Option<Expr>, promptDep: Option<Expr>, s: Sym) {
    && ContainsSymbol(dep, s)
    && (DependsSymbol(dep.value, s) || EliminateEq(NotNo(dep), NotNo(promptDep)).1 == Leaf(SymYes))
  }

  // A symbol without a prompt takes over every item that mentions it.
  lemma {:induction false} PromptlessTakesAll(dep: Option<Expr>, s: Sym)
    ensures BelongsUnder(dep, None, s) <==> ContainsSymbol(dep, s)
  {
    YesWithoutPrompt();
    AlwaysTakesAll(dep, None, s);
  }

  // So does one whose prompt asks for nothing.
  lemma {:induction false} AlwaysTakesAll(dep: Option<Expr>, promptDep: Option<Expr>, s: Sym)
    requires NotNo(promptDep) == Leaf(SymYes)
    ensures BelongsUnder(dep, promptDep, s) <==> ContainsSymbol(dep, s)
  {
    hide NotNo;
    if ContainsSymbol(dep, s) {
      var e := NotNo(dep);
      if e.Bin? { NothingInYes(e.op, e); }
      assert EliminateEqPasses(e, Leaf(SymYes)).e2 == Leaf(SymYes);
      assert EliminateEq(e, Leaf(SymYes)).1 == EliminateYn(Leaf(SymYes)) == Leaf(SymYes);
    }
  }

  lemma {:induction false} YesWithoutPrompt()
    ensures NotNo(None) == Leaf(SymYes)
  {
    assert Transform(Leaf(SymNo)) == Leaf(SymNo);
    assert Transform(Not(Leaf(SymNo))) == Leaf(SymYes);
    assert Pass(Leaf(SymYes)) == (Leaf(SymYes), 0);
    assert Deduplicate(Leaf(SymYes)) == Leaf(SymYes);
  }

  // The constant y has no operand in common with any expression.
  lemma {:induction false} NothingInYes(op: BinOp, e: Expr)
    ensures EliminateEq1(op, e, Leaf(SymYes)).fired == 0
  {
    if e.Bin? && e.op == op {
      NothingInYes(op, e.l);
      NothingInYes(op, e.r);
    }
  }

  // No symbol the item negates is m, those symbols tell, and so do the symbols that stand bare in
  // the dependency of the prompt.
  predicate Readable(dep: Expr, promptDep: Option<Expr>, env: Env) {
    NoNegatedMod(dep, env) && NegatedTell(dep, env) && (promptDep.Some? ==> BareTell(promptDep.value, env))
  }

  // An item moved under s is n whenever s is, or else it can be non-n only where the prompt of
  // s is visible, under every assignment in which both are readable.
  lemma {:induction false} SubmenuSound(dep: Option<Expr>, promptDep: Option<Expr>, s: Sym, env: Env)
    requires Sane(env) && DependencyOpt(dep) && DependencyOpt(promptDep) && IsLogic(s)
    requires BelongsUnder(dep, promptDep, s)
    ensures DependsSymbol(dep.value, s) && TriOf(env, s) == NO ==> EvalOpt(dep, env) == NO
    ensures !DependsSymbol(dep.value, s) && Readable(dep.value, promptDep, env) ==>
      EvalOpt(dep, env) != NO ==> EvalOpt(promptDep, env) != NO
  {
    if DependsSymbol(dep.value, s) {
      if TriOf(env, s) == NO { DependsSound(dep.value, s, env); }
    } else {
      NotNoSound(dep, env);
      NotNoSound(promptDep, env);
      StrictEvalBound(dep.value, env);
      if promptDep.Some? { StrictEvalBound(promptDep.value, env); }
      EliminateEqCommonFactor(NotNo(dep), NotNo(promptDep), env);
    }
  }

  // All three conditions are needed.  "(S || Q) && !A" is moved under S, whose prompt depends on
  // "A = n", and with Q = y the item is visible while the prompt is not: for a tristate A that is
  // m, and also for an A that nobody defines, whose text is its name.
  lemma {:induction false} NegatedEscapes(s: Sym, q: Sym, a: Sym, env: Env)
    requires Sane(env) && s != q && q != a && s != a
    requires TypeOf(s).TTristate? && TypeOf(q).TTristate? && TriOf(env, q) == YES && TriOf(env, s) == NO
    requires (TypeOf(a).TTristate? && TriOf(env, a) == MOD) || (TypeOf(a).TUnknown? && !IsConst(a) && !Tells(a, env))
    ensures var dep := Bin(OpAnd, Bin(OpOr, Leaf(s), Leaf(q)), Not(Leaf(a)));
      var promptDep := Cmp(Eq, a, SymNo);
      && BelongsUnder(Some(dep), Some(promptDep), s) && !DependsSymbol(dep, s)
      && Eval(dep, env) != NO && Eval(promptDep, env) == NO
  {
    var dep := Bin(OpAnd, Bin(OpOr, Leaf(s), Leaf(q)), Not(Leaf(a)));
    hide NotNo, EliminateEq, EvalCmp;
    TellsExactly(a, env);
    NotNoOfExample(s, q, a, Not(Leaf(a)), Cmp(Eq, a, SymNo));
    assert s in Syms(Leaf(s)) && s in Syms(Bin(OpOr, Leaf(s), Leaf(q))) && s in Syms(dep);
    OneOfTwo(s, q, env);
    NotOf(a, env);
    ComparisonIsBoolean(Cmp(Eq, a, SymNo), env);
  }

  lemma {:induction false} OneOfTwo(s: Sym, q: Sym, env: Env)
    requires TriOf(env, q) == YES
    ensures Eval(Bin(OpOr, Leaf(s), Leaf(q)), env) == YES
  {
  }

  lemma {:induction false} NotOf(a: Sym, env: Env)
    ensures Eval(Not(Leaf(a)), env) == Neg(TriOf(env, a))
  {
  }

  // "(S || Q) && U != n" is moved under S, whose prompt depends on U alone.  If nobody defines U,
  // the prompt is never visible, but the item is with Q = y.
  lemma {:induction false} UndefinedEscapes(s: Sym, q: Sym, u: Sym, env: Env)
    requires Sane(env) && s != q && q != u && s != u
    requires TypeOf(s).TTristate? && TypeOf(q).TTristate? && TriOf(env, q) == YES
    requires TypeOf(u).TUnknown? && !IsConst(u) && !Tells(u, env)
    ensures var dep := Bin(OpAnd, Bin(OpOr, Leaf(s), Leaf(q)), Cmp(Neq, u, SymNo));
      && BelongsUnder(Some(dep), Some(Leaf(u)), s) && !DependsSymbol(dep, s)
      && Eval(dep, env) == YES && Eval(Leaf(u), env) == NO
  {
    var dep := Bin(OpAnd, Bin(OpOr, Leaf(s), Leaf(q)), Cmp(Neq, u, SymNo));
    TellsExactly(u, env);
    NotNoOfExample(s, q, u, Cmp(Neq, u, SymNo), Leaf(u));
    assert s in Syms(Leaf(s)) && s in Syms(Bin(OpOr, Leaf(s), Leaf(q))) && s in Syms(dep);
    OneOfTwo(s, q, env);
  }

  // A pass over an && or || of two operands that cannot be joined changes nothing.
  lemma PassOfTwo(op: BinOp, x: Expr, y: Expr)
    requires !IsOp(op, x) && !IsOp(op, y) && Pass(x) == (x, 0) && Pass(y) == (y, 0)
    requires JoinPair(op, x, y).None? && JoinPair(op, y, x).None?
    ensures Pass(Bin(op, x, y)) == (Bin(op, x, y), 0)
  {
    var e := Bin(op, x, y);
    assert [] + [false] == [false] && [] + [true] == [true];
    assert [false][1..] == [] && [true][1..] == [];
    assert At(e, [false]) == At(x, []) == x && At(e, [true]) == At(y, []) == y;
    assert Put(e, [false], x) == e && Put(e, [true], y) == e;
    assert JoinStep(op, e, [false], [true], x, 0) == (e, 0);
    assert JoinStep(op, e, [true], [false], y, 0) == (e, 0);
    assert Dups1(op, e, [false], [false]) == (e, 0);
    assert Dups1(op, e, [true], [true]) == (e, 0);
    assert Dups1(op, e, [false], [true]) == (e, 0);
    assert Dups1(op, e, [true], [false]) == (e, 0);
    assert Dups1(op, e, [false], []) == (e, 0);
    assert Dups1(op, e, [true], []) == (e, 0);
  }

  // Both examples compare "(S || Q) && test" with a prompt that depends on the same test of a.
  lemma NotNoOfExample(s: Sym, q: Sym, a: Sym, x: Expr, promptDep: Expr)
    requires s != q && s != a && q != a && TypeOf(s).TTristate? && TypeOf(q).TTristate? && !TypeOf(a).TBoolean?
    requires !IsConst(a)
    requires (x == Not(Leaf(a)) && promptDep == Cmp(Eq, a, SymNo)) || (x == Cmp(Neq, a, SymNo) && promptDep == Leaf(a))
    ensures EliminateEq(NotNo(Some(Bin(OpAnd, Bin(OpOr, Leaf(s), Leaf(q)), x))), NotNo(Some(promptDep))).1
      == Leaf(SymYes)
  {
    var S, Q, A := Cmp(Neq, s, SymNo), Cmp(Neq, q, SymNo), Cmp(if x.Not? then Eq else Neq, a, SymNo);
    var both, negated := Bin(OpAnd, Cmp(Eq, s, SymNo), Cmp(Eq, q, SymNo)), Cmp(if x.Not? then Neq else Eq, a, SymNo);
    var sq := Bin(OpOr, S, Q);
    var dep, inner := Bin(OpAnd, Bin(OpOr, Leaf(s), Leaf(q)), x), Bin(OpOr, both, TransCompare(x, true, SymNo));
    assert TransCompare(Bin(OpOr, Leaf(s), Leaf(q)), true, SymNo) == both;
    assert TransCompare(dep, false, SymNo) == Not(inner);
    assert Transform(both) == both;
    assert Transform(TransCompare(x, true, SymNo)) == negated;
    assert Transform(inner) == Bin(OpOr, both, negated);
    assert Transform(Not(Cmp(Eq, s, SymNo))) == S && Transform(Not(Cmp(Eq, q, SymNo))) == Q;
    assert Transform(Bin(OpOr, Not(Cmp(Eq, s, SymNo)), Not(Cmp(Eq, q, SymNo)))) == sq;
    assert Transform(Not(both)) == sq;
    assert Transform(Not(negated)) == A;
    assert Transform(Bin(OpAnd, Not(both), Not(negated))) == Bin(OpAnd, sq, A);
    assert Transform(Not(inner)) == Bin(OpAnd, sq, A);
    PassOfTwo(OpOr, S, Q);
    PassOfTwo(OpAnd, sq, A);
    assert NotNo(Some(dep)) == Bin(OpAnd, sq, A) && NotNo(Some(promptDep)) == A;
    assert !ExprEq(sq, A) && ExprEq(A, A);
    assert EliminateEq1(OpAnd, sq, A).fired == 0;
    assert EliminateEq1(OpAnd, Bin(OpAnd, sq, A), A).e2 == Leaf(SymYes);
  }
}
