// Which tests of one tristate the joins of expr.c combine, and which they miss.
module JoinExact {
  import opened Wrappers
  import opened Expr
  import opened Eliminate
  import opened Join

  // a itself, or a compared with y, m or n.
  predicate IsTest(e: Expr, a: Sym) {
    || e == Leaf(a)
    || (e.Cmp? && (e.cmp == Eq || e.cmp == Neq) && e.s1 == a && IsTriConst(e.s2))
  }

  // One expression says under every assignment what the && (or ||) of two others says.
  ghost predicate Says(op: BinOp, j: Expr, e1: Expr, e2: Expr) {
    forall env: Env | Sane(env) :: Eval(j, env) == Combine(op, Eval(e1, env), Eval(e2, env))
  }

  predicate Opposite(e1: Expr, e2: Expr) {
    e1.Cmp? && e2.Cmp? && e1.cmp != e2.cmp && e1.s2 == e2.s2
  }

  // The value of a test where its symbol is t.
  function TestAt(e: Expr, t: Tri): Tri
    requires e.Cmp? ==> IsTriConst(e.s2)
  {
    if !e.Cmp? then t
    else Truth((t == (if e.s2.SymYes? then YES else if e.s2.SymMod? then MOD else NO)) == (e.cmp == Eq))
  }

  lemma {:induction false} TestValue(e: Expr, a: Sym, env: Env)
    requires Sane(env) && TypeOf(a).TTristate? && IsTest(e, a)
    ensures Eval(e, env) == TestAt(e, TriOf(env, a))
  {
    ConstantTests(a, env);
  }

  // y, m and n are not numerals.
  predicate NoNumerals(strto: (string, int) -> Option<int>) {
    strto("y", 0).None? && strto("m", 0).None? && strto("n", 0).None?
  }

  // An assignment in which a is t.
  function WhereWith(a: Sym, t: Tri, strto: (string, int) -> Option<int>): (env: Env)
    requires TypeOf(a).TTristate? && NoNumerals(strto)
    ensures Sane(env) && TriOf(env, a) == t && env.strto == strto
  {
    Env(map[a := Value(t, "")], YES, strto)
  }

  function Where(a: Sym, t: Tri): (env: Env)
    requires TypeOf(a).TTristate?
    ensures Sane(env) && TriOf(env, a) == t
  {
    WhereWith(a, t, (_, _) => None)
  }

  // Agreeing under every assignment is agreeing at n, m and y.
  lemma SaysAt(op: BinOp, a: Sym, j: Expr, e1: Expr, e2: Expr)
    requires TypeOf(a).TTristate? && IsTest(j, a) && IsTest(e1, a) && IsTest(e2, a)
    ensures Says(op, j, e1, e2) <==> forall t: Tri :: TestAt(j, t) == Combine(op, TestAt(e1, t), TestAt(e2, t))
  {
    forall env: Env | Sane(env)
      ensures Eval(j, env) == TestAt(j, TriOf(env, a))
      ensures Eval(e1, env) == TestAt(e1, TriOf(env, a)) && Eval(e2, env) == TestAt(e2, TriOf(env, a))
    {
      TestValue(j, a, env); TestValue(e1, a, env); TestValue(e2, a, env);
    }
    if Says(op, j, e1, e2) {
      forall t: Tri
        ensures TestAt(j, t) == Combine(op, TestAt(e1, t), TestAt(e2, t))
      {
        assert TriOf(Where(a, t), a) == t;
      }
    }
  }

  lemma JoinedIsSaid(a: Sym, e1: Expr, e2: Expr)
    requires TypeOf(a).TTristate? && IsTest(e1, a) && IsTest(e2, a) && JoinAnd(e1, e2).Some?
    ensures Says(OpAnd, JoinAnd(e1, e2).value, e1, e2)
    ensures IsTest(JoinAnd(e1, e2).value, a) || Opposite(e1, e2)
  {
    forall env: Env | Sane(env)
      ensures Eval(JoinAnd(e1, e2).value, env) == Combine(OpAnd, Eval(e1, env), Eval(e2, env))
    {
      JoinAndSound(e1, e2, env);
    }
  }

  lemma SaidIsJoined(a: Sym, j: Expr, e1: Expr, e2: Expr)
    requires TypeOf(a).TTristate? && IsTest(j, a) && IsTest(e1, a) && IsTest(e2, a)
    requires forall t: Tri :: TestAt(j, t) == Min(TestAt(e1, t), TestAt(e2, t))
    ensures JoinAnd(e1, e2).Some?
  {
    assert TestAt(j, NO) == Min(TestAt(e1, NO), TestAt(e2, NO));
    assert TestAt(j, MOD) == Min(TestAt(e1, MOD), TestAt(e2, MOD));
    assert TestAt(j, YES) == Min(TestAt(e1, YES), TestAt(e2, YES));
  }

  // && joins two tests of a tristate if and only if one test says what both say, or they are
  // opposite.
  lemma AndJoinsExactly(a: Sym, e1: Expr, e2: Expr)
    requires TypeOf(a).TTristate? && IsTest(e1, a) && IsTest(e2, a)
    ensures JoinAnd(e1, e2).Some? <==> (exists j :: IsTest(j, a) && Says(OpAnd, j, e1, e2)) || Opposite(e1, e2)
  {
    if JoinAnd(e1, e2).Some? { JoinedIsSaid(a, e1, e2); }
    if j :| IsTest(j, a) && Says(OpAnd, j, e1, e2) {
      SaysAt(OpAnd, a, j, e1, e2);
      SaidIsJoined(a, j, e1, e2);
    }
  }

  // || joins less: equal tests, and two different tests for equality.
  lemma OrJoinsExactly(a: Sym, e1: Expr, e2: Expr)
    requires TypeOf(a).TTristate? && IsTest(e1, a) && IsTest(e2, a)
    ensures JoinOr(e1, e2).Some? <==> e1 == e2 || (IsEqTest(e1) && IsEqTest(e2))
    ensures JoinOr(e1, e2).Some? ==> IsTest(JoinOr(e1, e2).value, a) && Says(OpOr, JoinOr(e1, e2).value, e1, e2)
  {
    if JoinOr(e1, e2).Some? {
      forall env: Env | Sane(env)
        ensures Eval(JoinOr(e1, e2).value, env) == Combine(OpOr, Eval(e1, env), Eval(e2, env))
      {
        JoinOrSound(e1, e2, env);
      }
    }
  }

  // It misses that a says what a || a='y' says.
  lemma OrMissesAbsorption(a: Sym)
    requires TypeOf(a).TTristate?
    ensures Says(OpOr, Leaf(a), Leaf(a), Cmp(Eq, a, SymYes)) && JoinOr(Leaf(a), Cmp(Eq, a, SymYes)) == None
  {
    SaysAt(OpOr, a, Leaf(a), Leaf(a), Cmp(Eq, a, SymYes));
  }

  // ----- other operands -----

  // A bool and its negation: || joins them, and || and && what is the same.
  lemma BoolJoinsExactly(a: Sym, e1: Expr, e2: Expr)
    requires TypeOf(a).TBoolean? && e1 in {Leaf(a), Not(Leaf(a))} && e2 in {Leaf(a), Not(Leaf(a))}
    ensures JoinOr(e1, e2) == Some(if e1 == e2 then e1 else Leaf(SymYes))
    ensures JoinAnd(e1, e2) == if e1 == e2 then Some(e1) else None
  {
    assert ExprEq(Leaf(a), Leaf(a)) && ExprEq(Not(Leaf(a)), Not(Leaf(a)));
  }

  // What is about different symbols is not.
  lemma DifferentSymbols(op: BinOp, a: Sym, b: Sym, e1: Expr, e2: Expr)
    requires a != b && (IsTest(e1, a) || e1 == Not(Leaf(a))) && (IsTest(e2, b) || e2 == Not(Leaf(b)))
    ensures JoinPair(op, e1, e2) == None
  {
    assert !ExprEq(Leaf(a), Leaf(b)) && !ExprEq(Not(Leaf(a)), Not(Leaf(b)));
  }

  // ----- tests against other constants -----

  // The constant c stands for the tristate t: it is y, m or n, or its text is the number of t, or
  // is no number but the text of t.
  predicate Names(strto: (string, int) -> Option<int>, c: Sym, t: Tri) {
    match c
    case SymYes => t == YES
    case SymMod => t == MOD
    case SymNo => t == NO
    case Const(text) => if strto(text, 0).Some? then strto(text, 0).value == t else text == TriText(t, YES)
    case Ref(_, _) => false
  }

  lemma NamesExactly(a: Sym, c: Sym, env: Env)
    requires Sane(env) && TypeOf(a).TTristate? && IsConst(c)
    ensures EvalCmp(env, Eq, a, c) == Truth(Names(env.strto, c, TriOf(env, a)))
    ensures EvalCmp(env, Neq, a, c) == Truth(!Names(env.strto, c, TriOf(env, a)))
  {
    assert a in env.vals ==> GoodValue(a, env.vals[a], env.mods);
    StrcmpZero(StrOf(env, a), StrOf(env, c));
  }

  // The rule (a='b') && (a!='c') drops the second test whenever b and c are different constants.
  // That keeps the value under every assignment if and only if no tristate is named by both.
  lemma {:induction false} DifferentConstants(a: Sym, b: Sym, c: Sym, strto: (string, int) -> Option<int>)
    requires TypeOf(a).TTristate? && IsConst(b) && IsConst(c) && b != c && NoNumerals(strto)
    ensures JoinAnd(Cmp(Eq, a, b), Cmp(Neq, a, c)) == Some(Cmp(Eq, a, b))
    ensures (forall env: Env | Sane(env) && env.strto == strto ::
               Eval(Cmp(Eq, a, b), env) == Min(Eval(Cmp(Eq, a, b), env), Eval(Cmp(Neq, a, c), env)))
      <==> !exists t: Tri :: Names(strto, b, t) && Names(strto, c, t)
  {
    forall env: Env | Sane(env) && env.strto == strto
      ensures Eval(Cmp(Eq, a, b), env) == Truth(Names(strto, b, TriOf(env, a)))
      ensures Eval(Cmp(Neq, a, c), env) == Truth(!Names(strto, c, TriOf(env, a)))
    {
      NamesExactly(a, b, env);
      NamesExactly(a, c, env);
    }
    if t: Tri :| Names(strto, b, t) && Names(strto, c, t) {
      var env := WhereWith(a, t, strto);
      assert Eval(Cmp(Eq, a, b), env) == YES && Eval(Cmp(Neq, a, c), env) == NO;
    }
  }
}
