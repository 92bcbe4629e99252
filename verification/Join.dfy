// Joining two operands of one && or || into one (expr_join_or, expr_join_and in expr.c).
module Join {
  import opened Wrappers
  import opened Expr
  import opened Eliminate

  predicate IsEqTest(e: Expr) { e.Cmp? && e.cmp == Eq }

  predicate IsNeqTest(e: Expr) { e.Cmp? && e.cmp == Neq }

  // The symbol an operand is about: sym1, where a negated comparison is looked into ...
  function FirstSubject(e: Expr): Option<Sym> {
    match e
    case Leaf(s) => Some(s)
    case Not(Leaf(s)) => Some(s)
    case Not(Cmp(c, s, _)) => if c == Eq || c == Neq then Some(s) else None
    case Cmp(c, s, _) => if c == Eq || c == Neq then Some(s) else None
    case _ => None
  }

  // ... and sym2, where it is not.
  function SecondSubject(e: Expr): Option<Sym> {
    match e
    case Leaf(s) => Some(s)
    case Not(Leaf(s)) => Some(s)
    case Cmp(c, s, _) => if c == Eq || c == Neq then Some(s) else None
    case _ => None
  }

  // Both operands are about one bool or tristate symbol.
  function Subject(e1: Expr, e2: Expr): Option<Sym> {
    var s1, s2 := FirstSubject(e1), SecondSubject(e2);
    if s1.Some? && s2.Some? && s1 == s2 && IsLogic(s1.value) then s1 else None
  }

  // One operand compares with a and the other with b, in either order.
  predicate Tests(e1: Expr, e2: Expr, op: CmpOp, a: Sym, b: Sym) {
    && e1.Cmp? && e2.Cmp? && e1.cmp == op && e2.cmp == op
    && ((e1.s2 == a && e2.s2 == b) || (e1.s2 == b && e2.s2 == a))
  }

  // One operand is the symbol itself and the other compares it with c.
  predicate SymbolAndTest(e1: Expr, e2: Expr, op: CmpOp, c: Sym) {
    || (e1.Leaf? && e2.Cmp? && e2.cmp == op && e2.s2 == c)
    || (e2.Leaf? && e1.Cmp? && e1.cmp == op && e1.s2 == c)
  }

  function JoinOr(e1: Expr, e2: Expr): Option<Expr> {
    if ExprEq(e1, e2) then Some(e1)
    else
      var subject := Subject(e1, e2);
      if subject.None? then None
      else
        var s := subject.value;
        if TypeOf(s).TTristate? && Tests(e1, e2, Eq, SymYes, SymMod) then Some(Cmp(Neq, s, SymNo))
        else if TypeOf(s).TTristate? && Tests(e1, e2, Eq, SymYes, SymNo) then Some(Cmp(Neq, s, SymMod))
        else if TypeOf(s).TTristate? && Tests(e1, e2, Eq, SymMod, SymNo) then Some(Cmp(Neq, s, SymYes))
        else if TypeOf(s).TBoolean? && ((e1 == Not(Leaf(s)) && e2 == Leaf(s)) || (e2 == Not(Leaf(s)) && e1 == Leaf(s)))
        then Some(Leaf(SymYes))
        else None
  }

  function JoinAnd(e1: Expr, e2: Expr): Option<Expr> {
    if ExprEq(e1, e2) then Some(e1)
    else
      var subject := Subject(e1, e2);
      if subject.None? then None
      else
        var s := subject.value;
        if SymbolAndTest(e1, e2, Eq, SymYes) then Some(Cmp(Eq, s, SymYes))
        else if SymbolAndTest(e1, e2, Neq, SymNo) then Some(Leaf(s))
        else if SymbolAndTest(e1, e2, Neq, SymMod) then Some(Cmp(Eq, s, SymYes))
        else if !TypeOf(s).TTristate? then None
        else if IsEqTest(e1) && IsNeqTest(e2) && IsConst(e1.s2) && IsConst(e2.s2) then
          Some(if e1.s2 != e2.s2 then Cmp(Eq, s, e1.s2) else Leaf(SymNo))
        else if IsNeqTest(e1) && IsEqTest(e2) && IsConst(e1.s2) && IsConst(e2.s2) then
          Some(if e1.s2 != e2.s2 then Cmp(Eq, s, e2.s2) else Leaf(SymNo))
        else if Tests(e1, e2, Neq, SymYes, SymNo) then Some(Cmp(Eq, s, SymMod))
        else if Tests(e1, e2, Neq, SymYes, SymMod) then Some(Cmp(Eq, s, SymNo))
        else if Tests(e1, e2, Neq, SymMod, SymNo) then Some(Cmp(Eq, s, SymYes))
        else None
  }

  function JoinPair(op: BinOp, e1: Expr, e2: Expr): Option<Expr> {
    if op.OpAnd? then JoinAnd(e1, e2) else JoinOr(e1, e2)
  }

  // Whatever is equal for the code is joined, and becomes the first.
  lemma EqualIsJoined(op: BinOp, e1: Expr, e2: Expr)
    ensures ExprEq(e1, e2) ==> JoinPair(op, e1, e2) == Some(e1)
  {
    hide ExprEq;
  }

  // What a join may look like: never longer than its first operand, built from its operands.
  lemma {:induction false} JoinShape(op: BinOp, e1: Expr, e2: Expr)
    requires JoinPair(op, e1, e2).Some?
    ensures var j := JoinPair(op, e1, e2).value;
      && Size(j) <= Size(e1)
      && (j == e1 || j.Leaf? || j.Cmp?)
      && (WellFormed(e1) && WellFormed(e2) ==> WellFormed(j))
      && (Nnf(e1) ==> Nnf(j))
  {
  }

  // All comparisons of one symbol with y, m and n, as tristates.
  lemma ConstantTests(s: Sym, env: Env)
    requires Sane(env) && IsLogic(s)
    ensures EvalCmp(env, Eq, s, SymYes) == Truth(TriOf(env, s) == YES)
    ensures EvalCmp(env, Eq, s, SymMod) == Truth(TriOf(env, s) == MOD)
    ensures EvalCmp(env, Eq, s, SymNo) == Truth(TriOf(env, s) == NO)
    ensures EvalCmp(env, Neq, s, SymYes) == Truth(TriOf(env, s) != YES)
    ensures EvalCmp(env, Neq, s, SymMod) == Truth(TriOf(env, s) != MOD)
    ensures EvalCmp(env, Neq, s, SymNo) == Truth(TriOf(env, s) != NO)
    ensures TypeOf(s).TBoolean? ==> TriOf(env, s) != MOD
  {
    CompareWithConstant(env, s, SymYes);
    CompareWithConstant(env, s, SymMod);
    CompareWithConstant(env, s, SymNo);
    assert s in env.vals ==> GoodValue(s, env.vals[s], env.mods);
  }

  // Every join rule preserves the value.
  lemma {:induction false} JoinOrSound(e1: Expr, e2: Expr, env: Env)
    requires Sane(env) && JoinOr(e1, e2).Some?
    ensures Eval(JoinOr(e1, e2).value, env) == Max(Eval(e1, env), Eval(e2, env))
  {
    hide ExprEq, EvalCmp;
    if ExprEq(e1, e2) {
      ExprEqSound(e1, e2, env);
    } else if TypeOf(Subject(e1, e2).value).TTristate? {
      JoinOrTestsSound(e1, e2, env);
    } else {
      ConstantTests(Subject(e1, e2).value, env);
    }
  }

  lemma {:induction false} JoinOrTestsSound(e1: Expr, e2: Expr, env: Env)
    requires Sane(env) && JoinOr(e1, e2).Some? && !ExprEq(e1, e2) && TypeOf(Subject(e1, e2).value).TTristate?
    ensures Eval(JoinOr(e1, e2).value, env) == Max(Eval(e1, env), Eval(e2, env))
  {
    hide ExprEq, EvalCmp;
    ConstantTests(Subject(e1, e2).value, env);
  }

  lemma {:induction false} JoinAndSymbolSound(e1: Expr, e2: Expr, c: Sym, op: CmpOp, env: Env)
    requires Sane(env) && Subject(e1, e2).Some? && IsTriConst(c) && (op == Eq || op == Neq)
    requires SymbolAndTest(e1, e2, op, c)
    ensures var t := TriOf(env, Subject(e1, e2).value);
      Min(Eval(e1, env), Eval(e2, env)) == if (t == TriOf(env, c)) == (op == Eq) then t else NO
  {
    CompareWithConstant(env, Subject(e1, e2).value, c);
  }

  lemma {:induction false} JoinAndTestsSound(e1: Expr, e2: Expr, env: Env)
    requires Sane(env) && WellFormed(e1) && WellFormed(e2) && JoinAnd(e1, e2).Some?
    requires Subject(e1, e2).Some? && e1.Cmp? && e2.Cmp? && IsTriConst(e1.s2) && IsTriConst(e2.s2)
    requires !ExprEq(e1, e2)
    ensures Eval(JoinAnd(e1, e2).value, env) == Min(Eval(e1, env), Eval(e2, env))
  {
    hide ExprEq, EvalCmp;
    ConstantTests(Subject(e1, e2).value, env);
  }

  lemma {:induction false} JoinAndSound(e1: Expr, e2: Expr, env: Env)
    requires Sane(env) && WellFormed(e1) && WellFormed(e2) && JoinAnd(e1, e2).Some?
    ensures Eval(JoinAnd(e1, e2).value, env) == Min(Eval(e1, env), Eval(e2, env))
  {
    if ExprEq(e1, e2) {
      ExprEqSound(e1, e2, env);
    } else if e1.Cmp? && e2.Cmp? {
      JoinAndTestsSound(e1, e2, env);
    } else {
      ConstantTests(Subject(e1, e2).value, env);
      if SymbolAndTest(e1, e2, Eq, SymYes) {
        JoinAndSymbolSound(e1, e2, SymYes, Eq, env);
      } else if SymbolAndTest(e1, e2, Neq, SymNo) {
        JoinAndSymbolSound(e1, e2, SymNo, Neq, env);
      } else {
        JoinAndSymbolSound(e1, e2, SymMod, Neq, env);
      }
    }
  }

  lemma {:induction false} JoinSound(op: BinOp, e1: Expr, e2: Expr, env: Env)
    requires Sane(env) && WellFormed(e1) && WellFormed(e2) && JoinPair(op, e1, e2).Some?
    ensures Eval(JoinPair(op, e1, e2).value, env) == Combine(op, Eval(e1, env), Eval(e2, env))
  {
    if op.OpAnd? { JoinAndSound(e1, e2, env); } else { JoinOrSound(e1, e2, env); }
  }

  // Without WellFormed a join can change the value: a="2" && a!="0x2" is n for a=y, and the joined
  // a="2" is y.
  lemma {:induction false} NumeralsBreakTheJoin(a: Sym, env: Env)
    requires TypeOf(a).TTristate? && Sane(env) && TriOf(env, a) == YES
    requires env.strto("2", 0) == Some(2) && env.strto("0x2", 0) == Some(2)
    ensures JoinAnd(Cmp(Eq, a, Const("2")), Cmp(Neq, a, Const("0x2"))) == Some(Cmp(Eq, a, Const("2")))
    ensures Eval(Bin(OpAnd, Cmp(Eq, a, Const("2")), Cmp(Neq, a, Const("0x2"))), env) == NO
    ensures Eval(Cmp(Eq, a, Const("2")), env) == YES
  {
    assert StrOf(env, a) == "y";
  }
}
