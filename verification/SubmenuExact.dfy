// Exactly which items the test of menu_finalize moves, for dependencies that are conjunctions.
module SubmenuExact {
  import opened Wrappers
  import opened Expr
  import opened Eliminate
  import opened Join
  import opened JoinExact
  import opened Normalize
  import opened Dups
  import opened Submenu
  import opened Slots
  import opened EqualExact

  // A bool or tristate, its negation, or its comparison with y, m or n.
  predicate Literal(e: Expr) {
    match e
    case Leaf(a) => IsLogic(a)
    case Not(x) => x.Leaf? && IsLogic(x.sym)
    case Cmp(op, a, c) => (op == Eq || op == Neq) && IsLogic(a) && IsTriConst(c)
    case Bin(_, _, _) => false
  }

  predicate Conjunction(e: Expr) {
    if e.Bin? && e.op.OpAnd? then Conjunction(e.l) && Conjunction(e.r) else Literal(e)
  }

  // The assignment that differs from env in that s is n.
  function SwitchedOff(env: Env, s: Sym): (off: Env)
    requires IsLogic(s)
    ensures TriOf(off, s) == NO && (forall a | a != s :: TriOf(off, a) == TriOf(env, a))
  {
    env.(vals := env.vals[s := Value(NO, "n")])
  }

  lemma SwitchedOffSane(env: Env, s: Sym)
    requires Sane(env) && IsLogic(s)
    ensures Sane(SwitchedOff(env, s))
  {
  }

  // A literal that is met stays so when a symbol is switched off on which it does not depend.
  lemma LiteralStays(e: Expr, s: Sym, env: Env)
    requires Literal(e) && IsLogic(s) && Sane(env) && Eval(e, env) != NO && !DependsSymbol(e, s)
    ensures Eval(e, SwitchedOff(env, s)) != NO
  {
    SwitchedOffSane(env, s);
    if e.Cmp? {
      CompareWithConstant(env, e.s1, e.s2);
      CompareWithConstant(SwitchedOff(env, s), e.s1, e.s2);
    }
  }

  lemma {:induction false} ConjunctionStays(e: Expr, s: Sym, env: Env)
    requires Conjunction(e) && IsLogic(s) && Sane(env) && Eval(e, env) != NO && !DependsSymbol(e, s)
    ensures Eval(e, SwitchedOff(env, s)) != NO
  {
    if e.Bin? {
      ConjunctionStays(e.l, s, env);
      ConjunctionStays(e.r, s, env);
    } else {
      LiteralStays(e, s, env);
    }
  }

  // A conjunction that can be met at all passes the test for a symbol if and only if it is n
  // whenever the symbol is.
  lemma {:induction false} DependsConjunction(e: Expr, s: Sym, met: Env)
    requires Conjunction(e) && IsLogic(s) && Sane(met) && Eval(e, met) != NO
    ensures DependsSymbol(e, s) <==> forall env: Env | Sane(env) && TriOf(env, s) == NO :: Eval(e, env) == NO
  {
    if DependsSymbol(e, s) {
      forall env: Env | Sane(env) && TriOf(env, s) == NO
        ensures Eval(e, env) == NO
      {
        DependsSound(e, s, env);
      }
    } else {
      ConjunctionStays(e, s, met);
      SwitchedOffSane(met, s);
    }
  }

  predicate Symbols(e: Expr) {
    if e.Bin? then e.op.OpAnd? && Symbols(e.l) && Symbols(e.r) else e.Leaf? && IsLogic(e.sym)
  }

  // In particular an && of symbols depends on each of them, on the left and on the right.
  lemma DependsOnEach(e: Expr, s: Sym)
    requires Symbols(e) && IsLogic(s)
    ensures DependsSymbol(e, s) <==> s in Syms(e)
    ensures DependsSymbol(e, s) <==> forall env: Env | Sane(env) && TriOf(env, s) == NO :: Eval(e, env) == NO
  {
    AllOn(e, Syms(e));
    EachMentioned(e, s);
    DependsConjunction(e, s, WithAll(Syms(e)));
  }

  // The assignment in which the symbols ss are y.
  function WithAll(ss: set<Sym>): Env {
    Env(map s | s in ss && IsLogic(s) :: Value(YES, "y"), YES, (_, _) => None)
  }

  lemma {:induction false} AllOn(e: Expr, ss: set<Sym>)
    requires Symbols(e) && Syms(e) <= ss
    ensures Conjunction(e) && Sane(WithAll(ss)) && Eval(e, WithAll(ss)) == YES
  {
    if e.Bin? {
      AllOn(e.l, ss);
      AllOn(e.r, ss);
    }
  }

  lemma {:induction false} EachMentioned(e: Expr, s: Sym)
    requires Symbols(e)
    ensures DependsSymbol(e, s) <==> s in Syms(e)
  {
    if e.Bin? {
      EachMentioned(e.l, s);
      EachMentioned(e.r, s);
    }
  }

  // ----- the whole test -----

  // An item whose dependency asks for several things moves under a symbol if and only if it
  // mentions the symbol, and passes the test for it or asks for all the prompt asks for.
  lemma {:induction false} BelongsExactly(dep: Option<Expr>, promptDep: Option<Expr>, s: Sym)
    requires Plain(NotNo(dep)) && Plain(NotNo(promptDep)) && IsOp(OpAnd, NotNo(dep))
    ensures BelongsUnder(dep, promptDep, s)
      <==> && ContainsSymbol(dep, s)
           && (|| DependsSymbol(dep.value, s)
               || forall x | Plain(x) && !IsOp(OpAnd, x) ::
                    Count(OpAnd, NotNo(promptDep), x) <= Count(OpAnd, NotNo(dep), x))
  {
    hide NotNo, EliminateEq, Plain, Count, DependsSymbol;
    EliminatedExactly(NotNo(dep), NotNo(promptDep));
  }

  // One that asks for a single thing only if it passes the test for the symbol.
  lemma {:induction false} BelongsAlone(dep: Option<Expr>, promptDep: Option<Expr>, s: Sym)
    requires Plain(NotNo(dep)) && Plain(NotNo(promptDep)) && !IsOp(OpAnd, NotNo(dep))
    ensures BelongsUnder(dep, promptDep, s) <==> ContainsSymbol(dep, s) && DependsSymbol(dep.value, s)
  {
    hide NotNo, EliminateEq, Plain, DependsSymbol;
    NothingEliminated(NotNo(dep), NotNo(promptDep));
  }
}
