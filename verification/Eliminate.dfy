// Constant folding, expression equality and removal of common operands (expr.c).
module Eliminate {
  import opened Expr

  // ----- expr_eliminate_yn -----

  function EliminateYn(e: Expr): (r: Expr)
    ensures Size(r) <= Size(e)
  {
    match e
    case Bin(OpAnd, l, r) =>
      var l', r' := EliminateYn(l), EliminateYn(r);
      if l' == Leaf(SymNo) then Leaf(SymNo)
      else if l' == Leaf(SymYes) then r'
      else if r' == Leaf(SymNo) then Leaf(SymNo)
      else if r' == Leaf(SymYes) then l'
      else Bin(OpAnd, l', r')
    case Bin(OpOr, l, r) =>
      var l', r' := EliminateYn(l), EliminateYn(r);
      if l' == Leaf(SymNo) then r'
      else if l' == Leaf(SymYes) then Leaf(SymYes)
      else if r' == Leaf(SymNo) then l'
      else if r' == Leaf(SymYes) then Leaf(SymYes)
      else Bin(OpOr, l', r')
    case _ => e
  }

  // Folding constants never changes the value.
  lemma {:induction false} EliminateYnSound(e: Expr, env: Env)
    ensures Eval(EliminateYn(e), env) == Eval(e, env)
  {
    if e.Bin? {
      EliminateYnSound(e.l, env);
      EliminateYnSound(e.r, env);
    }
  }

  predicate IsYn(e: Expr) { e == Leaf(SymYes) || e == Leaf(SymNo) }

  // Some && or || has a constant operand.
  predicate HasConstantOperand(e: Expr) {
    e.Bin? && (IsYn(e.l) || IsYn(e.r) || HasConstantOperand(e.l) || HasConstantOperand(e.r))
  }

  // The folded expression has no constant operand left, and folding is a fixed point exactly
  // on such expressions; on any other it makes the expression smaller.
  lemma {:induction false} EliminateYnNormal(e: Expr)
    ensures !HasConstantOperand(EliminateYn(e))
    ensures EliminateYn(e) == e <==> !HasConstantOperand(e)
    ensures HasConstantOperand(e) ==> Size(EliminateYn(e)) < Size(e)
  {
    if e.Bin? {
      EliminateYnNormal(e.l);
      EliminateYnNormal(e.r);
    }
  }

  // ----- expr_eq and expr_eliminate_eq, mutually recursive as in the source -----

  // What __expr_eliminate_eq leaves of its two trees, how often it fired, and the operands it
  // removed from both (the last one is kept for the proofs only).
  datatype Pair = Pair(e1: Expr, e2: Expr, fired: nat, common: Expr)

  // The pair after comparing the left operand of e1 (a) and then its right operand (b).
  function Split1(op: BinOp, a: Pair, b: Pair): Pair {
    Pair(Bin(op, a.e1, b.e1), b.e2, a.fired + b.fired,
         if a.fired + b.fired == 0 then Unit(op) else Bin(op, a.common, b.common))
  }

  function Swap(p: Pair): Pair { Pair(p.e2, p.e1, p.fired, p.common) }

  // __expr_eliminate_eq
  function EliminateEq1(op: BinOp, e1: Expr, e2: Expr): (p: Pair)
    ensures Size(p.e1) <= Size(e1) && Size(p.e2) <= Size(e2)
    ensures p.fired == 0 ==> p.e1 == e1 && p.e2 == e2 && p.common == Unit(op)
    ensures !(e1.Bin? && e1.op == op) && p.fired > 0 ==> p.e1 == Unit(op)
    ensures !(e2.Bin? && e2.op == op) && p.fired > 0 ==> p.e2 == Unit(op)
    ensures e1.Bin? && e1.op == op ==> p.e1.Bin? && p.e1.op == op
    ensures e2.Bin? && e2.op == op ==> p.e2.Bin? && p.e2.op == op
    decreases Size(e1) + Size(e2), if (e1.Bin? && e1.op == op) || (e2.Bin? && e2.op == op) then 0 else 2, 0
  {
    if e1.Bin? && e1.op == op then
      var a := EliminateEq1(op, e1.l, e2);
      var b := EliminateEq1(op, e1.r, a.e2);
      Split1(op, a, b)
    else if e2.Bin? && e2.op == op then
      var a := EliminateEq1(op, e1, e2.l);
      var b := EliminateEq1(op, a.e1, e2.r);
      Swap(Split1(op, Swap(a), Swap(b)))
    else if e1 == e2 && IsYn(e1) then Pair(e1, e2, 0, Unit(op))
    else if !ExprEq(e1, e2) then Pair(e1, e2, 0, Unit(op))
    else Pair(Unit(op), Unit(op), 1, e1)
  }

  // The comparison passes of expr_eliminate_eq, before constant folding: first at the
  // operator of e1, then at the operator of e2 when the two roots still differ in type.
  function EliminateEqPasses(e1: Expr, e2: Expr): (p: Pair)
    decreases Size(e1) + Size(e2), 0, 1
  {
    var p := if e1.Bin? then EliminateEq1(e1.op, e1, e2) else Pair(e1, e2, 0, Unit(OpAnd));
    if !SameType(p.e1, p.e2) && p.e2.Bin? then
      var q := EliminateEq1(p.e2.op, p.e1, p.e2);
      assert p.fired == 0;  // a pass that fired has made the second one unnecessary
      q
    else p
  }

  // e1->type == e2->type
  predicate SameType(e1: Expr, e2: Expr) {
    match (e1, e2)
    case (Leaf(_), Leaf(_)) => true
    case (Not(_), Not(_)) => true
    case (Bin(o1, _, _), Bin(o2, _, _)) => o1 == o2
    case (Cmp(c1, _, _), Cmp(c2, _, _)) => c1 == c2
    case _ => false
  }

  // expr_eliminate_eq on two non-NULL expressions
  function EliminateEq(e1: Expr, e2: Expr): (Expr, Expr)
    decreases Size(e1) + Size(e2), 0, 2
  {
    var p := EliminateEqPasses(e1, e2);
    (EliminateYn(p.e1), EliminateYn(p.e2))
  }

  // expr_eq
  predicate ExprEq(e1: Expr, e2: Expr)
    decreases Size(e1) + Size(e2), 1
  {
    if !SameType(e1, e2) then false
    else
      match e1
      case Cmp(_, a, b) => a == e2.s1 && b == e2.s2
      case Leaf(s) => s == e2.sym
      case Not(x) => ExprEq(x, e2.e)
      case Bin(_, _, _) =>
        var (a, b) := EliminateEq(e1, e2);
        a.Leaf? && b.Leaf? && a.sym == b.sym
  }

  // ----- soundness -----

  // e1 and e2 are what p holds, each joined again with the operands p removed.
  ghost predicate Shares(op: BinOp, e1: Expr, e2: Expr, p: Pair, env: Env) {
    && Eval(e1, env) == Combine(op, Eval(p.e1, env), Eval(p.common, env))
    && Eval(e2, env) == Combine(op, Eval(p.e2, env), Eval(p.common, env))
  }

  lemma Regroup(op: BinOp, a: Tri, m: Tri, b: Tri, n: Tri)
    ensures Combine(op, Combine(op, a, m), Combine(op, b, n)) == Combine(op, Combine(op, a, b), Combine(op, m, n))
  {
  }

  lemma Rotate(op: BinOp, a: Tri, m: Tri, n: Tri)
    ensures Combine(op, Combine(op, a, n), m) == Combine(op, a, Combine(op, m, n))
  {
  }

  lemma SharesSplit(op: BinOp, l: Expr, r: Expr, e2: Expr, a: Pair, b: Pair, env: Env)
    requires Shares(op, l, e2, a, env) && Shares(op, r, a.e2, b, env)
    requires a.fired == 0 ==> a.common == Unit(op)
    requires b.fired == 0 ==> b.common == Unit(op)
    ensures Shares(op, Bin(op, l, r), e2, Split1(op, a, b), env)
  {
    var m, n := Eval(a.common, env), Eval(b.common, env);
    Regroup(op, Eval(a.e1, env), m, Eval(b.e1, env), n);
    Rotate(op, Eval(b.e2, env), m, n);
    assert a.fired + b.fired == 0 ==> m == n == Eval(Unit(op), env) == Combine(op, m, n);
  }

  // What __expr_eliminate_eq removes is one factor common to both expressions, and expr_eq
  // only equates expressions that agree under every assignment.
  lemma {:induction false} EliminateEq1Common(op: BinOp, e1: Expr, e2: Expr, env: Env)
    ensures Shares(op, e1, e2, EliminateEq1(op, e1, e2), env)
    decreases Size(e1) + Size(e2), if (e1.Bin? && e1.op == op) || (e2.Bin? && e2.op == op) then 0 else 3, 0
  {
    if e1.Bin? && e1.op == op {
      CommonInFirst(op, e1, e2, env);
    } else if e2.Bin? && e2.op == op {
      CommonInSecond(op, e1, e2, env);
    } else {
      CommonOfOperands(op, e1, e2, env);
    }
  }

  lemma {:induction false} CommonOfOperands(op: BinOp, e1: Expr, e2: Expr, env: Env)
    requires !(e1.Bin? && e1.op == op) && !(e2.Bin? && e2.op == op)
    ensures Shares(op, e1, e2, EliminateEq1(op, e1, e2), env)
    decreases Size(e1) + Size(e2), 2, 0
  {
    hide EvalCmp;
    ExprEqSound(e1, e2, env);
  }

  lemma {:induction false} CommonInFirst(op: BinOp, e1: Expr, e2: Expr, env: Env)
    requires e1.Bin? && e1.op == op
    ensures Shares(op, e1, e2, EliminateEq1(op, e1, e2), env)
    decreases Size(e1) + Size(e2), 0, 0, 0
  {
    var a := EliminateEq1(op, e1.l, e2);
    var b := EliminateEq1(op, e1.r, a.e2);
    EliminateEq1Common(op, e1.l, e2, env);
    EliminateEq1Common(op, e1.r, a.e2, env);
    SharesSplit(op, e1.l, e1.r, e2, a, b, env);
  }

  lemma {:induction false} CommonInSecond(op: BinOp, e1: Expr, e2: Expr, env: Env)
    requires e2.Bin? && e2.op == op && !(e1.Bin? && e1.op == op)
    ensures Shares(op, e1, e2, EliminateEq1(op, e1, e2), env)
    decreases Size(e1) + Size(e2), 0, 0, 0
  {
    var a := EliminateEq1(op, e1, e2.l);
    var b := EliminateEq1(op, a.e1, e2.r);
    EliminateEq1Common(op, e1, e2.l, env);
    EliminateEq1Common(op, a.e1, e2.r, env);
    SharesSplit(op, e2.l, e2.r, e1, Swap(a), Swap(b), env);
  }

  // The operator of the pass that fired, or && when none did.
  function FiringOp(e1: Expr, e2: Expr): BinOp {
    if e1.Bin? && (EliminateEq1(e1.op, e1, e2).fired > 0 || !e2.Bin?) then e1.op
    else if e2.Bin? then e2.op
    else OpAnd
  }

  // expr_eliminate_eq(e1, e2): both results, joined again by && or || with one and the same
  // expression, mean what the inputs meant.
  lemma {:induction false} EliminateEqCommonFactor(e1: Expr, e2: Expr, env: Env)
    ensures var (r1, r2) := EliminateEq(e1, e2);
      var op, m := FiringOp(e1, e2), EliminateEqPasses(e1, e2).common;
      && Eval(e1, env) == Eval(Bin(op, r1, m), env)
      && Eval(e2, env) == Eval(Bin(op, r2, m), env)
    decreases Size(e1) + Size(e2), 0, 2
  {
    var p := EliminateEqPasses(e1, e2);
    EliminateYnSound(p.e1, env);
    EliminateYnSound(p.e2, env);
    if e1.Bin? { EliminateEq1Common(e1.op, e1, e2, env); }
    if e2.Bin? { EliminateEq1Common(e2.op, e1, e2, env); }
  }

  lemma {:induction false} ExprEqSound(e1: Expr, e2: Expr, env: Env)
    ensures ExprEq(e1, e2) ==> Eval(e1, env) == Eval(e2, env)
    decreases Size(e1) + Size(e2), 1
  {
    match e1
    case Not(x) => if e2.Not? { ExprEqSound(x, e2.e, env); }
    case Bin(_, _, _) => EliminateEqCommonFactor(e1, e2, env);
    case _ =>
  }
}
