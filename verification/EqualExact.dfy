// What expr_eq and expr_eliminate_eq find (expr.c): on expressions without y and n, the operands of
// && and || that two expressions have in common, however these are ordered and nested.
module EqualExact {
  import opened Wrappers
  import opened Expr
  import opened Eliminate
  import opened Slots

  // y and n occur nowhere.
  predicate Plain(e: Expr) {
    match e
    case Leaf(_) => !IsYn(e)
    case Not(x) => Plain(x)
    case Bin(_, l, r) => Plain(l) && Plain(r)
    case Cmp(_, _, _) => true
  }

  // How many operands of e, as an expression of type op, are equal to x.
  function Count(op: BinOp, e: Expr, x: Expr): nat {
    if IsOp(op, e) then Count(op, e.l, x) + Count(op, e.r, x) else if ExprEq(e, x) then 1 else 0
  }

  function Minus(a: nat, b: nat): nat { if a > b then a - b else 0 }

  // Some operands have been replaced by the unit of op.
  predicate Reduced(op: BinOp, e: Expr) {
    if IsOp(op, e) then Reduced(op, e.l) && Reduced(op, e.r) else e == Unit(op) || Plain(e)
  }

  // All have.
  predicate Units(op: BinOp, e: Expr) {
    if IsOp(op, e) then Units(op, e.l) && Units(op, e.r) else e == Unit(op)
  }

  // The operands are smaller than n.
  predicate Below(op: BinOp, e: Expr, n: nat) {
    if IsOp(op, e) then Below(op, e.l, n) && Below(op, e.r, n) else Size(e) < n
  }

  // expr_eq is an equivalence on expressions smaller than n.
  ghost predicate Equivalence(n: nat) {
    && (forall a | Plain(a) && Size(a) < n :: ExprEq(a, a))
    && (forall a, b | Plain(a) && Plain(b) && Size(a) < n && Size(b) < n && ExprEq(a, b) :: ExprEq(b, a))
    && (forall a, b, c | Plain(a) && Plain(b) && Plain(c) && Size(a) < n && Size(b) < n && Size(c) < n
                         && ExprEq(a, b) && ExprEq(b, c) :: ExprEq(a, c))
  }

  predicate Atom(op: BinOp, x: Expr, n: nat) { Plain(x) && !IsOp(op, x) && Size(x) < n }

  // ----- counting what one pass eliminates -----

  lemma UnitCount(op: BinOp, x: Expr)
    requires Plain(x)
    ensures Count(op, Unit(op), x) == 0
  {
  }

  lemma Related(a: Expr, b: Expr, x: Expr, n: nat)
    requires Equivalence(n) && Plain(a) && Plain(b) && Plain(x) && Size(a) < n && Size(b) < n && Size(x) < n
    ensures ExprEq(a, b) ==> (ExprEq(a, x) <==> ExprEq(b, x))
    ensures ExprEq(a, x) && ExprEq(b, x) ==> ExprEq(a, b)
  {
    hide ExprEq, Plain, Size;
    if ExprEq(a, b) { assert ExprEq(b, a); }
    if ExprEq(b, x) { assert ExprEq(x, b); }
  }

  // How many operands of the type op are left in p and how they are counted, given e1 and e2.
  ghost predicate Leaves(op: BinOp, e1: Expr, e2: Expr, x: Expr, n: nat, p: Pair) {
    && Reduced(op, p.e1) && Reduced(op, p.e2) && Below(op, p.e1, n) && Below(op, p.e2, n)
    && Count(op, p.e1, x) == Minus(Count(op, e1, x), Count(op, e2, x))
    && Count(op, p.e2, x) == Minus(Count(op, e2, x), Count(op, e1, x))
  }

  lemma AtomCounts(op: BinOp, e1: Expr, e2: Expr, x: Expr, n: nat)
    requires !IsOp(op, e1) && !IsOp(op, e2) && Reduced(op, e1) && Reduced(op, e2)
    requires Size(e1) < n && Size(e2) < n && Atom(op, x, n) && Equivalence(n)
    ensures Leaves(op, e1, e2, x, n, EliminateEq1(op, e1, e2))
  {
    hide ExprEq, EliminateEq1, Equivalence, Leaves, Atom, Reduced, Plain, Size, IsOp, IsYn;
    AtomPlain(op, x, n);
    AtomPass(op, e1, e2);
    if Plain(e1) && Plain(e2) {
      Related(e1, e2, x, n);
      PlainFolded(e1);
    } else {
      AtomForms(op, e1, e2, x);
    }
    if (e1 == e2 && IsYn(e1)) || !ExprEq(e1, e2) {
      Unmatched(op, e1, e2, x, n);
    } else {
      Matched(op, e1, e2, x, n);
    }
  }

  // An atom is the unit, which is counted nowhere and equals itself alone, or has no y and n.
  lemma AtomForms(op: BinOp, e1: Expr, e2: Expr, x: Expr)
    requires !IsOp(op, e1) && !IsOp(op, e2) && Reduced(op, e1) && Reduced(op, e2) && !(Plain(e1) && Plain(e2))
    requires Plain(x)
    ensures !(ExprEq(e1, x) && ExprEq(e2, x)) && (ExprEq(e1, e2) ==> e1 == e2 && IsYn(e1))
  {
    UnitCount(op, x);
    UnitEqual(op, e1, e2);
  }

  lemma Unmatched(op: BinOp, e1: Expr, e2: Expr, x: Expr, n: nat)
    requires !IsOp(op, e1) && !IsOp(op, e2) && Reduced(op, e1) && Reduced(op, e2) && Size(e1) < n && Size(e2) < n
    requires !(ExprEq(e1, x) && ExprEq(e2, x))
    ensures Leaves(op, e1, e2, x, n, Pair(e1, e2, 0, Unit(op)))
  {
    hide ExprEq, Reduced;
  }

  lemma Matched(op: BinOp, e1: Expr, e2: Expr, x: Expr, n: nat)
    requires !IsOp(op, e1) && !IsOp(op, e2) && Size(e1) < n && Plain(x)
    requires ExprEq(e1, x) <==> ExprEq(e2, x)
    ensures Leaves(op, e1, e2, x, n, Pair(Unit(op), Unit(op), 1, e1))
  {
    UnitCount(op, x);
    hide ExprEq;
  }

  lemma AtomPass(op: BinOp, e1: Expr, e2: Expr)
    requires !IsOp(op, e1) && !IsOp(op, e2)
    ensures EliminateEq1(op, e1, e2)
      == if (e1 == e2 && IsYn(e1)) || !ExprEq(e1, e2) then Pair(e1, e2, 0, Unit(op))
         else Pair(Unit(op), Unit(op), 1, e1)
  {
  }

  lemma UnitEqual(op: BinOp, e1: Expr, e2: Expr)
    requires e1 == Unit(op) || e2 == Unit(op)
    ensures ExprEq(e1, e2) ==> e1 == e2 && IsYn(e1)
  {
  }

  // The recursion on an operand of e1 ...
  lemma PassLeft(op: BinOp, e1: Expr, e2: Expr)
    requires IsOp(op, e1)
    ensures var a := EliminateEq1(op, e1.l, e2);
      EliminateEq1(op, e1, e2) == Split1(op, a, EliminateEq1(op, e1.r, a.e2))
  {
  }

  // ... or of e2.
  lemma PassRight(op: BinOp, e1: Expr, e2: Expr)
    requires !IsOp(op, e1) && IsOp(op, e2)
    ensures var a := EliminateEq1(op, e1, e2.l);
      EliminateEq1(op, e1, e2) == Swap(Split1(op, Swap(a), Swap(EliminateEq1(op, a.e1, e2.r))))
  {
  }

  // What is left of both operands of e1 = l op r, taken one after the other.
  lemma BothLeft(op: BinOp, l: Expr, r: Expr, e2: Expr, x: Expr, n: nat, a: Pair, b: Pair)
    requires Leaves(op, l, e2, x, n, a) && Leaves(op, r, a.e2, x, n, b)
    ensures Leaves(op, Bin(op, l, r), e2, x, n, Split1(op, a, b))
    ensures Leaves(op, e2, Bin(op, l, r), x, n, Swap(Split1(op, a, b)))
  {
    hide ExprEq;
  }

  lemma Swapped(op: BinOp, e1: Expr, e2: Expr, x: Expr, n: nat, p: Pair)
    requires Leaves(op, e1, e2, x, n, p)
    ensures Leaves(op, e2, e1, x, n, Swap(p))
  {
    hide ExprEq, Count, Reduced, Below;
  }

  lemma LeavesForms(op: BinOp, e1: Expr, e2: Expr, x: Expr, n: nat, p: Pair)
    requires Leaves(op, e1, e2, x, n, p)
    ensures Reduced(op, p.e1) && Reduced(op, p.e2) && Below(op, p.e1, n) && Below(op, p.e2, n)
  {
  }

  lemma OperandForms(op: BinOp, e: Expr, n: nat)
    requires Reduced(op, e) && Below(op, e, n)
    ensures if IsOp(op, e) then Reduced(op, e.l) && Reduced(op, e.r) && Below(op, e.l, n) && Below(op, e.r, n)
            else Size(e) < n
  {
  }

  // One pass takes away what the two have in common, each operand as often as both have it.
  lemma {:induction false} EliminateCounts(op: BinOp, e1: Expr, e2: Expr, x: Expr, n: nat)
    requires Reduced(op, e1) && Reduced(op, e2) && Below(op, e1, n) && Below(op, e2, n)
    requires Atom(op, x, n) && Equivalence(n)
    ensures Leaves(op, e1, e2, x, n, EliminateEq1(op, e1, e2))
    decreases Size(e1) + Size(e2)
  {
    hide Equivalence, Atom, ExprEq, EliminateEq1, Leaves, Reduced, Below, Split1, Swap;
    OperandForms(op, e1, n);
    OperandForms(op, e2, n);
    if IsOp(op, e1) {
      var a := EliminateEq1(op, e1.l, e2);
      EliminateCounts(op, e1.l, e2, x, n);
      LeavesForms(op, e1.l, e2, x, n, a);
      EliminateCounts(op, e1.r, a.e2, x, n);
      BothLeft(op, e1.l, e1.r, e2, x, n, a, EliminateEq1(op, e1.r, a.e2));
      PassLeft(op, e1, e2);
    } else if IsOp(op, e2) {
      var a := EliminateEq1(op, e1, e2.l);
      EliminateCounts(op, e1, e2.l, x, n);
      LeavesForms(op, e1, e2.l, x, n, a);
      var b := EliminateEq1(op, a.e1, e2.r);
      EliminateCounts(op, a.e1, e2.r, x, n);
      Swapped(op, e1, e2.l, x, n, a);
      Swapped(op, a.e1, e2.r, x, n, b);
      SwapFields(a);
      BothLeft(op, e2.l, e2.r, e1, x, n, Swap(a), Swap(b));
      PassRight(op, e1, e2);
    } else {
      AtomCounts(op, e1, e2, x, n);
    }
  }

  lemma SwapFields(p: Pair)
    ensures Swap(p).e1 == p.e2 && Swap(p).e2 == p.e1
  {
  }

  // ----- constant folding afterwards -----

  lemma {:induction false} PlainFolded(e: Expr)
    requires Plain(e)
    ensures EliminateYn(e) == e && !IsYn(e)
  {
    if e.Bin? {
      PlainFolded(e.l);
      PlainFolded(e.r);
    }
  }

  lemma {:induction false} ReducedFolded(op: BinOp, e: Expr)
    requires Reduced(op, e)
    ensures if Units(op, e) then EliminateYn(e) == Unit(op) else Plain(EliminateYn(e))
    ensures EliminateYn(e).Leaf? && !Units(op, e) ==> Count(op, e, EliminateYn(e)) > 0
  {
    if IsOp(op, e) {
      ReducedFolded(op, e.l);
      ReducedFolded(op, e.r);
      if !Units(op, e.l) { PlainFolded(EliminateYn(e.l)); }
      if !Units(op, e.r) { PlainFolded(EliminateYn(e.r)); }
    } else if e != Unit(op) {
      PlainFolded(e);
    }
  }

  // Where no operand is counted, none is left.
  lemma {:induction false} NothingCounted(op: BinOp, e: Expr, n: nat)
    requires Reduced(op, e) && Below(op, e, n) && Equivalence(n)
    requires forall x | Atom(op, x, n) :: Count(op, e, x) == 0
    ensures Units(op, e)
  {
    if IsOp(op, e) {
      forall x | Atom(op, x, n)
        ensures Count(op, e.l, x) == 0 && Count(op, e.r, x) == 0
      {
        assert Count(op, e, x) == 0;
      }
      NothingCounted(op, e.l, n);
      NothingCounted(op, e.r, n);
    } else if e != Unit(op) {
      assert Atom(op, e, n) && ExprEq(e, e);
    }
  }

  lemma {:induction false} UnitsUncounted(op: BinOp, e: Expr, x: Expr)
    requires Units(op, e) && Plain(x)
    ensures Count(op, e, x) == 0
  {
    if IsOp(op, e) {
      UnitsUncounted(op, e.l, x);
      UnitsUncounted(op, e.r, x);
    } else {
      UnitCount(op, x);
    }
  }

  lemma {:induction false} PlainReduced(op: BinOp, e: Expr)
    requires Plain(e)
    ensures Reduced(op, e)
  {
    if IsOp(op, e) {
      PlainReduced(op, e.l);
      PlainReduced(op, e.r);
    }
  }

  lemma {:induction false} SizeBelow(op: BinOp, e: Expr, n: nat)
    requires Size(e) < n || (IsOp(op, e) && Size(e) <= n)
    ensures Below(op, e, n)
  {
    if IsOp(op, e) {
      SizeBelow(op, e.l, n);
      SizeBelow(op, e.r, n);
    }
  }

  // ----- expr_eq -----

  ghost predicate SameCounts(op: BinOp, e1: Expr, e2: Expr, n: nat) {
    forall x | Atom(op, x, n) :: Count(op, e1, x) == Count(op, e2, x)
  }

  lemma {:induction false} EqualByCounts(op: BinOp, e1: Expr, e2: Expr, n: nat)
    requires IsOp(op, e1) && IsOp(op, e2) && Plain(e1) && Plain(e2)
    requires Below(op, e1, n) && Below(op, e2, n) && Equivalence(n) && n > 1
    ensures ExprEq(e1, e2) <==> SameCounts(op, e1, e2, n)
  {
    hide Equivalence, EliminateEq1, EliminateYn, Atom;
    PlainReduced(op, e1);
    PlainReduced(op, e2);
    var p := EliminateEq1(op, e1, e2);
    assert EliminateEqPasses(e1, e2) == p;
    var a, b := EliminateYn(p.e1), EliminateYn(p.e2);
    assert ExprEq(e1, e2) <==> a.Leaf? && b.Leaf? && a.sym == b.sym;
    Leftover(op, e1, e2, n);
    ReducedFolded(op, p.e1);
    ReducedFolded(op, p.e2);
    if SameCounts(op, e1, e2, n) {
      NothingCounted(op, p.e1, n);
      NothingCounted(op, p.e2, n);
    } else if ExprEq(e1, e2) {
      if Units(op, p.e1) && Units(op, p.e2) {
        forall x | Atom(op, x, n)
          ensures Count(op, e1, x) == Count(op, e2, x)
        {
          AtomPlain(op, x, n);
          UnitsUncounted(op, p.e1, x);
          UnitsUncounted(op, p.e2, x);
        }
      } else {
        AtomLeaf(op, a, n);
      }
      assert false;
    }
  }

  lemma AtomPlain(op: BinOp, x: Expr, n: nat)
    requires Atom(op, x, n)
    ensures Plain(x) && Size(x) < n
  {
  }

  lemma AtomLeaf(op: BinOp, x: Expr, n: nat)
    requires n > 1 && x.Leaf?
    ensures Atom(op, x, n) <==> Plain(x)
  {
  }

  // What one pass leaves, for all operands at once.
  lemma {:induction false} Leftover(op: BinOp, e1: Expr, e2: Expr, n: nat)
    requires Reduced(op, e1) && Reduced(op, e2) && Below(op, e1, n) && Below(op, e2, n) && Equivalence(n) && n > 1
    ensures var p := EliminateEq1(op, e1, e2);
      && Reduced(op, p.e1) && Reduced(op, p.e2) && Below(op, p.e1, n) && Below(op, p.e2, n)
    ensures forall x | Atom(op, x, n) :: Leaves(op, e1, e2, x, n, EliminateEq1(op, e1, e2))
  {
    hide Equivalence, EliminateEq1, Leaves, Reduced, Below;
    forall x | Atom(op, x, n)
      ensures Leaves(op, e1, e2, x, n, EliminateEq1(op, e1, e2))
    {
      EliminateCounts(op, e1, e2, x, n);
    }
    assert Atom(op, Leaf(SymMod), n);
    LeavesForms(op, e1, e2, Leaf(SymMod), n, EliminateEq1(op, e1, e2));
  }

  // ----- equivalence -----

  // Expressions of type op have the same operands in every size at once.
  lemma {:induction false} StepRefl(a: Expr, n: nat)
    requires Equivalence(n) && Plain(a) && Size(a) <= n
    ensures ExprEq(a, a)
  {
    match a
    case Bin(op, _, _) =>
      SizeBelow(op, a, n);
      EqualByCounts(op, a, a, n);
    case Not(x) =>
    case Leaf(_) =>
    case Cmp(_, _, _) =>
  }

  lemma {:induction false} StepSymm(a: Expr, b: Expr, n: nat)
    requires Equivalence(n) && Plain(a) && Plain(b) && Size(a) <= n && Size(b) <= n && ExprEq(a, b)
    ensures ExprEq(b, a)
  {
    match a
    case Bin(op, _, _) =>
      hide Equivalence, Count;
      SizeBelow(op, a, n);
      SizeBelow(op, b, n);
      EqualByCounts(op, a, b, n);
      EqualByCounts(op, b, a, n);
    case Not(x) =>
    case Leaf(_) =>
    case Cmp(_, _, _) =>
  }

  lemma {:induction false} StepTrans(a: Expr, b: Expr, c: Expr, n: nat)
    requires Equivalence(n) && Plain(a) && Plain(b) && Plain(c) && Size(a) <= n && Size(b) <= n && Size(c) <= n
    requires ExprEq(a, b) && ExprEq(b, c)
    ensures ExprEq(a, c)
  {
    match a
    case Bin(op, _, _) =>
      hide Equivalence, Count;
      SizeBelow(op, a, n);
      SizeBelow(op, b, n);
      SizeBelow(op, c, n);
      EqualByCounts(op, a, b, n);
      EqualByCounts(op, b, c, n);
      EqualByCounts(op, a, c, n);
    case Not(x) => assert ExprEq(x, b.e) && ExprEq(b.e, c.e);
    case Leaf(_) =>
    case Cmp(_, _, _) =>
  }

  lemma {:induction false} AllEquivalent(n: nat)
    ensures Equivalence(n)
  {
    if n > 0 {
      AllEquivalent(n - 1);
      forall a | Plain(a) && Size(a) < n
        ensures ExprEq(a, a)
      {
        StepRefl(a, n - 1);
      }
      forall a, b | Plain(a) && Plain(b) && Size(a) < n && Size(b) < n && ExprEq(a, b)
        ensures ExprEq(b, a)
      {
        StepSymm(a, b, n - 1);
      }
      forall a, b, c | Plain(a) && Plain(b) && Plain(c) && Size(a) < n && Size(b) < n && Size(c) < n
                       && ExprEq(a, b) && ExprEq(b, c)
        ensures ExprEq(a, c)
      {
        StepTrans(a, b, c, n - 1);
      }
    }
  }

  // Equality by the code is an equivalence.
  lemma {:induction false} EqualEquivalence(a: Expr, b: Expr, c: Expr)
    requires Plain(a) && Plain(b) && Plain(c)
    ensures ExprEq(a, a)
    ensures ExprEq(a, b) ==> ExprEq(b, a)
    ensures ExprEq(a, b) && ExprEq(b, c) ==> ExprEq(a, c)
  {
    hide ExprEq, Plain, Size;
    AllEquivalent(Size(a) + Size(b) + Size(c) + 1);
  }

  lemma {:induction false} Ready(op: BinOp, e1: Expr, e2: Expr, n: nat)
    requires Plain(e1) && Plain(e2) && Size(e1) < n && Size(e2) < n
    ensures Equivalence(n) && Below(op, e1, n) && Below(op, e2, n) && Reduced(op, e1) && Reduced(op, e2)
  {
    AllEquivalent(n);
    SizeBelow(op, e1, n);
    SizeBelow(op, e2, n);
    PlainReduced(op, e1);
    PlainReduced(op, e2);
  }

  // Two expressions of one type && or || are equal for the code if and only if every expression is
  // equal to as many operands of the one as of the other.
  lemma {:induction false} EqualExactly(op: BinOp, e1: Expr, e2: Expr)
    requires IsOp(op, e1) && IsOp(op, e2) && Plain(e1) && Plain(e2)
    ensures ExprEq(e1, e2) <==> forall x | Plain(x) && !IsOp(op, x) :: Count(op, e1, x) == Count(op, e2, x)
  {
    hide ExprEq, Plain, Size, Count, IsOp;
    var n := Size(e1) + Size(e2) + 1;
    Ready(op, e1, e2, n);
    EqualByCounts(op, e1, e2, n);
    if ExprEq(e1, e2) {
      forall x | Plain(x) && !IsOp(op, x)
        ensures Count(op, e1, x) == Count(op, e2, x)
      {
        EqualCounts(op, e1, e2, x);
      }
    }
  }

  lemma {:induction false} EqualCounts(op: BinOp, e1: Expr, e2: Expr, x: Expr)
    requires IsOp(op, e1) && IsOp(op, e2) && Plain(e1) && Plain(e2) && ExprEq(e1, e2) && Plain(x) && !IsOp(op, x)
    ensures Count(op, e1, x) == Count(op, e2, x)
  {
    hide ExprEq, Plain, Count, IsOp;
    var n := Size(e1) + Size(e2) + Size(x) + 1;
    Ready(op, e1, e2, n);
    EqualByCounts(op, e1, e2, n);
    assert Atom(op, x, n);
  }

  // So the order and the nesting of operands do not matter.
  lemma {:induction false} EqualRearranged(op: BinOp, a: Expr, b: Expr, c: Expr)
    requires Plain(a) && Plain(b) && Plain(c)
    ensures ExprEq(Bin(op, a, b), Bin(op, b, a))
    ensures ExprEq(Bin(op, Bin(op, a, b), c), Bin(op, a, Bin(op, b, c)))
  {
    hide ExprEq;
    EqualExactly(op, Bin(op, a, b), Bin(op, b, a));
    EqualExactly(op, Bin(op, Bin(op, a, b), c), Bin(op, a, Bin(op, b, c)));
  }

  // ----- expr_eliminate_eq -----

  // What is left of e2 is y if and only if e1 has all its operands, each as often.
  lemma {:induction false} EliminatedExactly(e1: Expr, e2: Expr)
    requires IsOp(OpAnd, e1) && Plain(e1) && Plain(e2)
    ensures EliminateEq(e1, e2).1 == Leaf(SymYes)
      <==> forall x | Plain(x) && !IsOp(OpAnd, x) :: Count(OpAnd, e2, x) <= Count(OpAnd, e1, x)
  {
    hide ExprEq, Plain, Count, EliminateEq, EliminateEq1, EliminateYn, IsOp;
    var r := EliminateEq1(OpAnd, e1, e2).e2;
    FirstPass(e1, e2);
    YesIfUnits(e1, e2);
    if Units(OpAnd, r) {
      forall x | Plain(x) && !IsOp(OpAnd, x)
        ensures Count(OpAnd, e2, x) <= Count(OpAnd, e1, x)
      {
        CountedOut(e1, e2, x);
      }
    }
    if forall x | Plain(x) && !IsOp(OpAnd, x) :: Count(OpAnd, e2, x) <= Count(OpAnd, e1, x) {
      AllOut(e1, e2);
    }
  }

  lemma {:induction false} YesIfUnits(e1: Expr, e2: Expr)
    requires Plain(e1) && Plain(e2)
    ensures var r := EliminateEq1(OpAnd, e1, e2).e2; EliminateYn(r) == Leaf(SymYes) <==> Units(OpAnd, r)
  {
    hide ExprEq, Plain, Count, EliminateEq1, EliminateYn, Reduced, Below;
    var n := Size(e1) + Size(e2) + 1;
    Ready(OpAnd, e1, e2, n);
    Leftover(OpAnd, e1, e2, n);
    var r := EliminateEq1(OpAnd, e1, e2).e2;
    ReducedFolded(OpAnd, r);
    if !Units(OpAnd, r) { NotYn(EliminateYn(r)); }
  }

  lemma {:induction false} AllOut(e1: Expr, e2: Expr)
    requires Plain(e1) && Plain(e2)
    requires forall x | Plain(x) && !IsOp(OpAnd, x) :: Count(OpAnd, e2, x) <= Count(OpAnd, e1, x)
    ensures Units(OpAnd, EliminateEq1(OpAnd, e1, e2).e2)
  {
    hide ExprEq, Plain, Count, EliminateEq1, Reduced, Below, IsOp;
    var n := Size(e1) + Size(e2) + 1;
    Ready(OpAnd, e1, e2, n);
    Leftover(OpAnd, e1, e2, n);
    var p := EliminateEq1(OpAnd, e1, e2);
    forall x | Atom(OpAnd, x, n)
      ensures Count(OpAnd, p.e2, x) == 0
    {
      assert Leaves(OpAnd, e1, e2, x, n, p);
    }
    NothingCounted(OpAnd, p.e2, n);
  }

  lemma {:induction false} CountedOut(e1: Expr, e2: Expr, x: Expr)
    requires Plain(e1) && Plain(e2) && Plain(x) && !IsOp(OpAnd, x) && Units(OpAnd, EliminateEq1(OpAnd, e1, e2).e2)
    ensures Count(OpAnd, e2, x) <= Count(OpAnd, e1, x)
  {
    hide ExprEq, Plain, Count, EliminateEq1, Reduced, Below, Units, IsOp;
    var n := Size(e1) + Size(e2) + Size(x) + 1;
    Ready(OpAnd, e1, e2, n);
    assert Atom(OpAnd, x, n);
    EliminateCounts(OpAnd, e1, e2, x, n);
    UnitsUncounted(OpAnd, EliminateEq1(OpAnd, e1, e2).e2, x);
  }

  // A pass for || does not make y of anything.
  lemma {:induction false} NoYesFromOr(e1: Expr, e2: Expr)
    requires Plain(e1) && Plain(e2)
    ensures EliminateYn(EliminateEq1(OpOr, e1, e2).e2) != Leaf(SymYes)
  {
    hide ExprEq, Plain, Count, EliminateEq1, EliminateYn, Reduced, Below;
    var n := Size(e1) + Size(e2) + 1;
    Ready(OpOr, e1, e2, n);
    Leftover(OpOr, e1, e2, n);
    var r := EliminateEq1(OpOr, e1, e2).e2;
    ReducedFolded(OpOr, r);
    if !Units(OpOr, r) { NotYn(EliminateYn(r)); }
  }

  lemma NotYn(e: Expr)
    requires Plain(e)
    ensures e != Leaf(SymYes) && e != Leaf(SymNo)
  {
  }

  // Only the pass for && decides.
  lemma {:induction false} FirstPass(e1: Expr, e2: Expr)
    requires IsOp(OpAnd, e1) && Plain(e1) && Plain(e2)
    ensures EliminateEq(e1, e2).1 == Leaf(SymYes) <==> EliminateYn(EliminateEq1(OpAnd, e1, e2).e2) == Leaf(SymYes)
  {
    hide ExprEq, Plain, EliminateEq1, EliminateYn;
    var p := EliminateEq1(OpAnd, e1, e2);
    if !SameType(p.e1, p.e2) && p.e2.Bin? {
      NoYesFromOr(e1, e2);
      PlainFolded(e2);
      NotYn(e2);
    }
  }

  // A single operand does not have all of the two or more operands of an &&.
  lemma {:induction false} AtomKeepsSome(e1: Expr, e2: Expr)
    requires Plain(e1) && Plain(e2) && !IsOp(OpAnd, e1) && IsOp(OpAnd, e2)
    ensures !Units(OpAnd, EliminateEq1(OpAnd, e1, e2).e2)
  {
    hide ExprEq, EliminateEq1, Below, Reduced;
    var a := EliminateEq1(OpAnd, e1, e2.l);
    var b := EliminateEq1(OpAnd, a.e1, e2.r);
    PassRight(OpAnd, e1, e2);
    if Units(OpAnd, a.e2) {
      PlainNotUnits(OpAnd, e2.l);
      assert a.e1 == Unit(OpAnd);
      UnitKeepsAll(OpAnd, e2.r);
    }
  }

  lemma {:induction false} PlainNotUnits(op: BinOp, e: Expr)
    requires Plain(e)
    ensures !Units(op, e)
  {
    if IsOp(op, e) { PlainNotUnits(op, e.l); }
  }

  lemma {:induction false} UnitKeepsAll(op: BinOp, e: Expr)
    requires Plain(e)
    ensures !Units(op, EliminateEq1(op, Unit(op), e).e2)
  {
    hide ExprEq, EliminateEq1, Count, Reduced, Units, Plain, Below;
    var n := Size(e) + 1;
    AllEquivalent(n);
    SizeBelow(op, e, n);
    SizeBelow(op, Unit(op), n);
    PlainReduced(op, e);
    UnitReduced(op);
    var r := EliminateEq1(op, Unit(op), e).e2;
    if Units(op, r) {
      forall x | Atom(op, x, n)
        ensures Count(op, e, x) == 0
      {
        EliminateCounts(op, Unit(op), e, x, n);
        UnitCount(op, x);
        UnitsUncounted(op, r, x);
      }
      NothingCounted(op, e, n);
      PlainNotUnits(op, e);
    }
  }

  lemma UnitReduced(op: BinOp)
    ensures Reduced(op, Unit(op))
  {
  }

  // So nothing becomes y next to an expression of another type than &&.
  lemma {:induction false} NothingEliminated(e1: Expr, e2: Expr)
    requires Plain(e1) && Plain(e2) && !IsOp(OpAnd, e1)
    ensures EliminateEq(e1, e2).1 != Leaf(SymYes)
  {
    hide ExprEq, Plain, EliminateEq1, EliminateYn, Units;
    PlainFolded(e2);
    NotYn(e2);
    NoYesFromOr(e1, e2);
    if IsOp(OpAnd, e2) {
      AtomKeepsSome(e1, e2);
      YesIfUnits(e1, e2);
    }
  }
}
