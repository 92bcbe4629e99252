// expr_eliminate_eq and expr_eq as the source runs them: two trees rewritten through slots, and
// a global counter of rewrites (expr.c).
module EliminateSlots {
  import opened Expr
  import E = Eliminate
  import opened Slots

  // trans_count
  class Counter {
    var n: nat

    constructor ()
      ensures n == 0
    {
      n := 0;
    }
  }

  lemma {:induction false} SlotChild(e: Expr, p: Path, right: bool)
    requires HasPath(e, p) && At(e, p).Bin?
    ensures HasPath(e, p + [right]) && At(e, p + [right]) == Child(At(e, p), right)
    ensures forall x :: Put(e, p + [right], x) == Put(e, p, if right then At(e, p).(r := x) else At(e, p).(l := x))
  {
    var q := p + [right];
    if p != [] {
      assert q[0] == p[0] && q[1..] == p[1..] + [right];
      SlotChild(Child(e, p[0]), p[1..], right);
    } else {
      assert q == [right] && q[1..] == [];
    }
  }

  // Storing into both operands of a node, one after the other.
  lemma {:induction false} PutBoth(e: Expr, p: Path, x: Expr, y: Expr)
    requires HasPath(e, p) && At(e, p).Bin?
    ensures HasPath(e, p + [false])
    ensures var e' := Put(e, p + [false], x);
      && HasPath(e', p + [true]) && At(e', p + [true]) == At(e, p).r
      && Put(e', p + [true], y) == Put(e, p, Bin(At(e, p).op, x, y))
  {
    var b := At(e, p);
    SlotChild(e, p, false);
    PutAt(e, p, b.(l := x));
    SlotChild(Put(e, p, b.(l := x)), p, true);
  }

  // The pair of expressions the pointers ep1 and ep2 lead into.
  class Pair {
    const count: Counter
    var e1: Expr
    var e2: Expr

    constructor (count: Counter, e1: Expr, e2: Expr)
      ensures this.count == count && this.e1 == e1 && this.e2 == e2
    {
      this.count, this.e1, this.e2 := count, e1, e2;
    }

    // __expr_eliminate_eq(op, p1 in e1, p2 in e2)
    method EliminateEq1(op: BinOp, p1: Path, p2: Path)
      requires HasPath(e1, p1) && HasPath(e2, p2)
      modifies this, count
      ensures HasPath(old(e1), p1) && HasPath(old(e2), p2)
      ensures var r := E.EliminateEq1(op, At(old(e1), p1), At(old(e2), p2));
        && e1 == Put(old(e1), p1, r.e1) && e2 == Put(old(e2), p2, r.e2)
        && count.n == old(count.n) + r.fired
      decreases Size(At(e1, p1)) + Size(At(e2, p2)), if IsOp(op, At(e1, p1)) || IsOp(op, At(e2, p2)) then 0 else 2, 0
    {
      hide E.EliminateEq1, E.ExprEq;
      ghost var t1, t2, a, b := e1, e2, At(e1, p1), At(e2, p2);
      Unfold(op, a, b);
      PutAt(t1, p1, a);
      PutAt(t2, p2, b);
      if IsOp(op, At(e1, p1)) {
        SlotChild(t1, p1, false);
        ghost var x := E.EliminateEq1(op, a.l, b);
        EliminateEq1(op, p1 + [false], p2);
        PutBoth(t1, p1, x.e1, E.EliminateEq1(op, a.r, x.e2).e1);
        PutAt(t2, p2, x.e2);
        EliminateEq1(op, p1 + [true], p2);
        return;
      }
      if IsOp(op, At(e2, p2)) {
        SlotChild(t2, p2, false);
        ghost var x := E.EliminateEq1(op, a, b.l);
        EliminateEq1(op, p1, p2 + [false]);
        PutBoth(t2, p2, x.e2, E.EliminateEq1(op, x.e1, b.r).e2);
        PutAt(t1, p1, x.e1);
        EliminateEq1(op, p1, p2 + [true]);
        return;
      }
      var x, y := At(e1, p1), At(e2, p2);
      if x == y && (x == Leaf(SymYes) || x == Leaf(SymNo)) {
        return;
      }
      var eq := ExprEq(count, x, y);
      if !eq {
        return;
      }
      count.n := count.n + 1;
      e1, e2 := Put(e1, p1, Unit(op)), Put(e2, p2, Unit(op));
    }

    static lemma {:induction false} Unfold(op: BinOp, a: Expr, b: Expr)
      ensures IsOp(op, a) ==>
        var x := E.EliminateEq1(op, a.l, b);
        var y := E.EliminateEq1(op, a.r, x.e2);
        var r := E.EliminateEq1(op, a, b);
        r.e1 == Bin(op, x.e1, y.e1) && r.e2 == y.e2 && r.fired == x.fired + y.fired && Size(x.e2) <= Size(b)
      ensures !IsOp(op, a) && IsOp(op, b) ==>
        var x := E.EliminateEq1(op, a, b.l);
        var y := E.EliminateEq1(op, x.e1, b.r);
        var r := E.EliminateEq1(op, a, b);
        r.e1 == y.e1 && r.e2 == Bin(op, x.e2, y.e2) && r.fired == x.fired + y.fired && Size(x.e1) <= Size(a)
      ensures !IsOp(op, a) && !IsOp(op, b) ==>
        var r := E.EliminateEq1(op, a, b);
        if (a == b && E.IsYn(a)) || !E.ExprEq(a, b) then r.e1 == a && r.e2 == b && r.fired == 0
        else r.e1 == r.e2 == Unit(op) && r.fired == 1
    {
    }

    // expr_eliminate_eq
    method EliminateEq()
      modifies this, count
      ensures (e1, e2) == E.EliminateEq(old(e1), old(e2))
      ensures count.n == old(count.n) + E.EliminateEqPasses(old(e1), old(e2)).fired
      decreases Size(e1) + Size(e2), 0, 2
    {
      hide E.EliminateEq1, E.ExprEq;
      if e1.Bin? {
        EliminateEq1(e1.op, [], []);
      }
      if !E.SameType(e1, e2) && e2.Bin? {
        EliminateEq1(e2.op, [], []);
      }
      e1 := E.EliminateYn(e1);
      e2 := E.EliminateYn(e2);
    }
  }

  // expr_eq: compares copies and restores the counter.
  method ExprEq(count: Counter, e1: Expr, e2: Expr) returns (res: bool)
    modifies count
    ensures res == E.ExprEq(e1, e2) && count.n == old(count.n)
    decreases Size(e1) + Size(e2), 1
  {
    if !E.SameType(e1, e2) {
      return false;
    }
    match e1 {
      case Cmp(_, a, b) =>
        return a == e2.s1 && b == e2.s2;
      case Leaf(s) =>
        return s == e2.sym;
      case Not(x) =>
        res := ExprEq(count, x, e2.e);
      case Bin(_, _, _) =>
        var copies := new Pair(count, e1, e2);
        var oldCount := count.n;
        copies.EliminateEq();
        res := copies.e1.Leaf? && copies.e2.Leaf? && copies.e1.sym == copies.e2.sym;
        count.n := oldCount;
    }
  }
}
