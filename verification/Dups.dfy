// Removal of duplicate and redundant operands (expr_eliminate_dups in expr.c).
module Dups {
  import opened Wrappers
  import opened Expr
  import opened Eliminate
  import opened Join
  import opened Slots

  // The node a slot on the spine points at.
  function Node(op: BinOp, e: Expr, p: Path): Expr
    requires OnSpine(op, e, p)
  {
    SpineHasPath(op, e, p);
    At(e, p)
  }

  // The last part of expr_eliminate_dups1: two different operands, the first of them already
  // simplified to a by n joins, are compared and joined.
  function JoinStep(op: BinOp, e: Expr, p1: Path, p2: Path, a: Expr, n: nat): (r: (Expr, nat))
    requires Operand(op, e, p1) && Operand(op, e, p2) && p1 != p2 && !IsOp(op, a)
  {
    PutElsewhere(op, e, p1, p2, a);
    PutElsewhere(op, e, p1, p2, Unit(op));
    var j := JoinPair(op, a, At(e, p2));
    if j.None? then (Put(e, p1, a), n)
    else (Put(Put(e, p1, Unit(op)), p2, j.value), n + 1)
  }

  lemma {:induction false} JoinStepShape(op: BinOp, e: Expr, p1: Path, p2: Path, a: Expr, n: nat)
    requires Operand(op, e, p1) && Operand(op, e, p2) && p1 != p2 && !IsOp(op, a)
    requires Size(a) <= Size(At(e, p1))
    requires n == 0 ==> a == At(e, p1)
    requires n > 0 ==> HasConstantOperand(a)
    ensures var r := JoinStep(op, e, p1, p2, a, n);
      && SameSpine(op, e, r.0) && Size(r.0) <= Size(e)
      && (r.1 == 0 ==> r.0 == e)
      && (r.1 > 0 ==> HasConstantOperand(r.0))
  {
    PutElsewhere(op, e, p1, p2, a);
    PutElsewhere(op, e, p1, p2, Unit(op));
    PutOperand(op, e, p1, a);
    PutAt(e, p1, a);
    PutConstant(op, e, p1, a);
    var j := JoinPair(op, a, At(e, p2));
    if j.Some? {
      JoinShape(op, a, At(e, p2));
      var f := Put(e, p1, Unit(op));
      PutOperand(op, e, p1, Unit(op));
      PutOperand(op, f, p2, j.value);
      SameSpineTrans(op, e, f, Put(f, p2, j.value));
      PutAt(e, p1, Unit(op));
      PutAt(f, p2, j.value);
      PutElsewhere(op, f, p2, p1, j.value);
      PutKeepsConstant(op, f, p2, p1, j.value);
    }
  }

  // expr_eliminate_dups1 on the tree e, with both slot arguments on the spine of op below its
  // root.  The slots may be equal and the first may lie inside the second, as in the call
  // (&e, &e).  Returns the rewritten tree and the number of joins (trans_count).
  function Dups1(op: BinOp, e: Expr, p1: Path, p2: Path): (r: (Expr, nat))
    requires OnSpine(op, e, p1) && OnSpine(op, e, p2)
    ensures SameSpine(op, e, r.0) && Size(r.0) <= Size(e)
    ensures r.1 == 0 ==> r.0 == e
    ensures r.1 > 0 ==> HasConstantOperand(r.0)
    decreases Size(e), SpineSize(op, Node(op, e, p1)), SpineSize(op, Node(op, e, p2))
  {
    var a, b := Node(op, e, p1), Node(op, e, p2);
    if IsOp(op, a) then
      Descend(op, e, p1);
      var x := Dups1(op, e, p1 + [false], p2);
      Across(op, e, x.0, p1 + [true], p2);
      var y := Dups1(op, x.0, p1 + [true], p2);
      SameSpineTrans(op, e, x.0, y.0);
      (y.0, x.1 + y.1)
    else if IsOp(op, b) then
      Descend(op, e, p2);
      var x := Dups1(op, e, p1, p2 + [false]);
      Across(op, e, x.0, p2 + [true], p1);
      var y := Dups1(op, x.0, p1, p2 + [true]);
      SameSpineTrans(op, e, x.0, y.0);
      (y.0, x.1 + y.1)
    else if p1 == p2 then
      SameSpineRefl(op, e);
      (e, 0)
    else
      SpineHasPath(op, e, p1);
      SpineHasPath(op, e, p2);
      OperandSmaller(op, e, p1, p2);
      var n := if a.Bin? then Dups1(a.op, a, [], []) else (a, 0);
      JoinStepShape(op, e, p1, p2, n.0, n.1);
      JoinStep(op, e, p1, p2, n.0, n.1)
  }

  lemma {:induction false} Descend(op: BinOp, e: Expr, p: Path)
    requires OnSpine(op, e, p) && IsOp(op, Node(op, e, p))
    ensures OnSpine(op, e, p + [false]) && OnSpine(op, e, p + [true])
    ensures SpineSize(op, Node(op, e, p + [false])) < SpineSize(op, Node(op, e, p))
    ensures SpineSize(op, Node(op, e, p + [true])) < SpineSize(op, Node(op, e, p))
  {
    SpineHasPath(op, e, p);
    SpineStep(op, e, p, false);
    SpineStep(op, e, p, true);
  }

  lemma {:induction false} Across(op: BinOp, e: Expr, f: Expr, p: Path, q: Path)
    requires SameSpine(op, e, f) && OnSpine(op, e, p) && OnSpine(op, e, q)
    ensures OnSpine(op, f, p) && OnSpine(op, f, q)
    ensures SpineSize(op, Node(op, f, p)) == SpineSize(op, Node(op, e, p))
    ensures SpineSize(op, Node(op, f, q)) == SpineSize(op, Node(op, e, q))
  {
    SameSpineAt(op, e, f, p);
    SameSpineAt(op, e, f, q);
    SameSpineSize(op, Node(op, e, p), Node(op, f, p));
    SameSpineSize(op, Node(op, e, q), Node(op, f, q));
  }

  // The pass goes through both operands of an && or || in a slot, the first slot first.
  lemma {:induction false} FirstOfTwo(op: BinOp, e: Expr, p1: Path, p2: Path)
    requires OnSpine(op, e, p1) && OnSpine(op, e, p2) && IsOp(op, Node(op, e, p1))
    ensures OnSpine(op, e, p1 + [false])
    ensures var x := Dups1(op, e, p1 + [false], p2);
      && OnSpine(op, x.0, p1 + [true]) && OnSpine(op, x.0, p2)
      && var y := Dups1(op, x.0, p1 + [true], p2);
         Dups1(op, e, p1, p2) == (y.0, x.1 + y.1)
  {
    hide Node, OnSpine, SpineSize, SameSpine, Size, JoinStep, HasConstantOperand, IsOp;
    Descend(op, e, p1);
    Across(op, e, Dups1(op, e, p1 + [false], p2).0, p1 + [true], p2);
  }

  lemma {:induction false} SecondOfTwo(op: BinOp, e: Expr, p1: Path, p2: Path)
    requires OnSpine(op, e, p1) && OnSpine(op, e, p2)
    requires !IsOp(op, Node(op, e, p1)) && IsOp(op, Node(op, e, p2))
    ensures OnSpine(op, e, p2 + [false])
    ensures var x := Dups1(op, e, p1, p2 + [false]);
      && OnSpine(op, x.0, p1) && OnSpine(op, x.0, p2 + [true])
      && var y := Dups1(op, x.0, p1, p2 + [true]);
         Dups1(op, e, p1, p2) == (y.0, x.1 + y.1)
  {
    hide Node, OnSpine, SpineSize, SameSpine, Size, JoinStep, HasConstantOperand, IsOp;
    Descend(op, e, p2);
    Across(op, e, Dups1(op, e, p1, p2 + [false]).0, p2 + [true], p1);
  }

  // Two different operands lie strictly inside the tree.
  lemma {:induction false} OperandSmaller(op: BinOp, e: Expr, p: Path, q: Path)
    requires Operand(op, e, p) && Operand(op, e, q) && p != q
    ensures Size(At(e, p)) < Size(e)
  {
    assert p != [];
    SubtreeSize(Child(e, p[0]), p[1..]);
  }

  lemma {:induction false} SubtreeSize(e: Expr, p: Path)
    requires HasPath(e, p)
    ensures Size(At(e, p)) <= Size(e)
  {
    if p != [] { SubtreeSize(Child(e, p[0]), p[1..]); }
  }

  // ----- one pass preserves the value and the form of the expression -----

  ghost predicate Kept(e: Expr, f: Expr, env: Env) {
    && WellFormed(f)
    && (Nnf(e) ==> Nnf(f))
    && Eval(f, env) == Eval(e, env)
  }

  lemma {:induction false} JoinStepSound(op: BinOp, e: Expr, p1: Path, p2: Path, a: Expr, n: nat, env: Env)
    requires Operand(op, e, p1) && Operand(op, e, p2) && p1 != p2 && !IsOp(op, a)
    requires Sane(env) && WellFormed(e) && Kept(At(e, p1), a, env)
    ensures Kept(e, JoinStep(op, e, p1, p2, a, n).0, env)
  {
    PutElsewhere(op, e, p1, p2, a);
    PutElsewhere(op, e, p1, p2, Unit(op));
    PutForm(e, p1, a);
    PutForm(e, p2, At(e, p2));
    EvalPut(e, p1, a, env);
    var j := JoinPair(op, a, At(e, p2));
    if j.Some? {
      JoinShape(op, a, At(e, p2));
      JoinSound(op, a, At(e, p2), env);
      var f := Put(e, p1, Unit(op));
      PutForm(e, p1, Unit(op));
      PutForm(f, p2, j.value);
      EvalPutTwo(op, e, p1, p2, Unit(op), j.value, env);
    }
  }

  lemma {:induction false} Dups1Sound(op: BinOp, e: Expr, p1: Path, p2: Path, env: Env)
    requires OnSpine(op, e, p1) && OnSpine(op, e, p2)
    requires Sane(env) && WellFormed(e)
    ensures Kept(e, Dups1(op, e, p1, p2).0, env)
    decreases Size(e), SpineSize(op, Node(op, e, p1)), SpineSize(op, Node(op, e, p2))
  {
    var a, b := Node(op, e, p1), Node(op, e, p2);
    if IsOp(op, a) {
      Descend(op, e, p1);
      Dups1Sound(op, e, p1 + [false], p2, env);
      var x := Dups1(op, e, p1 + [false], p2).0;
      Across(op, e, x, p1 + [true], p2);
      Dups1Sound(op, x, p1 + [true], p2, env);
    } else if IsOp(op, b) {
      Descend(op, e, p2);
      Dups1Sound(op, e, p1, p2 + [false], env);
      var x := Dups1(op, e, p1, p2 + [false]).0;
      Across(op, e, x, p2 + [true], p1);
      Dups1Sound(op, x, p1, p2 + [true], env);
    } else if p1 != p2 {
      SpineHasPath(op, e, p1);
      SpineHasPath(op, e, p2);
      PutForm(e, p1, a);
      if a.Bin? {
        OperandSmaller(op, e, p1, p2);
        Dups1Sound(a.op, a, [], [], env);
        var n := Dups1(a.op, a, [], []);
        JoinStepSound(op, e, p1, p2, n.0, n.1, env);
      } else {
        JoinStepSound(op, e, p1, p2, a, 0, env);
      }
    }
  }

  // ----- a pass without a join finds nothing to join anywhere -----

  // No two different operands of an && or || in e, at any depth the rewriter looks at, can be
  // joined.
  ghost predicate Irreducible(e: Expr)
    decreases Size(e)
  {
    e.Bin? ==> forall p, q | Operand(e.op, e, p) && Operand(e.op, e, q) && p != q ::
      Separate(e.op, e, p, q)
  }

  // The operands at p and q cannot be joined, and nothing inside the one at p can.
  ghost predicate Separate(op: BinOp, e: Expr, p: Path, q: Path)
    requires Operand(op, e, p) && Operand(op, e, q) && p != q
    decreases Size(e), 0
  {
    OperandSmaller(op, e, p, q);
    JoinPair(op, At(e, p), At(e, q)).None? && Irreducible(At(e, p))
  }

  predicate Prefix(p: Path, q: Path) { |p| <= |q| && q[..|p|] == p }

  // A longer path through a node of the spine goes on left or right.
  lemma {:induction false} PrefixSplit(op: BinOp, e: Expr, p: Path, q: Path)
    requires OnSpine(op, e, p) && Operand(op, e, q) && Prefix(p, q) && IsOp(op, Node(op, e, p))
    ensures Prefix(p + [false], q) || Prefix(p + [true], q)
  {
    if p == q {
      SpineHasPath(op, e, p);
    } else {
      var r := q[|p|];
      assert q[..|p| + 1] == p + [r];
    }
  }

  lemma {:induction false} PrefixOfOperand(op: BinOp, e: Expr, p: Path, q: Path)
    requires Operand(op, e, p) && OnSpine(op, e, q) && Prefix(p, q)
    ensures p == q
  {
    if p != [] {
      assert q[0] == p[0] && Prefix(p[1..], q[1..]) by { assert q[..|p|][1..] == q[1..][..|p| - 1]; }
      PrefixOfOperand(op, Child(e, p[0]), p[1..], q[1..]);
      assert p == [p[0]] + p[1..] && q == [q[0]] + q[1..];
    }
  }

  lemma {:induction false} Dups1Complete(op: BinOp, e: Expr, p1: Path, p2: Path, p: Path, q: Path)
    requires OnSpine(op, e, p1) && OnSpine(op, e, p2) && Dups1(op, e, p1, p2).1 == 0
    requires Operand(op, e, p) && Operand(op, e, q) && p != q && Prefix(p1, p) && Prefix(p2, q)
    ensures Separate(op, e, p, q)
    decreases Size(e), SpineSize(op, Node(op, e, p1)), SpineSize(op, Node(op, e, p2))
  {
    var a, b := Node(op, e, p1), Node(op, e, p2);
    if IsOp(op, a) {
      Descend(op, e, p1);
      PrefixSplit(op, e, p1, p);
      assert Dups1(op, e, p1 + [false], p2).1 == 0;
      if Prefix(p1 + [false], p) {
        Dups1Complete(op, e, p1 + [false], p2, p, q);
      } else {
        Dups1Complete(op, e, p1 + [true], p2, p, q);
      }
    } else if IsOp(op, b) {
      Descend(op, e, p2);
      PrefixSplit(op, e, p2, q);
      assert Dups1(op, e, p1, p2 + [false]).1 == 0;
      if Prefix(p2 + [false], q) {
        Dups1Complete(op, e, p1, p2 + [false], p, q);
      } else {
        Dups1Complete(op, e, p1, p2 + [true], p, q);
      }
    } else {
      SpineHasPath(op, e, p1);
      SpineHasPath(op, e, p2);
      PrefixOfOperand(op, e, p1, p);
      PrefixOfOperand(op, e, p2, q);
      OperandSmaller(op, e, p1, p2);
      if a.Bin? { PassComplete(a); }
    }
  }

  lemma {:induction false} PassComplete(e: Expr)
    requires e.Bin? && Dups1(e.op, e, [], []).1 == 0
    ensures Irreducible(e)
    decreases Size(e), SpineSize(e.op, e) + 1
  {
    forall p, q | Operand(e.op, e, p) && Operand(e.op, e, q) && p != q
      ensures Separate(e.op, e, p, q)
    {
      Dups1Complete(e.op, e, [], [], p, q);
    }
  }

  // ----- expr_eliminate_dups -----

  // One pass of the loop in expr_eliminate_dups.
  function Pass(e: Expr): (Expr, nat) {
    if e.Bin? then Dups1(e.op, e, [], []) else (e, 0)
  }

  // Passes and constant folding alternate until a pass joins nothing.  The expression gets
  // smaller in every round but the last.
  function Deduplicate(e: Expr): Expr
    decreases Size(e)
  {
    var r := Pass(e);
    if r.1 == 0 then r.0
    else
      EliminateYnNormal(r.0);
      Deduplicate(EliminateYn(r.0))
  }

  // No operand of the result is equal to another one.
  lemma {:induction false} NoneTwice(e: Expr, p: Path, q: Path)
    requires var r := Deduplicate(e); r.Bin? && Operand(r.op, r, p) && Operand(r.op, r, q) && p != q
    ensures var r := Deduplicate(e); !ExprEq(At(r, p), At(r, q))
  {
    hide Deduplicate, ExprEq;
    var r := Deduplicate(e);
    DeduplicateComplete(e);
    assert Separate(r.op, r, p, q);
    EqualIsJoined(r.op, At(r, p), At(r, q));
  }

  // Nothing is left to do for a second call.
  lemma {:induction false} DeduplicateTwice(e: Expr)
    ensures Deduplicate(Deduplicate(e)) == Deduplicate(e)
    decreases Size(e)
  {
    var r := Pass(e);
    if r.1 == 0 {
      assert r.0 == e;
    } else {
      EliminateYnNormal(r.0);
      DeduplicateTwice(EliminateYn(r.0));
    }
  }

  function DeduplicateOpt(e: Option<Expr>): Option<Expr> {
    if e.None? then None else Some(Deduplicate(e.value))
  }

  lemma {:induction false} EliminateYnForm(e: Expr)
    ensures WellFormed(e) ==> WellFormed(EliminateYn(e))
    ensures Nnf(e) ==> Nnf(EliminateYn(e))
  {
    if e.Bin? {
      EliminateYnForm(e.l);
      EliminateYnForm(e.r);
    }
  }

  // Value, form, irreducibility and size of the result.
  lemma {:induction false} DeduplicateSound(e: Expr, env: Env)
    requires Sane(env) && WellFormed(e)
    ensures Kept(e, Deduplicate(e), env)
    decreases Size(e)
  {
    var r := Pass(e);
    if e.Bin? { Dups1Sound(e.op, e, [], [], env); }
    if r.1 > 0 {
      EliminateYnNormal(r.0);
      EliminateYnSound(r.0, env);
      EliminateYnForm(r.0);
      DeduplicateSound(EliminateYn(r.0), env);
    }
  }

  lemma {:induction false} DeduplicateComplete(e: Expr)
    ensures Irreducible(Deduplicate(e))
    ensures Size(Deduplicate(e)) <= Size(e)
    ensures Deduplicate(e) == e || Size(Deduplicate(e)) < Size(e)
    decreases Size(e)
  {
    var r := Pass(e);
    if r.1 > 0 {
      EliminateYnNormal(r.0);
      DeduplicateComplete(EliminateYn(r.0));
    } else if e.Bin? {
      PassComplete(e);
    }
  }

  // ----- the same in place -----

  // The state expr_eliminate_dups works on: the expression, rewritten through slots into it,
  // and the global trans_count.
  class Rewriter {
    var expr: Expr
    var transCount: nat

    constructor (e: Expr)
      ensures expr == e && transCount == 0
    {
      expr := e;
      transCount := 0;
    }

    // expr_eliminate_dups1(op, base + p1, base + p2)
    method EliminateDups1(op: BinOp, base: Path, p1: Path, p2: Path)
      requires HasPath(expr, base)
      requires OnSpine(op, At(expr, base), p1) && OnSpine(op, At(expr, base), p2)
      modifies this
      ensures HasPath(old(expr), base)
      ensures var r := Dups1(op, At(old(expr), base), p1, p2);
        && expr == Put(old(expr), base, r.0)
        && transCount == old(transCount) + r.1
      ensures HasPath(expr, base)
      decreases Size(At(expr, base)), SpineSize(op, Node(op, At(expr, base), p1)),
                SpineSize(op, Node(op, At(expr, base), p2))
    {
      ghost var e0, e := expr, At(expr, base);
      PutAt(expr, base, e);
      SlotJoined(expr, base, p1, op);
      SlotJoined(expr, base, p2, op);
      var e1 := At(expr, base + p1);
      var e2 := At(expr, base + p2);
      if IsOp(op, e1) {
        DescendFirst(op, base, p1, p2);
        return;
      }
      if IsOp(op, e2) {
        DescendSecond(op, base, p1, p2);
        return;
      }
      SpineHasPath(op, e, p1);
      SpineHasPath(op, e, p2);
      if p1 != p2 {
        ProcessOperands(op, base, p1, p2);
        PutAt(e0, base, Dups1(op, e, p1, p2).0);
      }
    }

    // The first slot holds an && or || of the type looked at: both its operands in turn ...
    method DescendFirst(op: BinOp, base: Path, p1: Path, p2: Path)
      requires HasPath(expr, base)
      requires OnSpine(op, At(expr, base), p1) && OnSpine(op, At(expr, base), p2)
      requires IsOp(op, Node(op, At(expr, base), p1))
      modifies this
      ensures HasPath(old(expr), base)
      ensures var r := Dups1(op, At(old(expr), base), p1, p2);
        && expr == Put(old(expr), base, r.0)
        && transCount == old(transCount) + r.1
      ensures HasPath(expr, base)
      decreases Size(At(expr, base)), SpineSize(op, Node(op, At(expr, base), p1)),
                SpineSize(op, Node(op, At(expr, base), p2)), 0
    {
      hide Dups1, Put, At;
      ghost var e0, e := expr, At(expr, base);
      Descend(op, e, p1);
      EliminateDups1(op, base, p1 + [false], p2);
      ghost var x := Dups1(op, e, p1 + [false], p2).0;
      PutAt(e0, base, x);
      Across(op, e, x, p1 + [true], p2);
      EliminateDups1(op, base, p1 + [true], p2);
      PutAt(e0, base, Dups1(op, x, p1 + [true], p2).0);
      FirstOfTwo(op, e, p1, p2);
    }

    // ... or else the second one.
    method DescendSecond(op: BinOp, base: Path, p1: Path, p2: Path)
      requires HasPath(expr, base)
      requires OnSpine(op, At(expr, base), p1) && OnSpine(op, At(expr, base), p2)
      requires !IsOp(op, Node(op, At(expr, base), p1)) && IsOp(op, Node(op, At(expr, base), p2))
      modifies this
      ensures HasPath(old(expr), base)
      ensures var r := Dups1(op, At(old(expr), base), p1, p2);
        && expr == Put(old(expr), base, r.0)
        && transCount == old(transCount) + r.1
      ensures HasPath(expr, base)
      decreases Size(At(expr, base)), SpineSize(op, Node(op, At(expr, base), p1)),
                SpineSize(op, Node(op, At(expr, base), p2)), 0
    {
      hide Dups1, Put, At;
      ghost var e0, e := expr, At(expr, base);
      Descend(op, e, p2);
      EliminateDups1(op, base, p1, p2 + [false]);
      ghost var x := Dups1(op, e, p1, p2 + [false]).0;
      PutAt(e0, base, x);
      Across(op, e, x, p2 + [true], p1);
      EliminateDups1(op, base, p1, p2 + [true]);
      PutAt(e0, base, Dups1(op, x, p1, p2 + [true]).0);
      SecondOfTwo(op, e, p1, p2);
    }

    // Both slots hold operands: simplify the first one, then compare and join.
    method ProcessOperands(op: BinOp, base: Path, p1: Path, p2: Path)
      requires HasPath(expr, base)
      requires Operand(op, At(expr, base), p1) && Operand(op, At(expr, base), p2) && p1 != p2
      modifies this
      ensures HasPath(old(expr), base)
      ensures var r := Dups1(op, At(old(expr), base), p1, p2);
        && expr == Put(old(expr), base, r.0)
        && transCount == old(transCount) + r.1
      decreases Size(At(expr, base)), SpineSize(op, Node(op, At(expr, base), p1)),
                SpineSize(op, Node(op, At(expr, base), p2)), 0
    {
      ghost var e0, e := expr, At(expr, base);
      SlotJoined(expr, base, p1, op);
      var e1 := At(expr, base + p1);
      OperandSmaller(op, e, p1, p2);
      PutInside(e0, base, p1, e1);
      PutAt(e, p1, e1);
      if e1.Bin? {
        EliminateDups1(e1.op, base + p1, [], []);
        PutInside(e0, base, p1, Dups1(e1.op, e1, [], []).0);
      }
      ghost var n := if e1.Bin? then Dups1(e1.op, e1, [], []) else (e1, 0);
      LeafState(op, e0, base, e, p1, p2, n.0);
      JoinOperands(op, base, p1, p2);
      JoinAfter(op, e0, base, e, p1, p2, n.0);
    }

    // expr_join_or or expr_join_and on two different operands, and what follows it.
    method JoinOperands(op: BinOp, base: Path, p1: Path, p2: Path)
      requires HasPath(expr, base)
      requires Operand(op, At(expr, base), p1) && Operand(op, At(expr, base), p2) && p1 != p2
      modifies this
      ensures HasPath(old(expr), base)
      ensures var f := At(old(expr), base);
        var r := JoinStep(op, f, p1, p2, At(f, p1), 0);
        && expr == Put(old(expr), base, r.0)
        && transCount == old(transCount) + r.1
    {
      ghost var e0, f := expr, At(expr, base);
      PutAt(expr, base, f);
      PutAt(f, p1, At(f, p1));
      SlotJoined(expr, base, p1, op);
      SlotJoined(expr, base, p2, op);
      var joined := JoinPair(op, At(expr, base + p1), At(expr, base + p2));
      if joined.Some? {
        PutInside(expr, base, p1, Unit(op));
        expr := Put(expr, base + p1, Unit(op));
        PutAt(e0, base, Put(f, p1, Unit(op)));
        PutElsewhere(op, f, p1, p2, Unit(op));
        SlotJoined(expr, base, p2, op);
        PutInside(expr, base, p2, joined.value);
        expr := Put(expr, base + p2, joined.value);
        transCount := transCount + 1;
      }
    }

    // expr_eliminate_dups: the loop ends because every round but the last shrinks the tree.
    method EliminateDups()
      modifies this
      ensures expr == Deduplicate(old(expr))
      ensures Irreducible(expr)
      ensures transCount == old(transCount)
    {
      var oldcount := transCount;
      DeduplicateComplete(expr);
      while true
        invariant Deduplicate(expr) == Deduplicate(old(expr))
        decreases Size(expr)
      {
        transCount := 0;
        ghost var before := expr;
        if expr.Bin? {
          EliminateDups1(expr.op, [], [], []);
        }
        if transCount == 0 {
          break;
        }
        EliminateYnNormal(expr);
        expr := EliminateYn(expr);
      }
      transCount := oldcount;
    }
  }

  // A slot below a slot.
  lemma {:induction false} SlotJoined(e: Expr, base: Path, p: Path, op: BinOp)
    requires HasPath(e, base) && OnSpine(op, At(e, base), p)
    ensures HasPath(e, base + p) && At(e, base + p) == Node(op, At(e, base), p)
  {
    if base == [] {
      assert base + p == p;
      SpineHasPath(op, e, p);
    } else {
      assert (base + p)[0] == base[0] && (base + p)[1..] == base[1..] + p;
      SlotJoined(Child(e, base[0]), base[1..], p, op);
    }
  }

  lemma {:induction false} PutInside(e: Expr, base: Path, p: Path, x: Expr)
    requires HasPath(e, base) && HasPath(At(e, base), p)
    ensures HasPath(e, base + p)
    ensures Put(e, base + p, x) == Put(e, base, Put(At(e, base), p, x))
  {
    if base == [] {
      assert base + p == p;
    } else {
      assert (base + p)[0] == base[0] && (base + p)[1..] == base[1..] + p;
      PutInside(Child(e, base[0]), base[1..], p, x);
    }
  }

  // The tree after simplifying the operand at p1 to a ...
  lemma {:induction false} LeafState(op: BinOp, e0: Expr, base: Path, e: Expr, p1: Path, p2: Path, a: Expr)
    requires HasPath(e0, base) && At(e0, base) == e
    requires Operand(op, e, p1) && Operand(op, e, p2) && p1 != p2 && !IsOp(op, a)
    ensures var f := Put(e, p1, a);
      && HasPath(Put(e0, base, f), base) && At(Put(e0, base, f), base) == f
      && Operand(op, f, p1) && Operand(op, f, p2)
      && At(f, p1) == a && At(f, p2) == At(e, p2)
  {
    PutAt(e0, base, Put(e, p1, a));
    PutOperand(op, e, p1, a);
    PutElsewhere(op, e, p1, p2, a);
    PutAt(e, p1, a);
  }

  // ... and after the join that follows.
  lemma {:induction false} JoinAfter(op: BinOp, e0: Expr, base: Path, e: Expr, p1: Path, p2: Path, a: Expr)
    requires HasPath(e0, base) && At(e0, base) == e
    requires Operand(op, e, p1) && Operand(op, e, p2) && p1 != p2 && !IsOp(op, a)
    ensures var f := Put(e, p1, a);
      && HasPath(Put(e0, base, f), base)
      && Operand(op, f, p1) && Operand(op, f, p2)
      && Put(Put(e0, base, f), base, JoinStep(op, f, p1, p2, a, 0).0) == Put(e0, base, JoinStep(op, e, p1, p2, a, 0).0)
      && JoinStep(op, f, p1, p2, a, 0).1 == JoinStep(op, e, p1, p2, a, 0).1
  {
    LeafState(op, e0, base, e, p1, p2, a);
    PutAt(e0, base, Put(e, p1, a));
    PutAt(e, p1, a);
  }
}
