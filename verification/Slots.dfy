// Positions inside one expression tree.  A `struct expr **` is the path from the root to the
// node it points at (false is left.expr, true is right.expr), and storing through it is Put.
module Slots {
  import opened Expr
  import opened Eliminate

  type Path = seq<bool>

  function Child(e: Expr, right: bool): Expr
    requires e.Bin?
  {
    if right then e.r else e.l
  }

  predicate HasPath(e: Expr, p: Path) {
    p == [] || (e.Bin? && HasPath(Child(e, p[0]), p[1..]))
  }

  function At(e: Expr, p: Path): Expr
    requires HasPath(e, p)
  {
    if p == [] then e else At(Child(e, p[0]), p[1..])
  }

  function Put(e: Expr, p: Path, x: Expr): Expr
    requires HasPath(e, p)
  {
    if p == [] then x
    else if p[0] then Bin(e.op, e.l, Put(e.r, p[1..], x))
    else Bin(e.op, Put(e.l, p[1..], x), e.r)
  }

  // p is reached from the root through nodes of type op only.
  predicate OnSpine(op: BinOp, e: Expr, p: Path) {
    p == [] || (IsOp(op, e) && OnSpine(op, Child(e, p[0]), p[1..]))
  }

  predicate IsOp(op: BinOp, e: Expr) { e.Bin? && e.op == op }

  // The operands of the && or || at the root: "leaves" of the spine.
  predicate Operand(op: BinOp, e: Expr, p: Path) {
    OnSpine(op, e, p) && HasPath(e, p) && !IsOp(op, At(e, p))
  }

  function SpineSize(op: BinOp, e: Expr): (n: nat)
    ensures n >= 1
  {
    if IsOp(op, e) then 1 + SpineSize(op, e.l) + SpineSize(op, e.r) else 1
  }

  predicate SameSpine(op: BinOp, e: Expr, f: Expr) {
    && (IsOp(op, e) <==> IsOp(op, f))
    && (IsOp(op, e) ==> SameSpine(op, e.l, f.l) && SameSpine(op, e.r, f.r))
  }

  lemma {:induction false} SpineHasPath(op: BinOp, e: Expr, p: Path)
    requires OnSpine(op, e, p)
    ensures HasPath(e, p)
  {
    if p != [] { SpineHasPath(op, Child(e, p[0]), p[1..]); }
  }

  lemma {:induction false} SpineStep(op: BinOp, e: Expr, p: Path, right: bool)
    requires OnSpine(op, e, p) && HasPath(e, p) && IsOp(op, At(e, p))
    ensures OnSpine(op, e, p + [right]) && HasPath(e, p + [right])
    ensures At(e, p + [right]) == Child(At(e, p), right)
  {
    var q := p + [right];
    if p != [] {
      assert q[0] == p[0] && q[1..] == p[1..] + [right];
      SpineStep(op, Child(e, p[0]), p[1..], right);
    }
  }

  lemma {:induction false} SameSpineAt(op: BinOp, e: Expr, f: Expr, p: Path)
    requires SameSpine(op, e, f) && OnSpine(op, e, p)
    ensures OnSpine(op, f, p) && HasPath(e, p) && HasPath(f, p)
    ensures SameSpine(op, At(e, p), At(f, p))
  {
    if p != [] { SameSpineAt(op, Child(e, p[0]), Child(f, p[0]), p[1..]); }
  }

  lemma {:induction false} SameSpineSize(op: BinOp, e: Expr, f: Expr)
    requires SameSpine(op, e, f)
    ensures SpineSize(op, e) == SpineSize(op, f)
  {
    if IsOp(op, e) {
      SameSpineSize(op, e.l, f.l);
      SameSpineSize(op, e.r, f.r);
    }
  }

  lemma {:induction false} SameSpineTrans(op: BinOp, e: Expr, f: Expr, g: Expr)
    requires SameSpine(op, e, f) && SameSpine(op, f, g)
    ensures SameSpine(op, e, g)
  {
    if IsOp(op, e) {
      SameSpineTrans(op, e.l, f.l, g.l);
      SameSpineTrans(op, e.r, f.r, g.r);
    }
  }

  lemma {:induction false} SameSpineRefl(op: BinOp, e: Expr)
    ensures SameSpine(op, e, e)
  {
    if IsOp(op, e) {
      SameSpineRefl(op, e.l);
      SameSpineRefl(op, e.r);
    }
  }

  lemma {:induction false} PutAt(e: Expr, p: Path, x: Expr)
    requires HasPath(e, p)
    ensures HasPath(Put(e, p, x), p) && At(Put(e, p, x), p) == x
    ensures Put(e, p, At(e, p)) == e
    ensures forall y :: Put(Put(e, p, x), p, y) == Put(e, p, y)
    ensures Size(Put(e, p, x)) == Size(e) - Size(At(e, p)) + Size(x)
  {
    if p != [] { PutAt(Child(e, p[0]), p[1..], x); }
  }

  // Storing into one operand leaves the spine and every other operand alone.
  lemma {:induction false} PutOperand(op: BinOp, e: Expr, p: Path, x: Expr)
    requires Operand(op, e, p) && !IsOp(op, x)
    ensures SameSpine(op, e, Put(e, p, x)) && Operand(op, Put(e, p, x), p)
  {
    if p == [] {
    } else {
      PutOperand(op, Child(e, p[0]), p[1..], x);
      SameSpineRefl(op, Child(e, !p[0]));
    }
  }

  lemma {:induction false} PutElsewhere(op: BinOp, e: Expr, p: Path, q: Path, x: Expr)
    requires Operand(op, e, p) && Operand(op, e, q) && p != q && !IsOp(op, x)
    ensures Operand(op, Put(e, p, x), q) && At(Put(e, p, x), q) == At(e, q)
  {
    assert p != [] && q != [];
    if p[0] == q[0] {
      assert p[1..] != q[1..] by { assert p == [p[0]] + p[1..] && q == [q[0]] + q[1..]; }
      PutElsewhere(op, Child(e, p[0]), p[1..], q[1..], x);
    }
  }

  // ----- values -----

  lemma {:induction false} EvalPut(e: Expr, p: Path, x: Expr, env: Env)
    requires HasPath(e, p) && Eval(x, env) == Eval(At(e, p), env)
    ensures Eval(Put(e, p, x), env) == Eval(e, env)
  {
    if p != [] { EvalPut(Child(e, p[0]), p[1..], x, env); }
  }

  // An operand contributes to its && or || through the operator alone.
  lemma {:induction false} EvalFactor(op: BinOp, e: Expr, p: Path, x: Expr, env: Env)
    requires Operand(op, e, p)
    ensures Eval(Put(e, p, x), env) == Combine(op, Eval(x, env), Eval(Put(e, p, Unit(op)), env))
  {
    if p != [] { EvalFactor(op, Child(e, p[0]), p[1..], x, env); }
  }

  lemma TailsDiffer(p: Path, q: Path)
    requires p != [] && q != [] && p != q && p[0] == q[0]
    ensures p[1..] != q[1..]
  {
    assert p == [p[0]] + p[1..] && q == [q[0]] + q[1..];
  }

  // Replacing two operands by two others with the same combination keeps the value.
  lemma {:induction false} EvalPutTwo(op: BinOp, e: Expr, p: Path, q: Path, x: Expr, y: Expr, env: Env)
    requires Operand(op, e, p) && Operand(op, e, q) && p != q && !IsOp(op, x) && !IsOp(op, y)
    requires Combine(op, Eval(x, env), Eval(y, env)) == Combine(op, Eval(At(e, p), env), Eval(At(e, q), env))
    ensures HasPath(Put(e, p, x), q)
    ensures Eval(Put(Put(e, p, x), q, y), env) == Eval(e, env)
  {
    PutElsewhere(op, e, p, q, x);
    assert p != [] && q != [];
    if p[0] == q[0] {
      TailsDiffer(p, q);
      EvalPutTwo(op, Child(e, p[0]), p[1..], q[1..], x, y, env);
    } else {
      EvalPutApart(op, e, p, q, x, y, env);
    }
  }

  // One slot on either side of the root.
  lemma {:induction false} EvalPutApart(op: BinOp, e: Expr, p: Path, q: Path, x: Expr, y: Expr, env: Env)
    requires Operand(op, e, p) && Operand(op, e, q) && p != [] && q != [] && p[0] != q[0] && HasPath(Put(e, p, x), q)
    requires Combine(op, Eval(x, env), Eval(y, env)) == Combine(op, Eval(At(e, p), env), Eval(At(e, q), env))
    ensures Eval(Put(Put(e, p, x), q, y), env) == Eval(e, env)
  {
    TwoFactors(op, Child(e, p[0]), p[1..], Child(e, q[0]), q[1..], x, y, env);
  }

  lemma {:induction false} TwoFactors(op: BinOp, l: Expr, p: Path, r: Expr, q: Path, x: Expr, y: Expr, env: Env)
    requires Operand(op, l, p) && Operand(op, r, q)
    requires Combine(op, Eval(x, env), Eval(y, env)) == Combine(op, Eval(At(l, p), env), Eval(At(r, q), env))
    ensures Combine(op, Eval(Put(l, p, x), env), Eval(Put(r, q, y), env)) == Combine(op, Eval(l, env), Eval(r, env))
  {
    var a, b := At(l, p), At(r, q);
    EvalFactor(op, l, p, x, env);
    EvalFactor(op, l, p, a, env);
    EvalFactor(op, r, q, y, env);
    EvalFactor(op, r, q, b, env);
    PutAt(l, p, x);
    PutAt(r, q, y);
    Regroup(op, Eval(x, env), Eval(Put(l, p, Unit(op)), env), Eval(y, env), Eval(Put(r, q, Unit(op)), env));
    Regroup(op, Eval(a, env), Eval(Put(l, p, Unit(op)), env), Eval(b, env), Eval(Put(r, q, Unit(op)), env));
  }

  // ----- constant operands -----

  lemma {:induction false} PutConstant(op: BinOp, e: Expr, p: Path, x: Expr)
    requires Operand(op, e, p)
    ensures HasConstantOperand(x) || (IsYn(x) && p != []) ==> HasConstantOperand(Put(e, p, x))
  {
    if p != [] { PutConstant(op, Child(e, p[0]), p[1..], x); }
  }

  // Storing elsewhere keeps a constant operand that sits directly on the spine.
  lemma {:induction false} PutKeepsConstant(op: BinOp, e: Expr, p: Path, q: Path, x: Expr)
    requires Operand(op, e, p) && Operand(op, e, q) && p != q && !IsOp(op, x) && IsYn(At(e, q))
    ensures HasConstantOperand(Put(e, p, x))
  {
    PutElsewhere(op, e, p, q, x);
    PutConstant(op, Put(e, p, x), q, At(e, q));
    PutAt(Put(e, p, x), q, At(e, q));
    assert q != [];
  }

  lemma {:induction false} PutForm(e: Expr, p: Path, x: Expr)
    requires HasPath(e, p)
    ensures Nnf(e) ==> Nnf(At(e, p))
    ensures Nnf(e) && Nnf(x) ==> Nnf(Put(e, p, x))
    ensures WellFormed(e) ==> WellFormed(At(e, p))
    ensures WellFormed(e) && WellFormed(x) ==> WellFormed(Put(e, p, x))
  {
    if p != [] { PutForm(Child(e, p[0]), p[1..], x); }
  }
}
