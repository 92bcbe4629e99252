// What a relation between two symbols means (E_EQUAL to E_GEQ of expr_calc_value in expr.c).
module Relations {
  import opened Wrappers
  import opened Expr

  // How two numbers compare.
  predicate Holds(op: CmpOp, i: int, j: int) {
    match op
    case Eq => i == j
    case Neq => i != j
    case Lt => i < j
    case Le => i <= j
    case Gt => i > j
    case Ge => i >= j
  }

  // The text of s is a number in the notation of its type: decimal for an int, hexadecimal for a
  // hex, either for a string or a literal.
  predicate Denotes(env: Env, s: Sym, i: int) {
    match TypeOf(s)
    case TInt => env.strto(StrOf(env, s), 10) == Some(i)
    case THex => env.strto(StrOf(env, s), 16) == Some(i)
    case TString => env.strto(StrOf(env, s), 0) == Some(i)
    case TUnknown => env.strto(StrOf(env, s), 0) == Some(i)
    case _ => false
  }

  // Symbols that denote numbers compare as these numbers; next to a hex both are read as unsigned
  // numbers of 64 bits, so that a negative one is a large one.
  lemma NumberRelation(env: Env, op: CmpOp, a: Sym, b: Sym, i: int, j: int)
    requires Denotes(env, a, i) && Denotes(env, b, j) && !(TypeOf(a).TString? && TypeOf(b).TString?)
    ensures var k := 0x1_0000_0000_0000_0000;
      EvalCmp(env, op, a, b)
      == Truth(if TypeOf(a).THex? || TypeOf(b).THex? then Holds(op, i % k, j % k) else Holds(op, i, j))
  {
  }

  // Bools and tristates compare as n < m < y.
  lemma LogicRelation(env: Env, op: CmpOp, a: Sym, b: Sym)
    requires Sane(env) && IsLogic(a) && IsLogic(b)
    ensures EvalCmp(env, op, a, b) == Truth(Holds(op, TriOf(env, a), TriOf(env, b)))
  {
    LogicText(env, a);
    LogicText(env, b);
  }

  lemma LogicText(env: Env, a: Sym)
    requires Sane(env) && IsLogic(a)
    ensures LogicRank(StrOf(env, a)) == TriOf(env, a)
  {
    assert TriOf(env, a) == MOD ==> a in env.vals && GoodValue(a, env.vals[a], env.mods);
    assert "y"[0] == 'y' && "m"[0] == 'm' && "n"[0] == 'n';
  }

  // x comes before y in a dictionary: it is a proper prefix, or the first character in which they
  // differ is smaller.
  ghost predicate Precedes(x: string, y: string) {
    exists k :: PrecedesAt(x, y, k)
  }

  predicate PrecedesAt(x: string, y: string, k: int) {
    0 <= k < |y| && k <= |x| && x[..k] == y[..k] && (k == |x| || x[k] < y[k])
  }

  lemma {:induction false} StrcmpOrder(x: string, y: string)
    ensures Strcmp(x, y) < 0 <==> Precedes(x, y)
    ensures Strcmp(x, y) > 0 <==> Precedes(y, x)
  {
    if x == [] || y == [] || x[0] != y[0] {
      assert (x == [] && y != []) || (x != [] && y != [] && x[0] < y[0]) ==> PrecedesAt(x, y, 0);
      assert (y == [] && x != []) || (x != [] && y != [] && y[0] < x[0]) ==> PrecedesAt(y, x, 0);
      forall k
        ensures PrecedesAt(x, y, k) ==> k == 0 && Strcmp(x, y) < 0
        ensures PrecedesAt(y, x, k) ==> k == 0 && Strcmp(x, y) > 0
      {
        if k > 0 && k <= |x| && k <= |y| { assert x[..k][0] == x[0] && y[..k][0] == y[0]; }
      }
    } else {
      StrcmpOrder(x[1..], y[1..]);
      PrecedesTail(x, y);
      PrecedesTail(y, x);
    }
  }

  lemma PrecedesTail(x: string, y: string)
    requires x != [] && y != [] && x[0] == y[0]
    ensures Precedes(x, y) <==> Precedes(x[1..], y[1..])
  {
    if k :| PrecedesAt(x[1..], y[1..], k) {
      assert x[..k + 1] == [x[0]] + x[1..][..k] && y[..k + 1] == [y[0]] + y[1..][..k];
      assert PrecedesAt(x, y, k + 1);
    }
    if k :| PrecedesAt(x, y, k) {
      assert k > 0;
      assert x[1..][..k - 1] == x[..k][1..] && y[1..][..k - 1] == y[..k][1..];
      assert PrecedesAt(x[1..], y[1..], k - 1);
    }
  }

  // Two strings compare as in a dictionary, even where both are numerals.
  lemma TextRelation(env: Env, a: Sym, b: Sym)
    requires TypeOf(a).TString? && TypeOf(b).TString?
    ensures var x, y := StrOf(env, a), StrOf(env, b);
      && EvalCmp(env, Eq, a, b) == Truth(x == y) && EvalCmp(env, Neq, a, b) == Truth(x != y)
      && EvalCmp(env, Lt, a, b) == Truth(Precedes(x, y)) && EvalCmp(env, Ge, a, b) == Truth(!Precedes(x, y))
      && EvalCmp(env, Gt, a, b) == Truth(Precedes(y, x)) && EvalCmp(env, Le, a, b) == Truth(!Precedes(y, x))
  {
    hide Precedes, Strcmp;
    StrcmpZero(StrOf(env, a), StrOf(env, b));
    StrcmpOrder(StrOf(env, a), StrOf(env, b));
  }

  // A symbol that nobody defines is n, and reads like its own name.
  lemma UndefinedNamesItself(env: Env, name: string)
    requires Ref(name, TUnknown) !in env.vals
    ensures TriOf(env, Ref(name, TUnknown)) == NO
    ensures EvalCmp(env, Eq, Ref(name, TUnknown), Const(name)) == YES
  {
    StrcmpZero(name, name);
  }
}
