// Dependency expressions and their three-valued meaning (expr.h, expr_calc_value in expr.c).
module Expr {
  import opened Wrappers

  // ----- tristates (enum tristate, EXPR_AND, EXPR_OR, EXPR_NOT) -----

  type Tri = x: int | 0 <= x <= 2

  const NO: Tri := 0
  const MOD: Tri := 1
  const YES: Tri := 2

  function Min(a: Tri, b: Tri): Tri { if a < b then a else b }

  function Max(a: Tri, b: Tri): Tri { if a > b then a else b }

  function Neg(a: Tri): Tri { 2 - a }

  function Truth(b: bool): Tri { if b then YES else NO }

  // ----- symbols -----

  datatype SymType = TUnknown | TBoolean | TTristate | TInt | THex | TString | TOther

  // Pointer identity of `struct symbol *` is equality of these values.  Const is a symbol
  // carrying SYMBOL_CONST other than the three tristate constants (a quoted literal).
  datatype Sym = SymYes | SymMod | SymNo | Const(text: string) | Ref(name: string, typ: SymType)

  function TypeOf(s: Sym): SymType { if s.Ref? then s.typ else TUnknown }

  predicate IsLogic(s: Sym) { TypeOf(s) in {TBoolean, TTristate} }

  predicate IsConst(s: Sym) { !s.Ref? }

  predicate IsTriConst(s: Sym) { s.SymYes? || s.SymMod? || s.SymNo? }

  // ----- expressions -----

  datatype BinOp = OpAnd | OpOr

  datatype CmpOp = Eq | Neq | Lt | Le | Gt | Ge

  datatype Expr =
    | Leaf(sym: Sym)
    | Not(e: Expr)
    | Bin(op: BinOp, l: Expr, r: Expr)
    | Cmp(cmp: CmpOp, s1: Sym, s2: Sym)

  function Size(e: Expr): (n: nat)
    ensures n >= 1
  {
    match e
    case Leaf(_) => 1
    case Cmp(_, _, _) => 1
    case Not(x) => 1 + Size(x)
    case Bin(_, l, r) => 1 + Size(l) + Size(r)
  }

  // The symbols an expression mentions.
  function Syms(e: Expr): set<Sym> {
    match e
    case Leaf(s) => {s}
    case Cmp(_, a, b) => {a, b}
    case Not(x) => Syms(x)
    case Bin(_, l, r) => Syms(l) + Syms(r)
  }

  // y is the unit of && and n is the unit of ||.
  function Unit(op: BinOp): Expr { Leaf(if op.OpAnd? then SymYes else SymNo) }

  function Zero(op: BinOp): Expr { Leaf(if op.OpAnd? then SymNo else SymYes) }

  // expr_alloc_and, expr_alloc_or: a NULL operand disappears.
  function AllocBin(op: BinOp, a: Option<Expr>, b: Option<Expr>): Option<Expr> {
    if a.None? then b else if b.None? then a else Some(Bin(op, a.value, b.value))
  }

  // ----- evaluation -----

  datatype Value = Value(tri: Tri, str: string)

  // A symbol nobody defines has type S_UNKNOWN, the value n, and its own name as text.
  function Undefined(s: Sym): Value { Value(NO, if s.Ref? then s.name else "") }

  // strto is the C library's number reader: strto(text, base) is the number when the whole
  // text is one, and None otherwise.
  datatype Env = Env(vals: map<Sym, Value>, mods: Tri, strto: (string, int) -> Option<int>)

  function ValueOf(env: Env, s: Sym): Value {
    if s in env.vals then env.vals[s] else Undefined(s)
  }

  // sym_get_tristate_value
  function TriOf(env: Env, s: Sym): Tri {
    match s
    case SymYes => YES
    case SymMod => MOD
    case SymNo => NO
    case Const(_) => NO
    case Ref(_, _) => ValueOf(env, s).tri
  }

  // How sym_get_string_value prints a tristate: m reads as n when modules are off.
  function TriText(t: Tri, mods: Tri): string {
    if t == YES then "y" else if t == MOD && mods != NO then "m" else "n"
  }

  // sym_get_string_value
  function StrOf(env: Env, s: Sym): string {
    match s
    case SymYes => "y"
    case SymMod => "m"
    case SymNo => "n"
    case Const(text) => text
    case Ref(_, _) => if IsLogic(s) then TriText(TriOf(env, s), env.mods) else ValueOf(env, s).str
  }

  datatype Parsed = KString | KSigned(s: int) | KUnsigned(u: int) | KInvalid

  // expr_parse_string
  function ParseString(strto: (string, int) -> Option<int>, str: string, typ: SymType): Parsed {
    match typ
    case TBoolean => KSigned(LogicRank(str))
    case TTristate => KSigned(LogicRank(str))
    case TInt => if strto(str, 10).Some? then KSigned(strto(str, 10).value) else KString
    case THex => if strto(str, 16).Some? then KUnsigned(strto(str, 16).value) else KString
    case TString => if strto(str, 0).Some? then KSigned(strto(str, 0).value) else KString
    case TUnknown => if strto(str, 0).Some? then KSigned(strto(str, 0).value) else KString
    case TOther => KInvalid
  }

  function LogicRank(str: string): int {
    if str == "n" then 0 else if str == "m" then 1 else if str == "y" then 2 else -1
  }

  function Sign(d: int): int { if d < 0 then -1 else if d > 0 then 1 else 0 }

  function Strcmp(a: string, b: string): int {
    if a == [] && b == [] then 0
    else if a == [] then -1
    else if b == [] then 1
    else if a[0] != b[0] then Sign(a[0] as int - b[0] as int)
    else Strcmp(a[1..], b[1..])
  }

  // Reading a 64-bit value through the unsigned member of union string_value.
  function AsUnsigned(p: Parsed): int
    requires p.KSigned? || p.KUnsigned?
  {
    (if p.KSigned? then p.s else p.u) % 0x1_0000_0000_0000_0000
  }

  // The three-way comparison in expr_calc_value; None when the operands cannot be ordered.
  function CompareSyms(env: Env, a: Sym, b: Sym): (Option<int>, int) {
    var x, y := StrOf(env, a), StrOf(env, b);
    var text := TypeOf(a).TString? && TypeOf(b).TString?;
    var k1 := if text then KString else ParseString(env.strto, x, TypeOf(a));
    var k2 := if text then KString else ParseString(env.strto, y, TypeOf(b));
    if k1.KString? || k2.KString? then (Some(Strcmp(x, y)), Strcmp(x, y))
    else if k1.KInvalid? || k2.KInvalid? then (None, Strcmp(x, y))
    else if k1.KUnsigned? || k2.KUnsigned? then
      var d := Sign(AsUnsigned(k1) - AsUnsigned(k2)); (Some(d), d)
    else var d := Sign(k1.s - k2.s); (Some(d), d)
  }

  predicate Relation(op: CmpOp, res: int) {
    match op
    case Eq => res == 0
    case Neq => res != 0
    case Lt => res < 0
    case Le => res <= 0
    case Gt => res > 0
    case Ge => res >= 0
  }

  function EvalCmp(env: Env, op: CmpOp, a: Sym, b: Sym): Tri {
    var (order, res) := CompareSyms(env, a, b);
    if order.None? && op != Eq && op != Neq then NO else Truth(Relation(op, res))
  }

  function Combine(op: BinOp, a: Tri, b: Tri): Tri {
    if op.OpAnd? then Min(a, b) else Max(a, b)
  }

  // expr_calc_value of a non-NULL expression
  function Eval(e: Expr, env: Env): Tri {
    match e
    case Leaf(s) => TriOf(env, s)
    case Not(x) => Neg(Eval(x, env))
    case Bin(op, l, r) => Combine(op, Eval(l, env), Eval(r, env))
    case Cmp(op, a, b) => EvalCmp(env, op, a, b)
  }

  // expr_calc_value: NULL is y
  function EvalOpt(e: Option<Expr>, env: Env): Tri {
    if e.None? then YES else Eval(e.value, env)
  }

  // ----- what the engine guarantees about its own symbol values -----

  predicate GoodValue(s: Sym, v: Value, mods: Tri) {
    && (TypeOf(s).TBoolean? ==> v.tri != MOD)
    && (mods == NO ==> v.tri != MOD)
    && (!IsLogic(s) ==> v.tri == NO)
  }

  // Booleans never hold m, nothing holds m without modules, symbols that are neither bool nor
  // tristate hold n, and y, m, n are not numerals.
  ghost predicate Sane(env: Env) {
    && (forall s <- env.vals :: GoodValue(s, env.vals[s], env.mods))
    && env.strto("y", 0).None? && env.strto("m", 0).None? && env.strto("n", 0).None?
  }

  // The comparisons the rewriter is meant for: a bool or tristate is tested for (in)equality
  // only against symbols or y, m, n, not against a quoted literal, and no operand of an
  // ordering comparison has type S_OTHER.
  predicate Comparable(op: CmpOp, a: Sym, b: Sym) {
    if op == Eq || op == Neq then IsLogic(a) ==> !b.Const?
    else !TypeOf(a).TOther? && !TypeOf(b).TOther?
  }

  predicate WellFormed(e: Expr) {
    match e
    case Leaf(_) => true
    case Not(x) => WellFormed(x)
    case Bin(_, l, r) => WellFormed(l) && WellFormed(r)
    case Cmp(op, a, b) => Comparable(op, a, b)
  }

  // A NOT stands only directly above a symbol that is not y, m or n.
  predicate Nnf(e: Expr) {
    match e
    case Leaf(_) => true
    case Cmp(_, _, _) => true
    case Not(x) => x.Leaf? && !IsTriConst(x.sym)
    case Bin(_, l, r) => Nnf(l) && Nnf(r)
  }

  // ----- basic facts -----

  lemma {:induction false} StrcmpZero(a: string, b: string)
    ensures Strcmp(a, b) == 0 <==> a == b
  {
    if a != [] && b != [] {
      StrcmpZero(a[1..], b[1..]);
      assert a == [a[0]] + a[1..] && b == [b[0]] + b[1..];
    }
  }

  // Comparing a bool or tristate with y, m or n is comparing tristates.
  lemma CompareWithConstant(env: Env, a: Sym, c: Sym)
    requires Sane(env) && IsLogic(a) && IsTriConst(c)
    ensures EvalCmp(env, Eq, a, c) == Truth(TriOf(env, a) == TriOf(env, c))
    ensures EvalCmp(env, Neq, a, c) == Truth(TriOf(env, a) != TriOf(env, c))
  {
    StrcmpZero(StrOf(env, a), StrOf(env, c));
    var t := TriOf(env, a);
    assert t == MOD ==> a in env.vals && GoodValue(a, env.vals[a], env.mods);
    assert TypeOf(c) == TUnknown;
    assert ParseString(env.strto, StrOf(env, c), TUnknown) == KString;
    assert StrOf(env, a)[0] == (if t == YES then 'y' else if t == MOD then 'm' else 'n');
    assert StrOf(env, c)[0] == (if c.SymYes? then 'y' else if c.SymMod? then 'm' else 'n');
  }

  lemma {:induction false} EvalDependsOnSyms(e: Expr, env1: Env, env2: Env)
    requires env1.mods == env2.mods && env1.strto == env2.strto
    requires forall s <- Syms(e) :: ValueOf(env1, s) == ValueOf(env2, s)
    ensures Eval(e, env1) == Eval(e, env2)
  {
    match e
    case Leaf(_) =>
    case Cmp(op, a, b) =>
      assert a in Syms(e) && b in Syms(e);
      assert StrOf(env1, a) == StrOf(env2, a) && StrOf(env1, b) == StrOf(env2, b);
    case Not(x) => EvalDependsOnSyms(x, env1, env2);
    case Bin(_, l, r) =>
      EvalDependsOnSyms(l, env1, env2);
      EvalDependsOnSyms(r, env1, env2);
  }

  // A complement is exact on every comparison except an ordering of operands that have none.
  lemma NegatedComparison(env: Env, op: CmpOp, a: Sym, b: Sym)
    ensures EvalCmp(env, Negation(op), a, b) == Neg(EvalCmp(env, op, a, b))
      <==> op == Eq || op == Neq || CompareSyms(env, a, b).0.Some?
  {
  }

  function Negation(op: CmpOp): CmpOp {
    match op
    case Eq => Neq
    case Neq => Eq
    case Lt => Ge
    case Ge => Lt
    case Le => Gt
    case Gt => Le
  }
}
