// Expressions as heap nodes that the rewriters overwrite: expr_copy, expr_eliminate_yn,
// expr_trans_bool and expr_transform on struct expr (expr.c).
module ExprNodes {
  import opened Wrappers
  import opened Expr
  import opened Eliminate
  import opened Normalize

  // enum expr_type, as far as dependencies use it
  datatype Kind = KSymbol | KNot | KBin(op: BinOp) | KCmp(cmp: CmpOp)

  // struct expr; left.expr and left.sym share memory in the source.
  class Node {
    var kind: Kind
    var left: Node?
    var right: Node?
    var leftSym: Sym
    var rightSym: Sym

    constructor (kind: Kind, left: Node?, right: Node?, leftSym: Sym, rightSym: Sym)
      ensures this.kind == kind && this.left == left && this.right == right && this.leftSym == leftSym
      ensures this.rightSym == rightSym
    {
      this.kind, this.left, this.right, this.leftSym, this.rightSym := kind, left, right, leftSym, rightSym;
    }
  }

  datatype Cell = Cell(kind: Kind, left: Node?, right: Node?, leftSym: Sym, rightSym: Sym)

  type Cells = map<Node, Cell>

  ghost function Snap(ms: set<Node>): Cells
    reads ms`kind, ms`left, ms`right, ms`leftSym, ms`rightSym
  {
    map m | m in ms ::
      if m in ms then Cell(m.kind, m.left, m.right, m.leftSym, m.rightSym) else Cell(KNot, null, null, SymNo, SymNo)
  }

  // The nodes from n on represent e, as a tree without sharing.
  ghost predicate Tree(k: Cells, n: Node?, e: Expr)
    decreases e, 0
  {
    && n != null && n in k
    && match e
       case Leaf(s) => k[n].kind.KSymbol? && k[n].leftSym == s
       case Cmp(op, a, b) => k[n].kind == KCmp(op) && k[n].leftSym == a && k[n].rightSym == b
       case Not(x) => k[n].kind.KNot? && Tree(k, k[n].left, x) && n !in Foot(k, k[n].left, x)
       case Bin(op, l, r) =>
         && k[n].kind == KBin(op) && Tree(k, k[n].left, l) && Tree(k, k[n].right, r)
         && n !in Foot(k, k[n].left, l) && n !in Foot(k, k[n].right, r)
         && Foot(k, k[n].left, l) !! Foot(k, k[n].right, r)
  }

  // The nodes of the tree.
  ghost function Foot(k: Cells, n: Node?, e: Expr): set<Node>
    requires Tree(k, n, e)
    decreases e, 1
  {
    match e
    case Leaf(_) => {n}
    case Cmp(_, _, _) => {n}
    case Not(x) => {n} + Foot(k, k[n].left, x)
    case Bin(_, l, r) => {n} + Foot(k, k[n].left, l) + Foot(k, k[n].right, r)
  }

  lemma {:induction false} FootInside(k: Cells, n: Node?, e: Expr)
    requires Tree(k, n, e)
    ensures n in Foot(k, n, e) && Foot(k, n, e) <= k.Keys
  {
    match e
    case Not(x) => FootInside(k, k[n].left, x);
    case Bin(_, l, r) =>
      FootInside(k, k[n].left, l);
      FootInside(k, k[n].right, r);
    case _ =>
  }

  // A tree only depends on its own nodes.
  lemma {:induction false} TreeSame(k: Cells, k': Cells, n: Node?, e: Expr)
    requires Tree(k, n, e) && forall m <- Foot(k, n, e) :: m in k && m in k' && k'[m] == k[m]
    ensures Tree(k', n, e) && Foot(k', n, e) == Foot(k, n, e)
  {
    match e
    case Not(x) => TreeSame(k, k', k[n].left, x);
    case Bin(_, l, r) =>
      TreeSame(k, k', k[n].left, l);
      TreeSame(k, k', k[n].right, r);
    case _ =>
  }

  // ----- expr_eliminate_yn -----

  lemma {:induction false} Operands(k: Cells, n: Node, op: BinOp, l: Expr, r: Expr)
    requires Tree(k, n, Bin(op, l, r))
    ensures n in k && Tree(k, k[n].left, l) && Tree(k, k[n].right, r) && k[n].left != null && k[n].right != null
    ensures Foot(k, k[n].left, l) <= Foot(k, n, Bin(op, l, r)) && Foot(k, k[n].right, r) <= Foot(k, n, Bin(op, l, r))
    ensures n !in Foot(k, k[n].left, l) && n !in Foot(k, k[n].right, r)
    ensures Foot(k, k[n].left, l) !! Foot(k, k[n].right, r)
    ensures n in Foot(k, n, Bin(op, l, r)) && Foot(k, n, Bin(op, l, r)) <= k.Keys
  {
    FootInside(k, n, Bin(op, l, r));
  }

  // From k to k' only the nodes of ms have changed, and new nodes may have been allocated.
  ghost predicate Within(k: Cells, k': Cells, ms: set<Node>) {
    k.Keys <= k'.Keys && forall m <- k.Keys - ms :: k'[m] == k[m]
  }

  // The operands of a node after both have been rewritten, possibly into other nodes.
  lemma OperandsAfter(k: Cells, k1: Cells, k2: Cells, n: Node, op: BinOp, l: Expr, r: Expr, l': Expr, r': Expr, a: Node,
                      b: Node)
    requires Tree(k, n, Bin(op, l, r)) && Within(k, k1, Foot(k, k[n].left, l)) && Within(k1, k2, Foot(k, k[n].right, r))
    requires Tree(k1, a, l') && Foot(k1, a, l') <= Foot(k, k[n].left, l) + (k1.Keys - k.Keys)
    requires Tree(k2, b, r') && Foot(k2, b, r') <= Foot(k, k[n].right, r) + (k2.Keys - k1.Keys)
    ensures n in k2 && k2[n] == k[n]
    ensures var k3 := k2[n := k2[n].(left := a, right := b)];
      Tree(k3, n, Bin(op, l', r')) && Foot(k3, n, Bin(op, l', r')) <= Foot(k, n, Bin(op, l, r)) + (k2.Keys - k.Keys)
  {
    var k3 := k2[n := k2[n].(left := a, right := b)];
    Operands(k, n, op, l, r);
    FootInside(k1, a, l');
    FootInside(k2, b, r');
    TreeSame(k1, k3, a, l');
    TreeSame(k2, k3, b, r');
  }

  lemma OperandAfter(k: Cells, k1: Cells, n: Node, x: Expr, y: Expr, a: Node)
    requires Tree(k, n, Not(x)) && Within(k, k1, Foot(k, k[n].left, x))
    requires Tree(k1, a, y) && Foot(k1, a, y) <= Foot(k, k[n].left, x) + (k1.Keys - k.Keys)
    ensures n in k1 && k1[n] == k[n]
    ensures var k2 := k1[n := k1[n].(left := a)];
      Tree(k2, n, Not(y)) && Foot(k2, n, Not(y)) <= Foot(k, n, Not(x)) + (k1.Keys - k.Keys)
  {
    var k2 := k1[n := k1[n].(left := a)];
    FootInside(k1, a, y);
    TreeSame(k1, k2, a, y);
  }

  lemma {:induction false} RightUntouched(k: Cells, k1: Cells, n: Node, op: BinOp, l: Expr, r: Expr)
    requires Tree(k, n, Bin(op, l, r)) && Within(k, k1, Foot(k, k[n].left, l))
    ensures Tree(k1, k[n].right, r) && Foot(k1, k[n].right, r) == Foot(k, k[n].right, r) && n in k1 && k1[n] == k[n]
  {
    FootInside(k, k[n].right, r);
    TreeSame(k, k1, k[n].right, r);
  }

  // *e = *child: the node takes over what its child holds.
  lemma TakesOver(k: Cells, k': Cells, n: Node, op: BinOp, l: Expr, r: Expr, right: bool)
    requires Tree(k, n, Bin(op, l, r))
    requires var c := if right then k[n].right else k[n].left; c in k && k' == k[n := k[c]]
    ensures var x := if right then r else l;
      Tree(k', n, x) && Foot(k', n, x) <= Foot(k, n, Bin(op, l, r))
  {
    var c, x := if right then k[n].right else k[n].left, if right then r else l;
    FootInside(k, c, x);
    match x
    case Not(y) =>
      FootInside(k, k[c].left, y);
      TreeSame(k, k', k[c].left, y);
    case Bin(_, a, b) =>
      FootInside(k, k[c].left, a);
      FootInside(k, k[c].right, b);
      TreeSame(k, k', k[c].left, a);
      TreeSame(k, k', k[c].right, b);
    case _ =>
  }

  // The node becomes a constant.
  lemma {:induction false} BecomesLeaf(k: Cells, k': Cells, n: Node, s: Sym)
    requires n in k' && k'[n].kind.KSymbol? && k'[n].leftSym == s
    ensures Tree(k', n, Leaf(s)) && Foot(k', n, Leaf(s)) == {n}
  {
  }

  lemma {:induction false} LeafTest(k: Cells, n: Node?, e: Expr)
    requires Tree(k, n, e)
    ensures e.Leaf? <==> k[n].kind.KSymbol?
    ensures e.Leaf? ==> e.sym == k[n].leftSym
    ensures e.Bin? <==> k[n].kind.KBin?
    ensures e.Bin? ==> k[n].kind.op == e.op && k[n].left != null && k[n].right != null
  {
  }

  // What one && or || becomes once its operands have been folded.
  function Fold(op: BinOp, l: Expr, r: Expr): Expr {
    if l == Zero(op) then Zero(op)
    else if l == Unit(op) then r
    else if r == Zero(op) then Zero(op)
    else if r == Unit(op) then l
    else Bin(op, l, r)
  }

  lemma {:induction false} FoldIsEliminate(op: BinOp, l: Expr, r: Expr)
    ensures EliminateYn(Bin(op, l, r)) == Fold(op, EliminateYn(l), EliminateYn(r))
  {
  }

  method BecomeSymbol(e: Node, s: Sym, ghost all: set<Node>)
    requires e in all
    modifies e
    ensures Tree(Snap(all), e, Leaf(s)) && Foot(Snap(all), e, Leaf(s)) == {e}
  {
    e.kind, e.leftSym, e.right := KSymbol, s, null;
    BecomesLeaf(Snap(all), Snap(all), e, s);
  }

  // *e = *c
  method TakeOver(e: Node, c: Node, ghost all: set<Node>)
    requires e in all && c in all
    modifies e
    ensures Snap(all) == old(Snap(all))[e := old(Snap(all))[c]]
  {
    e.kind, e.left, e.right, e.leftSym, e.rightSym := c.kind, c.left, c.right, c.leftSym, c.rightSym;
  }

  // The tests and assignments behind the recursive calls of expr_eliminate_yn.
  method FoldNode(e: Node, ghost op: BinOp, ghost l: Expr, ghost r: Expr, ghost all: set<Node>)
    requires Tree(Snap(all), e, Bin(op, l, r))
    modifies e
    ensures Tree(Snap(all), e, Fold(op, l, r))
    ensures Foot(Snap(all), e, Fold(op, l, r)) <= old(Foot(Snap(all), e, Bin(op, l, r)))
  {
    hide Tree, Foot;
    ghost var k := Snap(all);
    LeafTest(k, e, Bin(op, l, r));
    OperandTests(k, e, op, l, r);
    var zero := if e.kind.op.OpAnd? then SymNo else SymYes;
    var unit := if e.kind.op.OpAnd? then SymYes else SymNo;
    var a, b := e.left, e.right;
    if a.kind.KSymbol? {
      if a.leftSym == zero {
        BecomeSymbol(e, zero, all);
        return;
      } else if a.leftSym == unit {
        TakeOver(e, b, all);
        TakesOver(k, Snap(all), e, op, l, r, true);
        return;
      }
    }
    if b.kind.KSymbol? {
      if b.leftSym == zero {
        BecomeSymbol(e, zero, all);
      } else if b.leftSym == unit {
        TakeOver(e, a, all);
        TakesOver(k, Snap(all), e, op, l, r, false);
      }
    }
  }

  lemma {:induction false} OperandTests(k: Cells, n: Node, op: BinOp, l: Expr, r: Expr)
    requires Tree(k, n, Bin(op, l, r))
    ensures n in k && k[n].left != null && k[n].right != null && k[n].left in k && k[n].right in k
    ensures n in Foot(k, n, Bin(op, l, r))
    ensures forall s :: (l == Leaf(s) <==> k[k[n].left].kind.KSymbol? && k[k[n].left].leftSym == s)
    ensures forall s :: (r == Leaf(s) <==> k[k[n].right].kind.KSymbol? && k[k[n].right].leftSym == s)
  {
    LeafTest(k, k[n].left, l);
    LeafTest(k, k[n].right, r);
  }

  // expr_eliminate_yn: the node stays where it is and comes to represent the folded expression.
  method EliminateYnInPlace(e: Node, ghost x: Expr, ghost all: set<Node>)
    requires Tree(Snap(all), e, x)
    modifies Foot(Snap(all), e, x)
    ensures Tree(Snap(all), e, EliminateYn(x)) && Foot(Snap(all), e, EliminateYn(x)) <= old(Foot(Snap(all), e, x))
    decreases x
  {
    hide Tree, Foot, EliminateYn;
    ghost var k := Snap(all);
    LeafTest(k, e, x);
    FootInside(k, e, x);
    if e.kind.KBin? {
      ghost var op, l, r := x.op, x.l, x.r;
      Operands(k, e, op, l, r);
      var a, b := e.left, e.right;
      EliminateYnInPlace(a, l, all);
      ghost var k1 := Snap(all);
      RightUntouched(k, k1, e, op, l, r);
      EliminateYnInPlace(b, r, all);
      OperandsAfter(k, k1, Snap(all), e, op, l, r, EliminateYn(l), EliminateYn(r), a, b);
      assert Snap(all)[e := Snap(all)[e].(left := a, right := b)] == Snap(all);
      FoldNode(e, op, EliminateYn(l), EliminateYn(r), all);
      FoldIsEliminate(op, l, r);
    } else {
      OtherStays(x);
    }
  }

  lemma {:induction false} OtherStays(x: Expr)
    requires !x.Bin?
    ensures EliminateYn(x) == x
  {
  }

  // ----- expr_trans_bool -----

  lemma {:induction false} NotParts(k: Cells, n: Node, x: Expr)
    requires Tree(k, n, Not(x))
    ensures n in k && k[n].kind.KNot? && Tree(k, k[n].left, x) && k[n].left != null
    ensures Foot(k, k[n].left, x) <= Foot(k, n, Not(x))
    ensures n !in Foot(k, k[n].left, x) && n in Foot(k, n, Not(x)) && Foot(k, n, Not(x)) <= k.Keys
  {
    FootInside(k, n, Not(x));
  }

  lemma {:induction false} KindTest(k: Cells, n: Node, e: Expr)
    requires Tree(k, n, e)
    ensures n in k && n in Foot(k, n, e)
    ensures match k[n].kind
            case KSymbol => e == Leaf(k[n].leftSym)
            case KNot => e.Not?
            case KBin(op) => e.Bin? && e.op == op
            case KCmp(op) => e == Cmp(op, k[n].leftSym, k[n].rightSym)
  {
  }

  method TransBoolInPlace(e: Node, ghost x: Expr, ghost all: set<Node>)
    requires Tree(Snap(all), e, x)
    modifies Foot(Snap(all), e, x)
    ensures Tree(Snap(all), e, TransBool(x)) && Foot(Snap(all), e, TransBool(x)) <= old(Foot(Snap(all), e, x))
    decreases x
  {
    hide Tree, Foot;
    ghost var k := Snap(all);
    KindTest(k, e, x);
    FootInside(k, e, x);
    match e.kind {
      case KBin(_) =>
        ghost var op, l, r := x.op, x.l, x.r;
        Operands(k, e, op, l, r);
        var a, b := e.left, e.right;
        TransBoolInPlace(a, l, all);
        ghost var k1 := Snap(all);
        RightUntouched(k, k1, e, op, l, r);
        TransBoolInPlace(b, r, all);
        OperandsAfter(k, k1, Snap(all), e, op, l, r, TransBool(l), TransBool(r), a, b);
        assert Snap(all)[e := Snap(all)[e].(left := a, right := b)] == Snap(all);
      case KNot =>
        NotParts(k, e, x.e);
        var a := e.left;
        TransBoolInPlace(a, x.e, all);
        OperandAfter(k, Snap(all), e, x.e, TransBool(x.e), a);
        assert Snap(all)[e := Snap(all)[e].(left := a)] == Snap(all);
      case KCmp(op) =>
        if op == Neq && TypeOf(e.leftSym).TTristate? && e.rightSym == SymNo {
          e.kind := KSymbol;
          BecomesLeaf(k, Snap(all), e, e.leftSym);
        }
      case KSymbol =>
    }
  }

  // ----- expr_copy -----

  lemma WithinTrans(k: Cells, k1: Cells, k2: Cells, ms: set<Node>, ms1: set<Node>, ms2: set<Node>)
    requires Within(k, k1, ms1) && Within(k1, k2, ms2) && ms1 <= ms && ms2 <= ms + (k1.Keys - k.Keys)
    ensures Within(k, k2, ms)
  {
  }

  lemma {:induction false} RightUntouched0(k: Cells, k1: Cells, n: Node, op: BinOp, l: Expr, r: Expr)
    requires Tree(k, n, Bin(op, l, r)) && Within(k, k1, {})
    ensures Tree(k1, k[n].right, r) && n in k1 && k1[n] == k[n]
  {
    RightUntouched(k, k1, n, op, l, r);
  }

  // expr_alloc_one, expr_alloc_two, expr_alloc_symbol and the like
  method Alloc(kind: Kind, left: Node?, right: Node?, leftSym: Sym, rightSym: Sym, ghost all: set<Node>)
    returns (n: Node, ghost all': set<Node>)
    ensures fresh(n) && all' == all + {n} && n !in all
    ensures Within(old(Snap(all)), Snap(all'), {}) && n !in old(Snap(all)) && n in Snap(all')
    ensures Snap(all')[n] == Cell(kind, left, right, leftSym, rightSym)
  {
    n := new Node(kind, left, right, leftSym, rightSym);
    all' := all + {n};
  }

  // A copy represents the same expression in new nodes, so that rewriting one of the two
  // leaves the other alone.
  method ExprCopy(org: Node, ghost x: Expr, ghost all: set<Node>) returns (e: Node, ghost all': set<Node>)
    requires Tree(Snap(all), org, x)
    ensures all <= all' && fresh(all' - all) && Within(old(Snap(all)), Snap(all'), {})
    ensures Tree(Snap(all'), e, x) && Foot(Snap(all'), e, x) !! all
    decreases x
  {
    hide Tree, Foot, Within;
    ghost var k := Snap(all);
    KindTest(k, org, x);
    match org.kind {
      case KBin(op) =>
        Operands(k, org, op, x.l, x.r);
        var a, b;
        ghost var all1, all2;
        a, all1 := ExprCopy(org.left, x.l, all);
        RightUntouched0(k, Snap(all1), org, op, x.l, x.r);
        b, all2 := ExprCopy(org.right, x.r, all1);
        ghost var k1, k2 := Snap(all1), Snap(all2);
        e, all' := Alloc(KBin(op), a, b, org.leftSym, org.rightSym, all2);
        WithinTrans(k, k1, k2, {}, {}, {});
        WithinTrans(k, k2, Snap(all'), {}, {}, {});
        BinOfNew(k1, k2, Snap(all'), e, op, x.l, x.r, a, b);
      case KNot =>
        NotParts(k, org, x.e);
        var a;
        ghost var all1;
        a, all1 := ExprCopy(org.left, x.e, all);
        ghost var k1 := Snap(all1);
        e, all' := Alloc(KNot, a, null, org.leftSym, org.rightSym, all1);
        WithinTrans(k, k1, Snap(all'), {}, {}, {});
        NotOfNew(k1, Snap(all'), e, x.e, a);
      case _ =>
        e, all' := Alloc(org.kind, org.left, org.right, org.leftSym, org.rightSym, all);
        LeafOfNew(Snap(all'), e, x);
    }
  }

  lemma {:induction false} BinOfNew(k1: Cells, k2: Cells, k: Cells, n: Node, op: BinOp, l: Expr, r: Expr, a: Node,
                                    b: Node)
    requires Tree(k1, a, l) && Tree(k2, b, r) && Foot(k2, b, r) !! k1.Keys && n !in k2
    requires Within(k1, k2, {}) && Within(k2, k, {}) && n in k && k[n].kind == KBin(op) && k[n].left == a
    requires k[n].right == b
    ensures Tree(k, n, Bin(op, l, r)) && Foot(k, n, Bin(op, l, r)) == {n} + Foot(k1, a, l) + Foot(k2, b, r)
  {
    FootInside(k1, a, l);
    FootInside(k2, b, r);
    TreeSame(k1, k, a, l);
    TreeSame(k2, k, b, r);
  }

  lemma {:induction false} NotOfNew(k1: Cells, k: Cells, n: Node, x: Expr, a: Node)
    requires Tree(k1, a, x) && n !in k1 && Within(k1, k, {}) && n in k && k[n].kind.KNot? && k[n].left == a
    ensures Tree(k, n, Not(x)) && Foot(k, n, Not(x)) == {n} + Foot(k1, a, x)
  {
    FootInside(k1, a, x);
    TreeSame(k1, k, a, x);
  }

  lemma {:induction false} LeafOfNew(k: Cells, n: Node, x: Expr)
    requires n in k
    requires match x
             case Leaf(s) => k[n].kind.KSymbol? && k[n].leftSym == s
             case Cmp(op, a, b) => k[n].kind == KCmp(op) && k[n].leftSym == a && k[n].rightSym == b
             case _ => false
    ensures Tree(k, n, x) && Foot(k, n, x) == {n}
  {
  }

  // ----- expr_transform -----

  // The E_NOT cases, for an operand that has been transformed already.
  function NotOf(y: Expr): Expr
    requires Normal(y)
  {
    match y
    case Not(z) => z
    case Cmp(op, a, b) => Cmp(Negation(op), a, b)
    case Bin(op, a, b) =>
      assert Bins(Not(a)) == Bins(a) && Bins(Not(b)) == Bins(b);
      Transform(Bin(Dual(op), Not(a), Not(b)))
    case Leaf(SymYes) => Leaf(SymNo)
    case Leaf(SymMod) => Leaf(SymMod)
    case Leaf(SymNo) => Leaf(SymYes)
    case Leaf(_) => Not(y)
  }

  lemma {:induction false} TransformParts(x: Expr)
    ensures x.Not? ==> Transform(x) == NotOf(Transform(x.e))
    ensures x.Bin? ==> Transform(x) == Bin(x.op, Transform(x.l), Transform(x.r))
    ensures x.Cmp? ==> Transform(x) == TransformCmp(x.cmp, x.s1, x.s2)
    ensures x.Leaf? ==> Transform(x) == x
  {
  }

  // Not of an && or ||: the operand becomes the negation of its own left operand, a new node
  // that of its right operand, and the NOT turns into the dual operator.
  lemma {:induction false} DeMorgan(k: Cells, n: Node, op: BinOp, a: Expr, b: Expr, q: Node, k': Cells)
    requires Tree(k, n, Not(Bin(op, a, b))) && q !in k && q in k'
    requires var t := k[n].left;
      && t in k && k'[q].kind.KNot? && k'[q].left == k[t].right
      && k' == k[n := k[n].(kind := KBin(Dual(op)), right := q)][t := k[t].(kind := KNot, right := null)][q := k'[q]]
    ensures Tree(k', n, Bin(Dual(op), Not(a), Not(b)))
    ensures Foot(k', n, Bin(Dual(op), Not(a), Not(b))) <= Foot(k, n, Not(Bin(op, a, b))) + {q}
  {
    var t := k[n].left;
    NotParts(k, n, Bin(op, a, b));
    Operands(k, t, op, a, b);
    TreeSame(k, k', k[t].left, a);
    TreeSame(k, k', k[t].right, b);
    FootInside(k, k[t].left, a);
    FootInside(k, k[t].right, b);
    assert Tree(k', t, Not(a)) && Foot(k', t, Not(a)) == {t} + Foot(k, k[t].left, a);
    assert Tree(k', q, Not(b)) && Foot(k', q, Not(b)) == {q} + Foot(k, k[t].right, b);
  }

  // A comparison of a bool with y, m or n; all others stay.
  method TransformCmpInPlace(e: Node, ghost op: CmpOp, ghost a: Sym, ghost b: Sym, ghost all: set<Node>)
    returns (ghost all': set<Node>)
    requires Tree(Snap(all), e, Cmp(op, a, b))
    modifies e
    ensures all <= all' && fresh(all' - all)
    ensures Tree(Snap(all'), e, TransformCmp(op, a, b))
    ensures Foot(Snap(all'), e, TransformCmp(op, a, b)) <= {e} + (all' - all)
    ensures Within(old(Snap(all)), Snap(all'), {e})
  {
    hide Tree, Foot;
    ghost var k := Snap(all);
    KindTest(k, e, Cmp(op, a, b));
    LeafOfNew(k, e, Cmp(op, a, b));
    all' := all;
    if TypeOf(e.leftSym).TBoolean? && (e.kind.cmp == Eq || e.kind.cmp == Neq) {
      var isEq := e.kind.cmp == Eq;
      match e.rightSym {
        case SymNo =>
          if isEq { all' := NegateSymbol(e, all); } else { BecomeSymbol(e, e.leftSym, all); }
        case SymMod =>
          BecomeSymbol(e, if isEq then SymNo else SymYes, all);
        case SymYes =>
          if isEq { BecomeSymbol(e, e.leftSym, all); } else { all' := NegateSymbol(e, all); }
        case _ =>
      }
    }
  }

  // The comparison becomes the negation of its left symbol.
  method NegateSymbol(e: Node, ghost all: set<Node>) returns (ghost all': set<Node>)
    requires e in all
    modifies e
    ensures all <= all' && fresh(all' - all)
    ensures Tree(Snap(all'), e, Not(Leaf(old(e.leftSym))))
    ensures Foot(Snap(all'), e, Not(Leaf(old(e.leftSym)))) <= {e} + (all' - all)
    ensures Within(old(Snap(all)), Snap(all'), {e})
  {
    hide Tree, Foot;
    var sym := new Node(KSymbol, null, null, e.leftSym, e.leftSym);
    e.kind, e.left := KNot, sym;
    all' := all + {sym};
    LeafOfNew(Snap({sym}), sym, Leaf(e.leftSym));
    NotOfNew(Snap({sym}), Snap(all'), e, Leaf(e.leftSym), sym);
  }

  method SetOperands(e: Node, left: Node?, right: Node?, ghost all: set<Node>)
    requires e in all
    modifies e`left, e`right
    ensures Snap(all) == old(Snap(all))[e := old(Snap(all))[e].(left := left, right := right)]
  {
    e.left, e.right := left, right;
  }

  lemma WithinSet(k: Cells, k1: Cells, n: Node, ms: set<Node>, c: Cell)
    requires Within(k, k1, ms) && n in ms && n in k
    ensures Within(k, k1[n := c], ms)
  {
  }

  lemma {:induction false} WithinBoth(k: Cells, k1: Cells, k2: Cells, n: Node, op: BinOp, l: Expr, r: Expr)
    requires Tree(k, n, Bin(op, l, r)) && Within(k, k1, Foot(k, k[n].left, l)) && Within(k1, k2, Foot(k, k[n].right, r))
    ensures Within(k, k2, Foot(k, n, Bin(op, l, r)))
  {
  }

  lemma WithinSelf(k: Cells, ms: set<Node>)
    ensures Within(k, k, ms)
  {
  }

  // expr_transform; the result may be a node further down.
  method TransformInPlace(e: Node, ghost x: Expr, ghost all: set<Node>) returns (r: Node, ghost all': set<Node>)
    requires Tree(Snap(all), e, x)
    modifies Foot(Snap(all), e, x)
    ensures all <= all' && fresh(all' - all) && Within(old(Snap(all)), Snap(all'), old(Foot(Snap(all), e, x)))
    ensures Tree(Snap(all'), r, Transform(x))
    ensures Foot(Snap(all'), r, Transform(x)) <= old(Foot(Snap(all), e, x)) + (all' - all)
    decreases Bins(x), if x.Not? then 1 else 0, Size(x)
  {
    hide Tree, Foot, Transform, TransformCmp, Within;
    ghost var k := Snap(all);
    KindTest(k, e, x);
    FootInside(k, e, x);
    TransformParts(x);
    WithinSelf(k, {});
    match e.kind {
      case KSymbol =>
        WithinSelf(k, Foot(k, e, x));
        r, all' := e, all;
      case KCmp(_) =>
        all' := TransformCmpInPlace(e, x.cmp, x.s1, x.s2, all);
        WithinTrans(k, k, Snap(all'), Foot(k, e, x), {}, {e});
        r := e;
      case KBin(_) =>
        r, all' := TransformBinInPlace(e, x, all);
      case KNot =>
        r, all' := TransformNotInPlace(e, x, all);
    }
  }

  // Both operands of an && or || are transformed.
  method TransformBinInPlace(e: Node, ghost x: Expr, ghost all: set<Node>) returns (r: Node, ghost all': set<Node>)
    requires Tree(Snap(all), e, x) && x.Bin?
    modifies Foot(Snap(all), e, x)
    ensures all <= all' && fresh(all' - all) && Within(old(Snap(all)), Snap(all'), old(Foot(Snap(all), e, x)))
    ensures Tree(Snap(all'), r, Transform(x))
    ensures Foot(Snap(all'), r, Transform(x)) <= old(Foot(Snap(all), e, x)) + (all' - all)
    decreases Bins(x), if x.Not? then 1 else 0, Size(x), 0
  {
    hide Tree, Foot, Transform, TransformCmp, Within;
    ghost var k := Snap(all);
    KindTest(k, e, x);
    FootInside(k, e, x);
    TransformParts(x);
    WithinSelf(k, {});
    ghost var op, l, rr := x.op, x.l, x.r;
    Operands(k, e, op, l, rr);
    var a, b;
    ghost var all1;
    a, all1 := TransformInPlace(e.left, l, all);
    ghost var k1 := Snap(all1);
    RightUntouched(k, k1, e, op, l, rr);
    b, all' := TransformInPlace(e.right, rr, all1);
    ghost var k2 := Snap(all');
    OperandsAfter(k, k1, k2, e, op, l, rr, Transform(l), Transform(rr), a, b);
    SetOperands(e, a, b, all');
    WithinBoth(k, k1, k2, e, op, l, rr);
    WithinSet(k, k2, e, Foot(k, e, x), k2[e].(left := a, right := b));
    r := e;
  }

  // The operand of a NOT is transformed, and then the NOT above it.
  method TransformNotInPlace(e: Node, ghost x: Expr, ghost all: set<Node>) returns (r: Node, ghost all': set<Node>)
    requires Tree(Snap(all), e, x) && x.Not?
    modifies Foot(Snap(all), e, x)
    ensures all <= all' && fresh(all' - all) && Within(old(Snap(all)), Snap(all'), old(Foot(Snap(all), e, x)))
    ensures Tree(Snap(all'), r, Transform(x))
    ensures Foot(Snap(all'), r, Transform(x)) <= old(Foot(Snap(all), e, x)) + (all' - all)
    decreases Bins(x), if x.Not? then 1 else 0, Size(x), 0
  {
    hide Tree, Foot, Transform, TransformCmp, Within;
    ghost var k := Snap(all);
    KindTest(k, e, x);
    FootInside(k, e, x);
    TransformParts(x);
    WithinSelf(k, {});
    NotParts(k, e, x.e);
    var a;
    ghost var all1;
    a, all1 := TransformInPlace(e.left, x.e, all);
    ghost var k1 := Snap(all1);
    OperandAfter(k, k1, e, x.e, Transform(x.e), a);
    SetOperands(e, a, e.right, all1);
    WithinTrans(k, k, k1, Foot(k, e, x), {}, Foot(k, k[e].left, x.e));
    WithinSet(k, k1, e, Foot(k, e, x), k1[e].(left := a));
    ghost var k2 := Snap(all1);
    ghost var fp := Foot(k2, e, Not(Transform(x.e)));
    r, all' := NotInPlace(e, Transform(x.e), all1);
    WithinTrans(k, k2, Snap(all'), Foot(k, e, x), Foot(k, e, x), fp);
  }

  method NotInPlace(e: Node, ghost y: Expr, ghost all: set<Node>) returns (r: Node, ghost all': set<Node>)
    requires Tree(Snap(all), e, Not(y)) && Normal(y)
    modifies Foot(Snap(all), e, Not(y))
    ensures all <= all' && fresh(all' - all) && Within(old(Snap(all)), Snap(all'), old(Foot(Snap(all), e, Not(y))))
    ensures Tree(Snap(all'), r, NotOf(y))
    ensures Foot(Snap(all'), r, NotOf(y)) <= old(Foot(Snap(all), e, Not(y))) + (all' - all)
    decreases Bins(y), 1, 0, 1
  {
    hide Tree, Foot, Transform, Within, NotOf;
    ghost var k := Snap(all);
    NotParts(k, e, y);
    KindTest(k, e.left, y);
    match e.left.kind {
      case KNot =>
        r, all' := NotNotInPlace(e, y, all);
      case KCmp(_) =>
        r, all' := NotCmpInPlace(e, y, all);
      case KBin(_) =>
        r, all' := NotBinInPlace(e, y, all);
      case KSymbol =>
        r, all' := NotSymbolInPlace(e, y, all);
    }
  }

  // !!a
  method NotNotInPlace(e: Node, ghost y: Expr, ghost all: set<Node>) returns (r: Node, ghost all': set<Node>)
    requires Tree(Snap(all), e, Not(y)) && Normal(y) && y.Not?
    modifies Foot(Snap(all), e, Not(y))
    ensures all <= all' && fresh(all' - all) && Within(old(Snap(all)), Snap(all'), old(Foot(Snap(all), e, Not(y))))
    ensures Tree(Snap(all'), r, NotOf(y))
    ensures Foot(Snap(all'), r, NotOf(y)) <= old(Foot(Snap(all), e, Not(y))) + (all' - all)
    decreases Bins(y), 1, 0, 0
  {
    hide Tree, Foot, Transform;
    ghost var k := Snap(all);
    NotParts(k, e, y);
    var tmp := e.left;
    KindTest(k, tmp, y);
    NotParts(k, tmp, y.e);
    TransformParts(y.e);
    r, all' := TransformInPlace(tmp.left, y.e, all);
  }

  // The negation of a comparison is the opposite comparison.
  method NotCmpInPlace(e: Node, ghost y: Expr, ghost all: set<Node>) returns (r: Node, ghost all': set<Node>)
    requires Tree(Snap(all), e, Not(y)) && Normal(y) && y.Cmp?
    modifies Foot(Snap(all), e, Not(y))
    ensures all <= all' && fresh(all' - all) && Within(old(Snap(all)), Snap(all'), old(Foot(Snap(all), e, Not(y))))
    ensures Tree(Snap(all'), r, NotOf(y))
    ensures Foot(Snap(all'), r, NotOf(y)) <= old(Foot(Snap(all), e, Not(y))) + (all' - all)
    decreases Bins(y), 1, 0, 0
  {
    hide Tree, Foot, Transform;
    ghost var k := Snap(all);
    NotParts(k, e, y);
    var tmp := e.left;
    KindTest(k, tmp, y);
    tmp.kind := KCmp(Negation(tmp.kind.cmp));
    LeafOfNew(Snap(all), tmp, NotOf(y));
    r, all' := tmp, all;
  }

  // De Morgan; the result is transformed again.
  method NotBinInPlace(e: Node, ghost y: Expr, ghost all: set<Node>) returns (r: Node, ghost all': set<Node>)
    requires Tree(Snap(all), e, Not(y)) && Normal(y) && y.Bin?
    modifies Foot(Snap(all), e, Not(y))
    ensures all <= all' && fresh(all' - all) && Within(old(Snap(all)), Snap(all'), old(Foot(Snap(all), e, Not(y))))
    ensures Tree(Snap(all'), r, NotOf(y))
    ensures Foot(Snap(all'), r, NotOf(y)) <= old(Foot(Snap(all), e, Not(y))) + (all' - all)
    decreases Bins(y), 1, 0, 0
  {
    hide Tree, Foot, Transform;
    ghost var k := Snap(all);
    NotParts(k, e, y);
    var tmp := e.left;
    KindTest(k, tmp, y);
    var q := new Node(KNot, tmp.right, null, e.leftSym, e.rightSym);
    e.kind, e.right := KBin(Dual(tmp.kind.op)), q;
    tmp.kind, tmp.right := KNot, null;
    ghost var all1 := all + {q};
    DeMorgan(k, e, y.op, y.l, y.r, q, Snap(all1));
    assert Bins(Not(y.l)) == Bins(y.l) && Bins(Not(y.r)) == Bins(y.r);
    r, all' := TransformInPlace(e, Bin(Dual(y.op), Not(y.l), Not(y.r)), all1);
  }

  // y, m and n are negated; every other symbol keeps its NOT.
  method NotSymbolInPlace(e: Node, ghost y: Expr, ghost all: set<Node>) returns (r: Node, ghost all': set<Node>)
    requires Tree(Snap(all), e, Not(y)) && Normal(y) && y.Leaf?
    modifies Foot(Snap(all), e, Not(y))
    ensures all <= all' && fresh(all' - all) && Within(old(Snap(all)), Snap(all'), old(Foot(Snap(all), e, Not(y))))
    ensures Tree(Snap(all'), r, NotOf(y))
    ensures Foot(Snap(all'), r, NotOf(y)) <= old(Foot(Snap(all), e, Not(y))) + (all' - all)
    decreases Bins(y), 1, 0, 0
  {
    hide Tree, Foot, Transform;
    ghost var k := Snap(all);
    NotParts(k, e, y);
    var tmp := e.left;
    KindTest(k, tmp, y);
    all' := all;
    match tmp.leftSym {
      case SymYes =>
        BecomeSymbol(tmp, SymNo, all);
        r := tmp;
      case SymMod =>
        BecomeSymbol(tmp, SymMod, all);
        r := tmp;
      case SymNo =>
        BecomeSymbol(tmp, SymYes, all);
        r := tmp;
      case _ =>
        r := e;
    }
  }

  // ----- rewrite_m (menu.c) -----

  method RewriteMInPlace(e: Node, ghost x: Expr, modules: Sym, ghost all: set<Node>)
    returns (r: Node, ghost all': set<Node>)
    requires Tree(Snap(all), e, x)
    modifies Foot(Snap(all), e, x)
    ensures all <= all' && fresh(all' - all) && Within(old(Snap(all)), Snap(all'), old(Foot(Snap(all), e, x)))
    ensures Tree(Snap(all'), r, RewriteM(x, modules))
    ensures Foot(Snap(all'), r, RewriteM(x, modules)) <= old(Foot(Snap(all), e, x)) + (all' - all)
    decreases x
  {
    hide Tree, Foot, Within;
    ghost var k := Snap(all);
    KindTest(k, e, x);
    FootInside(k, e, x);
    WithinSelf(k, {});
    match e.kind {
      case KBin(_) =>
        ghost var op, l, rr := x.op, x.l, x.r;
        Operands(k, e, op, l, rr);
        var a, b;
        ghost var all1;
        a, all1 := RewriteMInPlace(e.left, l, modules, all);
        ghost var k1 := Snap(all1);
        RightUntouched(k, k1, e, op, l, rr);
        b, all' := RewriteMInPlace(e.right, rr, modules, all1);
        ghost var k2 := Snap(all');
        OperandsAfter(k, k1, k2, e, op, l, rr, RewriteM(l, modules), RewriteM(rr, modules), a, b);
        SetOperands(e, a, b, all');
        WithinBoth(k, k1, k2, e, op, l, rr);
        WithinSet(k, k2, e, Foot(k, e, x), k2[e].(left := a, right := b));
        r := e;
      case KNot =>
        NotParts(k, e, x.e);
        var a;
        a, all' := RewriteMInPlace(e.left, x.e, modules, all);
        ghost var k1 := Snap(all');
        OperandAfter(k, k1, e, x.e, RewriteM(x.e, modules), a);
        SetOperands(e, a, e.right, all');
        WithinTrans(k, k, k1, Foot(k, e, x), {}, Foot(k, k[e].left, x.e));
        WithinSet(k, k1, e, Foot(k, e, x), k1[e].(left := a));
        r := e;
      case KCmp(_) =>
        WithinSelf(k, Foot(k, e, x));
        r, all' := e, all;
      case KSymbol =>
        WithinSelf(k, Foot(k, e, x));
        r, all' := e, all;
        if e.leftSym == SymMod {
          r, all' := GuardM(e, modules, all);
          WithinTrans(k, k, Snap(all'), Foot(k, e, x), {}, {});
        }
    }
  }

  // expr_alloc_and(e, expr_alloc_symbol(modules_sym))
  method GuardM(e: Node, modules: Sym, ghost all: set<Node>) returns (r: Node, ghost all': set<Node>)
    requires Tree(Snap(all), e, Leaf(SymMod))
    ensures all <= all' && fresh(all' - all) && Within(old(Snap(all)), Snap(all'), {})
    ensures Tree(Snap(all'), r, Bin(OpAnd, Leaf(SymMod), Leaf(modules)))
    ensures Foot(Snap(all'), r, Bin(OpAnd, Leaf(SymMod), Leaf(modules))) <= {e} + (all' - all)
  {
    hide Tree, Foot, Within;
    ghost var k := Snap(all);
    var s;
    ghost var all1;
    s, all1 := Alloc(KSymbol, null, null, modules, modules, all);
    ghost var k1 := Snap(all1);
    r, all' := Alloc(KBin(OpAnd), e, s, modules, modules, all1);
    WithinTrans(k, k1, Snap(all'), {}, {}, {});
    AndOfNew(k, k1, Snap(all'), r, e, s, modules);
  }

  lemma {:induction false} AndOfNew(k: Cells, k1: Cells, k2: Cells, r: Node, e: Node, s: Node, modules: Sym)
    requires Tree(k, e, Leaf(SymMod)) && Within(k, k1, {}) && Within(k1, k2, {}) && s !in k && r !in k1
    requires s in k1 && k1[s].kind.KSymbol? && k1[s].leftSym == modules
    requires r in k2 && k2[r].kind == KBin(OpAnd) && k2[r].left == e && k2[r].right == s
    ensures Tree(k2, r, Bin(OpAnd, Leaf(SymMod), Leaf(modules)))
    ensures Foot(k2, r, Bin(OpAnd, Leaf(SymMod), Leaf(modules))) == {r, e, s}
  {
    LeafOfNew(k1, s, Leaf(modules));
    BinOfNew(k, k1, k2, r, OpAnd, Leaf(SymMod), Leaf(modules), e, s);
  }
}
