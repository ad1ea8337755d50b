/** Every infix token string is the token string of exactly one well-formed tree (i386/whitex/calc.h:44-50). */
module CalcGrammar {
  import opened CalcArith
  import opened CalcMachine
  import opened CalcMeaning

  /** Operands and operators in turn; no precedence yet. */
  datatype Infix = One(last: Atom) | More(front: Infix, op: char, last: Atom)

  datatype Atom = Number(digits: string) | Group(inner: Infix)

  ghost predicate ValidInfix(d: Infix) {
    match d
    case One(a) => ValidAtom(a)
    case More(f, op, a) => ValidInfix(f) && Prec(op) >= 0 && ValidAtom(a)
  }

  ghost predicate ValidAtom(a: Atom) {
    match a
    case Number(ds) => ds != [] && forall c :: c in ds ==> IsDigit(c)
    case Group(inner) => ValidInfix(inner)
  }

  ghost function Flat(d: Infix): seq<Token> {
    match d
    case One(a) => FlatAtom(a)
    case More(f, op, a) => Flat(f) + [TOp(op)] + FlatAtom(a)
  }

  ghost function FlatAtom(a: Atom): seq<Token> {
    match a
    case Number(ds) => [TNum(ds)]
    case Group(inner) => [TOpen] + Flat(inner) + [TClose]
  }

  ghost predicate IsInfix(ts: seq<Token>) { exists d :: ValidInfix(d) && Flat(d) == ts }

  ghost predicate Reads(e: Expr, ts: seq<Token>) { WellFormed(e) && Tokens(e) == ts }

  // ---------- at least one ----------

  /** An operator and an operand more at the right end. */
  ghost function Insert(e: Expr, op: char, a: Expr): Expr {
    if e.Bin? && Prec(e.op) < Prec(op) then Bin(e.op, e.left, Insert(e.right, op, a)) else Bin(op, e, a)
  }

  lemma {:induction false} InsertReads(e: Expr, op: char, a: Expr)
    requires WellFormed(e) && Prec(op) >= 0 && WellFormed(a) && !a.Bin?
    ensures Reads(Insert(e, op, a), Tokens(e) + [TOp(op)] + Tokens(a))
    ensures Level(Insert(e, op, a)) >= if Level(e) <= Prec(op) then Level(e) else Prec(op)
  {
    if e.Bin? && Prec(e.op) < Prec(op) {
      InsertReads(e.right, op, a);
      assert Tokens(e) + [TOp(op)] + Tokens(a) == Tokens(e.left) + [TOp(e.op)] + (Tokens(e.right) + [TOp(op)] + Tokens(a));
    }
  }

  ghost function ToExpr(d: Infix): Expr {
    match d
    case One(a) => AtomExpr(a)
    case More(f, op, a) => Insert(ToExpr(f), op, AtomExpr(a))
  }

  ghost function AtomExpr(a: Atom): Expr {
    match a
    case Number(ds) => Num(ds)
    case Group(inner) => Paren(ToExpr(inner))
  }

  lemma {:induction false} ToExprReads(d: Infix)
    requires ValidInfix(d)
    ensures Reads(ToExpr(d), Flat(d))
  {
    match d
    case One(a) => AtomReads(a);
    case More(f, op, a) =>
      ToExprReads(f);
      AtomReads(a);
      InsertReads(ToExpr(f), op, AtomExpr(a));
  }

  lemma {:induction false} AtomReads(a: Atom)
    requires ValidAtom(a)
    ensures Reads(AtomExpr(a), FlatAtom(a)) && !AtomExpr(a).Bin?
  {
    match a
    case Number(_) =>
    case Group(inner) => ToExprReads(inner);
  }

  // ---------- and every tree reads one ----------

  ghost function Join(d: Infix, op: char, e: Infix): Infix {
    match e
    case One(a) => More(d, op, a)
    case More(f, o, a) => More(Join(d, op, f), o, a)
  }

  lemma {:induction false} JoinFlat(d: Infix, op: char, e: Infix)
    requires ValidInfix(d) && Prec(op) >= 0 && ValidInfix(e)
    ensures ValidInfix(Join(d, op, e)) && Flat(Join(d, op, e)) == Flat(d) + [TOp(op)] + Flat(e)
  {
    if e.More? { JoinFlat(d, op, e.front); }
  }

  lemma {:induction false} TreeIsInfix(e: Expr) returns (d: Infix)
    requires WellFormed(e)
    ensures ValidInfix(d) && Flat(d) == Tokens(e)
  {
    match e
    case Num(ds) => d := One(Number(ds));
    case Paren(inner) =>
      var i := TreeIsInfix(inner);
      d := One(Group(i));
    case Bin(op, l, r) =>
      var dl := TreeIsInfix(l);
      var dr := TreeIsInfix(r);
      JoinFlat(dl, op, dr);
      d := Join(dl, op, dr);
  }

  // ---------- at most one ----------

  /** Open parentheses after the first `k` tokens. */
  ghost function Nest(ts: seq<Token>, k: nat): int
    requires k <= |ts|
  {
    if k == 0 then 0
    else Nest(ts, k - 1) + if ts[k - 1] == TOpen then 1 else if ts[k - 1] == TClose then -1 else 0
  }

  lemma {:induction false} NestLeft(a: seq<Token>, b: seq<Token>, k: nat)
    requires k <= |a|
    ensures Nest(a + b, k) == Nest(a, k)
  {
    if k > 0 { NestLeft(a, b, k - 1); }
  }

  lemma {:induction false} NestRight(a: seq<Token>, b: seq<Token>, k: nat)
    requires k <= |b|
    ensures Nest(a + b, |a| + k) == Nest(a, |a|) + Nest(b, k)
  {
    if k > 0 { NestRight(a, b, k - 1); } else { NestLeft(a, b, |a|); }
  }

  /** An expression never closes more than it has opened, and in the end closes all. */
  lemma {:induction false} NestTokens(e: Expr, k: nat)
    requires WellFormed(e) && k <= |Tokens(e)|
    ensures Nest(Tokens(e), k) >= 0 && Nest(Tokens(e), |Tokens(e)|) == 0
    decreases e, 0
  {
    match e
    case Num(_) =>
    case Paren(inner) => NestParen(inner, if 1 <= k <= |Tokens(inner)| + 1 then k else 1);
    case Bin(op, l, r) =>
      var a, b := Tokens(l), [TOp(op)] + Tokens(r);
      assert Tokens(e) == a + b;
      NestTokens(l, if k <= |a| then k else 0);
      NestTokens(r, if k > |a| + 1 then k - |a| - 1 else 0);
      hide Nest, Tokens;
      NestJoin(a, op, Tokens(r), k);
  }

  lemma NestJoin(a: seq<Token>, op: char, c: seq<Token>, k: nat)
    requires Nest(a, |a|) == 0 && Nest(c, |c|) == 0 && k <= |a| + 1 + |c|
    requires if k <= |a| then Nest(a, k) >= 0 else Nest(c, k - |a| - 1) >= 0
    ensures var b := a + ([TOp(op)] + c); Nest(b, k) >= 0 && Nest(b, |b|) == 0
  {
    hide Nest;
    NestAfterOp(a, op, c, |c|);
    if k <= |a| { NestLeft(a, [TOp(op)] + c, k); } else { NestAfterOp(a, op, c, k - |a| - 1); }
  }

  lemma NestAfterOp(a: seq<Token>, op: char, b: seq<Token>, k: nat)
    requires k <= |b|
    ensures Nest(a + ([TOp(op)] + b), |a| + 1 + k) == Nest(a, |a|) + Nest(b, k)
  {
    NestRight(a, [TOp(op)] + b, 1 + k);
    NestRight([TOp(op)], b, k);
    assert Nest([TOp(op)], 1) == 0;
  }

  /** Inside parentheses the nesting is at least 1. */
  lemma {:induction false} NestParen(inner: Expr, k: nat)
    requires WellFormed(inner) && 1 <= k <= |Tokens(inner)| + 1
    ensures var ts := [TOpen] + Tokens(inner) + [TClose]; Nest(ts, k) >= 1 && Nest(ts, |ts|) == 0
    decreases inner, 1
  {
    var ts := [TOpen] + Tokens(inner) + [TClose];
    NestTokens(inner, k - 1);
    NestTokens(inner, 0);
    NestInner(Tokens(inner), k - 1);
    NestInner(Tokens(inner), |Tokens(inner)|);
    assert Nest(ts, |ts|) == Nest(ts, |ts| - 1) - 1;
  }

  lemma NestInner(a: seq<Token>, k: nat)
    requires k <= |a|
    ensures Nest([TOpen] + a + [TClose], 1 + k) == 1 + Nest(a, k)
  {
    NestLeft([TOpen] + a, [TClose], 1 + k);
    NestRight([TOpen], a, k);
    assert Nest([TOpen], 1) == 1;
  }

  /** Token `j` is an operator outside all parentheses. */
  ghost predicate TopOp(ts: seq<Token>, j: nat) { j < |ts| && ts[j].TOp? && Nest(ts, j) == 0 }

  /** The operators outside parentheses are those of the subtrees and the root's. */
  lemma TopOps(l: Expr, op: char, r: Expr, j: nat)
    requires WellFormed(Bin(op, l, r)) && TopOp(Tokens(Bin(op, l, r)), j)
    ensures var a, b, c := Tokens(l), Tokens(r), Tokens(Bin(op, l, r))[j];
            || (j < |a| && TopOp(a, j) && a[j] == c)
            || (j == |a| && c == TOp(op))
            || (j > |a| && TopOp(b, j - |a| - 1) && b[j - |a| - 1] == c)
  {
    var a, b := Tokens(l), [TOp(op)] + Tokens(r);
    assert Tokens(Bin(op, l, r)) == a + b;
    NestTokens(l, 0);
    if j < |a| {
      NestLeft(a, b, j);
    } else if j > |a| {
      NestAfterOp(a, op, Tokens(r), j - |a| - 1);
    }
  }

  /** None of them binds less tightly than the root. */
  lemma {:induction false} TopPrec(e: Expr, j: nat)
    requires WellFormed(e) && TopOp(Tokens(e), j)
    ensures e.Bin? && Prec(Tokens(e)[j].c) >= Level(e)
  {
    match e
    case Num(_) =>
    case Paren(inner) => if 1 <= j <= |Tokens(inner)| + 1 { NestParen(inner, j); }
    case Bin(op, l, r) =>
      TopOps(l, op, r, j);
      var a := Tokens(l);
      if j < |a| { TopPrec(l, j); }
      if j > |a| { TopPrec(r, j - |a| - 1); }
  }

  /** The root is the last of the least tightly binding ones. */
  lemma RootIsLast(l: Expr, op: char, r: Expr, j: nat)
    requires WellFormed(Bin(op, l, r)) && TopOp(Tokens(Bin(op, l, r)), j) && j > |Tokens(l)|
    ensures Prec(Tokens(Bin(op, l, r))[j].c) > Prec(op)
  {
    TopOps(l, op, r, j);
    TopPrec(r, j - |Tokens(l)| - 1);
  }

  lemma RootIsTop(l: Expr, op: char, r: Expr)
    requires WellFormed(Bin(op, l, r))
    ensures TopOp(Tokens(Bin(op, l, r)), |Tokens(l)|) && Tokens(Bin(op, l, r))[|Tokens(l)|] == TOp(op)
  {
    var a, b := Tokens(l), [TOp(op)] + Tokens(r);
    assert Tokens(Bin(op, l, r)) == a + b;
    NestTokens(l, 0);
    NestLeft(a, b, |a|);
  }

  /** Two trees with the same tokens are the same tree. */
  lemma {:induction false} TokensInjective(e: Expr, e': Expr)
    requires WellFormed(e) && WellFormed(e') && Tokens(e) == Tokens(e')
    ensures e == e'
  {
    if e.Bin? {
      RootIsTop(e.left, e.op, e.right);
      TopPrec(e', |Tokens(e.left)|);
      RootIsTop(e'.left, e'.op, e'.right);
      var k, k' := |Tokens(e.left)|, |Tokens(e'.left)|;
      TopPrec(e, k');
      if k < k' { RootIsLast(e.left, e.op, e.right, k'); }
      if k' < k { RootIsLast(e'.left, e'.op, e'.right, k); }
      assert Tokens(e)[..k] == Tokens(e.left) && Tokens(e')[..k] == Tokens(e'.left);
      assert Tokens(e)[k + 1..] == Tokens(e.right) && Tokens(e')[k + 1..] == Tokens(e'.right);
      TokensInjective(e.left, e'.left);
      TokensInjective(e.right, e'.right);
    } else if e'.Bin? {
      RootIsTop(e'.left, e'.op, e'.right);
      TopPrec(e, |Tokens(e'.left)|);
    } else if e.Paren? {
      assert Tokens(e)[0] == TOpen && Tokens(e')[0] == TOpen;
      var n := |Tokens(e)| - 1;
      assert Tokens(e)[1..n] == Tokens(e.inner) && Tokens(e')[1..n] == Tokens(e'.inner);
      TokensInjective(e.inner, e'.inner);
    } else {
      assert Tokens(e)[0] == TNum(e.digits);
    }
  }

  /** The token strings of well-formed trees are exactly the infix ones, and each is that of one tree only: the theorem
      about the calculator is about every infix string, with one meaning each. */
  lemma EveryInfixHasOneTree(ts: seq<Token>)
    ensures IsInfix(ts) <==> exists e :: Reads(e, ts)
    ensures forall e, e' :: Reads(e, ts) && Reads(e', ts) ==> e == e'
  {
    if IsInfix(ts) {
      var d :| ValidInfix(d) && Flat(d) == ts;
      ToExprReads(d);
    }
    if e :| Reads(e, ts) {
      var d := TreeIsInfix(e);
    }
    forall e, e' | Reads(e, ts) && Reads(e', ts)
      ensures e == e'
    {
      TokensInjective(e, e');
    }
  }

  /** On every infix string the calculator computes the one meaning it has, or runs out of stack. */
  lemma InfixMeaning(d: Infix, arg: string)
    requires ValidInfix(d) && Lex(arg) == Flat(d)
    ensures var e := ToExpr(d);
            && Reads(e, Flat(d))
            && (FitsStacks(e) ==> Calc(arg) == Answer(e))
            && (!FitsStacks(e) ==> Calc(arg) == StackOverflow || (Eval(e).Err? && Calc(arg) == Answer(e)))
  {
    ToExprReads(d);
    CalculatorMeaning(ToExpr(d), arg);
  }
}
