/** The calculator's grammar, one nonterminal a level with its operators written out (i386/whitex/calc.h:44-50). */
module CalcLevels {
  import opened CalcArith
  import opened CalcMachine
  import opened CalcMeaning
  import opened CalcGrammar

  // ---------- the grammar ----------

  /** Bit operators bind least, then sums, products and powers; every level associates to the left. */
  datatype Bits = BSum(s: Sum) | And(b: Bits, s: Sum) | Or(b: Bits, s: Sum)

  datatype Sum = SProduct(p: Product) | Plus(s: Sum, p: Product) | Minus(s: Sum, p: Product)

  datatype Product = PPower(w: Power) | Times(p: Product, w: Power) | Cross(p: Product, w: Power) | Over(p: Product, w: Power)
                   | Mod(p: Product, w: Power)

  datatype Power = WAtom(a: Leaf) | Raised(w: Power, a: Leaf)

  datatype Leaf = Lit(digits: string) | Round(b: Bits)

  // ---------- its sentences ----------

  ghost function BitsTokens(b: Bits): seq<Token> {
    match b
    case BSum(s) => SumTokens(s)
    case And(l, s) => BitsTokens(l) + [TOp('&')] + SumTokens(s)
    case Or(l, s) => BitsTokens(l) + [TOp('|')] + SumTokens(s)
  }

  ghost function SumTokens(s: Sum): seq<Token> {
    match s
    case SProduct(p) => ProductTokens(p)
    case Plus(l, p) => SumTokens(l) + [TOp('+')] + ProductTokens(p)
    case Minus(l, p) => SumTokens(l) + [TOp('-')] + ProductTokens(p)
  }

  ghost function ProductTokens(p: Product): seq<Token> {
    match p
    case PPower(w) => PowerTokens(w)
    case Times(l, w) => ProductTokens(l) + [TOp('*')] + PowerTokens(w)
    case Cross(l, w) => ProductTokens(l) + [TOp('x')] + PowerTokens(w)
    case Over(l, w) => ProductTokens(l) + [TOp('/')] + PowerTokens(w)
    case Mod(l, w) => ProductTokens(l) + [TOp('%')] + PowerTokens(w)
  }

  ghost function PowerTokens(w: Power): seq<Token> {
    match w
    case WAtom(a) => LeafTokens(a)
    case Raised(l, a) => PowerTokens(l) + [TOp('^')] + LeafTokens(a)
  }

  ghost function LeafTokens(a: Leaf): seq<Token> {
    match a
    case Lit(ds) => [TNum(ds)]
    case Round(b) => [TOpen] + BitsTokens(b) + [TClose]
  }

  ghost predicate BitsOk(b: Bits) {
    match b
    case BSum(s) => SumOk(s)
    case And(l, s) => BitsOk(l) && SumOk(s)
    case Or(l, s) => BitsOk(l) && SumOk(s)
  }

  ghost predicate SumOk(s: Sum) {
    match s
    case SProduct(p) => ProductOk(p)
    case Plus(l, p) => SumOk(l) && ProductOk(p)
    case Minus(l, p) => SumOk(l) && ProductOk(p)
  }

  ghost predicate ProductOk(p: Product) {
    match p
    case PPower(w) => PowerOk(w)
    case Times(l, w) => ProductOk(l) && PowerOk(w)
    case Cross(l, w) => ProductOk(l) && PowerOk(w)
    case Over(l, w) => ProductOk(l) && PowerOk(w)
    case Mod(l, w) => ProductOk(l) && PowerOk(w)
  }

  ghost predicate PowerOk(w: Power) {
    match w
    case WAtom(a) => LeafOk(a)
    case Raised(l, a) => PowerOk(l) && LeafOk(a)
  }

  /** Literals are written with digits. */
  ghost predicate LeafOk(a: Leaf) {
    match a
    case Lit(ds) => ds != [] && forall c :: c in ds ==> '0' <= c <= '9'
    case Round(b) => BitsOk(b)
  }

  // ---------- their trees ----------

  ghost function BitsTree(b: Bits): Expr {
    match b
    case BSum(s) => SumTree(s)
    case And(l, s) => Bin('&', BitsTree(l), SumTree(s))
    case Or(l, s) => Bin('|', BitsTree(l), SumTree(s))
  }

  ghost function SumTree(s: Sum): Expr {
    match s
    case SProduct(p) => ProductTree(p)
    case Plus(l, p) => Bin('+', SumTree(l), ProductTree(p))
    case Minus(l, p) => Bin('-', SumTree(l), ProductTree(p))
  }

  ghost function ProductTree(p: Product): Expr {
    match p
    case PPower(w) => PowerTree(w)
    case Times(l, w) => Bin('*', ProductTree(l), PowerTree(w))
    case Cross(l, w) => Bin('x', ProductTree(l), PowerTree(w))
    case Over(l, w) => Bin('/', ProductTree(l), PowerTree(w))
    case Mod(l, w) => Bin('%', ProductTree(l), PowerTree(w))
  }

  ghost function PowerTree(w: Power): Expr {
    match w
    case WAtom(a) => LeafTree(a)
    case Raised(l, a) => Bin('^', PowerTree(l), LeafTree(a))
  }

  ghost function LeafTree(a: Leaf): Expr {
    match a
    case Lit(ds) => Num(ds)
    case Round(b) => Paren(BitsTree(b))
  }

  lemma {:induction false} BitsReads(b: Bits)
    requires BitsOk(b)
    ensures Reads(BitsTree(b), BitsTokens(b)) && Level(BitsTree(b)) >= 0
  {
    match b
    case BSum(s) => SumReads(s);
    case And(l, s) => BitsReads(l); SumReads(s);
    case Or(l, s) => BitsReads(l); SumReads(s);
  }

  lemma {:induction false} SumReads(s: Sum)
    requires SumOk(s)
    ensures Reads(SumTree(s), SumTokens(s)) && Level(SumTree(s)) >= 1
  {
    match s
    case SProduct(p) => ProductReads(p);
    case Plus(l, p) => SumReads(l); ProductReads(p);
    case Minus(l, p) => SumReads(l); ProductReads(p);
  }

  lemma {:induction false} ProductReads(p: Product)
    requires ProductOk(p)
    ensures Reads(ProductTree(p), ProductTokens(p)) && Level(ProductTree(p)) >= 2
  {
    match p
    case PPower(w) => PowerReads(w);
    case Times(l, w) => ProductReads(l); PowerReads(w);
    case Cross(l, w) => ProductReads(l); PowerReads(w);
    case Over(l, w) => ProductReads(l); PowerReads(w);
    case Mod(l, w) => ProductReads(l); PowerReads(w);
  }

  lemma {:induction false} PowerReads(w: Power)
    requires PowerOk(w)
    ensures Reads(PowerTree(w), PowerTokens(w)) && Level(PowerTree(w)) >= 3
  {
    match w
    case WAtom(a) => LeafReads(a);
    case Raised(l, a) => PowerReads(l); LeafReads(a);
  }

  lemma {:induction false} LeafReads(a: Leaf)
    requires LeafOk(a)
    ensures Reads(LeafTree(a), LeafTokens(a)) && Level(LeafTree(a)) == 4
  {
    match a
    case Lit(_) =>
    case Round(b) => BitsReads(b);
  }

  /** Every sentence, however spelled, is answered as its tree: the value if the stacks suffice, or the first fault. No
      operator's rank enters this statement but through the grammar. */
  lemma SentenceMeaning(b: Bits, arg: string)
    requires BitsOk(b) && Lex(arg) == BitsTokens(b)
    ensures var e := BitsTree(b);
            && WellFormed(e)
            && (FitsStacks(e) ==> Calc(arg) == Answer(e))
            && (!FitsStacks(e) ==> Calc(arg) == StackOverflow || (Eval(e).Err? && Calc(arg) == Answer(e)))
            && (Depth(e) <= 7 ==> Calc(arg) == Answer(e))
  {
    BitsReads(b);
    CalculatorMeaning(BitsTree(b), arg);
    if Depth(BitsTree(b)) <= 7 { NoOverflowToDepthSeven(BitsTree(b), arg); }
  }

  /** Every infix string is a sentence. */
  lemma EveryInfixIsSentence(ts: seq<Token>) returns (b: Bits)
    requires IsInfix(ts)
    ensures BitsOk(b) && BitsTokens(b) == ts
  {
    EveryInfixHasOneTree(ts);
    var e :| Reads(e, ts);
    b := AsBits(e);
    BitsReads(b);
  }

  lemma {:induction false} AsBits(e: Expr) returns (b: Bits)
    requires WellFormed(e)
    ensures BitsOk(b) && BitsTree(b) == e
    decreases e, 4
  {
    if e.Bin? && (e.op == '&' || e.op == '|') {
      var l := AsBits(e.left);
      var s := AsSum(e.right);
      b := if e.op == '&' then And(l, s) else Or(l, s);
    } else {
      var s := AsSum(e);
      b := BSum(s);
    }
  }

  lemma {:induction false} AsSum(e: Expr) returns (s: Sum)
    requires WellFormed(e) && Level(e) >= 1
    ensures SumOk(s) && SumTree(s) == e
    decreases e, 3
  {
    if e.Bin? && (e.op == '+' || e.op == '-') {
      var l := AsSum(e.left);
      var p := AsProduct(e.right);
      s := if e.op == '+' then Plus(l, p) else Minus(l, p);
    } else {
      var p := AsProduct(e);
      s := SProduct(p);
    }
  }

  lemma {:induction false} AsProduct(e: Expr) returns (p: Product)
    requires WellFormed(e) && Level(e) >= 2
    ensures ProductOk(p) && ProductTree(p) == e
    decreases e, 2
  {
    if e.Bin? && e.op != '^' {
      var l := AsProduct(e.left);
      var w := AsPower(e.right);
      p := if e.op == '*' then Times(l, w) else if e.op == 'x' then Cross(l, w) else if e.op == '/' then Over(l, w) else Mod(l, w);
    } else {
      var w := AsPower(e);
      p := PPower(w);
    }
  }

  lemma {:induction false} AsPower(e: Expr) returns (w: Power)
    requires WellFormed(e) && Level(e) >= 3
    ensures PowerOk(w) && PowerTree(w) == e
    decreases e, 1
  {
    if e.Bin? {
      var l := AsPower(e.left);
      var a := AsLeaf(e.right);
      w := Raised(l, a);
    } else {
      var a := AsLeaf(e);
      w := WAtom(a);
    }
  }

  lemma {:induction false} AsLeaf(e: Expr) returns (a: Leaf)
    requires WellFormed(e) && Level(e) >= 4
    ensures LeafOk(a) && LeafTree(a) == e
    decreases e, 0
  {
    if e.Paren? {
      var b := AsBits(e.inner);
      a := Round(b);
    } else {
      a := Lit(e.digits);
    }
  }
}
