/** What the calculator means, and that its loop computes it. */
module CalcMeaning {
  // Expressions are trees in which every operator associates to the left; the two-stack loop computes
  // their value or first fault.

  import opened CalcArith
  import opened CalcMachine

  datatype Expr =
    | Num(digits: string)
    | Paren(inner: Expr)
    | Bin(op: char, left: Expr, right: Expr)

  /** How tightly the outermost construct binds; literals and parentheses bind tightest. */
  ghost function Level(e: Expr): int { if e.Bin? then Prec(e.op) else 4 }

  /** The trees that need no parentheses beyond the ones they carry. */
  ghost predicate WellFormed(e: Expr) {
    match e
    case Num(ds) => ds != [] && forall c :: c in ds ==> IsDigit(c)
    case Paren(inner) => WellFormed(inner)
    case Bin(op, l, r) =>
      WellFormed(l) && WellFormed(r) && 0 <= Prec(op) <= Level(l) && Prec(op) < Level(r)
  }

  ghost function Tokens(e: Expr): (ts: seq<Token>)
    requires WellFormed(e)
    ensures ValidTokens(ts) && ts != []
  {
    match e
    case Num(ds) => [TNum(ds)]
    case Paren(inner) => [TOpen] + Tokens(inner) + [TClose]
    case Bin(op, l, r) => Tokens(l) + [TOp(op)] + Tokens(r)
  }

  /** The value of a tree, or the first fault in left-to-right postorder. */
  ghost function Eval(e: Expr): (r: Arith)
    requires WellFormed(e)
    ensures r.Val? ==> Fits(r.v)
  {
    match e
    case Num(ds) => Literal(ds)
    case Paren(inner) => Eval(inner)
    case Bin(op, l, r) =>
      var a := Eval(l);
      if a.Err? then a else
      var b := Eval(r);
      if b.Err? then b else Apply(a.v, b.v, op)
  }

  function Max(a: nat, b: nat): nat { if a < b then b else a }

  /** Operators and open parentheses an expression keeps pending at its worst moment. */
  ghost function OpsNeed(e: Expr): nat {
    match e
    case Num(_) => 0
    case Paren(inner) => 1 + OpsNeed(inner)
    case Bin(_, l, r) => Max(OpsNeed(l), 1 + OpsNeed(r))
  }

  /** Values it keeps at its worst moment. */
  ghost function ValsNeed(e: Expr): nat {
    match e
    case Num(_) => 1
    case Paren(inner) => ValsNeed(inner)
    case Bin(_, l, r) => Max(ValsNeed(l), 1 + ValsNeed(r))
  }

  ghost predicate Room(e: Expr, st: Stacks) {
    |st.ops| + OpsNeed(e) <= CAPACITY && |st.vals| + ValsNeed(e) <= CAPACITY
  }

  // ---------- composition of the machine ----------

  ghost function DrainMore(r: Res, u: Until): (r': Res)
    requires r.Go? ==> Sound(r.st)
    ensures r'.Go? ==> Sound(r'.st)
  {
    if r.Halt? then r else Drain(r.st, u)
  }

  lemma {:induction false} ExecAppend(a: seq<Token>, b: seq<Token>, st: Stacks)
    requires Sound(st) && ValidTokens(a) && ValidTokens(b)
    ensures ValidTokens(a + b)
    ensures Exec(a + b, st) == ExecMore(Exec(a, st), b)
    decreases |a|
  {
    assert ValidTokens(a + b);
    if a == [] {
      assert a + b == b;
    } else {
      assert (a + b)[0] == a[0] && (a + b)[1..] == a[1..] + b;
      var r := Feed(st, a[0]);
      if r.Go? { ExecAppend(a[1..], b, r.st); }
    }
  }

  /** Popping down to a precedence can be done in two stages. */
  lemma {:induction false} DrainTwice(st: Stacks, k: int, p: int)
    requires Sound(st) && p <= k
    ensures DrainMore(Drain(st, Below(k)), Below(p)) == Drain(st, Below(p))
    decreases |st.ops|
  {
    if st.ops != [] && Pops(Below(k), st.ops[|st.ops| - 1]) {
      var r := ApplyTop(st);
      if r.Go? { DrainTwice(r.st, k, p); }
    }
  }

  /** Above an open parenthesis, popping to the parenthesis is popping every known operator. */
  ghost predicate Known(ops: seq<char>) { forall c :: c in ops ==> c == '(' || Prec(c) >= 0 }

  lemma {:induction false} DrainParen(st: Stacks, k: int)
    requires Sound(st) && Known(st.ops) && 0 <= k
    ensures DrainMore(Drain(st, Below(k)), OpenParen) == Drain(st, OpenParen)
    decreases |st.ops|
  {
    if st.ops != [] && Pops(Below(k), st.ops[|st.ops| - 1]) {
      var r := ApplyTop(st);
      if r.Go? { DrainParen(r.st, k); }
    }
  }

  lemma {:induction false} DrainEmpty(st: Stacks, k: int)
    requires Sound(st)
    ensures DrainMore(Drain(st, Below(k)), Empty) == Drain(st, Empty)
    decreases |st.ops|
  {
    if st.ops != [] && Pops(Below(k), st.ops[|st.ops| - 1]) {
      var r := ApplyTop(st);
      if r.Go? { DrainEmpty(r.st, k); }
    }
  }

  /** Well-formed input never leaves an unknown operator on the stack. */
  lemma {:induction false} DrainKnown(st: Stacks, u: Until)
    requires Sound(st) && Known(st.ops)
    ensures Drain(st, u).Go? ==> Known(Drain(st, u).st.ops)
    decreases |st.ops|
  {
    if st.ops != [] && Pops(u, st.ops[|st.ops| - 1]) {
      var r := ApplyTop(st);
      if r.Go? { DrainKnown(r.st, u); }
    }
  }

  lemma {:induction false} ExecKnown(ts: seq<Token>, st: Stacks)
    requires Sound(st) && ValidTokens(ts) && Known(st.ops)
    requires forall t :: t in ts && t.TOp? ==> Prec(t.c) >= 0
    ensures Exec(ts, st).Go? ==> Known(Exec(ts, st).st.ops)
    decreases |ts|
  {
    if ts != [] {
      var t := ts[0];
      if t.TOp? { DrainKnown(st, Below(Prec(t.c))); }
      if t.TClose? { DrainKnown(st, OpenParen); }
      var r := Feed(st, t);
      if r.Go? { ExecKnown(ts[1..], r.st); }
    }
  }

  lemma {:induction false} TokensKnown(e: Expr)
    requires WellFormed(e)
    ensures forall t :: t in Tokens(e) && t.TOp? ==> Prec(t.c) >= 0
  {
    match e
    case Num(_) =>
    case Paren(inner) => TokensKnown(inner);
    case Bin(_, l, r) => TokensKnown(l); TokensKnown(r);
  }

  // ---------- the machine computes the tree ----------

  /** Nothing already on the operator stack is popped by an expression of this level. */
  ghost predicate Shielded(st: Stacks, level: int) {
    Sound(st) && Known(st.ops) && (st.ops == [] || Prec(st.ops[|st.ops| - 1]) < level)
  }

  /** `r` is where the tokens of an expression lead, `d` what is left after popping, `v` its value. */
  ghost predicate Agree(r: Res, d: Res, v: Arith, room: bool, st: Stacks) {
    && (room && v.Val? ==> d == Go(Stacks(st.vals + [v.v], st.ops)))
    && (room && v.Err? ==> d == Halt(Failed(v.f)))
    && (!room && v.Val? ==> r == Halt(StackOverflow))
    && (!room && v.Err? ==> r == Halt(StackOverflow) || d == Halt(Failed(v.f)))
  }

  /** After the tokens of `e`, popping down to the level of `e` leaves exactly its value on top of
      what was there; a fault, or a shortage of stack, ends the command. */
  ghost predicate Computes(e: Expr, st: Stacks)
    requires WellFormed(e) && Sound(st)
  {
    var r := Exec(Tokens(e), st);
    var d := DrainMore(r, Below(Level(e)));
    var v := Eval(e);
    Agree(r, d, v, Room(e, st), st)
  }

  /** An operator token may be met after the pops of the expression before it. */
  lemma OperatorAfter(st: Stacks, level: int, op: char)
    requires Sound(st) && Prec(op) <= level
    ensures var d := DrainMore(Drain(st, Below(level)), Below(Prec(op)));
            Exec([TOp(op)], st) == if d.Halt? then d else PushOp(d.st, op)
  {
    DrainTwice(st, level, Prec(op));
    OneToken(TOp(op), st);
  }

  lemma CloseAfter(st: Stacks, level: int)
    requires Sound(st) && Known(st.ops) && 0 <= level
    ensures var d := DrainMore(Drain(st, Below(level)), OpenParen);
            Exec([TClose], st) ==
            if d.Halt? || d.st.ops == [] then d else Go(d.st.(ops := d.st.ops[..|d.st.ops| - 1]))
  {
    DrainParen(st, level);
    OneToken(TClose, st);
  }

  lemma OneToken(t: Token, st: Stacks)
    requires Sound(st) && ValidToken(t)
    ensures Exec([t], st) == Feed(st, t)
  {
    assert [t][1..] == [];
  }

  /** The closing parenthesis, once the inner expression has been read. */
  lemma CloseStep(st: Stacks, r: Res, v: Arith, room: bool, level: int)
    requires Sound(st) && |st.ops| < CAPACITY && 0 <= level
    requires r.Go? ==> Sound(r.st) && Known(r.st.ops)
    requires Agree(r, DrainMore(r, Below(level)), v, room, st.(ops := st.ops + ['(']))
    ensures var r' := ExecMore(r, [TClose]);
            Agree(r', r', v, room, st)
  {
    if r.Go? {
      CloseAfter(r.st, level);
      assert (st.ops + ['('])[..|st.ops|] == st.ops;
    }
  }

  lemma ParenStep(e: Expr, st: Stacks)
    requires e.Paren? && WellFormed(e) && Shielded(st, 4)
    requires |st.ops| < CAPACITY ==> Computes(e.inner, st.(ops := st.ops + ['(']))
    ensures Computes(e, st)
  {
    var inner := e.inner;
    OneToken(TOpen, st);
    ExecAppend([TOpen] + Tokens(inner), [TClose], st);
    ExecAppend([TOpen], Tokens(inner), st);
    if |st.ops| < CAPACITY {
      var st1 := st.(ops := st.ops + ['(']);
      var r := Exec(Tokens(inner), st1);
      TokensKnown(inner);
      ExecKnown(Tokens(inner), st1);
      CloseStep(st, r, Eval(inner), Room(inner, st1), Level(inner));
      NothingToPop(Exec(Tokens(e), st), Eval(e), Room(e, st), st);
    }
  }

  lemma NothingToPop(r: Res, v: Arith, room: bool, st: Stacks)
    requires Shielded(st, 4) && Agree(r, r, v, room, st)
    requires r.Go? ==> Sound(r.st)
    ensures Agree(r, DrainMore(r, Below(4)), v, room, st)
  {
  }

  /** Popping a single shielded operator applies it to the two top values. */
  lemma DrainOne(st: Stacks, a: int, b: int, op: char)
    requires Shielded(st, Prec(op)) && Fits(a) && Fits(b)
    requires |st.ops| < CAPACITY && |st.vals| + 2 <= CAPACITY
    ensures var v := Apply(a, b, op);
            Drain(Stacks(st.vals + [a] + [b], st.ops + [op]), Below(Prec(op))) ==
            if v.Err? then Halt(Failed(v.f)) else Go(Stacks(st.vals + [v.v], st.ops))
  {
    var top := Stacks(st.vals + [a] + [b], st.ops + [op]);
    assert top.vals[..|top.vals| - 2] == st.vals && top.ops[..|top.ops| - 1] == st.ops;
  }

  /** The right operand and its operator, once the left operand's value is in place. */
  lemma BinRight(e: Expr, st: Stacks, a: int)
    requires e.Bin? && WellFormed(e) && Shielded(st, Level(e)) && Eval(e.left) == Val(a)
    requires |st.vals| < CAPACITY && |st.ops| < CAPACITY
    requires Computes(e.right, Stacks(st.vals + [a], st.ops + [e.op]))
    ensures var st2 := Stacks(st.vals + [a], st.ops + [e.op]);
            var r := Exec(Tokens(e.right), st2);
            Agree(r, DrainMore(r, Below(Level(e))), Eval(e), Room(e.right, st2), st)
  {
    var st2 := Stacks(st.vals + [a], st.ops + [e.op]);
    var r := Exec(Tokens(e.right), st2);
    if r.Go? {
      DrainTwice(r.st, Level(e.right), Prec(e.op));
      var w := Eval(e.right);
      if w.Val? {
        assert Sound(Stacks(st2.vals + [w.v], st2.ops));
        DrainOne(st, a, w.v, e.op);
      }
    }
  }

  /** What the left operand followed by its operator leads to. */
  ghost predicate OperatorPushed(r: Res, v: Arith, room: bool, st: Stacks, op: char) {
    && (room && v.Val? ==>
          r == if |st.ops| < CAPACITY then Go(Stacks(st.vals + [v.v], st.ops + [op])) else Halt(StackOverflow))
    && (room && v.Err? ==> r == Halt(Failed(v.f)))
    && (!room && v.Val? ==> r == Halt(StackOverflow))
    && (!room && v.Err? ==> r == Halt(StackOverflow) || r == Halt(Failed(v.f)))
  }

  lemma OperatorStep(st: Stacks, r: Res, v: Arith, room: bool, level: int, op: char)
    requires Shielded(st, Prec(op)) && Prec(op) <= level && (r.Go? ==> Sound(r.st))
    requires Agree(r, DrainMore(r, Below(level)), v, room, st)
    ensures OperatorPushed(ExecMore(r, [TOp(op)]), v, room, st, op)
  {
    if r.Go? { OperatorAfter(r.st, level, op); }
  }

  lemma {:induction false} ValsNeedPositive(e: Expr)
    ensures ValsNeed(e) >= 1
  {
    match e
    case Num(_) =>
    case Paren(inner) => ValsNeedPositive(inner);
    case Bin(_, l, r) => ValsNeedPositive(l);
  }

  lemma BinStep(e: Expr, st: Stacks)
    requires e.Bin? && WellFormed(e) && Shielded(st, Level(e))
    requires Computes(e.left, st)
    requires var v := Eval(e.left);
             v.Val? && |st.vals| < CAPACITY && |st.ops| < CAPACITY ==>
               Computes(e.right, Stacks(st.vals + [v.v], st.ops + [e.op]))
    ensures Computes(e, st)
  {
    var v := Eval(e.left);
    var toks := Tokens(e.left) + [TOp(e.op)];
    ExecAppend(Tokens(e.left), [TOp(e.op)], st);
    OperatorStep(st, Exec(Tokens(e.left), st), v, Room(e.left, st), Level(e.left), e.op);
    ExecAppend(toks, Tokens(e.right), st);
    ValsNeedPositive(e.left);
    if v.Val? && Room(e.left, st) && |st.ops| < CAPACITY {
      BinRight(e, st, v.v);
    }
  }

  lemma {:induction false} Correct(e: Expr, st: Stacks)
    requires WellFormed(e) && Shielded(st, Level(e))
    ensures Computes(e, st)
    decreases e
  {
    match e
    case Num(ds) =>
      ExecCons(TNum(ds), [], st);
    case Paren(inner) =>
      if |st.ops| < CAPACITY { Correct(inner, st.(ops := st.ops + ['('])); }
      ParenStep(e, st);
    case Bin(op, l, r) =>
      Correct(l, st);
      var v := Eval(l);
      if v.Val? && |st.vals| < CAPACITY && |st.ops| < CAPACITY {
        Correct(r, Stacks(st.vals + [v.v], st.ops + [op]));
      }
      BinStep(e, st);
  }

  ghost function Answer(e: Expr): Outcome
    requires WellFormed(e)
  {
    var v := Eval(e);
    if v.Err? then Failed(v.f) else Show(v.v)
  }

  ghost predicate FitsStacks(e: Expr) { OpsNeed(e) <= CAPACITY && ValsNeed(e) <= CAPACITY }

  /** The calculator theorem: for every spelling of every well-formed expression (any spacing), the
      command prints the decimal text of its value or reports its first fault. If the expression
      needs more than 40 entries it reports a stack overflow, or a fault met before that. */
  lemma {:induction false} CalculatorMeaning(e: Expr, arg: string)
    requires WellFormed(e) && Lex(arg) == Tokens(e)
    ensures FitsStacks(e) ==> Calc(arg) == Answer(e)
    ensures !FitsStacks(e) && Eval(e).Val? ==> Calc(arg) == StackOverflow
    ensures !FitsStacks(e) && Eval(e).Err? ==> Calc(arg) == StackOverflow || Calc(arg) == Answer(e)
  {
    var st := Stacks([], []);
    Correct(e, st);
    var r := Exec(Tokens(e), st);
    if r.Go? { DrainEmpty(r.st, Level(e)); }
  }

  // ---------- every expression can be spelled ----------

  ghost function SpellToken(t: Token): string {
    match t
    case TNum(ds) => ds + " "
    case TOpen => "("
    case TClose => ")"
    case TOp(c) => [c]
  }

  ghost function SpellTokens(ts: seq<Token>): string {
    if ts == [] then "" else SpellToken(ts[0]) + SpellTokens(ts[1..])
  }

  /** A spelling of an expression. */
  ghost function Spell(e: Expr): string
    requires WellFormed(e)
  {
    SpellTokens(Tokens(e))
  }

  /** A token that the scanner can produce and an expression contains. */
  ghost predicate Spellable(t: Token) {
    match t
    case TNum(ds) => ds != [] && forall c :: c in ds ==> IsDigit(c)
    case TOp(c) => Prec(c) >= 0
    case _ => true
  }

  lemma {:induction false} TokensSpellable(e: Expr)
    requires WellFormed(e)
    ensures forall t :: t in Tokens(e) ==> Spellable(t)
  {
    match e
    case Num(_) =>
    case Paren(inner) => TokensSpellable(inner);
    case Bin(_, l, r) => TokensSpellable(l); TokensSpellable(r);
  }

  /** The scanner reads a spelled token back. */
  lemma LexToken(t: Token, rest: string)
    requires Spellable(t)
    ensures Lex(SpellToken(t) + rest) == [t] + Lex(rest)
    ensures '\0' !in SpellToken(t)
  {
    var s := SpellToken(t) + rest;
    match t
    case TNum(ds) =>
      var n := DigitRun(s);
      assert s[|ds|] == ' ' && forall k :: 0 <= k < |ds| ==> s[k] == ds[k];
      assert n == |ds| && s[..n] == ds && s[n..] == " " + rest;
      assert (" " + rest)[1..] == rest;
    case _ =>
      assert s[1..] == rest;
  }

  lemma {:induction false} LexSpelled(ts: seq<Token>)
    requires forall t :: t in ts ==> Spellable(t)
    ensures Lex(SpellTokens(ts)) == ts && '\0' !in SpellTokens(ts)
  {
    if ts != [] {
      LexSpelled(ts[1..]);
      LexToken(ts[0], SpellTokens(ts[1..]));
    }
  }

  /** Every well-formed expression has a spelling that the scanner reads back, so the theorem is about every
      one of them. */
  lemma SpellReadsBack(e: Expr)
    requires WellFormed(e)
    ensures Lex(Spell(e)) == Tokens(e) && '\0' !in Spell(e)
    ensures FitsStacks(e) ==> Calc(Spell(e)) == Answer(e)
  {
    TokensSpellable(e);
    LexSpelled(Tokens(e));
    CalculatorMeaning(e, Spell(e));
  }

  // ---------- how much stack is needed ----------

  ghost function Depth(e: Expr): nat {
    match e
    case Num(_) => 0
    case Paren(inner) => 1 + Depth(inner)
    case Bin(_, l, r) => Max(Depth(l), Depth(r))
  }

  /** Pending operators rise strictly in precedence between open parentheses, so there are at most
      four of them for each open parenthesis and four more. */
  lemma {:induction false} NeedBound(e: Expr)
    requires WellFormed(e)
    ensures OpsNeed(e) <= 5 * Depth(e) + 4 - Level(e)
    ensures ValsNeed(e) <= 4 * Depth(e) + 5 - Level(e)
    ensures Level(e) <= 4
  {
    match e
    case Num(_) =>
    case Paren(inner) => NeedBound(inner);
    case Bin(_, l, r) => NeedBound(l); NeedBound(r);
  }

  /** No well-formed expression with at most seven nested parentheses ever overflows. */
  lemma {:induction false} NoOverflowToDepthSeven(e: Expr, arg: string)
    requires WellFormed(e) && Lex(arg) == Tokens(e) && Depth(e) <= 7
    ensures OpsNeed(e) <= 5 * Depth(e) + 4
    ensures Calc(arg) == Answer(e) && Calc(arg) != StackOverflow
  {
    NeedBound(e);
    CalculatorMeaning(e, arg);
  }

  ghost const ONE := Num("1")

  ghost function Wrap(last: Expr): Expr { Bin('&', ONE, Bin('+', ONE, Bin('*', ONE, Bin('^', ONE, last)))) }

  /** `1&1+1*1^(...)`, nested `d` deep. */
  ghost function Deep(d: nat): Expr {
    Wrap(if d == 0 then ONE else Paren(Deep(d - 1)))
  }

  lemma PowOne(k: nat)
    ensures Pow(1, k) == 1
  {
    if k > 0 { PowOne(k - 1); }
  }

  lemma {:induction false} AndZero(b: nat, n: nat)
    ensures Bitwise(0, b, n, true) == 0
  {
    if n > 0 { AndZero(b / 2, n - 1); }
  }

  lemma AndOneTwo()
    ensures BitAnd(1, 2) == 0
  {
    AndZero(1, 31);
  }

  /** The bound is met exactly at every depth. */
  lemma {:induction false} DeepIsWorst(d: nat)
    ensures WellFormed(Deep(d)) && Depth(Deep(d)) == d
    ensures OpsNeed(Deep(d)) == 5 * d + 4
    ensures Eval(Deep(d)) == Val(0)
  {
    if d > 0 { DeepIsWorst(d - 1); }
    assert Decimal("1") == 1;
    var last := if d == 0 then ONE else Paren(Deep(d - 1));
    assert Eval(ONE) == Val(1);
    assert WellFormed(last) && Level(last) == 4 && Depth(last) == d && OpsNeed(last) == 5 * d;
    assert Eval(last) == if d == 0 then Val(1) else Val(0);
    hide Eval, Apply, WellFormed, Depth, OpsNeed, Level;
    WrapShape(last);
    WrapValue(last);
  }

  lemma WrapShape(last: Expr)
    requires WellFormed(last) && Level(last) == 4
    ensures WellFormed(Wrap(last)) && Depth(Wrap(last)) == Depth(last) && OpsNeed(Wrap(last)) == 4 + OpsNeed(last)
  {
    OneOp('^', last);
    var power := Bin('^', ONE, last);
    OneOp('*', power);
    var product := Bin('*', ONE, power);
    OneOp('+', product);
    OneOp('&', Bin('+', ONE, product));
    hide WellFormed, Depth, OpsNeed, Level;
  }

  lemma OneOp(op: char, e: Expr)
    requires WellFormed(e) && 0 <= Prec(op) < Level(e) && Prec(op) <= 4
    ensures var b := Bin(op, ONE, e);
            WellFormed(b) && Depth(b) == Depth(e) && OpsNeed(b) == 1 + OpsNeed(e) && Level(b) == Prec(op)
  {
  }

  lemma WrapValue(last: Expr)
    requires WellFormed(Wrap(last)) && WellFormed(last) && Level(last) == 4 && (Eval(last) == Val(0) || Eval(last) == Val(1))
    ensures Eval(Wrap(last)) == Val(0)
  {
    assert Decimal("1") == 1;
    assert Eval(ONE) == Val(1);
    PowOne(0);
    PowOne(1);
    assert Eval(Bin('^', ONE, last)) == Val(1);
    assert Eval(Bin('*', ONE, Bin('^', ONE, last))) == Val(1);
    assert Eval(Bin('+', ONE, Bin('*', ONE, Bin('^', ONE, last)))) == Val(2);
    AndOneTwo();
  }

  /** Seven is sharp: the depth-8 member of the family has a spelling, and every spelling of it overflows. */
  lemma DepthEightOverflows()
    ensures WellFormed(Deep(8)) && Depth(Deep(8)) == 8
    ensures Lex(Spell(Deep(8))) == Tokens(Deep(8)) && Calc(Spell(Deep(8))) == StackOverflow
    ensures forall arg :: Lex(arg) == Tokens(Deep(8)) ==> Calc(arg) == StackOverflow
  {
    hide Deep, Spell, Tokens, Lex, Calc;
    DeepIsWorst(8);
    SpellReadsBack(Deep(8));
    forall arg | Lex(arg) == Tokens(Deep(8))
      ensures Calc(arg) == StackOverflow
    {
      CalculatorMeaning(Deep(8), arg);
    }
  }
}
