/** What the calculator says to any argument at all, well formed or not, by counting its tokens (i386/whitex/calc.h:71-152). */
module CalcCounts {
  import opened CalcArith
  import opened CalcMachine
  import opened CalcMeaning
  import opened CalcOperators

  /** The numbers less the operators so far, and the parentheses open. An open parenthesis counts as an operator until it is
      closed; a character that is no operator closes them all without that. */
  datatype Tally = Tally(surplus: int, depth: nat)

  predicate Known(c: char) { c in "+-*/%x^&|" }

  ghost function Counted(n: Tally, t: Token): Tally {
    match t
    case TNum(_) => n.(surplus := n.surplus + 1)
    case TOpen => Tally(n.surplus - 1, n.depth + 1)
    case TClose => if n.depth > 0 then Tally(n.surplus + 1, n.depth - 1) else n
    case TOp(c) => Tally(n.surplus - 1, if Known(c) then n.depth else 0)
  }

  ghost function Count(n: Tally, ts: seq<Token>): Tally
    decreases |ts|
  {
    if ts == [] then n else Count(Counted(n, ts[0]), ts[1..])
  }

  ghost function Opens(ops: seq<char>): nat {
    if ops == [] then 0 else Opens(ops[..|ops| - 1]) + if ops[|ops| - 1] == '(' then 1 else 0
  }

  ghost predicate Tallies(n: Tally, st: Stacks) { n.surplus == |st.vals| - |st.ops| && n.depth == Opens(st.ops) }

  lemma PrecKnown(c: char)
    ensures Prec(c) >= -1 && (Known(c) <==> Prec(c) >= 0)
  {
  }

  /** Applying operators keeps the surplus; what is drained decides the parentheses. */
  lemma {:induction false} DrainTallies(st: Stacks, u: Until)
    requires Sound(st) && Drain(st, u).Go?
    ensures var r := Drain(st, u).st;
            && |r.vals| - |r.ops| == |st.vals| - |st.ops|
            && (u == Empty || u == Below(-1) ==> r.ops == [])
            && (u.Below? && u.k >= 0 ==> Opens(r.ops) == Opens(st.ops))
            && (u == OpenParen ==> Opens(r.ops) == Opens(st.ops) && (r.ops == [] <==> Opens(st.ops) == 0)
                                   && (r.ops != [] ==> r.ops[|r.ops| - 1] == '('))
            && (st.ops != [] && Pops(u, st.ops[|st.ops| - 1]) ==> |r.vals| > 0)
    decreases |st.ops|
  {
    if st.ops != [] {
      PrecKnown(st.ops[|st.ops| - 1]);
      if Pops(u, st.ops[|st.ops| - 1]) {
        var a := ApplyTop(st).st;
        DrainTallies(a, u);
      }
    }
  }

  lemma FeedTallies(st: Stacks, t: Token, n: Tally)
    requires Sound(st) && ValidToken(t) && Tallies(n, st) && Feed(st, t).Go? && (t.TOp? ==> t.c != '(')
    ensures Tallies(Counted(n, t), Feed(st, t).st)
  {
    var r := Feed(st, t).st;
    match t
    case TOpen => assert r.ops[..|st.ops|] == st.ops;
    case TNum(_) =>
    case TClose => DrainTallies(st, OpenParen);
    case TOp(c) =>
      PrecKnown(c);
      DrainTallies(st, Below(Prec(c)));
      assert r.ops[..|r.ops| - 1] == Drain(st, Below(Prec(c))).st.ops;
  }

  /** An operator token is never a parenthesis. */
  ghost predicate PlainOps(ts: seq<Token>) { forall t :: t in ts && t.TOp? ==> t.c != '(' }

  lemma {:induction false} LexPlain(s: string)
    ensures PlainOps(Lex(s))
    decreases |s|
  {
    if s != [] {
      var n := DigitRun(s);
      if n > 0 { LexPlain(s[n..]); }
      LexPlain(s[1..]);
    }
  }

  lemma {:induction false} ExecTallies(ts: seq<Token>, st: Stacks, n: Tally)
    requires Sound(st) && ValidTokens(ts) && PlainOps(ts) && Tallies(n, st) && Exec(ts, st).Go?
    ensures Tallies(Count(n, ts), Exec(ts, st).st)
    decreases |ts|
  {
    if ts != [] {
      FeedTallies(st, ts[0], n);
      ExecTallies(ts[1..], Feed(st, ts[0]).st, Counted(n, ts[0]));
    }
  }

  /** What ends the command early is want of operands, want of stack, or a fault. */
  predicate Breaks(o: Outcome) { o == InvalidSyntax || o == StackOverflow || o.Failed? }

  lemma {:induction false} DrainBreaks(st: Stacks, u: Until)
    requires Sound(st) && Drain(st, u).Halt?
    ensures Breaks(Drain(st, u).o)
    decreases |st.ops|
  {
    var r := ApplyTop(st);
    if r.Go? { DrainBreaks(r.st, u); }
  }

  lemma {:induction false} ExecBreaks(ts: seq<Token>, st: Stacks)
    requires Sound(st) && ValidTokens(ts) && Exec(ts, st).Halt?
    ensures Breaks(Exec(ts, st).o)
    decreases |ts|
  {
    var r := Feed(st, ts[0]);
    if r.Go? {
      ExecBreaks(ts[1..], r.st);
    } else {
      match ts[0]
      case TClose => DrainBreaks(st, OpenParen);
      case TOp(c) => if Drain(st, Below(Prec(c))).Halt? { DrainBreaks(st, Below(Prec(c))); }
      case _ =>
    }
  }

  /** A value is printed only if the numbers are one more than the operators; what is called an invalid expression has another
      count, never a negative one; and only the empty argument gets the usage. */
  lemma CountsDecide(arg: string)
    ensures var n := Count(Tally(0, 0), Lex(arg)).surplus;
            && (Calc(arg).Printed? ==> n == 1)
            && (Calc(arg) == InvalidExpression ==> n != 1 && n >= 0)
            && (n < 0 ==> Calc(arg) == InvalidSyntax || Calc(arg) == StackOverflow || Calc(arg).Failed?)
            && (Calc(arg) == Usage <==> arg == "")
  {
    if arg != "" {
      LexValid(arg);
      LexPlain(arg);
      var r := Exec(Lex(arg), Stacks([], []));
      if r.Go? {
        ExecTallies(Lex(arg), Stacks([], []), Tally(0, 0));
        assert Opens(Stacks([], []).ops) == 0;
        if Drain(r.st, Empty).Go? { DrainTallies(r.st, Empty); } else { DrainBreaks(r.st, Empty); }
      } else {
        ExecBreaks(Lex(arg), Stacks([], []));
      }
    }
  }

  /** What is printed for a value reads back as it; the least value cannot be printed, and a fault is named. */
  lemma AnswersMean(e: Expr)
    requires WellFormed(e)
    ensures Eval(e).Err? ==> Answer(e) == Failed(Eval(e).f)
    ensures Eval(e).Val? && Eval(e).v == INT_MIN ==> Answer(e) == Failed(Undefined)
    ensures Eval(e).Val? && Eval(e).v != INT_MIN ==>
              Answer(e).Printed?
              && var text, v := Answer(e).text, Eval(e).v;
                 if v < 0 then text != "" && text[0] == '-' && AllDigits(text[1..]) && Decimal(text[1..]) == -v
                 else AllDigits(text) && Decimal(text) == v
  {
    if Eval(e).Val? { TextReadsBack(Eval(e).v); }
  }

  /** A literal is its number as long as 32 bits hold it, and undefined beyond. */
  lemma LiteralIsEvaluated(ds: string)
    requires WellFormed(Num(ds))
    ensures Eval(Num(ds)) == if Decimal(ds) <= 2_147_483_647 then Val(Decimal(ds)) else Err(Undefined)
  {
  }
}
