/** The two-stack loop of `cmd_calc_handler` (i386/whitex/calc.h): first as functions on tokens and
    stacks, which `CalcMeaning` compares with the expression tree; then as the imperative routine over
    two fixed arrays and their tops, which scans the characters one by one and computes the same
    outcome. */
module CalcMachine {
  import opened Common
  import opened CalcArith

  const CAPACITY := 40

  datatype Token = TNum(digits: string) | TOpen | TClose | TOp(c: char)

  datatype Outcome =
    | Usage
    | StackOverflow
    | InvalidSyntax
    | InvalidExpression
    | Failed(fault: Fault)
    | Printed(text: string)

  datatype Stacks = Stacks(vals: seq<int>, ops: seq<char>)

  /** Either the stacks to go on with, or the message that ended the command. */
  datatype Res = Go(st: Stacks) | Halt(o: Outcome)

  ghost predicate Sound(st: Stacks) {
    && |st.vals| <= CAPACITY && |st.ops| <= CAPACITY
    && forall v :: v in st.vals ==> Fits(v)
  }

  /** `get_precedence`. */
  function Prec(op: char): int {
    if op == '+' || op == '-' then 1
    else if op == '*' || op == '/' || op == '%' || op == 'x' then 2
    else if op == '^' then 3
    else if op == '&' || op == '|' then 0
    else -1
  }

  // ---------- tokens ----------

  /** Length of the digit run at the front of `s`. */
  ghost function DigitRun(s: string): (n: nat)
    ensures n <= |s|
    ensures forall k :: 0 <= k < n ==> IsDigit(s[k])
    ensures n < |s| ==> !IsDigit(s[n])
  {
    if s != [] && IsDigit(s[0]) then 1 + DigitRun(s[1..]) else 0
  }

  /** The tokens the scanner sees: blanks are skipped, digit runs are maximal, and every other
      character that is not a parenthesis is taken for an operator. */
  ghost function Lex(s: string): seq<Token>
    decreases |s|
  {
    if s == [] then []
    else if s[0] == ' ' then Lex(s[1..])
    else if s[0] == '(' then [TOpen] + Lex(s[1..])
    else if s[0] == ')' then [TClose] + Lex(s[1..])
    else if IsDigit(s[0]) then
      var n := DigitRun(s);
      [TNum(s[..n])] + Lex(s[n..])
    else [TOp(s[0])] + Lex(s[1..])
  }

  ghost function Literal(ds: string): (r: Arith)
    requires forall c :: c in ds ==> IsDigit(c)
    ensures r.Val? ==> Fits(r.v)
  {
    Checked(Decimal(ds))
  }

  // ---------- the machine ----------

  /** The condition of the three popping loops: an incoming operator of some precedence, a closing
      parenthesis, or the end of the input. */
  datatype Until = Below(k: int) | OpenParen | Empty

  predicate Pops(u: Until, top: char) {
    match u
    case Below(k) => Prec(top) >= k
    case OpenParen => top != '('
    case Empty => true
  }

  ghost function ApplyTop(st: Stacks): (r: Res)
    requires Sound(st) && st.ops != []
    ensures r.Go? ==> Sound(r.st) && |r.st.ops| == |st.ops| - 1
  {
    var n := |st.vals|;
    if n < 2 then Halt(InvalidSyntax)
    else
      match Apply(st.vals[n - 2], st.vals[n - 1], st.ops[|st.ops| - 1])
      case Err(f) => Halt(Failed(f))
      case Val(v) => Go(Stacks(st.vals[..n - 2] + [v], st.ops[..|st.ops| - 1]))
  }

  ghost function Drain(st: Stacks, u: Until): (r: Res)
    requires Sound(st)
    ensures r.Go? ==> Sound(r.st)
    decreases |st.ops|
  {
    if st.ops == [] || !Pops(u, st.ops[|st.ops| - 1]) then Go(st)
    else
      match ApplyTop(st)
      case Halt(o) => Halt(o)
      case Go(st') => Drain(st', u)
  }

  ghost function PushOp(st: Stacks, c: char): (r: Res)
    requires Sound(st)
    ensures r.Go? ==> Sound(r.st)
  {
    if |st.ops| >= CAPACITY then Halt(StackOverflow) else Go(st.(ops := st.ops + [c]))
  }

  ghost function PushVal(st: Stacks, v: int): (r: Res)
    requires Sound(st) && Fits(v)
    ensures r.Go? ==> Sound(r.st)
  {
    if |st.vals| >= CAPACITY then Halt(StackOverflow) else Go(st.(vals := st.vals + [v]))
  }

  ghost predicate ValidToken(t: Token) { t.TNum? ==> forall c :: c in t.digits ==> IsDigit(c) }

  ghost function Feed(st: Stacks, t: Token): (r: Res)
    requires Sound(st) && ValidToken(t)
    ensures r.Go? ==> Sound(r.st)
  {
    match t
    case TOpen => PushOp(st, '(')
    case TNum(ds) => (
      match Literal(ds)
      case Err(f) => Halt(Failed(f))
      case Val(v) => PushVal(st, v)
    )
    case TClose => (
      match Drain(st, OpenParen)
      case Halt(o) => Halt(o)
      case Go(st') => Go(if st'.ops == [] then st' else st'.(ops := st'.ops[..|st'.ops| - 1]))
    )
    case TOp(c) => (
      match Drain(st, Below(Prec(c)))
      case Halt(o) => Halt(o)
      case Go(st') => PushOp(st', c)
    )
  }

  ghost predicate ValidTokens(ts: seq<Token>) { forall t :: t in ts ==> ValidToken(t) }

  ghost function Exec(ts: seq<Token>, st: Stacks): (r: Res)
    requires Sound(st) && ValidTokens(ts)
    ensures r.Go? ==> Sound(r.st)
    decreases |ts|
  {
    if ts == [] then Go(st)
    else
      var r := Feed(st, ts[0]);
      if r.Halt? then r else Exec(ts[1..], r.st)
  }

  /** Goes on with more tokens unless the command has ended. */
  ghost function ExecMore(r: Res, ts: seq<Token>): (r': Res)
    requires (r.Go? ==> Sound(r.st)) && ValidTokens(ts)
    ensures r'.Go? ==> Sound(r'.st)
  {
    if r.Halt? then r else Exec(ts, r.st)
  }

  /** What is printed for a final value: `itoa2` negates `INT_MIN`, which overflows. */
  ghost function Show(v: int): Outcome {
    if v == INT_MIN then Failed(Undefined) else Printed(DecimalText(v))
  }

  ghost function Finish(st: Stacks): Outcome
    requires Sound(st)
  {
    match Drain(st, Empty)
    case Halt(o) => o
    case Go(st') => if |st'.vals| == 1 then Show(st'.vals[0]) else InvalidExpression
  }

  lemma {:induction false} LexValid(s: string)
    ensures ValidTokens(Lex(s))
    decreases |s|
  {
    if s != [] {
      var n := DigitRun(s);
      if n > 0 { LexValid(s[n..]); }
      LexValid(s[1..]);
    }
  }

  /** What the command prints for an argument, as a function of the argument. */
  ghost function Calc(arg: string): Outcome {
    if arg == "" then Usage
    else
      LexValid(arg);
      match Exec(Lex(arg), Stacks([], []))
      case Halt(o) => o
      case Go(st) => Finish(st)
  }

  // ---------- the routine ----------

  ghost function View(values: array<int>, ops: array<char>, valTop: int, opsTop: int): Stacks
    requires -1 <= valTop < values.Length && -1 <= opsTop < ops.Length
    reads values, ops
  {
    Stacks(values[..valTop + 1], ops[..opsTop + 1])
  }

  ghost predicate Tops(values: array<int>, ops: array<char>, valTop: int, opsTop: int) {
    && values.Length == CAPACITY && ops.Length == CAPACITY
    && -1 <= valTop < CAPACITY && -1 <= opsTop < CAPACITY
  }

  ghost function Result(halt: Option<Outcome>, st: Stacks): Res {
    if halt.Some? then Halt(halt.value) else Go(st)
  }

  /** One pass of a popping loop: two operands and an operator become one operand. */
  method PopOnce(values: array<int>, ops: array<char>, valTop: int, opsTop: int)
      returns (vt: int, ot: int, halt: Option<Outcome>)
    requires Tops(values, ops, valTop, opsTop) && Sound(View(values, ops, valTop, opsTop)) && opsTop >= 0
    modifies values
    ensures Tops(values, ops, vt, ot) && ot < opsTop
    ensures old(ApplyTop(View(values, ops, valTop, opsTop))) == Result(halt, View(values, ops, vt, ot))
  {
    vt, ot := valTop, opsTop - 1;
    if vt < 1 { return vt, ot, Some(InvalidSyntax); }
    ghost var st := View(values, ops, valTop, opsTop);
    var val2 := values[vt];
    var val1 := values[vt - 1];
    assert val2 == st.vals[vt] && val1 == st.vals[vt - 1];
    var res := ApplyOp(val1, val2, ops[opsTop]);
    if res.Err? { return vt, ot, Some(Failed(res.f)); }
    vt := vt - 1;
    values[vt] := res.v;
    assert View(values, ops, vt, ot) == Stacks(st.vals[..vt] + [res.v], st.ops[..opsTop]);
    halt := None;
  }

  /** The three popping loops differ only in their guard. */
  method PopWhile(values: array<int>, ops: array<char>, valTop: int, opsTop: int, u: Until)
      returns (vt: int, ot: int, halt: Option<Outcome>)
    requires Tops(values, ops, valTop, opsTop) && Sound(View(values, ops, valTop, opsTop))
    modifies values
    ensures Tops(values, ops, vt, ot)
    ensures old(Drain(View(values, ops, valTop, opsTop), u)) == Result(halt, View(values, ops, vt, ot))
  {
    vt, ot, halt := valTop, opsTop, None;
    ghost var goal := Drain(View(values, ops, vt, ot), u);
    while ot >= 0 && Pops(u, ops[ot])
      invariant Tops(values, ops, vt, ot) && Sound(View(values, ops, vt, ot))
      invariant goal == Drain(View(values, ops, vt, ot), u)
      invariant halt == None
      decreases ot
    {
      vt, ot, halt := PopOnce(values, ops, vt, ot);
      if halt.Some? { return; }
    }
  }

  method PushOperator(values: array<int>, ops: array<char>, valTop: int, opsTop: int, c: char)
      returns (ot: int, halt: Option<Outcome>)
    requires Tops(values, ops, valTop, opsTop) && Sound(View(values, ops, valTop, opsTop))
    modifies ops
    ensures Tops(values, ops, valTop, ot)
    ensures old(PushOp(View(values, ops, valTop, opsTop), c)) == Result(halt, View(values, ops, valTop, ot))
  {
    ot := opsTop;
    if ot >= 39 { return ot, Some(StackOverflow); }
    ghost var st := View(values, ops, valTop, opsTop);
    ot := ot + 1;
    ops[ot] := c;
    assert View(values, ops, valTop, ot) == st.(ops := st.ops + [c]);
    halt := None;
  }

  method PushValue(values: array<int>, ops: array<char>, valTop: int, opsTop: int, v: int)
      returns (vt: int, halt: Option<Outcome>)
    requires Tops(values, ops, valTop, opsTop) && Sound(View(values, ops, valTop, opsTop)) && Fits(v)
    modifies values
    ensures Tops(values, ops, vt, opsTop)
    ensures old(PushVal(View(values, ops, valTop, opsTop), v)) == Result(halt, View(values, ops, vt, opsTop))
  {
    vt := valTop;
    if vt >= 39 { return vt, Some(StackOverflow); }
    ghost var st := View(values, ops, valTop, opsTop);
    vt := vt + 1;
    values[vt] := v;
    assert View(values, ops, vt, opsTop) == st.(vals := st.vals + [v]);
    halt := None;
  }

  method CloseParen(values: array<int>, ops: array<char>, valTop: int, opsTop: int)
      returns (vt: int, ot: int, halt: Option<Outcome>)
    requires Tops(values, ops, valTop, opsTop) && Sound(View(values, ops, valTop, opsTop))
    modifies values
    ensures Tops(values, ops, vt, ot)
    ensures old(Feed(View(values, ops, valTop, opsTop), TClose)) == Result(halt, View(values, ops, vt, ot))
  {
    vt, ot, halt := PopWhile(values, ops, valTop, opsTop, OpenParen);
    if halt.None? && ot >= 0 {
      assert ops[..ot + 1][..ot] == ops[..ot];
      ot := ot - 1;
    }
  }

  method Operator(values: array<int>, ops: array<char>, valTop: int, opsTop: int, c: char)
      returns (vt: int, ot: int, halt: Option<Outcome>)
    requires Tops(values, ops, valTop, opsTop) && Sound(View(values, ops, valTop, opsTop))
    modifies values, ops
    ensures Tops(values, ops, vt, ot)
    ensures old(Feed(View(values, ops, valTop, opsTop), TOp(c))) == Result(halt, View(values, ops, vt, ot))
  {
    vt, ot, halt := PopWhile(values, ops, valTop, opsTop, Below(Prec(c)));
    if halt.None? { ot, halt := PushOperator(values, ops, vt, ot, c); }
  }

  lemma {:induction false} DecimalGrows(ds: string, k: nat)
    requires forall c :: c in ds ==> IsDigit(c)
    requires k <= |ds|
    ensures Decimal(ds[..k]) <= Decimal(ds)
    decreases |ds|
  {
    if k < |ds| {
      var front := ds[..|ds| - 1];
      assert IsDigit(ds[|ds| - 1]);
      assert ds[..k] == front[..k];
      DecimalGrows(front, k);
    } else {
      assert ds[..k] == ds;
    }
  }

  /** The digit loop: an overflow is met on the way exactly when the whole literal does not fit. */
  method ScanNumber(s: string, start: nat) returns (end: nat, val: Arith)
    requires start < |s| && IsDigit(s[start])
    ensures start < end <= |s| && end == start + DigitRun(s[start..])
    ensures val == Literal(s[start..end])
  {
    var acc := 0;
    end := start;
    ghost var n := DigitRun(s[start..]);
    ghost var ds := s[start..start + n];
    assert forall k :: start <= k < start + n ==> s[k] == s[start..][k - start];
    assert start + n < |s| ==> s[start + n] == s[start..][n];
    var undefinedHit := false;
    while end < |s| && IsDigit(s[end])
      invariant start <= end <= start + n
      invariant forall k :: start <= k < end ==> IsDigit(s[k])
      invariant !undefinedHit ==> Fits(acc) && acc == Decimal(ds[..end - start])
      invariant undefinedHit ==> !Fits(Decimal(ds[..end - start]))
    {
      var k := end - start;
      assert ds[..k + 1][..k] == ds[..k];
      if !undefinedHit {
        var next := acc * 10 + (s[end] as int - '0' as int);
        if Fits(next) { acc := next; } else { undefinedHit := true; }
      } else {
        DecimalGrows(ds[..k + 1], k);
      }
      end := end + 1;
    }
    assert ds[..n] == ds;
    val := if undefinedHit then Err(Undefined) else Val(acc);
  }

  lemma LexCons(s: string, i: nat)
    requires i < |s|
    ensures s[i] == ' ' ==> Lex(s[i..]) == Lex(s[i + 1..])
    ensures s[i] != ' ' ==> Lex(s[i..]) == [TokenAt(s, i)] + Lex(s[EndAt(s, i)..])
  {
    var t := s[i..];
    assert t[0] == s[i] && t[1..] == s[i + 1..];
    var n := DigitRun(t);
    assert t[..n] == s[i..i + n] && t[n..] == s[i + n..];
  }

  lemma ExecCons(t: Token, ts: seq<Token>, st: Stacks)
    requires Sound(st) && ValidTokens([t] + ts)
    ensures ValidToken(t) && ValidTokens(ts)
    ensures Exec([t] + ts, st) == ExecMore(Feed(st, t), ts)
  {
    assert ([t] + ts)[0] == t && ([t] + ts)[1..] == ts;
    assert forall x :: x in ts ==> x in [t] + ts;
  }

  /** The token that starts at position `i`, and where it ends. */
  ghost function TokenAt(s: string, i: nat): Token
    requires i < |s| && s[i] != ' '
  {
    if s[i] == '(' then TOpen else if s[i] == ')' then TClose
    else if IsDigit(s[i]) then TNum(s[i..EndAt(s, i)]) else TOp(s[i])
  }

  ghost function EndAt(s: string, i: nat): (j: nat)
    requires i < |s|
    ensures i < j <= |s|
  {
    if IsDigit(s[i]) then
      assert s[i..][0] == s[i];
      i + DigitRun(s[i..])
    else i + 1
  }

  /** One pass of the scanning loop over a character that is not a blank. */
  method Consume(arg: string, i: nat, values: array<int>, ops: array<char>, valTop: int, opsTop: int)
      returns (j: nat, vt: int, ot: int, halt: Option<Outcome>)
    requires i < |arg| && arg[i] != ' '
    requires Tops(values, ops, valTop, opsTop) && Sound(View(values, ops, valTop, opsTop))
    requires ValidToken(TokenAt(arg, i))
    modifies values, ops
    ensures j == EndAt(arg, i)
    ensures Tops(values, ops, vt, ot)
    ensures old(Feed(View(values, ops, valTop, opsTop), TokenAt(arg, i))) == Result(halt, View(values, ops, vt, ot))
  {
    j, vt, ot, halt := i + 1, valTop, opsTop, None;
    if arg[i] == '(' {
      ot, halt := PushOperator(values, ops, vt, ot, '(');
    } else if IsDigit(arg[i]) {
      var val;
      j, val := ScanNumber(arg, i);
      if val.Err? {
        halt := Some(Failed(val.f));
      } else {
        vt, halt := PushValue(values, ops, vt, ot, val.v);
      }
    } else if arg[i] == ')' {
      vt, ot, halt := CloseParen(values, ops, vt, ot);
    } else {
      vt, ot, halt := Operator(values, ops, vt, ot, arg[i]);
    }
  }

  /** `cmd_calc_handler`. */
  method Handle(arg: string) returns (o: Outcome)
    requires '\0' !in arg
    ensures o == Calc(arg)
  {
    if arg == "" { return Usage; }
    var values := new int[CAPACITY];
    var ops := new char[CAPACITY];
    var valTop, opsTop := -1, -1;
    var i := 0;
    LexValid(arg);
    assert arg[0..] == arg && View(values, ops, -1, -1) == Stacks([], []);
    ghost var goal := Exec(Lex(arg), Stacks([], []));
    while i < |arg|
      invariant 0 <= i <= |arg|
      invariant Tops(values, ops, valTop, opsTop) && Sound(View(values, ops, valTop, opsTop))
      invariant ValidTokens(Lex(arg[i..]))
      invariant goal == Exec(Lex(arg[i..]), View(values, ops, valTop, opsTop))
    {
      LexCons(arg, i);
      if arg[i] == ' ' {
        i := i + 1;
        continue;
      }
      ExecCons(TokenAt(arg, i), Lex(arg[EndAt(arg, i)..]), View(values, ops, valTop, opsTop));
      var halt;
      i, valTop, opsTop, halt := Consume(arg, i, values, ops, valTop, opsTop);
      if halt.Some? { return halt.value; }
    }
    o := Report(values, ops, valTop, opsTop);
  }

  /** The final drain and the printing of the one remaining value. */
  method Report(values: array<int>, ops: array<char>, valTop: int, opsTop: int) returns (o: Outcome)
    requires Tops(values, ops, valTop, opsTop) && Sound(View(values, ops, valTop, opsTop))
    modifies values
    ensures o == old(Finish(View(values, ops, valTop, opsTop)))
  {
    var vt, _, halt := PopWhile(values, ops, valTop, opsTop, Empty);
    if halt.Some? { return halt.value; }
    if vt != 0 { return InvalidExpression; }
    assert values[0] in values[..1];
    if values[0] == INT_MIN { return Failed(Undefined); }
    var out := new char[12];
    var len := Itoa2(values[0], out);
    o := Printed(out[..len]);
  }
}
