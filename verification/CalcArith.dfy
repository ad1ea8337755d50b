/** The calculator's arithmetic (i386/whitex/calc.h): 32-bit `int` operations whose overflow
    C leaves undefined, `power`, `apply_op`, and the decimal printer `itoa2`. */
module CalcArith {

  const INT_MIN := -0x8000_0000
  const INT_MAX := 0x7FFF_FFFF

  predicate Fits(x: int) { INT_MIN <= x <= INT_MAX }

  /** `Undefined` stands for a signed overflow, after which C promises nothing. */
  datatype Fault = DivisionByZero | ModuloByZero | Undefined

  datatype Arith = Val(v: int) | Err(f: Fault)

  function Checked(x: int): Arith { if Fits(x) then Val(x) else Err(Undefined) }

  function Abs(x: int): nat { if x < 0 then -x else x }

  /** C's quotient, truncated toward zero. */
  function TruncDiv(a: int, b: int): (q: int)
    requires b != 0
    ensures Abs(a - b * q) < Abs(b)
    ensures a - b * q != 0 ==> (a - b * q < 0 <==> a < 0)
  {
    var q := Abs(a) / Abs(b);
    DivisionLeaves(Abs(a), Abs(b), b);
    if (a < 0) == (b < 0) then q else -q
  }

  lemma DivisionLeaves(n: nat, m: nat, b: int)
    requires m > 0 && Abs(b) == m
    ensures var q, r := n / m, n % m;
            r < m && (b > 0 ==> b * q == n - r && b * -q == r - n) && (b < 0 ==> b * q == r - n && b * -q == n - r)
  {
    var q, r := n / m, n % m;
    assert n == m * q + r;
    assert b * -q == -(b * q);
    assert b < 0 ==> b * q == -(m * q);
  }

  function TruncMod(a: int, b: int): int
    requires b != 0
  {
    a - b * TruncDiv(a, b)
  }

  const MODULUS := 0x1_0000_0000

  /** The two's complement word of an `int`, and back. */
  function ToWord(x: int): nat
    requires Fits(x)
  {
    if x < 0 then x + MODULUS else x
  }

  function FromWord(w: nat): (x: int)
    requires w < MODULUS
    ensures Fits(x) && ToWord(x) == w
  {
    if w >= 0x8000_0000 then w - MODULUS else w
  }

  function Two(k: nat): (n: nat)
    ensures n > 0
  {
    if k == 0 then 1 else 2 * Two(k - 1)
  }

  /** The lowest `n` bits put together, conjoined or disjoined. */
  function Bitwise(a: nat, b: nat, n: nat, conj: bool): (r: nat)
    ensures r < Two(n)
  {
    if n == 0 then 0
    else
      var one := if conj then a % 2 == 1 && b % 2 == 1 else a % 2 == 1 || b % 2 == 1;
      2 * Bitwise(a / 2, b / 2, n - 1, conj) + if one then 1 else 0
  }

  lemma WordSize()
    ensures Two(32) == MODULUS
  {
    assert Two(8) == 256;
    TwoAdd(8, 8);
    TwoAdd(16, 16);
  }

  lemma {:induction false} TwoAdd(a: nat, b: nat)
    ensures Two(a + b) == Two(a) * Two(b)
  {
    if b > 0 { TwoAdd(a, b - 1); }
  }

  function Divide(a: int, b: int): Arith
  {
    if b == 0 then Err(DivisionByZero) else Checked(TruncDiv(a, b))
  }

  /** The remainder is undefined together with its quotient. */
  function Modulo(a: int, b: int): Arith
  {
    if b == 0 then Err(ModuloByZero)
    else if Fits(TruncDiv(a, b)) then Checked(TruncMod(a, b)) else Err(Undefined)
  }

  function BitAnd(a: int, b: int): (r: int)
    requires Fits(a) && Fits(b)
    ensures Fits(r)
  {
    WordSize();
    FromWord(Bitwise(ToWord(a), ToWord(b), 32, true))
  }

  function BitOr(a: int, b: int): (r: int)
    requires Fits(a) && Fits(b)
    ensures Fits(r)
  {
    WordSize();
    FromWord(Bitwise(ToWord(a), ToWord(b), 32, false))
  }

  ghost function Pow(b: int, e: nat): int { if e == 0 then 1 else Pow(b, e - 1) * b }

  /** What `apply_op` returns; unknown operators give 0. */
  ghost function Apply(a: int, b: int, op: char): (r: Arith)
    requires Fits(a) && Fits(b)
    ensures r.Val? ==> Fits(r.v)
  {
    match op
    case '+' => Checked(a + b)
    case '-' => Checked(a - b)
    case '*' => Checked(a * b)
    case 'x' => Checked(a * b)
    case '/' => Divide(a, b)
    case '%' => Modulo(a, b)
    case '^' => if b < 0 then Val(0) else Checked(Pow(a, b))
    case '&' => Val(BitAnd(a, b))
    case '|' => Val(BitOr(a, b))
    case _ => Val(0)
  }

  /** Once a power has left the 32-bit range, no higher power comes back into it. */
  lemma {:induction false} PowStaysOut(b: int, i: nat, e: nat)
    requires i <= e && !Fits(Pow(b, i))
    ensures !Fits(Pow(b, e))
    decreases e - i
  {
    if i < e {
      SmallPow(b, i);
      var p := Pow(b, i);
      assert Abs(b) >= 2 && Abs(p) >= 0x8000_0000;
      assert Abs(p * b) >= 0x1_0000_0000 by { AbsProduct(p, b); }
      PowStaysOut(b, i + 1, e);
    }
  }

  lemma AbsProduct(p: int, b: int)
    requires Abs(b) >= 2
    ensures Abs(p * b) >= 2 * Abs(p)
  {
    assert Abs(p * b) == Abs(p) * Abs(b);
    assert Abs(p) * Abs(b) >= Abs(p) * 2;
  }

  lemma {:induction false} SmallPow(b: int, i: nat)
    ensures Abs(b) <= 1 ==> -1 <= Pow(b, i) <= 1
  {
    if i > 0 { SmallPow(b, i - 1); }
  }

  /** `power`: the running product is tested for overflow after every multiplication, yet only
      whether the final power fits decides the result. */
  method Power(base: int, exp: int) returns (r: Arith)
    requires Fits(base) && Fits(exp)
    ensures r == if exp < 0 then Val(0) else Checked(Pow(base, exp))
  {
    if exp < 0 { return Val(0); }
    var res := 1;
    for i := 0 to exp
      invariant Fits(res) && res == Pow(base, i)
    {
      res := res * base;
      if !Fits(res) {
        PowStaysOut(base, i + 1, exp);
        return Err(Undefined);
      }
    }
    r := Val(res);
  }

  method ApplyOp(a: int, b: int, op: char) returns (r: Arith)
    requires Fits(a) && Fits(b)
    ensures r == Apply(a, b, op)
  {
    match op {
      case '+' => r := Checked(a + b);
      case '-' => r := Checked(a - b);
      case '*' => r := Checked(a * b);
      case 'x' => r := Checked(a * b);
      case '/' => r := Divide(a, b);
      case '%' => r := Modulo(a, b);
      case '^' => r := Power(a, b);
      case '&' => r := Val(BitAnd(a, b));
      case '|' => r := Val(BitOr(a, b));
      case _ => r := Val(0);
    }
  }

  // ---------- decimal text ----------

  predicate IsDigit(c: char) { '0' <= c <= '9' }

  function DigitOf(d: nat): (c: char)
    requires d < 10
    ensures IsDigit(c) && c as int - '0' as int == d
  {
    (d + '0' as int) as char
  }

  /** The number a digit string denotes. */
  function Decimal(ds: string): (n: nat)
    requires forall c :: c in ds ==> IsDigit(c)
  {
    if ds == [] then 0 else
      assert IsDigit(ds[|ds| - 1]);
      Decimal(ds[..|ds| - 1]) * 10 + (ds[|ds| - 1] as int - '0' as int)
  }

  function Digits(n: nat): (s: string)
    ensures |s| >= 1 && forall c :: c in s ==> IsDigit(c)
  {
    if n < 10 then [DigitOf(n)] else Digits(n / 10) + [DigitOf(n % 10)]
  }

  /** The conventional decimal text of an integer: no leading zeros, a minus sign if negative. */
  function DecimalText(x: int): (s: string)
    ensures |s| >= 1
  {
    if x < 0 then "-" + Digits(-x) else Digits(x)
  }

  lemma {:induction false} DigitsReadBack(n: nat)
    ensures Decimal(Digits(n)) == n
  {
    var s := Digits(n);
    if n < 10 {
      assert s[..|s| - 1] == [];
    } else {
      DigitsReadBack(n / 10);
      assert s[..|s| - 1] == Digits(n / 10);
    }
  }

  ghost function Ten(k: nat): nat { if k == 0 then 1 else 10 * Ten(k - 1) }

  lemma {:induction false} DigitsLength(n: nat, k: nat)
    requires k >= 1 && n < Ten(k)
    ensures |Digits(n)| <= k
  {
    if n >= 10 {
      assert k >= 2;
      DigitsLength(n / 10, k - 1);
    }
  }

  /** Everything the printer is asked for fits its 12-byte buffer, terminator included. */
  lemma {:induction false} TextFits(x: int)
    requires Fits(x)
    ensures |DecimalText(x)| + 1 <= 12 && |Digits(Abs(x))| <= 10
  {
    assert Ten(4) == 10000;
    assert Ten(8) == 10000 * 10000;
    assert Ten(10) == 100 * Ten(8);
    DigitsLength(Abs(x), 10);
  }

  /** The digits of `n` with the least significant one first, as the first loop of `itoa2` emits them. */
  ghost function Reversed(s: string): (r: string)
    ensures |r| == |s|
    ensures forall k :: 0 <= k < |s| ==> r[k] == s[|s| - 1 - k]
  {
    seq(|s|, k requires 0 <= k < |s| => s[|s| - 1 - k])
  }

  /** First loop of `itoa2`: writes the digits of `n`, least significant first. */
  method EmitDigits(n: nat, str: array<char>) returns (i: nat)
    requires 0 < n && str.Length == 12 && |Digits(n)| <= 10
    modifies str
    ensures i == |Digits(n)| && str[..i] == Reversed(Digits(n))
  {
    i := 0;
    var num: nat := n;
    ghost var all := Digits(n);
    while num != 0
      invariant num == 0 ==> i == |all|
      invariant num > 0 ==> i + |Digits(num)| == |all| && all[..|all| - i] == Digits(num)
      invariant i <= |all|
      invariant forall k :: 0 <= k < i ==> str[k] == all[|all| - 1 - k]
      decreases num
    {
      ghost var ds := Digits(num);
      assert all[|all| - i - 1] == ds[|ds| - 1] == DigitOf(num % 10);
      str[i] := DigitOf(num % 10);
      i := i + 1;
      assert num >= 10 ==> Digits(num / 10) == ds[..|ds| - 1];
      num := num / 10;
    }
  }

  /** Last loop of `itoa2`: reverses the first `len` characters in place. */
  method ReverseInPlace(str: array<char>, len: nat)
    requires len <= str.Length
    modifies str
    ensures str[..len] == Reversed(old(str[..len]))
    ensures forall k :: len <= k < str.Length ==> str[k] == old(str[k])
  {
    var start, end := 0, len - 1;
    while start < end
      invariant 0 <= start && start + end == len - 1
      invariant start <= end + 2
      invariant forall k :: 0 <= k < start ==> str[k] == old(str[len - 1 - k]) && str[len - 1 - k] == old(str[k])
      invariant forall k :: start <= k <= end ==> str[k] == old(str[k])
      invariant forall k :: len <= k < str.Length ==> str[k] == old(str[k])
    {
      var tmp := str[start];
      str[start] := str[end];
      str[end] := tmp;
      start, end := start + 1, end - 1;
    }
    ghost var was := old(str[..len]);
    assert forall k :: 0 <= k < len ==> str[k] == was[len - 1 - k];
  }

  /** `itoa2` on a 12-byte buffer: terminated decimal text for every value except `INT_MIN`,
      whose negation overflows. */
  method Itoa2(x: int, str: array<char>) returns (len: nat)
    requires Fits(x) && x != INT_MIN && str.Length == 12
    modifies str
    ensures len < 12 && str[..len] == DecimalText(x) && str[len] == '\0'
  {
    TextFits(x);
    if x == 0 {
      str[0] := '0';
      str[1] := '\0';
      assert str[..1] == DecimalText(0);
      return 1;
    }
    var n: nat := if x < 0 then -x else x;
    len := EmitDigits(n, str);
    if x < 0 {
      ghost var ds := str[..len];
      str[len] := '-';
      len := len + 1;
      assert str[..len] == ds + "-";
    }
    str[len] := '\0';
    assert Reversed(str[..len]) == DecimalText(x);
    ReverseInPlace(str, len);
  }
}
