/** What the calculator's operators, literals and answers mean (i386/whitex/calc.h:1-69, 91-101). */
module CalcOperators {
  import opened CalcArith

  // ---------- products and quotients ----------

  lemma AbsTimes(b: int, d: int)
    ensures Abs(b * d) == Abs(b) * Abs(d)
  {
    if b >= 0 && d >= 0 {
    } else if b < 0 && d >= 0 {
      assert b * d == -((-b) * d);
    } else if b >= 0 {
      assert b * d == -(b * (-d));
    } else {
      assert b * d == (-b) * (-d);
    }
  }

  lemma Grows(m: nat, n: nat, k: nat)
    ensures n >= k ==> m * n >= m * k
  {
    assert m * n == m * (n - k) + m * k;
  }

  lemma AbsLeast(b: int, d: int)
    requires d != 0
    ensures Abs(b * d) >= Abs(b)
  {
    AbsTimes(b, d);
    Grows(Abs(b), Abs(d), 1);
  }

  lemma QuotientIs(x: nat, m: nat, u: nat, r: nat)
    requires m > 0 && x == m * u + r && r < m
    ensures x / m == u
  {
    var q, s := x / m, x % m;
    assert x == m * q + s;
    assert m * (u + 1) == m * u + m && m * (q + 1) == m * q + m;
    Grows(m, q, u + 1);
    Grows(m, u, q + 1);
  }

  lemma Regroup(a: nat, b: nat, u: nat, w: nat)
    requires w < b
    ensures a * (b * u + w) == a * b * u + a * w && a * w + a <= a * b
  {
    Grows(a, b, w + 1);
    assert a * (w + 1) == a * w + a;
  }

  lemma DivTwice(x: nat, a: nat, b: nat)
    requires a > 0 && b > 0
    ensures a * b > 0 && x / (a * b) == x / a / b
  {
    var q, r := x / a, x % a;
    var u, w := q / b, q % b;
    assert x == a * q + r && q == b * u + w;
    Regroup(a, b, u, w);
    QuotientIs(x, a * b, u, a * w + r);
  }

  // ---------- the operators ----------

  /** Sums and differences are told by undoing them; only what 32 bits cannot hold is undefined. */
  lemma SumsMean(a: int, b: int)
    requires Fits(a) && Fits(b)
    ensures forall v :: Apply(a, b, '+') == Val(v) <==> Fits(v) && v - b == a
    ensures forall v :: Apply(a, b, '-') == Val(v) <==> Fits(v) && v + b == a
    ensures forall op :: op == '+' || op == '-' ==> Apply(a, b, op).Val? || Apply(a, b, op) == Err(Undefined)
  {
  }

  /** A product by a nonzero factor is told by dividing. */
  lemma ProductsMean(a: int, b: int)
    requires Fits(a) && Fits(b)
    ensures Apply(a, b, '*') == Apply(b, a, '*') == Apply(a, b, 'x')
    ensures b == 0 ==> Apply(a, b, '*') == Val(0)
    ensures b != 0 ==> forall v :: Apply(a, b, '*') == Val(v) <==> Fits(v) && v % b == 0 && v / b == a
    ensures Apply(a, b, '*').Val? || Apply(a, b, '*') == Err(Undefined)
  {
    if b != 0 {
      forall v
        ensures v == a * b <==> v % b == 0 && v / b == a
      {
        Divides(v, a, b);
      }
    }
  }

  lemma Divides(v: int, a: int, b: int)
    requires b != 0
    ensures v == a * b <==> v % b == 0 && v / b == a
  {
    var q, r := v / b, v % b;
    assert v == b * q + r;
    if v == a * b && a != q {
      assert b * (a - q) == r;
      AbsLeast(b, a - q);
    }
  }

  /** Quotient and remainder are told by what they leave; the remainder has the dividend's sign. */
  lemma QuotientsMean(a: int, b: int)
    requires Fits(a) && Fits(b)
    ensures b == 0 ==> Apply(a, b, '/') == Err(DivisionByZero) && Apply(a, b, '%') == Err(ModuloByZero)
    ensures a == INT_MIN && b == -1 ==> Apply(a, b, '/') == Apply(a, b, '%') == Err(Undefined)
    ensures b != 0 && !(a == INT_MIN && b == -1) ==>
              && Apply(a, b, '/').Val? && Apply(a, b, '%').Val?
              && var q, r := Apply(a, b, '/').v, Apply(a, b, '%').v;
                 b * q + r == a && Abs(r) < Abs(b) && (r == 0 || (r < 0 <==> a < 0))
  {
    if b != 0 {
      var q := TruncDiv(a, b);
      hide TruncDiv;
      QuotientSize(a, b, q, a - b * q);
    }
  }

  /** A truncated quotient is no larger than its dividend. */
  lemma QuotientSize(a: int, b: int, q: int, r: int)
    requires Fits(a) && Fits(b) && b != 0 && r == a - b * q && Abs(r) < Abs(b) && (r != 0 ==> (r < 0 <==> a < 0))
    ensures Fits(q) <==> !(a == INT_MIN && b == -1)
  {
    ProductSize(b, q);
    QuotientFits(a, b, q, r, b * q);
  }

  lemma ProductSize(b: int, q: int)
    requires b != 0
    ensures q != 0 ==> Abs(b * q) >= Abs(b)
    ensures Abs(b) >= 2 ==> Abs(b * q) >= 2 * Abs(q)
  {
    if q != 0 { AbsLeast(b, q); }
    AbsTimes(b, q);
    if Abs(b) >= 2 { Grows(Abs(q), Abs(b), 2); }
  }

  lemma QuotientFits(a: int, b: int, q: int, r: int, p: int)
    requires Fits(a) && Fits(b) && a == p + r && Abs(r) < Abs(b) && (r != 0 ==> (r < 0 <==> a < 0))
    requires (b == 1 ==> p == q) && (b == -1 ==> p == -q)
    requires (p != 0 ==> Abs(p) >= Abs(b)) && (Abs(b) >= 2 ==> Abs(p) >= 2 * Abs(q))
    ensures Fits(q) <==> !(a == INT_MIN && b == -1)
  {
  }

  /** A power is its base times the power before; negative exponents give 0. */
  lemma PowersMean(a: int, b: int)
    requires Fits(a) && Fits(b)
    ensures b < 0 ==> Apply(a, b, '^') == Val(0)
    ensures b == 0 ==> Apply(a, b, '^') == Val(1)
    ensures b == 1 ==> Apply(a, b, '^') == Val(a)
    ensures b > 0 && Apply(a, b, '^').Val? ==>
              Apply(a, b - 1, '^').Val? && Apply(Apply(a, b - 1, '^').v, a, '*') == Apply(a, b, '^')
    ensures b > 0 && Apply(a, b, '^').Err? ==>
              Apply(a, b, '^') == Err(Undefined) && (Apply(a, b - 1, '^').Err? || Apply(Apply(a, b - 1, '^').v, a, '*').Err?)
  {
    if b > 0 && !Fits(Pow(a, b - 1)) { PowStaysOut(a, b - 1, b); }
    if b == 1 { assert Pow(a, 1) == Pow(a, 0) * a; }
  }

  /** Bit `k` of an integer in two's complement: for a negative one, the complement's bit turned. */
  predicate Bit(x: int, k: nat) {
    if x >= 0 then x / Two(k) % 2 == 1 else (-1 - x) / Two(k) % 2 == 0
  }

  lemma {:induction false} BitwiseBit(a: nat, b: nat, n: nat, conj: bool, k: nat)
    requires k < n
    ensures var r := Bitwise(a, b, n, conj);
            r / Two(k) % 2 == 1 <==>
              if conj then a / Two(k) % 2 == 1 && b / Two(k) % 2 == 1 else a / Two(k) % 2 == 1 || b / Two(k) % 2 == 1
  {
    if k > 0 {
      BitwiseBit(a / 2, b / 2, n - 1, conj, k - 1);
      Halved(a, k);
      Halved(b, k);
      Halved(Bitwise(a, b, n, conj), k);
      BitwiseHalf(a, b, n, conj);
      hide Bitwise, Two;
    }
  }

  lemma BitwiseHalf(a: nat, b: nat, n: nat, conj: bool)
    requires n > 0
    ensures Bitwise(a, b, n, conj) / 2 == Bitwise(a / 2, b / 2, n - 1, conj)
  {
  }

  lemma Halved(x: nat, k: nat)
    requires k > 0
    ensures x / Two(k) == x / 2 / Two(k - 1)
  {
    DivTwice(x, 2, Two(k - 1));
  }

  /** The word of a negative integer has the complement's bits turned. */
  lemma {:induction false} ComplementBit(w: nat, n: nat, k: nat)
    requires k < n && w < Two(n)
    ensures w / Two(k) % 2 == 1 <==> (Two(n) - 1 - w) / Two(k) % 2 == 0
  {
    if k > 0 {
      ComplementBit(w / 2, n - 1, k - 1);
      Halved(w, k);
      Halved(Two(n) - 1 - w, k);
      assert (Two(n) - 1 - w) / 2 == Two(n - 1) - 1 - w / 2 by { assert Two(n) == 2 * Two(n - 1); }
      hide Two;
    }
  }

  lemma WordBit(x: int, k: nat)
    requires Fits(x) && k < 32
    ensures ToWord(x) / Two(k) % 2 == 1 <==> Bit(x, k)
  {
    WordSize();
    if x < 0 {
      hide Two;
      ComplementBit(ToWord(x), 32, k);
    }
  }

  /** Bit operators work bit by bit on two's complement. */
  lemma BitsMean(a: int, b: int, k: nat)
    requires Fits(a) && Fits(b) && k < 32
    ensures Apply(a, b, '&').Val? && (Bit(Apply(a, b, '&').v, k) <==> Bit(a, k) && Bit(b, k))
    ensures Apply(a, b, '|').Val? && (Bit(Apply(a, b, '|').v, k) <==> Bit(a, k) || Bit(b, k))
  {
    WordSize();
    hide Two, Bit, Bitwise;
    BitwiseBit(ToWord(a), ToWord(b), 32, true, k);
    BitwiseBit(ToWord(a), ToWord(b), 32, false, k);
    WordBit(a, k);
    WordBit(b, k);
    WordBit(Apply(a, b, '&').v, k);
    WordBit(Apply(a, b, '|').v, k);
  }

  // ---------- literals and answers ----------

  /** A literal of one digit more is ten times as much and that digit. */
  lemma LiteralsMean(ds: string, c: char)
    requires forall d :: d in ds + [c] ==> '0' <= d <= '9'
    ensures Decimal("") == 0
    ensures forall d :: d in ds ==> IsDigit(d)
    ensures Decimal(ds + [c]) == 10 * Decimal(ds) + (c as int - '0' as int)
  {
    assert (ds + [c])[..|ds|] == ds;
    assert forall d :: d in ds ==> d in ds + [c];
  }

  predicate AllDigits(s: string) { forall c :: c in s ==> '0' <= c <= '9' }

  /** The text of a value is digits after an optional minus sign, and reads back as the value. */
  lemma TextReadsBack(x: int)
    ensures x < 0 ==> DecimalText(x)[0] == '-' && AllDigits(DecimalText(x)[1..]) && Decimal(DecimalText(x)[1..]) == -x
    ensures x >= 0 ==> AllDigits(DecimalText(x)) && Decimal(DecimalText(x)) == x
  {
    DigitsReadBack(Abs(x));
    assert x < 0 ==> DecimalText(x)[1..] == Digits(-x);
  }
}
