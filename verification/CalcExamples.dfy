/** Two arguments and what they print (i386/whitex/calc.h:71-152). The first is the example of the usage text, a sum in
    parentheses before a product; in the second a product stands behind a difference, and is computed first all the same. */
module CalcExamples {
  import opened CalcArith
  import opened CalcMachine
  import opened CalcMeaning
  import opened CalcLevels

  /** A number of one or two digits in front. */
  lemma FrontNumber(s: string, n: nat)
    requires 0 < n <= 2 && n <= |s| && IsDigit(s[0]) && (n == 2 ==> IsDigit(s[1])) && (n < |s| ==> !IsDigit(s[n]))
    ensures Lex(s) == [TNum(s[..n])] + Lex(s[n..])
  {
    assert n == 2 ==> DigitRun(s[1..]) == 1;
  }

  lemma FrontOther(s: string)
    requires s != "" && !IsDigit(s[0]) && s[0] != ' '
    ensures Lex(s) == [if s[0] == '(' then TOpen else if s[0] == ')' then TClose else TOp(s[0])] + Lex(s[1..])
  {
  }

  lemma LexUsage()
    ensures Lex("(15+72)*2") == [TOpen, TNum("15"), TOp('+'), TNum("72"), TClose, TOp('*'), TNum("2")]
  {
    hide Lex;
    FrontOther("(15+72)*2");
    assert "(15+72)*2"[1..] == "15+72)*2";
    FrontNumber("15+72)*2", 2);
    assert "15+72)*2"[..2] == "15" && "15+72)*2"[2..] == "+72)*2";
    FrontOther("+72)*2");
    assert "+72)*2"[1..] == "72)*2";
    FrontNumber("72)*2", 2);
    assert "72)*2"[..2] == "72" && "72)*2"[2..] == ")*2";
    FrontOther(")*2");
    assert ")*2"[1..] == "*2";
    FrontOther("*2");
    assert "*2"[1..] == "2";
    LexLast("2");
  }

  lemma LexLast(s: string)
    requires |s| == 1 && IsDigit(s[0])
    ensures Lex(s) == [TNum(s)]
  {
    assert s[1..] == "" && s[..1] == s;
    assert DigitRun(s) == 1;
    assert Lex(s[1..]) == [];
  }

  lemma LexDifference()
    ensures Lex("7-2*3") == [TNum("7"), TOp('-'), TNum("2"), TOp('*'), TNum("3")]
  {
    hide Lex;
    FrontNumber("7-2*3", 1);
    assert "7-2*3"[..1] == "7" && "7-2*3"[1..] == "-2*3";
    FrontOther("-2*3");
    assert "-2*3"[1..] == "2*3";
    FrontNumber("2*3", 1);
    assert "2*3"[..1] == "2" && "2*3"[1..] == "*3";
    FrontOther("*3");
    assert "*3"[1..] == "3";
    LexLast("3");
  }

  lemma Small(c: char)
    requires IsDigit(c)
    ensures Decimal([c]) == c as int - '0' as int
  {
    assert [c][..0] == [];
  }

  lemma Tens(c: char, d: char)
    requires IsDigit(c) && IsDigit(d)
    ensures Decimal([c, d]) == 10 * (c as int - '0' as int) + (d as int - '0' as int)
  {
    assert [c, d][..1] == [c];
    Small(c);
  }

  /** The parenthesised sum comes first, and a product before the difference it stands in. */
  lemma WorkedExamples()
    ensures Calc("(15+72)*2") == Printed("174") && Calc("7-2*3") == Printed("1")
  {
    hide Calc;
    UsageExample();
    DifferenceExample();
  }

  lemma UsageExample()
    ensures Calc("(15+72)*2") == Printed("174")
  {
    LexUsage();
    UsageValue();
    var b := UsageTree();
    hide *;
    SentenceMeaning(b, "(15+72)*2");
  }

  ghost function SumDoubled(): Expr { Bin('*', Paren(Bin('+', Num("15"), Num("72"))), Num("2")) }

  lemma UsageTree() returns (b: Bits)
    ensures BitsOk(b) && BitsTree(b) == SumDoubled() && Depth(SumDoubled()) <= 7
    ensures BitsTokens(b) == [TOpen, TNum("15"), TOp('+'), TNum("72"), TClose, TOp('*'), TNum("2")]
  {
    var sum := SProduct(PPower(WAtom(Lit("15"))));
    var both := BSum(Plus(sum, PPower(WAtom(Lit("72")))));
    assert BitsTokens(both) == [TNum("15"), TOp('+'), TNum("72")] && BitsOk(both);
    assert BitsTree(both) == Bin('+', Num("15"), Num("72"));
    hide SumTokens, SumTree, SumOk;
    b := Doubled(both);
  }

  lemma Doubled(both: Bits) returns (b: Bits)
    requires BitsOk(both)
    ensures BitsOk(b) && BitsTree(b) == Bin('*', Paren(BitsTree(both)), Num("2"))
    ensures BitsTokens(b) == [TOpen] + BitsTokens(both) + [TClose] + [TOp('*')] + [TNum("2")]
  {
    var leaf := Round(both);
    assert LeafTokens(leaf) == [TOpen] + BitsTokens(both) + [TClose] && LeafTree(leaf) == Paren(BitsTree(both)) && LeafOk(leaf);
    var round := PPower(WAtom(leaf));
    assert PowerTokens(WAtom(leaf)) == LeafTokens(leaf) && PowerTree(WAtom(leaf)) == LeafTree(leaf) && PowerOk(WAtom(leaf));
    assert ProductTokens(round) == LeafTokens(leaf) && ProductTree(round) == LeafTree(leaf) && ProductOk(round);
    var two := WAtom(Lit("2"));
    assert PowerTokens(two) == [TNum("2")] && PowerTree(two) == Num("2") && PowerOk(two);
    var p := Times(round, two);
    assert ProductTokens(p) == LeafTokens(leaf) + [TOp('*')] + [TNum("2")];
    assert ProductTree(p) == Bin('*', LeafTree(leaf), Num("2")) && ProductOk(p);
    b := BSum(SProduct(p));
    assert BitsTokens(b) == SumTokens(SProduct(p)) == ProductTokens(p);
    assert BitsTree(b) == SumTree(SProduct(p)) == ProductTree(p);
  }

  lemma UsageValue()
    ensures WellFormed(SumDoubled()) && Answer(SumDoubled()) == Printed("174")
  {
    Tens('1', '5');
    Tens('7', '2');
    Small('2');
    assert Eval(Num("15")) == Val(15) && Eval(Num("72")) == Val(72) && Eval(Num("2")) == Val(2);
    assert Apply(15, 72, '+') == Val(87) && Apply(87, 2, '*') == Val(174);
    assert Digits(174) == "174";
    hide Apply, Digits, Decimal, Literal;
    assert Eval(Bin('+', Num("15"), Num("72"))) == Val(87);
  }

  ghost function Difference(): Expr { Bin('-', Num("7"), Bin('*', Num("2"), Num("3"))) }

  lemma DifferenceExample()
    ensures Calc("7-2*3") == Printed("1")
  {
    LexDifference();
    DifferenceValue();
    var b := DifferenceTree();
    hide *;
    SentenceMeaning(b, "7-2*3");
  }

  lemma DifferenceTree() returns (b: Bits)
    ensures BitsOk(b) && BitsTree(b) == Difference() && Depth(Difference()) <= 7
    ensures BitsTokens(b) == [TNum("7"), TOp('-'), TNum("2"), TOp('*'), TNum("3")]
  {
    var six := Times(PPower(WAtom(Lit("2"))), WAtom(Lit("3")));
    assert ProductTokens(six) == [TNum("2"), TOp('*'), TNum("3")];
    assert ProductTree(six) == Bin('*', Num("2"), Num("3")) && ProductOk(six);
    var seven := SProduct(PPower(WAtom(Lit("7"))));
    assert SumTokens(seven) == [TNum("7")] && SumTree(seven) == Num("7") && SumOk(seven);
    b := BSum(Minus(seven, six));
    hide PowerTokens, PowerTree, PowerOk, ProductTokens, ProductTree, ProductOk;
    assert BitsTokens(b) == [TNum("7")] + [TOp('-')] + [TNum("2"), TOp('*'), TNum("3")];
  }

  lemma DifferenceValue()
    ensures WellFormed(Difference()) && Answer(Difference()) == Printed("1")
  {
    Small('7');
    Small('2');
    Small('3');
    assert Eval(Num("7")) == Val(7) && Eval(Num("2")) == Val(2) && Eval(Num("3")) == Val(3);
    assert Apply(2, 3, '*') == Val(6) && Apply(7, 6, '-') == Val(1);
    assert Digits(1) == "1";
    hide Apply, Digits, Decimal, Literal;
    assert Eval(Bin('*', Num("2"), Num("3"))) == Val(6);
  }
}
