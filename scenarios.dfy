/** Whole lines through the parser and the evaluator: written expressions
    evaluate to the value of what they were written from, with the
    precedence and the left-to-right grouping of `evaluateExpression`. */
module Scenarios {
  import opened Types
  import opened Arithmetic
  import opened Scanner
  import opened Lexer
  import opened Evaluation
  import opened RoundTrip
  import opened Calculator

  /** A written expression that fits the input buffer evaluates to the value
      of the operands and operators it was written from: always with the
      corrected factorial branch, and with the branch as written when no
      factorial is followed by `-` and a plain numeral. */
  lemma CalculateRendered(f: Formula, rev: Revision, be: Backend)
    requires BinaryTerms(f.rest) && |Render(f)| < MaxSize
    requires rev == Corrected || NoFactorialMinus(f.first.fn, f.rest)
    ensures var e := Flat([Meaning(f.first, be)] + TermOperands(f.rest, be), TermOperators(f.rest));
      |e.ops| < |e.nums| && Calculation(Render(f), rev, be) == EvalSpec(e, be)
  {
    TermsShape(f.rest, be);
    ParseRendered(f, rev, be);
  }

  /** The written terms give one operand and one operator each. */
  lemma {:induction false} TermsShape(ts: seq<Term>, be: Backend)
    ensures |TermOperands(ts, be)| == |TermOperators(ts)| == |ts| <= |RenderTerms(ts)|
  {
    if ts != [] {
      TermsShape(ts[1..], be);
    }
  }

  /** The pieces of a written line of three operands. */
  lemma ThreeTerms(x: Written, op1: char, y: Written, op2: char, z: Written, be: Backend)
    ensures var f := Formula(x, [Term(op1, y), Term(op2, z)]);
      && Render(f) == RenderOperand(x) + [op1] + RenderOperand(y) + [op2] + RenderOperand(z)
      && [Meaning(x, be)] + TermOperands(f.rest, be) == [Meaning(x, be), Meaning(y, be), Meaning(z, be)]
      && TermOperators(f.rest) == [op1, op2]
  {
    var ts := [Term(op1, y), Term(op2, z)];
    assert ts[1..] == [Term(op2, z)] && ts[1..][1..] == [];
    var a, b, c := RenderOperand(x), RenderOperand(y), RenderOperand(z);
    assert RenderTerms(ts[1..]) == [op2] + c + [];
    assert RenderTerms(ts) == [op1] + b + ([op2] + c + []);
    assert a + ([op1] + b + ([op2] + c + [])) == a + [op1] + b + [op2] + c;
    assert TermOperands(ts[1..], be) == [Meaning(z, be)] + [];
    assert TermOperators(ts[1..]) == [op2] + [];
  }

  /** A line of three operands, `x op1 y op2 z`, evaluates to the value of
      its operands and operators (as written: unless a factorial is followed
      by `-` and a plain numeral). */
  lemma CalculateThree(s: string, x: Written, op1: char, y: Written, op2: char, z: Written, rev: Revision, be: Backend)
    requires IsBinaryOperator(op1) && IsBinaryOperator(op2)
    requires s == RenderOperand(x) + [op1] + RenderOperand(y) + [op2] + RenderOperand(z) && |s| < MaxSize
    requires rev == AsWritten ==> !(x.fn == Fact && op1 == '-' && y.fn == Plain)
    requires rev == AsWritten ==> !(y.fn == Fact && op2 == '-' && z.fn == Plain)
    ensures Calculation(s, rev, be) == EvalSpec(Flat([Meaning(x, be), Meaning(y, be), Meaning(z, be)], [op1, op2]), be)
  {
    var f := Formula(x, [Term(op1, y), Term(op2, z)]);
    ThreeTerms(x, op1, y, op2, z, be);
    assert Before(x.fn, f.rest, 1) == y.fn;
    CalculateRendered(f, rev, be);
  }

  /** The pieces of a written line of two operands. */
  lemma TwoTerms(x: Written, op: char, y: Written, be: Backend)
    ensures var f := Formula(x, [Term(op, y)]);
      && Render(f) == RenderOperand(x) + [op] + RenderOperand(y)
      && [Meaning(x, be)] + TermOperands(f.rest, be) == [Meaning(x, be), Meaning(y, be)]
      && TermOperators(f.rest) == [op]
  {
    var ts := [Term(op, y)];
    assert ts[1..] == [];
    assert RenderTerms(ts) == [op] + RenderOperand(y) + [];
  }

  /** A line of two operands, `x op y`, evaluates to the value of its
      operands and operator (as written: unless it is `!n-m`). */
  lemma CalculateTwo(s: string, x: Written, op: char, y: Written, rev: Revision, be: Backend)
    requires IsBinaryOperator(op)
    requires s == RenderOperand(x) + [op] + RenderOperand(y) && |s| < MaxSize
    requires rev == AsWritten ==> !(x.fn == Fact && op == '-' && y.fn == Plain)
    ensures Calculation(s, rev, be) == EvalSpec(Flat([Meaning(x, be), Meaning(y, be)], [op]), be)
  {
    TwoTerms(x, op, y, be);
    CalculateRendered(Formula(x, [Term(op, y)]), rev, be);
  }

  function Num(n: nat): Written
  {
    Written(Plain, n)
  }

  /** `2+3*4` is 14: products are folded before sums. */
  lemma ProductBeforeSum(rev: Revision, be: Backend)
    ensures Calculation("2+3*4", rev, be) == Ok(14.0)
  {
    assert "2+3*4" == RenderOperand(Num(2)) + "+" + RenderOperand(Num(3)) + "*" + RenderOperand(Num(4)) by {
      assert Decimal(2) == "2" && Decimal(3) == "3" && Decimal(4) == "4";
    }
    CalculateThree("2+3*4", Num(2), '+', Num(3), '*', Num(4), rev, be);
    PrecedenceThree(Ok(2.0), Ok(3.0), Ok(4.0), '+', '*', be);
  }

  /** `10-2-3` is 5: subtraction groups to the left. */
  lemma SubtractionGroupsLeft(rev: Revision, be: Backend)
    ensures Calculation("10-2-3", rev, be) == Ok(5.0)
  {
    assert "10-2-3" == RenderOperand(Num(10)) + "-" + RenderOperand(Num(2)) + "-" + RenderOperand(Num(3)) by {
      assert Decimal(10) == "10" && Decimal(2) == "2" && Decimal(3) == "3";
    }
    CalculateThree("10-2-3", Num(10), '-', Num(2), '-', Num(3), rev, be);
    PrecedenceThree(Ok(10.0), Ok(2.0), Ok(3.0), '-', '-', be);
  }

  /** `8/4/2` is 1: division groups to the left. */
  lemma DivisionGroupsLeft(rev: Revision, be: Backend)
    ensures Calculation("8/4/2", rev, be) == Ok(1.0)
  {
    assert "8/4/2" == RenderOperand(Num(8)) + "/" + RenderOperand(Num(4)) + "/" + RenderOperand(Num(2)) by {
      assert Decimal(8) == "8" && Decimal(4) == "4" && Decimal(2) == "2";
    }
    CalculateThree("8/4/2", Num(8), '/', Num(4), '/', Num(2), rev, be);
    PrecedenceThree(Ok(8.0), Ok(4.0), Ok(2.0), '/', '/', be);
  }

  /** `2^3^2` is (2^3)^2: powers group to the left too. */
  lemma PowersGroupLeft(rev: Revision, be: Backend)
    ensures Calculation("2^3^2", rev, be) == Ok(be.power(be.power(2, 3), 2) as real)
  {
    assert "2^3^2" == RenderOperand(Num(2)) + "^" + RenderOperand(Num(3)) + "^" + RenderOperand(Num(2)) by {
      assert Decimal(2) == "2" && Decimal(3) == "3";
    }
    CalculateThree("2^3^2", Num(2), '^', Num(3), '^', Num(2), rev, be);
    PrecedenceThree(Ok(2.0), Ok(3.0), Ok(2.0), '^', '^', be);
    assert Trunc(2.0) == 2 && Trunc(3.0) == 3;
    assert Trunc(be.power(2, 3) as real) == be.power(2, 3);
  }

  /** `-2*-3` is 6: a `-` at the start and after an operator is a sign. */
  lemma SignedOperands(rev: Revision, be: Backend)
    ensures Calculation("-2*-3", rev, be) == Ok(6.0)
  {
    assert "-2*-3" == RenderOperand(Written(Negate, 2)) + "*" + RenderOperand(Written(Negate, 3)) by {
      assert Decimal(2) == "2" && Decimal(3) == "3";
    }
    CalculateTwo("-2*-3", Written(Negate, 2), '*', Written(Negate, 3), rev, be);
    EvalTwo(Ok(-2.0), Ok(-3.0), '*', be);
  }

  /** `1+6/0` fails: the division by zero reaches the result. */
  lemma DivisionByZeroReported(rev: Revision, be: Backend)
    ensures Calculation("1+6/0", rev, be) == Err(DivisionByZero)
  {
    assert "1+6/0" == RenderOperand(Num(1)) + "+" + RenderOperand(Num(6)) + "/" + RenderOperand(Num(0)) by {
      assert Decimal(1) == "1" && Decimal(6) == "6" && Decimal(0) == "0";
    }
    CalculateThree("1+6/0", Num(1), '+', Num(6), '/', Num(0), rev, be);
    PrecedenceThree(Ok(1.0), Ok(6.0), Ok(0.0), '+', '/', be);
  }

  /** `ln0+1` fails: the logarithm's domain error is stored and passed on. */
  lemma LogarithmErrorReported(rev: Revision, be: Backend)
    ensures Calculation("ln0+1", rev, be) == Err(LogarithmDomain)
  {
    assert "ln0+1" == RenderOperand(Written(Ln, 0)) + "+" + RenderOperand(Num(1)) by {
      assert Decimal(0) == "0" && Decimal(1) == "1";
    }
    CalculateTwo("ln0+1", Written(Ln, 0), '+', Num(1), rev, be);
    EvalTwo(Err(LogarithmDomain), Ok(1.0), '+', be);
  }

  /** As written, `!n-m` evaluates to n! alone: the `-m` is stored as a
      negative operand with no operator before it, and evaluation never reads
      it. */
  lemma FactorialThenMinusAsWritten(n: nat, m: nat, be: Backend)
    requires |FactorialMinus(n, m)| < MaxSize
    ensures Calculation(FactorialMinus(n, m), AsWritten, be) == Ok(be.factorial(n) as real)
  {
    FactorialMinusAsWritten(n, m, be);
    FactorialIgnoresFraction(n, 0.0, be);
    var f := Flat([Ok(Factorial(n as real, be)), Ok(-(m as real))], []);
    assert Reduce(Power, f, be) == f && Reduce(Product, f, be) == f by {
      ReduceIdentity(Power, f, be);
      ReduceIdentity(Product, f, be);
    }
  }

  /** With the sign flag cleared after a factorial, `!n-m` is n! - m. */
  lemma FactorialThenMinusCorrected(n: nat, m: nat, be: Backend)
    requires |FactorialMinus(n, m)| < MaxSize
    ensures Calculation(FactorialMinus(n, m), Corrected, be) == Ok(be.factorial(n) as real - m as real)
  {
    FactorialMinusCorrected(n, m, be);
    FactorialIgnoresFraction(n, 0.0, be);
    EvalTwo(Ok(be.factorial(n) as real), Ok(m as real), '-', be);
  }
}
