/** Well-formed lines written out as text, and the round trip through the
    parser: each operand written appends exactly one operand, each operator
    exactly one operator, in the order they were written. */
module RoundTrip {
  import opened Types
  import opened Arithmetic
  import opened Scanner
  import opened Lexer

  /** An operand as written on the line: the numeral of a natural number,
      behind the prefix of the function the parser applies to it. */
  datatype Written = Written(fn: Unary, n: nat)

  /** An operator followed by an operand. */
  datatype Term = Term(op: char, operand: Written)

  /** A line `x0 op1 x1 op2 x2 ...`. */
  datatype Formula = Formula(first: Written, rest: seq<Term>)

  /** The text in front of the numeral that selects each branch of the parser. */
  function Prefix(u: Unary): string
  {
    match u
    case Plain => ""
    case Negate => "-"
    case Trig(Sine) => "sin"
    case Trig(Cosine) => "cos"
    case Trig(Tangent) => "tan"
    case Fact => "!"
    case Ln => "ln"
    case Exp => "exp"
  }

  function RenderOperand(o: Written): string
  {
    Prefix(o.fn) + Decimal(o.n)
  }

  function RenderTerms(ts: seq<Term>): string
  {
    if ts == [] then [] else [ts[0].op] + RenderOperand(ts[0].operand) + RenderTerms(ts[1..])
  }

  function Render(f: Formula): string
  {
    RenderOperand(f.first) + RenderTerms(f.rest)
  }

  /** The value a written operand stands for, or its domain error. */
  function Meaning(o: Written, be: Backend): Result<real>
  {
    ApplyUnary(o.fn, o.n as real, be)
  }

  function TermOperands(ts: seq<Term>, be: Backend): seq<Result<real>>
  {
    if ts == [] then [] else [Meaning(ts[0].operand, be)] + TermOperands(ts[1..], be)
  }

  function TermOperators(ts: seq<Term>): seq<char>
  {
    if ts == [] then [] else [ts[0].op] + TermOperators(ts[1..])
  }

  /** Every written operator is binary. */
  predicate BinaryTerms(ts: seq<Term>)
  {
    forall k :: 0 <= k < |ts| ==> IsBinaryOperator(ts[k].op)
  }

  /** A written operand selects the branch of its prefix, whose scan starts
      right after the prefix. */
  lemma ClassifyWritten(s: seq<char>, i: nat, minus: bool, o: Written)
    requires i + |RenderOperand(o)| <= |s|
    requires s[i..i + |RenderOperand(o)|] == RenderOperand(o)
    requires o.fn == Negate ==> minus
    ensures s[i] != '\0'
    ensures Classify(s, i, minus) == Operand(o.fn, i + |Prefix(o.fn)|, o.fn != Fact)
  {
    var w := RenderOperand(o);
    var k := |Prefix(o.fn)|;
    DecimalDigits(o.n);
    assert s[i + k] == w[k] == Decimal(o.n)[0];
    assert k > 0 ==> s[i] == w[0] == Prefix(o.fn)[0];
    assert k > 1 ==> s[i + 1] == w[1] == Prefix(o.fn)[1];
    assert k > 2 ==> s[i + 2] == w[2] == Prefix(o.fn)[2];
  }

  /** A step that scans a number stores the branch's function of it. */
  lemma StepScans(s: seq<char>, i: nat, minus: bool, acc: Flat, rev: Revision, be: Backend,
                  u: Unary, start: nat, allowPoint: bool, v: real, end: nat)
    requires i < |s| && |acc.nums| < MaxSize
    requires Classify(s, i, minus) == Operand(u, start, allowPoint)
    requires Scan(s, start, allowPoint) == Ok(Literal(v, end))
    ensures LexStep(s, i, minus, acc, rev, be)
         == Continue(end, MinusAfter(u, minus, rev), Flat(acc.nums + [ApplyUnary(u, v, be)], acc.ops))
  {
  }

  /** The numeral of a written operand scans to its value. */
  lemma ScanWritten(s: seq<char>, i: nat, o: Written)
    requires i + |RenderOperand(o)| <= |s|
    requires s[i..i + |RenderOperand(o)|] == RenderOperand(o)
    requires !InLiteral(At(s, i + |RenderOperand(o)|), true)
    ensures Scan(s, i + |Prefix(o.fn)|, o.fn != Fact) == Ok(Literal(o.n as real, i + |RenderOperand(o)|))
  {
    var w := RenderOperand(o);
    var k := |Prefix(o.fn)|;
    assert s[i + k..i + |w|] == w[k..] == Decimal(o.n);
    ScanDecimal(s, i + k, o.n, o.fn != Fact);
  }

  /** One parser step over a written operand stores its meaning. */
  lemma StepOperand(s: seq<char>, i: nat, minus: bool, acc: Flat, o: Written, rev: Revision, be: Backend)
    requires i + |RenderOperand(o)| <= |s|
    requires s[i..i + |RenderOperand(o)|] == RenderOperand(o)
    requires !InLiteral(At(s, i + |RenderOperand(o)|), true)
    requires |acc.nums| < MaxSize
    requires o.fn == Negate ==> minus
    ensures s[i] != '\0'
    ensures LexStep(s, i, minus, acc, rev, be)
         == Continue(i + |RenderOperand(o)|, MinusAfter(o.fn, minus, rev),
                     Flat(acc.nums + [Meaning(o, be)], acc.ops))
  {
    ClassifyWritten(s, i, minus, o);
    ScanWritten(s, i, o);
    StepScans(s, i, minus, acc, rev, be, o.fn, i + |Prefix(o.fn)|, o.fn != Fact,
              o.n as real, i + |RenderOperand(o)|);
  }

  /** A written operand can continue a numeral from its first character
      only when it is a plain numeral. */
  lemma WrittenStart(s: seq<char>, i: nat, o: Written)
    requires i + |RenderOperand(o)| <= |s|
    requires s[i..i + |RenderOperand(o)|] == RenderOperand(o)
    ensures i < |s|
    ensures InLiteral(s[i], true) <==> o.fn == Plain
  {
    var w := RenderOperand(o);
    DecimalDigits(o.n);
    assert s[i] == w[0];
    if o.fn != Plain {
      assert w[0] == Prefix(o.fn)[0];
    }
  }

  /** One parser step over a binary operator stores it and sets the sign
      flag, unless it is a `-` in sign position right in front of a numeral. */
  lemma StepOperator(s: seq<char>, i: nat, minus: bool, acc: Flat, rev: Revision, be: Backend)
    requires i < |s| && IsBinaryOperator(s[i])
    requires !(minus && s[i] == '-' && InLiteral(At(s, i + 1), true))
    requires |acc.ops| < MaxSize
    ensures LexStep(s, i, minus, acc, rev, be) == Continue(i + 1, true, Flat(acc.nums, acc.ops + [s[i]]))
  {
  }

  /** The written operand sits at `i`, followed by something that cannot
      continue its numeral. */
  predicate WrittenAt(s: seq<char>, i: nat, o: Written)
  {
    && i + |RenderOperand(o)| <= |s|
    && s[i..i + |RenderOperand(o)|] == RenderOperand(o)
    && !InLiteral(At(s, i + |RenderOperand(o)|), true)
  }

  /** Where the pieces of written terms lie on the line. */
  lemma TermLayout(s: seq<char>, i: nat, ts: seq<Term>)
    requires ts != [] && i <= |s| && s[i..] == RenderTerms(ts)
    requires BinaryTerms(ts)
    ensures i < |s| && s[i] == ts[0].op && IsBinaryOperator(ts[0].op)
    ensures WrittenAt(s, i + 1, ts[0].operand)
    ensures s[i + 1 + |RenderOperand(ts[0].operand)|..] == RenderTerms(ts[1..])
    ensures BinaryTerms(ts[1..])
  {
    var w := RenderOperand(ts[0].operand);
    var rest := RenderTerms(ts[1..]);
    RenderFirstTerm(ts);
    TermPieces(s, i, ts[0].op, w, rest);
    BinaryTail(ts);
    NumeralEnds(s, i + 1 + |w|, ts[1..]);
  }

  /** Written terms are the first term's operator, then its operand, then
      the rest. */
  lemma RenderFirstTerm(ts: seq<Term>)
    requires ts != []
    ensures RenderTerms(ts) == [ts[0].op] + (RenderOperand(ts[0].operand) + RenderTerms(ts[1..]))
  {
  }

  /** A suffix written as an operator, an operand and the rest lays them out
      one after the other. */
  lemma TermPieces(s: seq<char>, i: nat, op: char, w: seq<char>, rest: seq<char>)
    requires i <= |s| && s[i..] == [op] + (w + rest)
    ensures i < |s| && s[i] == op
    ensures s[i + 1..i + 1 + |w|] == w && s[i + 1 + |w|..] == rest
  {
    SplitSuffix(s, i, [op], w + rest);
    assert s[i] == s[i..i + 1][0];
    SplitSuffix(s, i + 1, w, rest);
  }

  /** Written terms start with an operator or end the line, either of which
      ends the numeral in front of them. */
  lemma NumeralEnds(s: seq<char>, k: nat, ts: seq<Term>)
    requires k <= |s| && s[k..] == RenderTerms(ts)
    requires BinaryTerms(ts)
    ensures !InLiteral(At(s, k), true)
  {
    if ts == [] {
      assert |s[k..]| == 0;
    } else {
      assert s[k] == s[k..][0] == ts[0].op;
    }
  }

  lemma BinaryTail(ts: seq<Term>)
    requires ts != [] && BinaryTerms(ts)
    ensures BinaryTerms(ts[1..])
  {
    forall k | 0 <= k < |ts[1..]| ensures IsBinaryOperator(ts[1..][k].op) {
      assert ts[1..][k] == ts[k + 1];
    }
  }

  /** The parser loop stops at the end of the line, with everything read. */
  lemma LexAtEnd(s: seq<char>, i: nat, minus: bool, acc: Flat, rev: Revision, be: Backend)
    requires |s| <= i
    ensures Lex(s, i, minus, acc, rev, be) == Parsed(acc, Complete)
  {
  }

  /** Whether the sign flag `minus` in front of a term makes the parser read
      the term's `-` as the sign of its plain numeral. */
  predicate SignClash(minus: bool, t: Term)
  {
    minus && t.op == '-' && t.operand.fn == Plain
  }

  /** No term's `-` is read as a sign: neither with the flag `minus` in front
      of the first term nor with the flag each operand leaves behind it. */
  predicate SignsRead(minus: bool, ts: seq<Term>, rev: Revision)
    decreases |ts|
  {
    ts == [] || (!SignClash(minus, ts[0]) && SignsRead(MinusAfter(ts[0].operand.fn, true, rev), ts[1..], rev))
  }

  /** The operand in front of term `k`: `prev` for the first term. */
  function Before(prev: Unary, ts: seq<Term>, k: nat): Unary
    requires k < |ts|
  {
    if k == 0 then prev else ts[k - 1].operand.fn
  }

  /** No factorial operand (`prev` in front of the first term) is followed by
      a `-` and a plain numeral. */
  predicate NoFactorialMinus(prev: Unary, ts: seq<Term>)
  {
    forall k :: 0 <= k < |ts| && ts[k].op == '-' && ts[k].operand.fn == Plain ==> Before(prev, ts, k) != Fact
  }

  /** The corrected parser reads every `-` between operands as an operator;
      the parser as written does so when no factorial is followed by `-` and
      a plain numeral. */
  lemma {:induction false} SignsReadFrom(prev: Unary, ts: seq<Term>, rev: Revision)
    requires rev == Corrected || NoFactorialMinus(prev, ts)
    ensures SignsRead(MinusAfter(prev, true, rev), ts, rev)
    decreases |ts|
  {
    if ts != [] {
      assert rev == AsWritten ==> Before(prev, ts, 0) == prev;
      if rev == AsWritten {
        forall k | 0 <= k < |ts[1..]| && ts[1..][k].op == '-' && ts[1..][k].operand.fn == Plain
          ensures Before(ts[0].operand.fn, ts[1..], k) != Fact
        {
          assert ts[1..][k] == ts[k + 1];
          assert Before(prev, ts, k + 1) == Before(ts[0].operand.fn, ts[1..], k);
        }
      }
      SignsReadFrom(ts[0].operand.fn, ts[1..], rev);
    }
  }

  /** One written term (an operator, then an operand) takes two passes of the
      loop: the first stores the operator and sets the sign flag, the second
      stores the operand and leaves the flag its branch leaves. */
  lemma TermSteps(s: seq<char>, i: nat, minus: bool, acc: Flat, t: Term, rev: Revision, be: Backend)
    requires i < |s| && s[i] == t.op && IsBinaryOperator(t.op)
    requires WrittenAt(s, i + 1, t.operand)
    requires !SignClash(minus, t)
    requires |acc.nums| < MaxSize && |acc.ops| < MaxSize
    ensures i + 1 < |s| && s[i] != '\0' && s[i + 1] != '\0'
    ensures LexStep(s, i, minus, acc, rev, be) == Continue(i + 1, true, Flat(acc.nums, acc.ops + [t.op]))
    ensures LexStep(s, i + 1, true, Flat(acc.nums, acc.ops + [t.op]), rev, be)
         == Continue(i + 1 + |RenderOperand(t.operand)|, MinusAfter(t.operand.fn, true, rev),
                     Flat(acc.nums + [Meaning(t.operand, be)], acc.ops + [t.op]))
  {
    WrittenStart(s, i + 1, t.operand);
    StepOperator(s, i, minus, acc, rev, be);
    StepOperand(s, i + 1, true, Flat(acc.nums, acc.ops + [t.op]), t.operand, rev, be);
  }

  /** The passes of the loop over written terms from `i` on, starting with
      the sign flag `minus` and `acc` stored: two passes per term, each going
      on, until the end of the line. */
  predicate TermsRead(s: seq<char>, i: nat, minus: bool, acc: Flat, ts: seq<Term>, rev: Revision, be: Backend)
    decreases |ts|
  {
    if ts == [] then i == |s|
    else
      var acc1 := Flat(acc.nums, acc.ops + [ts[0].op]);
      var k := i + 1 + |RenderOperand(ts[0].operand)|;
      var acc2 := Flat(acc.nums + [Meaning(ts[0].operand, be)], acc1.ops);
      var m := MinusAfter(ts[0].operand.fn, true, rev);
      && i + 1 < |s| && s[i] != '\0' && s[i + 1] != '\0'
      && LexStep(s, i, minus, acc, rev, be) == Continue(i + 1, true, acc1)
      && LexStep(s, i + 1, true, acc1, rev, be) == Continue(k, m, acc2)
      && TermsRead(s, k, m, acc2, ts[1..], rev, be)
  }

  /** Written terms lie at `i` and run to the end of the line. */
  predicate TermsAt(s: seq<char>, i: nat, ts: seq<Term>)
    decreases |ts|
  {
    if ts == [] then i == |s|
    else
      && i < |s| && s[i] == ts[0].op && IsBinaryOperator(ts[0].op)
      && WrittenAt(s, i + 1, ts[0].operand)
      && TermsAt(s, i + 1 + |RenderOperand(ts[0].operand)|, ts[1..])
  }

  /** Written-out terms are found where they were written. */
  lemma {:induction false} RenderedTermsAt(s: seq<char>, i: nat, ts: seq<Term>)
    requires i <= |s| && s[i..] == RenderTerms(ts)
    requires BinaryTerms(ts)
    ensures TermsAt(s, i, ts)
    decreases |ts|
  {
    if ts == [] {
      assert |s[i..]| == 0;
    } else {
      TermLayout(s, i, ts);
      var k := i + 1 + |RenderOperand(ts[0].operand)|;
      RenderedTermsAt(s, k, ts[1..]);
    }
  }

  /** Terms found on the line are read pass by pass. */
  lemma {:induction false} TermsAtRead(s: seq<char>, i: nat, minus: bool, acc: Flat, ts: seq<Term>, rev: Revision, be: Backend)
    requires TermsAt(s, i, ts) && SignsRead(minus, ts, rev)
    requires |acc.nums| + |ts| <= MaxSize && |acc.ops| + |ts| <= MaxSize
    ensures TermsRead(s, i, minus, acc, ts, rev, be)
    decreases |ts|
  {
    if ts != [] {
      var k, m, acc2 := TermsAtTail(s, i, minus, acc, ts, rev, be);
      TermsAtRead(s, k, m, acc2, ts[1..], rev, be);
      FirstTermRead(s, i, minus, acc, ts, rev, be, k, m, acc2);
    }
  }

  /** After the first term found on the line, the rest are found where it
      ends, with the sign flag and the items it leaves behind. */
  lemma TermsAtTail(s: seq<char>, i: nat, minus: bool, acc: Flat, ts: seq<Term>, rev: Revision, be: Backend)
      returns (k: nat, m: bool, acc2: Flat)
    requires ts != [] && TermsAt(s, i, ts) && SignsRead(minus, ts, rev)
    requires |acc.nums| + |ts| <= MaxSize && |acc.ops| + |ts| <= MaxSize
    ensures k == i + 1 + |RenderOperand(ts[0].operand)| && m == MinusAfter(ts[0].operand.fn, true, rev)
    ensures acc2 == Flat(acc.nums + [Meaning(ts[0].operand, be)], acc.ops + [ts[0].op])
    ensures TermsAt(s, k, ts[1..]) && SignsRead(m, ts[1..], rev)
    ensures |acc2.nums| + |ts[1..]| <= MaxSize && |acc2.ops| + |ts[1..]| <= MaxSize
  {
    k := i + 1 + |RenderOperand(ts[0].operand)|;
    m := MinusAfter(ts[0].operand.fn, true, rev);
    acc2 := Flat(acc.nums + [Meaning(ts[0].operand, be)], acc.ops + [ts[0].op]);
  }

  /** The first term found on the line is read in two passes, so the terms
      are read from its operator on once the rest are read from its end. */
  lemma FirstTermRead(s: seq<char>, i: nat, minus: bool, acc: Flat, ts: seq<Term>, rev: Revision, be: Backend,
                      k: nat, m: bool, acc2: Flat)
    requires ts != [] && TermsAt(s, i, ts) && SignsRead(minus, ts, rev)
    requires |acc.nums| + |ts| <= MaxSize && |acc.ops| + |ts| <= MaxSize
    requires k == i + 1 + |RenderOperand(ts[0].operand)| && m == MinusAfter(ts[0].operand.fn, true, rev)
    requires acc2 == Flat(acc.nums + [Meaning(ts[0].operand, be)], acc.ops + [ts[0].op])
    requires TermsRead(s, k, m, acc2, ts[1..], rev, be)
    ensures TermsRead(s, i, minus, acc, ts, rev, be)
  {
    TermSteps(s, i, minus, acc, ts[0], rev, be);
  }

  /** Reading written terms after an operand stores their operators and
      operands in order, up to the end of the line. */
  lemma {:induction false} LexTerms(s: seq<char>, i: nat, minus: bool, acc: Flat, ts: seq<Term>, rev: Revision, be: Backend)
    requires TermsRead(s, i, minus, acc, ts, rev, be)
    ensures Lex(s, i, minus, acc, rev, be)
         == Parsed(Flat(acc.nums + TermOperands(ts, be), acc.ops + TermOperators(ts)), Complete)
    decreases |ts|
  {
    if ts == [] {
      LexAtEnd(s, i, minus, acc, rev, be);
      assert acc.nums + [] == acc.nums && acc.ops + [] == acc.ops;
    } else {
      var k, m, acc2 := LexFirstTerm(s, i, minus, acc, ts, rev, be);
      LexTerms(s, k, m, acc2, ts[1..], rev, be);
    }
  }

  /** Reading the first written term moves the parser past it, with the
      term's operator and operand stored. */
  lemma LexFirstTerm(s: seq<char>, i: nat, minus: bool, acc: Flat, ts: seq<Term>, rev: Revision, be: Backend)
      returns (k: nat, m: bool, acc2: Flat)
    requires ts != [] && TermsRead(s, i, minus, acc, ts, rev, be)
    ensures TermsRead(s, k, m, acc2, ts[1..], rev, be)
    ensures Lex(s, i, minus, acc, rev, be) == Lex(s, k, m, acc2, rev, be)
    ensures Flat(acc.nums + TermOperands(ts, be), acc.ops + TermOperators(ts))
         == Flat(acc2.nums + TermOperands(ts[1..], be), acc2.ops + TermOperators(ts[1..]))
  {
    var acc1 := Flat(acc.nums, acc.ops + [ts[0].op]);
    k := i + 1 + |RenderOperand(ts[0].operand)|;
    acc2 := Flat(acc.nums + [Meaning(ts[0].operand, be)], acc1.ops);
    m := MinusAfter(ts[0].operand.fn, true, rev);
    TermsReadTail(s, i, minus, acc, ts, rev, be, k, m, acc2);
    LexTwoSteps(s, i, minus, acc, rev, be, acc1, k, m, acc2);
    TermsAppend(acc, ts, be);
  }

  /** Two passes that go on bring the parser loop to where the second ends. */
  lemma LexTwoSteps(s: seq<char>, i: nat, minus: bool, acc: Flat, rev: Revision, be: Backend,
                    acc1: Flat, k: nat, m: bool, acc2: Flat)
    requires i + 1 < |s| && s[i] != '\0' && s[i + 1] != '\0'
    requires LexStep(s, i, minus, acc, rev, be) == Continue(i + 1, true, acc1)
    requires LexStep(s, i + 1, true, acc1, rev, be) == Continue(k, m, acc2)
    ensures Lex(s, i, minus, acc, rev, be) == Lex(s, k, m, acc2, rev, be)
  {
    LexContinues(s, i, minus, acc, rev, be, i + 1, true, acc1);
    LexContinues(s, i + 1, true, acc1, rev, be, k, m, acc2);
  }

  /** The terms after the first are read from where the first one ends. */
  lemma TermsReadTail(s: seq<char>, i: nat, minus: bool, acc: Flat, ts: seq<Term>, rev: Revision, be: Backend,
                      k: nat, m: bool, acc2: Flat)
    requires ts != [] && TermsRead(s, i, minus, acc, ts, rev, be)
    requires k == i + 1 + |RenderOperand(ts[0].operand)| && m == MinusAfter(ts[0].operand.fn, true, rev)
    requires acc2 == Flat(acc.nums + [Meaning(ts[0].operand, be)], acc.ops + [ts[0].op])
    ensures TermsRead(s, k, m, acc2, ts[1..], rev, be)
  {
  }

  /** Appending the terms' items is appending the first term's, then the rest's. */
  lemma TermsAppend(acc: Flat, ts: seq<Term>, be: Backend)
    requires ts != []
    ensures Flat(acc.nums + TermOperands(ts, be), acc.ops + TermOperators(ts))
         == Flat((acc.nums + [Meaning(ts[0].operand, be)]) + TermOperands(ts[1..], be),
                 (acc.ops + [ts[0].op]) + TermOperators(ts[1..]))
  {
    AppendFirst(acc.nums, Meaning(ts[0].operand, be), TermOperands(ts[1..], be));
    AppendFirst(acc.ops, ts[0].op, TermOperators(ts[1..]));
  }

  lemma AppendFirst<T>(a: seq<T>, x: T, b: seq<T>)
    ensures a + ([x] + b) == (a + [x]) + b
  {
  }

  /** A suffix of the line that is written as two pieces splits into them. */
  lemma SplitSuffix(s: seq<char>, i: nat, x: seq<char>, y: seq<char>)
    requires i <= |s| && s[i..] == x + y
    ensures i + |x| <= |s| && s[i..i + |x|] == x && s[i + |x|..] == y
  {
    assert s[i..i + |x|] == s[i..][..|x|];
    assert s[i + |x|..] == s[i..][|x|..];
  }

  /** Where the first operand and the terms of a written line lie. */
  lemma FormulaLayout(f: Formula)
    requires BinaryTerms(f.rest)
    ensures WrittenAt(Render(f), 0, f.first)
    ensures Render(f)[|RenderOperand(f.first)|..] == RenderTerms(f.rest)
  {
    var s := Render(f);
    var w := RenderOperand(f.first);
    var rest := RenderTerms(f.rest);
    SplitSuffix(s, 0, w, rest);
    if |w| < |s| {
      assert s[|w|] == rest[0] == f.rest[0].op;
    }
  }

  /** The passes of the loop over a written line: the first operand in one
      pass, then the terms. */
  lemma LineRead(f: Formula, rev: Revision, be: Backend)
    requires BinaryTerms(f.rest) && |f.rest| < MaxSize
    requires rev == Corrected || NoFactorialMinus(f.first.fn, f.rest)
    ensures var s := Render(f);
      var m := MinusAfter(f.first.fn, true, rev);
      && 0 < |s| && s[0] != '\0'
      && LexStep(s, 0, true, Flat([], []), rev, be)
         == Continue(|RenderOperand(f.first)|, m, Flat([Meaning(f.first, be)], []))
      && TermsRead(s, |RenderOperand(f.first)|, m, Flat([Meaning(f.first, be)], []), f.rest, rev, be)
  {
    var s := Render(f);
    var acc := Flat([Meaning(f.first, be)], []);
    var m := MinusAfter(f.first.fn, true, rev);
    FormulaLayout(f);
    assert Flat([] + [Meaning(f.first, be)], []) == acc;
    StepOperand(s, 0, true, Flat([], []), f.first, rev, be);
    RenderedTermsAt(s, |RenderOperand(f.first)|, f.rest);
    SignsReadFrom(f.first.fn, f.rest, rev);
    TermsAtRead(s, |RenderOperand(f.first)|, m, acc, f.rest, rev, be);
  }

  /** Parsing a written line gives back exactly the operands and operators it
      was written from: always with the corrected factorial branch, and with
      the branch as written when no factorial is followed by `-` and a plain
      numeral. */
  lemma ParseRendered(f: Formula, rev: Revision, be: Backend)
    requires BinaryTerms(f.rest) && |f.rest| < MaxSize
    requires rev == Corrected || NoFactorialMinus(f.first.fn, f.rest)
    ensures Parse(Render(f), rev, be)
         == Parsed(Flat([Meaning(f.first, be)] + TermOperands(f.rest, be), TermOperators(f.rest)), Complete)
  {
    var s := Render(f);
    var k := |RenderOperand(f.first)|;
    var acc := Flat([Meaning(f.first, be)], []);
    var m := MinusAfter(f.first.fn, true, rev);
    LineRead(f, rev, be);
    LexContinues(s, 0, true, Flat([], []), rev, be, k, m, acc);
    LexTerms(s, k, m, acc, f.rest, rev, be);
    assert [] + TermOperators(f.rest) == TermOperators(f.rest);
  }

  /** A factorial followed by a subtraction, `!n-m`. */
  function FactorialMinus(n: nat, m: nat): string
  {
    "!" + Decimal(n) + "-" + Decimal(m)
  }

  /** The two passes of the loop over `!n-m` as written: the factorial leaves
      the sign flag set, so the second pass reads `-m` as a negative literal. */
  lemma FactorialMinusSteps(n: nat, m: nat, be: Backend)
    ensures var s := FactorialMinus(n, m);
      var k := |RenderOperand(Written(Fact, n))|;
      var acc1 := Flat([Ok(Factorial(n as real, be))], []);
      && k < |s| && s[0] != '\0' && s[k] != '\0'
      && LexStep(s, 0, true, Flat([], []), AsWritten, be) == Continue(k, true, acc1)
      && LexStep(s, k, true, acc1, AsWritten, be)
         == Continue(|s|, false, Flat([Ok(Factorial(n as real, be)), Ok(-(m as real))], []))
  {
    var s := FactorialMinus(n, m);
    var o1 := Written(Fact, n);
    var o2 := Written(Negate, m);
    var k := |RenderOperand(o1)|;
    assert WrittenAt(s, 0, o1) && WrittenAt(s, k, o2) by {
      assert s == RenderOperand(o1) + RenderOperand(o2);
      SplitSuffix(s, 0, RenderOperand(o1), RenderOperand(o2));
      assert s[k] == '-';
    }
    StepOperand(s, 0, true, Flat([], []), o1, AsWritten, be);
    assert Flat([] + [Meaning(o1, be)], []) == Flat([Ok(Factorial(n as real, be))], []);
    StepOperand(s, k, true, Flat([Meaning(o1, be)], []), o2, AsWritten, be);
  }

  /** As written, the factorial branch leaves the sign flag set at the start
      of the line, so the `-` after `!n` is read as the sign of `m`: two
      operands and no operator are stored. */
  lemma FactorialMinusAsWritten(n: nat, m: nat, be: Backend)
    ensures Parse(FactorialMinus(n, m), AsWritten, be)
         == Parsed(Flat([Ok(Factorial(n as real, be)), Ok(-(m as real))], []), Complete)
  {
    var s := FactorialMinus(n, m);
    var k := |RenderOperand(Written(Fact, n))|;
    var acc1 := Flat([Ok(Factorial(n as real, be))], []);
    var acc2 := Flat([Ok(Factorial(n as real, be)), Ok(-(m as real))], []);
    FactorialMinusSteps(n, m, be);
    LexContinues(s, 0, true, Flat([], []), AsWritten, be, k, true, acc1);
    LexContinues(s, k, true, acc1, AsWritten, be, |s|, false, acc2);
    LexAtEnd(s, |s|, false, acc2, AsWritten, be);
  }

  /** With the flag cleared after the factorial, the same line is a
      subtraction of two operands. */
  lemma FactorialMinusCorrected(n: nat, m: nat, be: Backend)
    ensures Parse(FactorialMinus(n, m), Corrected, be)
         == Parsed(Flat([Ok(Factorial(n as real, be)), Ok(m as real)], ['-']), Complete)
  {
    var t := Term('-', Written(Plain, m));
    var f := Formula(Written(Fact, n), [t]);
    assert RenderTerms([t]) == ['-'] + Decimal(m) by {
      assert [t][1..] == [];
    }
    assert Render(f) == FactorialMinus(n, m);
    assert TermOperands([t], be) == [Ok(m as real)] by {
      assert [t][1..] == [];
    }
    assert TermOperators([t]) == ['-'] by {
      assert [t][1..] == [];
    }
    ParseRendered(f, Corrected, be);
  }
}
