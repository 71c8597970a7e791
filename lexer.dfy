/** The single-pass lexer and parser of `parseInput` (Calculator/Calculator.cpp,
    lines 239-493) as a function over the input line: one `LexStep` per pass
    of the source's loop, driven by `Lex` until the terminating NUL. */
module Lexer {
  import opened Types
  import opened Arithmetic
  import opened Scanner

  /** The factorial branch as written leaves the sign flag as it was; the
      corrected branch clears it like every other branch that stores an operand. */
  datatype Revision = AsWritten | Corrected

  datatype Status = Complete | Failed(error: Error)

  /** What parsing a line leaves behind: the operands and operators stored so
      far, and whether the line was read to its end. */
  datatype Parsed = Parsed(expr: Flat, status: Status)

  /** The outcome of one pass of the parser loop: the next position, the new
      sign flag (`checkMinus`) and the stored items, or the end of parsing. */
  datatype Step = Continue(pos: nat, minus: bool, acc: Flat) | Stop(result: Parsed)

  predicate TrigNameAt(s: seq<char>, i: nat)
  {
    || (At(s, i) == 's' && At(s, i + 1) == 'i' && At(s, i + 2) == 'n')
    || (At(s, i) == 'c' && At(s, i + 1) == 'o' && At(s, i + 2) == 's')
    || (At(s, i) == 't' && At(s, i + 1) == 'a' && At(s, i + 2) == 'n')
  }

  function TrigAt(s: seq<char>, i: nat): TrigFn
  {
    if At(s, i) == 's' then Sine else if At(s, i) == 'c' then Cosine else Tangent
  }

  predicate LnAt(s: seq<char>, i: nat)
  {
    At(s, i) == 'l' && At(s, i + 1) == 'n'
  }

  predicate ExpAt(s: seq<char>, i: nat)
  {
    At(s, i) == 'e' && At(s, i + 1) == 'x' && At(s, i + 2) == 'p'
  }

  /** Whether some branch of the parser loop accepts the character at `i`. */
  predicate Recognised(s: seq<char>, i: nat)
  {
    At(s, i) == ' ' || TrigNameAt(s, i) || LnAt(s, i) || ExpAt(s, i)
    || InLiteral(At(s, i), true) || IsOperator(At(s, i))
  }

  /** The function a branch of the parser applies to the number it scans:
      none, negation (a `-` in sign position), a trigonometric function, the
      factorial, the natural logarithm or the exponential. */
  datatype Unary = Plain | Negate | Trig(fn: TrigFn) | Fact | Ln | Exp

  /** What the branch chosen at one position does: skip a blank, scan a number
      from `start` and store a function of it, store an operator, or give up. */
  datatype Token = Blank | Operand(fn: Unary, start: nat, allowPoint: bool) | Operator(op: char) | Unknown

  /** The branch the parser loop takes at position `i`, tried in the source's
      order: space, `sin`/`cos`/`tan`, `!`, `ln`, `exp`, a `-` in sign
      position, an unsigned literal, an operator, anything else. A `-` in sign
      position not followed by a literal is stored as an operator. */
  function Classify(s: seq<char>, i: nat, minus: bool): (t: Token)
    requires i < |s|
    ensures t.Operand? ==> i <= t.start <= |s| && (t.start == i ==> InLiteral(s[i], t.allowPoint))
  {
    var c := s[i];
    if c == ' ' then Blank
    else if TrigNameAt(s, i) then Operand(Trig(TrigAt(s, i)), i + 3, true)
    else if c == '!' then Operand(Fact, i + 1, false)
    else if LnAt(s, i) then Operand(Ln, i + 2, true)
    else if ExpAt(s, i) then Operand(Exp, i + 3, true)
    else if c == '-' && minus then
      if InLiteral(At(s, i + 1), true) then Operand(Negate, i + 1, true) else Operator('-')
    else if InLiteral(c, true) then Operand(Plain, i, true)
    else if IsOperator(c) then Operator(c)
    else Unknown
  }

  /** An operator branch stores an operator other than `!`, and no branch
      applies exactly where no branch of the parser recognises the character. */
  lemma ClassifyFacts(s: seq<char>, i: nat, minus: bool)
    requires i < |s|
    ensures Classify(s, i, minus).Operator? ==> IsOperator(Classify(s, i, minus).op) && Classify(s, i, minus).op != '!'
    ensures Classify(s, i, minus).Unknown? <==> !Recognised(s, i)
  {
  }

  /** The value a branch stores for the number `x` it scanned; the unary
      functions' domain errors are stored as they are. */
  function ApplyUnary(u: Unary, x: real, be: Backend): (r: Result<real>)
    ensures r.Err? ==> (u == Trig(Tangent) && r.error == TangentUndefined) || (u == Ln && r.error == LogarithmDomain)
  {
    match u
    case Plain => Ok(x)
    case Negate => Ok(-x)
    case Trig(f) => TrigFunction(x, f, be)
    case Fact => Ok(Factorial(x, be))
    case Ln => LnFunction(x, be)
    case Exp => Ok(be.exp(x))
  }

  /** The sign flag after storing an operand: cleared, except that the
      factorial branch as written leaves it as it was. */
  function MinusAfter(u: Unary, minus: bool, rev: Revision): (m: bool)
    ensures rev == Corrected || u != Fact ==> !m
    ensures m ==> minus
  {
    if u == Fact && rev == AsWritten then minus else false
  }

  /** `numbers[numCount++] = v`, refused when the buffer is full. */
  function PushOperand(acc: Flat, v: Result<real>, pos: nat, minus: bool): Step
  {
    if |acc.nums| < MaxSize then Continue(pos, minus, Flat(acc.nums + [v], acc.ops))
    else Stop(Parsed(acc, Failed(CapacityExceeded)))
  }

  /** `operators[opCount++] = c`, refused when the buffer is full; the sign
      flag is set after every operator. */
  function PushOperator(acc: Flat, c: char, pos: nat): Step
  {
    if |acc.ops| < MaxSize then Continue(pos, true, Flat(acc.nums, acc.ops + [c]))
    else Stop(Parsed(acc, Failed(CapacityExceeded)))
  }

  /** Stored items grow by at most one item per step: one operand, or one
      operator that is a binary operator. */
  predicate AppendsAtMostOne(a: Flat, b: Flat)
  {
    || b == a
    || (b.ops == a.ops && |b.nums| == |a.nums| + 1 && b.nums[..|a.nums|] == a.nums)
    || (b.nums == a.nums && |b.ops| == |a.ops| + 1 && b.ops[..|a.ops|] == a.ops
        && IsBinaryOperator(b.ops[|a.ops|]))
  }

  /** One pass of the loop of `parseInput`. */
  function LexStep(s: seq<char>, i: nat, minus: bool, acc: Flat, rev: Revision, be: Backend): (r: Step)
    requires i < |s|
    ensures r.Continue? ==> i < r.pos <= |s| && acc.nums <= r.acc.nums && acc.ops <= r.acc.ops
    ensures r.Stop? ==> r.result.expr == acc && r.result.status.Failed?
  {
    match Classify(s, i, minus)
    case Blank => Continue(i + 1, minus, acc)
    case Operand(u, start, allowPoint) =>
      (match Scan(s, start, allowPoint)
       case Err(e) => Stop(Parsed(acc, Failed(e)))
       case Ok(lit) => PushOperand(acc, ApplyUnary(u, lit.value, be), lit.end, MinusAfter(u, minus, rev)))
    case Operator(c) => PushOperator(acc, c, i + 1)
    case Unknown => Stop(Parsed(acc, Failed(InvalidCharacter)))
  }

  /** Every step moves forward, stores at most one item, and stops only on a
      failure, which is an invalid character exactly where no branch applies. */
  lemma StepFacts(s: seq<char>, i: nat, minus: bool, acc: Flat, rev: Revision, be: Backend)
    requires i < |s|
    ensures var r := LexStep(s, i, minus, acc, rev, be);
      && (r.Continue? ==> i < r.pos <= |s| && AppendsAtMostOne(acc, r.acc))
      && (r.Continue? && |r.acc.ops| > |acc.ops| ==> r.minus)
      && (r.Continue? && |r.acc.nums| > |acc.nums| ==> r.minus == (rev == AsWritten && s[i] == '!' && minus))
      && (s[i] == ' ' ==> r == Continue(i + 1, minus, acc))
      && (r.Stop? ==> r.result.expr == acc && r.result.status.Failed?)
      && (r.Stop? && r.result.status.error == InvalidCharacter <==> !Recognised(s, i))
      && (r.Stop? && r.result.status.error == CapacityExceeded ==> |acc.nums| >= MaxSize || |acc.ops| >= MaxSize)
  {
    var r := LexStep(s, i, minus, acc, rev, be);
    if r.Continue? && |r.acc.ops| > |acc.ops| {
      assert r.acc.ops[..|acc.ops|] == acc.ops;
    }
  }

  /** The parser loop from position `i` until the terminating NUL or a failure. */
  function Lex(s: seq<char>, i: nat, minus: bool, acc: Flat, rev: Revision, be: Backend): (r: Parsed)
    ensures acc.nums <= r.expr.nums && acc.ops <= r.expr.ops
    decreases |s| - i
  {
    if At(s, i) == '\0' then Parsed(acc, Complete)
    else
      match LexStep(s, i, minus, acc, rev, be)
      case Stop(p) => p
      case Continue(j, m, a) => Lex(s, j, m, a, rev, be)
  }

  /** The parser loop goes on from wherever one step leaves it. */
  lemma LexContinues(s: seq<char>, i: nat, minus: bool, acc: Flat, rev: Revision, be: Backend,
                     j: nat, m: bool, a: Flat)
    requires i < |s| && s[i] != '\0'
    requires LexStep(s, i, minus, acc, rev, be) == Continue(j, m, a)
    ensures Lex(s, i, minus, acc, rev, be) == Lex(s, j, m, a, rev, be)
  {
  }

  /** The parser loop ends where one step stops it. */
  lemma LexStops(s: seq<char>, i: nat, minus: bool, acc: Flat, rev: Revision, be: Backend, p: Parsed)
    requires i < |s| && s[i] != '\0'
    requires LexStep(s, i, minus, acc, rev, be) == Stop(p)
    ensures Lex(s, i, minus, acc, rev, be) == p
  {
  }

  /** `parseInput` on a fresh expression: it stores only binary operators, at
      most one item per character, and so never fills the buffers on a line
      no longer than their capacity. */
  function Parse(s: seq<char>, rev: Revision, be: Backend): (r: Parsed)
    ensures AllBinary(r.expr.ops)
    ensures |r.expr.nums| + |r.expr.ops| <= |s|
    ensures |s| <= MaxSize ==> r.status != Failed(CapacityExceeded)
  {
    LexShape(s, 0, true, Flat([], []), rev, be);
    Lex(s, 0, true, Flat([], []), rev, be)
  }

  predicate AllBinary(ops: seq<char>)
  {
    forall k :: 0 <= k < |ops| ==> IsBinaryOperator(ops[k])
  }

  /** Parsing only appends, stores only binary operators (a `!` never reaches
      the operator buffer), stores at most one item per character read, and so
      never fills the buffers on a line no longer than their capacity. */
  lemma {:induction false} LexShape(s: seq<char>, i: nat, minus: bool, acc: Flat, rev: Revision, be: Backend)
    requires i <= |s| && |acc.nums| + |acc.ops| <= i && AllBinary(acc.ops)
    ensures var r := Lex(s, i, minus, acc, rev, be);
      && acc.nums <= r.expr.nums && acc.ops <= r.expr.ops
      && AllBinary(r.expr.ops)
      && |r.expr.nums| + |r.expr.ops| <= |s|
      && (|s| <= MaxSize ==> r.status != Failed(CapacityExceeded))
    decreases |s| - i
  {
    if At(s, i) != '\0' {
      StepFacts(s, i, minus, acc, rev, be);
      match LexStep(s, i, minus, acc, rev, be)
      case Stop(p) =>
      case Continue(j, m, a) =>
        assert AllBinary(a.ops) by {
          if |a.ops| > |acc.ops| {
            forall k | 0 <= k < |a.ops| ensures IsBinaryOperator(a.ops[k]) {
              if k < |acc.ops| {
                assert a.ops[k] == a.ops[..|acc.ops|][k];
              }
            }
          }
        }
        LexShape(s, j, m, a, rev, be);
        var r := Lex(s, j, m, a, rev, be);
        assert acc.nums <= a.nums && acc.ops <= a.ops;
    }
  }


  /** The two revisions differ only after a `!`. */
  lemma {:induction false} LexRevisionsAgree(s: seq<char>, i: nat, minus: bool, acc: Flat, be: Backend)
    requires forall k :: i <= k < |s| ==> s[k] != '!'
    ensures Lex(s, i, minus, acc, AsWritten, be) == Lex(s, i, minus, acc, Corrected, be)
    decreases |s| - i
  {
    if At(s, i) != '\0' {
      assert LexStep(s, i, minus, acc, AsWritten, be) == LexStep(s, i, minus, acc, Corrected, be);
      match LexStep(s, i, minus, acc, Corrected, be)
      case Stop(p) =>
      case Continue(j, m, a) =>
        LexRevisionsAgree(s, j, m, a, be);
    }
  }

  /** The operands the parser stores fail only in the domain checks of `tan`
      and `ln`; a parse that fails reports why the line could not be read. */
  lemma {:induction false} LexDomainErrors(s: seq<char>, i: nat, minus: bool, acc: Flat, rev: Revision, be: Backend)
    requires DomainErrorsOnly(acc.nums)
    ensures var r := Lex(s, i, minus, acc, rev, be);
      && DomainErrorsOnly(r.expr.nums)
      && (r.status.Failed? ==> r.status.error in {MultipleDecimalPoints, InvalidCharacter, CapacityExceeded})
    decreases |s| - i
  {
    if At(s, i) != '\0' {
      match LexStep(s, i, minus, acc, rev, be)
      case Stop(p) =>
      case Continue(j, m, a) =>
        assert DomainErrorsOnly(a.nums) by {
          if a.nums != acc.nums {
            assert a.nums == acc.nums + [a.nums[|acc.nums|]];
          }
        }
        LexDomainErrors(s, j, m, a, rev, be);
    }
  }
}
