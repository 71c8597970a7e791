/** The imperative core of the calculator: the `Expression` buffers
    (Calculator/Calculator.cpp, lines 32-42), `parseInput` (239-493), which
    fills them, and `evaluateExpression` (496-576), which folds them in place. */
module Calculator {
  import opened Types
  import opened Arithmetic
  import opened Scanner
  import opened Lexer
  import opened Evaluation

  /** The parsed form of one input line: an operand buffer and an operator
      buffer of fixed size, each with the count of its filled places. */
  class Expression {
    const numbers: array<Result<real>>
    const operators: array<char>
    var numCount: nat
    var opCount: nat

    ghost predicate Valid()
      reads this
    {
      numbers.Length == MaxSize && operators.Length == MaxSize
      && numCount <= MaxSize && opCount <= MaxSize
    }

    /** The filled places of both buffers. */
    ghost function Contents(): Flat
      reads this, numbers, operators
      requires Valid()
    {
      Flat(numbers[..numCount], operators[..opCount])
    }

    /** Both counts start at zero. */
    constructor ()
      ensures Valid() && Contents() == Flat([], [])
      ensures fresh(numbers) && fresh(operators)
    {
      numbers := new Result<real>[MaxSize](_ => Ok(0.0));
      operators := new char[MaxSize](_ => '\0');
      numCount := 0;
      opCount := 0;
    }

    /** `numbers[numCount++] = v`, refused when the buffer is full. */
    method PushNumber(v: Result<real>) returns (stored: bool)
      requires Valid()
      modifies this, numbers
      ensures Valid() && opCount == old(opCount)
      ensures stored <==> old(numCount) < MaxSize
      ensures Contents() == if stored then Flat(old(Contents()).nums + [v], old(Contents()).ops) else old(Contents())
    {
      if numCount == MaxSize {
        return false;
      }
      numbers[numCount] := v;
      numCount := numCount + 1;
      assert numbers[..numCount] == old(numbers[..numCount]) + [v];
      return true;
    }

    /** `operators[opCount++] = c`, refused when the buffer is full. */
    method PushOperator(c: char) returns (stored: bool)
      requires Valid()
      modifies this, operators
      ensures Valid() && numCount == old(numCount)
      ensures stored <==> old(opCount) < MaxSize
      ensures Contents() == if stored then Flat(old(Contents()).nums, old(Contents()).ops + [c]) else old(Contents())
    {
      if opCount == MaxSize {
        return false;
      }
      operators[opCount] := c;
      opCount := opCount + 1;
      assert operators[..opCount] == old(operators[..opCount]) + [c];
      return true;
    }
  }

  /** How one pass of the parser loop ends: the loop goes on (`continue`),
      or `parseInput` returns with a failure. */
  datatype PassOutcome = GoOn | Halt(error: Error)

  /** One pass of the loop of `parseInput` at position `i` (lines 246-491):
      the branch `Classify` picks, with the digit loop of `ScanNumber` where
      the branch scans a number. After `GoOn` the loop continues from `next`
      with the sign flag `minus`. */
  method ParsePass(input: seq<char>, i: nat, checkMinus: bool, e: Expression, rev: Revision, be: Backend)
    returns (outcome: PassOutcome, next: nat, minus: bool)
    requires e.Valid() && i < |input|
    modifies e, e.numbers, e.operators
    ensures e.Valid()
    ensures var step := LexStep(input, i, checkMinus, old(e.Contents()), rev, be);
      if outcome.GoOn? then step == Continue(next, minus, e.Contents())
      else step == Stop(Parsed(e.Contents(), Failed(outcome.error)))
  {
    next, minus := i, checkMinus;
    match Classify(input, i, checkMinus)
    case Blank =>
      return GoOn, i + 1, checkMinus;
    case Operand(u, start, allowPoint) =>
      var r := ScanNumber(input, start, allowPoint);
      if r.Err? {
        return Halt(r.error), next, minus;
      }
      var stored := e.PushNumber(ApplyUnary(u, r.value.value, be));
      if !stored {
        return Halt(CapacityExceeded), next, minus;
      }
      return GoOn, r.value.end, MinusAfter(u, checkMinus, rev);
    case Operator(c) =>
      var stored := e.PushOperator(c);
      if !stored {
        return Halt(CapacityExceeded), next, minus;
      }
      return GoOn, i + 1, true;
    case Unknown =>
      return Halt(InvalidCharacter), next, minus;
  }

  /** `parseInput`: passes over the line, storing into `e`, until the
      terminating NUL or the first failure. `rev` selects the factorial
      branch as written or corrected. */
  method ParseInput(input: seq<char>, e: Expression, rev: Revision, be: Backend) returns (status: Status)
    requires e.Valid()
    modifies e, e.numbers, e.operators
    ensures e.Valid()
    ensures Parsed(e.Contents(), status) == Lex(input, 0, true, old(e.Contents()), rev, be)
  {
    var i: nat := 0;
    var checkMinus := true;
    while At(input, i) != '\0'
      invariant e.Valid()
      invariant Lex(input, i, checkMinus, e.Contents(), rev, be) == Lex(input, 0, true, old(e.Contents()), rev, be)
      decreases |input| - i
    {
      ghost var acc := e.Contents();
      var outcome, next, minus := ParsePass(input, i, checkMinus, e, rev, be);
      if outcome.Halt? {
        LexStops(input, i, checkMinus, acc, rev, be, Parsed(e.Contents(), Failed(outcome.error)));
        return Failed(outcome.error);
      }
      StepFacts(input, i, checkMinus, acc, rev, be);
      LexContinues(input, i, checkMinus, acc, rev, be, next, minus, e.Contents());
      i, checkMinus := next, minus;
    }
    return Complete;
  }

  /** The loop that closes the gap in the operand buffer after a fold at
      `i`: the operands after `numbers[i + 1]` move down one place. */
  method ShiftNumbers(e: Expression, i: nat)
    requires e.Valid() && i + 1 < e.numCount
    modifies e.numbers
    ensures forall k :: 0 <= k < e.numbers.Length && !(i < k < e.numCount - 1) ==> e.numbers[k] == old(e.numbers[k])
    ensures forall k :: i < k < e.numCount - 1 ==> e.numbers[k] == old(e.numbers[k + 1])
  {
    for j := i + 1 to e.numCount - 1
      invariant forall k :: 0 <= k < e.numbers.Length && !(i < k < j) ==> e.numbers[k] == old(e.numbers[k])
      invariant forall k :: i < k < j ==> e.numbers[k] == old(e.numbers[k + 1])
    {
      e.numbers[j] := e.numbers[j + 1];
    }
  }

  /** The loop that closes the gap in the operator buffer after a fold at
      `i`: the operators after `operators[i]` move down one place. */
  method ShiftOperators(e: Expression, i: nat)
    requires e.Valid() && i < e.opCount
    modifies e.operators
    ensures forall k :: 0 <= k < e.operators.Length && !(i <= k < e.opCount - 1) ==> e.operators[k] == old(e.operators[k])
    ensures forall k :: i <= k < e.opCount - 1 ==> e.operators[k] == old(e.operators[k + 1])
  {
    for j := i to e.opCount - 1
      invariant forall k :: 0 <= k < e.operators.Length && !(i <= k < j) ==> e.operators[k] == old(e.operators[k])
      invariant forall k :: i <= k < j ==> e.operators[k] == old(e.operators[k + 1])
    {
      e.operators[j] := e.operators[j + 1];
    }
  }

  /** One fold of a pass at operator `i` (lines 506-526 and 537-555): the
      step's result overwrites `numbers[i]`, two loops shift the tails of both
      buffers down one place, and both counts drop by one. */
  method FoldAt(e: Expression, i: nat, be: Backend)
    requires e.Valid() && i < e.opCount < e.numCount
    modifies e, e.numbers, e.operators
    ensures e.Valid()
    ensures e.numCount == old(e.numCount) - 1 && e.opCount == old(e.opCount) - 1
    ensures e.Contents() == Folded(old(e.Contents()), i, be)
  {
    ghost var f := e.Contents();
    ghost var g := Folded(f, i, be);
    var result := Combine(e.numbers[i], e.numbers[i + 1], e.operators[i], be);
    e.numbers[i] := result;
    ShiftNumbers(e, i);
    ShiftOperators(e, i);
    e.numCount := e.numCount - 1;
    e.opCount := e.opCount - 1;
    assert e.numbers[..e.numCount] == g.nums by {
      forall k | 0 <= k < e.numCount ensures e.numbers[k] == g.nums[k] {
        if k < i {
          assert g.nums[k] == f.nums[k];
        }
      }
    }
    assert e.operators[..e.opCount] == g.ops by {
      forall k | 0 <= k < e.opCount ensures e.operators[k] == g.ops[k] {
        if k < i {
          assert g.ops[k] == f.ops[k];
        }
      }
    }
  }

  /** One of the two folding loops (lines 501-529 for `^`, 532-560 for `*`
      and `/`). After a fold the loop's `i--` and `i++` cancel, so the same
      place is looked at again. */
  method ReduceTier(e: Expression, t: Tier, be: Backend)
    requires e.Valid() && e.opCount < e.numCount
    modifies e, e.numbers, e.operators
    ensures e.Valid() && e.opCount < e.numCount
    ensures e.Contents() == Reduce(t, old(e.Contents()), be)
  {
    ghost var goal := Reduce(t, e.Contents(), be);
    ReduceFromStart(t, e.Contents(), be);
    var i: nat := 0;
    while i < e.opCount
      invariant e.Valid() && i <= e.opCount < e.numCount
      invariant ReduceFrom(t, e.Contents(), i, be) == goal
      decreases e.opCount - i
    {
      if InTier(e.operators[i], t) {
        ReduceFromFold(t, e.Contents(), i, be);
        FoldAt(e, i, be);
      } else {
        ReduceFromSkip(t, e.Contents(), i, be);
        i := i + 1;
      }
    }
    ReduceFromEnd(t, e.Contents(), be);
  }

  /** The last loop (lines 562-574): a left fold of `+` and `-` from
      `numbers[0]`; neither buffer changes. */
  method SumTier(e: Expression, be: Backend) returns (result: Result<real>)
    requires e.Valid() && e.opCount < e.numCount
    ensures var c := e.Contents(); result == AddSub(c.nums[0], c.nums[1..], c.ops, be)
  {
    ghost var c := e.Contents();
    result := e.numbers[0];
    for i := 0 to e.opCount
      invariant AddSub(result, c.nums[i + 1..], c.ops[i..], be) == AddSub(c.nums[0], c.nums[1..], c.ops, be)
    {
      assert c.nums[i + 1..][1..] == c.nums[i + 2..] && c.ops[i..][1..] == c.ops[i + 1..];
      if e.operators[i] == '+' {
        result := Combine(result, e.numbers[i + 1], '+', be);
      } else if e.operators[i] == '-' {
        result := Combine(result, e.numbers[i + 1], '-', be);
      }
    }
  }

  /** `evaluateExpression`: both folding passes in place, then the sum. */
  method EvaluateExpression(e: Expression, be: Backend) returns (result: Result<real>)
    requires e.Valid() && e.opCount < e.numCount
    modifies e, e.numbers, e.operators
    ensures e.Valid() && e.Contents() == Tiers(old(e.Contents()), be)
    ensures result == EvalSpec(old(e.Contents()), be)
  {
    ReduceTier(e, Power, be);
    ReduceTier(e, Product, be);
    result := SumTier(e, be);
  }

  /** What `main` reads into its 100-character buffer: at most 99 characters
      of the line typed. */
  function Line(text: seq<char>): (s: seq<char>)
    ensures |s| < MaxSize && s <= text
    ensures |text| < MaxSize ==> s == text
  {
    if |text| < MaxSize then text else text[..MaxSize - 1]
  }

  /** The outcome `main` reports for one line: the parser's failure if it
      failed, otherwise the value of the expression. A parsed line with fewer
      operands than an interleaving needs is refused as `Malformed` (the
      original reads an unset operand there). */
  function Calculation(text: seq<char>, rev: Revision, be: Backend): (r: Result<real>)
    ensures var p := Parse(Line(text), rev, be);
      r.Ok? ==> p.status == Complete && |p.expr.ops| < |p.expr.nums|
  {
    var p := Parse(Line(text), rev, be);
    if p.status.Failed? then Err(p.status.error)
    else if |p.expr.ops| < |p.expr.nums| then EvalSpec(p.expr, be)
    else Err(Malformed)
  }

  /** One pass of `main`'s loop without its I/O: parse the line into a fresh
      expression with the factorial branch `rev`, then evaluate it. */
  method Calculate(text: seq<char>, rev: Revision, be: Backend) returns (r: Result<real>)
    ensures r == Calculation(text, rev, be)
  {
    var e := new Expression();
    var status := ParseInput(Line(text), e, rev, be);
    if status.Failed? {
      return Err(status.error);
    }
    if e.numCount <= e.opCount {
      return Err(Malformed);
    }
    r := EvaluateExpression(e, be);
  }

  /** A line that fits the input buffer never fills the expression's
      buffers, so the outcome is a value, a parse error of the line, a
      `Malformed` line or an error of a single operation. */
  lemma CalculationErrors(text: seq<char>, rev: Revision, be: Backend)
    ensures var r := Calculation(text, rev, be);
      r.Err? ==> r.error in {MultipleDecimalPoints, InvalidCharacter, Malformed} || IsDomainError(r.error)
  {
    var s := Line(text);
    LexDomainErrors(s, 0, true, Flat([], []), rev, be);
    var p := Parse(s, rev, be);
    if p.status.Complete? && |p.expr.ops| < |p.expr.nums| {
      EvalDomainErrors(p.expr, be);
    }
  }
}
