# Scientific calculator: parser and evaluator

This project models the core of a console calculator, `Calculator/Calculator.cpp`. The calculator reads a line such as `2+3*4`, `sin30*2`, `ln5-!4` or `-2.5^2`. `parseInput` turns the line into two parallel fixed-size buffers of an `Expression`: the operands and the operators. `evaluateExpression` then folds the buffers in place:

- `^` first;
- then `*` and `/`;
- finally `+` and `-` from left to right.

The numeric work of the original is done by assembly routines. Here they are the fields of a `Backend` value: `sqrt`, `power`, `sin`, `cos`, `tan`, `ln`, `exp` and `factorial`, with nothing assumed about them. What the model does own is the logic around those routines:

- the guards of the binary step;
- the trigonometric, logarithm and factorial wrappers;
- the digit scanner that the parser repeats five times, written here once;
- the parser's branches and its sign flag (`checkMinus`);
- the in-place folding passes.

The original returns the largest `float` as an error marker. Here it becomes a `Result` value that names the error.

Modules:

- `Types`: the capacity (`MaxSize` = 100), errors, `Result`, `Backend`, and `Flat` (the filled parts of both buffers).
- `Arithmetic`: `performOperation`, `performFactorial`, `performTrigFunction`, and `performLnFunction` as functions; `performExpFunction`, which has no guard, is the backend's `exp` applied where the parser stores the operand. The tangent guard is characterised as exactly the angles 90, 270, 450, … degrees.
- `Scanner`:
  - `isDigit` and `isOperator`;
  - the digit loop, as the recursive function `ScanFrom` and the method `ScanNumber` with its `while` loop;
  - the value of a literal: integer digits as `num * 10 + d`, fraction digits as `d / 10^k`;
  - the failure on a second decimal point;
  - a round trip from a natural number's numeral back to the number.
- `Lexer`: one pass of `parseInput`'s loop as the function `LexStep`, and the whole loop as `Lex`. `Revision` selects the factorial branch as written or corrected (see Findings). It also proves the shape of what parsing stores:
  - items are only appended;
  - only binary operators are stored;
  - at most one item is stored per character;
  - the buffers never overflow on a line that fits the input buffer;
  - the only errors are the ones listed.
- `Evaluation`: the folding passes as functions (`Reduce`, `AddSub`, `EvalSpec`), proved to:
  - leave no operator of their tier;
  - keep the survivors in order;
  - associate to the left, for a run of one tier wherever it stands in the expression;
  - respect precedence (case by case for three operands);
  - be idempotent;
  - propagate errors.
- `Calculator`: the imperative core.
  - The `Expression` class, with its two arrays and two counters.
  - `ParseInput`: a `while` loop over the line that calls the `Expression` push methods.
  - `EvaluateExpression`: two in-place folding loops, each with the source's shifting loops, then the summing loop. Every method is proved against the functions above.
  - `Calculate`: one pass of `main`'s loop without its I/O.
- `RoundTrip`: a line written from whole-number operands (plain, signed, or under `sin`/`cos`/`tan`/`!`/`ln`/`exp`) and binary operators parses back to exactly those operands' values and those operators.
  - With the corrected factorial branch, this holds for every such line.
  - With the branch as written, it holds when no `!n` operand is directly followed by `-` and a plain numeral. The excluded lines are the ones the finding below is about.
- `Scenarios`: whole lines through parsing and evaluation. Precedence, left grouping and error reports are shown on concrete lines. The factorial finding is shown both as written and as corrected.

## Model

| member | source | states |
|---|---|---|
| Arithmetic.Trunc | Calculator/Calculator.cpp:125-126 | the `static_cast<int>` of a float truncates toward zero: the result lies within 1 of the argument, on the side of zero |
| Arithmetic.Apply | Calculator/Calculator.cpp:56-145 | the binary step fails exactly for `/` by 0 (division by zero) and for `^0.5` of a negative number (negative square root). `+`, `-` and `*` give the exact result, and a successful `/` gives `r * b == a`. `^0.5` of a non-negative number is the square root, and any other power uses the truncated base and exponent. An unknown operator gives 0 |
| Arithmetic.Combine | Calculator/Calculator.cpp:506 | a step on operands that may already be errors passes on the first error, left operand first; otherwise it is `Apply` |
| Arithmetic.FactorialIgnoresFraction | Calculator/Calculator.cpp:147-159 | the factorial of `n + frac` with `0 <= frac < 1` is `factorial(n)`: the argument is truncated first |
| Arithmetic.FMod | Calculator/Calculator.cpp:186 | C's `fmod`: the dividend minus the remainder is a whole multiple of the divisor |
| Arithmetic.RemainderBy180 | Calculator/Calculator.cpp:186 | by 180 the remainder lies in [0, 180) for a non-negative angle and in (-180, 0] for a negative one: it keeps the dividend's sign |
| Arithmetic.TrigFunction | Calculator/Calculator.cpp:160-201 | degrees are converted with 3.14159/180. The result is an error exactly for `tan` at an angle whose `fmod` by 180 is 90; otherwise it is the backend's sin, cos or tan of the converted angle |
| Arithmetic.TangentAsymptotes | Calculator/Calculator.cpp:185-190 | the tangent guard fires exactly at angles of the form `90 + 180k` with `k >= 0`. Negative angles such as -90 pass, because `fmod` keeps the dividend's sign |
| Arithmetic.LnFunction | Calculator/Calculator.cpp:203-221 | the logarithm fails exactly when `x <= 0`; otherwise it is the backend's ln |
| Arithmetic.Factorial | Calculator/Calculator.cpp:147-159 | the factorial of a non-negative number is the backend's factorial of its whole part, and any argument strictly between -1 and 1 gives `factorial(0)` |
| Scanner.IsDigit | Calculator/Calculator.cpp:45-48 | a digit is never a point, a blank or the terminating NUL |
| Scanner.IsOperator | Calculator/Calculator.cpp:49-53 | an operator character is never a digit, a point, a blank or the terminating NUL |
| Scanner.CharacterClasses | Calculator/Calculator.cpp:45-53 | `isDigit` accepts exactly `0`-`9` and `isOperator` exactly `+ - * / ^ !` |
| Scanner.FracBound | Calculator/Calculator.cpp:279-283 | the fraction from k digits after the point is at least 0 and at most `1 - 1/10^k` |
| Scanner.SpanEndFacts | Calculator/Calculator.cpp:265 | the scanned run holds only digits, or points where the branch accepts them, and the character after it is neither |
| Scanner.ScanFrom | Calculator/Calculator.cpp:265-289 | the digit loop from any intermediate state ends inside the line and consumes at least one character when it starts on a literal character. It fails only with `MultipleDecimalPoints`, and only in a branch that accepts points |
| Scanner.ScanNumber | Calculator/Calculator.cpp:261-289 | the `while` loop over digits and points computes the scan function's outcome |
| Scanner.ScanEnd | Calculator/Calculator.cpp:265-289 | a successful scan stops exactly at the end of the run of literal characters |
| Scanner.WholeRun | Calculator/Calculator.cpp:284-287 | after the digits before the point, `num` is the integer those digits spell (`num * 10 + d` per digit) |
| Scanner.FractionRun | Calculator/Calculator.cpp:267-283 | after the point and k more digits, `num` is the integer part plus the fraction, and `decimalPlace` is `10^k` |
| Scanner.ScanWithoutPoint | Calculator/Calculator.cpp:450-474 | a run without a point scans to the integer it spells and ends where the run ends |
| Scanner.ScanWithOnePoint | Calculator/Calculator.cpp:450-474 | a run with one point scans to the whole part plus the fractional part |
| Scanner.PointAfterPoint | Calculator/Calculator.cpp:267-273 | once a point has been seen, a further point in the run aborts with `MultipleDecimalPoints` |
| Scanner.ScanFailsOnSecondPoint | Calculator/Calculator.cpp:267-273 | any run containing two points fails with `MultipleDecimalPoints` |
| Scanner.ScanWholePart | Calculator/Calculator.cpp:279-287 | a literal's value lies between its whole part and the next integer: the fraction never carries |
| Scanner.DecimalRoundTrip | Calculator/Calculator.cpp:286 | reading the decimal numeral of `n` digit by digit gives back `n` |
| Scanner.ScanDecimal | Calculator/Calculator.cpp:444-474 | a numeral followed by a non-literal character scans to its value and stops right after it |
| Lexer.Classify | Calculator/Calculator.cpp:246-491 | the chosen branch scans from a position at or after `i`, and one that scans from `i` itself starts on a literal character |
| Lexer.ClassifyFacts | Calculator/Calculator.cpp:481-491 | an operator branch never stores `!`, and the invalid-character branch is taken exactly where no branch recognises the character |
| Lexer.ApplyUnary | Calculator/Calculator.cpp:223-476 | the value each operand branch stores (lines 293, 310, 352, 395, 439, 475) for a scanned number is an error only for `tan` (undefined tangent) or `ln` (logarithm domain). In particular `performExpFunction` (223-236) has no error case: the `exp` branch always stores a value |
| Lexer.MinusAfter | Calculator/Calculator.cpp:292-476 | after an operand the sign flag is cleared (lines 294, 353, 396, 440, 476). Only the factorial branch as written can leave it set, and then only if it was set before |
| Lexer.LexStep | Calculator/Calculator.cpp:246-491 | one pass moves forward within the line and only appends to both buffers. A stop stores nothing and is a failure |
| Lexer.StepFacts | Calculator/Calculator.cpp:246-491 | each pass moves forward within the line and appends at most one operand or one binary operator. A space is skipped with nothing stored. After an operator the sign flag is set. After an operand it is cleared, except after `!` as written. A stop is always a failure that stores nothing more: an invalid character exactly where no branch recognises it, or a capacity failure only when a buffer is full |
| Lexer.Lex | Calculator/Calculator.cpp:244-492 | the loop from any point only appends to what was stored before |
| Lexer.LexShape | Calculator/Calculator.cpp:239-493 | parsing from any point only appends and stores only binary operators. Operands plus operators never exceed the characters read, so a line of at most 100 characters never overflows the buffers |
| Lexer.Parse | Calculator/Calculator.cpp:239-493 | a whole line parsed into a fresh expression holds only binary operators and at most one item per character, so a line of at most 100 characters never fails with a full buffer |
| Lexer.LexRevisionsAgree | Calculator/Calculator.cpp:298-311 | on input without `!`, the factorial branch as written and as corrected parse identically |
| Lexer.LexDomainErrors | Calculator/Calculator.cpp:239-493 | stored operands fail only with the `tan` or `ln` domain errors. A failed parse reports a second decimal point, an invalid character or a full buffer |
| Evaluation.Survivors | Calculator/Calculator.cpp:501-560 | the operators a pass leaves are no more than before, and none of them belongs to the pass's tier |
| Evaluation.Collapse | Calculator/Calculator.cpp:501-560 | a pass removes one operand per removed operator and leaves exactly the surviving operators, in order |
| Evaluation.Reduce | Calculator/Calculator.cpp:501-560 | a pass over a whole expression keeps the operand/operator balance and leaves exactly the survivors |
| Evaluation.Folded | Calculator/Calculator.cpp:506-526 | one fold at `i`: both counts drop by one; everything before `i` is unchanged; operand `i` becomes the step's result; the operands after `i + 1` and the operators after `i` move down one place |
| Evaluation.ReduceFromStart | Calculator/Calculator.cpp:501 | a pass begins at operator 0 with nothing folded |
| Evaluation.ReduceFromFold | Calculator/Calculator.cpp:503-527 | folding an operator of the tier at `i` and looking at `i` again (`i--`) leaves the pass's outcome unchanged |
| Evaluation.ReduceFromSkip | Calculator/Calculator.cpp:501-503 | passing over an operator of another tier leaves the pass's outcome unchanged |
| Evaluation.ReduceFromEnd | Calculator/Calculator.cpp:501 | when the index reaches the operator count, the buffers are the pass's outcome |
| Evaluation.SumStep | Calculator/Calculator.cpp:562-574 | one step of the last loop adds or subtracts the operand for `+` and `-`, passes any other operator over, and keeps an earlier error |
| Evaluation.AddSub | Calculator/Calculator.cpp:562-574 | the last loop keeps an error in the running result to the end |
| Evaluation.EvalSpec | Calculator/Calculator.cpp:496-576 | an expression without operators evaluates to its one operand |
| Evaluation.Tiers | Calculator/Calculator.cpp:501-560 | both folding passes keep the balance between operands and operators |
| Evaluation.CollapseIdentity | Calculator/Calculator.cpp:501-529 | a pass with no operator of its tier changes nothing |
| Evaluation.ReduceIdentity | Calculator/Calculator.cpp:501-529 | the same for a whole expression |
| Evaluation.ReduceIdempotent | Calculator/Calculator.cpp:501-560 | running a pass a second time changes nothing |
| Evaluation.SurvivorsFrom | Calculator/Calculator.cpp:501-560 | every operator left after a pass was there before it |
| Evaluation.TiersLeaveSums | Calculator/Calculator.cpp:501-574 | after both folding passes only `+` and `-` remain, so the last loop skips nothing |
| Evaluation.ChainFoldsLeft | Calculator/Calculator.cpp:527 | a pass whose operators all belong to its tier folds them to the left: `((a op b) op c) ...` |
| Evaluation.RunFoldsLeft | Calculator/Calculator.cpp:501-560 | a run of `k` operators of the pass's tier folds to the left wherever it stands: the pass continues from the run's left fold, so `8/4/2+1` folds `(8/4)/2` before the `+` |
| Evaluation.PowersAssociateLeft | Calculator/Calculator.cpp:501-529 | `a^b^c` is `(a^b)^c` |
| Evaluation.AddSubIsSignedSum | Calculator/Calculator.cpp:562-574 | without errors, the last loop yields `numbers[0]` plus each later operand, signed by the operator before it |
| Evaluation.CollapseKeepsError | Calculator/Calculator.cpp:501-560 | a failed operand never disappears in a folding pass |
| Evaluation.AddSubKeepsError | Calculator/Calculator.cpp:562-574 | a failed operand makes the sum loop fail |
| Evaluation.EvalKeepsError | Calculator/Calculator.cpp:496-576 | one failed operand (such as a stored `ln0`) makes the whole evaluation fail |
| Evaluation.CollapseDomainErrors | Calculator/Calculator.cpp:501-560 | a folding pass introduces no error other than those of the binary step and the unary functions |
| Evaluation.AddSubDomainErrors | Calculator/Calculator.cpp:562-574 | the same for the sum loop |
| Evaluation.EvalDomainErrors | Calculator/Calculator.cpp:496-576 | evaluation reports only errors of single operations |
| Evaluation.CollapseTwo | Calculator/Calculator.cpp:501-560 | a pass over two operators, case by case |
| Evaluation.CollapseOne | Calculator/Calculator.cpp:501-560 | a pass over one operator |
| Evaluation.AddSubTwo | Calculator/Calculator.cpp:562-574 | the sum loop over one or two operators |
| Evaluation.EvalTwo | Calculator/Calculator.cpp:496-576 | `a op b` evaluates to the binary step of `a` and `b` |
| Evaluation.PrecedenceThree | Calculator/Calculator.cpp:496-576 | `a o1 b o2 c` groups right when `o2` binds tighter (`^` over `*`/`/` over `+`/`-`), and groups left otherwise |
| Calculator.Expression.constructor | Calculator/Calculator.cpp:32-42 | a new expression has both counts at zero and fresh buffers of 100 places |
| Calculator.Expression.PushNumber | Calculator/Calculator.cpp:293 | `numbers[numCount++] = v`: stores `v` after the filled operands and leaves the operators alone. It is refused, with nothing changed, exactly when the buffer is full |
| Calculator.Expression.PushOperator | Calculator/Calculator.cpp:483 | `operators[opCount++] = c`: the same for the operator buffer |
| Calculator.ParsePass | Calculator/Calculator.cpp:246-491 | one pass of the parser loop on the buffers does what `LexStep` says: it continues with the new position, sign flag and contents, or stops with the contents and the failure |
| Calculator.ParseInput | Calculator/Calculator.cpp:239-493 | the `while` loop leaves in the buffers, and returns as status, exactly what `Lex` computes from position 0 with the sign flag set |
| Calculator.ShiftNumbers | Calculator/Calculator.cpp:512-515 | `numbers[i+2..numCount)` moves down one place and nothing else changes |
| Calculator.ShiftOperators | Calculator/Calculator.cpp:518-521 | `operators[i+1..opCount)` moves down one place and nothing else changes |
| Calculator.FoldAt | Calculator/Calculator.cpp:506-526 | one fold in place: both counts drop by one, and the buffers hold `Folded` of the old contents |
| Calculator.ReduceTier | Calculator/Calculator.cpp:501-560 | one folding loop, with its `i--` rescan, leaves exactly `Reduce` of the old contents |
| Calculator.SumTier | Calculator/Calculator.cpp:562-574 | the last loop returns the left fold of `+` and `-` from `numbers[0]` and changes nothing |
| Calculator.EvaluateExpression | Calculator/Calculator.cpp:496-576 | the buffers end as both passes of the old contents, and the result is the value of the old contents |
| Calculator.Line | Calculator/Calculator.cpp:634-637 | the 100-character input buffer keeps at most 99 characters: a prefix of the line, and the whole line when it fits |
| Calculator.Calculation | Calculator/Calculator.cpp:651-660 | a line yields a value only when it parsed completely with more operands than operators |
| Calculator.Calculate | Calculator/Calculator.cpp:634-660 | one pass of `main` parses into a fresh expression, with the factorial branch as written or corrected, and evaluates it, with the outcome `Calculation` defines |
| Calculator.CalculationErrors | Calculator/Calculator.cpp:651-660 | the outcome of a line is a value, a second decimal point, an invalid character, a malformed line, or the error of one operation. The buffers never fill up |
| RoundTrip.ClassifyWritten | Calculator/Calculator.cpp:246-478 | a written operand selects the branch of its prefix, and that branch scans right after the prefix |
| RoundTrip.ScanWritten | Calculator/Calculator.cpp:265-289 | the numeral of a written operand scans to its value |
| RoundTrip.StepOperand | Calculator/Calculator.cpp:246-478 | one pass over a written operand stores its value (or its domain error) and moves past it |
| RoundTrip.WrittenStart | Calculator/Calculator.cpp:402-412 | a written operand can continue a numeral from its first character exactly when it is a plain numeral |
| RoundTrip.StepOperator | Calculator/Calculator.cpp:402-487 | one pass over a binary operator stores it and sets the sign flag, unless it is a `-` with the sign flag set and a numeral right after it |
| RoundTrip.SignsReadFrom | Calculator/Calculator.cpp:292-442 | the corrected parser never reads a `-` between operands as a sign; the parser as written does not either when no `!n` operand is directly followed by `-` and a plain numeral |
| RoundTrip.TermSteps | Calculator/Calculator.cpp:402-487 | an operator followed by an operand takes two passes, with either factorial branch: the operator, then the operand in sign position. The sign flag after it is what the operand's branch leaves |
| RoundTrip.LexTerms | Calculator/Calculator.cpp:239-493 | with either factorial branch, reading written terms appends their operands and operators in order and completes at the end of the line |
| RoundTrip.ParseRendered | Calculator/Calculator.cpp:239-493 | parsing a line written from whole-number operands and binary operators gives back exactly those operands' values and those operators, with status complete. This holds always with the corrected factorial branch, and as written when no `!n` is directly followed by `-` and a plain numeral |
| RoundTrip.FactorialMinusAsWritten | Calculator/Calculator.cpp:298-311 | as written, `!n-m` stores the operands `n!` and `-m` and no operator |
| RoundTrip.FactorialMinusCorrected | Calculator/Calculator.cpp:298-311 | with the sign flag cleared after `!`, `!n-m` stores `n!`, `m` and the operator `-` |
| Scenarios.CalculateRendered | Calculator/Calculator.cpp:651-654 | a line written from whole-number numerals that fits the buffer evaluates to the value of the operands and operators it was written from. This holds with either factorial branch, except `!n` directly followed by `-` and a plain numeral as written |
| Scenarios.CalculateThree | Calculator/Calculator.cpp:651-654 | the same for a line `x op1 y op2 z`, with the same exception |
| Scenarios.CalculateTwo | Calculator/Calculator.cpp:651-654 | the same for a line `x op y`: as written, it fails only for `!n-m` |
| Scenarios.ProductBeforeSum | Calculator/Calculator.cpp:496-576 | `2+3*4` is 14, with either factorial branch |
| Scenarios.SubtractionGroupsLeft | Calculator/Calculator.cpp:562-574 | `10-2-3` is 5, with either factorial branch |
| Scenarios.DivisionGroupsLeft | Calculator/Calculator.cpp:532-560 | `8/4/2` is 1, with either factorial branch |
| Scenarios.PowersGroupLeft | Calculator/Calculator.cpp:501-529 | `2^3^2` is `power(power(2, 3), 2)`, with either factorial branch |
| Scenarios.SignedOperands | Calculator/Calculator.cpp:402-442 | `-2*-3` is 6, with either factorial branch: a `-` at the start of the line and one after an operator are signs |
| Scenarios.DivisionByZeroReported | Calculator/Calculator.cpp:89-93 | `1+6/0` reports division by zero, with either factorial branch |
| Scenarios.LogarithmErrorReported | Calculator/Calculator.cpp:206-210 | `ln0+1` reports the logarithm's domain error, with either factorial branch |
| Scenarios.FactorialThenMinusAsWritten | Calculator/Calculator.cpp:298-311 | as written, `!n-m` evaluates to `n!` alone |
| Scenarios.FactorialThenMinusCorrected | Calculator/Calculator.cpp:298-311 | corrected, `!n-m` evaluates to `n! - m` |

## Left out

- Floating point: operands are exact reals. `float` rounding, the accumulation error of `decimalPlace`, and the largest-float marker as an actual number are not modelled. An error is a `Result` value, and arithmetic on a failed operand passes the first error on, where the original would compute with the marker value.
- The assembly routines `squareRoot`, `power`, `trigSin`, `trigCos`, `trigTan`, `performLn`, `exponentiation` and `factorial` are uninterpreted `Backend` fields (`sqrt`, `power`, `sin`, `cos`, `tan`, `ln`, `exp`, `factorial`). Overflow of the 32-bit `int` that `power` and `factorial` return, and the `float` to `int` conversion of values out of range, are not modelled.
- The assembly routines `addition`, `subtraction`, `multiplication` and `division` (called at Calculator/Calculator.cpp:62-95; their code is not part of this model) are taken to be exact real `+`, `-`, `*` and `/`, with `a` as the left operand. `Evaluation.AddSubIsSignedSum` and the numeric scenarios (`2+3*4` is 14, `10-2-3` is 5, `8/4/2` is 1, `-2*-3` is 6) rest on this reading.
- Arithmetic.FMod: C's `fmod` is modelled on exact reals. Its general contract states only that the dividend minus the remainder is a whole multiple of the divisor. The bounds of the remainder are proved only for the divisor 180 (`RemainderBy180`), the only divisor the original uses. The degree-to-radian factor is exactly 3.14159.
- Arithmetic.TrigFunction: a function name other than `sin`/`cos`/`tan` leaves the result uninitialised in the original. The parser never passes one, so the model has no such case.
- Calculator.ParseInput: normal completion falls off the end of the function without a `return` in the original. The model returns the status `Complete`.
- Calculator.Expression.PushNumber, Calculator.Expression.PushOperator: the original writes past the buffers without a check. The model refuses the write and stops parsing with `CapacityExceeded`. `LexShape` shows that this never happens on a line that fits the input buffer.
- Calculator.Calculate: the original evaluates whatever was stored even after a failed parse, and, when there are not more operands than operators, reads operands that are unset, or stale after a fold. The model reports the parse failure, or `Malformed` in the second case. The original prints nothing in the first case. In the second it prints an arbitrary value, or a deterministic wrong one: on `2*-sin30` the `-` after `*` is stored as an operator (lines 402-412), the `*` fold leaves the old `sin30` in `numbers[1]`, and the last loop computes `2*sin30 - sin30`, about 0.5 rather than -1.
- Calculator.Calculate: it takes the factorial branch as a parameter (`Revision`): `AsWritten` is the original, `Corrected` is the fix from the finding below.
- RoundTrip.ParseRendered: written operands are whole-number numerals. Decimal literals such as `2.5` or `sin2.5` are covered by the scanner lemmas (`Scanner.ScanWithOnePoint`), not by the round trip through the whole parser.
- Console I/O: the prompt, the banner, `getConsoleWidth`/`centerText`, the printed error messages, two-decimal output, the `exit` check with its lower-cased copy of the line, and `main`'s loop. Of `cin.getline`, only the truncation to 99 characters is modelled (`Line`), not the stream's fail state on longer lines.

## Findings

| source | as written | input that shows it | evidently intended | confidence | as-written member | corrected member |
|---|---|---|---|---|---|---|
| Calculator/Calculator.cpp:298-311 | the factorial branch stores `n!` but leaves `checkMinus` as it was, unlike every other branch that stores an operand (lines 294, 353, 396, 440, 476) | `!3-1`: at the start of a line `checkMinus` is still true after `!3`, so `-1` is stored as a negative operand with no operator. Evaluation then returns `3!` = 6 and ignores the `-1` | clear `checkMinus` after the factorial, so `!3-1` is `3! - 1` = 5 | not executed | RoundTrip.FactorialMinusAsWritten, Scenarios.FactorialThenMinusAsWritten | RoundTrip.FactorialMinusCorrected, Scenarios.FactorialThenMinusCorrected |
