/** The guard logic wrapped around the assembly primitives: the binary step
    (`performOperation`), factorial, the trigonometric functions, the natural
    logarithm and the exponential (Calculator/Calculator.cpp, lines 56-236). */
module Arithmetic {
  import opened Types

  /** Approximation of pi used to turn degrees into radians. */
  const PiApprox: real := 3.14159

  /** Whether a real has no fractional part. */
  predicate IsWhole(x: real)
  {
    x.Floor as real == x
  }

  /** C's conversion of a floating value to `int`, which truncates toward zero. */
  function Trunc(x: real): (n: int)
    ensures 0.0 <= x ==> 0 <= n && n as real <= x < n as real + 1.0
    ensures x < 0.0 ==> n <= 0 && n as real - 1.0 < x <= n as real
  {
    if x >= 0.0 then x.Floor else -((-x).Floor)
  }

  /** C's `fmod`: the remainder of a division truncated toward zero, so it
      takes the sign of the dividend. */
  function FMod(x: real, y: real): (r: real)
    requires y != 0.0
    ensures IsWhole((x - r) / y)
  {
    var k := Trunc(x / y) as real;
    assert (y * k) / y == k;
    x - y * k
  }

  /** By the divisor 180 used in the tangent guard, the remainder lies in
      [0, 180) for a non-negative angle and in (-180, 0] for a negative one. */
  lemma RemainderBy180(angle: real)
    ensures 0.0 <= angle ==> 0.0 <= FMod(angle, 180.0) < 180.0
    ensures angle < 0.0 ==> -180.0 < FMod(angle, 180.0) <= 0.0
  {
    var q := angle / 180.0;
    assert angle == 180.0 * q;
  }

  /** Degrees to radians, as the original converts every trigonometric argument. */
  function Radians(angle: real): real
  {
    angle * PiApprox / 180.0
  }

  datatype TrigFn = Sine | Cosine | Tangent

  /** `performTrigFunction`: the angle is in degrees; the tangent is refused
      where the remainder of the angle by 180 is exactly 90. */
  function TrigFunction(angle: real, f: TrigFn, be: Backend): (r: Result<real>)
    ensures r.Err? <==> f == Tangent && FMod(angle, 180.0) == 90.0
    ensures r.Err? ==> r.error == TangentUndefined
    ensures r.Ok? ==> r.value == (match f
                                  case Sine => be.sin(Radians(angle))
                                  case Cosine => be.cos(Radians(angle))
                                  case Tangent => be.tan(Radians(angle)))
  {
    match f
    case Sine => Ok(be.sin(Radians(angle)))
    case Cosine => Ok(be.cos(Radians(angle)))
    case Tangent =>
      if FMod(angle, 180.0) == 90.0 then Err(TangentUndefined)
      else Ok(be.tan(Radians(angle)))
  }

  /** The tangent guard fires exactly at the angles 90, 270, 450, ... degrees:
      never at a negative angle, because C's `fmod` keeps the dividend's sign. */
  lemma TangentAsymptotes(angle: real, be: Backend)
    ensures TrigFunction(angle, Tangent, be).Err?
        <==> 90.0 <= angle && IsWhole((angle - 90.0) / 180.0)
  {
    var q := Trunc(angle / 180.0);
    if TrigFunction(angle, Tangent, be).Err? {
      assert FMod(angle, 180.0) == 90.0;
      assert angle == 180.0 * q as real + 90.0;
      assert (angle - 90.0) / 180.0 == q as real;
    }
    if 90.0 <= angle && IsWhole((angle - 90.0) / 180.0) {
      var k := ((angle - 90.0) / 180.0).Floor;
      assert angle == 180.0 * k as real + 90.0;
      assert angle / 180.0 == k as real + 0.5;
      assert q == k;
    }
  }

  /** `performLnFunction`: the logarithm is refused for non-positive arguments. */
  function LnFunction(x: real, be: Backend): (r: Result<real>)
    ensures r.Err? <==> x <= 0.0
    ensures r.Err? ==> r.error == LogarithmDomain
    ensures r.Ok? ==> r.value == be.ln(x)
  {
    if x <= 0.0 then Err(LogarithmDomain) else Ok(be.ln(x))
  }

  /** `performFactorial`: the argument is truncated to an integer first. */
  function Factorial(x: real, be: Backend): (r: real)
    ensures 0.0 <= x ==> r == be.factorial(x.Floor) as real
    ensures -1.0 < x < 1.0 ==> r == be.factorial(0) as real
  {
    be.factorial(Trunc(x)) as real
  }

  /** Only the whole part of a factorial's argument matters. */
  lemma FactorialIgnoresFraction(n: nat, frac: real, be: Backend)
    requires 0.0 <= frac < 1.0
    ensures Factorial(n as real + frac, be) == Factorial(n as real, be) == be.factorial(n) as real
  {
    assert Trunc(n as real + frac) == n;
  }

  /** `performOperation`: one binary step. Division by zero and the square
      root of a negative number are refused; an exponent of exactly 0.5 means
      square root, every other power works on the truncated base and exponent;
      an unknown operator yields 0. */
  function Apply(a: real, b: real, op: char, be: Backend): (r: Result<real>)
    ensures r.Err? <==> (op == '/' && b == 0.0) || (op == '^' && b == 0.5 && a < 0.0)
    ensures r.Err? ==> r.error == (if op == '/' then DivisionByZero else NegativeSquareRoot)
    ensures op == '+' ==> r == Ok(a + b)
    ensures op == '-' ==> r == Ok(a - b)
    ensures op == '*' ==> r == Ok(a * b)
    ensures op == '/' && r.Ok? ==> r.value * b == a
    ensures op == '^' && b == 0.5 && r.Ok? ==> r.value == be.sqrt(a)
    ensures op == '^' && b != 0.5 ==> r == Ok(be.power(Trunc(a), Trunc(b)) as real)
    ensures !IsBinaryOperator(op) ==> r == Ok(0.0)
  {
    match op
    case '+' => Ok(a + b)
    case '-' => Ok(a - b)
    case '*' => Ok(a * b)
    case '/' => if b == 0.0 then Err(DivisionByZero) else Ok(a / b)
    case '^' =>
      if b == 0.5 then
        if a < 0.0 then Err(NegativeSquareRoot) else Ok(be.sqrt(a))
      else
        Ok(be.power(Trunc(a), Trunc(b)) as real)
    case _ => Ok(0.0)
  }

  /** A binary step on operands that may already hold an error: the first
      error met, left operand first, is passed on unchanged. */
  function Combine(x: Result<real>, y: Result<real>, op: char, be: Backend): (r: Result<real>)
    ensures x.Err? ==> r == x
    ensures x.Ok? && y.Err? ==> r == y
    ensures x.Ok? && y.Ok? ==> r == Apply(x.value, y.value, op, be)
  {
    if x.Err? then x
    else if y.Err? then y
    else Apply(x.value, y.value, op, be)
  }
}
