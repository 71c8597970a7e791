/** Shared vocabulary of the calculator model: error kinds, results, the
    numeric primitives the core borrows from the assembly back end, and the
    flat operand/operator form that an input line is parsed into. */
module Types {

  /** Capacity of the operand buffer and of the operator buffer of one expression. */
  const MaxSize: nat := 100

  /** Every reason a line fails. The first four are domain errors of single
      operations, the next two syntax errors of the parser, then a full buffer
      and a parsed line whose operands and operators do not interleave. */
  datatype Error =
    | DivisionByZero
    | NegativeSquareRoot
    | TangentUndefined
    | LogarithmDomain
    | MultipleDecimalPoints
    | InvalidCharacter
    | CapacityExceeded
    | Malformed

  /** The errors of single operations, as opposed to failures of parsing. */
  predicate IsDomainError(e: Error)
  {
    e == DivisionByZero || e == NegativeSquareRoot || e == TangentUndefined || e == LogarithmDomain
  }

  /** Replaces the sentinel value 3.402823466e+38f of the original. */
  datatype Result<+T> = Ok(value: T) | Err(error: Error)

  /** The numeric primitives implemented in assembly. They are opaque to the
      core, so the model takes them as a parameter. */
  datatype Backend = Backend(
    sqrt: real -> real,
    power: (int, int) -> int,
    sin: real -> real,
    cos: real -> real,
    tan: real -> real,
    ln: real -> real,
    exp: real -> real,
    factorial: int -> int)

  /** The parallel operand and operator sequences of an expression. An operand
      that failed (a domain error of a unary function) is kept as an `Err`. */
  datatype Flat = Flat(nums: seq<Result<real>>, ops: seq<char>)

  /** The operators an expression can hold between two operands. */
  predicate IsBinaryOperator(c: char)
  {
    c == '+' || c == '-' || c == '*' || c == '/' || c == '^'
  }

  /** Every failed operand failed in a single operation. */
  predicate DomainErrorsOnly(nums: seq<Result<real>>)
  {
    forall k :: 0 <= k < |nums| && nums[k].Err? ==> IsDomainError(nums[k].error)
  }
}
