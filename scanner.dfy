/** Character classes and the number scanner that the parser runs after a
    keyword, after a sign and on a bare literal (Calculator/Calculator.cpp,
    lines 45-53 and the five copies of the digit loop in `parseInput`). */
module Scanner {
  import opened Types

  /** The character at `i`, or the terminating NUL past the end of the line. */
  function At(s: seq<char>, i: nat): char
  {
    if i < |s| then s[i] else '\0'
  }

  /** `isDigit`: the ten decimal digits, none of which is a point, a blank
      or the terminating NUL. */
  predicate IsDigit(c: char): (b: bool)
    ensures b ==> c != '.' && c != ' ' && c != '\0'
  {
    '0' <= c <= '9'
  }

  /** `isOperator`: the binary operators and the factorial marker. */
  predicate IsOperator(c: char): (b: bool)
    ensures b ==> !IsDigit(c) && c != '.' && c != ' ' && c != '\0'
  {
    c == '+' || c == '-' || c == '*' || c == '/' || c == '^' || c == '!'
  }

  /** The two classes written out: `isDigit` accepts exactly the ten decimal
      digits and `isOperator` exactly `+ - * / ^ !`. */
  lemma CharacterClasses(c: char)
    ensures IsDigit(c) <==> c in "0123456789"
    ensures IsOperator(c) <==> c in "+-*/^!"
  {
  }

  /** The characters a number scan consumes: digits, and the decimal point
      unless the scan is the factorial's, which takes digits only. */
  predicate InLiteral(c: char, allowPoint: bool)
  {
    IsDigit(c) || (allowPoint && c == '.')
  }

  /** `c - '0'` for a digit. */
  function DigitOf(c: char): (d: nat)
    ensures d <= 9
  {
    if IsDigit(c) then c as int - '0' as int else 0
  }

  function Pow10(n: nat): (p: nat)
    ensures p >= 1
  {
    if n == 0 then 1 else 10 * Pow10(n - 1)
  }

  /** The integer part of a literal: every digit updates `num` to `num * 10 + d`. */
  function DigitsValue(ds: seq<char>): nat
  {
    if ds == [] then 0 else DigitsValue(ds[..|ds| - 1]) * 10 + DigitOf(ds[|ds| - 1])
  }

  /** The fractional part of a literal: the k-th digit after the point adds
      `d / 10^k`. */
  function FracValue(ds: seq<char>): real
  {
    if ds == [] then 0.0 else FracValue(ds[..|ds| - 1]) + DigitOf(ds[|ds| - 1]) as real / Pow10(|ds|) as real
  }

  /** However many digits follow the point, the fraction stays below 1. */
  lemma {:induction false} FracBound(ds: seq<char>)
    ensures 0.0 <= FracValue(ds) <= 1.0 - 1.0 / Pow10(|ds|) as real
  {
    if ds != [] {
      var n := |ds|;
      FracBound(ds[..n - 1]);
      FracStep(Pow10(n - 1) as real, FracValue(ds[..n - 1]), DigitOf(ds[n - 1]));
    }
  }

  lemma DigitsAppend(ds: seq<char>, c: char)
    ensures DigitsValue(ds + [c]) as real == DigitsValue(ds) as real * 10.0 + DigitOf(c) as real
  {
    assert (ds + [c])[..|ds|] == ds;
  }

  lemma FracAppend(ds: seq<char>, c: char)
    ensures FracValue(ds + [c]) == FracValue(ds) + DigitOf(c) as real / Pow10(|ds| + 1) as real
  {
    assert (ds + [c])[..|ds|] == ds;
  }

  /** Adding one more digit, one place further right, keeps the fraction
      below `1 - 1/10^k`. */
  lemma FracStep(p: real, f: real, d: nat)
    requires p >= 1.0 && d <= 9
    requires 0.0 <= f <= 1.0 - 1.0 / p
    ensures 0.0 <= f + d as real / (10.0 * p) <= 1.0 - 1.0 / (10.0 * p)
  {
    var q := 10.0 * p;
    var u := 1.0 / q;
    assert q * u == 1.0 && u > 0.0;
    assert p * (10.0 * u) == 1.0;
    assert 1.0 / p == 10.0 * u;
    assert d as real / q == d as real * u;
    assert 0.0 <= d as real * u <= 9.0 * u;
    assert f + d as real * u <= 1.0 - u;
  }

  /** The end of the longest run of literal characters starting at `k`. */
  function SpanEnd(s: seq<char>, k: nat, allowPoint: bool): (e: nat)
    requires k <= |s|
    decreases |s| - k
    ensures k <= e <= |s|
  {
    if k < |s| && InLiteral(s[k], allowPoint) then SpanEnd(s, k + 1, allowPoint) else k
  }

  /** The run holds only literal characters, and what follows it is not one. */
  lemma {:induction false} SpanEndFacts(s: seq<char>, k: nat, allowPoint: bool)
    requires k <= |s|
    ensures forall m :: k <= m < SpanEnd(s, k, allowPoint) ==> InLiteral(s[m], allowPoint)
    ensures !InLiteral(At(s, SpanEnd(s, k, allowPoint)), allowPoint)
    decreases |s| - k
  {
    if k < |s| && InLiteral(s[k], allowPoint) {
      SpanEndFacts(s, k + 1, allowPoint);
    }
  }

  /** The number scanned and the position just past it. */
  datatype Literal = Literal(value: real, end: nat)

  /** The digit loop of `parseInput` from position `i`, in the state it keeps:
      whether a point was met, the number so far and the place value of the
      last fractional digit. A digit before the point updates `num` to
      `num * 10 + d`; one after it shrinks the place value tenfold and adds
      `d / decimalPlace`; a second point aborts the scan. */
  function ScanFrom(s: seq<char>, i: nat, allowPoint: bool, decimalFound: bool, num: real, place: real): (r: Result<Literal>)
    requires i <= |s| && place >= 1.0
    decreases |s| - i
    ensures r.Ok? ==> i <= r.value.end <= |s|
    ensures r.Ok? && InLiteral(At(s, i), allowPoint) ==> i < r.value.end
    ensures r.Err? ==> r.error == MultipleDecimalPoints && allowPoint
  {
    if !InLiteral(At(s, i), allowPoint) then Ok(Literal(num, i))
    else if s[i] == '.' then
      if decimalFound then Err(MultipleDecimalPoints)
      else ScanFrom(s, i + 1, allowPoint, true, num, place)
    else if decimalFound then
      ScanFrom(s, i + 1, allowPoint, true, num + DigitOf(s[i]) as real / (place * 10.0), place * 10.0)
    else ScanFrom(s, i + 1, allowPoint, false, num * 10.0 + DigitOf(s[i]) as real, place)
  }

  /** What scanning a number at `start` yields. */
  function Scan(s: seq<char>, start: nat, allowPoint: bool): Result<Literal>
    requires start <= |s|
  {
    ScanFrom(s, start, allowPoint, false, 0.0, 1.0)
  }

  /** The digit loop of `parseInput`, written once. */
  method ScanNumber(s: seq<char>, start: nat, allowPoint: bool) returns (r: Result<Literal>)
    requires start <= |s|
    ensures r == Scan(s, start, allowPoint)
  {
    var i: nat := start;
    var num := 0.0;
    var decimalFound := false;
    var decimalPlace := 1.0;
    while InLiteral(At(s, i), allowPoint)
      invariant i <= |s| && decimalPlace >= 1.0
      invariant ScanFrom(s, i, allowPoint, decimalFound, num, decimalPlace) == Scan(s, start, allowPoint)
      decreases |s| - i
    {
      if s[i] == '.' {
        if decimalFound {
          return Err(MultipleDecimalPoints);
        }
        decimalFound := true;
        i := i + 1;
        continue;
      }
      if decimalFound {
        decimalPlace := decimalPlace * 10.0;
        num := num + DigitOf(s[i]) as real / decimalPlace;
      } else {
        num := num * 10.0 + DigitOf(s[i]) as real;
      }
      i := i + 1;
    }
    r := Ok(Literal(num, i));
  }

  /** A successful scan consumes exactly the run of literal characters. */
  lemma {:induction false} ScanEnd(s: seq<char>, i: nat, allowPoint: bool, decimalFound: bool, num: real, place: real)
    requires i <= |s| && place >= 1.0
    requires ScanFrom(s, i, allowPoint, decimalFound, num, place).Ok?
    ensures ScanFrom(s, i, allowPoint, decimalFound, num, place).value.end == SpanEnd(s, i, allowPoint)
    decreases |s| - i
  {
    if InLiteral(At(s, i), allowPoint) {
      if s[i] == '.' {
        ScanEnd(s, i + 1, allowPoint, true, num, place);
      } else if decimalFound {
        ScanEnd(s, i + 1, allowPoint, true, num + DigitOf(s[i]) as real / (place * 10.0), place * 10.0);
      } else {
        ScanEnd(s, i + 1, allowPoint, false, num * 10.0 + DigitOf(s[i]) as real, place);
      }
    }
  }

  /** Reading the digits of `s[start..j]`, none of them a point, leaves the
      integer they spell in `num`. */
  lemma {:induction false} WholeRun(s: seq<char>, start: nat, j: nat, allowPoint: bool)
    requires start <= j <= |s|
    requires forall m :: start <= m < j ==> IsDigit(s[m])
    ensures Scan(s, start, allowPoint) == ScanFrom(s, j, allowPoint, false, DigitsValue(s[start..j]) as real, 1.0)
    decreases j - start
  {
    if j == start {
      assert s[start..j] == [];
    } else {
      WholeRun(s, start, j - 1, allowPoint);
      var ds := s[start..j - 1];
      ScanWholeDigit(s, j - 1, allowPoint, DigitsValue(ds) as real, 1.0);
      DigitsAppend(ds, s[j - 1]);
      assert s[start..j] == ds + [s[j - 1]];
      assert DigitsValue(s[start..j]) as real == DigitsValue(ds) as real * 10.0 + DigitOf(s[j - 1]) as real;
    }
  }

  /** One digit before the point: `num = num * 10 + d`. */
  lemma ScanWholeDigit(s: seq<char>, i: nat, allowPoint: bool, num: real, place: real)
    requires i < |s| && IsDigit(s[i]) && place >= 1.0
    ensures ScanFrom(s, i, allowPoint, false, num, place)
         == ScanFrom(s, i + 1, allowPoint, false, num * 10.0 + DigitOf(s[i]) as real, place)
  {
  }

  /** One digit after the point: `num += d / (decimalPlace * 10)`. */
  lemma ScanFractionDigit(s: seq<char>, i: nat, num: real, place: real)
    requires i < |s| && IsDigit(s[i]) && place >= 1.0
    ensures ScanFrom(s, i, true, true, num, place)
         == ScanFrom(s, i + 1, true, true, num + DigitOf(s[i]) as real / (place * 10.0), place * 10.0)
  {
  }


  /** Past a point at `p`, reading the digits of `s[p + 1..j]` adds their
      fraction to the integer before the point, with place value
      `10^(j - p - 1)`. */
  lemma {:induction false} FractionRun(s: seq<char>, start: nat, p: nat, j: nat)
    requires start <= p < j <= |s| && s[p] == '.'
    requires forall m :: start <= m < p ==> IsDigit(s[m])
    requires forall m :: p < m < j ==> IsDigit(s[m])
    ensures Scan(s, start, true) == ScanFrom(s, j, true, true,
      DigitsValue(s[start..p]) as real + FracValue(s[p + 1..j]), Pow10(j - p - 1) as real)
    decreases j
  {
    if j == p + 1 {
      WholeRun(s, start, p, true);
      assert s[p + 1..j] == [];
    } else {
      FractionRun(s, start, p, j - 1);
      var fr := s[p + 1..j - 1];
      var place := Pow10(j - p - 2) as real;
      var d := DigitOf(s[j - 1]) as real;
      ScanFractionDigit(s, j - 1, DigitsValue(s[start..p]) as real + FracValue(fr), place);
      assert FracValue(s[p + 1..j]) == FracValue(fr) + d / (place * 10.0) by {
        FracAppend(fr, s[j - 1]);
        assert s[p + 1..j] == fr + [s[j - 1]];
        assert |fr| + 1 == j - p - 1;
        assert Pow10(j - p - 1) as real == place * 10.0;
      }
      assert Pow10(j - p - 1) as real == place * 10.0;
    }
  }

  /** A run without a point scans to the integer its digits spell. */
  lemma ScanWithoutPoint(s: seq<char>, start: nat, allowPoint: bool)
    requires start <= |s|
    requires '.' !in s[start..SpanEnd(s, start, allowPoint)]
    ensures Scan(s, start, allowPoint) == Ok(Literal(
      DigitsValue(s[start..SpanEnd(s, start, allowPoint)]) as real, SpanEnd(s, start, allowPoint)))
  {
    var end := SpanEnd(s, start, allowPoint);
    SpanEndFacts(s, start, allowPoint);
    forall m | start <= m < end ensures IsDigit(s[m]) {
      assert s[m] == s[start..end][m - start];
    }
    WholeRun(s, start, end, allowPoint);
  }

  /** With a single point in the run, the scan reads the digits before it as
      the integer part and those after it as the fraction. */
  lemma ScanWithOnePoint(s: seq<char>, start: nat, point: nat)
    requires start <= |s|
    requires start <= point < SpanEnd(s, start, true)
    requires s[point] == '.'
    requires '.' !in s[start..point] && '.' !in s[point + 1..SpanEnd(s, start, true)]
    ensures Scan(s, start, true) == Ok(Literal(
      DigitsValue(s[start..point]) as real + FracValue(s[point + 1..SpanEnd(s, start, true)]),
      SpanEnd(s, start, true)))
  {
    var end := SpanEnd(s, start, true);
    SpanEndFacts(s, start, true);
    forall m | start <= m < point ensures IsDigit(s[m]) {
      assert s[m] == s[start..point][m - start];
    }
    forall m | point < m < end ensures IsDigit(s[m]) {
      assert s[m] == s[point + 1..end][m - point - 1];
    }
    FractionRun(s, start, point, end);
  }

  /** Past a point, any further point in the run aborts the scan. */
  lemma {:induction false} PointAfterPoint(s: seq<char>, i: nat, num: real, place: real, q: nat)
    requires i <= |s| && place >= 1.0
    requires i <= q < SpanEnd(s, i, true) && s[q] == '.'
    ensures ScanFrom(s, i, true, true, num, place) == Err(MultipleDecimalPoints)
    decreases q - i
  {
    if s[i] != '.' {
      PointAfterPoint(s, i + 1, num + DigitOf(s[i]) as real / (place * 10.0), place * 10.0, q);
    }
  }

  /** Two points in one run of literal characters make the scan fail. */
  lemma {:induction false} ScanFailsOnSecondPoint(s: seq<char>, i: nat, num: real, p: nat, q: nat)
    requires i <= |s|
    requires i <= p < q < SpanEnd(s, i, true)
    requires s[p] == '.' && s[q] == '.'
    ensures ScanFrom(s, i, true, false, num, 1.0) == Err(MultipleDecimalPoints)
    decreases p - i
  {
    if s[i] == '.' {
      PointAfterPoint(s, i + 1, num, 1.0, q);
    } else {
      ScanFailsOnSecondPoint(s, i + 1, num * 10.0 + DigitOf(s[i]) as real, p, q);
    }
  }

  /** A successful scan's value lies between the integer read from the digits
      before the point and the next integer: the fraction never carries. */
  lemma ScanWholePart(s: seq<char>, start: nat, point: nat)
    requires start <= |s|
    requires start <= point < SpanEnd(s, start, true)
    requires s[point] == '.'
    requires '.' !in s[start..point] && '.' !in s[point + 1..SpanEnd(s, start, true)]
    ensures var whole := DigitsValue(s[start..point]) as real;
            && Scan(s, start, true).Ok?
            && whole <= Scan(s, start, true).value.value < whole + 1.0
  {
    ScanWithOnePoint(s, start, point);
    var frac := s[point + 1..SpanEnd(s, start, true)];
    FracBound(frac);
    assert 1.0 / Pow10(|frac|) as real > 0.0;
  }

  /** The decimal numeral of a natural number, without leading zeros. */
  function Decimal(n: nat): (ds: seq<char>)
    ensures |ds| >= 1
  {
    if n < 10 then [('0' as int + n) as char]
    else Decimal(n / 10) + [('0' as int + n % 10) as char]
  }

  /** A numeral is made of digits only. */
  lemma {:induction false} DecimalDigits(n: nat)
    ensures forall k :: 0 <= k < |Decimal(n)| ==> IsDigit(Decimal(n)[k])
  {
    if n >= 10 {
      DecimalDigits(n / 10);
    }
  }

  /** Scanning the numeral of `n` gives back `n`. */
  lemma {:induction false} DecimalRoundTrip(n: nat)
    ensures DigitsValue(Decimal(n)) == n
  {
    if n >= 10 {
      DecimalRoundTrip(n / 10);
      var ds := Decimal(n);
      assert ds[..|ds| - 1] == Decimal(n / 10);
    }
  }

  /** A numeral followed by a character that cannot continue it scans to its
      value, and the scan stops right after it. */
  lemma ScanDecimal(s: seq<char>, start: nat, n: nat, allowPoint: bool)
    requires start + |Decimal(n)| <= |s|
    requires s[start..start + |Decimal(n)|] == Decimal(n)
    requires !InLiteral(At(s, start + |Decimal(n)|), allowPoint)
    ensures Scan(s, start, allowPoint) == Ok(Literal(n as real, start + |Decimal(n)|))
  {
    var ds := Decimal(n);
    var e := start + |ds|;
    DecimalDigits(n);
    forall m | start <= m < e ensures IsDigit(s[m]) {
      assert s[m] == ds[m - start];
    }
    WholeRun(s, start, e, allowPoint);
    DecimalRoundTrip(n);
  }
}
