/** Shared vocabulary of the viewer models: bytes, optional and failing results,
    the integer and real clamps of .NET's Math.Clamp, and decimal page numbers. */
module Common {

  /** An unsigned 8-bit value, as in .NET's byte[]. */
  newtype byte = x: int | 0 <= x < 256

  /** A nullable reference: None stands for null. */
  datatype Option<+T> = None | Some(value: T)

  /** A call that either returns a value or throws. */
  datatype Result<+T, +E> = Success(value: T) | Failure(error: E)

  function Max(a: int, b: int): (r: int)
    ensures r >= a && r >= b && (r == a || r == b)
  {
    if a >= b then a else b
  }

  /** Math.Clamp(value, min, max) on integers; .NET throws for min > max, which no caller here can cause. */
  function Clamp(value: int, min: int, max: int): (r: int)
    requires min <= max
    ensures min <= r <= max
  {
    if value < min then min else if value > max then max else value
  }

  /** Math.Clamp(value, min, max) on reals (NaN is not modelled). */
  function ClampReal(value: real, min: real, max: real): (r: real)
    requires min <= max
    ensures min <= r <= max
  {
    if value < min then min else if value > max then max else value
  }

  function Distance(a: int, b: int): nat
  {
    if a <= b then b - a else a - b
  }

  /** The clamp picks the point of [min, max] nearest to the value, and leaves a value already inside alone. */
  lemma ClampIsNearest(value: int, min: int, max: int)
    requires min <= max
    ensures min <= value <= max ==> Clamp(value, min, max) == value
    ensures forall y :: min <= y <= max ==> Distance(Clamp(value, min, max), value) <= Distance(y, value)
  {
  }

  /** The clamp every viewer applies to a requested page: Math.Clamp(index, 0, Math.Max(0, count - 1)). */
  function PageClamp(requested: int, count: int): (r: int)
    ensures r >= 0
  {
    Clamp(requested, 0, Max(0, count - 1))
  }

  /** A clamped page is a valid index whenever the document has pages, page 0 otherwise,
      and a valid request is kept as it is. */
  lemma PageClampInRange(requested: int, count: int)
    ensures count > 0 ==> 0 <= PageClamp(requested, count) < count
    ensures count <= 0 ==> PageClamp(requested, count) == 0
    ensures 0 <= requested < count ==> PageClamp(requested, count) == requested
    ensures requested < 0 ==> PageClamp(requested, count) == 0
    ensures count > 0 && requested >= count ==> PageClamp(requested, count) == count - 1
  {
  }

  // Decimal text of integers, as C# string interpolation writes an int.

  predicate IsDigit(c: char) { '0' <= c <= '9' }

  function DigitChar(d: int): (c: char)
    requires 0 <= d < 10
    ensures IsDigit(c)
  {
    ['0', '1', '2', '3', '4', '5', '6', '7', '8', '9'][d]
  }

  function DigitValue(c: char): (d: int)
    requires IsDigit(c)
    ensures 0 <= d < 10
  {
    c as int - '0' as int
  }

  /** The shortest decimal numeral of n: digits only, never a leading zero except for 0 itself. */
  function NatToDecimal(n: nat): (s: string)
    ensures |s| >= 1
    ensures forall i :: 0 <= i < |s| ==> IsDigit(s[i])
    ensures s[0] == '0' ==> n == 0
    decreases n
  {
    if n < 10 then [DigitChar(n)] else NatToDecimal(n / 10) + [DigitChar(n % 10)]
  }

  /** The value of a numeral, read from the left. */
  function DecimalValue(s: string): nat
    requires forall i :: 0 <= i < |s| ==> IsDigit(s[i])
    decreases |s|
  {
    if |s| == 0 then 0 else DecimalValue(s[..|s| - 1]) * 10 + DigitValue(s[|s| - 1])
  }

  /** Reading the numeral back gives the number. */
  lemma {:induction false} DecimalRoundTrip(n: nat)
    ensures DecimalValue(NatToDecimal(n)) == n
    decreases n
  {
    var s := NatToDecimal(n);
    if n >= 10 {
      var prefix := NatToDecimal(n / 10);
      assert s == prefix + [DigitChar(n % 10)];
      assert s[..|s| - 1] == prefix;
      DecimalRoundTrip(n / 10);
    }
  }

  /** Decimal text of a signed integer: a minus sign before the numeral of a negative value. */
  function IntToDecimal(n: int): (s: string)
    ensures |s| >= 1
  {
    if n < 0 then "-" + NatToDecimal(-n) else NatToDecimal(n)
  }
}
