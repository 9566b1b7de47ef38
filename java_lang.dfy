/** The parts of Java's semantics the model depends on: the exceptions the
    library raises, 32-bit `int` arithmetic where it can wrap, integer
    division and remainder (which truncate toward zero) and `Math.round`. */
module JavaLang {

  /** The exceptions the containers and the pipeline can raise. */
  datatype Exception =
    | IllegalArgument      // java.lang.IllegalArgumentException
    | IndexOutOfBounds     // java.lang.(Array)IndexOutOfBoundsException
    | NegativeArraySize    // java.lang.NegativeArraySizeException
    | Arithmetic           // java.lang.ArithmeticException (integer division by zero)
    | NullPointer          // java.lang.NullPointerException

  /** The result of a Java method that returns a value or throws. */
  datatype Result<+T> = Ok(value: T) | Err(exc: Exception)

  /** The result of a `void` Java method: it completes normally or throws. */
  datatype Outcome = Pass | Fail(exc: Exception)

  const MIN_INT: int := -0x8000_0000
  const MAX_INT: int := 0x7fff_ffff

  /** Java's `int`. */
  type Int32 = x: int | -0x8000_0000 <= x <= 0x7fff_ffff

  /** The 32-bit two's-complement value Java stores for the mathematical
      value `n`: `n` itself when it fits, otherwise `n` moved by multiples of
      2^32 into range. */
  function Wrap32(n: int): (r: Int32)
    ensures MIN_INT <= n <= MAX_INT ==> r == n
    ensures MAX_INT < n <= MAX_INT + 0x1_0000_0000 ==> r == n - 0x1_0000_0000
    ensures MIN_INT - 0x1_0000_0000 <= n < MIN_INT ==> r == n + 0x1_0000_0000
    decreases if n > MAX_INT then n else if n < MIN_INT then -n else 0
  {
    if n > MAX_INT then Wrap32(n - 0x1_0000_0000)
    else if n < MIN_INT then Wrap32(n + 0x1_0000_0000)
    else n
  }

  function Abs(n: int): nat { if n < 0 then -n else n }

  function Min(a: int, b: int): int { if a < b then a else b }

  function Max(a: int, b: int): int { if a < b then b else a }

  /** Java's `a / b` on `int`: the quotient truncated toward zero. */
  function JavaDiv(a: int, b: int): (q: int)
    requires b != 0
    ensures a >= 0 && b > 0 ==> q == a / b
    ensures a < 0 && b > 0 ==> q == -((-a) / b)
  {
    var q := Abs(a) / Abs(b);
    if (a < 0) != (b < 0) then -q else q
  }

  /** Java's `a % b` on `int`: the remainder takes the sign of `a`. */
  function JavaRem(a: int, b: int): (r: int)
    requires b != 0
    ensures a >= 0 && b > 0 ==> r == a % b
  {
    a - b * JavaDiv(a, b)
  }

  /** Halving an even number is exact, whatever its sign. */
  lemma JavaDivEven(k: int)
    ensures JavaDiv(2 * k, 2) == k
  {
    if k < 0 {
      assert Abs(2 * k) / 2 == -k;
    }
  }

  /** Java's `Math.round(double)`: the nearest integer, ties toward positive
      infinity (floor of x + 0.5). The `(int)` narrowing of its `long` result
      is not modelled. */
  function Round(x: real): int
  {
    (x + 0.5).Floor
  }

  /** `Math.round` gives the nearest integer, a tie going up. */
  lemma RoundNearest(x: real)
    ensures Round(x) as real - 0.5 <= x < Round(x) as real + 0.5
  {
  }

  /** Rounding an integral value returns it. */
  lemma RoundOfInt(n: int)
    ensures Round(n as real) == n
  {
    assert n as real <= n as real + 0.5 < (n + 1) as real;
  }
}
