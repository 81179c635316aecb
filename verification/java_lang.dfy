/** The parts of the Java language and runtime the model relies on: the
    exceptions the stream and suite code can raise, Java's truncating integer
    division, and single bits as the streams hand them out. */
module JavaLang {

  /** The runtime exceptions the modelled code raises or lets escape. */
  datatype Exception =
    | IndexOutOfBounds        // ByteBuffer index or ByteBuffer.wrap bounds
    | ArrayIndexOutOfBounds   // plain Java array index
    | ClassCast               // sub-stream target of the wrong class
    | NullPointer             // dereferencing a null array or stream
    | DataFormat              // malformed hexadecimal string
    | OutOfMemory             // Copy between streams of different lengths
    | IllegalArgument         // ByteBuffer.limit outside [0, capacity]
    | Arithmetic              // integer division by zero
    | NegativeArraySize       // `new byte[n]` with n < 0

  datatype Option<+T> = None | Some(value: T)

  /** A computation that either yields a value or throws. */
  datatype Result<+T> = Ok(value: T) | Err(exc: Exception) {
    predicate IsFailure() { Err? }

    function PropagateFailure<U>(): Result<U>
      requires Err?
    {
      Err(exc)
    }

    function Extract(): T
      requires Ok?
    {
      value
    }
  }

  /** One bit, as returned by GetBitPosition: the byte value 0 or 1. */
  type Bit = b: int | 0 <= b <= 1

  function Abs(x: int): (r: int)
    ensures r >= 0 && (r == x || r == -x)
  {
    if x < 0 then -x else x
  }

  /** Java `a / b` on int: the quotient rounded toward zero. */
  function Div(a: int, b: int): (q: int)
    requires b != 0
    ensures Abs(q) * Abs(b) <= Abs(a) < (Abs(q) + 1) * Abs(b)
    ensures q != 0 ==> ((q > 0) <==> ((a > 0) == (b > 0)))
  {
    var m := Abs(a) / Abs(b);
    EuclidBounds(Abs(a), Abs(b));
    if (a < 0) != (b < 0) then -m else m
  }

  lemma EuclidBounds(x: int, y: int)
    requires 0 <= x && 0 < y
    ensures (x / y) * y <= x < (x / y + 1) * y
    ensures x / y >= 0
  {
    assert x == (x / y) * y + x % y;
  }

  /** Java `a % b` on int: the remainder takes the sign of the dividend. */
  function Rem(a: int, b: int): (r: int)
    requires b != 0
    ensures a == b * Div(a, b) + r
    ensures 0 <= a ==> 0 <= r < Abs(b)
    ensures a < 0 ==> -Abs(b) < r <= 0
  {
    var m := Abs(a) % Abs(b);
    if a < 0 then -m else m
  }

  /** Java division agrees with Dafny's Euclidean division on a non-negative
      dividend and a positive divisor. */
  lemma DivAgreesOnNaturals(a: int, b: int)
    requires 0 <= a && 0 < b
    ensures Div(a, b) == a / b && Rem(a, b) == a % b
  {
  }

  /** Quotient and remainder are the only pair that rebuilds the dividend. */
  lemma DivModUnique(a: int, c: int, q: int, r: int)
    requires c > 0 && a == c * q + r && 0 <= r < c
    ensures a % c == r && a / c == q
  {
    var t := q - a / c;
    assert c * t == c * q - c * (a / c);
    assert c * t == a % c - r;
  }

  function Pow2(k: nat): (p: nat)
    ensures p >= 1
  {
    if k == 0 then 1 else 2 * Pow2(k - 1)
  }

  lemma {:induction false} Pow2Monotone(j: nat, k: nat)
    requires j <= k
    ensures Pow2(j) <= Pow2(k)
    decreases k
  {
    if j < k {
      Pow2Monotone(j, k - 1);
    }
  }

  lemma {:induction false} Pow2Add(j: nat, k: nat)
    ensures Pow2(j + k) == Pow2(j) * Pow2(k)
    decreases k
  {
    if k > 0 {
      Pow2Add(j, k - 1);
      assert Pow2(j + k) == 2 * Pow2(j + k - 1);
    }
  }
}
