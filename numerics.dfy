/**
 The JVM integer and rounding operations the fireworks engine relies on,
 written out over Dafny's unbounded integers and reals.
 */
module Numerics {

  const TWO_31: int := 0x8000_0000
  const TWO_32: int := 0x1_0000_0000

  /** The range of a Kotlin `Int`. */
  predicate InInt32(x: int) {
    -TWO_31 <= x < TWO_31
  }

  /** A Kotlin `Int`: a 32-bit two's-complement integer. */
  type Int32 = x: int | InInt32(x)

  /** Two's-complement wrap-around of an unbounded integer into an `Int`. */
  function Wrap32(x: int): (r: Int32)
    ensures (x - r) % TWO_32 == 0
    ensures InInt32(x) ==> r == x
    ensures TWO_31 <= x < TWO_32 + TWO_31 ==> r == x - TWO_32
    ensures -TWO_32 - TWO_31 <= x < -TWO_31 ==> r == x + TWO_32
  {
    (x + TWO_31) % TWO_32 - TWO_31
  }

  /** Kotlin `a - b` on `Int`. */
  function Sub32(a: Int32, b: Int32): (r: Int32)
    ensures InInt32(a - b) ==> r == a - b
    ensures (r - (a - b)) % TWO_32 == 0
  {
    Wrap32(a - b)
  }

  /** Kotlin `a + b` on `Int`. */
  function Add32(a: Int32, b: Int32): (r: Int32)
    ensures InInt32(a + b) ==> r == a + b
    ensures (r - (a + b)) % TWO_32 == 0
  {
    Wrap32(a + b)
  }

  /** Kotlin `a * b` on `Int`. */
  function Mul32(a: Int32, b: Int32): (r: Int32)
    ensures InInt32(a * b) ==> r == a * b
    ensures (r - (a * b)) % TWO_32 == 0
  {
    Wrap32(a * b)
  }

  /** Euclidean division of a natural number by a positive divisor. */
  lemma DivBounds(n: nat, b: int)
    requires b > 0
    ensures 0 <= n / b <= n
    ensures (n / b) * b <= n < (n / b) * b + b
  {
    var d := n / b;
    assert n == d * b + n % b;
    MulMono(1, b, d);
  }

  /** Multiplying by a natural number is monotonic. */
  lemma {:induction false} MulMono(a: nat, b: nat, c: nat)
    requires a <= b
    ensures a * c <= b * c
    decreases b - a
  {
    if a < b {
      MulMono(a + 1, b, c);
      assert (a + 1) * c == a * c + c;
    }
  }

  /**
   Kotlin `a / b` on `Int` for a positive divisor: the quotient is truncated
   toward zero, unlike Dafny's Euclidean `/`.
   */
  function Quot(a: Int32, b: int): (q: Int32)
    requires b > 0
    ensures a >= 0 ==> 0 <= q && q * b <= a < q * b + b
    ensures a < 0 ==> q <= 0 && q * b - b < a <= q * b
  {
    assert InInt32(a);
    var n: nat := if a >= 0 then a as int else -(a as int);
    DivBounds(n, b);
    var d := n / b;
    assert (-d) * b == -(d * b);
    if a >= 0 then d else -d
  }

  /**
   Kotlin `Double.roundToLong()`: the nearest integer, ties rounded toward
   positive infinity.
   */
  function RoundToLong(x: real): (r: int)
    ensures r as real - 0.5 <= x < r as real + 0.5
  {
    (x + 0.5).Floor
  }

  /** A stream of `Math.random()` results: each lies in [0, 1). */
  predicate UnitDraws(us: seq<real>) {
    forall k :: 0 <= k < |us| ==> 0.0 <= us[k] < 1.0
  }

  /**
   `(Math.random() * span).roundToLong()` for a draw `u` of `Math.random()`:
   a whole number of milliseconds between 0 and `span`, both included.
   */
  function Draw(u: real, span: nat): (r: int)
    requires 0.0 <= u < 1.0
    ensures 0 <= r <= span
  {
    assert 0.0 <= u * span as real <= span as real;
    RoundToLong(u * span as real)
  }

}
