/** Java's fixed-width integer arithmetic, written out over Dafny's unbounded
    `int`: two's-complement wrap-around for `int` and `long`, and the
    truncating `/` and `%` operators (Dafny's own are Euclidean). */
module JavaInt {

  const IntMin: int := -0x8000_0000
  const IntMax: int := 0x7FFF_FFFF
  const LongMin: int := -0x8000_0000_0000_0000
  const LongMax: int := 0x7FFF_FFFF_FFFF_FFFF

  const IntModulus: int := 0x1_0000_0000
  const LongModulus: int := 0x1_0000_0000_0000_0000

  /** The values a Java `int` can hold. */
  predicate IsInt(x: int) {
    IntMin <= x <= IntMax
  }

  /** The values a Java `long` can hold. */
  predicate IsLong(x: int) {
    LongMin <= x <= LongMax
  }

  /** A value of Java type `int`. */
  type Int32 = x: int | IsInt(x)

  /** A value of Java type `long`. */
  type Int64 = x: int | IsLong(x)

  /** The `int` that a Java `int` operation yields when its exact result is `x`. */
  function WrapInt(x: int): (r: int)
    ensures IsInt(r)
    ensures (x - r) % IntModulus == 0
    ensures r == x <==> IsInt(x)
  {
    var r := (x - IntMin) % IntModulus + IntMin;
    assert x - r == IntModulus * ((x - IntMin) / IntModulus);
    r
  }

  /** The `long` that a Java `long` operation yields when its exact result is `x`. */
  function WrapLong(x: int): (r: int)
    ensures IsLong(r)
    ensures (x - r) % LongModulus == 0
    ensures r == x <==> IsLong(x)
  {
    var r := (x - LongMin) % LongModulus + LongMin;
    assert x - r == LongModulus * ((x - LongMin) / LongModulus);
    r
  }

  /** Java's `a / b` for a positive divisor: the quotient rounded toward zero. */
  function Div(a: int, b: int): (q: int)
    requires b > 0
    ensures 0 <= a ==> 0 <= b * q <= a < b * q + b
    ensures a < 0 ==> a <= b * q <= 0 && b * q < a + b
    ensures 0 <= a ==> q == a / b
  {
    EuclidBounds(if 0 <= a then a else -a, b);
    if 0 <= a then a / b else -((-a) / b)
  }

  /** Euclidean division of a non-negative number, spelled out for the solver. */
  lemma EuclidBounds(n: int, b: int)
    requires 0 <= n && 0 < b
    ensures 0 <= b * (n / b) <= n < b * (n / b) + b
  {
    var q, r := n / b, n % b;
    assert n == b * q + r && 0 <= r < b;
    assert 0 <= q;
  }

  /** Java's `a % b` for a positive divisor: the remainder takes the sign of `a`. */
  function Rem(a: int, b: int): (r: int)
    requires b > 0
    ensures b * Div(a, b) + r == a
    ensures 0 <= a ==> 0 <= r < b && r == a % b
    ensures a < 0 ==> -b < r <= 0
  {
    a - b * Div(a, b)
  }

}
