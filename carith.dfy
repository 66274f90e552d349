// C++ integer arithmetic that Dafny's own operators do not match:
// `/` and `%` on signed integers truncate toward zero in C++, while Dafny's
// are Euclidean, and unsigned 32-bit arithmetic wraps modulo 2^32.
module CArith {
  const TWO32: int := 0x1_0000_0000
  const TWO31: int := 0x8000_0000

  type u32 = x: int | 0 <= x < 0x1_0000_0000
  type i32 = x: int | -0x8000_0000 <= x < 0x8000_0000

  function Abs(x: int): (r: nat)
    ensures r == x || r == -x
  {
    if x < 0 then -x else x
  }

  /** Reduction of an unbounded result to `unsigned int`. */
  function Wrap32(x: int): (r: u32)
    ensures exists q :: x == TWO32 * q + r
  {
    assert x == TWO32 * (x / TWO32) + x % TWO32;
    x % TWO32
  }

  /** C++ `a / b`: the quotient rounded toward zero. */
  function TruncDiv(a: int, b: int): (q: int)
    requires b != 0
    ensures Abs(a - b * q) < Abs(b)
    ensures a - b * q == 0 || (a - b * q > 0 <==> a > 0)
  {
    if a >= 0 && b > 0 then a / b
    else if a >= 0 then -(a / -b)
    else if b > 0 then -((-a) / b)
    else (-a) / (-b)
  }

  /** C++ `a % b`: the remainder that goes with `TruncDiv`, carrying the sign of `a`. */
  function TruncMod(a: int, b: int): (m: int)
    requires b != 0
    ensures a == b * TruncDiv(a, b) + m
    ensures Abs(m) < Abs(b)
    ensures m == 0 || (m > 0 <==> a > 0)
  {
    a - b * TruncDiv(a, b)
  }

  /** On a non-negative dividend and a positive divisor the C++ and Dafny operators agree. */
  lemma TruncAgrees(a: int, b: int)
    requires a >= 0 && b > 0
    ensures TruncDiv(a, b) == a / b && TruncMod(a, b) == a % b
  {
  }


  lemma MulAtLeast(d: int, k: int)
    requires d > 0 && k >= 1
    ensures d * k >= d
  {
  }

  /** Quotient and remainder are determined by the division identity. */
  lemma ModUnique(x: int, d: int, q: int, r: int)
    requires d > 0 && 0 <= r < d && x == d * q + r
    ensures x / d == q && x % d == r
  {
    var q0, r0 := x / d, x % d;
    assert x == d * q0 + r0;
    assert d * (q - q0) == r0 - r;
    if q > q0 { MulAtLeast(d, q - q0); assert false; }
    if q < q0 { MulAtLeast(d, q0 - q); assert false; }
  }

  /** The element-wise binary operators of the vector containers, on integer elements. */
  datatype BinOp = Add | Sub | Mul | Div | Mod | LogicalAnd | LogicalOr | Eq | Ne | Lt | Le | Gt | Ge

  /** C++'s conversion of a `bool` back to the element type. */
  function BoolInt(b: bool): (r: int)
    ensures r == 1 || r == 0
    ensures r == 1 <==> b
  {
    if b then 1 else 0
  }

  /**
   * `x op y` in C++ on integer elements: division and remainder truncate,
   * and a comparison or logical result is the `bool` stored back as 0 or 1.
   * Division and remainder by 0 are undefined in C++, so the divisor must
   * be nonzero for them.
   */
  function Apply(op: BinOp, x: int, y: int): (r: int)
    requires op == Div || op == Mod ==> y != 0
    ensures op == Add ==> r - y == x
    ensures op == Sub ==> r + y == x
    ensures op == Mul ==> r == x * y
    // the quotient rounds toward zero: what it leaves over is smaller than
    // the divisor and carries the dividend's sign
    ensures op == Div ==> Abs(x - y * r) < Abs(y) && (x - y * r == 0 || (x - y * r > 0 <==> x > 0))
    ensures op == Mod ==> x == y * TruncDiv(x, y) + r && Abs(r) < Abs(y) && (r == 0 || (r > 0 <==> x > 0))
    ensures op.LogicalAnd? || op.LogicalOr? || op.Eq? || op.Ne? || op.Lt? || op.Le? || op.Gt? || op.Ge? ==> 0 <= r <= 1
    ensures op == LogicalAnd ==> (r == 1 <==> x != 0 && y != 0)
    ensures op == LogicalOr ==> (r == 1 <==> x != 0 || y != 0)
    ensures op == Eq ==> (r == 1 <==> x == y)
    ensures op == Ne ==> (r == 1 <==> x != y)
    ensures op == Lt ==> (r == 1 <==> x < y)
    ensures op == Le ==> (r == 1 <==> x <= y)
    ensures op == Gt ==> (r == 1 <==> x > y)
    ensures op == Ge ==> (r == 1 <==> x >= y)
  {
    match op
    case Add => x + y
    case Sub => x - y
    case Mul => x * y
    case Div => TruncDiv(x, y)
    case Mod => TruncMod(x, y)
    case LogicalAnd => BoolInt(x != 0 && y != 0)
    case LogicalOr => BoolInt(x != 0 || y != 0)
    case Eq => BoolInt(x == y)
    case Ne => BoolInt(x != y)
    case Lt => BoolInt(x < y)
    case Le => BoolInt(x <= y)
    case Gt => BoolInt(x > y)
    case Ge => BoolInt(x >= y)
  }
}
