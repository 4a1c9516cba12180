/**
 The JVM integer semantics the Kotlin code relies on: 32-bit `Int` and 64-bit
 `Long` wrap-around, `/` truncating toward zero, and `java.lang.Long.signum`.
 Dafny integers are unbounded, so each of these is written out.
 */
module JvmInt {

  const TWO_32: int := 0x1_0000_0000
  const TWO_64: int := 0x1_0000_0000_0000_0000

  /** Kotlin `Int`. */
  type Int32 = x: int | -0x8000_0000 <= x < 0x8000_0000

  /** Kotlin `Long`. */
  type Int64 = x: int | -0x8000_0000_0000_0000 <= x < 0x8000_0000_0000_0000

  /** The `Int` that a two's-complement machine keeps of the exact value `x`. */
  function Wrap32(x: int): (r: Int32)
    ensures (x - r) % TWO_32 == 0
    ensures -0x8000_0000 <= x < 0x8000_0000 ==> r == x
  {
    var m := x % TWO_32;
    if m < 0x8000_0000 then m else m - TWO_32
  }

  /** The `Long` that a two's-complement machine keeps of the exact value `x`. */
  function Wrap64(x: int): (r: Int64)
    ensures (x - r) % TWO_64 == 0
    ensures -0x8000_0000_0000_0000 <= x < 0x8000_0000_0000_0000 ==> r == x
  {
    var m := x % TWO_64;
    if m < 0x8000_0000_0000_0000 then m else m - TWO_64
  }

  function Abs(x: int): nat
  {
    if x < 0 then -x else x
  }

  /** Integer quotient rounded toward zero, as the JVM divides (Dafny's `/` is Euclidean). */
  function TruncDiv(a: int, b: int): (q: int)
    requires b != 0
    ensures Abs(a - q * b) < Abs(b)
    ensures a - q * b == 0 || (a - q * b < 0 <==> a < 0)
  {
    if a >= 0 && b > 0 then a / b
    else if a >= 0 then -(a / -b)
    else if b > 0 then -(-a / b)
    else -a / -b
  }

  /** Kotlin `Int` division; only `Int.MIN_VALUE / -1` leaves the range and wraps. */
  function Div32(a: Int32, b: Int32): (q: Int32)
    requires b != 0
    ensures b != -1 ==> q == TruncDiv(a, b)
    ensures b == -1 ==> q == (if a == -0x8000_0000 then a else -a)
  {
    var t := TruncDiv(a, b);
    assert b != -1 ==> -0x8000_0000 <= t < 0x8000_0000 by {
      if b != -1 { DivBound(a, b); }
    }
    Wrap32(t)
  }

  /** Dividing by anything but -1 cannot leave the `Int` range. */
  lemma DivBound(a: Int32, b: Int32)
    requires b != 0 && b != -1
    ensures -0x8000_0000 <= TruncDiv(a, b) < 0x8000_0000
  {
    var x: int, y: int := a, b;
    if y > 0 {
      if x >= 0 { QuotientAtMost(x, y); } else { QuotientAtMost(-x, y); }
    } else {
      if x >= 0 { QuotientAtMost(x, -y); } else { QuotientAtMost(-x, -y); }
    }
  }

  lemma QuotientAtMost(a: nat, b: int)
    requires b >= 1
    ensures 0 <= a / b <= a
    ensures b >= 2 ==> 2 * (a / b) <= a
  {
    var q := a / b;
    assert q * b + a % b == a;
    assert q >= 0;
    ProductAtLeast(q, b - 1);
    if b >= 2 { ProductAtLeast(q, b - 2); }
  }

  lemma ProductAtLeast(q: nat, k: nat)
    ensures q * (k + 1) >= q
    ensures q * (k + 2) >= 2 * q
  {
    assert q * (k + 1) == q * k + q;
    assert q * (k + 2) == q * k + 2 * q;
  }

  /** `java.lang.Long.signum`: -1, 0 or 1 according to the sign of `x`. */
  function Signum(x: int): (s: int)
    ensures s == -1 || s == 0 || s == 1
    ensures s < 0 <==> x < 0
    ensures s == 0 <==> x == 0
  {
    if x < 0 then -1 else if x == 0 then 0 else 1
  }
}
