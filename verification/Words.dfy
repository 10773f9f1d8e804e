/** Fixed-width unsigned arithmetic of the driver's C code. */
module Words {
  const UINT_MAX := 0xFFFF_FFFF
  const WORD := 0x1_0000_0000
  const LONG := 0x1_0000_0000_0000_0000

  type u8 = x: int | 0 <= x < 0x100
  type u16 = x: int | 0 <= x < 0x1_0000
  type u32 = x: int | 0 <= x < 0x1_0000_0000

  /** n zero bytes, as memset leaves them. */
  function Zeros(n: nat): (z: seq<u8>)
    ensures |z| == n && forall i :: 0 <= i < n ==> z[i] == 0
  {
    if n == 0 then [] else Zeros(n - 1) + [0]
  }

  /** The value a C expression has once stored in an unsigned word of that width. */
  function U8(x: int): u8 { x % 0x100 }

  function U16(x: int): u16 { x % 0x1_0000 }

  function U32(x: int): u32 { x % 0x1_0000_0000 }

  /** The kernel's `abs` on a 32-bit word: the word is read as a signed integer first. */
  function AbsInt32(x: u32): u32 {
    if x < 0x8000_0000 then x else 0x1_0000_0000 - x
  }

  function Abs(x: int): nat { if x < 0 then -x else x }

  function Min(x: int, y: int): int { if x < y then x else y }

  function Max(x: int, y: int): int { if x < y then y else x }

  /** C division truncates towards zero. */
  function TruncDiv(x: int, y: int): int
    requires y > 0
  {
    if x < 0 then -(-x / y) else x / y
  }

  lemma FitsU32(x: int)
    requires 0 <= x <= UINT_MAX
    ensures U32(x) == x
  {
  }

  lemma WrapsU32(x: int)
    requires -UINT_MAX <= x < 0
    ensures U32(x) == x + UINT_MAX + 1
  {
  }

  /** Cutting to 32 bits may be postponed across additions. */
  lemma U32Sum(x: int, y: int)
    ensures U32(U32(x) + y) == U32(x + y)
  {
  }

  lemma AbsDifference(x: int, y: int)
    requires -0x8000_0000 < x - y < 0x8000_0000
    ensures AbsInt32(U32(x - y)) == Abs(x - y)
  {
  }

  lemma ProductPositive(x: nat, y: nat)
    requires x > 0 && y > 0
    ensures x * y > 0
  {
  }

  lemma ProductNatural(x: nat, y: nat)
    ensures x * y >= 0
  {
  }

  lemma MulMonotone(x: int, y: int, b: nat)
    requires x <= y
    ensures x * b <= y * b
  {
    assert (y - x) * b >= 0;
  }

  lemma NextMultiple(x: int, b: int)
    ensures (x + 1) * b == x * b + b
  {
  }

  /** The quotient of a by b, pinned down by multiplication alone. */
  lemma QuotientBounds(a: nat, b: nat)
    requires b > 0
    ensures (a / b) * b <= a < (a / b + 1) * b
  {
    assert a == b * (a / b) + a % b;
  }

  /** A quotient is at most q exactly when the dividend is below (q + 1) times the divisor. */
  lemma QuotientAtMost(a: nat, b: nat, q: nat)
    requires b > 0
    ensures a / b <= q <==> a < (q + 1) * b
  {
    QuotientBounds(a, b);
    var d := a / b;
    if d <= q {
      MulMonotone(d + 1, q + 1, b);
    } else {
      MulMonotone(q + 1, d, b);
    }
  }

  lemma QuotientAtLeast(a: nat, b: nat, q: nat)
    requires b > 0
    ensures a / b >= q <==> q * b <= a
  {
    QuotientBounds(a, b);
    var d := a / b;
    if q <= d {
      MulMonotone(q, d, b);
    } else {
      MulMonotone(d + 1, q, b);
    }
  }

  /** Reading back the two parts of a positional value. */
  lemma Digits(high: nat, low: nat, b: nat)
    requires low < b
    ensures (high * b + low) / b == high && (high * b + low) % b == low
  {
    var a := high * b + low;
    assert (high + 1) * b == high * b + b;
    QuotientAtMost(a, b, high);
    QuotientAtLeast(a, b, high);
    assert a == b * (a / b) + a % b;
  }
}
