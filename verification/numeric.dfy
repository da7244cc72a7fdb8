/** Fixed-width integer types of the JVM and the arithmetic the codecs rely on. */
module Numeric {

  /** One octet on the wire, as an unsigned value. Kotlin's signed `Byte` is
      modelled by explicit sign extension wherever the source widens one. */
  type byte = b: int | 0 <= b < 0x100

  /** Kotlin `Int`. */
  type int32 = x: int | -0x8000_0000 <= x < 0x8000_0000

  /** Kotlin `UShort`, `ULong` and `Long`. */
  type uint16 = x: int | 0 <= x < 0x1_0000
  type uint64 = x: int | 0 <= x < 0x1_0000_0000_0000_0000
  type int64 = x: int | -0x8000_0000_0000_0000 <= x < 0x8000_0000_0000_0000

  const TWO_32: int := 0x1_0000_0000
  const TWO_64: int := 0x1_0000_0000_0000_0000
  const INT_MAX: int := 0x7FFF_FFFF

  /** Two's-complement truncation to 32 bits (`Long.toInt()`, and the
      wrap-around of `Int` addition and subtraction). */
  function Wrap32(x: int): (r: int32)
    ensures (x - r) % TWO_32 == 0
    ensures -0x8000_0000 <= x < 0x8000_0000 ==> r == x
  {
    var m := x % TWO_32;
    if m >= 0x8000_0000 then m - TWO_32 else m
  }

  /** The 32-bit pattern of an `Int` read as unsigned (`data.toLong() and 0xffffffffL`). */
  function Unsigned32(v: int32): (u: nat)
    ensures u < TWO_32
    ensures (u - v) % TWO_32 == 0
    ensures v < 0 <==> u >= 0x8000_0000
  {
    if v < 0 then v + TWO_32 else v
  }

  lemma Wrap32OfUnsigned(v: int32)
    ensures Wrap32(Unsigned32(v)) == v
  {
  }

  function Pow2(n: nat): (r: nat)
    ensures r >= 1
  {
    if n == 0 then 1 else 2 * Pow2(n - 1)
  }

  lemma {:induction false} Pow2Add(a: nat, b: nat)
    ensures Pow2(a + b) == Pow2(a) * Pow2(b)
    decreases b
  {
    if b > 0 {
      Pow2Add(a, b - 1);
      assert Pow2(a + b) == 2 * Pow2(a + b - 1);
    }
  }

  lemma {:induction false} Pow2Monotonic(a: nat, b: nat)
    requires a <= b
    ensures Pow2(a) <= Pow2(b)
    decreases b - a
  {
    if a < b {
      Pow2Monotonic(a, b - 1);
    }
  }

  /** 2^32, 2^35 and friends, by computation. */
  lemma Pow2Values()
    ensures Pow2(7) == 0x80 && Pow2(8) == 0x100
    ensures Pow2(14) == 0x4000 && Pow2(21) == 0x20_0000 && Pow2(28) == 0x1000_0000
    ensures Pow2(31) == 0x8000_0000 && Pow2(32) == TWO_32 && Pow2(35) == 0x8_0000_0000
  {
    assert Pow2(7) == 0x80;
    assert Pow2(8) == 0x100;
    Pow2Add(7, 7);
    Pow2Add(14, 7);
    Pow2Add(21, 7);
    Pow2Add(28, 3);
    Pow2Add(28, 4);
    Pow2Add(28, 7);
  }

  /** Euclidean division is determined by quotient and remainder. */
  lemma DivModUnique(x: int, d: int, q: int, r: int)
    requires 0 < d && 0 <= r < d && x == d * q + r
    ensures x / d == q && x % d == r
  {
    var q', r' := x / d, x % d;
    assert x == d * q' + r';
    var k := q - q';
    assert d * k == r' - r by {
      assert d * q - d * q' == r' - r;
    }
    if k > 0 {
      MulAtLeast(d, k);
    }
  }

  lemma MulAtLeast(d: nat, k: nat)
    requires k >= 1
    ensures d * k >= d
  {
    assert d * k == d * (k - 1) + d;
  }

  /** Splitting off the lowest base-256 digit commutes with a modulus that is a multiple of 256. */
  lemma ModOfShifted(u: nat, m: nat)
    requires m > 0
    ensures (u / 0x100 % m) * 0x100 + u % 0x100 == u % (0x100 * m)
  {
    var q := u / 0x100;
    var r := u % 0x100;
    var a := q / m;
    var b := q % m;
    assert u == 0x100 * q + r;
    assert q == m * a + b;
    assert u == (0x100 * m) * a + (b * 0x100 + r);
    assert 0 <= b * 0x100 + r < 0x100 * m;
    DivModUnique(u, 0x100 * m, a, b * 0x100 + r);
  }
}
