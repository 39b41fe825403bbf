/** The C++ fixed-width integer types the server uses, and the conversions
    between them that the source performs implicitly. Dafny integers are
    unbounded, so every wrap-around is written out here. */
module Ints {

  const TWO_TO_8: int := 0x100
  const TWO_TO_16: int := 0x1_0000
  const TWO_TO_31: int := 0x8000_0000
  const TWO_TO_32: int := 0x1_0000_0000
  const TWO_TO_64: int := 0x1_0000_0000_0000_0000

  type byte = x: int | 0 <= x < 0x100
  type uint16 = x: int | 0 <= x < 0x1_0000
  type uint32 = x: int | 0 <= x < 0x1_0000_0000
  type uint64 = x: int | 0 <= x < 0x1_0000_0000_0000_0000
  type int8 = x: int | -0x80 <= x < 0x80
  type int32 = x: int | -0x8000_0000 <= x < 0x8000_0000

  /** Conversion of any integer to `uint32_t` (reduction modulo 2^32). */
  function ToUint32(i: int): (r: uint32)
    ensures (r - i) % TWO_TO_32 == 0
  {
    i % TWO_TO_32
  }

  /** Conversion of any integer to `uint64_t` (reduction modulo 2^64). */
  function ToUint64(i: int): (r: uint64)
    ensures (r - i) % TWO_TO_64 == 0
  {
    i % TWO_TO_64
  }

  /** Conversion of a `uint32_t` to `int32_t` (two's complement, as GCC does it). */
  function ToInt32(u: uint32): (r: int32)
    ensures (r - u) % TWO_TO_32 == 0
  {
    if u < TWO_TO_31 then u else u - TWO_TO_32
  }

  /** A signed value taken to `uint32_t` and back is unchanged. */
  lemma Int32RoundTrip(i: int32)
    ensures ToInt32(ToUint32(i)) == i
  {
  }

  /** `char` is signed on the hosts the server targets. */
  function SignedChar(b: byte): (r: int8)
    ensures (r - b) % TWO_TO_8 == 0
  {
    if b < 0x80 then b else b - TWO_TO_8
  }

  // ---------------------------------------------------------------------------
  // Facts about Euclidean division that the solver does not find alone

  lemma ModUnique(y: int, m: int, q: int, r: int)
    requires m > 0 && 0 <= r < m && y == q * m + r
    ensures y % m == r
  {
    var q', r' := y / m, y % m;
    assert y == q' * m + r';
    var d := q - q';
    assert d * m == r' - r;
    MulAwayFromZero(d, m);
  }

  /** A nonzero multiple of `m` is at least `m` away from zero. */
  lemma MulAwayFromZero(d: int, m: int)
    requires m > 0
    ensures d >= 1 ==> d * m >= m
    ensures d <= -1 ==> d * m <= -m
  {
    if d >= 1 {
      assert d * m == m + (d - 1) * m;
    } else if d <= -1 {
      assert d * m == -m + (d + 1) * m;
    }
  }

  lemma ModAddMultiple(k: int, m: int, x: int)
    requires m > 0
    ensures (k * m + x) % m == x % m
  {
    var q, r := x / m, x % m;
    assert x == q * m + r;
    assert k * m + x == (k + q) * m + r;
    ModUnique(k * m + x, m, k + q, r);
  }

  lemma ModAdd(a: int, b: int, m: int)
    requires m > 0
    ensures (a % m + b) % m == (a + b) % m
  {
    assert a + b == (a / m) * m + (a % m + b);
    ModAddMultiple(a / m, m, a % m + b);
  }
}
