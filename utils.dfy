/** The pure helpers of utils.cpp: socket-address equality, the strict
    decimal parser used for command-line values, and the port check. */
module Utils {
  import opened Ints
  import opened Wrappers

  // ---------------------------------------------------------------------------
  // operator== on sockaddr_storage

  /** Address family numbers as Linux defines them. */
  const AF_INET: uint16 := 2
  const AF_INET6: uint16 := 10

  type Ipv6Bytes = s: seq<byte> | |s| == 16 witness [0, 0, 0, 0, 0, 0, 0, 0, 0, 0, 0, 0, 0, 0, 0, 0]

  /** The parts of a `sockaddr_storage` the comparison reads: the family, the
      port (at the same offset in `sockaddr_in` and `sockaddr_in6`), and the
      IPv4 or IPv6 address bytes. */
  datatype SockAddr = SockAddr(family: uint16, port: uint16, ipv4: uint32, ipv6: Ipv6Bytes)

  /** `memcmp` over the first `n` bytes: zero exactly when they agree, otherwise
      the sign of the first differing byte. */
  function Memcmp(a: seq<byte>, b: seq<byte>, n: nat): (r: int)
    requires n <= |a| && n <= |b|
    ensures r == 0 <==> a[..n] == b[..n]
  {
    if n == 0 then 0
    else if a[0] < b[0] then -1
    else if a[0] > b[0] then 1
    else
      var rest := Memcmp(a[1..], b[1..], n - 1);
      assert a[..n] == [a[0]] + a[1..][..n - 1];
      assert b[..n] == [b[0]] + b[1..][..n - 1];
      rest
  }

  /** `operator==(sockaddr_storage, sockaddr_storage)`. */
  function AddrEqual(a: SockAddr, b: SockAddr): (r: bool)
    ensures a.family != b.family ==> !r
    ensures a.family == b.family == AF_INET ==> (r <==> a.port == b.port && a.ipv4 == b.ipv4)
    ensures a.family == b.family == AF_INET6 ==> (r <==> a.port == b.port && a.ipv6 == b.ipv6)
    ensures a.family == b.family && a.family != AF_INET && a.family != AF_INET6 ==> r
  {
    if a.family != b.family then false
    else if a.family == AF_INET then a.port == b.port && a.ipv4 == b.ipv4
    else if a.family == AF_INET6 then a.port == b.port && Memcmp(a.ipv6, b.ipv6, 16) == 0
    else true
  }

  lemma AddrEqualReflexive(a: SockAddr)
    ensures AddrEqual(a, a)
  {
  }

  lemma AddrEqualSymmetric(a: SockAddr, b: SockAddr)
    ensures AddrEqual(a, b) == AddrEqual(b, a)
  {
  }

  /** The comparison is an equivalence, so "the player at this address" is well defined. */
  lemma AddrEqualTransitive(a: SockAddr, b: SockAddr, c: SockAddr)
    requires AddrEqual(a, b) && AddrEqual(b, c)
    ensures AddrEqual(a, c)
  {
  }

  /** Two addresses equal to a third are equal to each other. */
  lemma AddrEqualSameTarget(a: SockAddr, b: SockAddr, c: SockAddr)
    ensures AddrEqual(a, c) && AddrEqual(b, c) ==> AddrEqual(a, b)
  {
    if AddrEqual(a, c) && AddrEqual(b, c) {
      AddrEqualSymmetric(b, c);
      AddrEqualTransitive(a, c, b);
    }
  }

  // ---------------------------------------------------------------------------
  // str2uint32_t

  const UINT32_MAX: nat := 0xFFFF_FFFF

  predicate IsDigit(c: char) {
    '0' <= c <= '9'
  }

  predicate AllDigits(s: string) {
    forall i :: 0 <= i < |s| ==> IsDigit(s[i])
  }

  function DigitChar(d: nat): (c: char)
    requires d < 10
    ensures IsDigit(c)
  {
    ('0' as int + d) as char
  }

  function DigitValue(c: char): (d: nat)
    requires IsDigit(c)
    ensures d < 10
  {
    c as int - '0' as int
  }

  /** `std::to_string` of an unsigned value: its canonical decimal digits. */
  function DecimalString(n: nat): (s: string)
    ensures |s| >= 1 && AllDigits(s)
    ensures s[0] == '0' <==> n == 0
    ensures n == 0 ==> s == "0"
  {
    if n < 10 then [DigitChar(n)] else DecimalString(n / 10) + [DigitChar(n % 10)]
  }

  /** The value of a run of decimal digits. */
  function DigitsValue(s: string): nat
    requires AllDigits(s)
  {
    if s == [] then 0 else DigitsValue(s[..|s| - 1]) * 10 + DigitValue(s[|s| - 1])
  }

  lemma {:induction false} DecimalStringValue(n: nat)
    ensures DigitsValue(DecimalString(n)) == n
  {
    if n >= 10 {
      var s := DecimalString(n);
      assert s[..|s| - 1] == DecimalString(n / 10);
      DecimalStringValue(n / 10);
    }
  }

  lemma DecimalStringInjective(m: nat, n: nat)
    requires DecimalString(m) == DecimalString(n)
    ensures m == n
  {
    DecimalStringValue(m);
    DecimalStringValue(n);
  }

  predicate IsSpace(c: char) {
    c == ' ' || c == '\t' || c == '\n' || c == '\U{B}' || c == '\U{C}' || c == '\r'
  }

  function DropSpaces(s: string): (r: string)
    ensures |r| <= |s|
    ensures r != [] ==> !IsSpace(r[0])
  {
    if s != [] && IsSpace(s[0]) then DropSpaces(s[1..]) else s
  }

  /** The longest prefix of decimal digits. */
  function DigitPrefix(s: string): (r: string)
    ensures AllDigits(r) && |r| <= |s| && r == s[..|r|]
    ensures AllDigits(s) ==> r == s
  {
    if s != [] && IsDigit(s[0]) then [s[0]] + DigitPrefix(s[1..]) else []
  }

  /** `istringstream >> uint32_t`: skip white space, take an optional sign and
      the longest run of digits after it; no digits, or a magnitude above
      `UINT32_MAX`, sets the fail bit (`None`); a minus sign negates modulo 2^32.
      Whatever follows the digits is left in the stream. */
  function ExtractUint32(s: string): Option<uint32>
  {
    var t := DropSpaces(s);
    var signed := t != [] && (t[0] == '+' || t[0] == '-');
    var negative := signed && t[0] == '-';
    var digits := DigitPrefix(if signed then t[1..] else t);
    if digits == [] then None
    else
      var v := DigitsValue(digits);
      if v > UINT32_MAX then None
      else Some(if negative then (TWO_TO_32 - v) % TWO_TO_32 else v)
  }

  /** `str2uint32_t`: the extracted value, provided the stream did not fail and
      printing that value gives back the whole input; otherwise the error that
      the source throws. */
  function Str2Uint32(s: string): (r: Result<uint32, string>)
    ensures r.Success? ==> s == DecimalString(r.value)
  {
    var parsed := ExtractUint32(s);
    if parsed.None? || DecimalString(parsed.value) != s then Failure("expected integer as an argument")
    else Success(parsed.value)
  }

  /** Every `uint32_t` printed in decimal is read back as itself. */
  lemma Str2Uint32RoundTrip(n: uint32)
    ensures Str2Uint32(DecimalString(n)) == Success(n)
  {
    var s := DecimalString(n);
    assert DropSpaces(s) == s;
    DecimalStringValue(n);
  }

  /** Exactly the canonical decimal strings of `uint32_t` values are accepted. */
  lemma Str2Uint32Accepts(s: string, n: uint32)
    ensures Str2Uint32(s) == Success(n) <==> s == DecimalString(n)
  {
    if s == DecimalString(n) {
      Str2Uint32RoundTrip(n);
    }
  }

  /** An accepted string is non-empty, all digits, and has no leading zero:
      signs, white space and trailing characters are rejected. */
  lemma Str2Uint32Canonical(s: string)
    requires Str2Uint32(s).Success?
    ensures s != [] && AllDigits(s)
    ensures s[0] == '0' ==> s == "0"
  {
  }

  /** The decimal form of a value above `UINT32_MAX` is rejected. */
  lemma Str2Uint32OutOfRange(n: nat)
    requires n > UINT32_MAX
    ensures Str2Uint32(DecimalString(n)).Failure?
  {
    var r := Str2Uint32(DecimalString(n));
    if r.Success? {
      DecimalStringInjective(r.value, n);
    }
  }

  // ---------------------------------------------------------------------------
  // is_valid_port

  /** `is_valid_port`: the value fits the 16-bit port field of a socket address. */
  function IsValidPort(p: uint32): (r: bool)
    ensures r <==> p < TWO_TO_16
  {
    p <= 65535
  }
}
