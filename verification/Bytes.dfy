/** Bytes, the host's little-endian integers, and the big-endian integers of the wire. */
module Bytes {

  type Byte = x: int | 0 <= x < 256

  type Octets = seq<Byte>

  const INT8_MIN := -0x80
  const INT8_MAX := 0x7F
  const INT16_MIN := -0x8000
  const INT16_MAX := 0x7FFF
  const INT32_MIN := -0x8000_0000
  const INT32_MAX := 0x7FFF_FFFF
  const INT64_MIN := -0x8000_0000_0000_0000
  const INT64_MAX := 0x7FFF_FFFF_FFFF_FFFF

  /** The number of values that n bytes can hold. */
  function Range(n: nat): (p: nat)
    ensures p > 0
  {
    if n == 0 then 1 else 256 * Range(n - 1)
  }

  lemma RangeValues()
    ensures Range(1) == 0x100 && Range(2) == 0x1_0000 && Range(4) == 0x1_0000_0000
    ensures Range(8) == 0x1_0000_0000_0000_0000
  {
    assert Range(3) == 0x100_0000;
    assert Range(4) == 0x1_0000_0000;
    assert Range(6) == 0x1_0000_0000_0000;
  }

  lemma RangeIsEven(n: nat)
    requires n > 0
    ensures Range(n) == 2 * (Range(n) / 2)
  {
    Halved(128 * Range(n - 1));
  }

  lemma Halved(k: int)
    ensures (2 * k) / 2 == k
  {
  }

  /** How a little-endian host lays out an unsigned integer of n bytes. */
  function HostBytes(n: nat, u: nat): (s: Octets)
    requires u < Range(n)
    ensures |s| == n
  {
    if n == 0 then [] else [u % 256] + HostBytes(n - 1, u / 256)
  }

  /** The unsigned integer a little-endian host reads from its memory. */
  function HostValue(s: Octets): (u: nat)
    ensures u < Range(|s|)
  {
    if s == [] then 0 else s[0] + 256 * HostValue(s[1..])
  }

  lemma {:induction false} HostRoundTrip(n: nat, u: nat)
    requires u < Range(n)
    ensures HostValue(HostBytes(n, u)) == u
  {
    if n > 0 {
      HostRoundTrip(n - 1, u / 256);
      assert HostBytes(n, u)[1..] == HostBytes(n - 1, u / 256);
    }
  }

  /** Big-endian order, most significant byte first, as PackStream defines it. */
  function BigEndian(n: nat, u: nat): (s: Octets)
    requires u < Range(n)
    ensures |s| == n
  {
    if n == 0 then [] else BigEndian(n - 1, u / 256) + [u % 256]
  }

  function Reversed<T>(s: seq<T>): (r: seq<T>)
    ensures |r| == |s|
    ensures forall i :: 0 <= i < |s| ==> r[i] == s[|s| - 1 - i]
  {
    seq(|s|, i requires 0 <= i < |s| => s[|s| - 1 - i])
  }

  lemma ReversedTwice<T>(s: seq<T>)
    ensures Reversed(Reversed(s)) == s
  {
  }

  /** A byte-reversing copy of a host integer is the integer in big-endian order. */
  lemma {:induction false} ReversedHostIsBigEndian(n: nat, u: nat)
    requires u < Range(n)
    ensures Reversed(HostBytes(n, u)) == BigEndian(n, u)
  {
    if n > 0 {
      ReversedHostIsBigEndian(n - 1, u / 256);
      assert Reversed(HostBytes(n, u)) == Reversed(HostBytes(n - 1, u / 256)) + [u % 256];
    }
  }

  /** The unsigned integer that big-endian bytes denote. */
  function BigEndianValue(s: Octets): (u: nat)
    ensures u < Range(|s|)
  {
    HostValue(Reversed(s))
  }

  lemma BigEndianRoundTrip(n: nat, u: nat)
    requires u < Range(n)
    ensures BigEndianValue(BigEndian(n, u)) == u
  {
    ReversedHostIsBigEndian(n, u);
    ReversedTwice(HostBytes(n, u));
    HostRoundTrip(n, u);
  }

  /** A signed integer of n bytes seen as unsigned (two's complement), and back. */
  function ToUnsigned(n: nat, x: int): (u: nat)
    requires n > 0 && -(Range(n) / 2) <= x < Range(n) / 2
    ensures u < Range(n)
  {
    if x < 0 then x + Range(n) else x
  }

  function ToSigned(n: nat, u: nat): (x: int)
    requires n > 0 && u < Range(n)
    ensures -(Range(n) / 2) <= x < Range(n) / 2
  {
    RangeIsEven(n);
    if u >= Range(n) / 2 then u - Range(n) else u
  }

  lemma SignedRoundTrip(n: nat, x: int)
    requires n > 0 && -(Range(n) / 2) <= x < Range(n) / 2
    ensures ToSigned(n, ToUnsigned(n, x)) == x
  {
  }

  /** C's conversion of an int to int8_t. */
  function AsInt8(x: int): (y: int)
    ensures INT8_MIN <= y <= INT8_MAX && (x - y) % 256 == 0
  {
    var m := x % 256;
    if m >= 128 then m - 256 else m
  }

  /** A signed big-endian integer of n bytes. */
  function SignedBE(n: nat, x: int): (s: Octets)
    requires n > 0 && -(Range(n) / 2) <= x < Range(n) / 2
    ensures |s| == n
  {
    BigEndian(n, ToUnsigned(n, x))
  }

  function SignedBEValue(s: Octets): (x: int)
    requires |s| > 0
    ensures -(Range(|s|) / 2) <= x < Range(|s|) / 2
  {
    ToSigned(|s|, BigEndianValue(s))
  }

  lemma SignedBERoundTrip(n: nat, x: int)
    requires n > 0 && -(Range(n) / 2) <= x < Range(n) / 2
    ensures SignedBEValue(SignedBE(n, x)) == x
  {
    BigEndianRoundTrip(n, ToUnsigned(n, x));
    SignedRoundTrip(n, x);
  }

  /** A concatenation is cut where it was joined. */
  lemma Joined(a: Octets, b: Octets)
    ensures (a + b)[..|a|] == a && (a + b)[|a|..] == b
  {
  }

  lemma TakenFromFront(a: Octets, b: Octets, n: nat)
    requires n <= |a|
    ensures (a + b)[..n] == a[..n] && (a + b)[n..] == a[n..] + b
  {
  }

  lemma Associative(a: Octets, b: Octets, c: Octets)
    ensures (a + b) + c == a + (b + c)
  {
  }
}
