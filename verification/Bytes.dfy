/** Octets, the big-endian integer fields of the TLS wire formats, and Option. */
module Bytes {

  datatype Option<+T> = None | Some(value: T)

  type byte = b: int | 0 <= b < 256

  function U16(n: nat): seq<byte>
    requires n < 0x1_0000
  {
    [n / 0x100, n % 0x100]
  }

  function U24(n: nat): seq<byte>
    requires n < 0x100_0000
  {
    [n / 0x1_0000, n / 0x100 % 0x100, n % 0x100]
  }

  function U48(n: nat): seq<byte>
    requires n < 0x1_0000_0000_0000
  {
    U24(n / 0x100_0000) + U24(n % 0x100_0000)
  }

  function GetU16(s: seq<byte>): (n: nat)
    requires |s| >= 2
    ensures n < 0x1_0000
  {
    (s[0] as int) * 0x100 + s[1] as int
  }

  function GetU24(s: seq<byte>): (n: nat)
    requires |s| >= 3
    ensures n < 0x100_0000
  {
    (s[0] as int) * 0x1_0000 + (s[1] as int) * 0x100 + s[2] as int
  }

  lemma U16RoundTrip(n: nat, rest: seq<byte>)
    requires n < 0x1_0000
    ensures |U16(n)| == 2
    ensures GetU16(U16(n) + rest) == n
  {
  }

  lemma U24RoundTrip(n: nat, rest: seq<byte>)
    requires n < 0x100_0000
    ensures |U24(n)| == 3
    ensures GetU24(U24(n) + rest) == n
  {
  }

  /** The two reading directions agree: re-encoding what was read gives the octets back. */
  lemma GetU16Inverse(s: seq<byte>)
    requires |s| >= 2
    ensures U16(GetU16(s)) == s[..2]
  {
  }

  lemma GetU24Inverse(s: seq<byte>)
    requires |s| >= 3
    ensures U24(GetU24(s)) == s[..3]
  {
    var n := GetU24(s);
    var mid := (s[0] as int) * 0x100 + s[1] as int;
    assert n == mid * 0x100 + s[2] as int;
    assert n / 0x100 == mid && n % 0x100 == s[2] as int;
    assert n / 0x1_0000 == s[0] as int && mid % 0x100 == s[1] as int;
  }

  /** Concatenation of a list of octet strings. */
  function Concat(parts: seq<seq<byte>>): seq<byte> {
    if parts == [] then [] else parts[0] + Concat(parts[1..])
  }

  lemma {:induction false} ConcatAppend(a: seq<seq<byte>>, b: seq<seq<byte>>)
    ensures Concat(a + b) == Concat(a) + Concat(b)
  {
    if a == [] {
      assert a + b == b;
    } else {
      assert (a + b)[1..] == a[1..] + b;
      ConcatAppend(a[1..], b);
    }
  }
}
