/** The mask functions of crypto/internal.h, and the RSA premaster check of handshake_server.cc
    that is built from them. Nothing here branches on a secret. */
module Premaster {
  import opened Bytes

  const SSL_MAX_MASTER_KEY_LENGTH: nat := 48

  // ------------------------------------------------------------------- masks

  /** The mask that stands for a truth value. */
  function Mask(b: bool): bv64 {
    if b then 0xffff_ffff_ffff_ffff else 0
  }

  function Mask8(b: bool): bv8 {
    if b then 0xff else 0
  }

  function MsbW(a: bv64): bv64 {
    0 - (a >> 63)
  }

  function IsZeroW(a: bv64): bv64 {
    MsbW(!a & (a - 1))
  }

  function EqW(a: bv64, b: bv64): bv64 {
    IsZeroW(a ^ b)
  }

  function SelectW(mask: bv64, a: bv64, b: bv64): bv64 {
    (mask & a) | (!mask & b)
  }

  lemma IsZeroMask(a: bv64)
    ensures IsZeroW(a) == Mask(a == 0)
  {
    if a == 0 {
      assert !a & (a - 1) == 0xffff_ffff_ffff_ffff;
    } else {
      assert (!a & (a - 1)) >> 63 == 0;
    }
  }

  lemma EqMask(a: bv64, b: bv64)
    ensures EqW(a, b) == Mask(a == b)
  {
    IsZeroMask(a ^ b);
    assert a ^ b == 0 <==> a == b;
  }

  lemma SelectFirst(a: bv64, b: bv64)
    ensures SelectW(0xffff_ffff_ffff_ffff, a, b) == a
  {
  }

  lemma SelectSecond(a: bv64, b: bv64)
    ensures SelectW(0, a, b) == b
  {
  }

  lemma SelectMask(c: bool, a: bv64, b: bv64)
    ensures SelectW(Mask(c), a, b) == if c then a else b
  {
    hide SelectW;
    if c { SelectFirst(a, b); } else { SelectSecond(a, b); }
  }

  /** The functions on octets convert to a word and back. */
  function Narrow(a: bv64): bv8 {
    (a & 0xff) as bv8
  }

  function IsZero8(a: bv8): bv8 {
    Narrow(IsZeroW(a as bv64))
  }

  function Eq8(a: bv8, b: bv8): bv8 {
    Narrow(EqW(a as bv64, b as bv64))
  }

  function Select8(mask: bv8, a: bv8, b: bv8): bv8 {
    Narrow(SelectW(mask as bv64, a as bv64, b as bv64))
  }

  lemma IsZero8Mask(a: bv8)
    ensures IsZero8(a) == Mask8(a == 0)
  {
    IsZeroMask(a as bv64);
  }

  lemma Eq8Mask(a: bv8, b: bv8)
    ensures Eq8(a, b) == Mask8(a == b)
  {
    EqMask(a as bv64, b as bv64);
  }

  lemma Select8Mask(c: bool, a: bv8, b: bv8)
    ensures Select8(Mask8(c), a, b) == if c then a else b
  {
  }

  // ---------------------------------------------------------- the premaster check

  /** The obvious check: RSAES-PKCS1-v1_5 unpadding as section 7.2.2 of RFC 3447 has it, then the
      length and version of section 7.4.7.1 of RFC 5246. */
  function FirstZero(d: seq<bv8>, from: nat): (i: nat)
    requires from <= |d|
    ensures from <= i <= |d| && (i < |d| ==> d[i] == 0) && forall k :: from <= k < i ==> d[k] != 0
    decreases |d| - from
  {
    if from == |d| || d[from] == 0 then from else FirstZero(d, from + 1)
  }

  function Unpad(d: seq<bv8>): Option<seq<bv8>> {
    if |d| < 11 || d[0] != 0 || d[1] != 2 then None
    else
      var i := FirstZero(d, 2);
      if i == |d| || i < 10 then None else Some(d[i + 1..])
  }

  function Embedded(d: seq<bv8>, major: bv8, minor: bv8): Option<seq<bv8>> {
    var m := Unpad(d);
    if m.Some? && |m.value| == SSL_MAX_MASTER_KEY_LENGTH && m.value[0] == major && m.value[1] == minor then m else None
  }

  /** What the masked comparisons test, position by position. */
  predicate WellPadded(d: seq<bv8>, major: bv8, minor: bv8)
    requires |d| >= 11 + SSL_MAX_MASTER_KEY_LENGTH
  {
    var pad := |d| - SSL_MAX_MASTER_KEY_LENGTH;
    && d[0] == 0 && d[1] == 2 && (forall i :: 2 <= i < pad - 1 ==> d[i] != 0) && d[pad - 1] == 0
    && d[pad] == major && d[pad + 1] == minor
  }

  /** Both read the same premaster out of the same buffers. */
  lemma SameCheck(d: seq<bv8>, major: bv8, minor: bv8)
    requires |d| >= 11 + SSL_MAX_MASTER_KEY_LENGTH
    ensures Embedded(d, major, minor)
         == if WellPadded(d, major, minor) then Some(d[|d| - SSL_MAX_MASTER_KEY_LENGTH..]) else None
  {
    var pad, i := |d| - SSL_MAX_MASTER_KEY_LENGTH, FirstZero(d, 2);
    if WellPadded(d, major, minor) {
      assert i == pad - 1;
    }
  }

  function And8(a: bv8, b: bv8): bv8 {
    a & b
  }

  function AndNot8(a: bv8, b: bv8): bv8 {
    a & !b
  }

  lemma AndMasks(good: bv8, a: bool, m: bv8, b: bool)
    requires good == Mask8(a) && m == Mask8(b)
    ensures And8(good, m) == Mask8(a && b)
    ensures AndNot8(good, m) == Mask8(a && !b)
  {
  }

  /** The premaster check of do_read_client_key_exchange: decryptBuf is the raw RSA result and
      premaster the random one made up beforehand. A key too small for the padding is an error. */
  method CheckPremaster(decryptBuf: array<bv8>, premaster: array<bv8>, clientVersion: bv16) returns (ok: bool)
    requires premaster.Length == SSL_MAX_MASTER_KEY_LENGTH && decryptBuf != premaster
    modifies premaster
    ensures ok <==> decryptBuf.Length >= 11 + SSL_MAX_MASTER_KEY_LENGTH
    ensures !ok ==> premaster[..] == old(premaster[..])
    ensures ok ==>
              var genuine := Embedded(decryptBuf[..], (clientVersion >> 8) as bv8, (clientVersion & 0xff) as bv8);
              premaster[..] == if genuine.Some? then genuine.value else old(premaster[..])
  {
    hide Mask8, Embedded, WellPadded;
    var decryptLen := decryptBuf.Length;
    if decryptLen < 11 + premaster.Length {
      return false;
    }
    ghost var d := decryptBuf[..];
    var major, minor := (clientVersion >> 8) as bv8, (clientVersion & 0xff) as bv8;
    var paddingLen := decryptLen - premaster.Length;
    var good := PaddingMask(decryptBuf, paddingLen, major, minor);
    SelectPremaster(decryptBuf, paddingLen, premaster, good, WellPadded(d, major, minor));
    SameCheck(d, major, minor);
    assert d[paddingLen..] == decryptBuf[paddingLen..];
    return true;
  }

  /** The padding and version part: all ones when everything is as it should be. */
  method PaddingMask(decryptBuf: array<bv8>, paddingLen: nat, major: bv8, minor: bv8) returns (good: bv8)
    requires paddingLen >= 11 && paddingLen + SSL_MAX_MASTER_KEY_LENGTH == decryptBuf.Length
    ensures good == Mask8(WellPadded(decryptBuf[..], major, minor))
  {
    hide IsZero8, Eq8, Mask8, And8, AndNot8;
    ghost var d := decryptBuf[..];
    var zero, two := Eq8(decryptBuf[0], 0), Eq8(decryptBuf[1], 2);
    Eq8Mask(d[0], 0);
    Eq8Mask(d[1], 2);
    AndMasks(zero, d[0] == 0, two, d[1] == 2);
    good := And8(zero, two);
    ghost var sofar := d[0] == 0 && d[1] == 2;
    for i := 2 to paddingLen - 1
      invariant good == Mask8(sofar)
      invariant sofar <==> d[0] == 0 && d[1] == 2 && forall k :: 2 <= k < i ==> d[k] != 0
    {
      var m := IsZero8(decryptBuf[i]);
      IsZero8Mask(d[i]);
      AndMasks(good, sofar, m, d[i] == 0);
      good := AndNot8(good, m);
      sofar := sofar && d[i] != 0;
    }
    var last, first, second := IsZero8(decryptBuf[paddingLen - 1]), Eq8(decryptBuf[paddingLen], major),
                               Eq8(decryptBuf[paddingLen + 1], minor);
    IsZero8Mask(d[paddingLen - 1]);
    Eq8Mask(d[paddingLen], major);
    Eq8Mask(d[paddingLen + 1], minor);
    AndMasks(good, sofar, last, d[paddingLen - 1] == 0);
    good := And8(good, last);
    sofar := sofar && d[paddingLen - 1] == 0;
    AndMasks(good, sofar, first, d[paddingLen] == major);
    good := And8(good, first);
    sofar := sofar && d[paddingLen] == major;
    AndMasks(good, sofar, second, d[paddingLen + 1] == minor);
    good := And8(good, second);
    sofar := sofar && d[paddingLen + 1] == minor;
    assert sofar == WellPadded(d, major, minor);
  }

  method SelectPremaster(decryptBuf: array<bv8>, paddingLen: nat, premaster: array<bv8>, good: bv8, ghost genuine: bool)
    requires decryptBuf != premaster && paddingLen + premaster.Length == decryptBuf.Length && good == Mask8(genuine)
    modifies premaster
    ensures premaster[..] == if genuine then decryptBuf[paddingLen..] else old(premaster[..])
  {
    hide Select8, Mask8;
    for i := 0 to premaster.Length
      invariant forall k :: 0 <= k < i ==> premaster[k] == if genuine then decryptBuf[paddingLen + k] else old(premaster[k])
      invariant forall k :: i <= k < premaster.Length ==> premaster[k] == old(premaster[k])
    {
      Select8Mask(genuine, decryptBuf[paddingLen + i], premaster[i]);
      premaster[i] := Select8(good, decryptBuf[paddingLen + i], premaster[i]);
    }
  }
}
