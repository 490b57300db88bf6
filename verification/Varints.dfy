/** Base 128 varints as pb_encode.c writes them and pb_decode.c reads them. */
module Varints {
  import opened Bits
  import opened Bytes

  /** The groups of seven bits, least significant first, all but the last with the top bit set. */
  function EncodeVarint(v: nat): (s: seq<byte>)
    ensures |s| >= 1
  {
    if v < 128 then [v] else [128 + v % 128] + EncodeVarint(v / 128)
  }

  /** The loop of pb_decode_varint from a given bit position and partial result. */
  function DecodeFrom(s: seq<byte>, bitpos: nat, result: nat): (r: Option<(nat, seq<byte>)>)
    ensures r.Some? ==> |r.value.1| < |s| && r.value.1 == s[|s| - |r.value.1|..]
    decreases |s|
  {
    if bitpos >= 64 || s == [] then None
    else
      var result' := Or(result, Shl(s[0] % 128, bitpos, 64));
      if s[0] >= 128 then
        var r := DecodeFrom(s[1..], bitpos + 7, result');
        r
      else Some((result', s[1..]))
  }

  /** pb_decode_varint: the value and what follows it, or an error. */
  function DecodeVarint(s: seq<byte>): (r: Option<(nat, seq<byte>)>)
    ensures r.Some? ==> |r.value.1| < |s| && r.value.1 == s[|s| - |r.value.1|..]
  {
    DecodeFrom(s, 0, 0)
  }

  /** The result of pb_decode_varint32_eof. */
  datatype Decoded32 = Ok32(value: nat, rest: seq<byte>) | Err32(eof: bool)

  /** The multibyte loop of pb_decode_varint32_eof. bitpos is a uint_fast8_t of 8 bits and
      wraps; a long enough run of continuation octets comes round to the low bits again. */
  function Decode32From(s: seq<byte>, bitpos: nat, result: nat): (d: Decoded32)
    ensures d.Ok32? ==> |d.rest| < |s| && d.rest == s[|s| - |d.rest|..]
    ensures d.Err32? ==> !d.eof
    decreases |s|
  {
    if s == [] then Err32(false)
    else
      var signExtension := if bitpos < 63 then 0xff else 0x01;
      if bitpos >= 32 && s[0] % 128 != 0 && (result < 0x8000_0000 || s[0] != signExtension) then Err32(false)
      else
        var result' := if bitpos >= 32 then result else Or(result, Shl(s[0] % 128, bitpos, 32));
        var bitpos' := (bitpos + 7) % 256;
        if s[0] >= 128 then Decode32From(s[1..], bitpos', result')
        else if bitpos' == 35 && s[0] / 16 % 8 != 0 then Err32(false)
        else Ok32(result', s[1..])
  }

  function Decode32(s: seq<byte>): (d: Decoded32)
    ensures d.Ok32? ==> |d.rest| < |s| && d.rest == s[|s| - |d.rest|..]
    ensures d.Err32? && d.eof ==> s == []
  {
    if s == [] then Err32(true)
    else if s[0] < 128 then Ok32(s[0], s[1..])
    else Decode32From(s[1..], 7, s[0] % 128)
  }

  /** pb_skip_varint. */
  function SkipVarint(s: seq<byte>): (r: Option<seq<byte>>)
    ensures r.Some? ==> |r.value| < |s|
  {
    if s == [] then None else if s[0] >= 128 then SkipVarint(s[1..]) else Some(s[1..])
  }

  // ---------------------------------------------------------------- arithmetic

  lemma {:induction false} TimesAdd(a: nat, b: nat, s: nat)
    ensures Times(a + b, s) == Times(a, s) + Times(b, s)
    decreases s
  {
    if s > 0 { TimesAdd(a, b, s - 1); }
  }

  lemma {:induction false} TimesTwice(m: nat, s: nat)
    ensures Times(2 * m, s) == Times(m, s + 1)
    decreases s
  {
    if s > 0 { TimesTwice(m, s - 1); }
  }

  lemma Times128(m: nat, s: nat)
    ensures Times(128 * m, s) == Times(m, s + 7)
  {
    TimesTwice(m, s + 6);
    TimesTwice(2 * m, s + 5);
    TimesTwice(4 * m, s + 4);
    TimesTwice(8 * m, s + 3);
    TimesTwice(16 * m, s + 2);
    TimesTwice(32 * m, s + 1);
    TimesTwice(64 * m, s);
  }

  /** The low seven bits and the rest, shifted apart, make up the number. */
  lemma TimesSplit(v: nat, s: nat)
    ensures Times(v % 128, s) + Times(v / 128, s + 7) == Times(v, s)
  {
    TimesAdd(v % 128, 128 * (v / 128), s);
    Times128(v / 128, s);
  }

  lemma {:induction false} TimesFits(m: nat, s: nat, w: nat)
    requires Fits(m, w)
    ensures Fits(Times(m, s), w + s)
    decreases s
  {
    if s > 0 {
      TimesFits(m, s - 1, w);
      assert Times(m, s) / 2 == Times(m, s - 1);
    }
  }

  lemma {:induction false} SumFits(a: nat, b: nat, s: nat, w: nat)
    requires Fits(a, s) && Fits(b, w)
    ensures Fits(a + Times(b, s), w + s)
    decreases s
  {
    if s > 0 {
      SumFits(a / 2, b, s - 1, w);
      assert (a + Times(b, s)) / 2 == a / 2 + Times(b, s - 1);
    }
  }

  lemma {:induction false} SmallerFits(m: nat, n: nat, w: nat)
    requires m <= n && Fits(n, w)
    ensures Fits(m, w)
    decreases w
  {
    if w > 0 { SmallerFits(m / 2, n / 2, w - 1); }
  }

  lemma DropSeven(v: nat, w: nat)
    requires Fits(v, w) && v >= 128
    ensures w > 7 && Fits(v / 128, w - 7)
  {
    SevenBits(v);
    if w <= 7 {
      FitsMore(v, w, 7);
    }
    assert Fits(v / 2 / 2 / 2 / 2 / 2 / 2 / 2, w - 7) by {
      assert Fits(v / 2, w - 1) && Fits(v / 2 / 2, w - 2) && Fits(v / 2 / 2 / 2, w - 3);
      assert Fits(v / 2 / 2 / 2 / 2, w - 4) && Fits(v / 2 / 2 / 2 / 2 / 2, w - 5);
      assert Fits(v / 2 / 2 / 2 / 2 / 2 / 2, w - 6);
    }
    assert v / 2 / 2 / 2 / 2 / 2 / 2 / 2 == v / 128;
  }

  lemma SevenBits(b: nat)
    ensures Fits(b, 7) <==> b < 128
  {
    FitsIsBound(b, 7);
    assert Pow2(7) == 128;
  }

  /** Or-ing a seven-bit group into a clear position of a w-bit word adds it. */
  lemma OrGroup(result: nat, b: nat, bitpos: nat, w: nat)
    requires Fits(result, bitpos) && bitpos <= w && Fits(b, w - bitpos)
    ensures Or(result, Shl(b, bitpos, w)) == result + Times(b, bitpos)
    ensures Fits(result + Times(b, bitpos), w)
  {
    TimesFits(b, bitpos, w - bitpos);
    LowOfFit(Times(b, bitpos), w);
    OrDisjoint(result, b, bitpos);
    SumFits(result, b, bitpos, w - bitpos);
  }

  // ---------------------------------------------------------------- round trips

  /** The first group of an encoding. */
  lemma VarintGroup(v: nat)
    ensures v < 128 ==> v / 128 == 0 && EncodeVarint(v) == [v % 128]
    ensures v >= 128 ==> v / 128 != 0 && EncodeVarint(v) == [v % 128 + 128] + EncodeVarint(v / 128)
    ensures v != 0 ==> v / 128 < v
  {
    var q, r := v / 128, v % 128;
    assert v == 128 * q + r;
  }

  /** The shape of an encoding of more than one octet, and of one octet. */
  lemma EncodedMore(v: nat, rest: seq<byte>)
    requires v >= 128
    ensures EncodeVarint(v) + rest != [] && (EncodeVarint(v) + rest)[0] == 128 + v % 128
    ensures (EncodeVarint(v) + rest)[1..] == EncodeVarint(v / 128) + rest
  {
    hide EncodeVarint;
    VarintGroup(v);
  }

  lemma EncodedOne(v: nat, rest: seq<byte>)
    requires v < 128
    ensures EncodeVarint(v) + rest != [] && (EncodeVarint(v) + rest)[0] == v
    ensures (EncodeVarint(v) + rest)[1..] == rest
  {
    hide EncodeVarint;
    VarintGroup(v);
  }

  lemma DecodeMore(s: seq<byte>, b: nat, bitpos: nat, result: nat)
    requires s != [] && b < 128 && s[0] == 128 + b && bitpos < 64
    ensures DecodeFrom(s, bitpos, result) == DecodeFrom(s[1..], bitpos + 7, Or(result, Shl(b, bitpos, 64)))
  {
    hide Or, Shl;
  }

  lemma DecodeLast(s: seq<byte>, b: nat, bitpos: nat, result: nat)
    requires s != [] && b < 128 && s[0] == b && bitpos < 64
    ensures DecodeFrom(s, bitpos, result) == Some((Or(result, Shl(b, bitpos, 64)), s[1..]))
  {
    hide Or, Shl;
  }

  lemma {:induction false} DecodeEncodedFrom(v: nat, rest: seq<byte>, bitpos: nat, result: nat)
    requires bitpos < 64 && Fits(result, bitpos) && Fits(v, 64 - bitpos)
    ensures DecodeFrom(EncodeVarint(v) + rest, bitpos, result) == Some((result + Times(v, bitpos), rest))
    decreases v
  {
    hide EncodeVarint, Fits, Times, Or, Shl, DecodeFrom;
    var b := v % 128;
    SmallerFits(b, v, 64 - bitpos);
    OrGroup(result, b, bitpos, 64);
    if v < 128 {
      EncodedOne(v, rest);
      DecodeLast(EncodeVarint(v) + rest, v, bitpos, result);
    } else {
      EncodedMore(v, rest);
      DecodeMore(EncodeVarint(v) + rest, b, bitpos, result);
      DropSeven(v, 64 - bitpos);
      SevenBits(b);
      SumFits(result, b, bitpos, 7);
      DecodeEncodedFrom(v / 128, rest, bitpos + 7, result + Times(b, bitpos));
      TimesSplit(v, bitpos);
    }
  }

  /** pb_decode_varint inverts pb_encode_varint for every 64-bit value. */
  lemma VarintRoundTrip(v: nat, rest: seq<byte>)
    requires v < 0x1_0000_0000_0000_0000
    ensures DecodeVarint(EncodeVarint(v) + rest) == Some((v, rest))
  {
    Fits64(v);
    ZeroFits(0);
    DecodeEncodedFrom(v, rest, 0, 0);
  }

  /** Eight bits at a time: a word fits w + 8 bits when its upper part fits w. */
  lemma FitsStep(m: nat, w: nat)
    ensures Fits(m, w + 8) <==> Fits(m / 256, w)
  {
    assert Fits(m, w + 8) <==> Fits(m / 2, w + 7);
    assert Fits(m / 2, w + 7) <==> Fits(m / 2 / 2, w + 6);
    assert Fits(m / 2 / 2, w + 6) <==> Fits(m / 2 / 2 / 2, w + 5);
    assert Fits(m / 2 / 2 / 2, w + 5) <==> Fits(m / 2 / 2 / 2 / 2, w + 4);
    assert m / 2 / 2 / 2 / 2 == m / 16;
    assert Fits(m / 16, w + 4) <==> Fits(m / 16 / 2, w + 3);
    assert Fits(m / 16 / 2, w + 3) <==> Fits(m / 16 / 2 / 2, w + 2);
    assert Fits(m / 16 / 2 / 2, w + 2) <==> Fits(m / 16 / 2 / 2 / 2, w + 1);
    assert Fits(m / 16 / 2 / 2 / 2, w + 1) <==> Fits(m / 16 / 2 / 2 / 2 / 2, w);
    assert m / 16 / 2 / 2 / 2 / 2 == m / 256;
  }

  lemma Fits32(v: nat)
    ensures Fits(v, 32) <==> v < 0x1_0000_0000
  {
    hide Fits;
    FitsStep(v, 24);
    FitsStep(v / 256, 16);
    FitsStep(v / 256 / 256, 8);
    FitsStep(v / 256 / 256 / 256, 0);
    NoBits(v / 256 / 256 / 256 / 256);
  }

  lemma Fits64(v: nat)
    ensures Fits(v, 64) <==> v < 0x1_0000_0000_0000_0000
  {
    hide Fits;
    FitsStep(v, 56);
    FitsStep(v / 256, 48);
    FitsStep(v / 256 / 256, 40);
    FitsStep(v / 256 / 256 / 256, 32);
    assert v / 256 / 256 / 256 / 256 == v / 0x1_0000_0000;
    Fits32(v / 0x1_0000_0000);
  }

  lemma NoBits(m: nat)
    ensures Fits(m, 0) <==> m == 0
  {
  }

  lemma {:induction false} EncodedLengthFrom(v: nat, w: nat)
    requires Fits(v, w)
    ensures |EncodeVarint(v)| <= (if w == 0 then 1 else (w + 6) / 7)
    decreases v
  {
    if v >= 128 {
      DropSeven(v, w);
      EncodedLengthFrom(v / 128, w - 7);
    }
  }

  /** A 64-bit value takes one to ten octets, and none but the last has its top bit clear. */
  lemma EncodedLength(v: nat)
    requires v < 0x1_0000_0000_0000_0000
    ensures 1 <= |EncodeVarint(v)| <= 10
  {
    Fits64(v);
    EncodedLengthFrom(v, 64);
  }

  lemma {:induction false} DecodeFromBound(s: seq<byte>, bitpos: nat, result: nat)
    requires Fits(result, 64)
    ensures var r := DecodeFrom(s, bitpos, result); r.Some? ==> Fits(r.value.0, 64)
    decreases |s|
  {
    hide Fits, Or, Shl;
    if bitpos < 64 && s != [] {
      ShlFits(s[0] % 128, bitpos, 64);
      OrFits(result, Shl(s[0] % 128, bitpos, 64), 64);
      DecodeFromBound(s[1..], bitpos + 7, Or(result, Shl(s[0] % 128, bitpos, 64)));
    }
  }

  lemma ShlFits(m: nat, s: nat, w: nat)
    ensures Fits(Shl(m, s, w), w)
  {
    LowFits(Times(m, s), w);
  }

  /** Whatever it is given, pb_decode_varint returns a uint64. */
  lemma DecodeBound(s: seq<byte>)
    ensures var r := DecodeVarint(s); r.Some? ==> r.value.0 < 0x1_0000_0000_0000_0000
  {
    hide Fits, DecodeFrom;
    ZeroFits(64);
    DecodeFromBound(s, 0, 0);
    var r := DecodeVarint(s);
    if r.Some? { Fits64(r.value.0); }
  }

  // ------------------------------------------------------------- pb_decode_varint32

  lemma {:induction false} Decode32FromBound(s: seq<byte>, bitpos: nat, result: nat)
    requires Fits(result, 32)
    ensures var d := Decode32From(s, bitpos, result); d.Ok32? ==> Fits(d.value, 32)
    decreases |s|
  {
    hide Fits, Or, Shl;
    if s != [] {
      ShlFits(s[0] % 128, bitpos, 32);
      OrFits(result, Shl(s[0] % 128, bitpos, 32), 32);
      var result' := if bitpos >= 32 then result else Or(result, Shl(s[0] % 128, bitpos, 32));
      Decode32FromBound(s[1..], (bitpos + 7) % 256, result');
    }
  }

  /** Whatever it is given, pb_decode_varint32 returns a uint32. */
  lemma Decode32Bound(s: seq<byte>)
    ensures var d := Decode32(s); d.Ok32? ==> d.value < 0x1_0000_0000
  {
    hide Fits, Decode32From;
    if s != [] {
      SevenBits(s[0] % 128);
      FitsMore(s[0] % 128, 7, 32);
      Decode32FromBound(s[1..], 7, s[0] % 128);
      var d := Decode32(s);
      if d.Ok32? { Fits32(d.value); }
    }
  }

  lemma Decode32More(s: seq<byte>, b: nat, bitpos: nat, result: nat)
    requires s != [] && b < 128 && s[0] == 128 + b && bitpos <= 28
    ensures Decode32From(s, bitpos, result) == Decode32From(s[1..], bitpos + 7, Or(result, Shl(b, bitpos, 32)))
  {
    hide Or, Shl;
  }

  /** One continuation octet below bit 32: the group is added in at bitpos. */
  lemma Decode32Group(v: nat, rest: seq<byte>, bitpos: nat, result: nat)
    requires v >= 128 && bitpos <= 25 && Fits(result, bitpos)
    ensures Fits(result + Times(v % 128, bitpos), bitpos + 7)
    ensures Decode32From(EncodeVarint(v) + rest, bitpos, result)
         == Decode32From(EncodeVarint(v / 128) + rest, bitpos + 7, result + Times(v % 128, bitpos))
  {
    hide Decode32From, EncodeVarint, Fits, Times, Or, Shl;
    var b := v % 128;
    EncodedMore(v, rest);
    Decode32More(EncodeVarint(v) + rest, b, bitpos, result);
    SevenBits(b);
    FitsMore(b, 7, 32 - bitpos);
    OrGroup(result, b, bitpos, 32);
    SumFits(result, b, bitpos, 7);
  }

  /** The last octet of a value that fits 32 bits. */
  lemma Decode32Last(v: nat, rest: seq<byte>, bitpos: nat, result: nat)
    requires v < 128 && bitpos <= 28 && Fits(result, bitpos) && Fits(v, 32 - bitpos)
    ensures Decode32From(EncodeVarint(v) + rest, bitpos, result) == Ok32(result + Times(v, bitpos), rest)
  {
    hide EncodeVarint, Fits, Times, Or, Shl;
    EncodedOne(v, rest);
    OrGroup(result, v, bitpos, 32);
    if bitpos == 28 { FourBits(v); }
  }

  lemma {:induction false} Decode32EncodedFrom(v: nat, rest: seq<byte>, bitpos: nat, result: nat)
    requires 7 <= bitpos <= 28 && bitpos % 7 == 0 && Fits(result, bitpos) && Fits(v, 32 - bitpos)
    ensures Decode32From(EncodeVarint(v) + rest, bitpos, result) == Ok32(result + Times(v, bitpos), rest)
    decreases v
  {
    hide Decode32From, EncodeVarint, Fits, Times;
    if v < 128 {
      Decode32Last(v, rest, bitpos, result);
    } else {
      DropSeven(v, 32 - bitpos);
      Decode32Group(v, rest, bitpos, result);
      Decode32EncodedFrom(v / 128, rest, bitpos + 7, result + Times(v % 128, bitpos));
      TimesSplit(v, bitpos);
    }
  }

  lemma FourBits(v: nat)
    ensures Fits(v, 4) <==> v < 16
  {
    FitsIsBound(v, 4);
    assert Pow2(4) == 16;
  }

  /** pb_decode_varint32 returns every value below 2^32 it is sent. */
  lemma Varint32RoundTrip(v: nat, rest: seq<byte>)
    requires v < 0x1_0000_0000
    ensures Decode32(EncodeVarint(v) + rest) == Ok32(v, rest)
  {
    hide Decode32From, EncodeVarint, Fits, Times;
    if v < 128 {
      EncodedOne(v, rest);
    } else {
      EncodedMore(v, rest);
      Fits32(v);
      DropSeven(v, 32);
      SevenBits(v % 128);
      Decode32EncodedFrom(v / 128, rest, 7, v % 128);
      TimesLiterals(v / 128);
    }
  }

  /** What the octets from bit 35 up must look like: each group zero, or all ones when bit 31
      is set; the tenth, at bit 63, zero or one. */
  predicate UpperGroupsOk(v: nat, bitpos: nat, bit31: bool)
    decreases v
  {
    if v < 128 then v == 0 || (bit31 && bitpos >= 63 && v == 1)
    else (v % 128 == 0 || (bit31 && bitpos < 63 && v % 128 == 127)) && UpperGroupsOk(v / 128, bitpos + 7, bit31)
  }

  lemma Decode32UpperMore(s: seq<byte>, b: nat, bitpos: nat, result: nat)
    requires s != [] && b < 128 && s[0] == 128 + b && 35 <= bitpos <= 56
    ensures Decode32From(s, bitpos, result)
         == if b == 0 || (b == 127 && result >= 0x8000_0000) then Decode32From(s[1..], bitpos + 7, result) else Err32(false)
  {
    hide Or, Shl;
  }

  lemma Decode32UpperLast(s: seq<byte>, b: nat, bitpos: nat, result: nat)
    requires s != [] && b < 128 && s[0] == b && 35 <= bitpos <= 63
    ensures Decode32From(s, bitpos, result)
         == if b == 0 || (b == 1 && bitpos == 63 && result >= 0x8000_0000) then Ok32(result, s[1..]) else Err32(false)
  {
    hide Or, Shl;
  }

  lemma {:induction false} Decode32UpperFrom(v: nat, rest: seq<byte>, bitpos: nat, result: nat)
    requires 35 <= bitpos <= 63 && Fits(v, 64 - bitpos)
    ensures Decode32From(EncodeVarint(v) + rest, bitpos, result)
         == if UpperGroupsOk(v, bitpos, result >= 0x8000_0000) then Ok32(result, rest) else Err32(false)
    decreases v
  {
    hide Decode32From, EncodeVarint, Fits;
    if v < 128 {
      EncodedOne(v, rest);
      Decode32UpperLast(EncodeVarint(v) + rest, v, bitpos, result);
    } else {
      EncodedMore(v, rest);
      DropSeven(v, 64 - bitpos);
      Decode32UpperMore(EncodeVarint(v) + rest, v % 128, bitpos, result);
      Decode32UpperFrom(v / 128, rest, bitpos + 7, result);
    }
  }

  lemma TimesLiterals(m: nat)
    ensures Times(m, 7) == 0x80 * m && Times(m, 14) == 0x4000 * m
    ensures Times(m, 21) == 0x20_0000 * m && Times(m, 28) == 0x1000_0000 * m
  {
    hide Times;
    Times128(m, 0);
    Times128(m, 7);
    Times128(m, 14);
    Times128(m, 21);
    TimesNothing(128 * m);
    Times128(128 * m, 0);
    Times128(128 * m, 7);
    Times128(128 * m, 14);
    TimesNothing(128 * (128 * m));
    Times128(128 * (128 * m), 0);
    Times128(128 * (128 * m), 7);
    TimesNothing(128 * (128 * (128 * m)));
    Times128(128 * (128 * (128 * m)), 0);
    TimesNothing(128 * (128 * (128 * (128 * m))));
  }

  lemma TimesNothing(m: nat)
    ensures Times(m, 0) == m
  {
  }

  /** The low groups of seven bits, put back together. */
  lemma GroupsJoin(v: nat)
    ensures v % 0x80 + 0x80 * (v / 0x80 % 128) == v % 0x4000
    ensures v % 0x4000 + 0x4000 * (v / 0x4000 % 128) == v % 0x20_0000
    ensures v % 0x20_0000 + 0x20_0000 * (v / 0x20_0000 % 128) == v % 0x1000_0000
    ensures v % 0x1000_0000 + 0x1000_0000 * (v / 0x1000_0000 % 16) == v % 0x1_0000_0000
  {
    GroupJoins(v, 0x80, 128, 0x4000, v / 0x80);
    GroupJoins(v, 0x4000, 128, 0x20_0000, v / 0x4000);
    GroupJoins(v, 0x20_0000, 128, 0x1000_0000, v / 0x20_0000);
    GroupJoins(v, 0x1000_0000, 16, 0x1_0000_0000, v / 0x1000_0000);
  }

  lemma GroupJoins(v: nat, a: nat, b: nat, ab: nat, q: nat)
    requires a > 0 && b > 0 && ab == a * b && q == v / a
    ensures v % a + a * (q % b) == v % ab
  {
    var k, c, x := q / b, q % b, v % a;
    Division(v, a, q);
    Division(q, b, k);
    Nested(a, b, k, c, x);
    Remainder(v, ab, k, x + a * c);
  }

  lemma Division(n: nat, d: nat, q: nat)
    requires d > 0 && q == n / d
    ensures n == d * q + n % d
  {
  }

  lemma Nested(a: nat, b: nat, k: nat, c: nat, x: nat)
    requires x < a && c < b
    ensures a * (b * k + c) + x == (a * b) * k + (x + a * c)
    ensures x + a * c < a * b
  {
    assert a * (b * k) == (a * b) * k;
    Multiples(a, b - c);
    assert a * (b - c) == a * b - a * c;
  }

  lemma Multiples(m: nat, d: int)
    ensures d >= 1 ==> m * d >= m
    ensures d <= -1 ==> m * d <= 0 - m
  {
  }

  lemma Remainder(v: nat, m: nat, q: nat, r: nat)
    requires m > 0 && v == m * q + r && r < m
    ensures v % m == r
  {
    var d := v / m - q;
    assert v == m * (v / m) + v % m;
    assert m * d == r - v % m;
    Multiples(m, d);
  }

  lemma GroupsSplit(v: nat)
    ensures v / 0x80 / 0x80 == v / 0x4000 && v / 0x4000 / 0x80 == v / 0x20_0000
    ensures v / 0x20_0000 / 0x80 == v / 0x1000_0000 && v / 0x1000_0000 / 0x80 == v / 0x8_0000_0000
  {
  }

  /** The first four octets of a longer encoding. */
  lemma Decode32FourGroups(v: nat, rest: seq<byte>)
    requires v >= 0x1000_0000
    ensures Fits(v % 0x1000_0000, 28)
    ensures Decode32(EncodeVarint(v) + rest)
         == Decode32From(EncodeVarint(v / 0x1000_0000) + rest, 28, v % 0x1000_0000)
  {
    hide Decode32From, EncodeVarint, Fits, Times;
    EncodedMore(v, rest);
    assert Decode32(EncodeVarint(v) + rest) == Decode32From(EncodeVarint(v / 128) + rest, 7, v % 128);
    SevenBits(v % 128);
    GroupsJoin(v);
    GroupsSplit(v);
    var v1, v2, v3 := v / 0x80, v / 0x4000, v / 0x20_0000;
    hide Decode32;
    Decode32Group(v1, rest, 7, v % 0x80);
    TimesLiterals(v1 % 128);
    Decode32Group(v2, rest, 14, v % 0x4000);
    TimesLiterals(v2 % 128);
    Decode32Group(v3, rest, 21, v % 0x20_0000);
    TimesLiterals(v3 % 128);
  }

  /** The fifth octet of a longer encoding: four bits are kept, three dropped without a check. */
  lemma Decode32Fifth(v: nat, rest: seq<byte>, result: nat)
    requires v >= 128 && Fits(result, 28)
    ensures Decode32From(EncodeVarint(v) + rest, 28, result)
         == Decode32From(EncodeVarint(v / 128) + rest, 35, result + 0x1000_0000 * (v % 16))
  {
    hide Decode32From, EncodeVarint, Fits, Times, Or, Shl;
    var b := v % 128;
    EncodedMore(v, rest);
    Decode32More(EncodeVarint(v) + rest, b, 28, result);
    LowFour(b, 28, result);
    TimesLiterals(b % 16);
    FourOfSeven(v);
  }

  lemma FourOfSeven(v: nat)
    ensures v % 128 % 16 == v % 16
  {
  }

  /** Exactly what pb_decode_varint32 makes of any 64-bit value sent to it: a value below 2^32
      is returned; otherwise bits 32 to 34 must be accompanied by higher groups, and those
      must look like a sign extension. */
  lemma Varint32Exactly(v: nat, rest: seq<byte>)
    requires v < 0x1_0000_0000_0000_0000
    ensures Decode32(EncodeVarint(v) + rest)
         == if v < 0x1_0000_0000 then Ok32(v, rest)
            else if v >= 0x8_0000_0000 && UpperGroupsOk(v / 0x8_0000_0000, 35, v % 0x1_0000_0000 >= 0x8000_0000)
            then Ok32(v % 0x1_0000_0000, rest)
            else Err32(false)
  {
    hide Decode32, Decode32From, EncodeVarint, UpperGroupsOk, Fits;
    if v < 0x1_0000_0000 {
      Varint32RoundTrip(v, rest);
    } else {
      Decode32FourGroups(v, rest);
      GroupsJoin(v);
      GroupsSplit(v);
      var w := v / 0x1000_0000;
      if v < 0x8_0000_0000 {
        Decode32Overflow(w, rest, v % 0x1000_0000);
      } else {
        Decode32Fifth(w, rest, v % 0x1000_0000);
        UpperFits(v);
        Decode32UpperFrom(w / 128, rest, 35, v % 0x1_0000_0000);
      }
    }
  }

  /** A fifth and last octet with any of bits 32 to 34. */
  lemma Decode32Overflow(v: nat, rest: seq<byte>, result: nat)
    requires 16 <= v < 128
    ensures Decode32From(EncodeVarint(v) + rest, 28, result) == Err32(false)
  {
    hide EncodeVarint, Or, Shl;
    EncodedOne(v, rest);
  }

  lemma UpperFits(v: nat)
    requires v < 0x1_0000_0000_0000_0000
    ensures Fits(v / 0x8_0000_0000, 29)
  {
    hide Fits;
    var u := v / 0x8_0000_0000;
    FitsStep(u, 21);
    FitsStep(u / 256, 13);
    FitsStep(u / 256 / 256, 5);
    assert u / 256 / 256 / 256 < 32;
    FitsIsBound(u / 256 / 256 / 256, 5);
    Pow2Five();
  }

  lemma Pow2Five()
    ensures Pow2(5) == 32
  {
  }

  /** A negative int32 is sent sign-extended to 64 bits, and comes back as its 32-bit form. */
  lemma Varint32Negative(n: int, rest: seq<byte>)
    requires -0x8000_0000 <= n < 0
    ensures Decode32(EncodeVarint(0x1_0000_0000_0000_0000 + n) + rest) == Ok32(0x1_0000_0000 + n, rest)
  {
    var v := 0x1_0000_0000_0000_0000 + n;
    hide Decode32, EncodeVarint;
    Varint32Exactly(v, rest);
    assert v / 0x8_0000_0000 == 0x1fff_ffff;
    SignExtension();
  }

  lemma SignExtension()
    ensures UpperGroupsOk(0x1fff_ffff, 35, true)
  {
    assert UpperGroupsOk(0x1, 63, true);
    assert UpperGroupsOk(0xff, 56, true);
    assert UpperGroupsOk(0x7fff, 49, true);
    assert UpperGroupsOk(0x3f_ffff, 42, true);
  }

  /** No value from 2^32 up to 2^63 gets through. */
  lemma Varint32Refuses(v: nat, rest: seq<byte>)
    requires 0x1_0000_0000 <= v < 0x8000_0000_0000_0000
    ensures Decode32(EncodeVarint(v) + rest) == Err32(false)
  {
    hide Decode32, EncodeVarint;
    Varint32Exactly(v, rest);
    if v >= 0x8_0000_0000 {
      UpperGroupsBounded(v / 0x8_0000_0000, 0, v % 0x1_0000_0000 >= 0x8000_0000);
    }
  }

  /** Groups that stop short of bit 63 cannot all be a sign extension. */
  lemma UpperGroupsBounded(v: nat, k: nat, bit31: bool)
    requires k <= 3 && 0 < v
    requires v < (if k == 0 then 0x1000_0000 else if k == 1 then 0x20_0000 else if k == 2 then 0x4000 else 0x80)
    ensures !UpperGroupsOk(v, 35 + 7 * k, bit31)
  {
    if v >= 128 { UpperGroupsBounded(v / 128, k + 1, bit31); }
  }

  /** Above 2^63 more than the sign extensions get through: here bits 32 to 62 are clear. */
  lemma Varint32AcceptsMore(rest: seq<byte>)
    ensures Decode32(EncodeVarint(0x8000_0000_8000_0000) + rest) == Ok32(0x8000_0000, rest)
  {
    hide Decode32, EncodeVarint;
    Varint32Exactly(0x8000_0000_8000_0000, rest);
    assert UpperGroupsOk(0x1, 63, true);
    assert UpperGroupsOk(0x80, 56, true);
    assert UpperGroupsOk(0x4000, 49, true);
    assert UpperGroupsOk(0x20_0000, 42, true);
    assert UpperGroupsOk(0x1000_0000, 35, true);
  }

  /** Shifting a seven-bit group to bit 28 of a 32-bit word keeps its low four bits. */
  lemma LowFour(b: nat, s: nat, result: nat)
    requires b < 128 && s == 28 && Fits(result, s)
    ensures Or(result, Shl(b, s, 32)) == result + Times(b % 16, s)
  {
    LowDistributes(b, s, 4);
    FourBits(b % 16);
    OrGroup(result, b % 16, s, 32);
    TimesFits(b % 16, s, 4);
    LowOfFit(Times(b % 16, s), 32);
    LowOfLow(b, 4);
  }

  lemma {:induction false} LowDistributes(b: nat, s: nat, w: nat)
    ensures Low(Times(b, s), s + w) == Times(Low(b, w), s)
    decreases s
  {
    if s > 0 {
      LowDistributes(b, s - 1, w);
      assert Times(b, s) / 2 == Times(b, s - 1);
    }
  }

  lemma LowOfLow(b: nat, w: nat)
    requires w == 4
    ensures Low(b, w) == b % 16
  {
    hide Low;
    var b1, b2, b3 := b / 2, b / 2 / 2, b / 2 / 2 / 2;
    LowMore(b, 3);
    LowMore(b1, 2);
    LowMore(b2, 1);
    LowMore(b3, 0);
  }

  lemma LowMore(b: nat, w: nat)
    ensures Low(b, w + 1) == 2 * Low(b / 2, w) + b % 2
    ensures Low(b, 0) == 0 && Low(b / 2, 0) == 0
  {
  }
}
