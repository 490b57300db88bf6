/** The bitset of pb_decode_noinit over the first 64 required fields. */
module PbRequired {
  import opened Bits
  import opened Bytes
  import opened PbMessage
  import opened Varints
  import opened PbDecoding

  const ALL_BITS: nat := 0xffff_ffff

  /** Field i is the k-th required one. */
  predicate Numbered(fields: seq<Field>, i: nat, k: nat) {
    i < |fields| && fields[i].htype == Required && RequiredBefore(fields, i) == k
  }

  predicate NumberSeen(fields: seq<Field>, seen: set<nat>, k: nat) {
    exists i :: i in seen && Numbered(fields, i, k)
  }

  /** Bit k % 32 of word k / 32 says whether required field number k was met. */
  ghost predicate Records(words: seq<nat>, fields: seq<Field>, seen: set<nat>) {
    && |words| == 2 && Fits(words[0], 32) && Fits(words[1], 32)
    && forall k: nat :: k < PB_MAX_REQUIRED_FIELDS ==> (Bit(words[k / 32], k % 32) <==> NumberSeen(fields, seen, k))
  }

  lemma {:induction false} RequiredGrows(fields: seq<Field>, i: nat, j: nat)
    requires i <= j <= |fields|
    ensures RequiredBefore(fields, i) <= RequiredBefore(fields, j)
    ensures i < j && fields[i].htype == Required ==> RequiredBefore(fields, i) < RequiredBefore(fields, j)
    decreases j
  {
    if i < j { RequiredGrows(fields, i, j - 1); }
  }

  /** Every number below the count belongs to one required field. */
  lemma {:induction false} NumberTaken(fields: seq<Field>, n: nat, k: nat) returns (i: nat)
    requires n <= |fields| && k < RequiredBefore(fields, n)
    ensures i < n && Numbered(fields, i, k)
    decreases n
  {
    if k < RequiredBefore(fields, n - 1) {
      i := NumberTaken(fields, n - 1, k);
    } else {
      i := n - 1;
    }
  }

  lemma NumberUnique(fields: seq<Field>, i: nat, j: nat, k: nat)
    requires Numbered(fields, i, k) && Numbered(fields, j, k)
    ensures i == j
  {
    if i < j { RequiredGrows(fields, i, j); }
    if j < i { RequiredGrows(fields, j, i); }
  }

  function Min(a: nat, b: nat): nat {
    if a < b then a else b
  }

  /** The required-field check, in terms of numbers. */
  lemma SeenByNumber(fields: seq<Field>, seen: set<nat>)
    ensures RequiredSeen(fields, seen) <==>
            NumbersSeen(fields, seen, 0, Min(RequiredBefore(fields, |fields|), PB_MAX_REQUIRED_FIELDS))
  {
    var count := Min(RequiredBefore(fields, |fields|), PB_MAX_REQUIRED_FIELDS);
    if RequiredSeen(fields, seen) {
      forall k: nat | k < count ensures NumberSeen(fields, seen, k) {
        var i := NumberTaken(fields, |fields|, k);
        assert i in seen;
      }
    }
    if NumbersSeen(fields, seen, 0, count) {
      forall i | 0 <= i < |fields| && fields[i].htype == Required && RequiredBefore(fields, i) < PB_MAX_REQUIRED_FIELDS
        ensures i in seen
      {
        RequiredGrows(fields, i, |fields|);
        var k := RequiredBefore(fields, i);
        assert NumberSeen(fields, seen, k);
        var j :| j in seen && Numbered(fields, j, k);
        NumberUnique(fields, i, j, k);
      }
    }
  }

  lemma NumberBounded(fields: seq<Field>, seen: set<nat>, k: nat)
    requires NumberSeen(fields, seen, k)
    ensures k < RequiredBefore(fields, |fields|)
  {
    var i :| i in seen && Numbered(fields, i, k);
    RequiredGrows(fields, i, |fields|);
  }

  /** Setting a bit of one word. */
  lemma RecordOne(words: seq<nat>, fields: seq<Field>, seen: set<nat>, i: nat)
    requires Records(words, fields, seen) && i < |fields| && fields[i].htype == Required
    requires RequiredBefore(fields, i) < PB_MAX_REQUIRED_FIELDS
    ensures var k := RequiredBefore(fields, i);
            Records(words[k / 32 := Or(words[k / 32], Pow2(k % 32))], fields, seen + {i})
  {
    hide Fits, Bit, Or, Pow2, RequiredBefore;
    var k := RequiredBefore(fields, i);
    var words' := words[k / 32 := Or(words[k / 32], Pow2(k % 32))];
    PowerFits(k % 32, 32);
    OrFits(words[k / 32], Pow2(k % 32), 32);
    forall n: nat | n < PB_MAX_REQUIRED_FIELDS
      ensures Bit(words'[n / 32], n % 32) <==> NumberSeen(fields, seen + {i}, n)
    {
      assert Bit(words[n / 32], n % 32) <==> NumberSeen(fields, seen, n);
      OrBits(words[k / 32], Pow2(k % 32), n % 32);
      Pow2Bits(k % 32, n % 32);
      NumberSeenMore(fields, seen, i, n);
    }
  }

  /** Fields that are not required, and required ones past the 64th, leave no trace. */
  lemma RecordNone(words: seq<nat>, fields: seq<Field>, seen: set<nat>, i: nat)
    requires Records(words, fields, seen) && i < |fields|
    requires fields[i].htype != Required || RequiredBefore(fields, i) >= PB_MAX_REQUIRED_FIELDS
    ensures Records(words, fields, seen + {i})
  {
    hide Fits, Bit, RequiredBefore;
    forall n: nat | n < PB_MAX_REQUIRED_FIELDS
      ensures Bit(words[n / 32], n % 32) <==> NumberSeen(fields, seen + {i}, n)
    {
      NumberSeenMore(fields, seen, i, n);
    }
  }

  lemma NumberSeenMore(fields: seq<Field>, seen: set<nat>, i: nat, n: nat)
    requires i < |fields|
    ensures NumberSeen(fields, seen + {i}, n) <==> NumberSeen(fields, seen, n) || Numbered(fields, i, n)
  {
    hide Numbered;
    if NumberSeen(fields, seen, n) {
      var j :| j in seen && Numbered(fields, j, n);
      assert j in seen + {i};
    }
    if Numbered(fields, i, n) { assert i in seen + {i}; }
  }

  lemma {:induction false} PowerFits(s: nat, w: nat)
    requires s < w
    ensures Fits(Pow2(s), w)
    decreases w
  {
    if s == 0 {
      assert Pow2(0) == 1;
      ZeroFits(w - 1);
    } else {
      PowerFits(s - 1, w - 1);
      assert Pow2(s) / 2 == Pow2(s - 1);
    }
  }

  lemma {:induction false} OnesFit(r: nat, w: nat)
    requires r <= w
    ensures Fits(Pow2(r) - 1, w)
    decreases w
  {
    if r == 0 {
      ZeroFits(w);
    } else {
      OnesFit(r - 1, w - 1);
      assert (Pow2(r) - 1) / 2 == Pow2(r - 1) - 1;
    }
  }

  predicate BitsBelow(word: nat, r: nat) {
    forall n: nat :: n < r ==> Bit(word, n)
  }

  predicate NumbersSeen(fields: seq<Field>, seen: set<nat>, lo: nat, hi: nat) {
    forall k: nat :: lo <= k < hi ==> NumberSeen(fields, seen, k)
  }

  /** A word of which only the low r bits may be set is 2^r - 1 exactly when they all are. */
  lemma OnesExactly(word: nat, r: nat)
    requires Fits(word, 32) && r <= 32 && forall n: nat :: r <= n < 32 ==> !Bit(word, n)
    ensures word == Pow2(r) - 1 <==> BitsBelow(word, r)
  {
    hide Fits, Bit, Pow2;
    var ones: nat := Pow2(r) - 1;
    forall n: nat | n < 32 ensures Bit(ones, n) <==> n < r { OnesBits(r, n); }
    if BitsBelow(word, r) {
      OnesFit(r, 32);
      WordsEqual(word, ones, 32);
    }
    if word == ones {
      forall n: nat | n < r ensures Bit(word, n) { assert Bit(ones, n) <==> n < r; }
      assert BitsBelow(word, r);
    }
  }

  /** The high bits shifted out of an all-ones word leave its low ones. */
  lemma {:induction false} OnesShifted(r: nat, d: nat)
    ensures (Pow2(r + d) - 1) / Pow2(d) == Pow2(r) - 1
    decreases d
  {
    if d > 0 {
      OnesShifted(r, d - 1);
      var n, p := Pow2(r + d) - 1, Pow2(d - 1);
      assert n / 2 == Pow2(r + d - 1) - 1;
      HalfFirst(n, p);
    }
  }

  lemma HalfFirst(n: nat, p: nat)
    requires p > 0
    ensures n / (2 * p) == n / 2 / p
  {
    var h, q := n / 2, n / 2 / p;
    assert n == 2 * h + n % 2 && h == p * q + h % p;
    assert 2 * h == (2 * p) * q + 2 * (h % p);
    Quotient(n, 2 * p, q, 2 * (h % p) + n % 2);
  }

  lemma Quotient(n: nat, d: nat, q: nat, r: nat)
    requires d > 0 && n == d * q + r && r < d
    ensures n / d == q
  {
    var e := n / d - q;
    assert n == d * (n / d) + n % d;
    assert d * e == r - n % d;
    assert e >= 1 ==> d * e >= d;
    assert e <= -1 ==> d * e <= 0 - d;
  }

  lemma AllBitsIs()
    ensures ALL_BITS == Pow2(32) - 1
  {
    PowerSum(16, 16);
    assert Pow2(8) == 0x100 && Pow2(16) == 0x1_0000;
  }

  lemma {:induction false} PowerSum(a: nat, b: nat)
    ensures Pow2(a + b) == Pow2(a) * Pow2(b)
    decreases a
  {
    if a > 0 {
      PowerSum(a - 1, b);
      assert 2 * (Pow2(a - 1) * Pow2(b)) == (2 * Pow2(a - 1)) * Pow2(b);
    }
  }

  /** Word w holds required fields 32 w to 32 w + 31; of those only the ones below count exist. */
  lemma WordCheck(words: seq<nat>, fields: seq<Field>, seen: set<nat>, w: nat, r: nat)
    requires Records(words, fields, seen) && w < 2 && r <= 32
    requires r < 32 ==> RequiredBefore(fields, |fields|) == 32 * w + r
    ensures words[w] == Pow2(r) - 1 <==> NumbersSeen(fields, seen, 32 * w, 32 * w + r)
  {
    hide Fits, Bit, Pow2, NumberSeen, RequiredBefore;
    var word := words[w];
    forall n: nat | n < 32 ensures Bit(word, n) <==> NumberSeen(fields, seen, 32 * w + n) {
      var k := 32 * w + n;
      assert k / 32 == w && k % 32 == n;
      assert Bit(words[k / 32], k % 32) <==> NumberSeen(fields, seen, k);
    }
    forall n: nat | r <= n < 32 ensures !Bit(word, n) {
      if NumberSeen(fields, seen, 32 * w + n) { NumberBounded(fields, seen, 32 * w + n); }
    }
    OnesExactly(word, r);
    if BitsBelow(word, r) {
      forall k: nat | 32 * w <= k < 32 * w + r ensures NumberSeen(fields, seen, k) {
        assert Bit(word, k - 32 * w) <==> NumberSeen(fields, seen, 32 * w + (k - 32 * w));
      }
      assert NumbersSeen(fields, seen, 32 * w, 32 * w + r);
    }
    if NumbersSeen(fields, seen, 32 * w, 32 * w + r) {
      forall n: nat | n < r ensures Bit(word, n) {
        assert Bit(word, n) <==> NumberSeen(fields, seen, 32 * w + n);
      }
      assert BitsBelow(word, r);
    }
  }

  /** The end of pb_decode_noinit: whole words first, then the remaining bits. */
  method CheckRequired(words: array<nat>, count: nat, ghost fields: seq<Field>, ghost seen: set<nat>) returns (ok: bool)
    requires Records(words[..], fields, seen) && count == Min(RequiredBefore(fields, |fields|), PB_MAX_REQUIRED_FIELDS)
    ensures ok <==> RequiredSeen(fields, seen)
  {
    hide Fits, Bit, Pow2, NumberSeen, RequiredBefore, Records, RequiredSeen;
    SeenByNumber(fields, seen);
    AllBitsIs();
    assert words.Length == 2 by { RecordsTwo(words[..], fields, seen); }
    for i := 0 to count / 32
      invariant NumbersSeen(fields, seen, 0, 32 * i)
    {
      WordCheck(words[..], fields, seen, i, 32);
      if words[i] != ALL_BITS {
        return false;
      }
    }
    var r := count % 32;
    if r != 0 {
      WordCheck(words[..], fields, seen, count / 32, r);
      OnesShifted(r, 32 - r);
      if words[count / 32] != ALL_BITS / Pow2(32 - r) {
        return false;
      }
    }
    return true;
  }

  lemma RecordsTwo(words: seq<nat>, fields: seq<Field>, seen: set<nat>)
    requires Records(words, fields, seen)
    ensures |words| == 2
  {
  }

  lemma NothingRecorded(fields: seq<Field>)
    ensures Records([0, 0], fields, {})
  {
    ZeroFits(32);
    forall k: nat | k < PB_MAX_REQUIRED_FIELDS
      ensures Bit([0, 0][k / 32], k % 32) <==> NumberSeen(fields, {}, k)
    {
      ZeroBits(k % 32);
    }
  }

  /** The tags of the keys that the loop of pb_decode_noinit reads, of known fields or not; none
      if something on the way cannot be decoded. */
  function TagsRead(fields: seq<Field>, m: Message, s: seq<byte>): Option<seq<nat>>
    requires WellFormed(fields) && Typed(fields, m)
    decreases |s|
  {
    if s == [] then Some([])
    else
      match Decode32(s)
      case Err32(_) => None
      case Ok32(key, rest) =>
        if key == 0 then Some([])
        else
          var found := FindField(fields, key / 8);
          if found.Some? then
            var i := found.value;
            var r := DecField(fields[i], key % 8, Load(fields, m, i), rest);
            if r.None? then None
            else
              StoreTyped(fields, m, i, r.value.0);
              Before(key / 8, TagsRead(fields, Store(fields, m, i, r.value.0), r.value.1))
          else if fields == [] && key / 8 == 0 then None
          else
            var r := SkipField(key % 8, rest);
            if r.None? then None else Before(key / 8, TagsRead(fields, m, r.value))
  }

  function Before(tag: nat, tags: Option<seq<nat>>): Option<seq<nat>> {
    if tags.None? then None else Some([tag] + tags.value)
  }

  /** Each of the first 64 required fields was met before or is met behind one of the tags. */
  predicate RequiredMet(fields: seq<Field>, met: set<nat>, tags: seq<nat>) {
    forall i :: 0 <= i < |fields| ==>
      fields[i].htype == Required && RequiredBefore(fields, i) < PB_MAX_REQUIRED_FIELDS ==> i in met || fields[i].tag in tags
  }

  lemma FieldMet(fields: seq<Field>, met: set<nat>, i: nat, tags: seq<nat>)
    requires TagsUnique(fields) && i < |fields|
    ensures RequiredMet(fields, met, [fields[i].tag] + tags) <==> RequiredMet(fields, met + {i}, tags)
  {
    forall j | 0 <= j < |fields|
      ensures j in met || fields[j].tag in [fields[i].tag] + tags <==> j in met + {i} || fields[j].tag in tags
    {
      assert fields[j].tag == fields[i].tag <==> j == i;
    }
  }

  lemma NoFieldMet(fields: seq<Field>, met: set<nat>, tag: nat, tags: seq<nat>)
    requires FindField(fields, tag).None?
    ensures RequiredMet(fields, met, [tag] + tags) <==> RequiredMet(fields, met, tags)
  {
  }

  lemma {:induction false} LoopMeets(fields: seq<Field>, m: Message, met: set<nat>, s: seq<byte>)
    requires WellFormed(fields) && Typed(fields, m)
    ensures DecLoop(fields, m, met, s).Some?
       <==> TagsRead(fields, m, s).Some? && RequiredMet(fields, met, TagsRead(fields, m, s).value)
    decreases |s|
  {
    hide DecField, SkipField, Decode32, TypedItems, TypedValue, WellFormedField, SlotOf, RequiredMet, RequiredSeen;
    NothingMore(fields, met);
    if s != [] && Decode32(s).Ok32? && Decode32(s).value != 0 {
      var key, rest := Decode32(s).value, Decode32(s).rest;
      var found := FindField(fields, key / 8);
      if found.Some? {
        var i := found.value;
        var r := DecField(fields[i], key % 8, Load(fields, m, i), rest);
        if r.Some? {
          StoreTyped(fields, m, i, r.value.0);
          var m' := Store(fields, m, i, r.value.0);
          LoopMeets(fields, m', met + {i}, r.value.1);
          if TagsRead(fields, m', r.value.1).Some? { FieldMet(fields, met, i, TagsRead(fields, m', r.value.1).value); }
        }
      } else {
        var r := SkipField(key % 8, rest);
        if r.Some? {
          LoopMeets(fields, m, met, r.value);
          if TagsRead(fields, m, r.value).Some? { NoFieldMet(fields, met, key / 8, TagsRead(fields, m, r.value).value); }
        }
      }
    }
  }

  lemma NothingMore(fields: seq<Field>, met: set<nat>)
    ensures RequiredMet(fields, met, []) <==> RequiredSeen(fields, met)
  {
  }

  /** For every byte string: pb_decode succeeds exactly when all it reads can be decoded and the
      key of each of the first 64 required fields is among what it read. */
  lemma DecodesExactly(fields: seq<Field>, s: seq<byte>)
    requires WellFormed(fields)
    ensures Typed(fields, Default(fields))
    ensures Dec(fields, s).Some?
       <==> var tags := TagsRead(fields, Default(fields), s);
            && tags.Some?
            && forall i :: 0 <= i < |fields| ==>
                 fields[i].htype == Required && RequiredBefore(fields, i) < PB_MAX_REQUIRED_FIELDS ==>
                 fields[i].tag in tags.value
  {
    DefaultTyped(fields);
    LoopMeets(fields, Default(fields), {}, s);
  }
}
