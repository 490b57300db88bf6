/** The DTLS replay window of dtls_record.cc: a 64-bit map of the last 64 record
    numbers below the largest one seen (section 4.1.2.6 of RFC 6347). */
module ReplayWindow {
  import opened Bits
  import opened Bytes

  const WINDOW_SIZE: nat := 64

  datatype Window = Window(map_: nat, maxSeqNum: nat)

  const EMPTY_WINDOW := Window(0, 0)

  /** The 8-octet sequence field, epoch first, as one integer. */
  function U64Be(s: seq<byte>): nat
  {
    if s == [] then 0 else U64Be(s[..|s| - 1]) * 256 + s[|s| - 1] as int
  }

  lemma {:induction false} U64BeInjective(a: seq<byte>, b: seq<byte>)
    requires |a| == |b| && U64Be(a) == U64Be(b)
    ensures a == b
  {
    if a != [] {
      var n := |a| - 1;
      U64BeInjective(a[..n], b[..n]);
      assert a == a[..n] + [a[n]] && b == b[..n] + [b[n]];
    }
  }

  lemma {:induction false} AppendOctetFits(m: nat, octet: byte, n: nat)
    requires Fits(m, n)
    ensures Fits(m * 256 + octet as nat, n + 8)
  {
    var x := m * 256 + octet as nat;
    assert x / 2 / 2 / 2 / 2 / 2 / 2 / 2 / 2 == m;
    forall k: nat, y: nat | Fits(y / 2, k) ensures Fits(y, k + 1) {}
    assert Fits(x / 2 / 2 / 2 / 2 / 2 / 2 / 2, n + 1);
    assert Fits(x / 2 / 2 / 2 / 2 / 2 / 2, n + 2);
    assert Fits(x / 2 / 2 / 2 / 2 / 2, n + 3);
    assert Fits(x / 2 / 2 / 2 / 2, n + 4);
    assert Fits(x / 2 / 2 / 2, n + 5);
    assert Fits(x / 2 / 2, n + 6);
    assert Fits(x / 2, n + 7);
  }

  lemma {:induction false} U64BeFits(s: seq<byte>)
    ensures Fits(U64Be(s), 8 * |s|)
  {
    if s != [] {
      var n := |s| - 1;
      U64BeFits(s[..n]);
      AppendOctetFits(U64Be(s[..n]), s[n], 8 * n);
    }
  }

  /** The shift-and-or loop over the sequence octets. */
  method ToU64Be(s: seq<byte>) returns (ret: nat)
    requires |s| == 8
    ensures ret == U64Be(s)
  {
    ret := 0;
    for i := 0 to 8
      invariant ret == U64Be(s[..i])
    {
      assert s[..i + 1][..i] == s[..i];
      var shifted := Shl(ret, 8, 64);
      ShiftInOctet(ret, s[i], s[..i]);
      ret := Or(shifted, s[i]);
    }
    assert s[..8] == s;
  }

  lemma {:induction false} OrCommutes(a: nat, b: nat)
    ensures Or(a, b) == Or(b, a)
    decreases a + b
  {
    if a != 0 || b != 0 { OrCommutes(a / 2, b / 2); }
  }

  /** While fewer than 8 octets have been read, shifting by 8 loses nothing and
      or-ing the next octet is adding it. */
  lemma ShiftInOctet(ret: nat, octet: byte, prefix: seq<byte>)
    requires ret == U64Be(prefix) && |prefix| < 8
    ensures Or(Shl(ret, 8, 64), octet) == ret * 256 + octet as int
  {
    U64BeFits(prefix);
    AppendOctetFits(ret, 0, 8 * |prefix|);
    FitsMore(ret * 256, 8 * |prefix| + 8, 64);
    assert Pow2(8) == 256;
    TimesIsProduct(ret, 8);
    LowOfFit(Times(ret, 8), 64);
    OrCommutes(Times(ret, 8), octet);
    FitsIsBound(octet, 8);
    OrDisjoint(octet, ret, 8);
  }

  /** True when the record is a replay or too old to tell. */
  predicate Discards(w: Window, s: nat) {
    s <= w.maxSeqNum &&
    var idx := w.maxSeqNum - s;
    idx >= WINDOW_SIZE || And(w.map_, Shl(1, idx, 64)) != 0
  }

  /** The shift that makes room for a new largest number. */
  function Slide(w: Window, s: nat): Window {
    if s > w.maxSeqNum then
      var shift := s - w.maxSeqNum;
      Window(if shift >= WINDOW_SIZE then 0 else Shl(w.map_, shift, 64), s)
    else w
  }

  function Record(w: Window, s: nat): Window {
    var slid := Slide(w, s);
    var idx := slid.maxSeqNum - s;
    if idx < WINDOW_SIZE then slid.(map_ := Or(slid.map_, Shl(1, idx, 64))) else slid
  }

  /** The window stands for the set of record numbers accepted so far: bit i of the map is
      set exactly when maxSeqNum - i was accepted. */
  ghost predicate Represents(w: Window, accepted: set<nat>) {
    && Fits(w.map_, 64)
    && (forall s :: s in accepted ==> s <= w.maxSeqNum)
    && (forall i: nat :: i < WINDOW_SIZE ==>
          (Bit(w.map_, i) <==> i <= w.maxSeqNum && w.maxSeqNum - i in accepted))
  }

  lemma MaskTest(m: nat, idx: nat)
    requires idx < WINDOW_SIZE && Fits(m, 64)
    ensures And(m, Shl(1, idx, 64)) != 0 <==> Bit(m, idx)
  {
    var x := And(m, Shl(1, idx, 64));
    forall i: nat ensures Bit(x, i) <==> i == idx && Bit(m, idx) {
      AndBits(m, Shl(1, idx, 64), i);
      OneShifted(idx, i);
    }
    if x == 0 {
      ZeroBits(idx);
    } else if !Bit(m, idx) {
      AndFits(m, Shl(1, idx, 64), 64);
      ZeroFits(64);
      forall i: nat | i < 64 ensures Bit(x, i) <==> Bit(0, i) { ZeroBits(i); }
      WordsEqual(x, 0, 64);
    }
  }

  lemma OneShifted(idx: nat, i: nat)
    requires idx < WINDOW_SIZE
    ensures Bit(Shl(1, idx, 64), i) <==> i == idx
  {
    ShlBits(1, idx, 64, i);
    if i > idx { ZeroBits(i - idx - 1); }
  }

  /** The discard test, read against the set the window stands for. */
  lemma DiscardMeaning(w: Window, accepted: set<nat>, s: nat)
    requires Represents(w, accepted)
    ensures Discards(w, s) <==> s in accepted || s + WINDOW_SIZE <= w.maxSeqNum
  {
    if s <= w.maxSeqNum && w.maxSeqNum - s < WINDOW_SIZE {
      MaskTest(w.map_, w.maxSeqNum - s);
    }
  }

  lemma RecordMeaning(w: Window, accepted: set<nat>, s: nat)
    requires Represents(w, accepted)
    requires !Discards(w, s)
    ensures Represents(Record(w, s), accepted + {s})
    ensures Record(w, s).maxSeqNum == if s > w.maxSeqNum then s else w.maxSeqNum
  {
    DiscardMeaning(w, accepted, s);
    SlideMeaning(w, accepted, s);
    AddMember(Slide(w, s), accepted, s);
  }

  lemma AddMember(w: Window, accepted: set<nat>, s: nat)
    requires Represents(w, accepted)
    requires s <= w.maxSeqNum && w.maxSeqNum - s < WINDOW_SIZE
    ensures Represents(Window(Or(w.map_, Shl(1, w.maxSeqNum - s, 64)), w.maxSeqNum), accepted + {s})
  {
    var idx := w.maxSeqNum - s;
    var mask := Shl(1, idx, 64);
    LowFits(Times(1, idx), 64);
    OrFits(w.map_, mask, 64);
    forall i: nat | i < WINDOW_SIZE
      ensures Bit(Or(w.map_, mask), i) <==> Bit(w.map_, i) || i == idx
    {
      OrBits(w.map_, mask, i);
      OneShifted(idx, i);
    }
  }

  /** Sliding moves the numbering, not the set. */
  lemma SlideMeaning(w: Window, accepted: set<nat>, s: nat)
    requires Represents(w, accepted)
    ensures Represents(Slide(w, s), accepted)
  {
    if s > w.maxSeqNum {
      var shift := s - w.maxSeqNum;
      LowFits(Times(w.map_, shift), 64);
      ZeroFits(64);
      forall i: nat | i < WINDOW_SIZE
        ensures Bit(Slide(w, s).map_, i) <==> i <= s && s - i in accepted
      {
        if shift >= WINDOW_SIZE { ZeroBits(i); } else { ShlBits(w.map_, shift, 64, i); }
      }
    }
  }

  lemma EmptyWindowIsFresh()
    ensures Represents(EMPTY_WINDOW, {})
  {
    ZeroFits(64);
    forall i: nat | i < WINDOW_SIZE ensures !Bit(0, i) { ZeroBits(i); }
  }

  /** The window after one epoch's arrivals, in order. */
  function After(arriving: seq<nat>): Window {
    if arriving == [] then EMPTY_WINDOW
    else
      var n := |arriving| - 1;
      var w := After(arriving[..n]);
      if Discards(w, arriving[n]) then w else Record(w, arriving[n])
  }

  /** Whether the k-th arrival of a run gets past the window. */
  predicate Accepts(arriving: seq<nat>, k: nat)
    requires k < |arriving|
  {
    !Discards(After(arriving[..k]), arriving[k])
  }

  /** The numbers a run let through. */
  function AcceptedSet(arriving: seq<nat>): set<nat> {
    if arriving == [] then {}
    else
      var n := |arriving| - 1;
      AcceptedSet(arriving[..n]) + (if Accepts(arriving, n) then {arriving[n]} else {})
  }

  lemma {:induction false} AcceptedSetMembers(arriving: seq<nat>, k: nat)
    requires k < |arriving| && Accepts(arriving, k)
    ensures arriving[k] in AcceptedSet(arriving)
  {
    hide After, Discards;
    var n := |arriving| - 1;
    if k < n {
      assert arriving[..n][..k] == arriving[..k];
      AcceptedSetMembers(arriving[..n], k);
    }
  }

  /** The window refines the set of accepted numbers, over every run. */
  lemma {:induction false} WindowRefinesSet(arriving: seq<nat>)
    ensures Represents(After(arriving), AcceptedSet(arriving))
    ensures After(arriving).maxSeqNum == 0 || After(arriving).maxSeqNum in AcceptedSet(arriving)
  {
    if arriving == [] {
      EmptyWindowIsFresh();
    } else {
      var n := |arriving| - 1;
      var w := After(arriving[..n]);
      WindowRefinesSet(arriving[..n]);
      if !Discards(w, arriving[n]) {
        RecordMeaning(w, AcceptedSet(arriving[..n]), arriving[n]);
      }
    }
  }

  /** For every run: an arrival is accepted exactly when it was not accepted before and
      nothing accepted before is 64 or more ahead of it. */
  lemma AcceptsExactly(arriving: seq<nat>, k: nat)
    requires k < |arriving|
    ensures Accepts(arriving, k) <==>
              && arriving[k] !in AcceptedSet(arriving[..k])
              && forall m :: m in AcceptedSet(arriving[..k]) ==> m < arriving[k] + WINDOW_SIZE
  {
    WindowRefinesSet(arriving[..k]);
    DiscardMeaning(After(arriving[..k]), AcceptedSet(arriving[..k]), arriving[k]);
  }

  /** No record number is accepted twice in one epoch. */
  lemma NeverAcceptedTwice(arriving: seq<nat>, j: nat, k: nat)
    requires j < k < |arriving| && arriving[j] == arriving[k]
    ensures !(Accepts(arriving, j) && Accepts(arriving, k))
  {
    AcceptsExactly(arriving, k);
    var before := arriving[..k];
    if Accepts(arriving, j) {
      assert before[..j] == arriving[..j];
      AcceptedSetMembers(before, j);
    }
  }

  /** DTLS1_BITMAP: the window as the record layer updates it. */
  class Dtls1Bitmap {
    var map_: nat
    var maxSeqNum: nat
    ghost var accepted: set<nat>

    function View(): Window
      reads this
    {
      Window(map_, maxSeqNum)
    }

    ghost predicate Valid()
      reads this
    {
      Represents(View(), accepted)
    }

    constructor ()
      ensures Valid() && View() == EMPTY_WINDOW && accepted == {}
    {
      map_, maxSeqNum, accepted := 0, 0, {};
      new;
      EmptyWindowIsFresh();
    }

    /** The memset on a new read epoch. */
    method Reset()
      modifies this
      ensures Valid() && View() == EMPTY_WINDOW && accepted == {}
    {
      map_, maxSeqNum, accepted := 0, 0, {};
      EmptyWindowIsFresh();
    }

    method ShouldDiscard(sequence: seq<byte>) returns (discard: bool)
      requires Valid() && |sequence| == 8
      ensures discard == Discards(View(), U64Be(sequence))
      ensures discard <==> U64Be(sequence) in accepted || U64Be(sequence) + WINDOW_SIZE <= maxSeqNum
    {
      var s := ToU64Be(sequence);
      DiscardMeaning(View(), accepted, s);
      if s > maxSeqNum {
        return false;
      }
      var idx := maxSeqNum - s;
      discard := idx >= WINDOW_SIZE || And(map_, Shl(1, idx, 64)) != 0;
    }

    /** It is an error to call this on a stale or repeated number. */
    method RecordSeq(sequence: seq<byte>)
      requires Valid() && |sequence| == 8
      requires !Discards(View(), U64Be(sequence))
      modifies this
      ensures Valid() && accepted == old(accepted) + {U64Be(sequence)}
      ensures View() == Record(old(View()), U64Be(sequence))
    {
      var s := ToU64Be(sequence);
      RecordMeaning(View(), accepted, s);
      if s > maxSeqNum {
        var shift := s - maxSeqNum;
        if shift >= WINDOW_SIZE {
          map_ := 0;
        } else {
          map_ := Shl(map_, shift, 64);
        }
        maxSeqNum := s;
      }
      var idx := maxSeqNum - s;
      if idx < WINDOW_SIZE {
        map_ := Or(map_, Shl(1, idx, 64));
      }
      accepted := accepted + {s};
    }
  }
}
