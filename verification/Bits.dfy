/** Fixed-width bit operations, read off one bit at a time.
    C words are modelled as natural numbers; every operation below has one lemma
    saying what each bit of its result is, and WordsEqual turns bitwise agreement
    back into equality. */
module Bits {

  /** Bit i of m. */
  predicate Bit(m: nat, i: nat)
    decreases i, m
  {
    if i == 0 then m % 2 == 1 else Bit(m / 2, i - 1)
  }

  function Pow2(n: nat): (p: nat)
    ensures p >= 1
  {
    if n == 0 then 1 else 2 * Pow2(n - 1)
  }

  /** m is a word of w bits. */
  predicate Fits(m: nat, w: nat)
    decreases w, m
  {
    if w == 0 then m == 0 else Fits(m / 2, w - 1)
  }

  lemma {:induction false} FitsIsBound(m: nat, w: nat)
    ensures Fits(m, w) <==> m < Pow2(w)
    decreases w
  {
    if w > 0 { FitsIsBound(m / 2, w - 1); }
  }

  /** C's a | b. */
  function Or(a: nat, b: nat): nat
    decreases a + b
  {
    if a == 0 && b == 0 then 0
    else 2 * Or(a / 2, b / 2) + (if a % 2 == 1 || b % 2 == 1 then 1 else 0)
  }

  /** C's a & b. */
  function And(a: nat, b: nat): nat
    decreases a + b
  {
    if a == 0 || b == 0 then 0
    else 2 * And(a / 2, b / 2) + (if a % 2 == 1 && b % 2 == 1 then 1 else 0)
  }

  /** C's ~m in a word of w bits. */
  function Not(m: nat, w: nat): nat
    decreases w, m
  {
    if w == 0 then 0 else 2 * Not(m / 2, w - 1) + (1 - m % 2)
  }

  /** Truncation of m to w bits. */
  function Low(m: nat, w: nat): nat
    decreases w, m
  {
    if w == 0 then 0 else 2 * Low(m / 2, w - 1) + m % 2
  }

  /** m with s zero bits appended: m times 2^s. */
  function Times(m: nat, s: nat): nat
    decreases s, m
  {
    if s == 0 then m else 2 * Times(m, s - 1)
  }

  /** C's m << s in a word of w bits. */
  function Shl(m: nat, s: nat, w: nat): nat {
    Low(Times(m, s), w)
  }

  lemma {:induction false} ZeroBits(i: nat)
    ensures !Bit(0, i)
    decreases i
  {
    if i > 0 { ZeroBits(i - 1); }
  }

  lemma {:induction false} OrBits(a: nat, b: nat, i: nat)
    ensures Bit(Or(a, b), i) <==> Bit(a, i) || Bit(b, i)
    decreases i
  {
    if a == 0 && b == 0 {
      ZeroBits(i);
    } else {
      var half := Or(a / 2, b / 2);
      var low := if a % 2 == 1 || b % 2 == 1 then 1 else 0;
      assert Or(a, b) == 2 * half + low;
      assert (2 * half + low) / 2 == half && (2 * half + low) % 2 == low;
      if i > 0 { OrBits(a / 2, b / 2, i - 1); }
    }
  }

  lemma {:induction false} AndBits(a: nat, b: nat, i: nat)
    ensures Bit(And(a, b), i) <==> Bit(a, i) && Bit(b, i)
    decreases i
  {
    if a == 0 || b == 0 {
      ZeroBits(i);
    } else {
      var half := And(a / 2, b / 2);
      var low := if a % 2 == 1 && b % 2 == 1 then 1 else 0;
      assert And(a, b) == 2 * half + low;
      assert (2 * half + low) / 2 == half && (2 * half + low) % 2 == low;
      if i > 0 { AndBits(a / 2, b / 2, i - 1); }
    }
  }

  lemma {:induction false} NotBits(m: nat, w: nat, i: nat)
    ensures Bit(Not(m, w), i) <==> i < w && !Bit(m, i)
    decreases w
  {
    if w == 0 {
      ZeroBits(i);
    } else if i > 0 {
      NotBits(m / 2, w - 1, i - 1);
      assert Not(m, w) / 2 == Not(m / 2, w - 1);
    }
  }

  lemma {:induction false} LowBits(m: nat, w: nat, i: nat)
    ensures Bit(Low(m, w), i) <==> i < w && Bit(m, i)
    decreases w
  {
    if w == 0 {
      ZeroBits(i);
    } else if i > 0 {
      LowBits(m / 2, w - 1, i - 1);
      assert Low(m, w) / 2 == Low(m / 2, w - 1);
    }
  }

  lemma {:induction false} TimesBits(m: nat, s: nat, i: nat)
    ensures Bit(Times(m, s), i) <==> s <= i && Bit(m, i - s)
    decreases s
  {
    if s > 0 && i > 0 {
      TimesBits(m, s - 1, i - 1);
      assert Times(m, s) / 2 == Times(m, s - 1);
    }
  }

  lemma {:induction false} TimesIsProduct(m: nat, s: nat)
    ensures Times(m, s) == m * Pow2(s)
    decreases s
  {
    if s > 0 {
      TimesIsProduct(m, s - 1);
      assert m * Pow2(s) == 2 * (m * Pow2(s - 1));
    }
  }

  lemma ShlBits(m: nat, s: nat, w: nat, i: nat)
    ensures Bit(Shl(m, s, w), i) <==> s <= i < w && Bit(m, i - s)
  {
    TimesBits(m, s, i);
    LowBits(Times(m, s), w, i);
  }

  lemma {:induction false} Pow2Bits(s: nat, i: nat)
    ensures Bit(Pow2(s), i) <==> i == s
    decreases s
  {
    if s == 0 {
      if i > 0 { ZeroBits(i - 1); }
    } else if i > 0 {
      Pow2Bits(s - 1, i - 1);
    }
  }

  /** (1 << n) - 1 is the mask of the n low bits. */
  lemma {:induction false} OnesBits(n: nat, i: nat)
    ensures Bit(Pow2(n) - 1, i) <==> i < n
    decreases n
  {
    if n == 0 {
      ZeroBits(i);
    } else if i > 0 {
      OnesBits(n - 1, i - 1);
      assert (Pow2(n) - 1) / 2 == Pow2(n - 1) - 1;
    }
  }

  lemma {:induction false} ZeroFits(w: nat)
    ensures Fits(0, w)
    decreases w
  {
    if w > 0 { ZeroFits(w - 1); }
  }

  lemma {:induction false} FitsMore(m: nat, a: nat, b: nat)
    requires a <= b && Fits(m, a)
    ensures Fits(m, b)
    decreases b
  {
    if a == 0 {
      ZeroFits(b);
    } else {
      FitsMore(m / 2, a - 1, b - 1);
    }
  }

  lemma {:induction false} LowOfFit(m: nat, w: nat)
    requires Fits(m, w)
    ensures Low(m, w) == m
    decreases w
  {
    if w > 0 { LowOfFit(m / 2, w - 1); }
  }

  lemma {:induction false} LowFits(m: nat, w: nat)
    ensures Fits(Low(m, w), w)
    decreases w
  {
    if w > 0 { LowFits(m / 2, w - 1); }
  }

  lemma {:induction false} OrFits(a: nat, b: nat, w: nat)
    requires Fits(a, w) && Fits(b, w)
    ensures Fits(Or(a, b), w)
    decreases w
  {
    if w > 0 && (a != 0 || b != 0) { OrFits(a / 2, b / 2, w - 1); }
  }

  lemma {:induction false} AndFits(a: nat, b: nat, w: nat)
    requires Fits(a, w)
    ensures Fits(And(a, b), w)
    decreases w
  {
    if a == 0 || b == 0 {
      ZeroFits(w);
    } else if w > 0 {
      AndFits(a / 2, b / 2, w - 1);
    }
  }

  /** Two w-bit words that agree on every bit are equal. */
  lemma {:induction false} WordsEqual(a: nat, b: nat, w: nat)
    requires Fits(a, w) && Fits(b, w)
    requires forall i: nat :: i < w ==> (Bit(a, i) <==> Bit(b, i))
    ensures a == b
    decreases w
  {
    if w > 0 {
      assert Bit(a, 0) <==> Bit(b, 0);
      forall i: nat | i < w - 1
        ensures Bit(a / 2, i) <==> Bit(b / 2, i)
      {
        assert Bit(a, i + 1) <==> Bit(b, i + 1);
      }
      WordsEqual(a / 2, b / 2, w - 1);
    }
  }

  /** Or-ing is adding when the operands share no bit: a below 2^s, b shifted by s. */
  lemma {:induction false} OrDisjoint(a: nat, b: nat, s: nat)
    requires Fits(a, s)
    ensures Or(a, Times(b, s)) == a + Times(b, s)
    decreases s
  {
    if s == 0 {
      OrZero(b);
    } else if a != 0 || Times(b, s) != 0 {
      OrDisjoint(a / 2, b, s - 1);
      assert Times(b, s) / 2 == Times(b, s - 1);
    }
  }

  lemma {:induction false} OrZero(b: nat)
    ensures Or(0, b) == b
  {
    if b != 0 { OrZero(b / 2); }
  }
}
