/**
  32-bit register words and their single bits.

  A word is a bit-vector, so `|`, `&`, `^` and `!` are the operators of the C
  source on `uint32_t`.  Bits are counted from the least significant one.
 */
module Words {

  type Word = bv32

  type Pin = k: nat | k < 32

  /** The value of `1 << k` for a pin number. */
  function PinMask(k: nat): (mask: Word)
    requires k < 32
  {
    MaskAt(k as bv6)
  }

  /** Bit `k` of `w`, read as `(w >> k) & 1`. */
  predicate Bit(w: Word, k: nat)
    requires k < 32
  {
    BitAt(w, k as bv6)
  }

  // The bit-level facts are proved with a bit-vector shift amount, where the
  // solver decides them by itself, and lifted to pin numbers afterwards.

  function MaskAt(s: bv6): Word
    requires s < 32
  {
    (1 as Word) << s
  }

  predicate BitAt(w: Word, s: bv6)
    requires s < 32
  {
    (w >> s) & 1 == 1
  }

  lemma OrAt(a: Word, b: Word, s: bv6)
    requires s < 32
    ensures BitAt(a | b, s) <==> BitAt(a, s) || BitAt(b, s)
  {
  }

  lemma AndAt(a: Word, b: Word, s: bv6)
    requires s < 32
    ensures BitAt(a & b, s) <==> BitAt(a, s) && BitAt(b, s)
  {
  }

  lemma XorAt(a: Word, b: Word, s: bv6)
    requires s < 32
    ensures BitAt(a ^ b, s) <==> BitAt(a, s) != BitAt(b, s)
  {
  }

  lemma AndNotAt(a: Word, b: Word, s: bv6)
    requires s < 32
    ensures BitAt(a & !b, s) <==> BitAt(a, s) && !BitAt(b, s)
  {
  }

  lemma ZeroAt(s: bv6)
    requires s < 32
    ensures !BitAt(0, s)
  {
  }

  lemma MaskBitAt(j: bv6, k: bv6)
    requires j < 32 && k < 32
    ensures BitAt(MaskAt(j), k) <==> j == k
  {
  }

  lemma PinNumber(j: nat, k: nat)
    requires j < 32 && k < 32
    ensures j as bv6 < 32
    ensures j as bv6 == k as bv6 <==> j == k
  {
  }

  /** The masks are the powers of two, counted from the least significant bit. */
  lemma MaskDoubles(k: nat)
    requires k < 31
    ensures PinMask(0) == 1 && PinMask(k + 1) == PinMask(k) << 1
  {
    var s := k as bv6;
    assert (k + 1) as bv6 == s + 1;
    MaskDoublesAt(s);
  }

  lemma MaskDoublesAt(s: bv6)
    requires s < 31
    ensures MaskAt(0) == 1 && MaskAt(s + 1) == MaskAt(s) << 1
  {
  }

  // How the word operators act on one bit.

  lemma OrBit(a: Word, b: Word, k: nat)
    requires k < 32
    ensures Bit(a | b, k) <==> Bit(a, k) || Bit(b, k)
  {
    hide BitAt;
    OrAt(a, b, k as bv6);
  }

  lemma AndBit(a: Word, b: Word, k: nat)
    requires k < 32
    ensures Bit(a & b, k) <==> Bit(a, k) && Bit(b, k)
  {
    hide BitAt;
    AndAt(a, b, k as bv6);
  }

  lemma XorBit(a: Word, b: Word, k: nat)
    requires k < 32
    ensures Bit(a ^ b, k) <==> Bit(a, k) != Bit(b, k)
  {
    hide BitAt;
    XorAt(a, b, k as bv6);
  }

  lemma AndNotBit(a: Word, b: Word, k: nat)
    requires k < 32
    ensures Bit(a & !b, k) <==> Bit(a, k) && !Bit(b, k)
  {
    hide BitAt;
    AndNotAt(a, b, k as bv6);
  }

  lemma ZeroBit(k: nat)
    requires k < 32
    ensures !Bit(0, k)
  {
    hide BitAt;
    ZeroAt(k as bv6);
  }

  /** `1 << j` has exactly bit `j`. */
  lemma MaskBit(j: nat, k: nat)
    requires j < 32 && k < 32
    ensures Bit(PinMask(j), k) <==> j == k
  {
    hide BitAt, MaskAt;
    MaskBitAt(j as bv6, k as bv6);
    PinNumber(j, k);
  }

  /** A word without a set bit is zero. */
  lemma NoBits(a: Word)
    requires forall k: nat {:trigger Bit(a, k)} :: k < 32 ==> !Bit(a, k)
    ensures a == 0
  {
    assert !Bit(a, 0) && !Bit(a, 1) && !Bit(a, 2) && !Bit(a, 3);
    assert !Bit(a, 4) && !Bit(a, 5) && !Bit(a, 6) && !Bit(a, 7);
    assert !Bit(a, 8) && !Bit(a, 9) && !Bit(a, 10) && !Bit(a, 11);
    assert !Bit(a, 12) && !Bit(a, 13) && !Bit(a, 14) && !Bit(a, 15);
    assert !Bit(a, 16) && !Bit(a, 17) && !Bit(a, 18) && !Bit(a, 19);
    assert !Bit(a, 20) && !Bit(a, 21) && !Bit(a, 22) && !Bit(a, 23);
    assert !Bit(a, 24) && !Bit(a, 25) && !Bit(a, 26) && !Bit(a, 27);
    assert !Bit(a, 28) && !Bit(a, 29) && !Bit(a, 30) && !Bit(a, 31);
  }

  /** Words with the same bits are the same word. */
  lemma SameBits(a: Word, b: Word)
    requires forall k: nat {:trigger Bit(a, k)} {:trigger Bit(b, k)} :: k < 32 ==> Bit(a, k) == Bit(b, k)
    ensures a == b
  {
    hide Bit;
    var d := a ^ b;
    forall k: nat {:trigger Bit(d, k)} | k < 32
      ensures !Bit(d, k)
    {
      XorBit(a, b, k);
    }
    NoBits(d);
  }

  // ---------- Words as sets of pins ----------

  /** The pins whose bit is one. */
  ghost function Pins(w: Word): set<nat> {
    set k: nat | k < 32 && Bit(w, k)
  }

  lemma PinsOr(a: Word, b: Word)
    ensures Pins(a | b) == Pins(a) + Pins(b)
  {
    hide Bit;
    forall k: nat | k < 32
      ensures Bit(a | b, k) <==> Bit(a, k) || Bit(b, k)
    {
      OrBit(a, b, k);
    }
  }

  lemma PinsAnd(a: Word, b: Word)
    ensures Pins(a & b) == Pins(a) * Pins(b)
  {
    hide Bit;
    forall k: nat | k < 32
      ensures Bit(a & b, k) <==> Bit(a, k) && Bit(b, k)
    {
      AndBit(a, b, k);
    }
  }

  /** `a & ~b` */
  lemma PinsAndNot(a: Word, b: Word)
    ensures Pins(a & !b) == Pins(a) - Pins(b)
  {
    hide Bit;
    forall k: nat | k < 32
      ensures Bit(a & !b, k) <==> Bit(a, k) && !Bit(b, k)
    {
      AndNotBit(a, b, k);
    }
  }

  lemma PinsXor(a: Word, b: Word)
    ensures Pins(a ^ b) == (Pins(a) - Pins(b)) + (Pins(b) - Pins(a))
  {
    hide Bit;
    forall k: nat | k < 32
      ensures Bit(a ^ b, k) <==> Bit(a, k) != Bit(b, k)
    {
      XorBit(a, b, k);
    }
  }

  lemma PinsOfMask(j: nat)
    requires j < 32
    ensures Pins(PinMask(j)) == {j}
  {
    hide Bit, PinMask;
    forall k: nat | k < 32
      ensures Bit(PinMask(j), k) <==> j == k
    {
      MaskBit(j, k);
    }
  }

  /** A word is zero exactly when it has no pins. */
  lemma PinsEmpty(w: Word)
    ensures Pins(w) == {} <==> w == 0
  {
    hide Bit;
    if Pins(w) == {} {
      forall k: nat {:trigger Bit(w, k)} | k < 32
        ensures !Bit(w, k)
      {
        assert k !in Pins(w);
      }
      NoBits(w);
    }
    if w == 0 {
      forall k: nat {:trigger Bit(w, k)} | k < 32
        ensures !Bit(w, k)
      {
        ZeroBit(k);
      }
    }
  }

  /** A word is determined by its pins. */
  lemma PinsInjective(a: Word, b: Word)
    requires Pins(a) == Pins(b)
    ensures a == b
  {
    hide Bit;
    forall k: nat {:trigger Bit(a, k)} | k < 32
      ensures Bit(a, k) == Bit(b, k)
    {
      assert k in Pins(a) <==> k in Pins(b);
    }
    SameBits(a, b);
  }

  /** `a & b`, tested as a truth value. */
  lemma PinsMeet(a: Word, b: Word)
    ensures a & b != 0 <==> Pins(a) * Pins(b) != {}
  {
    hide Bit;
    PinsAnd(a, b);
    PinsEmpty(a & b);
  }

  /** `w & (1 << k)`, the source's other way of reading a bit. */
  lemma PinsTest(w: Word, mask: Word, k: nat)
    requires Pins(mask) == {k}
    ensures w & mask != 0 <==> k in Pins(w)
  {
    hide Bit, Pins;
    PinsMeet(w, mask);
    assert k in Pins(w) * {k} <==> k in Pins(w);
  }
}
