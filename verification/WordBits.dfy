/** Facts about 32-bit words as the route scan uses them: masks, byte swaps,
    and the numeric order of masks. */
module WordBits {
  function ByteSwap(x: bv32): bv32 {
    (x << 24) | ((x & 0xff00) << 8) | ((x >> 8) & 0xff00) | (x >> 24)
  }

  /** The word with its `n` low bits cleared and the rest set. */
  function HighOnes(n: nat): bv32 {
    if n == 0 then 0xffff_ffff else HighOnes(n - 1) << 1
  }

  /** `x` without its `n` low bits. */
  function Drop(x: bv32, n: nat): bv32 {
    if n == 0 then x else Drop(x >> 1, n - 1)
  }

  /** Two words are equal under a mask. */
  predicate SameUnder(m: bv32, x: bv32, y: bv32) {
    x & m == y & m
  }

  /** The comparison the scan makes on raw masks. */
  predicate Exceeds(a: bv32, b: bv32) {
    a > b
  }

  /** The bits of `a` are a strict subset of those of `b`. */
  predicate FewerBits(a: bv32, b: bv32) {
    a & b == a && a != b
  }

  // ---------- masked equality ----------

  lemma ShiftedMask(m: bv32, x: bv32, y: bv32)
    ensures SameUnder(m << 1, x, y) <==> SameUnder(m, x >> 1, y >> 1)
  {
    if SameUnder(m, x >> 1, y >> 1) {
      ShiftMaskUp(m, x, y);
    }
    if SameUnder(m << 1, x, y) {
      ShiftMaskDown(m, x, y);
    }
  }

  lemma ShiftMaskUp(m: bv32, x: bv32, y: bv32)
    requires SameUnder(m, x >> 1, y >> 1)
    ensures SameUnder(m << 1, x, y)
  {
    MaskOfShifted(m, x);
    MaskOfShifted(m, y);
  }

  lemma ShiftMaskDown(m: bv32, x: bv32, y: bv32)
    requires SameUnder(m << 1, x, y)
    ensures SameUnder(m, x >> 1, y >> 1)
  {
    MaskOfShifted(m, x);
    MaskOfShifted(m, y);
  }

  lemma MaskOfShifted(m: bv32, x: bv32)
    ensures x & (m << 1) == ((x >> 1) & m) << 1
    ensures (x >> 1) & m == (x & (m << 1)) >> 1
  {}

  lemma FullMask(x: bv32, y: bv32)
    ensures SameUnder(0xffff_ffff, x, y) <==> x == y
  {}

  /** Equality under a contiguous mask is equality of what the mask keeps. */
  lemma {:induction false} MaskedEqualityIsDroppedEquality(n: nat, x: bv32, y: bv32)
    ensures SameUnder(HighOnes(n), x, y) <==> Drop(x, n) == Drop(y, n)
  {
    hide SameUnder;
    if n == 0 {
      FullMask(x, y);
    } else {
      ShiftedMask(HighOnes(n - 1), x, y);
      MaskedEqualityIsDroppedEquality(n - 1, x >> 1, y >> 1);
    }
  }

  lemma SwapOfAnd(x: bv32, y: bv32)
    ensures ByteSwap(x & y) == ByteSwap(x) & ByteSwap(y)
  {}

  lemma SwapIsInjective(x: bv32, y: bv32)
    ensures ByteSwap(x) == ByteSwap(y) ==> x == y
  {}

  lemma SwapKeepsSameUnder(m: bv32, x: bv32, y: bv32)
    ensures SameUnder(ByteSwap(m), ByteSwap(x), ByteSwap(y)) <==> SameUnder(m, x, y)
  {
    SwapOfAnd(x, m);
    SwapOfAnd(y, m);
    SwapIsInjective(x & m, y & m);
  }

  // ---------- the order of masks ----------

  lemma FewerBitsIsSmaller(a: bv32, b: bv32)
    requires FewerBits(a, b)
    ensures Exceeds(b, a) && !Exceeds(a, b)
  {
    FewerBitsIsNotLarger(a, b);
    FewerBitsIsLess(a, b);
  }

  lemma FewerBitsIsLess(a: bv32, b: bv32)
    requires FewerBits(a, b)
    ensures Exceeds(b, a)
  {
    assert b == a | (b & !a);
  }

  lemma FewerBitsIsNotLarger(a: bv32, b: bv32)
    requires FewerBits(a, b)
    ensures !Exceeds(a, b)
  {
    assert b == a | (b & !a);
  }

  lemma SwapKeepsFewerBits(a: bv32, b: bv32)
    requires FewerBits(a, b)
    ensures FewerBits(ByteSwap(a), ByteSwap(b))
  {
    SwapOfAnd(a, b);
    SwapIsInjective(a, b);
  }

  function And(a: bv32, b: bv32): bv32 {
    a & b
  }

  lemma AndAssociates(a: bv32, b: bv32, c: bv32)
    ensures And(And(a, b), c) == And(a, And(b, c))
  {}

  lemma AndCommutes(a: bv32, b: bv32)
    ensures And(a, b) == And(b, a)
  {}

  lemma FewerBitsByAnd(a: bv32, b: bv32)
    ensures FewerBits(a, b) <==> And(a, b) == a && a != b
  {}

  lemma FewerBitsTransitive(a: bv32, b: bv32, c: bv32)
    requires FewerBits(a, b) && FewerBits(b, c)
    ensures FewerBits(a, c)
  {
    hide And, FewerBits;
    FewerBitsByAnd(a, b);
    FewerBitsByAnd(b, c);
    FewerBitsByAnd(a, c);
    AndAssociates(a, b, c);
    AndCommutes(a, b);
  }

  /** No gap between the set bits and the top of the word. */
  predicate NoGap(m: bv32) {
    (m << 1) & m == m << 1
  }

  lemma ShiftLosesABit(m: bv32)
    requires NoGap(m) && m != 0
    ensures FewerBits(m << 1, m)
  {}

  lemma ShiftKeepsNoGap(m: bv32)
    requires NoGap(m)
    ensures NoGap(m << 1)
  {}

  lemma FullHasNoGap()
    ensures NoGap(0xffff_ffff)
  {}

  lemma {:induction false} HighOnesHasNoGap(n: nat)
    ensures NoGap(HighOnes(n))
  {
    hide NoGap;
    if n == 0 {
      FullHasNoGap();
    } else {
      HighOnesHasNoGap(n - 1);
      ShiftKeepsNoGap(HighOnes(n - 1));
    }
  }

  lemma {:induction false} ZeroStaysZero(n: nat, k: nat)
    requires n <= k && HighOnes(n) == 0
    ensures HighOnes(k) == 0
    decreases k
  {
    if n < k {
      ZeroStaysZero(n, k - 1);
    }
  }

  lemma HighOnesIsNotZero(n: nat)
    requires n < 32
    ensures HighOnes(n) != 0
  {
    assert HighOnes(8) == 0xffff_ff00;
    assert HighOnes(16) == 0xffff_0000;
    assert HighOnes(24) == 0xff00_0000;
    assert HighOnes(31) == 0x8000_0000;
    if HighOnes(n) == 0 {
      ZeroStaysZero(n, 31);
    }
  }

  /** The more low bits are cleared, the fewer bits are left. */
  lemma {:induction false} MoreClearedIsFewerBits(n: nat, k: nat)
    requires n < k <= 32
    ensures FewerBits(HighOnes(k), HighOnes(n))
    decreases k
  {
    hide FewerBits, NoGap;
    HighOnesHasNoGap(k - 1);
    HighOnesIsNotZero(k - 1);
    ShiftLosesABit(HighOnes(k - 1));
    if n < k - 1 {
      MoreClearedIsFewerBits(n, k - 1);
      FewerBitsTransitive(HighOnes(k), HighOnes(k - 1), HighOnes(n));
    }
  }

  lemma NothingIsBelowZero(a: bv32)
    ensures !Exceeds(0, a)
  {}

  lemma NothingMasked(x: bv32, y: bv32)
    ensures SameUnder(0, x, y)
  {}

  lemma NothingExceedsItself(a: bv32)
    ensures !Exceeds(a, a)
  {}
}
