/**
 * The in-byte bit offset used by both edge scans of ftdi_read.c: the loop
 * `while (b >>= 1) k++` counts how many single-place right shifts it takes to
 * drive a byte to zero, minus one. That is the index of the HIGHEST set bit
 * (floor(log2 b)), not the lowest.
 */
module HighBit {

  function Pow2(k: nat): (p: nat)
    ensures p >= 1
  {
    if k == 0 then 1 else 2 * Pow2(k - 1)
  }

  /** Reference definition: the index of the highest set bit of a non-zero byte. */
  function Hsb(b: bv8): (k: nat)
    requires b != 0
    ensures k <= 7
  {
    if b >= 0x80 then 7
    else if b >= 0x40 then 6
    else if b >= 0x20 then 5
    else if b >= 0x10 then 4
    else if b >= 0x08 then 3
    else if b >= 0x04 then 2
    else if b >= 0x02 then 1
    else 0
  }

  /** floor(log2 b): 2^k <= b < 2^(k+1). */
  lemma HsbBounds(b: bv8)
    requires b != 0
    ensures Pow2(Hsb(b)) <= b as int < Pow2(Hsb(b) + 1)
  {
    assert Pow2(0) == 1 && Pow2(1) == 2 && Pow2(2) == 4 && Pow2(3) == 8;
    assert Pow2(4) == 16 && Pow2(5) == 32 && Pow2(6) == 64 && Pow2(7) == 128;
    assert Pow2(8) == 256;
  }

  /** The bounds of HsbBounds pin the offset down: no other k satisfies them. */
  lemma HsbUnique(b: bv8, k: nat)
    requires b != 0
    requires Pow2(k) <= b as int < Pow2(k + 1)
    ensures k == Hsb(b)
  {
    HsbBounds(b);
    if k < Hsb(b) {
      Pow2Monotone(k + 1, Hsb(b));
    } else if k > Hsb(b) {
      Pow2Monotone(Hsb(b) + 1, k);
    }
  }

  lemma {:induction false} Pow2Monotone(i: nat, j: nat)
    requires i <= j
    ensures Pow2(i) <= Pow2(j)
  {
    if i < j {
      Pow2Monotone(i, j - 1);
    }
  }

  /** b after k single-place right shifts (what `b >>= 1` leaves after k rounds). */
  function Shr(b: bv8, k: nat): bv8
  {
    if k == 0 then b else Shr(b, k - 1) >> 1
  }

  /** Eight shifts empty any byte. */
  lemma {:induction false} ShrZeroAfter8(b: bv8, k: nat)
    requires k >= 8
    ensures Shr(b, k) == 0
  {
    if k == 8 {
      assert Shr(b, 1) == b >> 1;
      assert Shr(b, 2) == b >> 2;
      assert Shr(b, 3) == b >> 3;
      assert Shr(b, 4) == b >> 4;
      assert Shr(b, 5) == b >> 5;
      assert Shr(b, 6) == b >> 6;
      assert Shr(b, 7) == b >> 7;
    } else {
      ShrZeroAfter8(b, k - 1);
    }
  }

  /** A non-zero byte survives exactly Hsb(b) shifts: the k-th shift leaves a
      non-zero value precisely when k <= Hsb(b). */
  lemma ShrPastHsb(b: bv8, k: nat)
    requires b != 0
    ensures Shr(b, k) != 0 <==> k <= Hsb(b)
  {
    if k >= 8 {
      ShrZeroAfter8(b, k);
    } else {
      assert Shr(b, 1) == b >> 1;
      assert Shr(b, 2) == b >> 2;
      assert Shr(b, 3) == b >> 3;
      assert Shr(b, 4) == b >> 4;
      assert Shr(b, 5) == b >> 5;
      assert Shr(b, 6) == b >> 6;
      assert Shr(b, 7) == b >> 7;
    }
  }

  /**
   * The loop `while (b >>= 1) k++`: shift first, then test. For a non-zero
   * byte it counts Hsb(b) rounds (at most 7); a zero byte counts none.
   */
  method ShiftCount(b: bv8) returns (k: nat)
    ensures k <= 7
    ensures b == 0 ==> k == 0
    ensures b != 0 ==> k == Hsb(b)
  {
    k := 0;
    var cur := b >> 1;
    if b != 0 {
      ShrPastHsb(b, 1);
    }
    while cur != 0
      invariant b == 0 ==> cur == 0 && k == 0
      invariant b != 0 ==> k <= Hsb(b) && cur == Shr(b, k + 1)
      decreases if b == 0 then 0 else Hsb(b) - k
    {
      ShrPastHsb(b, k + 1);
      k := k + 1;
      cur := cur >> 1;
    }
    if b != 0 {
      ShrPastHsb(b, k + 1);
    }
  }
}
