// The corruption mask of one injection site: a 32-bit value with exactly one
// bit set, the bit drawn uniformly from 0..31. The draw itself (a freshly
// seeded Mersenne twister) is not modelled: its result is the parameter `k`.
module BitMask {

  /** A bit position as `uniform_int_distribution(0, 31)` yields it. */
  type BitPos = k: nat | k < 32

  function Pow2(e: nat): (r: nat)
    ensures r >= 1
  {
    if e == 0 then 1 else 2 * Pow2(e - 1)
  }

  const TwoTo32: nat := 0x1_0000_0000
  const TwoTo64: nat := 0x1_0000_0000_0000_0000

  /** `x << k` on a 64-bit unsigned operand (`1ULL << k`): the bits shifted out
      at the top are lost. */
  function ShiftLeft64(x: nat, k: nat): nat {
    (x * Pow2(k)) % TwoTo64
  }

  /** `unsigned int loc = 1ULL << k`: the 64-bit shift narrowed to 32 bits.
      Neither step loses anything: the mask is 2^k, at most 2^31. */
  function Mask(k: BitPos): (m: nat)
    ensures m == Pow2(k)
    ensures 1 <= m <= 0x8000_0000 < TwoTo32
  {
    Pow2Monotone(k, 31);
    Pow2Of31();
    ShiftLeft64(1, k) % TwoTo32
  }

  lemma {:induction false} Pow2Monotone(k: nat, e: nat)
    requires k <= e
    ensures Pow2(k) <= Pow2(e)
  {
    if k < e {
      Pow2Monotone(k, e - 1);
    }
  }

  lemma {:induction false} Pow2Add(a: nat, b: nat)
    ensures Pow2(a + b) == Pow2(a) * Pow2(b)
  {
    if b > 0 {
      Pow2Add(a, b - 1);
    }
  }

  lemma Pow2Of31()
    ensures Pow2(31) == 0x8000_0000
  {
    assert Pow2(1) == 2;
    hide Pow2;
    Pow2Add(1, 1);
    assert Pow2(2) == 4;
    Pow2Add(2, 2);
    assert Pow2(4) == 16;
    Pow2Add(4, 4);
    assert Pow2(8) == 256;
    Pow2Add(8, 8);
    assert Pow2(16) == 0x1_0000;
    Pow2Add(16, 8);
    assert Pow2(24) == 0x100_0000;
    Pow2Add(24, 4);
    assert Pow2(28) == 0x1000_0000;
    Pow2Add(28, 2);
    assert Pow2(30) == 0x4000_0000;
    Pow2Add(30, 1);
  }

  /** Bit `j` (counting from the least significant, 0) of `m`. */
  function Bit(m: nat, j: nat): bool {
    if j == 0 then m % 2 == 1 else Bit(m / 2, j - 1)
  }

  /** Number of bits set in `m`. */
  function PopCount(m: nat): nat {
    if m == 0 then 0 else m % 2 + PopCount(m / 2)
  }

  lemma {:induction false} BitOfZero(j: nat)
    ensures !Bit(0, j)
  {
    if j > 0 {
      BitOfZero(j - 1);
    }
  }

  lemma {:induction false} Pow2Bit(k: nat, j: nat)
    ensures Bit(Pow2(k), j) <==> j == k
  {
    if j == 0 {
      if k > 0 {
        assert Pow2(k) == 2 * Pow2(k - 1);
      }
    } else if k == 0 {
      BitOfZero(j - 1);
    } else {
      assert Pow2(k) / 2 == Pow2(k - 1);
      Pow2Bit(k - 1, j - 1);
    }
  }

  lemma {:induction false} Pow2PopCount(k: nat)
    ensures PopCount(Pow2(k)) == 1
  {
    if k == 0 {
      assert PopCount(1) == 1 + PopCount(0);
    } else {
      assert Pow2(k) % 2 == 0 && Pow2(k) / 2 == Pow2(k - 1);
      Pow2PopCount(k - 1);
    }
  }

  /** The mask has bit `k` set and no other bit, in or above the 32 bits of an
      `i32`; so it has exactly one bit set. */
  lemma MaskOneBit(k: BitPos)
    ensures forall j :: Bit(Mask(k), j) <==> j == k
    ensures PopCount(Mask(k)) == 1
  {
    forall j ensures Bit(Mask(k), j) <==> j == k {
      Pow2Bit(k, j);
    }
    Pow2PopCount(k);
  }
}
