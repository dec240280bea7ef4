/** Single bits of an unsigned word, counted from the least significant one. */
module Bits {
  import opened Words

  /** Every bit of a bitmap word: all 32 frames used. */
  const FULL: Word := 0xFFFF_FFFF

  /** `w & (1 << k)` is not zero. */
  predicate Bit(w: nat, k: nat) {
    if k == 0 then w % 2 == 1 else Bit(w / 2, k - 1)
  }

  /** `w | (1 << k)` */
  function WithBit(w: nat, k: nat): nat {
    if k == 0 then w - w % 2 + 1 else 2 * WithBit(w / 2, k - 1) + w % 2
  }

  /** `w & ~(1 << k)` */
  function WithoutBit(w: nat, k: nat): nat {
    if k == 0 then w - w % 2 else 2 * WithoutBit(w / 2, k - 1) + w % 2
  }

  function Pow2(n: nat): (p: nat)
    ensures p > 0
  {
    if n == 0 then 1 else 2 * Pow2(n - 1)
  }

  /** `__builtin_ctz(~w)`: the number of trailing one bits of w. */
  function LowestZero(w: Word): (k: nat)
    requires w != FULL
    ensures k < 32 && !Bit(w, k)
    ensures forall j :: 0 <= j < k ==> Bit(w, j)
  {
    LowestZeroFrom(w, 0)
  }

  function LowestZeroFrom(w: Word, i: nat): (k: nat)
    requires i < 32 && w != FULL
    requires forall j :: 0 <= j < i ==> Bit(w, j)
    ensures k < 32 && !Bit(w, k)
    ensures forall j :: 0 <= j < k ==> Bit(w, j)
    decreases 32 - i
  {
    if !Bit(w, i) then i
    else
      assert i < 31 by {
        if i == 31 {
          AllOnes(w);
        }
      }
      LowestZeroFrom(w, i + 1)
  }

  /** Setting a bit changes that bit only, and stays within the word. */
  lemma {:induction false} WithBitBits(w: nat, k: nat, j: nat)
    ensures Bit(WithBit(w, k), j) <==> j == k || Bit(w, j)
  {
    if k > 0 {
      var v := WithBit(w / 2, k - 1);
      assert (2 * v + w % 2) / 2 == v && (2 * v + w % 2) % 2 == w % 2;
      if j > 0 {
        WithBitBits(w / 2, k - 1, j - 1);
      }
    }
  }

  lemma {:induction false} WithBitBound(w: nat, k: nat, n: nat)
    requires k < n && w < Pow2(n)
    ensures WithBit(w, k) < Pow2(n)
  {
    if k > 0 {
      WithBitBound(w / 2, k - 1, n - 1);
    }
  }

  /** Clearing a bit changes that bit only, and never grows the word. */
  lemma {:induction false} WithoutBitBits(w: nat, k: nat, j: nat)
    ensures Bit(WithoutBit(w, k), j) <==> j != k && Bit(w, j)
  {
    if k > 0 {
      var v := WithoutBit(w / 2, k - 1);
      assert (2 * v + w % 2) / 2 == v && (2 * v + w % 2) % 2 == w % 2;
      if j > 0 {
        WithoutBitBits(w / 2, k - 1, j - 1);
      }
    }
  }

  lemma {:induction false} WithoutBitBound(w: nat, k: nat)
    ensures WithoutBit(w, k) <= w
  {
    if k > 0 {
      WithoutBitBound(w / 2, k - 1);
    }
  }

  lemma Pow2Of32()
    ensures Pow2(32) == WORD_LIMIT
  {
    assert Pow2(8) == 0x100;
    assert Pow2(16) == 0x1_0000;
    assert Pow2(24) == 0x100_0000;
  }

  lemma {:induction false} OnesHaveBits(n: nat, j: nat)
    requires j < n
    ensures Bit(Pow2(n) - 1, j)
  {
    assert (Pow2(n) - 1) / 2 == Pow2(n - 1) - 1;
    if j > 0 {
      OnesHaveBits(n - 1, j - 1);
    }
  }

  lemma {:induction false} BitsMakeOnes(w: nat, n: nat)
    requires w < Pow2(n)
    requires forall j :: 0 <= j < n ==> Bit(w, j)
    ensures w == Pow2(n) - 1
  {
    if n > 0 {
      assert Bit(w, 0);
      forall j | 0 <= j < n - 1 ensures Bit(w / 2, j) {
        assert Bit(w, j + 1);
      }
      BitsMakeOnes(w / 2, n - 1);
    }
  }

  /** A full word has all of its 32 bits set ... */
  lemma FullHasBit(j: nat)
    requires j < 32
    ensures Bit(FULL, j)
  {
    Pow2Of32();
    OnesHaveBits(32, j);
  }

  /** ... and it is the only word that has. */
  lemma AllOnes(w: Word)
    requires forall j :: 0 <= j < 32 ==> Bit(w, j)
    ensures w == FULL
  {
    Pow2Of32();
    BitsMakeOnes(w, 32);
  }
}
