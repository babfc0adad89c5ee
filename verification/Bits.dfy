/** Powers of two and the length of a number in bits, as `BN_num_bits` counts it. */
module Bits {

  function Pow2(k: nat): (p: nat)
    ensures 0 < p
  {
    if k == 0 then 1 else 2 * Pow2(k - 1)
  }

  function Abs(x: int): nat {
    if x < 0 then -x else x
  }

  /** `BN_num_bits`: the number of bits of the absolute value. */
  function NumBits(x: int): nat
    decreases Abs(x)
  {
    if x == 0 then 0 else 1 + NumBits(Abs(x) / 2)
  }

  lemma {:induction false} NumBitsAtMost(x: int, k: nat)
    ensures NumBits(x) <= k <==> Abs(x) < Pow2(k)
    decreases k
  {
    if x != 0 && k != 0 {
      NumBitsAtMost(Abs(x) / 2, k - 1);
    }
  }

  lemma {:induction false} Pow2Sum(j: nat, k: nat)
    ensures Pow2(j + k) == Pow2(j) * Pow2(k)
  {
    if j != 0 {
      Pow2Sum(j - 1, k);
      var p, q := Pow2(j - 1), Pow2(k);
      assert 2 * p * q == 2 * (p * q);
    }
  }

  lemma SmallPowers()
    ensures Pow2(7) == 0x80 && Pow2(8) == 0x100
  {
    assert Pow2(4) == 16;
    assert Pow2(7) == 2 * Pow2(6) == 4 * Pow2(5) == 8 * Pow2(4);
  }

  lemma Pow2Of63()
    ensures Pow2(63) == 0x8000_0000_0000_0000
  {
    hide Pow2;
    SmallPowers();
    Pow2Sum(8, 7);
    Pow2Sum(8, 8);
    Pow2Sum(16, 15);
    Pow2Sum(16, 16);
    Pow2Sum(32, 31);
  }
}
