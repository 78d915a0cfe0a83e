/**
 * Bits: a natural number read as a set of bit positions, the way the C# solvers use
 * `1 << k`, `mask & (1 << k)` and `mask | (1 << k)` on non-negative integers.
 */
module Bits {
  /** `1 << k` for a shift that fits. */
  function Pow2(k: nat): (r: nat)
    ensures r >= 1
  {
    if k == 0 then 1 else 2 * Pow2(k - 1)
  }

  /** `(mask & (1 << k)) != 0`: bit k of mask is set. */
  predicate Has(mask: nat, k: nat)
  {
    if k == 0 then mask % 2 == 1 else Has(mask / 2, k - 1)
  }

  lemma {:induction false} Pow2Grows(j: nat, k: nat)
    requires j < k
    ensures 2 * Pow2(j) <= Pow2(k)
    decreases k
  {
    if j < k - 1 {
      Pow2Grows(j, k - 1);
    }
  }

  /** `mask | (1 << k)` when bit k is clear: adding 2^k sets bit k and keeps every other bit. */
  lemma {:induction false} SetBit(mask: nat, k: nat, j: nat)
    requires !Has(mask, k)
    ensures Has(mask + Pow2(k), j) <==> Has(mask, j) || j == k
    decreases k
  {
    if k == 0 {
      if j > 0 {
        assert (mask + 1) / 2 == mask / 2;
      }
    } else {
      assert (mask + Pow2(k)) / 2 == mask / 2 + Pow2(k - 1);
      if j > 0 {
        SetBit(mask / 2, k - 1, j - 1);
      }
    }
  }

  /** Clearing a set bit k: subtracting 2^k clears bit k and keeps every other bit. */
  lemma ClearBit(mask: nat, k: nat, j: nat)
    requires Has(mask, k)
    ensures mask >= Pow2(k) && !Has(mask - Pow2(k), k)
    ensures Has(mask - Pow2(k), j) <==> Has(mask, j) && j != k
  {
    BitBelow(mask, k);
    var rest := mask - Pow2(k);
    if Has(rest, k) {
      ClearedBitClear(mask, k);
    }
    SetBit(rest, k, j);
  }

  lemma {:induction false} BitBelow(mask: nat, k: nat)
    requires Has(mask, k)
    ensures mask >= Pow2(k)
    decreases k
  {
    if k > 0 {
      BitBelow(mask / 2, k - 1);
    }
  }

  lemma {:induction false} ClearedBitClear(mask: nat, k: nat)
    requires Has(mask, k) && mask >= Pow2(k)
    ensures !Has(mask - Pow2(k), k)
    decreases k
  {
    if k == 0 {
    } else {
      assert (mask - Pow2(k)) / 2 == mask / 2 - Pow2(k - 1);
      BitBelow(mask / 2, k - 1);
      ClearedBitClear(mask / 2, k - 1);
    }
  }

  /** Only bit k is set in 2^k. */
  lemma {:induction false} SingleBit(k: nat, j: nat)
    ensures Has(Pow2(k), j) <==> j == k
    decreases k
  {
    if k == 0 {
      if j > 0 {
        assert 1 / 2 == 0;
        ZeroHasNone(j - 1);
      }
    } else if j > 0 {
      SingleBit(k - 1, j - 1);
    } else {
      assert Pow2(k) % 2 == 0;
    }
  }

  lemma {:induction false} ZeroHasNone(j: nat)
    ensures !Has(0, j)
    decreases j
  {
    if j > 0 {
      ZeroHasNone(j - 1);
    }
  }

  /** A mask below 2^n has no bit at n or above. */
  lemma {:induction false} HighBitsClear(mask: nat, n: nat, j: nat)
    requires mask < Pow2(n) && j >= n
    ensures !Has(mask, j)
    decreases n
  {
    if n == 0 {
      ZeroHasNone(j);
    } else {
      HighBitsClear(mask / 2, n - 1, j - 1);
    }
  }

  /** Setting a clear bit below n keeps a mask below 2^n. */
  lemma {:induction false} SetBitBelow(mask: nat, n: nat, k: nat)
    requires mask < Pow2(n) && k < n && !Has(mask, k)
    ensures mask + Pow2(k) < Pow2(n)
    decreases n
  {
    var half := mask / 2;
    assert mask == 2 * half + mask % 2;
    assert Pow2(n) == 2 * Pow2(n - 1);
    if k == 0 {
      assert mask % 2 == 0;
    } else {
      SetBitBelow(half, n - 1, k - 1);
      assert half + Pow2(k - 1) < Pow2(n - 1);
    }
  }

  /** 2^n - 1 has every bit below n set. */
  lemma {:induction false} FullMask(n: nat, j: nat)
    requires j < n
    ensures Has(Pow2(n) - 1, j)
    decreases n
  {
    if j > 0 {
      assert (Pow2(n) - 1) / 2 == Pow2(n - 1) - 1;
      FullMask(n - 1, j - 1);
    }
  }
}
