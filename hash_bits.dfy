/**
 * The bit arithmetic of the extendible hash directory: `1 << n` and the
 * mask `h & ((1 << n) - 1)` that keeps the low n bits of a hash, on
 * unbounded naturals.
 */
module HashBits {

  /** `1 << n`. */
  function Pow2(n: nat): (r: nat)
    ensures 1 <= r
  {
    if n == 0 then 1 else 2 * Pow2(n - 1)
  }

  /** `x & ((1 << n) - 1)`: the low n bits of x. */
  function LowBits(x: nat, n: nat): (r: nat)
    ensures r < Pow2(n)
  {
    if n == 0 then 0 else x % 2 + 2 * LowBits(x / 2, n - 1)
  }

  /** Bit n of x, 0 or 1. */
  function Bit(x: nat, n: nat): (r: nat)
    ensures r <= 1
  {
    if n == 0 then x % 2 else Bit(x / 2, n - 1)
  }

  /** One more bit of mask adds bit n in place n. */
  lemma {:induction false} LowBitsSucc(x: nat, n: nat)
    ensures LowBits(x, n + 1) == LowBits(x, n) + if Bit(x, n) == 0 then 0 else Pow2(n)
  {
    if n > 0 {
      var h := x / 2;
      LowBitsSucc(h, n - 1);
      assert LowBits(x, n + 1) == x % 2 + 2 * LowBits(h, n);
      assert LowBits(x, n) == x % 2 + 2 * LowBits(h, n - 1);
      assert Bit(x, n) == Bit(h, n - 1);
    }
  }

  /**
   * Masks agree at n + 1 bits exactly when they agree at n bits and on bit n:
   * the split of a bucket of depth n separates its slots by bit n.
   */
  lemma LowBitsSuccEq(x: nat, y: nat, n: nat)
    ensures LowBits(x, n + 1) == LowBits(y, n + 1) <==> LowBits(x, n) == LowBits(y, n) && Bit(x, n) == Bit(y, n)
  {
    LowBitsSucc(x, n);
    LowBitsSucc(y, n);
  }

  /** Masking twice keeps the narrower mask. */
  lemma {:induction false} LowBitsOfLowBits(x: nat, m: nat, n: nat)
    requires m <= n
    ensures LowBits(LowBits(x, n), m) == LowBits(x, m)
  {
    if m > 0 {
      LowBitsOfLowBits(x / 2, m - 1, n - 1);
      assert LowBits(x, n) % 2 == x % 2;
      assert LowBits(x, n) / 2 == LowBits(x / 2, n - 1);
    }
  }

  /** Bit m survives a mask of more than m bits. */
  lemma {:induction false} BitOfLowBits(x: nat, m: nat, n: nat)
    requires m < n
    ensures Bit(LowBits(x, n), m) == Bit(x, m)
  {
    assert LowBits(x, n) % 2 == x % 2;
    assert LowBits(x, n) / 2 == LowBits(x / 2, n - 1);
    if m > 0 {
      BitOfLowBits(x / 2, m - 1, n - 1);
    }
  }

  /** Adding 2^n does not change the low m <= n bits: a doubled directory's upper half mirrors the lower one. */
  lemma {:induction false} LowBitsAddPow2(x: nat, m: nat, n: nat)
    requires m <= n
    ensures LowBits(x + Pow2(n), m) == LowBits(x, m)
  {
    if m > 0 {
      assert (x + Pow2(n)) % 2 == x % 2;
      assert (x + Pow2(n)) / 2 == x / 2 + Pow2(n - 1);
      LowBitsAddPow2(x / 2, m - 1, n - 1);
    }
  }

  /** A value below 2^n is its own mask. */
  lemma {:induction false} LowBitsSmall(x: nat, n: nat)
    requires x < Pow2(n)
    ensures LowBits(x, n) == x
  {
    if n > 0 {
      LowBitsSmall(x / 2, n - 1);
    }
  }

  /** Two values below 2^n with the same low n bits are equal. */
  lemma {:induction false} BitsDetermine(a: nat, b: nat, n: nat)
    requires a < Pow2(n) && b < Pow2(n)
    requires forall m: nat :: m < n ==> Bit(a, m) == Bit(b, m)
    ensures a == b
  {
    if n > 0 {
      assert Bit(a, 0) == Bit(b, 0);
      forall m: nat | m < n - 1
        ensures Bit(a / 2, m) == Bit(b / 2, m)
      {
        assert Bit(a, m + 1) == Bit(b, m + 1);
      }
      BitsDetermine(a / 2, b / 2, n - 1);
    }
  }

  /**
   * The mask characterised bit by bit: below 2^n, agreeing with x on every
   * bit under n, and the only such value.
   */
  lemma LowBitsCharacterised(x: nat, n: nat, y: nat)
    ensures LowBits(x, n) < Pow2(n)
    ensures forall m: nat :: m < n ==> Bit(LowBits(x, n), m) == Bit(x, m)
    ensures y < Pow2(n) && (forall m: nat :: m < n ==> Bit(y, m) == Bit(x, m)) ==> y == LowBits(x, n)
  {
    forall m: nat | m < n
      ensures Bit(LowBits(x, n), m) == Bit(x, m)
    {
      BitOfLowBits(x, m, n);
    }
    if y < Pow2(n) && (forall m: nat :: m < n ==> Bit(y, m) == Bit(x, m)) {
      BitsDetermine(y, LowBits(x, n), n);
    }
  }

  /** 2^n grows with n. */
  lemma {:induction false} Pow2Monotone(m: nat, n: nat)
    requires m <= n
    ensures Pow2(m) <= Pow2(n)
  {
    if m < n {
      Pow2Monotone(m, n - 1);
    }
  }
}
