/** Bitwise operators on unbounded non-negative integers, and what they mean in arithmetic. */
module Bits {

  function Pow2(k: nat): (p: nat)
    ensures p > 0
  {
    if k == 0 then 1 else 2 * Pow2(k - 1)
  }

  function And(a: nat, b: nat): (r: nat)
  {
    if a == 0 || b == 0 then 0 else 2 * And(a / 2, b / 2) + if a % 2 == 1 && b % 2 == 1 then 1 else 0
  }

  function Or(a: nat, b: nat): (r: nat)
  {
    if a == 0 then b else if b == 0 then a
    else 2 * Or(a / 2, b / 2) + if a % 2 == 1 || b % 2 == 1 then 1 else 0
  }

  function Shl(a: nat, k: nat): (r: nat) { a * Pow2(k) }

  function Shr(a: nat, k: nat): (r: nat) { if k == 0 then a else Shr(a / 2, k - 1) }

  /** The lowest `k` bits. */
  function Low(a: nat, k: nat): (r: nat)
    ensures r < Pow2(k)
  {
    if k == 0 then 0 else 2 * Low(a / 2, k - 1) + a % 2
  }

  function BitLength(n: nat): (k: nat) { if n == 0 then 0 else 1 + BitLength(n / 2) }

  /** The `w` bits of `n` from bit `k` on. */
  function Field(n: nat, k: nat, w: nat): (r: nat)
    ensures r < Pow2(w)
  {
    Low(Shr(n, k), w)
  }

  /** The mask that selects those bits in place. */
  function Mask(k: nat, w: nat): (r: nat) { Shl(Pow2(w) - 1, k) }

  // ---- splitting and joining ------------------------------------------------------------

  lemma {:induction false} Doubled(x: nat, k: nat)
    requires k > 0
    ensures x * Pow2(k) == 2 * (x * Pow2(k - 1))
  {
  }

  /** Shifting and taking the low bits are quotient and remainder. */
  lemma {:induction false} Split(n: nat, k: nat)
    ensures n == Shr(n, k) * Pow2(k) + Low(n, k)
  {
    if k > 0 {
      Split(n / 2, k - 1);
      Doubled(Shr(n, k), k);
    }
  }

  lemma {:induction false} Join(high: nat, low: nat, k: nat)
    requires low < Pow2(k)
    ensures Shr(high * Pow2(k) + low, k) == high && Low(high * Pow2(k) + low, k) == low
  {
    if k > 0 {
      Join(high, low / 2, k - 1);
      Doubled(high, k);
      assert (high * Pow2(k) + low) / 2 == high * Pow2(k - 1) + low / 2;
    }
  }

  lemma {:induction false} ShrTwice(n: nat, k: nat, w: nat)
    ensures Shr(n, k + w) == Shr(Shr(n, k), w)
  {
    if k > 0 {
      ShrTwice(n / 2, k - 1, w);
    }
  }

  lemma {:induction false} Pow2Adds(a: nat, b: nat)
    ensures Pow2(a + b) == Pow2(a) * Pow2(b)
  {
    if a > 0 {
      Pow2Adds(a - 1, b);
      assert Pow2(a) * Pow2(b) == 2 * (Pow2(a - 1) * Pow2(b));
    }
  }

  /** `w` more bits on top of the lowest `k`. */
  lemma {:induction false} LowGrows(n: nat, k: nat, w: nat)
    ensures Low(n, k + w) == Field(n, k, w) * Pow2(k) + Low(n, k)
  {
    if k > 0 {
      LowGrows(n / 2, k - 1, w);
      Doubled(Field(n, k, w), k);
    }
  }

  lemma {:induction false} SmallIsLow(n: nat, k: nat)
    requires n < Pow2(k)
    ensures Low(n, k) == n && Shr(n, k) == 0
  {
    if k > 0 {
      SmallIsLow(n / 2, k - 1);
    }
  }

  lemma {:induction false} BitLengthBounds(n: nat)
    ensures n < Pow2(BitLength(n))
  {
    if n > 0 {
      BitLengthBounds(n / 2);
    }
  }

  lemma {:induction false} Pow2Ascends(a: nat, b: nat)
    requires a <= b
    ensures Pow2(a) <= Pow2(b)
  {
    if a < b {
      Pow2Ascends(a, b - 1);
    }
  }

  // ---- masks ----------------------------------------------------------------------------

  lemma {:induction false} AndOdd(n: nat, m: nat)
    ensures And(n, 2 * m + 1) == 2 * And(n / 2, m) + n % 2
  {
    assert (2 * m + 1) / 2 == m && (2 * m + 1) % 2 == 1;
  }

  lemma {:induction false} AndLow(n: nat, w: nat)
    ensures And(n, Pow2(w) - 1) == Low(n, w)
  {
    hide And;
    if w == 0 {
      AndZero(n);
    } else {
      AndLow(n / 2, w - 1);
      AndOdd(n, Pow2(w - 1) - 1);
    }
  }

  lemma {:induction false} AndZero(n: nat)
    ensures And(n, 0) == 0
  {
  }

  lemma {:induction false} AndEven(n: nat, m: nat)
    ensures And(n, 2 * m) == 2 * And(n / 2, m)
  {
  }

  /** Masking with a run of ones selects a field and leaves it in place. */
  lemma {:induction false} AndMask(n: nat, k: nat, w: nat)
    ensures And(n, Mask(k, w)) == Field(n, k, w) * Pow2(k)
  {
    if k == 0 {
      AndLow(n, w);
    } else {
      AndMask(n / 2, k - 1, w);
      Doubled(Pow2(w) - 1, k);
      Doubled(Field(n, k, w), k);
      AndEven(n, Mask(k - 1, w));
    }
  }

  /** Setting bits above everything that is there is addition. */
  lemma {:induction false} OrIsSum(a: nat, b: nat, k: nat)
    requires a < Pow2(k)
    ensures Or(a, Shl(b, k)) == a + b * Pow2(k)
  {
    if k > 0 {
      OrIsSum(a / 2, b, k - 1);
      Doubled(b, k);
    }
  }

  /** `n & (1 << i)` is non-zero exactly if the bit is set. */
  lemma {:induction false} TestBit(n: nat, i: nat)
    ensures And(n, Shl(1, i)) != 0 <==> Field(n, i, 1) == 1
    ensures Field(n, i, 1) <= 1
    ensures Low(n, i + 1) == Low(n, i) + Field(n, i, 1) * Pow2(i)
  {
    assert Mask(i, 1) == Shl(1, i);
    AndMask(n, i, 1);
    LowGrows(n, i, 1);
    assert Pow2(1) == 2;
    if Field(n, i, 1) == 0 {
      assert And(n, Shl(1, i)) == 0;
    }
  }
}
