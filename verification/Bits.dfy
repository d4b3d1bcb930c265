/** Unsigned arithmetic behind the C bit operators: powers of two, shifts, `&`, `^`,
    and the aligned windows of pages that a block of order k can occupy. */
module Bits {

  type byte = x: int | 0 <= x < 256

  /** `1 << n`. */
  function Pow2(n: nat): (r: nat)
    ensures r >= 1
  {
    if n == 0 then 1 else 2 * Pow2(n - 1)
  }

  /** `p >> k`. */
  function Shr(p: nat, k: nat): nat {
    if k == 0 then p else Shr(p / 2, k - 1)
  }

  /** `a ^ b`, one bit at a time. */
  function Xor(a: nat, b: nat): nat {
    if a == 0 && b == 0 then 0
    else (if a % 2 == b % 2 then 0 else 1) + 2 * Xor(a / 2, b / 2)
  }

  /** `a & b`, one bit at a time. */
  function And(a: nat, b: nat): nat {
    if a == 0 || b == 0 then 0
    else (if a % 2 == 1 && b % 2 == 1 then 1 else 0) + 2 * And(a / 2, b / 2)
  }

  /** `p` with its k low bits cleared: the first page of the order-k window of `p`. */
  function Base(p: nat, k: nat): (r: nat)
    ensures r <= p < r + Pow2(k)
  {
    if k == 0 then p else 2 * Base(p / 2, k - 1)
  }

  lemma {:induction false} Pow2Monotone(j: nat, k: nat)
    requires j <= k
    ensures Pow2(j) <= Pow2(k)
    decreases k - j
  {
    if j < k {
      Pow2Monotone(j + 1, k);
    }
  }

  lemma {:induction false} Pow2Add(j: nat, k: nat)
    ensures Pow2(j + k) == Pow2(j) * Pow2(k)
  {
    if j > 0 {
      Pow2Add(j - 1, k);
      assert 2 * (Pow2(j - 1) * Pow2(k)) == Pow2(j) * Pow2(k);
    }
  }

  /** Going up one order either keeps the start of the window or moves it down by 2^k. */
  lemma {:induction false} BaseStep(p: nat, k: nat)
    ensures Base(p, k + 1) == Base(p, k) - (if Shr(p, k) % 2 == 0 then 0 else Pow2(k))
  {
    if k > 0 {
      BaseStep(p / 2, k - 1);
    }
  }

  /** Windows nest: the order-j window of `p` lies in its order-k window when j <= k. */
  lemma {:induction false} BaseNested(p: nat, j: nat, k: nat)
    requires j <= k
    ensures Base(p, k) <= Base(p, j)
    ensures Base(p, j) + Pow2(j) <= Base(p, k) + Pow2(k)
    decreases k - j
  {
    if j < k {
      BaseStep(p, j);
      BaseNested(p, j + 1, k);
    }
  }

  /** Every page of a window has that window as its own. */
  lemma {:induction false} BaseOfMember(p: nat, q: nat, k: nat)
    requires Base(p, k) <= q < Base(p, k) + Pow2(k)
    ensures Base(q, k) == Base(p, k)
  {
    if k > 0 {
      BaseOfMember(p / 2, q / 2, k - 1);
    }
  }

  /** Two windows that share a page are nested. */
  lemma WindowsNest(h: nat, j: nat, g: nat, k: nat, p: nat)
    requires j <= k
    requires Base(h, j) == h && Base(g, k) == g
    requires h <= p < h + Pow2(j) && g <= p < g + Pow2(k)
    ensures g <= h && h + Pow2(j) <= g + Pow2(k)
  {
    BaseOfMember(h, p, j);
    BaseOfMember(g, p, k);
    BaseNested(p, j, k);
  }

  lemma AlignedDown(h: nat, j: nat, k: nat)
    requires j <= k && Base(h, k) == h
    ensures Base(h, j) == h
  {
  }

  /** The upper half of an aligned window is itself an aligned window. */
  lemma UpperHalf(h: nat, k: nat)
    requires Base(h, k + 1) == h
    ensures Base(h, k) == h && Base(h + Pow2(k), k) == h + Pow2(k)
    ensures Base(h + Pow2(k), k + 1) == h
  {
    AlignedDown(h, k, k + 1);
    BaseOfMember(h, h + Pow2(k), k + 1);
    BaseStep(h + Pow2(k), k);
  }

  /** A window that starts below an aligned bound ends at or below it. */
  lemma {:induction false} WindowBelow(p: nat, n: nat, k: nat)
    requires Base(n, k) == n && p < n
    ensures Base(p, k) + Pow2(k) <= n
  {
    if k > 0 {
      WindowBelow(p / 2, n / 2, k - 1);
    }
  }

  lemma {:induction false} AlignedNext(p: nat, k: nat)
    requires Base(p, k) == p
    ensures Base(p + Pow2(k), k) == p + Pow2(k)
  {
    if k > 0 {
      var half := Base(p / 2, k - 1);
      assert p == 2 * half && p / 2 == half;
      AlignedNext(half, k - 1);
      assert (p + Pow2(k)) / 2 == half + Pow2(k - 1);
    }
  }

  lemma {:induction false} MultipleIsAligned(q: nat, k: nat)
    ensures Base(q * Pow2(k), k) == q * Pow2(k)
  {
    if k > 0 {
      MultipleIsAligned(q, k - 1);
      assert q * Pow2(k) == 2 * (q * Pow2(k - 1));
    }
  }

  /** `idx & ((1 << k) - 1)` is the distance of `idx` from the start of its window. */
  lemma {:induction false} MaskLow(p: nat, k: nat)
    ensures And(p, Pow2(k) - 1) == p - Base(p, k)
  {
    if k > 0 && p > 0 {
      MaskLow(p / 2, k - 1);
      assert (Pow2(k) - 1) / 2 == Pow2(k - 1) - 1;
    } else if k > 0 {
      BaseZero(k);
    }
  }

  lemma BaseZero(k: nat)
    ensures Base(0, k) == 0
  {
  }

  /** `p & ~((1 << k) - 1)` in a w-bit register clears the k low bits. */
  lemma {:induction false} MaskHigh(p: nat, k: nat, w: nat)
    requires k <= w && p < Pow2(w)
    ensures Pow2(k) <= Pow2(w)
    ensures And(p, Pow2(w) - Pow2(k)) == Base(p, k)
    decreases w
  {
    Pow2Monotone(k, w);
    if p == 0 {
      BaseZero(k);
    } else if k > 0 {
      MaskHigh(p / 2, k - 1, w - 1);
      if k == w { BaseZeroWhenSmall(p, k, w); }
    } else if w > 0 {
      MaskHigh(p / 2, 0, w - 1);
    }
  }

  lemma {:induction false} BaseZeroWhenSmall(p: nat, k: nat, w: nat)
    requires p < Pow2(w) && w == k
    ensures Base(p, k) == 0
  {
    if k > 0 {
      BaseZeroWhenSmall(p / 2, k - 1, w - 1);
    }
  }

  /** Flipping bit k of an aligned index moves to the other half of the order-(k+1) window. */
  lemma {:induction false} XorBit(p: nat, k: nat)
    ensures Xor(p, Pow2(k)) == if Shr(p, k) % 2 == 0 then p + Pow2(k) else p - Pow2(k)
    ensures Shr(p, k) % 2 != 0 ==> p >= Pow2(k)
  {
    if k > 0 {
      XorBit(p / 2, k - 1);
      assert Pow2(k) % 2 == 0 && Pow2(k) / 2 == Pow2(k - 1);
    } else {
      XorZero(p / 2);
    }
  }

  lemma {:induction false} XorZero(p: nat)
    ensures Xor(p, 0) == p
  {
    if p > 0 {
      XorZero(p / 2);
    }
  }
}
