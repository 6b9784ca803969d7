/** Machine words as natural numbers: bit access, truncation, shifts, xor and or.
    A C expression on a w-bit unsigned word becomes the same expression on a number below Pow2(w),
    with the truncation written out as Low(_, w). */
module Bits {

  function Pow2(k: nat): (p: nat)
    ensures p >= 1
  {
    if k == 0 then 1 else 2 * Pow2(k - 1)
  }

  predicate Bit(n: nat, i: nat) {
    if i == 0 then n % 2 == 1 else Bit(n / 2, i - 1)
  }

  function Shr(n: nat, k: nat): (r: nat)
    ensures r <= n
  {
    if k == 0 then n else Shr(n / 2, k - 1)
  }

  function Shl(n: nat, k: nat): nat {
    if k == 0 then n else 2 * Shl(n, k - 1)
  }

  /** The k low bits of n. */
  function Low(n: nat, k: nat): (r: nat)
    ensures r < Pow2(k)
  {
    if k == 0 then 0 else n % 2 + 2 * Low(n / 2, k - 1)
  }

  function Xor(a: nat, b: nat): nat
    decreases a + b
  {
    if a == 0 && b == 0 then 0
    else (if a % 2 == b % 2 then 0 else 1) + 2 * Xor(a / 2, b / 2)
  }

  function Or(a: nat, b: nat): nat
    decreases a + b
  {
    if a == 0 && b == 0 then 0
    else (if a % 2 == 0 && b % 2 == 0 then 0 else 1) + 2 * Or(a / 2, b / 2)
  }

  function And(a: nat, b: nat): nat
    decreases a + b
  {
    if a == 0 && b == 0 then 0
    else (if a % 2 == 1 && b % 2 == 1 then 1 else 0) + 2 * And(a / 2, b / 2)
  }

  /** A truth value as the C int 0 or 1. */
  function Flag(b: bool): nat {
    if b then 1 else 0
  }

  lemma FlagOps(a: bool, b: bool)
    ensures Xor(Flag(a), Flag(b)) == Flag(a != b) && And(Flag(a), Flag(b)) == Flag(a && b)
  {
  }

  /** A 32-bit word. */
  predicate IsWord(x: nat) {
    x < Pow2(32)
  }

  // ---------- reading single bits of a result ----------

  lemma LowestBit(n: nat)
    ensures Bit(n, 0) == (n % 2 == 1)
  {
  }

  lemma LowBound(n: nat, k: nat)
    ensures Low(n, k) < Pow2(k)
  {
  }

  lemma {:induction false} BitZero(i: nat)
    ensures !Bit(0, i)
  {
    if i > 0 { BitZero(i - 1); }
  }

  lemma {:induction false} BitXor(a: nat, b: nat, i: nat)
    ensures Bit(Xor(a, b), i) == (Bit(a, i) != Bit(b, i))
    decreases i
  {
    hide Xor;
    XorHalf(a, b);
    if i > 0 { BitXor(a / 2, b / 2, i - 1); }
  }

  lemma OrHalf(a: nat, b: nat)
    ensures Or(a, b) / 2 == Or(a / 2, b / 2)
    ensures (Or(a, b) % 2 == 0) == (a % 2 == 0 && b % 2 == 0)
  {
  }

  lemma {:induction false} BitOr(a: nat, b: nat, i: nat)
    ensures Bit(Or(a, b), i) == (Bit(a, i) || Bit(b, i))
    decreases i
  {
    hide Or;
    OrHalf(a, b);
    if i > 0 { BitOr(a / 2, b / 2, i - 1); }
  }

  lemma {:induction false} BitShr(n: nat, k: nat, i: nat)
    ensures Bit(Shr(n, k), i) == Bit(n, i + k)
    decreases k
  {
    if k > 0 { BitShr(n / 2, k - 1, i); }
  }

  lemma {:induction false} BitShl(n: nat, k: nat, i: nat)
    ensures Bit(Shl(n, k), i) == (i >= k && Bit(n, i - k))
    decreases k
  {
    if k > 0 {
      assert Shl(n, k) / 2 == Shl(n, k - 1);
      if i > 0 { BitShl(n, k - 1, i - 1); }
    }
  }

  lemma {:induction false} BitLow(n: nat, k: nat, i: nat)
    ensures Bit(Low(n, k), i) == (i < k && Bit(n, i))
    decreases k
  {
    if k == 0 {
      BitZero(i);
    } else if i > 0 {
      assert Low(n, k) / 2 == Low(n / 2, k - 1);
      BitLow(n / 2, k - 1, i - 1);
    }
  }

  lemma {:induction false} BitPow2(k: nat, i: nat)
    ensures Bit(Pow2(k), i) == (i == k)
    decreases k
  {
    if k == 0 {
      if i > 0 { BitZero(i - 1); }
    } else {
      assert Pow2(k) / 2 == Pow2(k - 1);
      if i > 0 { BitPow2(k - 1, i - 1); }
    }
  }

  lemma {:induction false} BitBeyond(n: nat, k: nat, i: nat)
    requires n < Pow2(k) && k <= i
    ensures !Bit(n, i)
    decreases k
  {
    if k == 0 {
      BitZero(i);
    } else {
      BitBeyond(n / 2, k - 1, i - 1);
    }
  }

  // ---------- numbers are determined by their bits ----------

  lemma {:induction false} SameBits(a: nat, b: nat, k: nat)
    requires a < Pow2(k) && b < Pow2(k)
    requires forall i: nat :: i < k ==> Bit(a, i) == Bit(b, i)
    ensures a == b
    decreases k
  {
    if k > 0 {
      assert Bit(a, 0) == Bit(b, 0);
      forall i: nat | i < k - 1 ensures Bit(a / 2, i) == Bit(b / 2, i) {
        assert Bit(a, i + 1) == Bit(b, i + 1);
      }
      SameBits(a / 2, b / 2, k - 1);
    }
  }

  lemma {:induction false} BoundFromBits(n: nat, k: nat)
    requires forall i: nat :: k <= i ==> !Bit(n, i)
    ensures n < Pow2(k)
    decreases n + k
  {
    if n > 0 {
      if k == 0 {
        assert !Bit(n, 0);
        forall i: nat ensures !Bit(n / 2, i) { assert !Bit(n, i + 1); }
        BoundFromBits(n / 2, 0);
      } else {
        forall i: nat | k - 1 <= i ensures !Bit(n / 2, i) { assert !Bit(n, i + 1); }
        BoundFromBits(n / 2, k - 1);
      }
    }
  }

  lemma {:induction false} Pow2Bounds(n: nat)
    ensures n < Pow2(n)
  {
    if n > 0 { Pow2Bounds(n - 1); }
  }

  lemma {:induction false} Pow2Mono(a: nat, b: nat)
    requires a <= b
    ensures Pow2(a) <= Pow2(b)
    decreases b
  {
    if a < b { Pow2Mono(a, b - 1); }
  }

  /** Extensionality without a width. */
  lemma EqualBits(a: nat, b: nat)
    requires forall i: nat :: Bit(a, i) == Bit(b, i)
    ensures a == b
  {
    Pow2Bounds(a);
    Pow2Bounds(b);
    Pow2Mono(a, a + b);
    Pow2Mono(b, a + b);
    SameBits(a, b, a + b);
  }

  // ---------- arithmetic reading of the shifts ----------

  lemma TimesTwice(q: int, p: int)
    ensures q * (2 * p) == 2 * (q * p) && (2 * q) * p == 2 * (q * p)
  {
  }

  lemma {:induction false} Pow2Add(a: nat, b: nat)
    ensures Pow2(a + b) == Pow2(a) * Pow2(b)
    decreases a
  {
    if a > 0 {
      Pow2Add(a - 1, b);
      TimesTwice(Pow2(a - 1), Pow2(b));
    }
  }

  lemma Pow2At32()
    ensures Pow2(32) == 0x1_0000_0000 && Pow2(31) == 0x8000_0000
  {
    Pow2Add(16, 16);
    Pow2Add(16, 15);
    assert Pow2(8) == 0x100;
    Pow2Add(8, 8);
    Pow2Add(8, 7);
  }

  /** Shr and Low are the quotient and the remainder by a power of two. */
  lemma {:induction false} SplitAt(n: nat, k: nat)
    ensures n == Shr(n, k) * Pow2(k) + Low(n, k)
    decreases k
  {
    if k > 0 {
      SplitAt(n / 2, k - 1);
      TimesTwice(Shr(n / 2, k - 1), Pow2(k - 1));
    }
  }

  lemma {:induction false} JoinAt(q: nat, r: nat, k: nat)
    requires r < Pow2(k)
    ensures Shr(q * Pow2(k) + r, k) == q && Low(q * Pow2(k) + r, k) == r
    decreases k
  {
    if k > 0 {
      var n := q * Pow2(k) + r;
      TimesTwice(q, Pow2(k - 1));
      assert n / 2 == q * Pow2(k - 1) + r / 2 && n % 2 == r % 2;
      JoinAt(q, r / 2, k - 1);
    }
  }

  lemma {:induction false} ShrBound(n: nat, k: nat, w: nat)
    requires n < Pow2(w + k)
    ensures Shr(n, k) < Pow2(w)
    decreases k
  {
    if k > 0 { ShrBound(n / 2, k - 1, w); }
  }

  lemma {:induction false} ShlBound(n: nat, k: nat, w: nat)
    requires n < Pow2(w)
    ensures Shl(n, k) < Pow2(w + k)
    decreases k
  {
    if k > 0 { ShlBound(n, k - 1, w); }
  }

  lemma {:induction false} ShlIsTimes(n: nat, k: nat)
    ensures Shl(n, k) == n * Pow2(k)
    decreases k
  {
    if k > 0 {
      ShlIsTimes(n, k - 1);
      TimesTwice(n, Pow2(k - 1));
    }
  }

  lemma {:induction false} LowSmall(n: nat, k: nat)
    requires n < Pow2(k)
    ensures Low(n, k) == n
    decreases k
  {
    if k > 0 { LowSmall(n / 2, k - 1); }
  }

  lemma {:induction false} ShrShr(n: nat, a: nat, b: nat)
    ensures Shr(Shr(n, a), b) == Shr(n, a + b)
    decreases a
  {
    if a > 0 { ShrShr(n / 2, a - 1, b); }
  }

  // ---------- the group of words under xor ----------

  lemma {:induction false} XorZero(a: nat)
    ensures Xor(a, 0) == a && Xor(0, a) == a
  {
    if a > 0 { XorZero(a / 2); }
  }

  lemma {:induction false} XorSelf(a: nat)
    ensures Xor(a, a) == 0
  {
    if a > 0 { XorSelf(a / 2); }
  }

  lemma {:induction false} XorComm(a: nat, b: nat)
    ensures Xor(a, b) == Xor(b, a)
    decreases a + b
  {
    if a + b > 0 { XorComm(a / 2, b / 2); }
  }

  lemma {:induction false} XorAssoc(a: nat, b: nat, c: nat)
    ensures Xor(Xor(a, b), c) == Xor(a, Xor(b, c))
    decreases a + b + c
  {
    if a + b + c > 0 {
      XorAssoc(a / 2, b / 2, c / 2);
      XorHalf(a, b);
      XorHalf(b, c);
      XorHalf(Xor(a, b), c);
      XorHalf(a, Xor(b, c));
    }
  }

  lemma XorHalf(a: nat, b: nat)
    ensures Xor(a, b) / 2 == Xor(a / 2, b / 2)
    ensures (Xor(a, b) % 2 == 0) == (a % 2 == b % 2)
  {
  }

  lemma XorCancel(a: nat, b: nat)
    ensures Xor(Xor(a, b), b) == a && Xor(b, Xor(b, a)) == a && (Xor(a, b) == 0 <==> a == b)
  {
    XorAssoc(a, b, b);
    XorSelf(b);
    XorZero(a);
    XorAssoc(b, b, a);
    XorZero(b);
  }

  /** The middle two of four xored words can be exchanged. */
  lemma XorSwap(a: nat, b: nat, c: nat, d: nat)
    ensures Xor(Xor(a, b), Xor(c, d)) == Xor(Xor(a, c), Xor(b, d))
  {
    XorAssoc(a, b, Xor(c, d));
    XorAssoc(b, c, d);
    XorComm(b, c);
    XorAssoc(c, b, d);
    XorAssoc(a, c, Xor(b, d));
  }

  lemma {:induction false} XorBound(a: nat, b: nat, k: nat)
    requires a < Pow2(k) && b < Pow2(k)
    ensures Xor(a, b) < Pow2(k)
    decreases k
  {
    if k > 0 { XorBound(a / 2, b / 2, k - 1); }
  }

  lemma {:induction false} XorShr(a: nat, b: nat, k: nat)
    ensures Shr(Xor(a, b), k) == Xor(Shr(a, k), Shr(b, k))
    decreases k
  {
    if k > 0 {
      XorHalf(a, b);
      XorShr(a / 2, b / 2, k - 1);
    }
  }

  lemma {:induction false} XorShl(a: nat, b: nat, k: nat)
    ensures Shl(Xor(a, b), k) == Xor(Shl(a, k), Shl(b, k))
    decreases k
  {
    if k > 0 { XorShl(a, b, k - 1); }
  }

  lemma {:induction false} XorLow(a: nat, b: nat, k: nat)
    ensures Low(Xor(a, b), k) == Xor(Low(a, k), Low(b, k))
    decreases k
  {
    if k > 0 {
      XorHalf(a, b);
      XorLow(a / 2, b / 2, k - 1);
      var l, m := Low(a / 2, k - 1), Low(b / 2, k - 1);
      assert Low(a, k) / 2 == l && Low(b, k) / 2 == m;
      assert Low(a, k) % 2 == a % 2 && Low(b, k) % 2 == b % 2;
      XorHalf(Low(a, k), Low(b, k));
      assert Low(Xor(a, b), k) == Xor(a, b) % 2 + 2 * Low(Xor(a, b) / 2, k - 1);
    }
  }

  /** Two numbers in one aligned block of 2^k differ by a number below 2^k. */
  lemma XorInBlock(a: nat, b: nat, k: nat)
    requires Shr(a, k) == Shr(b, k)
    ensures Xor(a, b) < Pow2(k)
  {
    XorShr(a, b, k);
    XorSelf(Shr(a, k));
    SplitAt(Xor(a, b), k);
  }
}
