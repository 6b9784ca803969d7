/** The 32-bit xorshift decorrelator (misc/estpi/ssrng.cpp): a linear bijection of the words. */
module Xorshift {
  import opened Bits
  import opened Counting

  const WORD: nat := 32

  function XorShl(y: nat, k: nat): nat {
    Xor(y, Low(Shl(y, k), WORD))
  }

  function XorShr(y: nat, k: nat): nat {
    Xor(y, Shr(y, k))
  }

  function Jump(s: nat): nat {
    var y := XorShl(s, 13);
    var z := XorShr(y, 17);
    XorShl(z, 5)
  }

  function Iterate(s: nat, n: nat): nat {
    if n == 0 then s else Jump(Iterate(s, n - 1))
  }

  lemma JumpIsWord(s: nat)
    requires IsWord(s)
    ensures IsWord(Jump(s))
  {
    var y := XorShl(s, 13);
    Bits.XorBound(s, Low(Shl(s, 13), WORD), WORD);
    Bits.XorBound(y, Shr(y, 17), WORD);
    var z := XorShr(y, 17);
    Bits.XorBound(z, Low(Shl(z, 5), WORD), WORD);
  }

  // ---------- the step as a matrix over GF(2) ----------

  /** Bit i of a word, no bits outside 0 .. 31. */
  predicate WordBit(s: nat, i: int) {
    0 <= i < WORD && Bit(s, i)
  }

  lemma XorShlBit(y: nat, k: nat, i: nat)
    requires i < WORD
    ensures WordBit(XorShl(y, k), i) == (WordBit(y, i) != WordBit(y, i - k))
  {
    hide Bit, Xor, Low, Shl;
    BitXor(y, Low(Shl(y, k), WORD), i);
    BitLow(Shl(y, k), WORD, i);
    BitShl(y, k, i);
  }

  lemma XorShrBit(y: nat, k: nat, i: nat)
    requires IsWord(y) && i < WORD
    ensures WordBit(XorShr(y, k), i) == (WordBit(y, i) != WordBit(y, i + k))
  {
    hide Bit, Xor, Shr, Pow2;
    BitXor(y, Shr(y, k), i);
    BitShr(y, k, i);
    if i + k >= WORD { BitBeyond(y, WORD, i + k); }
  }

  /** Bit i after the shifts by 13 and 17: at most four bits of the seed. */
  function MiddleBit(s: nat, i: int): bool {
    0 <= i < WORD &&
    ((WordBit(s, i) != WordBit(s, i - 13)) != (i + 17 < WORD && (WordBit(s, i + 17) != WordBit(s, i + 4))))
  }

  /** Every bit of the step is the xor of at most eight bits of the seed. */
  lemma JumpRow(s: nat, i: nat)
    requires IsWord(s) && i < WORD
    ensures WordBit(Jump(s), i) == (MiddleBit(s, i) != MiddleBit(s, i - 5))
  {
    hide Bit, Xor, XorShl, XorShr, Pow2;
    XorShlIsWord(s, 13);
    var y := XorShl(s, 13);
    var z := XorShr(y, 17);
    XorShlBit(z, 5, i);
    MiddleRow(s, i);
    if i >= 5 { MiddleRow(s, i - 5); }
  }

  /** Every bit of the step, written out: the shifts are 13 to the left, 17 to the right and 5 to the left. */
  lemma JumpBit(s: nat, i: nat)
    requires s < 0x1_0000_0000 && i < 32
    ensures var bit := (k: int) => 0 <= k < 32 && Bit(s, k);
            var middle := (k: int) =>
              k >= 0 && ((bit(k) != bit(k - 13)) != (k + 17 < 32 && (bit(k + 17) != bit(k + 4))));
            Bit(Jump(s), i) == (middle(i) != middle(i - 5))
  {
    hide Bit, Jump, Pow2;
    assert IsWord(s) by { Pow2At32(); }
    JumpRow(s, i);
  }

  /** The run is what the single steps make it. */
  lemma {:induction false} RunIsUnique(s: nat, g: nat -> nat, n: nat)
    requires g(0) == s && forall k: nat :: g(k + 1) == Jump(g(k))
    ensures Iterate(s, n) == g(n)
  {
    hide Jump;
    if n > 0 {
      RunIsUnique(s, g, n - 1);
      assert g((n - 1) + 1) == Jump(g(n - 1));
    }
  }

  lemma XorShlIsWord(y: nat, k: nat)
    requires IsWord(y)
    ensures IsWord(XorShl(y, k))
  {
    Bits.XorBound(y, Low(Shl(y, k), WORD), WORD);
  }

  lemma MiddleRow(s: nat, i: nat)
    requires IsWord(s) && i < WORD
    ensures WordBit(XorShr(XorShl(s, 13), 17), i) == MiddleBit(s, i)
  {
    hide Bit, Xor, XorShl, XorShr, Pow2;
    XorShlIsWord(s, 13);
    var y := XorShl(s, 13);
    XorShrBit(y, 17, i);
    XorShlBit(s, 13, i);
    if i + 17 < WORD { XorShlBit(s, 13, i + 17); }
  }

  // ---------- linearity ----------

  lemma XorShlLinear(a: nat, b: nat, k: nat)
    ensures XorShl(Xor(a, b), k) == Xor(XorShl(a, k), XorShl(b, k))
  {
    Bits.XorShl(a, b, k);
    Bits.XorLow(Shl(a, k), Shl(b, k), WORD);
    XorSwap(a, b, Low(Shl(a, k), WORD), Low(Shl(b, k), WORD));
  }

  lemma XorShrLinear(a: nat, b: nat, k: nat)
    ensures XorShr(Xor(a, b), k) == Xor(XorShr(a, k), XorShr(b, k))
  {
    Bits.XorShr(a, b, k);
    XorSwap(a, b, Shr(a, k), Shr(b, k));
  }

  lemma JumpLinear(a: nat, b: nat)
    ensures Jump(Xor(a, b)) == Xor(Jump(a), Jump(b))
  {
    XorShlLinear(a, b, 13);
    var ya, yb := XorShl(a, 13), XorShl(b, 13);
    XorShrLinear(ya, yb, 17);
    XorShlLinear(XorShr(ya, 17), XorShr(yb, 17), 5);
  }

  // ---------- invertibility ----------

  /** A left shift moves information only upwards, so the lowest bits of y survive first. */
  lemma {:induction false} XorShlKernel(y: nat, k: nat, i: nat)
    requires k > 0 && i < WORD && XorShl(y, k) == 0
    ensures !Bit(y, i)
    decreases i
  {
    BitZero(i);
    BitXor(y, Low(Shl(y, k), WORD), i);
    BitLow(Shl(y, k), WORD, i);
    BitShl(y, k, i);
    if i >= k { XorShlKernel(y, k, i - k); }
  }

  lemma {:induction false} XorShrKernel(y: nat, k: nat, i: nat)
    requires k > 0 && IsWord(y) && XorShr(y, k) == 0
    ensures !Bit(y, i)
    decreases if i < WORD then WORD - i else 0
  {
    if i >= WORD {
      BitBeyond(y, WORD, i);
    } else {
      BitZero(i);
      BitXor(y, Shr(y, k), i);
      BitShr(y, k, i);
      XorShrKernel(y, k, i + k);
    }
  }

  lemma XorShlNonzero(y: nat, k: nat)
    requires k > 0 && IsWord(y) && y != 0
    ensures XorShl(y, k) != 0
  {
    if XorShl(y, k) == 0 {
      forall i: nat | i < WORD ensures Bit(y, i) == Bit(0, i) {
        XorShlKernel(y, k, i);
        BitZero(i);
      }
      SameBits(y, 0, WORD);
    }
  }

  lemma XorShrNonzero(y: nat, k: nat)
    requires k > 0 && IsWord(y) && y != 0
    ensures XorShr(y, k) != 0
  {
    if XorShr(y, k) == 0 {
      forall i: nat | i < WORD ensures Bit(y, i) == Bit(0, i) {
        XorShrKernel(y, k, i);
        BitZero(i);
      }
      SameBits(y, 0, WORD);
    }
  }

  lemma JumpNonzero(s: nat)
    requires IsWord(s) && s != 0
    ensures Jump(s) != 0
  {
    XorShlNonzero(s, 13);
    var y := XorShl(s, 13);
    Bits.XorBound(s, Low(Shl(s, 13), WORD), WORD);
    XorShrNonzero(y, 17);
    var z := XorShr(y, 17);
    Bits.XorBound(y, Shr(y, 17), WORD);
    XorShlNonzero(z, 5);
  }

  lemma JumpInjective(a: nat, b: nat)
    requires IsWord(a) && IsWord(b)
    ensures Jump(a) == Jump(b) <==> a == b
  {
    JumpLinear(a, b);
    XorCancel(a, b);
    XorCancel(Jump(a), Jump(b));
    Bits.XorBound(a, b, WORD);
    if a != b { JumpNonzero(Xor(a, b)); }
  }

  /** Every word has exactly one predecessor. */
  lemma JumpSurjective(w: nat)
    requires IsWord(w)
    ensures exists s: nat :: IsWord(s) && Jump(s) == w
  {
    var f := (s: nat) => Jump(s);
    forall s: nat | s < Pow2(WORD) ensures f(s) < Pow2(WORD) { JumpIsWord(s); }
    forall s: nat, t: nat | s < t < Pow2(WORD) ensures f(s) != f(t) { JumpInjective(s, t); }
    Pigeonhole(f, Pow2(WORD));
    assert Hits(f, Pow2(WORD), w);
  }

  // ---------- unbounded runs ----------

  lemma {:induction false} RunIsWord(s: nat, n: nat)
    requires IsWord(s)
    ensures IsWord(Iterate(s, n))
  {
    hide Jump, Pow2;
    if n > 0 {
      RunIsWord(s, n - 1);
      JumpIsWord(Iterate(s, n - 1));
    }
  }

  /** A nonzero seed never reaches zero. */
  lemma {:induction false} RunNonzero(s: nat, n: nat)
    requires IsWord(s) && s != 0
    ensures Iterate(s, n) != 0
  {
    hide Jump, Pow2;
    if n > 0 {
      RunNonzero(s, n - 1);
      RunIsWord(s, n - 1);
      JumpNonzero(Iterate(s, n - 1));
    }
  }

  /** The difference of two runs is the run of the difference of their seeds. */
  lemma {:induction false} RunLinear(a: nat, b: nat, n: nat)
    ensures Xor(Iterate(a, n), Iterate(b, n)) == Iterate(Xor(a, b), n)
  {
    hide Jump, Xor;
    if n > 0 {
      RunLinear(a, b, n - 1);
      JumpLinear(Iterate(a, n - 1), Iterate(b, n - 1));
    }
  }

  /** Distinct seeds stay distinct at every step. */
  lemma RunsStayApart(a: nat, b: nat, n: nat)
    requires IsWord(a) && IsWord(b)
    ensures Iterate(a, n) == Iterate(b, n) <==> a == b
  {
    hide Iterate, Xor, Pow2;
    if a != b {
      RunLinear(a, b, n);
      XorCancel(a, b);
      XorCancel(Iterate(a, n), Iterate(b, n));
      Bits.XorBound(a, b, WORD);
      RunNonzero(Xor(a, b), n);
    }
  }

  lemma {:induction false} RunAdd(s: nat, m: nat, n: nat)
    ensures Iterate(s, m + n) == Iterate(Iterate(s, m), n)
    decreases n
  {
    hide Jump;
    if n > 0 { RunAdd(s, m, n - 1); }
  }

  /** Every run is a pure cycle through nonzero words: the seed itself comes back in at most 2^32 - 1 steps. */
  lemma SeedReturns(s: nat)
    requires IsWord(s) && s != 0
    ensures exists n: nat :: 0 < n < Pow2(WORD) && Iterate(s, n) == s
  {
    hide Jump, Pow2, Iterate;
    var size := Pow2(WORD);
    var f := (n: nat) => Iterate(s, n);
    forall n: nat | n < size ensures f(n) < size { RunIsWord(s, n); }
    if InjectiveBelow(f, size) {
      Pigeonhole(f, size);
      assert Hits(f, size, 0);
      var n: nat :| n < size && f(n) == 0;
      RunNonzero(s, n);
      assert false;
    }
    var i: nat, j: nat :| i < j < size && f(i) == f(j);
    RunShift(s, i, j - i);
    RunIsWord(s, j - i);
    RunsStayApart(s, Iterate(s, j - i), i);
  }

  lemma RunShift(s: nat, i: nat, d: nat)
    ensures Iterate(s, i + d) == Iterate(Iterate(s, d), i)
  {
    RunAdd(s, d, i);
    assert d + i == i + d;
  }
}
