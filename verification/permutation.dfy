/** The PCG XSH-RR output permutation and the streams derived from the root state (misc/mpcg.h). */
module Permutation {
  import opened Bits
  import opened Counting
  import opened Lcg

  /** The state xored with itself 18 places down; of that the 32 bits from bit 27 on. */
  function Xorshifted(s: nat): nat {
    Low(Shr(Xor(Shr(s, 18), s), 27), 32)
  }

  /** The five top bits of the state say how far to rotate. */
  function Rotation(s: nat): nat {
    Low(Shr(s, 59), 32)
  }

  /** The rotation to the left that equals one by rot to the right: the low five bits of the negated word. */
  function NegateMod32(rot: nat): (r: nat)
    ensures r < 32 && (rot < 32 ==> r == if rot == 0 then 0 else 32 - rot)
  {
    (-(rot as int)) % 32
  }

  /** The xorshifted word, rotated right. */
  function OutputFunction(s: nat): nat {
    var x, rot := Xorshifted(s), Rotation(s);
    Or(Shr(x, rot), Low(Shl(x, NegateMod32(rot)), 32))
  }

  lemma RotationSmall(s: nat)
    requires s < MODULUS
    ensures Rotation(s) < 32 && Rotation(s) == Shr(s, 59)
  {
    Pow2At64();
    assert Pow2(5) == 32;
    ShrBound(s, 59, 5);
    Pow2Mono(5, 32);
    LowSmall(Shr(s, 59), 32);
  }

  lemma XorshiftedBit(s: nat, j: nat)
    requires j < 32
    ensures Bit(Xorshifted(s), j) == (Bit(s, j + 45) != Bit(s, j + 27))
  {
    var t := Xor(Shr(s, 18), s);
    BitLow(Shr(t, 27), 32, j);
    BitShr(t, 27, j);
    BitXor(Shr(s, 18), s, j + 27);
    BitShr(s, 18, j + 27);
  }

  lemma XorshiftedBound(s: nat)
    ensures Xorshifted(s) < Pow2(32)
  {
  }

  /** The output is the xorshifted word rotated right. */
  lemma OutputBit(s: nat, j: nat)
    requires s < MODULUS && j < 32
    ensures Bit(OutputFunction(s), j) == Bit(Xorshifted(s), (j + Rotation(s)) % 32)
  {
    hide Shr, Shl, Or, Low, Bit, Pow2, Xorshifted;
    RotationSmall(s);
    var x, rot := Xorshifted(s), Rotation(s);
    XorshiftedBound(s);
    var left := NegateMod32(rot);
    BitOr(Shr(x, rot), Low(Shl(x, left), 32), j);
    BitShr(x, rot, j);
    BitLow(Shl(x, left), 32, j);
    BitShl(x, left, j);
    if j + rot >= 32 { BitBeyond(x, 32, j + rot); }
  }

  lemma OutputBound(s: nat)
    requires s < MODULUS
    ensures OutputFunction(s) < WORDS
  {
    hide Shr, Shl, Or, Low, Bit, Pow2, Xorshifted;
    RotationSmall(s);
    XorshiftedBound(s);
    Pow2At64();
    var x, rot := Xorshifted(s), Rotation(s);
    var left := NegateMod32(rot);
    forall i: nat | 32 <= i ensures !Bit(OutputFunction(s), i) {
      BitOr(Shr(x, rot), Low(Shl(x, left), 32), i);
      BitShr(x, rot, i);
      BitBeyond(x, 32, i + rot);
      BitBeyond(Low(Shl(x, left), 32), 32, i);
    }
    BoundFromBits(OutputFunction(s), 32);
  }

  // ---------- what the output leaves open ----------

  /** Each bit of the output, read off the state: the rotation is the state divided by 2^59. */
  lemma OutputOfState(s: nat, j: nat)
    requires s < 0x1_0000_0000_0000_0000 && j < 32
    ensures var k := (j + s / 0x800_0000_0000_0000) % 32;
            Bit(OutputFunction(s), j) == (Bit(s, k + 45) != Bit(s, k + 27))
  {
    hide OutputFunction, Xorshifted, Rotation, Bit, Shr, Pow2, Low;
    OutputBit(s, j);
    RotationSmall(s);
    Pow2At59();
    SplitAt(s, 59);
    LowBound(s, 59);
    DivModUnique(s, 0x800_0000_0000_0000, Shr(s, 59), Low(s, 59));
    XorshiftedBit(s, (j + Rotation(s)) % 32);
  }

  lemma Pow2At59()
    ensures Pow2(59) == 0x800_0000_0000_0000
  {
    hide Pow2;
    Pow2Add(32, 27);
    Pow2At32();
    Pow2At27();
  }

  lemma Pow2At27()
    ensures Pow2(27) == 0x800_0000
  {
    assert Pow2(13) == 0x2000;
    assert Pow2(14) == 0x4000;
    Pow2Add(13, 14);
  }

  /** The part of the state that the output does not show: its 5 top and 27 low bits. */
  function Tag(s: nat): nat {
    Shr(s, 59) * Pow2(27) + Low(s, 27)
  }

  /** Output and tag as one 64-bit number. */
  function Code(s: nat): nat {
    WORDS * Tag(s) + OutputFunction(s)
  }

  lemma TagParts(s: nat, t: nat)
    requires Tag(s) == Tag(t)
    ensures Low(s, 27) == Low(t, 27) && Shr(s, 59) == Shr(t, 59)
  {
    hide Shr, Low, Pow2;
    JoinAt(Shr(s, 59), Low(s, 27), 27);
    JoinAt(Shr(t, 59), Low(t, 27), 27);
  }

  lemma TagBound(s: nat)
    requires s < MODULUS
    ensures Tag(s) < WORDS
  {
    RotationSmall(s);
    Pow2At64();
    assert Pow2(27) == 0x800_0000;
    assert Low(s, 27) < Pow2(27);
  }

  /** Equal outputs and equal rotations give equal xorshifted words. */
  lemma SameXorshifted(s: nat, t: nat, j: nat)
    requires s < MODULUS && t < MODULUS && j < 32
    requires Shr(s, 59) == Shr(t, 59) && OutputFunction(s) == OutputFunction(t)
    ensures Bit(Xorshifted(s), j) == Bit(Xorshifted(t), j)
  {
    hide *;
    RotationSmall(s);
    RotationSmall(t);
    var rot := Rotation(s);
    var i := if j >= rot then j - rot else j - rot + 32;
    OutputBit(s, i);
    OutputBit(t, i);
  }

  /** Undoing the xorshift from the top: bit i of the state follows from bit i + 18 and the output. */
  lemma {:induction false} SameStateBit(s: nat, t: nat, i: nat)
    requires s < MODULUS && t < MODULUS
    requires Tag(s) == Tag(t) && OutputFunction(s) == OutputFunction(t)
    ensures Bit(s, i) == Bit(t, i)
    decreases if i < 64 then 64 - i else 0
  {
    hide *;
    TagParts(s, t);
    if i < 27 {
      BitLow(s, 27, i);
      BitLow(t, 27, i);
    } else if i >= 59 {
      BitShr(s, 59, i - 59);
      BitShr(t, 59, i - 59);
    } else {
      SameStateBit(s, t, i + 18);
      SameXorshifted(s, t, i - 27);
      XorshiftedBit(s, i - 27);
      XorshiftedBit(t, i - 27);
    }
  }

  /** Output and tag determine the state. */
  lemma CodeInjective(s: nat, t: nat)
    requires s < MODULUS && t < MODULUS
    ensures Code(s) == Code(t) <==> s == t
  {
    hide *;
    CodeParts(s);
    CodeParts(t);
    if Code(s) == Code(t) {
      forall i: nat ensures Bit(s, i) == Bit(t, i) {
        SameStateBit(s, t, i);
      }
      EqualBits(s, t);
    }
  }

  lemma CodeParts(s: nat)
    requires s < MODULUS
    ensures Code(s) < MODULUS && Code(s) % WORDS == OutputFunction(s) && Code(s) / WORDS == Tag(s)
  {
    hide OutputFunction, Tag;
    OutputBound(s);
    TagBound(s);
  }

  /** Every pair of an output and a tag belongs to exactly one state. */
  lemma OutputAndTagNameOneState(out: nat, tag: nat)
    requires out < WORDS && tag < WORDS
    ensures exists s: nat :: s < MODULUS && OutputFunction(s) == out && Tag(s) == tag
    ensures forall s: nat, t: nat :: (s < MODULUS && t < MODULUS &&
      OutputFunction(s) == OutputFunction(t) == out && Tag(s) == Tag(t) == tag) ==> s == t
  {
    hide Code, OutputFunction, Tag;
    var f := (s: nat) => Code(s);
    forall s: nat | s < MODULUS ensures f(s) < MODULUS { CodeParts(s); }
    forall s: nat, t: nat | s < t < MODULUS ensures f(s) != f(t) {
      if f(s) == f(t) { CodeInjective(s, t); }
    }
    Pigeonhole(f, MODULUS);
    assert Hits(f, MODULUS, WORDS * tag + out);
    var s: nat :| s < MODULUS && f(s) == WORDS * tag + out;
    CodeParts(s);
    forall s: nat, t: nat | s < MODULUS && t < MODULUS &&
      OutputFunction(s) == OutputFunction(t) == out && Tag(s) == Tag(t) == tag
      ensures s == t
    {
      CodeParts(s);
      CodeParts(t);
      CodeInjective(s, t);
    }
  }

  // ---------- equidistribution over one period ----------

  /** The positions of one full period at which the generator (a, c) started at s outputs out. */
  ghost function Occurrences(a: nat, c: nat, s: nat, out: nat): set<nat> {
    set n: nat | n < MODULUS && OutputFunction(Iterate(a, c, s, n)) == out
  }

  /** Over its period an LCG with a = 1 mod 4 and odd increment outputs every 32-bit word exactly 2^32 times. */
  lemma Equidistribution(a: nat, c: nat, s: nat, out: nat)
    requires a % 4 == 1 && c % 2 == 1 && s < MODULUS && out < WORDS
    ensures |Occurrences(a, c, s, out)| == WORDS
  {
    hide Code, OutputFunction, Iterate;
    var f := (n: nat) => Code(Iterate(a, c, s, n));
    forall n: nat | n < WORDS * WORDS
      ensures f(n) < WORDS * WORDS && f(n) % WORDS == OutputFunction(Iterate(a, c, s, n))
    {
      IterateBound(a, c, s, n);
      CodeParts(Iterate(a, c, s, n));
    }
    forall m: nat, n: nat | m < n < WORDS * WORDS ensures f(m) != f(n) {
      IterateBound(a, c, s, m);
      IterateBound(a, c, s, n);
      RunCollision(a, c, s, m, n);
      if f(m) == f(n) { CodeInjective(Iterate(a, c, s, m), Iterate(a, c, s, n)); }
    }
    FibreSize(f, WORDS, WORDS, out);
    assert Occurrences(a, c, s, out) == Fibre(f, WORDS * WORDS, WORDS, out);
  }

  // ---------- many streams from one root ----------

  /** The offset of a stream: the multiplier times twice the stream number, made odd, on 64-bit words. */
  function Offset(seqId: nat): nat {
    Or((RNG_A * Low(Shl(seqId, 1), 64)) % MODULUS, 1)
  }

  function MultiStream(state: nat, seqId: nat): nat {
    (state + Offset(seqId)) % MODULUS
  }

  lemma OrOne(x: nat)
    requires x % 2 == 0
    ensures Or(x, 1) == x + 1
  {
    OrZero(x / 2);
  }

  lemma {:induction false} OrZero(x: nat)
    ensures Or(x, 0) == x
  {
    if x > 0 { OrZero(x / 2); }
  }

  lemma LowIsResidue(n: nat)
    ensures Low(n, 64) == n % MODULUS
  {
    hide Low, Shr, Pow2;
    Pow2At64();
    assert Low(n, 64) < Pow2(64) by { LowBound(n, 64); }
    SplitAt(n, 64);
    AddMultiple(Low(n, 64), Shr(n, 64));
  }

  lemma OffsetValue(seqId: nat)
    ensures Offset(seqId) == (2 * (seqId * RNG_A)) % MODULUS + 1
    ensures Offset(seqId) < MODULUS && Offset(seqId) % 2 == 1
  {
    hide Offset, Or;
    OffsetUnfolds(seqId);
    EvenResidue(seqId * RNG_A);
    var e := (2 * (seqId * RNG_A)) % MODULUS;
    assert Offset(seqId) == Or(e, 1);
    hide *;
    OrOne(e);
  }

  lemma OffsetUnfolds(seqId: nat)
    ensures Offset(seqId) == Or((2 * (seqId * RNG_A)) % MODULUS, 1)
  {
    hide Low, Or;
    assert Shl(seqId, 1) == 2 * Shl(seqId, 0);
    LowIsResidue(2 * seqId);
    TruncatedProduct(RNG_A, 2 * seqId);
    TwiceProduct(RNG_A, seqId);
  }

  lemma TruncatedProduct(a: nat, x: nat)
    ensures (a * (x % MODULUS)) % MODULUS == (a * x) % MODULUS
  {
    var q, r := x / MODULUS, x % MODULUS;
    assert a * x == a * r + MODULUS * (a * q) by {
      assert a * (MODULUS * q + r) == MODULUS * (a * q) + a * r;
    }
    AddMultiple(a * r, a * q);
  }

  lemma TwiceProduct(a: nat, x: nat)
    ensures a * (2 * x) == 2 * (x * a)
  {
  }

  lemma EvenResidue(x: nat)
    ensures (2 * x) % MODULUS % 2 == 0 && (2 * x) % MODULUS + 1 < MODULUS
  {
  }

  /** The state of stream number seqId outright: the root state plus twice the number times the multiplier, plus one. */
  lemma StreamState(state: nat, seqId: nat)
    ensures MultiStream(state, seqId) == (state + 2 * (seqId * 0x5851f42d4c957f2d) + 1) % 0x1_0000_0000_0000_0000
  {
    hide Offset;
    OffsetValue(seqId);
    OffsetResidue(2 * (seqId * RNG_A), state + 1);
  }

  /** Two stream numbers get the same offset exactly when they agree modulo 2^63. */
  lemma OffsetsCollide(p: nat, q: nat)
    requires p <= q
    ensures Offset(p) == Offset(q) <==> (q - p) % 0x8000_0000_0000_0000 == 0
  {
    hide Offset, PowDivides, Low, Pow2, Shr;
    OffsetValue(p);
    OffsetValue(q);
    var d := q - p;
    assert q * RNG_A == p * RNG_A + d * RNG_A;
    OffsetDistance(d);
    SumResidue(2 * (p * RNG_A), 2 * (d * RNG_A));
  }

  lemma OffsetDistance(d: nat)
    ensures (2 * (d * RNG_A)) % MODULUS == 0 <==> d % 0x8000_0000_0000_0000 == 0
  {
    hide PowDivides;
    PowDivides64(2 * (d * RNG_A));
    PowDividesTwice(63, d * RNG_A);
    PowDividesOddMultiple(63, d, RNG_A);
    PowDivides63(d);
  }

  lemma SumResidue(u: nat, d: nat)
    ensures u % MODULUS == (u + d) % MODULUS <==> d % MODULUS == 0
  {
  }

  /** At one position two streams hold the same state exactly when their numbers agree modulo 2^63;
      the stream numbers 54 + id in use are all below that. */
  lemma StreamsStayApart(state: nat, p: nat, q: nat)
    requires state < MODULUS && p <= q
    ensures MultiStream(state, p) == MultiStream(state, q) <==> (q - p) % 0x8000_0000_0000_0000 == 0
  {
    hide Offset;
    OffsetsCollide(p, q);
    OffsetValue(p);
    OffsetValue(q);
    SameSum(state, Offset(p), Offset(q));
  }

  lemma SameSum(x: nat, h: nat, k: nat)
    requires h < MODULUS && k < MODULUS
    ensures (x + h) % MODULUS == (x + k) % MODULUS <==> h == k
  {
    if h <= k {
      SumResidue(x + h, k - h);
    } else {
      SumResidue(x + k, h - k);
    }
  }

  /** The increment that makes the offset run an LCG of its own: RNG_INC - (RNG_A - 1) * offset modulo 2^64. */
  function StreamIncrement(seqId: nat): nat {
    OffsetValue(seqId);
    RNG_INC + (RNG_A - 1) * (MODULUS - Offset(seqId))
  }

  lemma StreamStep(state: nat, seqId: nat)
    ensures MultiStream(Step(RNG_A, RNG_INC, state), seqId)
         == Step(RNG_A, StreamIncrement(seqId), MultiStream(state, seqId))
    ensures StreamIncrement(seqId) % 2 == 1
  {
    hide Offset;
    OffsetValue(seqId);
    var h := Offset(seqId);
    StepOfResidue(RNG_A, StreamIncrement(seqId), state + h);
    StreamIncrementIsOdd(seqId);
    AffineShift(RNG_A, RNG_INC, MODULUS, state, h);
    AddMultiple(state * RNG_A + RNG_INC + h, RNG_A - 1);
    OffsetResidue(state * RNG_A + RNG_INC, h);
  }

  lemma AffineShift(a: int, c: int, m: int, x: int, h: int)
    ensures (x + h) * a + (c + (a - 1) * (m - h)) == x * a + c + h + m * (a - 1)
  {
    assert (x + h) * a == x * a + h * a;
    assert (a - 1) * (m - h) == m * (a - 1) - (a - 1) * h;
    assert (a - 1) * h == h * a - h;
  }

  lemma StreamIncrementIsOdd(seqId: nat)
    ensures StreamIncrement(seqId) % 2 == 1
  {
    hide Offset;
    OffsetValue(seqId);
    var m := MODULUS - Offset(seqId);
    assert m >= 0 && StreamIncrement(seqId) == RNG_INC + (RNG_A - 1) * m;
    OddSumOfEven(m, RNG_A - 1, RNG_INC);
  }

  lemma OddSumOfEven(x: nat, y: nat, c: nat)
    requires y % 2 == 0 && c % 2 == 1
    ensures (c + y * x) % 2 == 1
  {
    EvenTimes(x, y);
  }

  lemma OffsetResidue(x: nat, h: nat)
    ensures (x % MODULUS + h) % MODULUS == (x + h) % MODULUS
  {
  }

  /** Seen through its offset, the root run is an LCG run with the same multiplier and an odd increment. */
  lemma {:induction false} StreamRun(s: nat, seqId: nat, n: nat)
    ensures MultiStream(Iterate(RNG_A, RNG_INC, s, n), seqId)
         == Iterate(RNG_A, StreamIncrement(seqId), MultiStream(s, seqId), n)
  {
    hide MultiStream, StreamIncrement, Step;
    if n > 0 {
      StreamRun(s, seqId, n - 1);
      StreamStep(Iterate(RNG_A, RNG_INC, s, n - 1), seqId);
    }
  }

  lemma MultiStreamBound(state: nat, seqId: nat)
    ensures MultiStream(state, seqId) < MODULUS
  {
  }

  /** Every stream has the full period 2^64. */
  lemma StreamPeriod(s: nat, seqId: nat, m: nat, n: nat)
    requires s < MODULUS && m <= n
    ensures MultiStream(Iterate(RNG_A, RNG_INC, s, m), seqId) == MultiStream(Iterate(RNG_A, RNG_INC, s, n), seqId)
        <==> (n - m) % MODULUS == 0
  {
    hide MultiStream, StreamIncrement, Iterate;
    StreamRun(s, seqId, m);
    StreamRun(s, seqId, n);
    StreamIncrementIsOdd(seqId);
    MultiStreamBound(s, seqId);
    RunCollision(RNG_A, StreamIncrement(seqId), MultiStream(s, seqId), m, n);
  }

  ghost function StreamOccurrences(s: nat, seqId: nat, out: nat): set<nat> {
    set n: nat | n < MODULUS && OutputFunction(MultiStream(Iterate(RNG_A, RNG_INC, s, n), seqId)) == out
  }

  /** Over the 2^64 root states, the permuted output of every stream takes every 32-bit value exactly 2^32 times. */
  lemma StreamEquidistribution(s: nat, seqId: nat, out: nat)
    requires s < MODULUS && out < WORDS
    ensures |StreamOccurrences(s, seqId, out)| == WORDS
  {
    hide MultiStream, StreamIncrement, Iterate, OutputFunction, Step;
    StreamIncrementIsOdd(seqId);
    MultiStreamBound(s, seqId);
    Equidistribution(RNG_A, StreamIncrement(seqId), MultiStream(s, seqId), out);
    forall n: nat
      ensures MultiStream(Iterate(RNG_A, RNG_INC, s, n), seqId)
           == Iterate(RNG_A, StreamIncrement(seqId), MultiStream(s, seqId), n)
    {
      StreamRun(s, seqId, n);
    }
    assert StreamOccurrences(s, seqId, out)
        == Occurrences(RNG_A, StreamIncrement(seqId), MultiStream(s, seqId), out);
  }
}
