/** The 64-bit linear congruential root generator (misc/mpcg.h) and its exact period.
    Multiplier and increment are parameters of Step, because the same recurrence runs as the
    root generator, as a leapfrog lane and, seen through an odd offset, as every instance's state. */
module Lcg {
  import opened Bits

  const MODULUS: nat := 0x1_0000_0000_0000_0000
  const WORDS: nat := 0x1_0000_0000

  const RNG_A: nat := 0x5851f42d4c957f2d
  const RNG_INC: nat := 0x6d

  /** One transition: state * a + c on unsigned 64-bit words. */
  function Step(a: nat, c: nat, s: nat): (t: nat)
    ensures t < MODULUS
  {
    (s * a + c) % MODULUS
  }

  function Iterate(a: nat, c: nat, s: nat, n: nat): nat {
    if n == 0 then s else Step(a, c, Iterate(a, c, s, n - 1))
  }

  function Power(a: nat, n: nat): nat {
    if n == 0 then 1 else Power(a, n - 1) * a
  }

  /** 1 + a + ... + a^(n-1), over the integers. */
  function Geometric(a: nat, n: nat): nat {
    if n == 0 then 0 else Geometric(a, n - 1) * a + 1
  }

  /** The run is what the single transitions make it. */
  lemma {:induction false} RunIsUnique(a: nat, c: nat, s: nat, g: nat -> nat, n: nat)
    requires g(0) == s && forall k: nat :: g(k + 1) == (g(k) * a + c) % 0x1_0000_0000_0000_0000
    ensures Iterate(a, c, s, n) == g(n)
  {
    if n > 0 {
      RunIsUnique(a, c, s, g, n - 1);
      assert g((n - 1) + 1) == (g(n - 1) * a + c) % 0x1_0000_0000_0000_0000;
    }
  }

  // ---------- arithmetic modulo 2^64 ----------

  lemma AddMultiple(y: int, k: int)
    ensures (y + MODULUS * k) % MODULUS == y % MODULUS
  {
  }

  lemma StepOfResidue(a: nat, c: nat, x: nat)
    ensures Step(a, c, x % MODULUS) == (x * a + c) % MODULUS
  {
    var q, r := x / MODULUS, x % MODULUS;
    assert x * a + c == r * a + c + MODULUS * (q * a) by {
      assert x == MODULUS * q + r;
      assert x * a == (MODULUS * q + r) * a == MODULUS * (q * a) + r * a;
    }
    AddMultiple(r * a + c, q * a);
  }

  lemma StepTo(a: nat, c: nat, x: nat, y: nat, s: nat)
    requires s == x % MODULUS && y == x * a + c
    ensures Step(a, c, s) == y % MODULUS
  {
    StepOfResidue(a, c, x);
  }

  lemma {:induction false} IterateBound(a: nat, c: nat, s: nat, n: nat)
    requires s < MODULUS
    ensures Iterate(a, c, s, n) < MODULUS
  {
  }

  lemma {:induction false} IterateAdd(a: nat, c: nat, s: nat, m: nat, n: nat)
    ensures Iterate(a, c, s, m + n) == Iterate(a, c, Iterate(a, c, s, m), n)
    decreases n
  {
    if n > 0 { IterateAdd(a, c, s, m, n - 1); }
  }

  /** The same run without reduction modulo 2^64. */
  function Unreduced(a: nat, c: nat, s: nat, n: nat): nat {
    if n == 0 then s else Unreduced(a, c, s, n - 1) * a + c
  }

  lemma {:induction false} IterateReduces(a: nat, c: nat, s: nat, n: nat)
    requires s < MODULUS
    ensures Iterate(a, c, s, n) == Unreduced(a, c, s, n) % MODULUS
  {
    if n > 0 {
      IterateReduces(a, c, s, n - 1);
      StepTo(a, c, Unreduced(a, c, s, n - 1), Unreduced(a, c, s, n), Iterate(a, c, s, n - 1));
    }
  }

  lemma Affine(p: int, s: int, c: int, g: int, a: int)
    ensures (p * s + c * g) * a + c == (p * a) * s + c * (g * a + 1)
  {
    assert (p * s) * a == (p * a) * s;
    assert (c * g) * a == c * (g * a);
  }

  /** n transitions are one affine map. */
  lemma {:induction false} ClosedForm(a: nat, c: nat, s: nat, n: nat)
    ensures Unreduced(a, c, s, n) == Power(a, n) * s + c * Geometric(a, n)
  {
    if n > 0 {
      ClosedForm(a, c, s, n - 1);
      Affine(Power(a, n - 1), s, c, Geometric(a, n - 1), a);
    }
  }

  lemma Displacement(u: int, s: int, g: int, first: int, a: int, c: int)
    requires u == s + g * first && s + first == s * a + c
    ensures u * a + c == s + (g * a + 1) * first
  {
    assert (g * first) * a == (g * a) * first;
  }

  /** n transitions move the state by the geometric sum times the first move. */
  lemma {:induction false} TotalDisplacement(a: nat, c: nat, s: nat, n: nat, first: nat)
    requires s + first == s * a + c
    ensures Unreduced(a, c, s, n) == s + Geometric(a, n) * first
  {
    if n > 0 {
      TotalDisplacement(a, c, s, n - 1, first);
      Displacement(Unreduced(a, c, s, n - 1), s, Geometric(a, n - 1), first, a, c);
    }
  }

  lemma SumThenScale(g: int, p: int, r: int, a: int)
    ensures (g * p + r) * a + 1 == g * (p * a) + (r * a + 1)
  {
    assert (g * p) * a == g * (p * a);
  }

  lemma {:induction false} GeometricAdd(a: nat, m: nat, n: nat)
    ensures Geometric(a, m + n) == Geometric(a, m) * Power(a, n) + Geometric(a, n)
    decreases n
  {
    if n > 0 {
      GeometricAdd(a, m, n - 1);
      SumThenScale(Geometric(a, m), Power(a, n - 1), Geometric(a, n - 1), a);
    }
  }

  // ---------- divisibility by powers of two ----------

  /** 2^k divides n. */
  predicate PowDivides(k: nat, n: nat) {
    k == 0 || (n % 2 == 0 && PowDivides(k - 1, n / 2))
  }

  lemma {:induction false} PowDividesResidue(k: nat, n: nat)
    ensures PowDivides(k, n) <==> Low(n, k) == 0
  {
    if k > 0 { PowDividesResidue(k - 1, n / 2); }
  }

  lemma {:induction false} PowDividesOddMultiple(k: nat, n: nat, odd: nat)
    requires odd % 2 == 1
    ensures PowDivides(k, n * odd) <==> PowDivides(k, n)
  {
    if k > 0 {
      var h, o := n / 2, odd / 2;
      if n % 2 == 0 {
        assert n * odd == 2 * (h * odd);
        PowDividesOddMultiple(k - 1, h, odd);
      } else {
        assert n * odd == 2 * (h * odd + o) + 1 by {
          assert (2 * h + 1) * odd == 2 * (h * odd) + odd;
        }
      }
    }
  }

  lemma Pow2At64()
    ensures Pow2(64) == MODULUS && Pow2(32) == 0x1_0000_0000 && Pow2(63) == 0x8000_0000_0000_0000
  {
    Pow2Add(32, 31);
    Pow2Add(32, 32);
    Pow2At32();
  }

  lemma PowDivides64(n: nat)
    ensures PowDivides(64, n) <==> n % MODULUS == 0
  {
    Pow2At64();
    PowDividesResidue(64, n);
    SplitAt(n, 64);
    AddMultiple(Low(n, 64), Shr(n, 64));
  }

  lemma PowDivides63(n: nat)
    ensures PowDivides(63, n) <==> n % 0x8000_0000_0000_0000 == 0
  {
    Pow2At64();
    PowDividesResidue(63, n);
    SplitAt(n, 63);
  }

  lemma OneMod4Times(p: nat, a: nat)
    requires p % 4 == 1 && a % 4 == 1
    ensures (p * a) % 4 == 1
  {
    var j := a / 4;
    TimesSuccessor(p, j, a);
  }

  lemma TimesSuccessor(p: nat, j: nat, a: nat)
    requires a == 4 * j + 1
    ensures p * a == 4 * (p * j) + p
  {
  }

  lemma {:induction false} PowerIsOneMod4(a: nat, n: nat)
    requires a % 4 == 1
    ensures Power(a, n) % 4 == 1
  {
    if n > 0 {
      PowerIsOneMod4(a, n - 1);
      OneMod4Times(Power(a, n - 1), a);
    }
  }

  lemma DoubleProduct(g: nat, p: nat, d: nat) returns (odd: nat)
    requires p % 4 == 1 && d == g * p + g
    ensures odd % 2 == 1 && d == 2 * (g * odd)
  {
    odd := (p + 1) / 2;
    assert g * (2 * odd) == 2 * (g * odd);
    assert g * (p + 1) == g * p + g;
  }

  /** Doubling the length doubles the sum, up to an odd factor. */
  lemma GeometricDouble(a: nat, h: nat) returns (odd: nat)
    requires a % 4 == 1
    ensures odd % 2 == 1 && Geometric(a, h + h) == 2 * (Geometric(a, h) * odd)
  {
    GeometricAdd(a, h, h);
    PowerIsOneMod4(a, h);
    odd := DoubleProduct(Geometric(a, h), Power(a, h), Geometric(a, h + h));
  }

  lemma EvenTimes(x: int, y: int)
    requires y % 2 == 0
    ensures (x * y) % 2 == 0 && (y * x) % 2 == 0
  {
    var h := y / 2;
    assert x * (2 * h) == 2 * (x * h);
  }

  lemma OddSum(a: nat, h: nat)
    requires a % 4 == 1
    ensures Geometric(a, h + h + 1) % 2 == 1
  {
    var odd := GeometricDouble(a, h);
    OddSuccessor(Geometric(a, h + h), Geometric(a, h) * odd, a);
  }

  lemma OddSuccessor(g: nat, x: nat, a: nat)
    requires g == 2 * x
    ensures (g * a + 1) % 2 == 1
  {
    TimesTwice(x, a);
  }

  lemma PowDividesTwice(k: nat, x: nat)
    ensures PowDivides(k + 1, 2 * x) <==> PowDivides(k, x)
  {
  }

  /** The 2-adic valuation of 1 + a + ... + a^(n-1) is that of n. */
  lemma {:induction false} GeometricValuation(a: nat, n: nat, k: nat)
    requires a % 4 == 1
    ensures PowDivides(k, Geometric(a, n)) <==> PowDivides(k, n)
    decreases k
  {
    if k > 0 {
      var h := n / 2;
      var odd := GeometricDouble(a, h);
      if n % 2 == 0 {
        assert n == h + h;
        GeometricValuation(a, h, k - 1);
        PowDividesOddMultiple(k - 1, Geometric(a, h), odd);
        PowDividesTwice(k - 1, Geometric(a, h) * odd);
      } else {
        OddSum(a, h);
      }
    }
  }

  // ---------- the period ----------

  /** For a = 1 mod 4 and odd c the state returns after n transitions exactly when 2^64 divides n. */
  lemma FullPeriod(a: nat, c: nat, s: nat, n: nat)
    requires a % 4 == 1 && c % 2 == 1 && s < MODULUS
    ensures Iterate(a, c, s, n) == s <==> n % MODULUS == 0
  {
    IterateReduces(a, c, s, n);
    var first := FirstMove(a, c, s);
    TotalDisplacement(a, c, s, n, first);
    ReturnsWhenDivisible(a, n, Geometric(a, n), first);
    Returns(Unreduced(a, c, s, n), s, Geometric(a, n) * first);
  }

  lemma FirstMove(a: nat, c: nat, s: nat) returns (first: nat)
    requires a % 4 == 1 && c % 2 == 1
    ensures first % 2 == 1 && s + first == s * a + c
  {
    EvenTimes(s, a - 1);
    first := s * (a - 1) + c;
    assert s * a == s * (a - 1) + s;
  }

  lemma Returns(u: nat, s: nat, d: nat)
    requires s < MODULUS && u == s + d
    ensures u % MODULUS == s <==> d % MODULUS == 0
  {
  }

  lemma ReturnsWhenDivisible(a: nat, n: nat, g: nat, odd: nat)
    requires a % 4 == 1 && odd % 2 == 1 && g == Geometric(a, n)
    ensures (g * odd) % MODULUS == 0 <==> n % MODULUS == 0
  {
    PowDivides64(g * odd);
    PowDividesOddMultiple(64, g, odd);
    GeometricValuation(a, n, 64);
    PowDivides64(n);
  }

  /** Positions m <= n of one run hold the same state exactly when 2^64 divides their distance. */
  lemma RunCollision(a: nat, c: nat, s: nat, m: nat, n: nat)
    requires a % 4 == 1 && c % 2 == 1 && s < MODULUS && m <= n
    ensures Iterate(a, c, s, m) == Iterate(a, c, s, n) <==> (n - m) % MODULUS == 0
  {
    IterateAdd(a, c, s, m, n - m);
    IterateBound(a, c, s, m);
    FullPeriod(a, c, Iterate(a, c, s, m), n - m);
  }

  /** The root generator with the constants of the repository visits 2^64 states before it repeats. */
  lemma RootPeriod(s: nat, n: nat)
    requires s < MODULUS
    ensures Iterate(RNG_A, RNG_INC, s, n) == s <==> n % MODULUS == 0
  {
    FullPeriod(RNG_A, RNG_INC, s, n);
  }

  // ---------- jumping ahead ----------

  /** One step of an LCG whose constants are the k-step power and sum of (a, c) is k steps of (a, c). */
  lemma JumpAhead(a: nat, c: nat, k: nat, aJump: nat, cJump: nat, s: nat)
    requires s < MODULUS
    requires aJump == Power(a, k) % MODULUS
    requires cJump == (c * Geometric(a, k)) % MODULUS
    ensures Step(aJump, cJump, s) == Iterate(a, c, s, k)
  {
    IterateReduces(a, c, s, k);
    ClosedForm(a, c, s, k);
    ReduceAffine(Power(a, k), c * Geometric(a, k), aJump, cJump, s);
  }

  lemma ReduceAffine(p: nat, g: nat, a: nat, c: nat, s: nat)
    requires a == p % MODULUS && c == g % MODULUS
    ensures (s * a + c) % MODULUS == (p * s + g) % MODULUS
  {
    var qp, qg := p / MODULUS, g / MODULUS;
    assert p * s == a * s + MODULUS * (qp * s) by {
      assert (MODULUS * qp + a) * s == MODULUS * (qp * s) + a * s;
    }
    assert p * s + g == s * a + c + MODULUS * (qp * s + qg);
    AddMultiple(s * a + c, qp * s + qg);
  }

  /** n jumps of k steps are n * k steps. */
  lemma {:induction false} JumpRun(a: nat, c: nat, k: nat, aJump: nat, cJump: nat, s: nat, n: nat)
    requires s < MODULUS
    requires aJump == Power(a, k) % MODULUS
    requires cJump == (c * Geometric(a, k)) % MODULUS
    ensures Iterate(aJump, cJump, s, n) == Iterate(a, c, s, k * n)
  {
    if n > 0 {
      JumpRun(a, c, k, aJump, cJump, s, n - 1);
      var t := Iterate(a, c, s, k * (n - 1));
      IterateBound(a, c, s, k * (n - 1));
      JumpAhead(a, c, k, aJump, cJump, t);
      IterateAdd(a, c, s, k * (n - 1), k);
      assert k * (n - 1) + k == k * n;
    }
  }
}
