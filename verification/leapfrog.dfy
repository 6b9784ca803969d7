/** Leapfrog lanes: K copies of the root generator, lane k starting k states in and jumping K states
    at a time, read in turn. Nine lanes in misc/estpi, six in misc/init_state.h. */
module Leapfrog {
  import opened Lcg

  /** One bank of lanes: the jump constants and the lane seeds. */
  datatype Bank = Bank(a: nat, inc: nat, seeds: seq<nat>)

  const NINE: Bank := Bank(
    0x5b5fee90a1001dcd, 0x219b40fff5054705,
    [0x185706b82c2e03f8, 0x2b47fed88766bb05, 0x8b33296d19bf5b4e,
     0xf7079824c154bf23, 0xebbf9e97aa16f694, 0x8303569fbe80c471,
     0xbeb6d0b73fdb974a, 0xed81149f2fb94e6f, 0x0730f84eec16daf0])

  const SIX: Bank := Bank(
    0xf08d02b0115f7a79, 0x9fd6c0c57f2f8712,
    [0x185706b82c2e03f8, 0x2b47fed88766bb05, 0x8b33296d19bf5b4e,
     0xf7079824c154bf23, 0xebbf9e97aa16f694, 0x8303569fbe80c471])

  /** RNG_INIT_STATE of misc/estpi/init_state.h, unused there; the one of misc/init_state.h, from which the serial
      reference starts, is SERIAL_SEED. */
  const GOLDEN_SEED_ESTPI: nat := 0x4643d02bbf7ba16d

  /** INIT_STATE_0 of both headers. */
  const SERIAL_SEED: nat := 0x185706b82c2e03f8

  /** The serial run that the lanes have to reproduce. */
  function Serial(t: nat): (s: nat)
    ensures s < MODULUS
  {
    IterateBound(RNG_A, RNG_INC, SERIAL_SEED, t);
    Iterate(RNG_A, RNG_INC, SERIAL_SEED, t)
  }

  /** It is the run of the constants of misc/estpi/init_state.h. */
  lemma SerialIsUnique(g: nat -> nat, t: nat)
    requires g(0) == 0x185706b82c2e03f8
    requires forall k: nat :: g(k + 1) == (g(k) * 0x5851f42d4c957f2d + 0x6d) % 0x1_0000_0000_0000_0000
    ensures Serial(t) == g(t)
  {
    RunIsUnique(RNG_A, RNG_INC, SERIAL_SEED, g, t);
  }

  /** The j-th state that lane k of the bank sends. */
  function Lane(bank: Bank, k: nat, j: nat): nat
    requires k < |bank.seeds|
  {
    Iterate(bank.a, bank.inc, bank.seeds[k], j)
  }

  /** The constants of a bank are the ones leapfrogging needs. */
  ghost predicate Consistent(bank: Bank) {
    && |bank.seeds| > 0
    && bank.a == Power(RNG_A, |bank.seeds|) % MODULUS
    && bank.inc == (RNG_INC * Geometric(RNG_A, |bank.seeds|)) % MODULUS
    && forall k: nat :: k < |bank.seeds| ==> bank.seeds[k] == Serial(k)
  }

  lemma JumpConstants()
    ensures NINE.a == Power(RNG_A, 9) % MODULUS
    ensures NINE.inc == (RNG_INC * Geometric(RNG_A, 9)) % MODULUS
    ensures SIX.a == Power(RNG_A, 6) % MODULUS
    ensures SIX.inc == (RNG_INC * Geometric(RNG_A, 6)) % MODULUS
  {
    var a := 0x5851f42d4c957f2d;
    var p3, g3 := a * a * a, (a + 1) * a + 1;
    assert Power(RNG_A, 1) == a && Power(RNG_A, 2) == a * a && Power(RNG_A, 3) == p3;
    assert Power(RNG_A, 4) == p3 * a && Power(RNG_A, 5) == p3 * a * a && Power(RNG_A, 6) == p3 * p3;
    assert Power(RNG_A, 7) == p3 * p3 * a && Power(RNG_A, 8) == p3 * p3 * a * a;
    assert Geometric(RNG_A, 1) == 1 && Geometric(RNG_A, 2) == a + 1 && Geometric(RNG_A, 3) == g3;
    assert Geometric(RNG_A, 4) == g3 * a + 1 && Geometric(RNG_A, 5) == (g3 * a + 1) * a + 1;
    assert Geometric(RNG_A, 6) == g3 * p3 + g3;
    assert Geometric(RNG_A, 7) == (g3 * p3 + g3) * a + 1;
    assert Geometric(RNG_A, 8) == ((g3 * p3 + g3) * a + 1) * a + 1;
  }

  lemma LaneSeeds()
    ensures forall k: nat :: k < 9 ==> NINE.seeds[k] == Serial(k)
  {
    assert Serial(0) == NINE.seeds[0];
    assert Serial(1) == NINE.seeds[1];
    assert Serial(2) == NINE.seeds[2];
    assert Serial(3) == NINE.seeds[3];
    assert Serial(4) == NINE.seeds[4];
    assert Serial(5) == NINE.seeds[5];
    assert Serial(6) == NINE.seeds[6];
    assert Serial(7) == NINE.seeds[7];
    assert Serial(8) == NINE.seeds[8];
  }

  lemma BanksConsistent()
    ensures Consistent(NINE) && Consistent(SIX)
  {
    JumpConstants();
    LaneSeeds();
    assert forall k: nat :: k < 6 ==> SIX.seeds[k] == NINE.seeds[k];
  }

  /** Lane k sends every K-th state of the serial run, beginning with the k-th. */
  lemma LaneIsSerial(bank: Bank, k: nat, j: nat)
    requires Consistent(bank) && k < |bank.seeds|
    ensures Lane(bank, k, j) == Serial(k + |bank.seeds| * j)
  {
    var n := |bank.seeds|;
    JumpRun(RNG_A, RNG_INC, n, bank.a, bank.inc, Serial(k), j);
    IterateAdd(RNG_A, RNG_INC, SERIAL_SEED, k, n * j);
  }

  /** Reading the lanes in turn gives the serial run, at every position. */
  lemma RoundRobinIsSerial(bank: Bank, t: nat)
    requires Consistent(bank)
    ensures t % |bank.seeds| < |bank.seeds|
    ensures Lane(bank, t % |bank.seeds|, t / |bank.seeds|) == Serial(t)
  {
    hide Lane, Serial;
    LaneIsSerial(bank, t % |bank.seeds|, t / |bank.seeds|);
  }

  /** A lane of a consistent bank returns after n jumps exactly when 2^64 divides K * n. */
  lemma LanePeriod(bank: Bank, k: nat, n: nat)
    requires Consistent(bank) && k < |bank.seeds|
    ensures Lane(bank, k, n) == Lane(bank, k, 0) <==> (|bank.seeds| * n) % MODULUS == 0
  {
    LaneIsSerial(bank, k, n);
    LaneIsSerial(bank, k, 0);
    RunCollision(RNG_A, RNG_INC, SERIAL_SEED, k, k + |bank.seeds| * n);
  }

  /** The nine-lane jump has the full period; the six-lane jump only half of it. */
  lemma LanePeriods(k: nat, n: nat)
    ensures k < 9 ==> (Lane(NINE, k, n) == Lane(NINE, k, 0) <==> n % MODULUS == 0)
    ensures k < 6 ==> (Lane(SIX, k, n) == Lane(SIX, k, 0) <==> n % 0x8000_0000_0000_0000 == 0)
  {
    hide Lane, Consistent;
    BanksConsistent();
    NineTimes(n);
    SixTimes(n);
    if k < 9 { LanePeriod(NINE, k, n); }
    if k < 6 { LanePeriod(SIX, k, n); }
  }

  lemma NineTimes(n: nat)
    ensures (9 * n) % MODULUS == 0 <==> n % MODULUS == 0
  {
    hide PowDivides;
    PowDivides64(n);
    PowDivides64(n * 9);
    PowDividesOddMultiple(64, n, 9);
  }

  lemma SixTimes(n: nat)
    ensures (6 * n) % MODULUS == 0 <==> n % 0x8000_0000_0000_0000 == 0
  {
    hide PowDivides;
    PowDivides64(2 * (n * 3));
    PowDividesTwice(63, n * 3);
    PowDividesOddMultiple(63, n, 3);
    PowDivides63(n);
  }

  /** A serial run from the RNG_INIT_STATE that misc/estpi defines, which none of its code uses, would never hold
      the state that the nine-lane merge sends at the same position, because INIT_STATE_0 differs from it. */
  lemma {:induction false} EstpiGoldenNeverMeetsMerge(t: nat)
    ensures Iterate(RNG_A, RNG_INC, GOLDEN_SEED_ESTPI, t) != Serial(t)
  {
    SeedsStayApart(RNG_A, RNG_INC, GOLDEN_SEED_ESTPI, SERIAL_SEED, t);
  }

  /** A transition with an odd multiplier is injective, so two runs that start apart stay apart. */
  lemma {:induction false} SeedsStayApart(a: nat, c: nat, r: nat, s: nat, t: nat)
    requires a % 2 == 1 && r < MODULUS && s < MODULUS && r != s
    ensures Iterate(a, c, r, t) != Iterate(a, c, s, t)
  {
    if t > 0 {
      SeedsStayApart(a, c, r, s, t - 1);
      IterateBound(a, c, r, t - 1);
      IterateBound(a, c, s, t - 1);
      StepInjective(a, c, Iterate(a, c, r, t - 1), Iterate(a, c, s, t - 1));
    }
  }

  lemma StepInjective(a: nat, c: nat, x: nat, y: nat)
    requires a % 2 == 1 && x < MODULUS && y < MODULUS && x != y
    ensures Step(a, c, x) != Step(a, c, y)
  {
    if x < y { StepInjectiveOrdered(a, c, x, y); } else { StepInjectiveOrdered(a, c, y, x); }
  }

  lemma StepInjectiveOrdered(a: nat, c: nat, x: nat, y: nat)
    requires a % 2 == 1 && x < y < MODULUS
    ensures Step(a, c, x) != Step(a, c, y)
  {
    var d := y - x;
    PowDividesOddMultiple(64, d, a);
    PowDivides64(d);
    PowDivides64(d * a);
    ShiftedProduct(a, c, x, d);
    Apart(x * a + c, d * a, y * a + c);
  }

  lemma ShiftedProduct(a: nat, c: nat, x: nat, d: nat)
    ensures (x + d) * a + c == (x * a + c) + d * a
  {
  }

  lemma Apart(u: nat, d: nat, v: nat)
    requires v == u + d && d % MODULUS != 0
    ensures u % MODULUS != v % MODULUS
  {
  }
}
