/** The two ends of the estimator: the serial reference generator (misc/mpcg.h) and the kernel that adds
    up the counters leaving the network (misc/estpi/mem_write.cpp). */
module Estimator {
  import opened Fifos
  import opened Lcg
  import opened Permutation
  import opened Network
  import opened NetworkCounts
  import opened NetworkData
  import opened NetworkLaws

  /** pcg_golden with its static state. */
  class PcgGolden {
    var state: nat
    ghost const seed: nat
    ghost var drawn: nat

    ghost predicate Valid()
      reads this
    {
      seed < MODULUS && state == Iterate(RNG_A, RNG_INC, seed, drawn)
    }

    constructor (seed: nat)
      requires seed < MODULUS
      ensures Valid() && drawn == 0 && this.seed == seed
    {
      state := seed;
      this.seed := seed;
      drawn := 0;
    }

    /** Returns the permuted old state and moves on. */
    method Next() returns (r: nat)
      requires Valid()
      modifies this
      ensures Valid() && drawn == old(drawn) + 1
      ensures r == OutputFunction(Iterate(RNG_A, RNG_INC, seed, old(drawn))) && r < WORDS
    {
      hide OutputFunction, Step;
      var oldstate := state;
      IterateBound(RNG_A, RNG_INC, seed, drawn);
      OutputBound(oldstate);
      state := Step(RNG_A, RNG_INC, oldstate);
      drawn := drawn + 1;
      r := OutputFunction(oldstate);
    }
  }

  /** Conversion of a 32-bit word to int. */
  function ToInt(w: nat): int {
    if w < 0x8000_0000 then w else w - WORDS
  }

  lemma SumBound(w: seq<nat>, size: nat)
    requires |w| <= size && forall i: nat :: i < |w| ==> w[i] < WORDS
    ensures Sum(w) <= size * WORDS
    decreases |w|
  {
    if w != [] { SumBound(w[..|w| - 1], size - 1); }
  }

  /** mem_write: the sum of the first size counters, split into two ints. */
  method MemWrite(stream: seq<nat>, mem: array<int>, size: int)
    requires mem.Length >= 2 && size <= |stream| && size < 0x8000_0000
    requires forall i: nat :: i < |stream| ==> stream[i] < WORDS
    modifies mem
    ensures 0x1_0000_0000 * (mem[0] % 0x1_0000_0000) + mem[1] % 0x1_0000_0000
         == Sum(stream[..if size < 0 then 0 else size])
    ensures forall k: nat :: 2 <= k < mem.Length ==> mem[k] == old(mem[k])
    ensures -0x8000_0000 <= mem[0] < 0x8000_0000 && -0x8000_0000 <= mem[1] < 0x8000_0000
  {
    hide Sum, ToInt;
    var counter, i := 0, 0;
    ghost var n := if size < 0 then 0 else size;
    assert Sum(stream[..0]) == 0 by { EmptySum(); }
    while i < size
      invariant 0 <= i <= n && counter == Sum(stream[..i])
      invariant mem[..] == old(mem[..])
    {
      SumTake(stream, i);
      SumBound(stream[..i + 1], n);
      counter := (counter + stream[i]) % MODULUS;
      i := i + 1;
    }
    SumBound(stream[..n], n);
    SplitCounter(counter);
    mem[0] := ToInt(counter / WORDS);
    mem[1] := ToInt(counter % WORDS);
  }

  lemma EmptySum()
    ensures Sum([]) == 0
  {
  }

  /** A 64-bit counter can be read back from its two halves, stored as ints. */
  lemma SplitCounter(counter: nat)
    requires counter < MODULUS
    ensures WORDS * (ToInt(counter / WORDS) % WORDS) + ToInt(counter % WORDS) % WORDS == counter
    ensures -0x8000_0000 <= ToInt(counter / WORDS) < 0x8000_0000
    ensures -0x8000_0000 <= ToInt(counter % WORDS) < 0x8000_0000
  {
    WordOfInt(counter / WORDS);
    WordOfInt(counter % WORDS);
  }

  lemma WordOfInt(w: nat)
    requires w < WORDS
    ensures ToInt(w) % WORDS == w && -0x8000_0000 <= ToInt(w) < 0x8000_0000
  {
  }

  // ---------- what the outputs say about the points ----------

  lemma SmallSum(w: seq<nat>, i: nat)
    requires SmallCounts(w, i) && |w| <= 2
    ensures Sum(w) <= 2 * i
  {
    if |w| > 0 {
      var v := w[..|w| - 1];
      assert Sum(w) == Sum(v) + w[|w| - 1];
      if |v| > 0 { assert Sum(v) == Sum(v[..0]) + v[0] && v[0] == w[0]; }
    }
  }

  lemma WaitingCounts(f: Fifo<nat>, i: nat)
    requires f.Within(COUNT_DEPTH) && SmallCounts(f.written, i)
    ensures Sum(f.written[f.taken..]) <= 2 * i
  {
    var w := f.written[f.taken..];
    forall t: nat | t < |w| ensures w[t] <= i { assert w[t] == f.written[f.taken + t]; }
    SmallSum(w, i);
  }

  /** In front of FIFO i wait at most two counters of at most k in each FIFO k < i, and one of at most k + 1 in hand. */
  lemma {:induction false} FewUnderWay(seeds: seq<nat>, net: Net, i: nat)
    requires Inv(net, |seeds|) && CountData(seeds, net) && i <= |seeds|
    ensures forall k: nat :: k < i ==> net.o[k].taken <= |net.o[k].written|
    ensures 2 * UnderWay(net, i) <= 3 * i * i - i
    decreases i
  {
    hide Sum, InHand;
    if i > 0 {
      var k := i - 1;
      FewUnderWay(seeds, net, k);
      assert CountAt(net, |seeds|, k) && AppAt(net, |seeds|, k);
      WaitingCounts(net.o[k], k);
      NextSquare(k);
    }
  }

  lemma NextSquare(k: nat)
    ensures 3 * (k + 1) * (k + 1) - (k + 1) == 3 * k * k - k + 6 * k + 2
  {
  }

  /** The sum over everything that has left the network tells the number of points found inside, on any schedule.
      Points are counted as pairs of an application and one of its tried pairs of words. The sum never exceeds their
      number, and is short by no more than the tries at which the first application was not fed, the misses, and what
      n applications can hold back. */
  lemma OutputIsAccurate(seeds: seq<nat>, states: seq<Net>, acts: seq<Action>, j: nat,
                         w: seq<seq<nat>>, tries: seq<nat>)
    requires 0 < |seeds| < WORDS && IsRun(seeds, states, acts) && j < |states|
    requires forall i: nat :: i < |seeds| ==> seeds[i] < 0x1_0000_0000
    requires |w| == |tries| == |seeds| && forall i: nat :: i < |seeds| ==> w[i] == states[j].rng[i].written
    requires forall i: nat :: i < |seeds| ==>
      tries[i] == |states[j].o[i + 1].written| + if states[j].app[i].pc.WriteCount? then 1 else 0
    ensures var n := |seeds|;
            var points := set i: nat, k: nat | i < |w| && k < tries[i] && 2 * k + 1 < |w[i]|
                            && w[i][2 * k] * w[i][2 * k] + w[i][2 * k + 1] * w[i][2 * k + 1] < 0x1_0000_0000_0000_0000
                            :: (i, k);
            var unfed := set k: nat | k < j && acts[k] == App(0) && states[k].app[0].pc.TryCount?
                                      && states[k].o[0].taken >= |states[k].o[0].written|;
            var short := |points| - Sum(states[j].output.written);
            0 <= short && 2 * short <= 2 * |unfed| + 6 * (n - 1) + 3 * n * n + 5 * n
  {
    hide Sum, Found, Scored, UnderWay, ChainData, RootData;
    var n, net := |seeds|, states[j];
    RunKeepsFlow(seeds, states, acts, j);
    RunKeepsCounts(seeds, states, acts, j);
    CountsAreConserved(seeds, states, acts, j);
    TotalIsAccurate(seeds, states, acts, j);
    FewUnderWay(seeds, net, n);
    WaitingCounts(net.o[n], n);
    FoundIsSize(seeds, net, w, tries);
    MissesCounted(seeds, states, acts, j, 0);
  }
}
