# ThundeRiNG: a verified model

ThundeRiNG shares one 64-bit linear congruential state among many random number streams. Leapfrogged
lanes produce the state, a chain of instances offsets and permutes it and decorrelates it with a private
xorshift, and a chain of applications counts points in a quarter circle. The repository also holds two
quasirandom baselines (Sobol and Niederreiter) and a streaming triangle sampler that uses the same
generator. This project models the integer logic of these parts in Dafny and proves what they are for.

## Layout

| file | content |
|---|---|
| `bits.dfy`, `counting.dfy` | machine words as numbers (xor, shifts, truncation); pigeonhole and counting |
| `lcg.dfy`, `leapfrog.dfy` | root generator and its period; jump constants, lanes, round-robin merge |
| `permutation.dfy`, `xorshift.dfy` | output permutation, equidistribution, stream offsets; decorrelator |
| `fifo.dfy`, `network.dfy` | the dataflow network as a transition system, one FIFO operation per step |
| `network_counts.dfy` | how far processes run ahead, the three-miss bound, deadlock freedom |
| `network_data.dfy` | the words sent are schedule-independent; the counters are conserved |
| `network_laws.dfy` | when a process blocks, what a try does to its counter, which points are found: in terms of the words in the FIFOs |
| `network_tight.dfy` | a schedule that attains the three misses |
| `network_progress.dfy` | the work is bounded by the outputs, on every schedule |
| `estimator.dfy` | the serial reference generator; the kernel that sums the counters; how exact its sum is |
| `directions.dfy`, `sobol.dfy` | digital sequences and Gray code; Sobol tables and points |
| `gf2.dfy`, `irreducibles.dfy` | polynomials over GF(2); the search for irreducible polynomials |
| `recurrences.dfy`, `niederreiter.dfy` | linear recurrences; the Niederreiter table and generators |
| `words.dfy`, `nets.dfy` | words joined into one; the net theorem: several dimensions are equidistributed together exactly if their polynomials are coprime |
| `digital_net.dfy`, `sobol_net.dfy` | the Niederreiter and the Sobol dimensions as instances of that theorem |
| `triangle.dfy` | the streaming triangle sampler |

## How the model relates to the code

- Words are natural numbers below a power of two; every truncation and wrap-around of the C++ code is
  written out. `Bits.Xor`, `Shr`, `Shl`, `Low` are the C operators on such words.
- The network is a set of concurrent free-running loops, so it is a state machine over values: a process
  step is one FIFO operation, an arbitrary scheduler chooses the process, and a FIFO carries its whole
  history (`written`, `taken`). `Application.scored` and `Merge.round` are history only. The chain length
  is the number of decorrelator seeds (64 in the repository); all network theorems hold for any length.
- Code that fills tables and arrays in place (Sobol, Niederreiter, `mem_write`) is imperative: methods over
  arrays with loop invariants, proved against specification functions about which the theorems are stated.
  The pointers into the 1024-entry scratch arrays are offsets, so every access is shown to be in bounds.
- Operations are specified by functions, and what such a function computes is also stated without it: by numbers,
  by single bits, by sets of positions, or as the only sequence with given properties (`Permutation.StreamState`,
  `OutputOfState`, `Xorshift.JumpBit`, `Leapfrog.SerialIsUnique`, `NetworkLaws.TryCountsPoint`,
  `Sobol.InitialDirection`, `Niederreiter.ColumnIsUnique`, `TriangleSampler.SelectedMeans`, `ClosesMeans`).
- Nested loops of one C++ function are methods of their own where that keeps a proof short.

## Where the code and its purpose differ

- `sobol_primitives` gives 22 of its 10200 rows an even initial value (2014), although a Sobol table has odd ones.
  In such a dimension the points are not stratified for more bits than odd values precede it: `Sobol.SobolStratified` gives the exact condition for every row
  and every number of bits, and `Sobol.Dimension446` (line 495) a row for which 11 bits fail.
- Other rows of `sobol_primitives` hold 2014 as polynomial coefficients. The rows for dimension indices 478 and 479
  encode one and the same polynomial, and that for 1293 a reducible one. Such dimensions are not equidistributed
  together (`SobolNet.Dimensions478And479`, `SobolNet.Dimensions2And1293`); `SobolNet.SobolNetExactly` gives the exact
  condition for any choice of dimensions.
- `misc/estpi/init_state.h` defines an RNG_INIT_STATE other than INIT_STATE_0. No code in `misc/estpi` uses it: the
  serial reference of `misc/mpcg.h` takes the constant of `misc/init_state.h`, which is INIT_STATE_0, and the merge
  equals that run. A run from the unused constant would differ from it at every position
  (`Leapfrog.EstpiGoldenNeverMeetsMerge`).
- The six-lane jump of `misc/init_state.h` has period 2^63, half of the nine-lane jump's; the merged
  sequence is the serial run in both cases.
- `first_edge_sampling` sends index 0 when the draw is 0 and also when it names no edge slot, and the only
  sampler has index 0. Its first edge is therefore not replaced with probability 1/n but kept with
  probability about 2/n. `TriangleSampler.ReplacementIsSlotZero` gives the exact condition,
  `ReplacedWithoutSlotZero` an input, `EdgeIsRarelyKept` the exact count. Because the draw adds one to the random
  word, the largest word draws slot n for the n-th edge; with it the very first edge is not installed
  (`FirstEdgeCanBeMissed`).
- An application that misses its counter sends 0 and drops its point. The loss is bounded by three points
  per application after the first, on every schedule (`NetworkData.TotalIsAccurate`); three misses do happen
  (`NetworkTight.ThreeMissesHappen`).

## Model

| member | source | states |
|---|---|---|
| NetworkCounts.DeadlockFree | misc/estpi/ssrng.cpp:278-345 | in every state of every run, for every chain length: while the output has room, a process other than the zero-counter feed can move; when it has none, its reader can |
| NetworkCounts.AtMostThreeMisses | misc/estpi/ssrng.cpp:96-122 | every application but the first has at most three steps in a whole run, on any schedule, at which it tries its counter FIFO and finds it empty |
| NetworkCounts.MissesCounted | misc/estpi/ssrng.cpp:96-122 | tries less counters received are the number of those steps |
| NetworkCounts.TriesCounted | misc/estpi/ssrng.cpp:96-122 | counters sent, with the one in hand, are the number of steps at which the counter FIFO was tried |
| NetworkCounts.TriesFollowPredecessor | misc/estpi/ssrng.cpp:190-214 | the reason: in every state the tries of an application, one about to be made included, exceed its predecessor's sent counters by at most three |
| NetworkTight.ThreeMissesHappen | misc/estpi/ssrng.cpp:90-122 | the bound is attained: for every chain length and every application there is a run in which it misses three times |
| NetworkCounts.StepKeeps | misc/estpi/ssrng.cpp:278-345 | every step of every process keeps FIFO bounds, the counting relations of instances and applications, and the miss bound |
| NetworkLaws.BlockedExactly | misc/estpi/ssrng.cpp:236-299 | in every state of every run the lanes, the merge, the pads and the two ends are blocked exactly if the FIFO written next holds its full depth (4, 16, 2, 2 and 4 words) or the one read next none |
| NetworkLaws.ChainBlockedExactly | misc/estpi/ssrng.cpp:190-299 | so are the instances and applications, with depths 2, 4 and 2; the non-blocking read never blocks |
| NetworkCounts.WaitingIsNotAhead | misc/estpi/ssrng.cpp:90-122 | behind a row of applications blocked on full FIFOs an application is at most one counter ahead |
| NetworkProgress.OutputsKeepPace | misc/estpi/ssrng.cpp:278-345 | the steps of all processes but the two ends are bounded by a linear function of the counters sent out, on every schedule |
| NetworkProgress.SilenceIsBounded | misc/estpi/ssrng.cpp:278-345 | between two moments with equally many outputs at most 60 n^2 + 126 n + 202 such steps fit, on every schedule and however long the run is: a bound that depends on the chain length n alone |
| NetworkData.RootIsSerial | misc/estpi/ssrng.cpp:236-271 | on every schedule the merged root states are the serial generator's run, position by position |
| NetworkData.RandomWordsAreFixed | misc/estpi/ssrng.cpp:190-214 | on every schedule word t of instance i is the permutation of (root(t) + 2 (54 + i) A + 1) mod 2^64, root being the serial run, xor the decorrelator state after t + 1 steps |
| NetworkData.CountsAreConserved | misc/estpi/ssrng.cpp:90-122 | what left the network plus what is in FIFOs and in hand equals the points the applications scored, on every schedule |
| NetworkLaws.TryCountsPoint | misc/estpi/ssrng.cpp:96-119 | a try turns the waiting counter c into (c + 1) mod 2^32 exactly if the squares of its two words add up to less than 2^64, and leaves it otherwise; without a counter it puts 0 in hand |
| NetworkLaws.TryIsSent | misc/estpi/ssrng.cpp:119-122 | what a try puts in hand is the counter sent in that place, on every schedule |
| NetworkLaws.EndsOfTheChain | misc/estpi/ssrng.cpp:338-345 | the first application is fed zeros, and the outputs are the counters of the last one in order |
| NetworkLaws.PointInsideMeans | misc/estpi/ssrng.cpp:100-114 | a point counts as inside exactly if its words x, y satisfy x^2 + y^2 < 2^64 |
| NetworkLaws.ScoresAreAccurate | misc/estpi/ssrng.cpp:104-119 | an application after the first scores all tried pairs of words sent to it that lie in the quarter circle, but at most three |
| NetworkLaws.FoundIsSize | misc/estpi/ssrng.cpp:104-119 | the points found by the chain are the pairs of an application and a tried pair of its words in the quarter circle |
| NetworkData.TotalIsAccurate | misc/estpi/ssrng.cpp:338-342 | the total scored by n applications is below the true number of points inside by at most 3(n-1) plus the unfed tries of the first |
| Network.InsideIsQuarterCircle | misc/estpi/ssrng.cpp:100-114 | the test of bits 65..64 of the sum of squares is exactly membership in the quarter circle |
| Estimator.OutputIsAccurate | misc/estpi/ssrng.cpp:278-345 | the sum of everything sent out never exceeds the number of tried pairs of words in the quarter circle, and is short by at most the unfed tries of the first application, 3(n-1) misses and the (3n^2 + 5n)/2 that n applications and their FIFOs can hold back |
| Estimator.MemWrite | misc/estpi/mem_write.cpp:40-54 | the two ints written are in range and congruent modulo 2^32 to the high and the low word of the sum of the first size counters |
| Estimator.PcgGolden.Next | misc/mpcg.h:45-54 | the n-th call returns the permuted n-th state of the run from the seed |
| Lcg.FullPeriod | misc/mpcg.h:20-24 | with a = 1 mod 4 and odd increment the state returns after n steps exactly when 2^64 divides n |
| Lcg.RootPeriod | misc/estpi/init_state.h:8-9 | the repository's constants give exact period 2^64 from every state |
| Lcg.RunCollision | misc/mpcg.h:20-24 | two positions of a run hold the same state exactly when 2^64 divides their distance |
| Lcg.GeometricValuation | misc/mpcg.h:20-24 | the sum 1 + a + .. + a^(n-1) is divisible by the same powers of two as n |
| Lcg.JumpRun | misc/estpi/init_state.h:11-12 | n steps with the k-step power and sum as constants are k n ordinary steps |
| Lcg.RunIsUnique | misc/mpcg.h:20-24 | the run is the one sequence with the seed first and (s a + c) mod 2^64 after s |
| Leapfrog.SerialIsUnique | misc/estpi/init_state.h:8-14 | so is the serial run, with the numbers of the header |
| Leapfrog.JumpConstants | misc/init_state.h:11-12 | the seeked constants are A^K and C(1 + A + .. + A^(K-1)) modulo 2^64, for K = 9 and K = 6 |
| Leapfrog.LaneSeeds | misc/estpi/init_state.h:14-22 | INIT_STATE_k is k steps after INIT_STATE_0 |
| Leapfrog.LaneIsSerial | misc/estpi/ssrng.h:2-127 | lane k sends every K-th state of the serial run from the k-th on |
| Leapfrog.RoundRobinIsSerial | misc/estpi/ssrng.cpp:252-270 | reading the lanes in turn gives the serial run at every position, for both banks |
| Leapfrog.LanePeriod | misc/estpi/ssrng.h:2-127 | a K-step lane returns after n jumps exactly when 2^64 divides K n |
| Leapfrog.LanePeriods | misc/init_state.h:11-19 | a nine-lane stage has exact period 2^64, a six-lane stage exactly 2^63 |
| Leapfrog.EstpiGoldenNeverMeetsMerge | misc/estpi/init_state.h:7-14 | a serial run from the unused RNG_INIT_STATE of this header would never equal the merged state at the same position |
| Permutation.OutputBit | misc/mpcg.h:36-41 | the output is the xorshifted word rotated right by the top five state bits |
| Permutation.XorshiftedBit | misc/mpcg.h:38 | each bit of the xorshifted word is the xor of state bits 18 apart |
| Permutation.OutputOfState | misc/mpcg.h:36-41 | bit j of the output is the xor of state bits k + 45 and k + 27, k being j plus the state divided by 2^59, modulo 32 |
| Permutation.CodeInjective | misc/mpcg.h:36-41 | output, five top and 27 low bits determine the state |
| Permutation.OutputAndTagNameOneState | misc/mpcg.h:36-41 | and conversely: each output with each such tag belongs to exactly one state |
| Permutation.Equidistribution | misc/mpcg.h:36-54 | over one period every 32-bit word is output exactly 2^32 times |
| Permutation.StreamEquidistribution | misc/estpi/ssrng.cpp:203-205 | so it is for every stream, seen through its offset |
| Permutation.StreamState | misc/estpi/ssrng.cpp:39-42 | the state of stream q is (s + 2 q A + 1) mod 2^64 for root state s |
| Permutation.OffsetsCollide | misc/estpi/ssrng.cpp:39-42 | two stream numbers get the same offset exactly when they agree modulo 2^63 |
| Permutation.StreamsStayApart | misc/estpi/ssrng.cpp:39-42 | two streams hold equal states at one position exactly when their numbers agree modulo 2^63 |
| Permutation.StreamRun | misc/estpi/ssrng.cpp:203-205 | the offset run is itself an LCG run with the same multiplier and its own increment |
| Permutation.StreamPeriod | misc/estpi/ssrng.cpp:203-205 | every stream has exact period 2^64 |
| Xorshift.JumpBit | misc/estpi/ssrng.cpp:61-68 | each bit of the step as the xor of at most eight bits of the word, written out |
| Xorshift.RunIsUnique | misc/estpi/ssrng.cpp:197-208 | the run takes one such step for each word |
| Xorshift.JumpLinear | misc/estpi/ssrng.cpp:61-68 | the step is linear over xor |
| Xorshift.JumpInjective | misc/estpi/ssrng.cpp:61-68 | the step is one to one on 32-bit words |
| Xorshift.JumpSurjective | misc/estpi/ssrng.cpp:61-68 | and onto |
| Xorshift.RunNonzero | misc/estpi/ssrng.cpp:197-208 | a nonzero seed never reaches zero |
| Xorshift.RunsStayApart | misc/estpi/ssrng.cpp:197-208 | two decorrelators are equal at a step exactly when their seeds are |
| Xorshift.RunLinear | misc/estpi/ssrng.cpp:197-208 | the xor of two lanes evolves as the run of the xor of their seeds |
| Xorshift.SeedReturns | misc/estpi/ssrng.cpp:197-208 | the run is a pure cycle: the seed comes back within 2^32 - 1 steps |
| Sobol.InitSobolDirectionVectors | gpu/4_Finance/SobolQRNG/sobol_gold.cpp:95-145 | fills every dimension's block with its direction numbers, the first of which are m[i] 2^(31-i) mod 2^32, and changes nothing beyond |
| Sobol.InitialDirection | gpu/4_Finance/SobolQRNG/sobol_gold.cpp:102-119 | the same of every sequence of direction numbers |
| Sobol.InitDirection | gpu/4_Finance/SobolQRNG/sobol_gold.cpp:124-140 | one feedback loop computes the recurrence value and changes nothing else |
| Sobol.BratleyFox | gpu/4_Finance/SobolQRNG/sobol_gold.cpp:121-140 | the primitive polynomial encoded in the row, applied to the direction numbers, gives v[i-d] shifted by d, bit for bit |
| Sobol.DirectionsBanded | gpu/4_Finance/SobolQRNG/sobol_gold.cpp:99-145 | in every dimension v[i] is a multiple of 2^(31-i), odd exactly when the initial value i modulo the degree is |
| Sobol.Ffs | gpu/4_Finance/SobolQRNG/sobol_gold.cpp:50-91 | the binary search finds the lowest set bit, counted from one, and 0 for 0 |
| Sobol.LowestZero | gpu/4_Finance/SobolQRNG/sobol_gold.cpp:164 | the index used is the lowest zero bit of i-1 and stays inside the 32 directions |
| Sobol.PointStep | gpu/4_Finance/SobolQRNG/sobol_gold.cpp:158-166 | the Gray-code update turns point i-1 into point i |
| Sobol.SobolCPU | gpu/4_Finance/SobolQRNG/sobol_gold.cpp:148-170 | output row d holds, for every i, the xor of v[b] over the set bits b of i xor i/2; nothing beyond the rows changes; without vectors only the first element is written, with 0 |
| Sobol.RowElement | gpu/4_Finance/SobolQRNG/sobol_gold.cpp:160-165 | element i of row d is the i-th point of dimension d |
| Sobol.ExtentIs | gpu/4_Finance/SobolQRNG/sobol_gold.cpp:156-165 | the rows of n elements lie one after the other; without vectors one element is written |
| Sobol.SobolStratified | gpu/4_Finance/SobolQRNG/sobol_gold.cpp:95-170 | for every row: the k top bits take each value exactly once in every aligned block of 2^k indices if and only if the first k initial values (as far as the degree) are odd |
| Sobol.Dimension446 | gpu/4_Finance/SobolQRNG/sobol_primitives.cpp:495 | in the dimension of this row that holds for k up to 10 and for no more |
| SobolNet.SobolLayer | gpu/4_Finance/SobolQRNG/sobol_gold.cpp:121-140 | the polynomial of a row, applied to row r of the generator matrix, gives row r - d, and zero for the first d rows |
| SobolNet.SobolNetExactly | gpu/4_Finance/SobolQRNG/sobol_gold.cpp:95-170 | any choice of dimensions is a net in the order of the points (one index per cell, for all whole blocks of rows, blocks of indices and top bits) if and only if all their initial values are odd and the polynomials of any two whose degrees fit into 32 bits are coprime |
| SobolNet.SobolPointsPerCell | gpu/4_Finance/SobolQRNG/sobol_gold.cpp:95-170 | with odd initial values and distinct irreducible polynomials, any numbers of rows per dimension: each cell holds exactly 2^(k - sum of rows) of the 2^k indices of an aligned block |
| SobolNet.FirstThreeNet | gpu/4_Finance/SobolQRNG/sobol_primitives.cpp:49-51 | the first three dimensions of the table: a cell holds two points if the third has an odd number of rows, one if even |
| SobolNet.Dimensions478And479 | gpu/4_Finance/SobolQRNG/sobol_primitives.cpp:527-528 | these two rows satisfy every other condition but share their polynomial: no net |
| SobolNet.Dimensions2And1293 | gpu/4_Finance/SobolQRNG/sobol_primitives.cpp:1342 | the polynomial of this row is a multiple of that of dimension 2: no net |
| Directions.GrayStep | gpu/4_Finance/SobolQRNG/sobol_gold.cpp:160-164 | counting up flips exactly the Gray bit at the lowest zero |
| Directions.LinearKeyStratifies | gpu/4_Finance/SobolQRNG/sobol_gold.cpp:148-170 | a linear key vanishing only at zero takes each value once in every aligned block |
| Irreducibles.GeneratePolynomials | gpu/4_Finance/quasirandomGenerator/quasirandomGenerator_gold.cpp:27-96 | the buffer holds exactly the first n irreducible polynomials in increasing order; the result is the sum of their degrees |
| Irreducibles.Remainder | gpu/4_Finance/quasirandomGenerator/quasirandomGenerator_gold.cpp:44-52 | the division loop ends, with 0 exactly when buffer[i] divides p1, although its guard compares codes |
| Irreducibles.TryDivisors | gpu/4_Finance/quasirandomGenerator/quasirandomGenerator_gold.cpp:38-61 | the last remainder is nonzero exactly when p1 is irreducible |
| Irreducibles.TrialDivision | gpu/4_Finance/quasirandomGenerator/quasirandomGenerator_gold.cpp:41-61 | irreducibility is the absence of smaller irreducible divisors |
| Irreducibles.FirstIrreduciblesUnique | gpu/4_Finance/quasirandomGenerator/quasirandomGenerator_gold.cpp:32-92 | the specification determines the buffer |
| Irreducibles.FirstThree | gpu/4_Finance/quasirandomGenerator/quasirandomGenerator_common.h:22 | for the three dimensions in use the polynomials are 2, 3 and 7 |
| Niederreiter.FillTable | gpu/4_Finance/quasirandomGenerator/quasirandomGenerator_gold.cpp:118-137 | the coefficient table is filled exactly to its allocated size |
| Niederreiter.TableAt | gpu/4_Finance/quasirandomGenerator/quasirandomGenerator_gold.cpp:118-137 | where each row of it begins, and what it holds |
| Niederreiter.CoefficientAt | gpu/4_Finance/quasirandomGenerator/quasirandomGenerator_gold.cpp:124-133 | entry k of a row is the coefficient of x^(e-k), the last one -1 |
| Niederreiter.MultiplyByP | gpu/4_Finance/quasirandomGenerator/quasirandomGenerator_gold.cpp:174-195 | the in-place convolution leaves coefficient k of b times p in place 1023 - k of the array, within bounds |
| Niederreiter.ComputeV | gpu/4_Finance/quasirandomGenerator/quasirandomGenerator_gold.cpp:197-216 | v holds zeros below the old degree, ones below the new one, then the recurrence of b, over its whole range |
| Recurrences.TermsAnnihilated | gpu/4_Finance/quasirandomGenerator/quasirandomGenerator_gold.cpp:208-216 | the polynomial b annihilates that sequence everywhere |
| Recurrences.TermIsUnique | gpu/4_Finance/quasirandomGenerator/quasirandomGenerator_gold.cpp:197-216 | it is the only sequence with those zeros and ones that b annihilates |
| Niederreiter.GenerateDimension | gpu/4_Finance/quasirandomGenerator/quasirandomGenerator_gold.cpp:151-227 | each direction number has, in row r, the term of power r/e + 1 shifted by r mod e; other dimensions are unchanged |
| Niederreiter.GenerateCJ | gpu/4_Finance/quasirandomGenerator/quasirandomGenerator_gold.cpp:109-230 | so for every dimension, with the first irreducible polynomials |
| Niederreiter.ColumnIsUnique | gpu/4_Finance/quasirandomGenerator/quasirandomGenerator_gold.cpp:197-223 | row e q + u of the table is, shifted by u places, the only sequence with zeros below e q and ones below e q + e that the power q + 1 of p annihilates |
| Niederreiter.ColumnBit | gpu/4_Finance/quasirandomGenerator/quasirandomGenerator_gold.cpp:219-223 | row r of the matrix is bit 62-r of the direction numbers, no other bit is set |
| Niederreiter.QuasirandomValue63 | gpu/4_Finance/quasirandomGenerator/quasirandomGenerator_gold.cpp:233-242 | the xor of the direction numbers over the bits of the index modulo 2^63, for negative indices too |
| Niederreiter.FillResolutionTable | gpu/4_Finance/quasirandomGenerator/quasirandomGenerator_gold.cpp:249-258 | the short table holds bits 62..32 of each direction number |
| Niederreiter.QuasirandomValue | gpu/4_Finance/quasirandomGenerator/quasirandomGenerator_gold.cpp:265-277 | the same over the short table and the index modulo 2^31 |
| Niederreiter.ShortTableTruncates | gpu/4_Finance/quasirandomGenerator/quasirandomGenerator_gold.cpp:249-277 | the 31-bit generator gives the 31 top bits of the 63-bit one for every index below 2^31 |
| Nets.NetExactly | gpu/4_Finance/quasirandomGenerator/quasirandomGenerator_gold.cpp:109-242 | dimensions whose top blocks vanish exactly at the multiples of powers of their polynomials form a net if and only if the polynomials of any two that fit are coprime |
| Nets.ProductDivides | gpu/4_Finance/quasirandomGenerator/quasirandomGenerator_gold.cpp:197-223 | an index whose top bits vanish in several dimensions is, as a polynomial, a multiple of the product of the powers in use |
| DigitalNet.PointsPerCell | gpu/4_Finance/quasirandomGenerator/quasirandomGenerator_gold.cpp:109-242 | for distinct irreducible polynomials, any numbers of rows per dimension within whole blocks (k rows in all blocks), every aligned block of 2^k indices and every choice of top bits: exactly 2^(k - sum of rows) indices of the block have them |
| DigitalNet.OnePointPerCell | gpu/4_Finance/quasirandomGenerator/quasirandomGenerator_gold.cpp:109-242 | with whole blocks of rows, exactly one index of the block has them |
| DigitalNet.GeneratedNet | gpu/4_Finance/quasirandomGenerator/quasirandomGenerator_gold.cpp:109-242 | the same count for the polynomials the search produces, in all dimensions of the generated table |
| DigitalNet.ThreeDimensionNet | gpu/4_Finance/quasirandomGenerator/quasirandomGenerator_common.h:22 | for the three dimensions in use: a cell holds two points if the third has an odd number of rows, one if even |
| DigitalNet.DegreeOneStratified | gpu/4_Finance/quasirandomGenerator/quasirandomGenerator_gold.cpp:151-242 | for a polynomial of degree one any number of top bits is stratified |
| DigitalNet.TableGivesValue | gpu/4_Finance/quasirandomGenerator/quasirandomGenerator_gold.cpp:233-242 | the integer computed from the generated table is, for every signed index, the value of the net theorem at the index modulo 2^63 |
| DigitalNet.TopVanishesAtMultiples | gpu/4_Finance/quasirandomGenerator/quasirandomGenerator_gold.cpp:197-223 | the first q blocks of top bits vanish exactly at the indices that are, as polynomials, multiples of the q-th power |
| DigitalNet.NextFactor | gpu/4_Finance/quasirandomGenerator/quasirandomGenerator_gold.cpp:197-223 | if a block of rows vanishes on a multiple of the power before, the index has one more factor p |
| TriangleSampler.MergeStreams | misc/data_flow.cpp:16-36 | every edge has the two endpoints read, the smaller one first |
| TriangleSampler.FirstEdgeSampling | misc/data_flow.cpp:39-69 | passes the states on and sends for the n-th edge the draw n (r + 1) / 2^32 of its random word r if that is at most 2, and 0 otherwise |
| TriangleSampler.RandomWordIs | misc/data_flow.cpp:53-54 | that word is the permutation of (s + 2 q A + 1) mod 2^64, with q = 1 for the first edge |
| TriangleSampler.DrawFits | misc/data_flow.cpp:55-58 | the product never exceeds 64 bits and the draw is at most the counter |
| TriangleSampler.DrawIsFair | misc/data_flow.cpp:55-58 | for counter n each slot 0 < j < n is hit by floor or ceil of 2^32/n random words, slot 0 by one less than that ceiling, and n itself by one word |
| TriangleSampler.ReplacementIsSlotZero | misc/data_flow.cpp:58-66 | index 0 means slot 0 exactly if the draw names an edge slot |
| TriangleSampler.ReplacedWithoutSlotZero | misc/data_flow.cpp:58-66 | a draw of slot 3 for the fourth edge also sends index 0 |
| TriangleSampler.EdgeIsRarelyKept | misc/data_flow.cpp:58-66 | the exact number of random words that keep the edge, for every n: about 2/n of all for n > 2, one half and one for n = 2, one for n = 1 |
| TriangleSampler.FirstEdgeCanBeMissed | misc/data_flow.cpp:55-69 | the very first edge is installed with every random word but the largest, which leaves the sampler unchanged |
| TriangleSampler.ReservoirSampling | misc/data_flow.cpp:71-175 | streams are passed on; before a first edge the results are passed on too; since the last first edge, at position f, the result adds the number of later edges adjacent to it, modulo 2^32, once one of them has closed the two edges in force |
| TriangleSampler.HistoryIsWindow | misc/data_flow.cpp:129-137 | what counts for a report is exactly the arrivals since the last first edge |
| TriangleSampler.SelectedMeans | misc/data_flow.cpp:119-152 | an edge is selected exactly if it is adjacent to the first one and its random word times the number of such edges so far is below 2^32 |
| TriangleSampler.ClosesMeans | misc/data_flow.cpp:140-163 | an edge closes exactly if it is not selected and close to the match edge of the first edge and the last one selected before it |
| TriangleSampler.EdgesMeet | misc/fpga_edge_match.h:5-17 | adjacent edges are those with a common endpoint, close ones those with the same two |
| TriangleSampler.MatchEdgeJoins | misc/fpga_edge_match.h:39-61 | the match edge of two edges with one common endpoint joins their other endpoints |
| TriangleSampler.StepTracks | misc/data_flow.cpp:100-165 | every iteration keeps flags, count, second and match edge equal to what the history defines |
| TriangleSampler.ClosingEdgeMakesTriangle | misc/fpga_edge_match.h:5-61 | a closing edge makes a triangle exactly when none of the three edges is a loop and the second is not the first reversed |
| TriangleSampler.ClosingEdgeIsAdjacent | misc/fpga_edge_match.h:5-61 | an edge that closes the match edge touches the first edge, so the nested test misses none |
| TriangleSampler.SelectsExactly | misc/data_flow.cpp:119-146 | the selection product stays inside 64 bits and the first adjacent edge is always taken |
| TriangleSampler.SelectionIsFair | misc/data_flow.cpp:119-146 | exactly ceil(2^32/n) random words select the n-th adjacent edge |
| TriangleSampler.MatchIsTriangle | misc/data_flow.cpp:129-165 | with ordered edges and no loops a match means a triangle on three distinct vertices |
| TriangleSampler.ReportedTriangle | misc/data_flow.cpp:100-174 | over a whole run on such edges a match after k edges means three of them form a triangle |
| TriangleSampler.ReversedDuplicateWouldMatch | misc/data_flow.cpp:24-33 | without the ordering a reversed duplicate would match |
| TriangleSampler.LoopWouldMatch | misc/fpga_edge_match.h:39-61 | a loop after a duplicate would match |

## Left out

- Host programs, OpenCL and SYCL calls, CUDA kernels, build and documentation scripts, image and logging helpers.
- Floating point: the scaling of Sobol and Niederreiter integers (including `result + 1`), Black-Scholes, Monte Carlo, the inverse normal distribution.
- The `primitive == true` branch of `GeneratePolynomials`, which GenerateCJ never takes.
- The seed table `tmp_xor32_s`, and the rows of `sobol_primitives` not quoted above: both are parameters. Unused places of a row are zero, as in a C initializer.
- The period of the xorshift beyond the cycle property, statistical quality, and correlation between streams.
- Pipelining and initiation intervals: processes are sequential, and any interleaving of their FIFO operations is allowed.
- `multi_stream_seeked`, `pcg_output_xsh_rs_64_32` and `dump_state`, which the estimator kernel does not use.
- Duplicates of the modelled code under `misc/ssrng`, `fpga/rng/src` and `quasirandomGenerator_nvrtc`.
- Streams of `mem_write` and of the sampler are sequences with at least `size` elements; waiting for a producer is modelled only in the network.
- Network: the processes are modelled on values and not as classes over shared FIFOs, because the subject is their interleaving.
- GeneratePolynomials: requires that as many irreducible polynomials as asked for fit into 31 bits, since the code would overflow its ints otherwise; `Irreducibles.EnoughForThree` shows it for the three dimensions in use.
- SobolCPU: array indices are unbounded; the int product of the code overflows from 2^31 outputs on.
- OutputsKeepPace: the constants of this bound and of SilenceIsBounded are not the smallest possible.
