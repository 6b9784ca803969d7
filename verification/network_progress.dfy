/** On every schedule the outputs keep pace with the work: the bounded FIFOs tie every process to the
    number of counters that have left the network, so none can run ahead forever. */
module NetworkProgress {
  import opened Fifos
  import opened Network
  import opened NetworkCounts
  import opened NetworkData

  /** Steps taken so far by an instance and by an application, from their FIFO operations. */
  function InstWork(net: Net, i: nat): nat
    requires i < |net.inst| && i + 1 < |net.s| && i < |net.rng|
  {
    net.s[i].taken + |net.s[i + 1].written| + |net.rng[i].written|
  }

  function AppWork(net: Net, i: nat): nat
    requires i < |net.app| && i + 1 < |net.o| && i < |net.rng|
  {
    net.rng[i].taken + Tries(net.app[i], |net.o[i + 1].written|) + |net.o[i + 1].written|
  }

  function StageWork(net: Net, k: nat): nat
    requires k <= |net.stf|
  {
    if k == 0 then 0 else StageWork(net, k - 1) + |net.stf[k - 1].written|
  }

  ghost function ChainWork(net: Net, n: nat, i: nat): nat
    requires Shaped(net, n) && i <= n
  {
    if i == 0 then 0 else ChainWork(net, n, i - 1) + InstWork(net, i - 1) + AppWork(net, i - 1)
  }

  function EndsWork(net: Net): nat
    requires |net.s| > 0 && |net.o| > 0
  {
    2 * LANES * net.merge.round + net.merge.pc
    + net.root.taken + |net.s[0].written|
    + net.s[|net.s| - 1].taken
    + net.o[|net.o| - 1].taken + |net.output.written|
  }

  ghost function Work(net: Net, n: nat): nat
    requires Shaped(net, n)
  {
    StageWork(net, LANES) + ChainWork(net, n, n) + EndsWork(net)
  }

  // ---------- each step is one unit of work ----------

  predicate Productive(a: Action) {
    !a.Dummy? && !a.Drain?
  }

  lemma {:induction false} SameStageWork(net: Net, r: Net, k: nat)
    requires k <= |net.stf| == |r.stf|
    requires forall j: nat :: j < k ==> |r.stf[j].written| == |net.stf[j].written|
    ensures StageWork(r, k) == StageWork(net, k)
  {
    if k > 0 { SameStageWork(net, r, k - 1); }
  }

  lemma {:induction false} OneStageWorks(net: Net, r: Net, j: nat, k: nat)
    requires j < k <= |net.stf| == |r.stf|
    requires forall i: nat :: i < k ==> |r.stf[i].written| == |net.stf[i].written| + if i == j then 1 else 0
    ensures StageWork(r, k) == StageWork(net, k) + 1
  {
    if j + 1 == k { SameStageWork(net, r, j); } else { OneStageWorks(net, r, j, k - 1); }
  }

  lemma {:induction false} SameChainWork(net: Net, r: Net, n: nat, i: nat)
    requires Shaped(net, n) && Shaped(r, n) && i <= n
    requires forall j: nat :: j < i ==> InstWork(r, j) == InstWork(net, j)
    requires forall j: nat :: j < i ==> AppWork(r, j) == AppWork(net, j)
    ensures ChainWork(r, n, i) == ChainWork(net, n, i)
  {
    if i > 0 { SameChainWork(net, r, n, i - 1); }
  }

  lemma {:induction false} OneCellWorks(net: Net, r: Net, n: nat, j: nat, i: nat)
    requires Shaped(net, n) && Shaped(r, n) && j < i <= n
    requires forall k: nat :: k < i && k != j ==> InstWork(r, k) == InstWork(net, k)
    requires forall k: nat :: k < i && k != j ==> AppWork(r, k) == AppWork(net, k)
    requires InstWork(r, j) + AppWork(r, j) == InstWork(net, j) + AppWork(net, j) + 1
    ensures ChainWork(r, n, i) == ChainWork(net, n, i) + 1
  {
    if j + 1 == i { SameChainWork(net, r, n, j); } else { OneCellWorks(net, r, n, j, i - 1); }
  }

  lemma StageIsWork(net: Net, n: nat, k: nat)
    requires Shaped(net, n) && Enabled(net, n, Stage(k))
    ensures Work(Next(net, n, Stage(k)), n) == Work(net, n) + 1
  {
    hide StageWork, ChainWork;
    var r := Next(net, n, Stage(k));
    OneStageWorks(net, r, k, LANES);
    SameChainWork(net, r, n, n);
  }

  lemma InstIsWork(net: Net, n: nat, i: nat)
    requires Shaped(net, n) && Enabled(net, n, Inst(i))
    ensures Work(Next(net, n, Inst(i)), n) == Work(net, n) + 1
  {
    hide StageWork, ChainWork, RandomWord;
    var r := Next(net, n, Inst(i));
    SameStageWork(net, r, LANES);
    OneCellWorks(net, r, n, i, n);
  }

  lemma AppIsWork(net: Net, n: nat, i: nat)
    requires Shaped(net, n) && Enabled(net, n, App(i))
    ensures Work(Next(net, n, App(i)), n) == Work(net, n) + 1
  {
    hide StageWork, ChainWork, Inside;
    var r := Next(net, n, App(i));
    SameStageWork(net, r, LANES);
    OneCellWorks(net, r, n, i, n);
  }

  lemma EndIsWork(net: Net, n: nat, a: Action)
    requires Shaped(net, n) && Enabled(net, n, a) && !a.Stage? && !a.Inst? && !a.App?
    ensures Work(Next(net, n, a), n) == Work(net, n) + if Productive(a) then 1 else 0
  {
    hide StageWork, ChainWork;
    var r := Next(net, n, a);
    SameStageWork(net, r, LANES);
    SameChainWork(net, r, n, n);
  }

  lemma StepIsWork(net: Net, n: nat, a: Action)
    requires Shaped(net, n) && Enabled(net, n, a)
    ensures Work(Next(net, n, a), n) == Work(net, n) + if Productive(a) then 1 else 0
  {
    hide Work, Next;
    match a
    case Stage(k) => StageIsWork(net, n, k);
    case Inst(i) => InstIsWork(net, n, i);
    case App(i) => AppIsWork(net, n, i);
    case _ => EndIsWork(net, n, a);
  }

  function ProductiveSteps(acts: seq<Action>, j: nat): nat
    requires j <= |acts|
  {
    if j == 0 then 0 else ProductiveSteps(acts, j - 1) + if Productive(acts[j - 1]) then 1 else 0
  }

  lemma {:induction false} RunWork(seeds: seq<nat>, states: seq<Net>, acts: seq<Action>, j: nat)
    requires IsRun(seeds, states, acts) && j <= |acts|
    ensures Work(states[j], |seeds|) == ProductiveSteps(acts, j)
  {
    if j == 0 {
      NoWork(Init(seeds), |seeds|, |seeds|);
      NoStageWork(Init(seeds), LANES);
    } else {
      hide Work;
      RunWork(seeds, states, acts, j - 1);
      StepIsWork(states[j - 1], |seeds|, acts[j - 1]);
    }
  }

  lemma {:induction false} NoWork(net: Net, n: nat, i: nat)
    requires Shaped(net, n) && i <= n
    requires forall j: nat :: j < n ==> net.app[j].pc.ReadX? && net.rng[j] == NO_DATA
    requires forall j: nat :: j <= n ==> net.s[j] == NO_DATA && net.o[j] == NO_DATA
    ensures ChainWork(net, n, i) == 0
  {
    if i > 0 { NoWork(net, n, i - 1); }
  }

  lemma {:induction false} NoStageWork(net: Net, k: nat)
    requires k <= |net.stf|
    requires forall j: nat :: j < k ==> net.stf[j] == NO_DATA
    ensures StageWork(net, k) == 0
  {
    if k > 0 { NoStageWork(net, k - 1); }
  }

  // ---------- the work is bounded by the outputs ----------

  /** No application has sent many more counters than have left the network. */
  lemma {:induction false} CountersBounded(net: Net, n: nat, i: nat)
    requires Inv(net, n) && OutputCount(net, n) && i <= n
    ensures |net.o[i].written| <= |net.output.written| + 3 + 3 * (n - i)
    decreases n - i
  {
    if i < n {
      CountersBounded(net, n, i + 1);
      assert AppAt(net, n, i);
    }
  }

  /** The final pad holds at most one counter. */
  ghost predicate OutputCount(net: Net, n: nat)
    requires Shaped(net, n)
  {
    net.o[n].taken == |net.output.written| + if net.padOut.Some? then 1 else 0
  }

  lemma KeepsOutputCount(net: Net, n: nat, a: Action)
    requires Shaped(net, n) && Enabled(net, n, a) && OutputCount(net, n)
    ensures OutputCount(Next(net, n, a), n)
  {
    hide RandomWord, Inside;
  }

  lemma {:induction false} RunOutputCount(seeds: seq<nat>, states: seq<Net>, acts: seq<Action>, j: nat)
    requires IsRun(seeds, states, acts) && j < |states|
    ensures OutputCount(states[j], |seeds|)
  {
    hide Next, Enabled;
    if j > 0 {
      RunOutputCount(seeds, states, acts, j - 1);
      KeepsOutputCount(states[j - 1], |seeds|, acts[j - 1]);
    }
  }

  function Ahead(net: Net, n: nat): nat {
    |net.output.written| + 3 + 3 * n
  }

  /** Nor have few: a counter that left the network passed every application, apart from three misses each. */
  lemma {:induction false} CountersReached(net: Net, n: nat, i: nat)
    requires Inv(net, n) && OutputCount(net, n) && 0 < i <= n
    ensures |net.o[i].written| + 3 * (n - i) >= |net.output.written|
    decreases n - i
  {
    if i < n {
      CountersReached(net, n, i + 1);
      assert AppAt(net, n, i) && FewMisses(net, n, i);
    }
  }

  lemma CellBounded(net: Net, n: nat, i: nat)
    requires Inv(net, n) && OutputCount(net, n) && i < n
    ensures InstWork(net, i) + AppWork(net, i) <= 10 * Ahead(net, n) + 24
    ensures net.s[i].taken <= 2 * Ahead(net, n) + 8 && |net.s[i + 1].written| <= 2 * Ahead(net, n) + 7
  {
    CountersBounded(net, n, i + 1);
    assert InstAt(net, n, i) && AppAt(net, n, i);
  }

  function Behind(net: Net, n: nat): int {
    |net.output.written| - 3 * n
  }

  lemma CellReached(net: Net, n: nat, i: nat)
    requires Inv(net, n) && OutputCount(net, n) && i < n
    ensures InstWork(net, i) + AppWork(net, i) >= 10 * Behind(net, n)
    ensures net.s[i].taken >= 2 * Behind(net, n) && |net.s[i + 1].written| >= 2 * Behind(net, n)
  {
    CountersReached(net, n, i + 1);
    assert InstAt(net, n, i) && AppAt(net, n, i);
  }

  lemma {:induction false} ChainBounded(net: Net, n: nat, i: nat)
    requires Inv(net, n) && OutputCount(net, n) && i <= n
    ensures i * (10 * Behind(net, n)) <= ChainWork(net, n, i) <= i * (10 * Ahead(net, n) + 24)
  {
    if i > 0 {
      hide InstWork, AppWork, Ahead, Behind;
      ChainBounded(net, n, i - 1);
      CellBounded(net, n, i - 1);
      CellReached(net, n, i - 1);
      OneMore(i, 10 * Ahead(net, n) + 24);
      OneMore(i, 10 * Behind(net, n));
    }
  }

  lemma OneMore(i: nat, b: int)
    requires i > 0
    ensures i * b == (i - 1) * b + b
  {
  }

  lemma {:induction false} StagesBounded(net: Net, n: nat, k: nat)
    requires Inv(net, n) && RootData(net, n) && k <= LANES
    ensures StageWork(net, k) <= k * (net.merge.round + 5)
    ensures StageWork(net, k) >= k * net.merge.round + if k <= net.merge.pc then k else net.merge.pc
  {
    if k > 0 {
      StagesBounded(net, n, k - 1);
      assert LaneAt(net, k - 1);
      assert net.stf[k - 1].Within(LANE_DEPTH);
      OneMore(k, net.merge.round + 5);
      OneMore(k, net.merge.round);
    }
  }

  /** The work lies within a band around its value for a steady network. */
  lemma WorkBounded(net: Net, n: nat)
    requires n > 0 && Inv(net, n) && RootData(net, n) && OutputCount(net, n)
    ensures Work(net, n) <= n * (10 * Ahead(net, n) + 24) + 12 * Ahead(net, n) + 2 * |net.output.written| + 164
    ensures Work(net, n) >= n * (10 * Behind(net, n)) + 12 * Behind(net, n) + 2 * |net.output.written| - 2
  {
    hide ChainWork, StageWork;
    StagesBounded(net, n, LANES);
    ChainBounded(net, n, n);
    EndsBounded(net, n);
  }

  lemma EndsBounded(net: Net, n: nat)
    requires n > 0 && Inv(net, n) && RootData(net, n) && OutputCount(net, n)
    ensures EndsWork(net) <= 10 * Ahead(net, n) + 2 * |net.output.written| + 92
    ensures EndsWork(net) >= 10 * Behind(net, n) + 2 * |net.output.written| - 2
    ensures 2 * Behind(net, n) <= |net.root.written| <= 2 * Ahead(net, n) + 27
  {
    CellBounded(net, n, 0);
    CellBounded(net, n, n - 1);
    CellReached(net, n, 0);
    CellReached(net, n, n - 1);
    CountersBounded(net, n, n);
    CountersReached(net, n, n);
    assert InstAt(net, n, 0);
  }

  lemma RunLength(seeds: seq<nat>, states: seq<Net>, acts: seq<Action>)
    requires IsRun(seeds, states, acts)
    ensures |states| == |acts| + 1
  {
  }

  lemma {:induction false} ProductiveCounted(acts: seq<Action>, i: nat, j: nat)
    requires i <= j <= |acts|
    ensures ProductiveSteps(acts, j) - ProductiveSteps(acts, i)
         == |set k: nat | i <= k < j && !acts[k].Dummy? && !acts[k].Drain?|
    decreases j
  {
    var steps := (t: nat) requires t <= j => set k: nat | i <= k < t && !acts[k].Dummy? && !acts[k].Drain?;
    if i < j {
      ProductiveCounted(acts, i, j - 1);
      NextSteps(steps(j - 1), steps(j), j - 1, Productive(acts[j - 1]));
    } else {
      assert steps(j) == {};
    }
  }

  /** On every schedule of a chain of n > 0 instances, the steps of all processes other than the two
      ends are bounded by a linear function of the counters sent out. */
  lemma OutputsKeepPace(seeds: seq<nat>, states: seq<Net>, acts: seq<Action>, j: nat)
    requires |seeds| > 0 && IsRun(seeds, states, acts) && j <= |acts|
    ensures var n := |seeds|;
            var ahead := |states[j].output.written| + 3 + 3 * n;
            var steps := set k: nat | 0 <= k < j && !acts[k].Dummy? && !acts[k].Drain?;
            |steps| <= n * (10 * ahead + 24) + 14 * ahead + 158
  {
    hide Work, IsRun;
    ProductiveCounted(acts, 0, j);
    assert |states| == |acts| + 1 by { RunLength(seeds, states, acts); }
    RunWork(seeds, states, acts, j);
    RunKeepsFlow(seeds, states, acts, j);
    RunOutputCount(seeds, states, acts, j);
    WorkBounded(states[j], |seeds|);
  }

  /** On every schedule, between two moments with the same number of outputs only a number of productive steps
      fits that depends on the chain length alone. Together with DeadlockFree: a scheduler that keeps choosing
      among the processes that can move forces another output within that many steps. */
  lemma SilenceIsBounded(seeds: seq<nat>, states: seq<Net>, acts: seq<Action>, i: nat, j: nat)
    requires |seeds| > 0 && IsRun(seeds, states, acts) && i <= j <= |acts|
    requires |states[j].output.written| == |states[i].output.written|
    ensures var n := |seeds|;
            var steps := set k: nat | i <= k < j && !acts[k].Dummy? && !acts[k].Drain?;
            |steps| <= 60 * n * n + 126 * n + 202
  {
    hide Work, IsRun, ProductiveSteps;
    ProductiveCounted(acts, i, j);
    var n := |seeds|;
    assert |states| == |acts| + 1 by { RunLength(seeds, states, acts); }
    RunWork(seeds, states, acts, i);
    RunWork(seeds, states, acts, j);
    RunKeepsFlow(seeds, states, acts, i);
    RunKeepsFlow(seeds, states, acts, j);
    RunOutputCount(seeds, states, acts, i);
    RunOutputCount(seeds, states, acts, j);
    WorkBounded(states[i], n);
    WorkBounded(states[j], n);
    BandWidth(n, Ahead(states[j], n), Behind(states[i], n));
  }

  lemma BandWidth(n: nat, ahead: int, behind: int)
    requires ahead == behind + 6 * n + 3
    ensures n * (10 * ahead + 24) + 12 * ahead + 164 - (n * (10 * behind) + 12 * behind - 2)
         == 60 * n * n + 126 * n + 202
  {
    assert n * (10 * ahead + 24) == n * (10 * behind) + n * (60 * n + 54);
  }
}
