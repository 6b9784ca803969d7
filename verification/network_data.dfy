/** What flows through the network: on every schedule the random words are one fixed sequence per
    instance, and the counters account for the points found inside the quarter circle. */
module NetworkData {
  import opened Bits
  import opened Fifos
  import opened Lcg
  import opened Leapfrog
  import opened Permutation
  import opened Network
  import opened NetworkCounts
  import Xorshift

  ghost predicate SerialPrefix(w: seq<nat>) {
    forall t: nat :: t < |w| ==> w[t] == Serial(t)
  }

  // ---------- the root state: nine lanes merged round-robin ----------

  ghost predicate LaneAt(net: Net, k: nat)
    requires |net.lanes| == |net.stf| == LANES && k < LANES
  {
    && net.lanes[k] == Serial(k + LANES * |net.stf[k].written|)
    && (forall j: nat :: j < |net.stf[k].written| ==> net.stf[k].written[j] == Serial(k + LANES * j))
    && net.stf[k].taken == net.merge.round + if k < net.merge.pc then 1 else 0
  }

  ghost predicate MergeData(net: Net)
    requires |net.merge.v| == LANES
  {
    && (forall k: nat :: k < LANES && k < net.merge.pc ==> net.merge.v[k] == Serial(k + LANES * net.merge.round))
    && |net.root.written| == LANES * net.merge.round + (if net.merge.pc < LANES then 0 else net.merge.pc - LANES)
    && SerialPrefix(net.root.written)
  }

  ghost predicate PadInData(net: Net)
    requires |net.s| > 0
  {
    && net.root.taken == |net.s[0].written| + (if net.padIn.Some? then 1 else 0)
    && (net.padIn.Some? ==> net.padIn.value == Serial(|net.s[0].written|))
  }

  ghost predicate RootData(net: Net, n: nat)
    requires Shaped(net, n)
  {
    (forall k: nat :: k < LANES ==> LaneAt(net, k)) && MergeData(net) && PadInData(net)
  }

  // ---------- the state chain and the random words ----------

  /** The n-th word of instance i: the offset root state permuted, xor the decorrelator's next state. */
  function Random(seeds: seq<nat>, i: nat, t: nat): nat
    requires i < |seeds|
  {
    RandomWord(i, Serial(t), Xorshift.Iterate(seeds[i], t + 1))
  }

  ghost predicate StateAt(net: Net, i: nat)
    requires i < |net.s|
  {
    SerialPrefix(net.s[i].written)
  }

  ghost predicate InstData(seeds: seq<nat>, net: Net, i: nat)
    requires Shaped(net, |seeds|) && i < |seeds|
  {
    && net.inst[i].sg == Xorshift.Iterate(seeds[i], |net.rng[i].written|)
    && (!net.inst[i].pc.ReadState? ==> net.inst[i].pkt == Serial(|net.rng[i].written|))
    && (forall t: nat :: t < |net.rng[i].written| ==> net.rng[i].written[t] == Random(seeds, i, t))
  }

  ghost predicate ChainData(seeds: seq<nat>, net: Net)
    requires Shaped(net, |seeds|)
  {
    && (forall i: nat :: i <= |seeds| ==> StateAt(net, i))
    && (forall i: nat :: i < |seeds| ==> InstData(seeds, net, i))
  }

  // ---------- points and counters ----------

  function Square(x: nat): nat {
    x * x
  }

  /** The k-th point of application i lies in the quarter circle. */
  predicate PointInside(seeds: seq<nat>, i: nat, k: nat)
    requires i < |seeds|
  {
    Inside(Square(Random(seeds, i, 2 * k)), Square(Random(seeds, i, 2 * k + 1)))
  }

  /** How many of its first k points lie inside. */
  function PointsInside(seeds: seq<nat>, i: nat, k: nat): nat
    requires i < |seeds|
  {
    if k == 0 then 0 else PointsInside(seeds, i, k - 1) + if PointInside(seeds, i, k - 1) then 1 else 0
  }

  ghost predicate PointAt(seeds: seq<nat>, net: Net, i: nat)
    requires Shaped(net, |seeds|) && i < |seeds|
  {
    var p, k := net.app[i], |net.o[i + 1].written|;
    && (p.pc.ReadY? || p.pc.TryCount? ==> p.x == Square(Random(seeds, i, 2 * k)))
    && (p.pc.TryCount? ==> p.y == Square(Random(seeds, i, 2 * k + 1)))
  }

  /** A point inside is scored unless its try missed. */
  ghost predicate ScoreAt(seeds: seq<nat>, net: Net, i: nat)
    requires Shaped(net, |seeds|) && i < |seeds|
  {
    var found := PointsInside(seeds, i, Tries(net.app[i], |net.o[i + 1].written|));
    net.app[i].scored <= found <= net.app[i].scored + Misses(net, |seeds|, i)
  }

  ghost predicate SmallCounts(w: seq<nat>, i: nat) {
    forall t: nat :: t < |w| ==> w[t] <= i
  }

  function InHand(p: Application): nat {
    if p.pc.WriteCount? then p.v else 0
  }

  /** What an application sends is what it received plus what it scored. */
  ghost predicate CountAt(net: Net, n: nat, i: nat)
    requires Shaped(net, n) && i < n
  {
    && SmallCounts(net.o[i].written, i)
    && InHand(net.app[i]) <= i + 1
    && net.o[i].taken <= |net.o[i].written|
    && Sum(net.o[i + 1].written) + InHand(net.app[i]) == Sum(net.o[i].written[..net.o[i].taken]) + net.app[i].scored
  }

  ghost predicate OutputData(net: Net, n: nat)
    requires Shaped(net, n)
  {
    && net.o[n].taken <= |net.o[n].written|
    && (net.padOut.Some? ==> net.padOut.value <= n)
    && net.output.written + (if net.padOut.Some? then [net.padOut.value] else []) == net.o[n].written[..net.o[n].taken]
  }

  ghost predicate CountData(seeds: seq<nat>, net: Net)
    requires Shaped(net, |seeds|)
  {
    && SmallCounts(net.o[|seeds|].written, |seeds|)
    && (forall i: nat :: i < |seeds| ==> PointAt(seeds, net, i))
    && (forall i: nat :: i < |seeds| ==> ScoreAt(seeds, net, i))
    && (forall i: nat :: i < |seeds| ==> CountAt(net, |seeds|, i))
    && OutputData(net, |seeds|)
  }

  // ---------- preservation: root state ----------

  lemma JumpIsSerial(t: nat)
    ensures Step(NINE.a, NINE.inc, Serial(t)) == Serial(t + LANES)
  {
    BanksConsistent();
    JumpAhead(RNG_A, RNG_INC, 9, NINE.a, NINE.inc, Serial(t));
    IterateAdd(RNG_A, RNG_INC, SERIAL_SEED, t, 9);
  }

  lemma StageKeepsRoot(net: Net, n: nat, k: nat)
    requires Inv(net, n) && RootData(net, n) && Enabled(net, n, Stage(k))
    ensures RootData(Next(net, n, Stage(k)), n)
  {
    hide Serial, Step;
    var r := Next(net, n, Stage(k));
    JumpIsSerial(k + LANES * |net.stf[k].written|);
    forall j: nat | j < LANES ensures LaneAt(r, j) {
      assert LaneAt(net, j);
    }
  }

  lemma MergeKeepsRoot(net: Net, n: nat)
    requires Inv(net, n) && RootData(net, n) && Enabled(net, n, MergeLanes)
    ensures RootData(Next(net, n, MergeLanes), n)
  {
    hide Serial;
    var r := Next(net, n, MergeLanes);
    var m := net.merge;
    forall j: nat | j < LANES ensures LaneAt(r, j) {
      assert LaneAt(net, j);
    }
    if m.pc < LANES { assert LaneAt(net, m.pc); }
  }

  lemma PadInKeepsRoot(net: Net, n: nat)
    requires Inv(net, n) && RootData(net, n) && Enabled(net, n, PadIn)
    ensures RootData(Next(net, n, PadIn), n)
  {
    hide Serial;
    var r := Next(net, n, PadIn);
    forall j: nat | j < LANES ensures LaneAt(r, j) {
      assert LaneAt(net, j);
    }
  }

  lemma OtherKeepsRoot(net: Net, n: nat, a: Action)
    requires Inv(net, n) && RootData(net, n) && Enabled(net, n, a)
    requires !a.Stage? && !a.MergeLanes? && !a.PadIn?
    ensures RootData(Next(net, n, a), n)
  {
    hide Serial, RandomWord, Inside;
    var r := Next(net, n, a);
    assert r.lanes == net.lanes && r.stf == net.stf && r.merge == net.merge && r.root == net.root;
    forall j: nat | j < LANES ensures LaneAt(r, j) {
      assert LaneAt(net, j);
    }
    assert r.s[0].written == net.s[0].written;
  }

  lemma KeepsRoot(net: Net, n: nat, a: Action)
    requires Inv(net, n) && RootData(net, n) && Enabled(net, n, a)
    ensures RootData(Next(net, n, a), n)
  {
    match a
    case Stage(k) => StageKeepsRoot(net, n, k);
    case MergeLanes => MergeKeepsRoot(net, n);
    case PadIn => PadInKeepsRoot(net, n);
    case _ => OtherKeepsRoot(net, n, a);
  }

  // ---------- preservation: chain ----------

  lemma PadInKeepsChain(seeds: seq<nat>, net: Net)
    requires Inv(net, |seeds|) && RootData(net, |seeds|) && ChainData(seeds, net) && Enabled(net, |seeds|, PadIn)
    ensures ChainData(seeds, Next(net, |seeds|, PadIn))
  {
    hide Serial, Random;
    var r := Next(net, |seeds|, PadIn);
    forall i: nat | i <= |seeds| ensures StateAt(r, i) { assert StateAt(net, i); }
    forall i: nat | i < |seeds| ensures InstData(seeds, r, i) { assert InstData(seeds, net, i); }
  }

  lemma InstKeepsChain(seeds: seq<nat>, net: Net, i: nat)
    requires Inv(net, |seeds|) && ChainData(seeds, net) && Enabled(net, |seeds|, Inst(i))
    ensures ChainData(seeds, Next(net, |seeds|, Inst(i)))
  {
    hide Serial, RandomWord, Xorshift.Jump;
    var r := Next(net, |seeds|, Inst(i));
    assert InstAt(net, |seeds|, i) && InstData(seeds, net, i) && StateAt(net, i);
    forall j: nat | j <= |seeds| ensures StateAt(r, j) { assert StateAt(net, j); }
    forall j: nat | j < |seeds| ensures InstData(seeds, r, j) { assert InstData(seeds, net, j); }
  }

  lemma OtherKeepsChain(seeds: seq<nat>, net: Net, a: Action)
    requires Inv(net, |seeds|) && ChainData(seeds, net) && Enabled(net, |seeds|, a)
    requires !a.PadIn? && !a.Inst?
    ensures ChainData(seeds, Next(net, |seeds|, a))
  {
    hide Serial, Random, Inside;
    var r := Next(net, |seeds|, a);
    forall j: nat | j <= |seeds| ensures StateAt(r, j) { assert StateAt(net, j); }
    forall j: nat | j < |seeds| ensures InstData(seeds, r, j) { assert InstData(seeds, net, j); }
  }

  lemma KeepsChain(seeds: seq<nat>, net: Net, a: Action)
    requires Inv(net, |seeds|) && RootData(net, |seeds|) && ChainData(seeds, net) && Enabled(net, |seeds|, a)
    ensures ChainData(seeds, Next(net, |seeds|, a))
  {
    match a
    case PadIn => PadInKeepsChain(seeds, net);
    case Inst(i) => InstKeepsChain(seeds, net, i);
    case _ => OtherKeepsChain(seeds, net, a);
  }

  // ---------- preservation: counters ----------

  lemma DrawnWord(seeds: seq<nat>, net: Net, i: nat)
    requires Inv(net, |seeds|) && ChainData(seeds, net) && i < |seeds| && !net.rng[i].Empty()
    ensures net.rng[i].Head() * net.rng[i].Head() == Square(Random(seeds, i, net.rng[i].taken))
  {
    hide Random;
    assert InstData(seeds, net, i);
  }

  lemma DrawKeepsCounts(seeds: seq<nat>, net: Net, i: nat)
    requires Inv(net, |seeds|) && ChainData(seeds, net) && CountData(seeds, net)
    requires Enabled(net, |seeds|, App(i)) && (net.app[i].pc.ReadX? || net.app[i].pc.ReadY?)
    ensures CountData(seeds, Next(net, |seeds|, App(i)))
  {
    hide Random, PointsInside, Sum, Square;
    var n := |seeds|;
    var r := Next(net, n, App(i));
    assert AppAt(net, n, i) && InstAt(net, n, i);
    DrawnWord(seeds, net, i);
    forall j: nat | j < n ensures PointAt(seeds, r, j) { assert PointAt(seeds, net, j); }
    forall j: nat | j < n ensures ScoreAt(seeds, r, j) { assert ScoreAt(seeds, net, j); }
    forall j: nat | j < n ensures CountAt(r, n, j) { assert CountAt(net, n, j); }
  }

  lemma TryKeepsCounts(seeds: seq<nat>, net: Net, i: nat)
    requires |seeds| < WORDS
    requires Inv(net, |seeds|) && CountData(seeds, net)
    requires Enabled(net, |seeds|, App(i)) && net.app[i].pc.TryCount?
    ensures CountData(seeds, Next(net, |seeds|, App(i)))
  {
    hide Random, Sum, Square;
    var n := |seeds|;
    var r := Next(net, n, App(i));
    assert AppAt(net, n, i) && PointAt(seeds, net, i) && ScoreAt(seeds, net, i) && CountAt(net, n, i);
    assert PointInside(seeds, i, |net.o[i + 1].written|) == Inside(net.app[i].x, net.app[i].y);
    if !net.o[i].Empty() { SumTake(net.o[i].written, net.o[i].taken); }
    forall j: nat | j < n ensures PointAt(seeds, r, j) { assert PointAt(seeds, net, j); }
    forall j: nat | j < n ensures ScoreAt(seeds, r, j) { assert ScoreAt(seeds, net, j); }
    forall j: nat | j < n ensures CountAt(r, n, j) { assert CountAt(net, n, j); }
  }

  lemma SendKeepsCounts(seeds: seq<nat>, net: Net, i: nat)
    requires Inv(net, |seeds|) && CountData(seeds, net)
    requires Enabled(net, |seeds|, App(i)) && net.app[i].pc.WriteCount?
    ensures CountData(seeds, Next(net, |seeds|, App(i)))
  {
    hide Random, PointsInside, Sum;
    var n := |seeds|;
    var r := Next(net, n, App(i));
    assert AppAt(net, n, i) && CountAt(net, n, i);
    SumAppend(net.o[i + 1].written, net.app[i].v);
    forall j: nat | j < n ensures PointAt(seeds, r, j) { assert PointAt(seeds, net, j); }
    forall j: nat | j < n ensures ScoreAt(seeds, r, j) { assert ScoreAt(seeds, net, j); }
    forall j: nat | j < n ensures CountAt(r, n, j) {
      assert CountAt(net, n, j);
      if j == i + 1 { TakeAppend(net.o[j].written, net.app[i].v, net.o[j].taken); }
    }
    if n == i + 1 { TakeAppend(net.o[n].written, net.app[i].v, net.o[n].taken); }
  }

  lemma TakeAppend(w: seq<nat>, x: nat, k: nat)
    requires k <= |w|
    ensures (w + [x])[..k] == w[..k]
  {
  }

  lemma DummyKeepsCounts(seeds: seq<nat>, net: Net)
    requires Inv(net, |seeds|) && CountData(seeds, net) && Enabled(net, |seeds|, Dummy)
    ensures CountData(seeds, Next(net, |seeds|, Dummy))
  {
    hide Random, PointsInside, Sum;
    var n := |seeds|;
    var r := Next(net, n, Dummy);
    forall j: nat | j < n ensures PointAt(seeds, r, j) { assert PointAt(seeds, net, j); }
    forall j: nat | j < n ensures ScoreAt(seeds, r, j) { assert ScoreAt(seeds, net, j); }
    if n > 0 { assert CountAt(net, n, 0); }
    TakeAppend(net.o[0].written, 0, net.o[0].taken);
    forall j: nat | j < n ensures CountAt(r, n, j) { assert CountAt(net, n, j); }
  }

  lemma PadOutKeepsCounts(seeds: seq<nat>, net: Net)
    requires Inv(net, |seeds|) && CountData(seeds, net) && Enabled(net, |seeds|, PadOut)
    ensures CountData(seeds, Next(net, |seeds|, PadOut))
  {
    hide Random, PointsInside, Sum;
    var n := |seeds|;
    var r := Next(net, n, PadOut);
    forall j: nat | j < n ensures PointAt(seeds, r, j) { assert PointAt(seeds, net, j); }
    forall j: nat | j < n ensures ScoreAt(seeds, r, j) { assert ScoreAt(seeds, net, j); }
    forall j: nat | j < n ensures CountAt(r, n, j) { assert CountAt(net, n, j); }
  }

  /** The processes that do not touch applications, counter FIFOs or the output. */
  lemma OtherKeepsCounts(seeds: seq<nat>, net: Net, a: Action)
    requires Inv(net, |seeds|) && CountData(seeds, net) && Enabled(net, |seeds|, a)
    requires !a.App? && !a.Dummy? && !a.PadOut?
    ensures CountData(seeds, Next(net, |seeds|, a))
  {
    var n := |seeds|;
    var r := Next(net, n, a);
    assert r.app == net.app && r.o == net.o && r.padOut == net.padOut && r.output.written == net.output.written by {
      hide RandomWord;
    }
    SameCounts(seeds, net, r);
  }

  lemma SameCounts(seeds: seq<nat>, net: Net, r: Net)
    requires Shaped(net, |seeds|) && Shaped(r, |seeds|) && CountData(seeds, net)
    requires r.app == net.app && r.o == net.o && r.padOut == net.padOut && r.output.written == net.output.written
    ensures CountData(seeds, r)
  {
    hide Random, PointsInside, Sum;
    var n := |seeds|;
    forall j: nat | j < n ensures PointAt(seeds, r, j) { assert PointAt(seeds, net, j); }
    forall j: nat | j < n ensures ScoreAt(seeds, r, j) { assert ScoreAt(seeds, net, j); }
    forall j: nat | j < n ensures CountAt(r, n, j) { assert CountAt(net, n, j); }
  }

  lemma KeepsCounts(seeds: seq<nat>, net: Net, a: Action)
    requires |seeds| < WORDS
    requires Inv(net, |seeds|) && ChainData(seeds, net) && CountData(seeds, net) && Enabled(net, |seeds|, a)
    ensures CountData(seeds, Next(net, |seeds|, a))
  {
    hide CountData, ChainData, Next;
    if a.App? {
      match net.app[a.i].pc
      case ReadX => DrawKeepsCounts(seeds, net, a.i);
      case ReadY => DrawKeepsCounts(seeds, net, a.i);
      case TryCount => TryKeepsCounts(seeds, net, a.i);
      case WriteCount => SendKeepsCounts(seeds, net, a.i);
    } else if a.Dummy? {
      DummyKeepsCounts(seeds, net);
    } else if a.PadOut? {
      PadOutKeepsCounts(seeds, net);
    } else {
      OtherKeepsCounts(seeds, net, a);
    }
  }

  // ---------- runs ----------

  lemma InitData(seeds: seq<nat>)
    ensures RootData(Init(seeds), |seeds|) && ChainData(seeds, Init(seeds)) && CountData(seeds, Init(seeds))
  {
    hide Serial, Random;
    LaneSeeds();
    var net := Init(seeds);
    forall i: nat | i <= |seeds| ensures StateAt(net, i) {}
    forall i: nat | i < |seeds| ensures CountAt(net, |seeds|, i) && ScoreAt(seeds, net, i) {}
  }

  lemma {:induction false} RunKeepsFlow(seeds: seq<nat>, states: seq<Net>, acts: seq<Action>, j: nat)
    requires IsRun(seeds, states, acts) && j < |states|
    ensures Inv(states[j], |seeds|) && RootData(states[j], |seeds|) && ChainData(seeds, states[j])
  {
    RunKeeps(seeds, states, acts, j);
    if j == 0 {
      InitData(seeds);
    } else {
      RunKeepsFlow(seeds, states, acts, j - 1);
      KeepsRoot(states[j - 1], |seeds|, acts[j - 1]);
      KeepsChain(seeds, states[j - 1], acts[j - 1]);
    }
  }

  lemma {:induction false} RunKeepsCounts(seeds: seq<nat>, states: seq<Net>, acts: seq<Action>, j: nat)
    requires |seeds| < WORDS && IsRun(seeds, states, acts) && j < |states|
    ensures CountData(seeds, states[j])
  {
    if j == 0 {
      InitData(seeds);
    } else {
      RunKeepsCounts(seeds, states, acts, j - 1);
      RunKeepsFlow(seeds, states, acts, j - 1);
      KeepsCounts(seeds, states[j - 1], acts[j - 1]);
    }
  }

  /** On every schedule the merged root states are the serial LCG run. */
  lemma RootIsSerial(seeds: seq<nat>, states: seq<Net>, acts: seq<Action>, j: nat, t: nat)
    requires IsRun(seeds, states, acts) && j < |states| && t < |states[j].root.written|
    ensures states[j].root.written[t] == Serial(t)
  {
    RunKeepsFlow(seeds, states, acts, j);
  }

  /** On every schedule the words sent by instance i are a prefix of one fixed sequence: with the serial root states
      and the states of its decorrelator, word t is the next decorrelator state xor the permuted state of stream
      54 + i. */
  lemma RandomWordsAreFixed(seeds: seq<nat>, states: seq<Net>, acts: seq<Action>, j: nat, i: nat, t: nat,
                            root: nat -> nat, sg: nat -> nat)
    requires IsRun(seeds, states, acts) && j < |states| && i < |seeds| && t < |states[j].rng[i].written|
    requires root(0) == 0x185706b82c2e03f8
    requires forall k: nat :: root(k + 1) == (root(k) * 0x5851f42d4c957f2d + 0x6d) % 0x1_0000_0000_0000_0000
    requires sg(0) == seeds[i] && forall k: nat :: sg(k + 1) == Xorshift.Jump(sg(k))
    ensures states[j].rng[i].written[t]
         == Xor(sg(t + 1),
                OutputFunction((root(t) + 2 * ((54 + i) * 0x5851f42d4c957f2d) + 1) % 0x1_0000_0000_0000_0000))
  {
    hide Serial, Xorshift.Iterate, Xorshift.Jump, OutputFunction, MultiStream, Xor;
    RunKeepsFlow(seeds, states, acts, j);
    assert InstData(seeds, states[j], i);
    SerialIsUnique(root, t);
    Xorshift.RunIsUnique(seeds[i], sg, t + 1);
    StreamState(Serial(t), 54 + i);
  }

  // ---------- conservation of the counters ----------

  /** Points added to a counter by the first i applications. */
  function Scored(net: Net, i: nat): nat
    requires i <= |net.app|
  {
    if i == 0 then 0 else Scored(net, i - 1) + net.app[i - 1].scored
  }

  /** Counts still on their way to the (i + 1)-st counter FIFO: waiting in the first i FIFOs or in hand. */
  function UnderWay(net: Net, i: nat): nat
    requires i <= |net.app| && |net.o| == |net.app| + 1
    requires forall k: nat :: k < i ==> net.o[k].taken <= |net.o[k].written|
  {
    if i == 0 then 0
    else UnderWay(net, i - 1) + Sum(net.o[i - 1].written[net.o[i - 1].taken..]) + InHand(net.app[i - 1])
  }

  lemma {:induction false} ZeroSum(w: seq<nat>)
    requires SmallCounts(w, 0)
    ensures Sum(w) == 0
    decreases |w|
  {
    if w != [] { ZeroSum(w[..|w| - 1]); }
  }

  lemma SplitSum(f: Fifo<nat>)
    requires f.taken <= |f.written|
    ensures Sum(f.written) == Sum(f.written[..f.taken]) + Sum(f.written[f.taken..])
  {
    assert f.written == f.written[..f.taken] + f.written[f.taken..];
    SumConcat(f.written[..f.taken], f.written[f.taken..]);
  }

  lemma {:induction false} ChainBalance(seeds: seq<nat>, net: Net, i: nat)
    requires Inv(net, |seeds|) && CountData(seeds, net) && i <= |seeds|
    ensures forall k: nat :: k < i ==> net.o[k].taken <= |net.o[k].written|
    ensures Sum(net.o[i].written) + UnderWay(net, i) == Scored(net, i)
  {
    hide Sum, InHand;
    if i == 0 {
      assert |seeds| > 0 ==> CountAt(net, |seeds|, 0);
      ZeroSum(net.o[0].written);
    } else {
      ChainBalance(seeds, net, i - 1);
      assert CountAt(net, |seeds|, i - 1);
      SplitSum(net.o[i - 1]);
    }
  }

  lemma OutputSum(net: Net, n: nat)
    requires Shaped(net, n) && OutputData(net, n)
    ensures Sum(net.output.written) + (if net.padOut.Some? then net.padOut.value else 0)
         == Sum(net.o[n].written[..net.o[n].taken])
  {
    hide Sum;
    if net.padOut.Some? {
      SumAppend(net.output.written, net.padOut.value);
    } else {
      assert net.output.written == net.o[n].written[..net.o[n].taken];
    }
  }

  /** Conservation: on every schedule, what has left the network plus what is still inside is what
      the applications scored. */
  lemma CountsAreConserved(seeds: seq<nat>, states: seq<Net>, acts: seq<Action>, j: nat)
    requires |seeds| < WORDS && IsRun(seeds, states, acts) && j < |states|
    ensures forall k: nat :: k < |seeds| ==> states[j].o[k].taken <= |states[j].o[k].written|
    ensures states[j].o[|seeds|].taken <= |states[j].o[|seeds|].written|
    ensures Sum(states[j].output.written)
          + (if states[j].padOut.Some? then states[j].padOut.value else 0)
          + Sum(states[j].o[|seeds|].written[states[j].o[|seeds|].taken..])
          + UnderWay(states[j], |seeds|)
         == Scored(states[j], |seeds|)
  {
    hide Sum, UnderWay, Scored, IsRun;
    RunKeeps(seeds, states, acts, j);
    RunKeepsCounts(seeds, states, acts, j);
    ChainBalance(seeds, states[j], |seeds|);
    SplitSum(states[j].o[|seeds|]);
    OutputSum(states[j], |seeds|);
  }

  /** Points inside among all tries of the first i applications. */
  function Found(seeds: seq<nat>, net: Net, i: nat): nat
    requires |net.app| == |seeds| && |net.o| == |seeds| + 1 && i <= |seeds|
  {
    if i == 0 then 0
    else Found(seeds, net, i - 1) + PointsInside(seeds, i - 1, Tries(net.app[i - 1], |net.o[i].written|))
  }

  lemma {:induction false} ScoredOrMissed(seeds: seq<nat>, net: Net, i: nat)
    requires Inv(net, |seeds|) && CountData(seeds, net) && 0 < i <= |seeds|
    ensures Scored(net, i) <= Found(seeds, net, i) <= Scored(net, i) + Misses(net, |seeds|, 0) + 3 * (i - 1)
  {
    hide PointsInside;
    var k := i - 1;
    assert ScoreAt(seeds, net, k) && FewMisses(net, |seeds|, k);
    if k > 0 { ScoredOrMissed(seeds, net, k); }
  }

  /** On every schedule the total scored by a chain of n applications misses the true number of points
      inside by at most 3 * (n - 1), plus the tries at which the first application was not fed. */
  lemma TotalIsAccurate(seeds: seq<nat>, states: seq<Net>, acts: seq<Action>, j: nat)
    requires 0 < |seeds| < WORDS && IsRun(seeds, states, acts) && j < |states|
    ensures var n, net := |seeds|, states[j];
            Scored(net, n) <= Found(seeds, net, n) <= Scored(net, n) + Misses(net, n, 0) + 3 * (n - 1)
  {
    hide Scored, Found;
    RunKeeps(seeds, states, acts, j);
    RunKeepsCounts(seeds, states, acts, j);
    ScoredOrMissed(seeds, states[j], |seeds|);
  }
}
