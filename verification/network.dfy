/** The free-running dataflow network of misc/estpi/ssrng.cpp as a transition system.
    Every process is a sequential loop that performs one FIFO operation per step; an arbitrary
    scheduler picks the next process. The chain length is a parameter: one instance and one
    application per decorrelator seed (64 in the repository). */
module Network {
  import opened Bits
  import opened Counting
  import opened Fifos
  import opened Lcg
  import opened Leapfrog
  import opened Permutation
  import Xorshift

  // FIFO depths of the stream pragmas.
  const LANE_DEPTH: nat := 4
  const ROOT_DEPTH: nat := 16
  const STATE_DEPTH: nat := 2
  const COUNT_DEPTH: nat := 2
  const RANDOM_DEPTH: nat := 4
  const OUTPUT_DEPTH: nat := 4

  const LANES: nat := 9
  const FIRST_STREAM: nat := 54

  datatype Option<T> = None | Some(value: T)

  /** state_transition_merge: pc < 9 reads lane pc into v[pc], pc >= 9 writes v[pc - 9]; round counts finished loops. */
  datatype Merge = Merge(pc: nat, v: seq<nat>, round: nat)

  datatype InstancePc = ReadState | ForwardState | WriteRandom

  /** rng_instance: the packet in hand and the xorshift state sg_state. */
  datatype Instance = Instance(pc: InstancePc, pkt: nat, sg: nat)

  datatype ApplicationPc = ReadX | ReadY | TryCount | WriteCount

  /** application: the two squares, the counter to send, and (history only) how many points it has
      added to a counter it received. */
  datatype Application = Application(pc: ApplicationPc, x: nat, y: nat, v: nat, scored: nat)

  datatype Net = Net(
    lanes: seq<nat>,
    stf: seq<Fifo<nat>>,
    merge: Merge,
    root: Fifo<nat>,
    padIn: Option<nat>,
    s: seq<Fifo<nat>>,
    inst: seq<Instance>,
    rng: seq<Fifo<nat>>,
    app: seq<Application>,
    o: seq<Fifo<nat>>,
    padOut: Option<nat>,
    output: Fifo<nat>)

  ghost predicate Shaped(net: Net, n: nat) {
    && |net.lanes| == |net.stf| == LANES
    && |net.merge.v| == LANES && net.merge.pc < 2 * LANES
    && |net.inst| == |net.app| == |net.rng| == n
    && |net.s| == |net.o| == n + 1
  }

  function Init(seeds: seq<nat>): Net {
    Net(NINE.seeds,
        seq(LANES, k => NO_DATA),
        Merge(0, seq(LANES, k => 0), 0),
        NO_DATA,
        None,
        seq(|seeds| + 1, i => NO_DATA),
        seq(|seeds|, i requires 0 <= i < |seeds| => Instance(ReadState, 0, seeds[i])),
        seq(|seeds|, i => NO_DATA),
        seq(|seeds|, i => Application(ReadX, 0, 0, 0, 0)),
        seq(|seeds| + 1, i => NO_DATA),
        None,
        NO_DATA)
  }

  /** Who moves next. Sink reads the last state FIFO, Dummy feeds zero counters to the first
      application, Drain is the reader of the kernel's output. */
  datatype Action =
    | Stage(k: nat)
    | MergeLanes
    | PadIn
    | Inst(i: nat)
    | App(i: nat)
    | Sink
    | Dummy
    | PadOut
    | Drain

  /** The process can perform its next FIFO operation without blocking. */
  ghost predicate Enabled(net: Net, n: nat, a: Action)
    requires Shaped(net, n)
  {
    match a
    case Stage(k) => k < LANES && !net.stf[k].Full(LANE_DEPTH)
    case MergeLanes =>
      if net.merge.pc < LANES then !net.stf[net.merge.pc].Empty() else !net.root.Full(ROOT_DEPTH)
    case PadIn => if net.padIn.None? then !net.root.Empty() else !net.s[0].Full(STATE_DEPTH)
    case Inst(i) => i < n && InstEnabled(net.inst[i], net.s[i], net.s[i + 1], net.rng[i])
    case App(i) => i < n && AppEnabled(net.app[i], net.rng[i], net.o[i + 1])
    case Sink => !net.s[n].Empty()
    case Dummy => !net.o[0].Full(COUNT_DEPTH)
    case PadOut => if net.padOut.None? then !net.o[n].Empty() else !net.output.Full(OUTPUT_DEPTH)
    case Drain => !net.output.Empty()
  }

  predicate InstEnabled(p: Instance, sIn: Fifo<nat>, sOut: Fifo<nat>, rng: Fifo<nat>) {
    match p.pc
    case ReadState => !sIn.Empty()
    case ForwardState => !sOut.Full(STATE_DEPTH)
    case WriteRandom => !rng.Full(RANDOM_DEPTH)
  }

  /** TryCount is always enabled: the read of the counter FIFO is non-blocking. */
  predicate AppEnabled(p: Application, rng: Fifo<nat>, oOut: Fifo<nat>) {
    match p.pc
    case ReadX => !rng.Empty()
    case ReadY => !rng.Empty()
    case TryCount => true
    case WriteCount => !oOut.Full(COUNT_DEPTH)
  }

  /** The word that instance i sends for root state pkt when its decorrelator is at sg. */
  function RandomWord(i: nat, pkt: nat, sg: nat): nat {
    Xor(sg, OutputFunction(MultiStream(pkt, FIRST_STREAM + i)))
  }

  /** Bits 65..64 of the 66-bit sum of the squares are zero. */
  predicate Inside(x: nat, y: nat) {
    Low(Shr(x + y, 64), 2) == 0
  }

  /** That test is exact: the point (x, y) lies in the quarter circle of radius 2^32. */
  lemma InsideIsQuarterCircle(x: nat, y: nat)
    requires x < WORDS && y < WORDS
    ensures Inside(x * x, y * y) <==> x * x + y * y < WORDS * WORDS
  {
    hide Low, Shr, Pow2;
    SquareBound(x);
    SquareBound(y);
    Pow2At64();
    var sum := x * x + y * y;
    SplitAt(sum, 64);
    QuotientAt(Shr(sum, 64), Low(sum, 64), sum);
    assert Pow2(2) == 4 by { FourIsPow2(); }
    LowSmall(Shr(sum, 64), 2);
  }

  lemma SquareBound(x: nat)
    requires x < WORDS
    ensures x * x < WORDS * WORDS
  {
    TimesMonotone(x, x, WORDS - 1);
    TimesMonotone(WORDS - 1, x, WORDS - 1);
  }

  lemma FourIsPow2()
    ensures Pow2(2) == 4
  {
  }

  lemma QuotientAt(q: nat, r: nat, n: nat)
    requires n == q * MODULUS + r && r < MODULUS && n < 2 * MODULUS
    ensures q < 4 && (q == 0 <==> n < MODULUS)
  {
  }

  function StageStep(net: Net, k: nat): Net
    requires k < |net.lanes| && k < |net.stf|
  {
    net.(lanes := net.lanes[k := Step(NINE.a, NINE.inc, net.lanes[k])],
         stf := net.stf[k := net.stf[k].Write(net.lanes[k])])
  }

  function MergeStep(net: Net): Net
    requires |net.stf| == |net.merge.v| == LANES && net.merge.pc < 2 * LANES
    requires net.merge.pc < LANES ==> !net.stf[net.merge.pc].Empty()
  {
    var m := net.merge;
    if m.pc < LANES then
      net.(stf := net.stf[m.pc := net.stf[m.pc].Read()],
           merge := m.(pc := m.pc + 1, v := m.v[m.pc := net.stf[m.pc].Head()]))
    else
      net.(root := net.root.Write(m.v[m.pc - LANES]),
           merge := if m.pc + 1 < 2 * LANES then m.(pc := m.pc + 1) else m.(pc := 0, round := m.round + 1))
  }

  function PadInStep(net: Net): Net
    requires |net.s| > 0
    requires net.padIn.None? ==> !net.root.Empty()
  {
    match net.padIn
    case None => net.(root := net.root.Read(), padIn := Some(net.root.Head()))
    case Some(v) => net.(s := net.s[0 := net.s[0].Write(v)], padIn := None)
  }

  function InstStep(net: Net, i: nat): Net
    requires i < |net.inst| && i + 1 < |net.s| && i < |net.rng|
    requires net.inst[i].pc.ReadState? ==> !net.s[i].Empty()
  {
    var p := net.inst[i];
    match p.pc
    case ReadState =>
      net.(s := net.s[i := net.s[i].Read()],
           inst := net.inst[i := p.(pc := ForwardState, pkt := net.s[i].Head())])
    case ForwardState =>
      net.(s := net.s[i + 1 := net.s[i + 1].Write(p.pkt)],
           inst := net.inst[i := p.(pc := WriteRandom)])
    case WriteRandom =>
      var sg := Xorshift.Jump(p.sg);
      net.(rng := net.rng[i := net.rng[i].Write(RandomWord(i, p.pkt, sg))],
           inst := net.inst[i := p.(pc := ReadState, sg := sg)])
  }

  function AppStep(net: Net, i: nat): Net
    requires i < |net.app| && i < |net.rng| && i + 1 < |net.o|
    requires net.app[i].pc.ReadX? || net.app[i].pc.ReadY? ==> !net.rng[i].Empty()
  {
    var p := net.app[i];
    match p.pc
    case ReadX =>
      net.(rng := net.rng[i := net.rng[i].Read()],
           app := net.app[i := p.(pc := ReadY, x := net.rng[i].Head() * net.rng[i].Head())])
    case ReadY =>
      net.(rng := net.rng[i := net.rng[i].Read()],
           app := net.app[i := p.(pc := TryCount, y := net.rng[i].Head() * net.rng[i].Head())])
    case TryCount =>
      if net.o[i].Empty() then
        net.(app := net.app[i := p.(pc := WriteCount, v := 0)])
      else
        var c := net.o[i].Head();
        net.(o := net.o[i := net.o[i].Read()],
             app := net.app[i := if Inside(p.x, p.y)
                                 then p.(pc := WriteCount, v := (c + 1) % WORDS, scored := p.scored + 1)
                                 else p.(pc := WriteCount, v := c)])
    case WriteCount =>
      net.(o := net.o[i + 1 := net.o[i + 1].Write(p.v)],
           app := net.app[i := p.(pc := ReadX)])
  }

  function PadOutStep(net: Net): Net
    requires |net.o| > 0
    requires net.padOut.None? ==> !net.o[|net.o| - 1].Empty()
  {
    var n := |net.o| - 1;
    match net.padOut
    case None => net.(o := net.o[n := net.o[n].Read()], padOut := Some(net.o[n].Head()))
    case Some(v) => net.(output := net.output.Write(v), padOut := None)
  }

  ghost function Next(net: Net, n: nat, a: Action): (r: Net)
    requires Shaped(net, n) && Enabled(net, n, a)
    ensures Shaped(r, n)
  {
    match a
    case Stage(k) => StageStep(net, k)
    case MergeLanes => MergeStep(net)
    case PadIn => PadInStep(net)
    case Inst(i) => InstStep(net, i)
    case App(i) => AppStep(net, i)
    case Sink => net.(s := net.s[n := net.s[n].Read()])
    case Dummy => net.(o := net.o[0 := net.o[0].Write(0)])
    case PadOut => PadOutStep(net)
    case Drain => net.(output := net.output.Read())
  }

  /** A finite run under some scheduler: states[j] steps to states[j + 1] by acts[j]. */
  ghost predicate IsRun(seeds: seq<nat>, states: seq<Net>, acts: seq<Action>) {
    && |states| == |acts| + 1
    && states[0] == Init(seeds)
    && (forall j :: 0 <= j < |states| ==> Shaped(states[j], |seeds|))
    && (forall j :: 0 <= j < |acts| ==>
          Enabled(states[j], |seeds|, acts[j]) && states[j + 1] == Next(states[j], |seeds|, acts[j]))
  }
}
