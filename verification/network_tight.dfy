/** The bound on misses is attained: in a chain of any length each application can miss its counter three times. */
module NetworkTight {
  import opened Network
  import opened NetworkCounts

  // ---------- reachable states ----------

  ghost predicate EndsIn(seeds: seq<nat>, states: seq<Net>, acts: seq<Action>, net: Net) {
    IsRun(seeds, states, acts) && states[|acts|] == net
  }

  ghost predicate Reachable(seeds: seq<nat>, net: Net) {
    exists states: seq<Net>, acts: seq<Action> :: EndsIn(seeds, states, acts, net)
  }

  lemma InitReachable(seeds: seq<nat>)
    ensures Reachable(seeds, Init(seeds))
  {
    assert EndsIn(seeds, [Init(seeds)], [], Init(seeds));
  }

  lemma StepReachable(seeds: seq<nat>, net: Net, a: Action)
    requires Reachable(seeds, net) && Shaped(net, |seeds|) && Enabled(net, |seeds|, a)
    ensures Reachable(seeds, Next(net, |seeds|, a))
  {
    hide Enabled, Next, Init, Shaped;
    var states: seq<Net>, acts: seq<Action> :| EndsIn(seeds, states, acts, net);
    var r := Next(net, |seeds|, a);
    assert Shaped(r, |seeds|);
    assert EndsIn(seeds, states + [r], acts + [a], r);
  }

  // ---------- how far each process is ----------

  /** Progress of instance and application j: states read and forwarded, words sent and read, counters read and sent. */
  datatype Cell = Cell(
    received: nat, forwarded: nat, inst: InstancePc,
    sent: nat, drawn: nat, app: ApplicationPc,
    fed: nat, counted: nat)

  ghost predicate CellAt(net: Net, n: nat, j: nat, c: Cell)
    requires Shaped(net, n) && j < n
  {
    && net.s[j].taken == c.received && |net.s[j + 1].written| == c.forwarded && net.inst[j].pc == c.inst
    && |net.rng[j].written| == c.sent && net.rng[j].taken == c.drawn && net.app[j].pc == c.app
    && net.o[j].taken == c.fed && |net.o[j + 1].written| == c.counted
  }

  /** The chain has been given source states, its end has drained some, and no counter has left or entered it. */
  ghost predicate ChainAt(net: Net, n: nat, source: nat, cells: seq<Cell>, drained: nat) {
    && Shaped(net, n) && |cells| == n
    && |net.s[0].written| == source && net.s[n].taken == drained
    && |net.o[0].written| == 0 && net.o[n].taken == 0
    && forall j: nat :: j < n ==> CellAt(net, n, j, cells[j])
  }

  /** The merge has t states of its first round behind it and all have been passed on. */
  ghost predicate SourceAt(net: Net, t: nat) {
    net.merge.pc == LANES + t && |net.root.written| == net.root.taken == t && net.padIn.None?
  }

  function Available(source: nat, cells: seq<Cell>, j: nat): nat
    requires j < |cells|
  {
    if j == 0 then source else cells[j - 1].forwarded
  }

  function TakenAfter(cells: seq<Cell>, drained: nat, j: nat): nat
    requires j < |cells|
  {
    if j + 1 < |cells| then cells[j + 1].received else drained
  }

  predicate InstCan(source: nat, cells: seq<Cell>, drained: nat, j: nat) {
    && j < |cells|
    && match cells[j].inst
       case ReadState => cells[j].received < Available(source, cells, j)
       case ForwardState => cells[j].forwarded < TakenAfter(cells, drained, j) + STATE_DEPTH
       case WriteRandom => cells[j].sent < cells[j].drawn + RANDOM_DEPTH
  }

  function InstDone(c: Cell): Cell {
    match c.inst
    case ReadState => c.(received := c.received + 1, inst := ForwardState)
    case ForwardState => c.(forwarded := c.forwarded + 1, inst := WriteRandom)
    case WriteRandom => c.(sent := c.sent + 1, inst := ReadState)
  }

  lemma DoInst(seeds: seq<nat>, net: Net, source: nat, cells: seq<Cell>, drained: nat, j: nat) returns (r: Net)
    requires Reachable(seeds, net) && ChainAt(net, |seeds|, source, cells, drained)
    requires InstCan(source, cells, drained, j)
    ensures Reachable(seeds, r) && ChainAt(r, |seeds|, source, cells[j := InstDone(cells[j])], drained)
    ensures r.merge == net.merge && r.root == net.root && r.padIn == net.padIn
  {
    hide Reachable, RandomWord;
    var n := |seeds|;
    assert CellAt(net, n, j, cells[j]);
    if j > 0 { assert CellAt(net, n, j - 1, cells[j - 1]); }
    if j + 1 < n { assert CellAt(net, n, j + 1, cells[j + 1]); }
    StepReachable(seeds, net, Inst(j));
    r := Next(net, n, Inst(j));
    var after := cells[j := InstDone(cells[j])];
    forall k: nat | k < n ensures CellAt(r, n, k, after[k]) { assert CellAt(net, n, k, cells[k]); }
  }

  /** No counter is fed, so every try misses. */
  predicate AppCan(cells: seq<Cell>, j: nat) {
    && j < |cells|
    && match cells[j].app
       case ReadX => cells[j].drawn < cells[j].sent
       case ReadY => cells[j].drawn < cells[j].sent
       case TryCount => cells[j].fed == 0 && (j > 0 ==> cells[j - 1].counted == 0)
       case WriteCount => cells[j].counted < COUNT_DEPTH && (j + 1 < |cells| ==> cells[j + 1].fed == 0)
  }

  function AppDone(c: Cell): Cell {
    match c.app
    case ReadX => c.(drawn := c.drawn + 1, app := ReadY)
    case ReadY => c.(drawn := c.drawn + 1, app := TryCount)
    case TryCount => c.(app := WriteCount)
    case WriteCount => c.(counted := c.counted + 1, app := ReadX)
  }

  lemma DoApp(seeds: seq<nat>, net: Net, source: nat, cells: seq<Cell>, drained: nat, j: nat) returns (r: Net)
    requires Reachable(seeds, net) && ChainAt(net, |seeds|, source, cells, drained) && AppCan(cells, j)
    ensures Reachable(seeds, r) && ChainAt(r, |seeds|, source, cells[j := AppDone(cells[j])], drained)
    ensures r.merge == net.merge && r.root == net.root && r.padIn == net.padIn
  {
    hide Reachable, Inside;
    var n := |seeds|;
    assert CellAt(net, n, j, cells[j]);
    if j > 0 { assert CellAt(net, n, j - 1, cells[j - 1]); }
    if j + 1 < n { assert CellAt(net, n, j + 1, cells[j + 1]); }
    StepReachable(seeds, net, App(j));
    r := Next(net, n, App(j));
    var after := cells[j := AppDone(cells[j])];
    forall k: nat | k < n ensures CellAt(r, n, k, after[k]) { assert CellAt(net, n, k, cells[k]); }
  }

  lemma DoSink(seeds: seq<nat>, net: Net, source: nat, cells: seq<Cell>, drained: nat) returns (r: Net)
    requires Reachable(seeds, net) && ChainAt(net, |seeds|, source, cells, drained)
    requires |seeds| > 0 && drained < cells[|seeds| - 1].forwarded
    ensures Reachable(seeds, r) && ChainAt(r, |seeds|, source, cells, drained + 1)
    ensures r.merge == net.merge && r.root == net.root && r.padIn == net.padIn
  {
    hide Reachable;
    var n := |seeds|;
    assert CellAt(net, n, n - 1, cells[n - 1]);
    StepReachable(seeds, net, Sink);
    r := Next(net, n, Sink);
    forall k: nat | k < n ensures CellAt(r, n, k, cells[k]) { assert CellAt(net, n, k, cells[k]); }
  }

  /** One root state leaves the merge, passes the root FIFO and enters the chain. */
  lemma DoSource(seeds: seq<nat>, net: Net, t: nat, cells: seq<Cell>, drained: nat) returns (r: Net)
    requires Reachable(seeds, net) && ChainAt(net, |seeds|, t, cells, drained) && SourceAt(net, t)
    requires |seeds| > 0 && cells[0].received == t && t + 1 < LANES
    ensures Reachable(seeds, r) && ChainAt(r, |seeds|, t + 1, cells, drained) && SourceAt(r, t + 1)
  {
    hide Reachable;
    var n := |seeds|;
    assert CellAt(net, n, 0, cells[0]);
    StepReachable(seeds, net, MergeLanes);
    var a := Next(net, n, MergeLanes);
    StepReachable(seeds, a, PadIn);
    var b := Next(a, n, PadIn);
    StepReachable(seeds, b, PadIn);
    r := Next(b, n, PadIn);
    forall k: nat | k < n ensures CellAt(r, n, k, cells[k]) { assert CellAt(net, n, k, cells[k]); }
  }

  // ---------- the lanes fill and the merge reads them ----------

  ghost predicate Fresh(net: Net, n: nat) {
    ChainAt(net, n, 0, seq(n, j => Other(0)), 0) && |net.root.written| == net.root.taken == 0 && net.padIn.None?
  }

  lemma FillLanes(seeds: seq<nat>, k: nat) returns (r: Net)
    requires k <= LANES
    ensures Reachable(seeds, r) && Fresh(r, |seeds|) && r.merge.pc == 0
    ensures forall j: nat :: j < LANES ==> |r.stf[j].written| == (if j < k then 1 else 0) && r.stf[j].taken == 0
    decreases k
  {
    hide Reachable;
    var n := |seeds|;
    if k == 0 {
      InitReachable(seeds);
      r := Init(seeds);
      forall j: nat | j < n ensures CellAt(r, n, j, Other(0)) {}
    } else {
      var net := FillLanes(seeds, k - 1);
      StepReachable(seeds, net, Stage(k - 1));
      r := Next(net, n, Stage(k - 1));
      SameChain(net, r, n);
    }
  }

  lemma SameChain(net: Net, r: Net, n: nat)
    requires Fresh(net, n) && Shaped(r, n)
    requires r.s == net.s && r.inst == net.inst && r.rng == net.rng && r.app == net.app && r.o == net.o
    requires r.root == net.root && r.padIn == net.padIn
    ensures Fresh(r, n)
  {
    var cells := seq(n, j => Other(0));
    forall j: nat | j < n ensures CellAt(r, n, j, cells[j]) { assert CellAt(net, n, j, cells[j]); }
  }

  lemma ReadLanes(seeds: seq<nat>, k: nat) returns (r: Net)
    requires k <= LANES
    ensures Reachable(seeds, r) && Fresh(r, |seeds|) && r.merge.pc == k
    ensures forall j: nat :: k <= j < LANES ==> |r.stf[j].written| == 1 && r.stf[j].taken == 0
    decreases k
  {
    hide Reachable;
    var n := |seeds|;
    if k == 0 {
      r := FillLanes(seeds, LANES);
    } else {
      var net := ReadLanes(seeds, k - 1);
      StepReachable(seeds, net, MergeLanes);
      r := Next(net, n, MergeLanes);
      SameChain(net, r, n);
    }
  }

  // ---------- the schedule ----------

  /** After t states, an instance whose application reads one word and then rests: the sixth word finds the FIFO
      full. */
  function Other(t: nat): Cell {
    Cell(t, t, if t == 6 then WriteRandom else ReadState,
         if t < 5 then t else 5, if t > 0 then 1 else 0, if t > 0 then ReadY else ReadX, 0, 0)
  }

  /** And the one whose application reads every word and tries after each two; its third counter stays in hand. */
  function Missing(t: nat): Cell {
    Cell(t, t, ReadState, t, t,
         if t == 6 then WriteCount else if t % 2 == 0 then ReadX else ReadY, 0, if t == 6 then 2 else t / 2)
  }

  function After(i: nat, j: nat, t: nat): Cell {
    if j == i then Missing(t) else Other(t)
  }

  /** The first k instances have dealt with t + 1 states, the others with t. */
  function Cells(n: nat, i: nat, t: nat, k: nat): (c: seq<Cell>)
    ensures |c| == n && forall j: nat :: j < n ==> c[j] == After(i, j, if j < k then t + 1 else t)
  {
    seq(n, j requires 0 <= j < n => After(i, j, if j < k then t + 1 else t))
  }

  /** Instance k deals with state t. */
  lemma OneCell(seeds: seq<nat>, net: Net, i: nat, t: nat, k: nat) returns (r: Net)
    requires Reachable(seeds, net) && ChainAt(net, |seeds|, t + 1, Cells(|seeds|, i, t, k), t) && SourceAt(net, t + 1)
    requires i < |seeds| && k < |seeds| && t < 6
    ensures Reachable(seeds, r) && ChainAt(r, |seeds|, t + 1, Cells(|seeds|, i, t, k + 1), t) && SourceAt(r, t + 1)
  {
    hide Reachable, ChainAt;
    var cells := Cells(|seeds|, i, t, k);
    r := DoInst(seeds, net, t + 1, cells, t, k);
    var c := InstDone(cells[k]);
    r := DoInst(seeds, r, t + 1, cells[k := c], t, k);
    c := InstDone(c);
    assert cells[k := InstDone(cells[k])][k := c] == cells[k := c];
    if k == i || t < 5 {
      var before := cells[k := c];
      r := DoInst(seeds, r, t + 1, before, t, k);
      c := InstDone(c);
      assert before[k := c] == cells[k := c];
    }
    r := Reads(seeds, r, i, t, k, c, cells);
    assert cells[k := After(i, k, t + 1)] == Cells(|seeds|, i, t, k + 1);
  }

  /** What its application then does. */
  lemma Reads(seeds: seq<nat>, net: Net, i: nat, t: nat, k: nat, c: Cell, cells: seq<Cell>) returns (r: Net)
    requires i < |seeds| && k < |seeds| && t < 6 && cells == Cells(|seeds|, i, t, k)
    requires c == After(i, k, t + 1).(drawn := cells[k].drawn, app := cells[k].app, counted := cells[k].counted)
    requires Reachable(seeds, net) && ChainAt(net, |seeds|, t + 1, cells[k := c], t) && SourceAt(net, t + 1)
    ensures Reachable(seeds, r) && ChainAt(r, |seeds|, t + 1, cells[k := After(i, k, t + 1)], t) && SourceAt(r, t + 1)
  {
    hide Reachable, ChainAt;
    r := net;
    var d := c;
    if k == i || t == 0 {
      r := DoApp(seeds, r, t + 1, cells[k := d], t, k);
      assert cells[k := d][k := AppDone(d)] == cells[k := AppDone(d)];
      d := AppDone(d);
    }
    if k == i && t % 2 == 1 {
      r := DoApp(seeds, r, t + 1, cells[k := d], t, k);
      assert cells[k := d][k := AppDone(d)] == cells[k := AppDone(d)];
      d := AppDone(d);
      if t < 5 {
        r := DoApp(seeds, r, t + 1, cells[k := d], t, k);
        assert cells[k := d][k := AppDone(d)] == cells[k := AppDone(d)];
        d := AppDone(d);
      }
    }
    assert d == After(i, k, t + 1);
  }

  lemma AllCells(seeds: seq<nat>, net: Net, i: nat, t: nat, k: nat) returns (r: Net)
    requires Reachable(seeds, net) && ChainAt(net, |seeds|, t + 1, Cells(|seeds|, i, t, 0), t) && SourceAt(net, t + 1)
    requires i < |seeds| && k <= |seeds| && t < 6
    ensures Reachable(seeds, r) && ChainAt(r, |seeds|, t + 1, Cells(|seeds|, i, t, k), t) && SourceAt(r, t + 1)
    decreases k
  {
    hide *;
    if k == 0 {
      r := net;
    } else {
      r := AllCells(seeds, net, i, t, k - 1);
      r := OneCell(seeds, r, i, t, k - 1);
    }
  }

  lemma Rounds(seeds: seq<nat>, i: nat, t: nat) returns (r: Net)
    requires i < |seeds| && t <= 6
    ensures Reachable(seeds, r) && ChainAt(r, |seeds|, t, Cells(|seeds|, i, t, 0), t) && SourceAt(r, t)
    decreases t
  {
    hide Reachable, ChainAt;
    var n := |seeds|;
    if t == 0 {
      r := ReadLanes(seeds, LANES);
      assert seq(n, j => Other(0)) == Cells(n, i, 0, 0);
    } else {
      r := Rounds(seeds, i, t - 1);
      r := DoSource(seeds, r, t - 1, Cells(n, i, t - 1, 0), t - 1);
      r := AllCells(seeds, r, i, t - 1, n);
      r := DoSink(seeds, r, t, Cells(n, i, t - 1, n), t - 1);
      assert Cells(n, i, t - 1, n) == Cells(n, i, t, 0);
    }
  }

  /** In a chain of any length some run lets application i miss three times: six states reach its instance while the
      application before it has read a single word. */
  lemma ThreeMissesHappen(seeds: seq<nat>, i: nat)
    requires i < |seeds|
    ensures exists states: seq<Net>, acts: seq<Action> ::
      IsRun(seeds, states, acts)
      && var misses := set k: nat | k < |acts| && acts[k] == App(i) && states[k].app[i].pc.TryCount?
                                    && states[k].o[i].taken >= |states[k].o[i].written|;
         |misses| == 3
  {
    var net := Rounds(seeds, i, 6);
    assert CellAt(net, |seeds|, i, Cells(|seeds|, i, 6, 0)[i]);
    var states: seq<Net>, acts: seq<Action> :| EndsIn(seeds, states, acts, net);
    MissesCounted(seeds, states, acts, |acts|, i);
  }
}
