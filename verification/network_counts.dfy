/** How far the processes of the network can run ahead of each other, on every schedule, and why the
    network cannot deadlock. */
module NetworkCounts {
  import opened Network

  // ---------- the counting invariant ----------

  /** Instance: states read, states forwarded, random words sent. */
  predicate InstCounts(p: Instance, received: nat, forwarded: nat, sent: nat) {
    && received == forwarded + (if p.pc.ForwardState? then 1 else 0)
    && forwarded == sent + (if p.pc.WriteRandom? then 1 else 0)
  }

  /** How often the application has tried the counter FIFO, from the counters it has sent. */
  function Tries(p: Application, sent: nat): nat {
    sent + if p.pc.WriteCount? then 1 else 0
  }

  /** Application: random words read, counters received, counters sent. */
  predicate AppCounts(p: Application, drawn: nat, received: nat, sent: nat) {
    && drawn == 2 * sent + (match p.pc case ReadX => 0 case ReadY => 1 case TryCount => 2 case WriteCount => 2)
    && received <= Tries(p, sent)
  }

  const MISSES: nat := 3

  ghost predicate InstAt(net: Net, n: nat, i: nat)
    requires Shaped(net, n) && i < n
  {
    && net.s[i].Within(STATE_DEPTH)
    && net.rng[i].Within(RANDOM_DEPTH)
    && InstCounts(net.inst[i], net.s[i].taken, |net.s[i + 1].written|, |net.rng[i].written|)
  }

  ghost predicate AppAt(net: Net, n: nat, i: nat)
    requires Shaped(net, n) && i < n
  {
    && net.o[i].Within(COUNT_DEPTH)
    && AppCounts(net.app[i], net.rng[i].taken, net.o[i].taken, |net.o[i + 1].written|)
  }

  /** Tries that found the counter FIFO empty. */
  function Misses(net: Net, n: nat, i: nat): int
    requires |net.app| == n && |net.o| == n + 1 && i < n
  {
    Tries(net.app[i], |net.o[i + 1].written|) - net.o[i].taken
  }

  ghost predicate FewMisses(net: Net, n: nat, i: nat)
    requires Shaped(net, n) && i < n
  {
    i > 0 ==> Misses(net, n, i) <= MISSES
  }

  ghost predicate Ends(net: Net, n: nat)
    requires Shaped(net, n)
  {
    && (forall k: nat :: k < LANES ==> net.stf[k].Within(LANE_DEPTH))
    && net.root.Within(ROOT_DEPTH)
    && net.s[n].Within(STATE_DEPTH)
    && net.o[n].Within(COUNT_DEPTH)
    && net.output.Within(OUTPUT_DEPTH)
  }

  ghost predicate Inv(net: Net, n: nat) {
    && Shaped(net, n)
    && Ends(net, n)
    && (forall i: nat :: i < n ==> InstAt(net, n, i))
    && (forall i: nat :: i < n ==> AppAt(net, n, i))
    && (forall i: nat :: i < n ==> FewMisses(net, n, i))
  }

  // ---------- it holds on every run ----------

  lemma InitInv(seeds: seq<nat>)
    ensures Inv(Init(seeds), |seeds|)
  {
  }

  /** The tries of an application, the one it is about to make included, exceed the counters its predecessor
      has sent by at most three: the words they need were drawn from root states the predecessor had
      already forwarded, at most five words before. */
  lemma TriesFollowPredecessor(net: Net, n: nat, i: nat)
    requires Inv(net, n) && 0 < i < n
    ensures Tries(net.app[i], |net.o[i + 1].written|) + (if net.app[i].pc.TryCount? then 1 else 0)
         <= |net.o[i].written| + MISSES
  {
    assert InstAt(net, n, i) && InstAt(net, n, i - 1);
    assert AppAt(net, n, i) && AppAt(net, n, i - 1);
    var before := i - 1;
    assert |net.rng[i].written| <= |net.s[i].written|;
    assert |net.s[before + 1].written| <= |net.rng[before].written| + 1;
  }

  lemma InstKeeps(net: Net, n: nat, i: nat)
    requires Inv(net, n) && Enabled(net, n, Inst(i))
    ensures Inv(Next(net, n, Inst(i)), n)
  {
    var r := Next(net, n, Inst(i));
    assert InstAt(net, n, i);
    forall j: nat | j < n ensures InstAt(r, n, j) {
      assert InstAt(net, n, j);
    }
    forall j: nat | j < n ensures AppAt(r, n, j) && FewMisses(r, n, j) {
      assert AppAt(net, n, j) && FewMisses(net, n, j);
    }
  }

  lemma DrawKeeps(net: Net, n: nat, i: nat)
    requires Inv(net, n) && Enabled(net, n, App(i)) && (net.app[i].pc.ReadX? || net.app[i].pc.ReadY?)
    ensures Inv(Next(net, n, App(i)), n)
  {
    var r := Next(net, n, App(i));
    assert AppAt(net, n, i) && InstAt(net, n, i);
    forall j: nat | j < n ensures InstAt(r, n, j) {
      assert InstAt(net, n, j);
    }
    forall j: nat | j < n ensures AppAt(r, n, j) && FewMisses(r, n, j) {
      assert AppAt(net, n, j) && FewMisses(net, n, j);
    }
  }

  lemma TryKeeps(net: Net, n: nat, i: nat)
    requires Inv(net, n) && Enabled(net, n, App(i)) && net.app[i].pc.TryCount?
    ensures Inv(Next(net, n, App(i)), n)
  {
    hide Inside;
    var r := Next(net, n, App(i));
    assert AppAt(net, n, i);
    if i > 0 { TriesFollowPredecessor(net, n, i); }
    forall j: nat | j < n ensures InstAt(r, n, j) {
      assert InstAt(net, n, j);
    }
    forall j: nat | j < n ensures AppAt(r, n, j) && FewMisses(r, n, j) {
      assert AppAt(net, n, j) && FewMisses(net, n, j);
    }
  }

  lemma SendKeeps(net: Net, n: nat, i: nat)
    requires Inv(net, n) && Enabled(net, n, App(i)) && net.app[i].pc.WriteCount?
    ensures Inv(Next(net, n, App(i)), n)
  {
    var r := Next(net, n, App(i));
    assert AppAt(net, n, i) && FewMisses(net, n, i);
    forall j: nat | j < n ensures InstAt(r, n, j) {
      assert InstAt(net, n, j);
    }
    forall j: nat | j < n ensures AppAt(r, n, j) && FewMisses(r, n, j) {
      assert AppAt(net, n, j) && FewMisses(net, n, j);
    }
  }

  lemma AppKeeps(net: Net, n: nat, i: nat)
    requires Inv(net, n) && Enabled(net, n, App(i))
    ensures Inv(Next(net, n, App(i)), n)
  {
    hide Inv, Next;
    assert Shaped(net, n) by { InvShaped(net, n); }
    match net.app[i].pc
    case ReadX => DrawKeeps(net, n, i);
    case ReadY => DrawKeeps(net, n, i);
    case TryCount => TryKeeps(net, n, i);
    case WriteCount => SendKeeps(net, n, i);
  }

  lemma InvShaped(net: Net, n: nat)
    requires Inv(net, n)
    ensures Shaped(net, n)
  {
  }

  lemma OtherKeeps(net: Net, n: nat, a: Action)
    requires Inv(net, n) && Enabled(net, n, a) && !a.Inst? && !a.App?
    ensures Inv(Next(net, n, a), n)
  {
    hide InstCounts, AppCounts, Tries;
    var r := Next(net, n, a);
    assert r.inst == net.inst && r.app == net.app && r.rng == net.rng;
    if n > 0 { assert InstAt(net, n, 0) && AppAt(net, n, 0); }
    forall j: nat | j < n ensures InstAt(r, n, j) {
      assert InstAt(net, n, j);
    }
    forall j: nat | j < n ensures AppAt(r, n, j) && FewMisses(r, n, j) {
      assert AppAt(net, n, j) && FewMisses(net, n, j);
    }
  }

  lemma StepKeeps(net: Net, n: nat, a: Action)
    requires Inv(net, n) && Enabled(net, n, a)
    ensures Inv(Next(net, n, a), n)
  {
    match a
    case Inst(i) => InstKeeps(net, n, i);
    case App(i) => AppKeeps(net, n, i);
    case _ => OtherKeeps(net, n, a);
  }

  lemma {:induction false} RunKeeps(seeds: seq<nat>, states: seq<Net>, acts: seq<Action>, j: nat)
    requires IsRun(seeds, states, acts) && j < |states|
    ensures Inv(states[j], |seeds|)
  {
    if j == 0 {
      InitInv(seeds);
    } else {
      RunKeeps(seeds, states, acts, j - 1);
      StepKeeps(states[j - 1], |seeds|, acts[j - 1]);
    }
  }

  // ---------- tries and misses are steps of the run ----------

  /** One more step in a set of steps. */
  lemma NextSteps(a: set<nat>, b: set<nat>, j: nat, more: bool)
    requires forall k: nat :: k in a ==> k < j
    requires forall k: nat :: k in b <==> k in a || (k == j && more)
    ensures |b| == |a| + if more then 1 else 0
  {
    if more { assert b == a + {j}; } else { assert b == a; }
  }

  /** Tries counts the steps at which the application tried its counter FIFO. */
  lemma {:induction false} TriesCounted(seeds: seq<nat>, states: seq<Net>, acts: seq<Action>, j: nat, i: nat)
    requires IsRun(seeds, states, acts) && j < |states| && i < |seeds|
    ensures var tries := set k: nat | k < j && acts[k] == App(i) && states[k].app[i].pc.TryCount?;
            |tries| == Tries(states[j].app[i], |states[j].o[i + 1].written|)
    decreases j
  {
    hide Next, Enabled, Tries, Misses, Init;
    if j == 0 {
      NothingCounted(seeds, i);
    } else {
      var h := j - 1;
      TriesCounted(seeds, states, acts, h, i);
      OneStepCounted(states[h], |seeds|, acts[h], i);
      var tries := (t: nat) requires t <= j => set k: nat | k < t && acts[k] == App(i) && states[k].app[i].pc.TryCount?;
      NextSteps(tries(h), tries(j), h, acts[h] == App(i) && states[h].app[i].pc.TryCount?);
    }
  }

  /** Misses counts those of them that found it empty. */
  lemma {:induction false} MissesCounted(seeds: seq<nat>, states: seq<Net>, acts: seq<Action>, j: nat, i: nat)
    requires IsRun(seeds, states, acts) && j < |states| && i < |seeds|
    ensures var misses := set k: nat | k < j && acts[k] == App(i) && states[k].app[i].pc.TryCount?
                                       && states[k].o[i].taken >= |states[k].o[i].written|;
            |misses| == Misses(states[j], |seeds|, i)
    decreases j
  {
    hide Next, Enabled, Tries, Misses, Init;
    if j == 0 {
      NothingCounted(seeds, i);
    } else {
      var h := j - 1;
      MissesCounted(seeds, states, acts, h, i);
      OneStepCounted(states[h], |seeds|, acts[h], i);
      var misses := (t: nat) requires t <= j =>
        set k: nat | k < t && acts[k] == App(i) && states[k].app[i].pc.TryCount?
                     && states[k].o[i].taken >= |states[k].o[i].written|;
      NextSteps(misses(h), misses(j), h, acts[h] == App(i) && states[h].app[i].pc.TryCount?
                                         && states[h].o[i].taken >= |states[h].o[i].written|);
    }
  }

  lemma NothingCounted(seeds: seq<nat>, i: nat)
    requires i < |seeds|
    ensures Tries(Init(seeds).app[i], |Init(seeds).o[i + 1].written|) == 0 && Misses(Init(seeds), |seeds|, i) == 0
  {
  }

  lemma OneStepCounted(net: Net, n: nat, a: Action, i: nat)
    requires Shaped(net, n) && Enabled(net, n, a) && i < n
    ensures var r := Next(net, n, a);
            var trying := a == App(i) && net.app[i].pc.TryCount?;
            && Tries(r.app[i], |r.o[i + 1].written|)
               == Tries(net.app[i], |net.o[i + 1].written|) + (if trying then 1 else 0)
            && Misses(r, n, i)
               == Misses(net, n, i) + (if trying && net.o[i].taken >= |net.o[i].written| then 1 else 0)
  {
    hide Inside, RandomWord;
  }

  /** On every schedule, every application but the first finds its counter FIFO empty at most three times in the
      whole run. */
  lemma AtMostThreeMisses(seeds: seq<nat>, states: seq<Net>, acts: seq<Action>, j: nat, i: nat)
    requires IsRun(seeds, states, acts) && j < |states| && 0 < i < |seeds|
    ensures 0 <= Misses(states[j], |seeds|, i) <= 3
    ensures var misses := set k: nat | k < j && acts[k] == App(i) && states[k].app[i].pc.TryCount?
                                       && states[k].o[i].taken >= |states[k].o[i].written|;
            |misses| <= 3
  {
    RunKeeps(seeds, states, acts, j);
    assert AppAt(states[j], |seeds|, i) && FewMisses(states[j], |seeds|, i);
    MissesCounted(seeds, states, acts, j, i);
  }

  // ---------- deadlock freedom ----------

  /** Nothing but the two ends that the network does not wait for can move: the zero-counter feed and
      the reader of the output. */
  ghost predicate Stuck(net: Net, n: nat)
    requires Shaped(net, n)
  {
    forall a: Action :: !a.Dummy? && !a.Drain? ==> !Enabled(net, n, a)
  }

  /** In a stuck network the lanes are full, so the root states pile up to the first instance. */
  lemma StuckSourceFull(net: Net, n: nat)
    requires Inv(net, n) && Stuck(net, n)
    ensures net.s[0].Full(STATE_DEPTH)
  {
    assert net.merge.pc < LANES ==> !Enabled(net, n, Stage(net.merge.pc));
    assert !Enabled(net, n, MergeLanes);
    assert !Enabled(net, n, PadIn);
  }

  lemma StuckSinkEmpty(net: Net, n: nat)
    requires Inv(net, n) && Stuck(net, n) && !net.output.Full(OUTPUT_DEPTH)
    ensures net.s[n].Empty() && net.o[n].Empty()
  {
    assert !Enabled(net, n, Sink);
    assert !Enabled(net, n, PadOut);
  }

  /** An instance that cannot send its random word because rng[i] is full. */
  ghost predicate Clogged(net: Net, n: nat, i: nat)
    requires Shaped(net, n) && i < n
  {
    net.inst[i].pc.WriteRandom? && net.rng[i].Full(RANDOM_DEPTH)
  }

  /** A full state FIFO is followed by a clogged instance, because the last state FIFO is drained. */
  lemma {:induction false} FullLeadsToClogged(net: Net, n: nat, i: nat) returns (c: nat)
    requires Inv(net, n) && Stuck(net, n) && net.s[n].Empty()
    requires i <= n && net.s[i].Full(STATE_DEPTH)
    ensures i <= c < n && Clogged(net, n, c)
    decreases n - i
  {
    assert i < n;
    assert InstAt(net, n, i);
    assert !Enabled(net, n, Inst(i));
    if net.inst[i].pc.WriteRandom? {
      c := i;
    } else {
      c := FullLeadsToClogged(net, n, i + 1);
    }
  }

  /** The last clogged instance. */
  lemma {:induction false} LastClogged(net: Net, n: nat, i: nat) returns (c: nat)
    requires Shaped(net, n) && i < n && Clogged(net, n, i)
    ensures i <= c < n && Clogged(net, n, c)
    ensures forall k: nat :: c < k < n ==> !Clogged(net, n, k)
    decreases n - i
  {
    if k: nat :| i < k < n && Clogged(net, n, k) {
      c := LastClogged(net, n, k);
    } else {
      c := i;
    }
  }

  /** Behind the last clogged instance every instance is starved, with one and the same count. */
  lemma {:induction false} StarvedBehind(net: Net, n: nat, c: nat, k: nat)
    requires Inv(net, n) && Stuck(net, n) && net.s[n].Empty()
    requires c < k < n
    requires forall k: nat :: c < k < n ==> !Clogged(net, n, k)
    ensures net.inst[k].pc.ReadState? && net.s[k].Empty()
    ensures |net.rng[k].written| == |net.s[c + 1].written|
    decreases k
  {
    assert InstAt(net, n, k);
    assert !Enabled(net, n, Inst(k));
    assert !Clogged(net, n, k);
    if net.inst[k].pc.ForwardState? {
      var d := FullLeadsToClogged(net, n, k + 1);
      assert false;
    }
    if k > c + 1 {
      StarvedBehind(net, n, c, k - 1);
      assert InstAt(net, n, k - 1);
    }
  }

  /** An application that holds a counter its full successor FIFO does not accept. */
  ghost predicate Holding(net: Net, n: nat, i: nat)
    requires Shaped(net, n) && i < n
  {
    net.app[i].pc.WriteCount? && net.o[i + 1].Full(COUNT_DEPTH)
  }

  /** The applications from i on are all holding, up to the first that waits for random words. */
  lemma {:induction false} FirstWaiting(net: Net, n: nat, i: nat) returns (j: nat)
    requires Inv(net, n) && Stuck(net, n) && net.o[n].Empty()
    requires i < n && net.app[i].pc.WriteCount?
    ensures i < j < n && !net.app[j].pc.WriteCount?
    ensures forall k: nat :: i <= k < j ==> Holding(net, n, k)
    decreases n - i
  {
    assert AppAt(net, n, i);
    assert !Enabled(net, n, App(i));
    assert Holding(net, n, i);
    assert i + 1 < n;
    if net.app[i + 1].pc.WriteCount? {
      j := FirstWaiting(net, n, i + 1);
    } else {
      j := i + 1;
    }
  }

  /** Along such a row of applications the number of counters sent does not grow: two wait in each
      FIFO, one is in hand, and at most three tries missed. */
  lemma {:induction false} RowDoesNotGrow(net: Net, n: nat, i: nat, k: nat)
    requires Inv(net, n) && i <= k < n
    requires forall k': nat :: i <= k' <= k ==> Holding(net, n, k')
    ensures |net.o[k + 1].written| <= |net.o[i + 1].written|
    decreases k
  {
    if k > i {
      var before := k - 1;
      RowDoesNotGrow(net, n, i, before);
      assert AppAt(net, n, k) && FewMisses(net, n, k);
      assert Holding(net, n, before) && Holding(net, n, k);
    }
  }

  /** The last clogged instance has sent one word less than every instance behind it, and its application
      still lacks four of those: the waiting application is three counters ahead. */
  lemma WaitingIsAhead(net: Net, n: nat, c: nat, j: nat)
    requires Inv(net, n) && Stuck(net, n) && net.s[n].Empty()
    requires c < j < n && Clogged(net, n, c) && net.app[c].pc.WriteCount? && !net.app[j].pc.WriteCount?
    requires forall k: nat :: c < k < n ==> !Clogged(net, n, k)
    ensures |net.o[j + 1].written| == |net.o[c + 1].written| + 3
  {
    StarvedBehind(net, n, c, j);
    assert InstAt(net, n, c) && AppAt(net, n, c);
    assert InstAt(net, n, j) && AppAt(net, n, j);
    assert !Enabled(net, n, App(j));
  }

  /** The application behind a row of holding ones is at most one counter ahead of the first of them. */
  lemma WaitingIsNotAhead(net: Net, n: nat, c: nat, j: nat)
    requires Inv(net, n) && c < j < n && !net.app[j].pc.WriteCount?
    requires forall k: nat :: c <= k < j ==> Holding(net, n, k)
    ensures |net.o[j + 1].written| <= |net.o[c + 1].written| + 1
  {
    RowDoesNotGrow(net, n, c, j - 1);
    assert Holding(net, n, j - 1);
    assert AppAt(net, n, j) && FewMisses(net, n, j);
  }

  lemma NotStuck(net: Net, n: nat)
    requires Inv(net, n) && !net.output.Full(OUTPUT_DEPTH)
    ensures !Stuck(net, n)
  {
    if Stuck(net, n) {
      StuckSourceFull(net, n);
      StuckSinkEmpty(net, n);
      var i := FullLeadsToClogged(net, n, 0);
      var c := LastClogged(net, n, i);
      assert InstAt(net, n, c) && AppAt(net, n, c);
      assert !Enabled(net, n, App(c));
      var j := FirstWaiting(net, n, c);
      WaitingIsAhead(net, n, c, j);
      WaitingIsNotAhead(net, n, c, j);
    }
  }

  /** Deadlock freedom for every chain length and every schedule: while the output FIFO has room, some
      process other than the zero-counter feed can move. (When it has none, its reader can.) */
  lemma DeadlockFree(seeds: seq<nat>, states: seq<Net>, acts: seq<Action>, j: nat)
    requires IsRun(seeds, states, acts) && j < |states|
    ensures !states[j].output.Full(OUTPUT_DEPTH)
        ==> exists a: Action :: !a.Dummy? && !a.Drain? && Enabled(states[j], |seeds|, a)
    ensures states[j].output.Full(OUTPUT_DEPTH) ==> Enabled(states[j], |seeds|, Drain)
  {
    RunKeeps(seeds, states, acts, j);
    if !states[j].output.Full(OUTPUT_DEPTH) { NotStuck(states[j], |seeds|); }
  }
}
