/** What the processes of the network do to single words, points and counters on any run, in terms of the words in
    the FIFOs alone. */
module NetworkLaws {
  import opened Bits
  import opened Fifos
  import opened Lcg
  import opened Leapfrog
  import opened Permutation
  import opened Network
  import opened NetworkCounts
  import opened NetworkData
  import Xorshift

  // ---------- when a process blocks ----------

  /** In every state of every run a process is blocked exactly if the FIFO that it writes next holds as many words as
      its pragma allows, or the one that it reads next holds none. */
  lemma BlockedExactly(seeds: seq<nat>, states: seq<Net>, acts: seq<Action>, j: nat)
    requires IsRun(seeds, states, acts) && j < |states|
    ensures var net, n := states[j], |seeds|;
            && (forall k: nat :: k < 9 ==>
                 (Enabled(net, n, Stage(k)) <==> |net.stf[k].written| - net.stf[k].taken != 4))
            && (net.merge.pc < 9 ==> (Enabled(net, n, MergeLanes)
                 <==> |net.stf[net.merge.pc].written| != net.stf[net.merge.pc].taken))
            && (net.merge.pc >= 9 ==> (Enabled(net, n, MergeLanes) <==> |net.root.written| - net.root.taken != 16))
            && (net.padIn.None? ==> (Enabled(net, n, PadIn) <==> |net.root.written| != net.root.taken))
            && (net.padIn.Some? ==> (Enabled(net, n, PadIn) <==> |net.s[0].written| - net.s[0].taken != 2))
            && (Enabled(net, n, Sink) <==> |net.s[n].written| != net.s[n].taken)
            && (Enabled(net, n, Dummy) <==> |net.o[0].written| - net.o[0].taken != 2)
            && (net.padOut.None? ==> (Enabled(net, n, PadOut) <==> |net.o[n].written| != net.o[n].taken))
            && (net.padOut.Some? ==> (Enabled(net, n, PadOut) <==> |net.output.written| - net.output.taken != 4))
            && (Enabled(net, n, Drain) <==> |net.output.written| != net.output.taken)
  {
    hide IsRun;
    assert |states| == |acts| + 1 && Shaped(states[j], |seeds|) by { RunShape(seeds, states, acts, j); }
    RunKeeps(seeds, states, acts, j);
    if |seeds| > 0 { assert InstAt(states[j], |seeds|, 0) && AppAt(states[j], |seeds|, 0); }
  }

  lemma RunShape(seeds: seq<nat>, states: seq<Net>, acts: seq<Action>, j: nat)
    requires IsRun(seeds, states, acts) && j < |states|
    ensures |states| == |acts| + 1 && Shaped(states[j], |seeds|)
  {
  }

  /** The same for the instances and applications of the chain. */
  lemma ChainBlockedExactly(seeds: seq<nat>, states: seq<Net>, acts: seq<Action>, j: nat, i: nat)
    requires IsRun(seeds, states, acts) && j < |states| && i < |seeds|
    ensures var net, n := states[j], |seeds|;
            && (net.inst[i].pc.ReadState? ==> (Enabled(net, n, Inst(i)) <==> |net.s[i].written| != net.s[i].taken))
            && (net.inst[i].pc.ForwardState? ==>
                 (Enabled(net, n, Inst(i)) <==> |net.s[i + 1].written| - net.s[i + 1].taken != 2))
            && (net.inst[i].pc.WriteRandom? ==>
                 (Enabled(net, n, Inst(i)) <==> |net.rng[i].written| - net.rng[i].taken != 4))
            && (net.app[i].pc.ReadX? || net.app[i].pc.ReadY? ==>
                 (Enabled(net, n, App(i)) <==> |net.rng[i].written| != net.rng[i].taken))
            && (net.app[i].pc.TryCount? ==> Enabled(net, n, App(i)))
            && (net.app[i].pc.WriteCount? ==>
                 (Enabled(net, n, App(i)) <==> |net.o[i + 1].written| - net.o[i + 1].taken != 2))
  {
    hide IsRun;
    assert |states| == |acts| + 1 && Shaped(states[j], |seeds|) by { RunShape(seeds, states, acts, j); }
    RunKeeps(seeds, states, acts, j);
    var net, n := states[j], |seeds|;
    assert InstAt(net, n, i) && AppAt(net, n, i);
    if i + 1 < n { assert InstAt(net, n, i + 1) && AppAt(net, n, i + 1); }
  }

  // ---------- points ----------

  lemma RandomIsWord(seeds: seq<nat>, i: nat, t: nat)
    requires i < |seeds| && seeds[i] < WORDS
    ensures Random(seeds, i, t) < WORDS
  {
    hide Xor, OutputFunction, MultiStream, Serial, Xorshift.Iterate, Pow2;
    Pow2At32();
    assert IsWord(seeds[i]);
    Xorshift.RunIsWord(seeds[i], t + 1);
    MultiStreamBound(Serial(t), FIRST_STREAM + i);
    OutputBound(MultiStream(Serial(t), FIRST_STREAM + i));
    XorBound(Xorshift.Iterate(seeds[i], t + 1), OutputFunction(MultiStream(Serial(t), FIRST_STREAM + i)), 32);
  }

  /** A point of two random words is inside exactly if it lies in the quarter circle of radius 2^32. */
  lemma PointInsideMeans(seeds: seq<nat>, i: nat, k: nat)
    requires i < |seeds| && seeds[i] < 0x1_0000_0000
    ensures var x, y := Random(seeds, i, 2 * k), Random(seeds, i, 2 * k + 1);
            PointInside(seeds, i, k) <==> x * x + y * y < 0x1_0000_0000_0000_0000
  {
    hide Random, Inside;
    RandomIsWord(seeds, i, 2 * k);
    RandomIsWord(seeds, i, 2 * k + 1);
    InsideIsQuarterCircle(Random(seeds, i, 2 * k), Random(seeds, i, 2 * k + 1));
  }

  lemma {:induction false} PointsInsideIsSize(seeds: seq<nat>, i: nat, n: nat, w: nat -> nat)
    requires i < |seeds| && seeds[i] < WORDS && forall t: nat :: w(t) == Random(seeds, i, t)
    ensures PointsInside(seeds, i, n)
      == |set k: nat | k < n && w(2 * k) * w(2 * k) + w(2 * k + 1) * w(2 * k + 1) < 0x1_0000_0000_0000_0000|
    decreases n
  {
    hide Random, PointInside;
    if n > 0 {
      PointsInsideIsSize(seeds, i, n - 1, w);
      PointInsideMeans(seeds, i, n - 1);
      NextPoint(w, n);
    }
  }

  lemma NextPoint(w: nat -> nat, n: nat)
    requires n > 0
    ensures |set k: nat | k < n && w(2 * k) * w(2 * k) + w(2 * k + 1) * w(2 * k + 1) < 0x1_0000_0000_0000_0000|
      == |set k: nat | k < n - 1 && w(2 * k) * w(2 * k) + w(2 * k + 1) * w(2 * k + 1) < 0x1_0000_0000_0000_0000|
       + (if w(2 * n - 2) * w(2 * n - 2) + w(2 * n - 1) * w(2 * n - 1) < 0x1_0000_0000_0000_0000 then 1 else 0)
  {
    var points := (m: nat) =>
      set k: nat | k < m && w(2 * k) * w(2 * k) + w(2 * k + 1) * w(2 * k + 1) < 0x1_0000_0000_0000_0000;
    var more := w(2 * n - 2) * w(2 * n - 2) + w(2 * n - 1) * w(2 * n - 1) < 0x1_0000_0000_0000_0000;
    NextSteps(points(n - 1), points(n), n - 1, more);
  }

  /** The points that an application has tried, counted on the words that were sent to it. */
  lemma PointsOfWords(seeds: seq<nat>, net: Net, i: nat)
    requires Inv(net, |seeds|) && ChainData(seeds, net) && i < |seeds| && seeds[i] < WORDS
    ensures var w, tries := net.rng[i].written, Tries(net.app[i], |net.o[i + 1].written|);
            && 2 * tries <= |w|
            && |set k: nat | k < tries && 2 * k + 1 < |w|
                             && w[2 * k] * w[2 * k] + w[2 * k + 1] * w[2 * k + 1] < 0x1_0000_0000_0000_0000|
               == PointsInside(seeds, i, tries)
  {
    var w, tries := net.rng[i].written, Tries(net.app[i], |net.o[i + 1].written|);
    EnoughWords(net, |seeds|, i);
    assert InstData(seeds, net, i);
    hide *;
    var r := (t: nat) => Random(seeds, i, t);
    PointsInsideIsSize(seeds, i, tries, r);
    SamePoints(w, r, tries);
  }

  lemma EnoughWords(net: Net, n: nat, i: nat)
    requires Inv(net, n) && i < n
    ensures 2 * Tries(net.app[i], |net.o[i + 1].written|) <= |net.rng[i].written|
  {
    assert AppAt(net, n, i) && InstAt(net, n, i);
  }

  lemma SamePoints(w: seq<nat>, r: nat -> nat, tries: nat)
    requires 2 * tries <= |w| && forall t: nat :: t < |w| ==> w[t] == r(t)
    ensures |set k: nat | k < tries && 2 * k + 1 < |w|
                          && w[2 * k] * w[2 * k] + w[2 * k + 1] * w[2 * k + 1] < 0x1_0000_0000_0000_0000|
         == |set k: nat | k < tries
                          && r(2 * k) * r(2 * k) + r(2 * k + 1) * r(2 * k + 1) < 0x1_0000_0000_0000_0000|
  {
    forall k: nat | k < tries ensures 2 * k + 1 < |w| && w[2 * k] == r(2 * k) && w[2 * k + 1] == r(2 * k + 1) {}
    assert (set k: nat | k < tries && 2 * k + 1 < |w|
                         && w[2 * k] * w[2 * k] + w[2 * k + 1] * w[2 * k + 1] < 0x1_0000_0000_0000_0000)
        == (set k: nat | k < tries
                         && r(2 * k) * r(2 * k) + r(2 * k + 1) * r(2 * k + 1) < 0x1_0000_0000_0000_0000);
  }

  /** Every application but the first scores all points it finds inside, except at most three: the tried pairs of
      words sent to it that lie in the quarter circle. */
  lemma ScoresAreAccurate(seeds: seq<nat>, states: seq<Net>, acts: seq<Action>, j: nat, i: nat)
    requires |seeds| < WORDS && IsRun(seeds, states, acts) && j < |states| && 0 < i < |seeds|
    requires seeds[i] < 0x1_0000_0000
    ensures var app, w := states[j].app[i], states[j].rng[i].written;
            var tries := |states[j].o[i + 1].written| + if app.pc.WriteCount? then 1 else 0;
            var found := set k: nat | k < tries && 2 * k + 1 < |w|
                                      && w[2 * k] * w[2 * k] + w[2 * k + 1] * w[2 * k + 1] < 0x1_0000_0000_0000_0000;
            2 * tries <= |w| && |found| - 3 <= app.scored <= |found|
  {
    hide PointsInside, Random;
    RunKeepsFlow(seeds, states, acts, j);
    RunKeepsCounts(seeds, states, acts, j);
    AtMostThreeMisses(seeds, states, acts, j, i);
    assert ScoreAt(seeds, states[j], i);
    PointsOfWords(seeds, states[j], i);
  }

  // ---------- points of the whole chain ----------

  lemma {:induction false} PairSize(s: set<nat>, i: nat)
    ensures |set k: nat | k in s :: (i, k)| == |s|
    decreases s
  {
    if s != {} {
      var x: nat :| x in s;
      var t := s - {x};
      PairSize(t, i);
      assert (set k: nat | k in s :: (i, k)) == (set k: nat | k in t :: (i, k)) + {(i, x)};
    }
  }

  lemma PairsUpTo(a: set<(nat, nat)>, b: set<(nat, nat)>, s: set<nat>, i: nat)
    requires forall p :: p in a ==> p.0 < i
    requires forall p :: p in b <==> p in a || (p.0 == i && p.1 in s)
    ensures |b| == |a| + |s|
  {
    var c := set k: nat | k in s :: (i, k);
    PairSize(s, i);
    assert b == a + c && a !! c;
  }

  function SumOfSizes(inner: nat -> set<nat>, m: nat): nat {
    if m == 0 then 0 else SumOfSizes(inner, m - 1) + |inner(m - 1)|
  }

  function Pairs(inner: nat -> set<nat>, m: nat): (r: set<(nat, nat)>)
    ensures forall p: (nat, nat) :: p in r <==> p.0 < m && p.1 in inner(p.0)
  {
    set i: nat, k: nat | i < m && k in inner(i) :: (i, k)
  }

  lemma {:induction false} PairsAreSum(inner: nat -> set<nat>, m: nat)
    ensures |Pairs(inner, m)| == SumOfSizes(inner, m)
    decreases m
  {
    hide Pairs;
    if m == 0 {
      assert Pairs(inner, 0) == {};
    } else {
      PairsAreSum(inner, m - 1);
      PairsUpTo(Pairs(inner, m - 1), Pairs(inner, m), inner(m - 1), m - 1);
    }
  }

  lemma {:induction false} FoundIsSum(seeds: seq<nat>, net: Net, m: nat, inner: nat -> set<nat>)
    requires Inv(net, |seeds|) && ChainData(seeds, net) && m <= |seeds|
    requires forall i: nat :: i < |seeds| ==> seeds[i] < 0x1_0000_0000
    requires forall i: nat :: i < |seeds| ==>
      inner(i) == Inner(net.rng[i].written, |net.o[i + 1].written| + if net.app[i].pc.WriteCount? then 1 else 0)
    ensures SumOfSizes(inner, m) == Found(seeds, net, m)
    decreases m
  {
    if m > 0 {
      assert Shaped(net, |seeds|);
      FoundIsSum(seeds, net, m - 1, inner);
      hide Inv, ChainData, PointsInside;
      PointsOfWords(seeds, net, m - 1);
    }
  }

  /** The first points, of two words each, that lie in the quarter circle. */
  function Inner(w: seq<nat>, tries: nat): set<nat> {
    set k: nat | k < tries && 2 * k + 1 < |w|
                 && w[2 * k] * w[2 * k] + w[2 * k + 1] * w[2 * k + 1] < 0x1_0000_0000_0000_0000
  }

  /** The tried points of each application, with the words and tries of all applications in lists. */
  lemma PairsOfWords(w: seq<seq<nat>>, tries: seq<nat>, inner: nat -> set<nat>, n: nat)
    requires |w| == |tries| == n && forall i: nat :: i < n ==> inner(i) == Inner(w[i], tries[i])
    ensures var points := set i: nat, k: nat | i < n && k < tries[i] && 2 * k + 1 < |w[i]|
                            && w[i][2 * k] * w[i][2 * k] + w[i][2 * k + 1] * w[i][2 * k + 1] < 0x1_0000_0000_0000_0000
                            :: (i, k);
            |points| == SumOfSizes(inner, n)
  {
    PairsAreSum(inner, n);
    hide SumOfSizes, Pairs;
    assert Pairs(inner, n)
      == (set i: nat, k: nat | i < n && k < tries[i] && 2 * k + 1 < |w[i]|
            && w[i][2 * k] * w[i][2 * k] + w[i][2 * k + 1] * w[i][2 * k + 1] < 0x1_0000_0000_0000_0000 :: (i, k));
  }

  /** Found is the number of tried points inside, as pairs of an application and one of its points. */
  lemma FoundIsSize(seeds: seq<nat>, net: Net, w: seq<seq<nat>>, tries: seq<nat>)
    requires Inv(net, |seeds|) && ChainData(seeds, net)
    requires forall i: nat :: i < |seeds| ==> seeds[i] < 0x1_0000_0000
    requires |w| == |tries| == |seeds| && forall i: nat :: i < |seeds| ==> w[i] == net.rng[i].written
    requires forall i: nat :: i < |seeds| ==>
      tries[i] == |net.o[i + 1].written| + if net.app[i].pc.WriteCount? then 1 else 0
    ensures var points := set i: nat, k: nat | i < |w| && k < tries[i] && 2 * k + 1 < |w[i]|
                            && w[i][2 * k] * w[i][2 * k] + w[i][2 * k + 1] * w[i][2 * k + 1] < 0x1_0000_0000_0000_0000
                            :: (i, k);
            |points| == Found(seeds, net, |seeds|)
  {
    var n := |seeds|;
    assert Shaped(net, n);
    var inner := (i: nat) => if i < |w| && i < |tries| then Inner(w[i], tries[i]) else {};
    hide Inv, ChainData, Found, SumOfSizes, Inner;
    FoundIsSum(seeds, net, n, inner);
    PairsOfWords(w, tries, inner, n);
  }

  // ---------- single tries and counters ----------

  /** A try adds the point to a waiting counter exactly if its two words lie in the quarter circle; without a counter
      it sends zero and the point is lost. */
  lemma TryCountsPoint(seeds: seq<nat>, states: seq<Net>, acts: seq<Action>, j: nat, i: nat)
    requires |seeds| < WORDS && IsRun(seeds, states, acts) && j < |acts| && i < |seeds|
    requires seeds[i] < 0x1_0000_0000 && acts[j] == App(i) && states[j].app[i].pc.TryCount?
    ensures var net, next, k := states[j], states[j + 1], |states[j].o[i + 1].written|;
            var w, f := net.rng[i].written, net.o[i];
            && 2 * k + 1 < |w|
            && next.app[i].pc.WriteCount?
            && var inside := w[2 * k] * w[2 * k] + w[2 * k + 1] * w[2 * k + 1] < 0x1_0000_0000_0000_0000;
            if f.taken < |f.written| then
              && next.o[i].taken == f.taken + 1
              && next.app[i].v == (if inside then (f.written[f.taken] + 1) % 0x1_0000_0000 else f.written[f.taken])
              && next.app[i].scored == net.app[i].scored + (if inside then 1 else 0)
            else
              next.o[i].taken == f.taken && next.app[i].v == 0 && next.app[i].scored == net.app[i].scored
  {
    hide PointsInside, Random, Inside, RootData, Inv, ChainData, CountData, Next;
    RunKeepsFlow(seeds, states, acts, j);
    RunKeepsCounts(seeds, states, acts, j);
    PointInHand(seeds, states[j], i);
    TryStep(states[j], |seeds|, i);
  }

  /** The two squares that a trying application holds are those of the next two words of its instance. */
  lemma PointInHand(seeds: seq<nat>, net: Net, i: nat)
    requires Inv(net, |seeds|) && ChainData(seeds, net) && CountData(seeds, net)
    requires i < |seeds| && seeds[i] < WORDS && net.app[i].pc.TryCount?
    ensures var k, w := |net.o[i + 1].written|, net.rng[i].written;
            && 2 * k + 1 < |w|
            && (Inside(net.app[i].x, net.app[i].y)
                <==> w[2 * k] * w[2 * k] + w[2 * k + 1] * w[2 * k + 1] < 0x1_0000_0000_0000_0000)
  {
    hide PointsInside, Random, Inside, RootData, Sum;
    var k := |net.o[i + 1].written|;
    assert PointAt(seeds, net, i) && InstData(seeds, net, i);
    assert AppAt(net, |seeds|, i) && InstAt(net, |seeds|, i);
    PointInsideMeans(seeds, i, k);
    assert PointInside(seeds, i, k) == Inside(net.app[i].x, net.app[i].y);
  }

  /** What a try puts in hand is the counter that is sent, unchanged and in its place. */
  lemma {:induction false} TryIsSent(seeds: seq<nat>, states: seq<Net>, acts: seq<Action>, j: nat, i: nat, l: nat)
    requires IsRun(seeds, states, acts) && i < |seeds| && j < l < |states|
    requires acts[j] == App(i) && states[j].app[i].pc.TryCount?
    ensures var k, v, net := |states[j].o[i + 1].written|, states[j + 1].app[i].v, states[l];
            (net.app[i].pc.WriteCount? && net.app[i].v == v && |net.o[i + 1].written| == k)
            || (k < |net.o[i + 1].written| && net.o[i + 1].written[k] == v)
    decreases l
  {
    hide Inside, Next, Enabled, Init;
    if l == j + 1 {
      TryStep(states[j], |seeds|, i);
    } else {
      TryIsSent(seeds, states, acts, j, i, l - 1);
      KeepsSent(states[l - 1], |seeds|, acts[l - 1], i);
    }
  }

  lemma TryStep(net: Net, n: nat, i: nat)
    requires Shaped(net, n) && Enabled(net, n, App(i)) && net.app[i].pc.TryCount?
    ensures var r, f, inside := Next(net, n, App(i)), net.o[i], Inside(net.app[i].x, net.app[i].y);
            && r.app[i].pc.WriteCount? && r.o[i + 1].written == net.o[i + 1].written
            && if f.taken < |f.written| then
                 && r.o[i].taken == f.taken + 1
                 && r.app[i].v == (if inside then (f.written[f.taken] + 1) % WORDS else f.written[f.taken])
                 && r.app[i].scored == net.app[i].scored + (if inside then 1 else 0)
               else
                 r.o[i].taken == f.taken && r.app[i].v == 0 && r.app[i].scored == net.app[i].scored
  {
    hide Inside;
  }

  lemma KeepsSent(net: Net, n: nat, a: Action, i: nat)
    requires Shaped(net, n) && Enabled(net, n, a) && i < n
    ensures var r := Next(net, n, a);
            && |net.o[i + 1].written| <= |r.o[i + 1].written|
            && r.o[i + 1].written[..|net.o[i + 1].written|] == net.o[i + 1].written
            && (net.app[i].pc.WriteCount? ==>
                 (r.app[i] == net.app[i] && r.o[i + 1].written == net.o[i + 1].written)
                 || r.o[i + 1].written == net.o[i + 1].written + [net.app[i].v])
  {
    hide Inside, RandomWord;
  }

  /** The counters fed to the first application are zero, and the outputs are the counters of the last application,
      in order. */
  lemma EndsOfTheChain(seeds: seq<nat>, states: seq<Net>, acts: seq<Action>, j: nat)
    requires |seeds| < WORDS && IsRun(seeds, states, acts) && j < |states|
    ensures forall t: nat :: t < |states[j].o[0].written| ==> states[j].o[0].written[t] == 0
    ensures states[j].output.written <= states[j].o[|seeds|].written
  {
    hide PointsInside, Random, Sum;
    RunKeepsCounts(seeds, states, acts, j);
    if |seeds| > 0 { assert CountAt(states[j], |seeds|, 0); }
  }
}
