/** The streaming triangle sampler (misc/data_flow.cpp, misc/fpga_edge_match.h): a first edge is drawn
    from the stream, a second edge from those adjacent to it, and a third that closes them raises the
    matched flag. Streams are sequences; one loop iteration consumes one element of each. */
module TriangleSampler {
  import opened Counting
  import opened Lcg
  import opened Permutation

  const E_NUM: nat := 2
  const SIZES: nat := 0x8000_0000

  datatype Edge = Edge(s: nat, d: nat)

  // ---------- edge predicates ----------

  predicate Adjacent(e: Edge, f: Edge) {
    e.s == f.s || e.s == f.d || e.d == f.s || e.d == f.d
  }

  predicate Close(e: Edge, f: Edge) {
    (e.s == f.s && e.d == f.d) || (e.d == f.s && e.s == f.d)
  }

  function GetMs(e: Edge, f: Edge): nat {
    if e.s == f.s || e.s == f.d then e.d else e.s
  }

  function GetMd(e: Edge, f: Edge): nat {
    if f.s == e.s || f.s == e.d then f.d else f.s
  }

  function MatchEdge(e: Edge, f: Edge): Edge {
    Edge(GetMs(e, f), GetMd(e, f))
  }

  predicate Ordered(e: Edge) {
    e.s <= e.d
  }

  predicate Loop(e: Edge) {
    e.s == e.d
  }

  predicate Joins(e: Edge, a: nat, b: nat) {
    e == Edge(a, b) || e == Edge(b, a)
  }

  ghost predicate Triangle(e: Edge, f: Edge, g: Edge) {
    exists a: nat, b: nat, c: nat ::
      Joins(e, a, b) && Joins(f, a, c) && Joins(g, b, c) && a != b && a != c && b != c
  }

  /** Adjacent edges share an endpoint; an edge closes another one with the same two endpoints. */
  lemma EdgesMeet(e: Edge, f: Edge)
    ensures Adjacent(e, f) <==> {e.s, e.d} * {f.s, f.d} != {}
    ensures Close(e, f) <==> multiset{e.s, e.d} == multiset{f.s, f.d}
  {
    if Adjacent(e, f) {
      var x := if e.s == f.s || e.s == f.d then e.s else e.d;
      assert x in {e.s, e.d} * {f.s, f.d};
    } else {
      assert {e.s, e.d} * {f.s, f.d} == {};
    }
    if multiset{e.s, e.d} == multiset{f.s, f.d} {
      assert e.s in multiset{f.s, f.d} && e.d in multiset{f.s, f.d};
      assert f.s in multiset{e.s, e.d} && f.d in multiset{e.s, e.d};
    }
  }

  /** The match edge joins the endpoints that the two edges do not share, as far as they have such. */
  lemma MatchEdgeJoins(e: Edge, f: Edge)
    ensures MatchEdge(e, f).s == (if e.s in {f.s, f.d} then e.d else e.s)
    ensures MatchEdge(e, f).d == (if f.s in {e.s, e.d} then f.d else f.s)
    ensures e.s != e.d && f.s != f.d && |{e.s, e.d} * {f.s, f.d}| == 1 ==>
      {MatchEdge(e, f).s, MatchEdge(e, f).d} == ({e.s, e.d} - {f.s, f.d}) + ({f.s, f.d} - {e.s, e.d})
  {
    if e.s != e.d && e.s in {f.s, f.d} && e.d in {f.s, f.d} {
      assert {e.s, e.d} <= {e.s, e.d} * {f.s, f.d};
      assert |{e.s, e.d}| == 2;
      assert {e.s, e.d} * {f.s, f.d} == {e.s, e.d};
    }
    if {e.s, e.d} * {f.s, f.d} != {} {
      assert e.s in {f.s, f.d} || e.d in {f.s, f.d};
    }
  }

  /** Only edges that touch the first edge can close the match edge. */
  lemma ClosingEdgeIsAdjacent(first: Edge, second: Edge, e: Edge)
    requires Adjacent(second, first) && Close(MatchEdge(first, second), e)
    ensures Adjacent(e, first)
  {
  }

  /** A closing edge completes a triangle exactly when none of the three edges is a loop and the second is
      not the first one reversed. */
  lemma ClosingEdgeMakesTriangle(first: Edge, second: Edge, e: Edge)
    requires Adjacent(second, first) && Close(MatchEdge(first, second), e)
    ensures Triangle(first, second, e)
        <==> !Loop(first) && !Loop(second) && !Loop(e) && second != Edge(first.d, first.s)
  {
    var m := MatchEdge(first, second);
    var a := if first.s == second.s || first.s == second.d then first.s else first.d;
    if !Loop(first) && !Loop(second) && !Loop(e) && second != Edge(first.d, first.s) {
      assert Joins(first, a, m.s) && Joins(second, a, m.d) && Joins(e, m.s, m.d);
    }
  }

  /** The order that merge gives to the endpoints is needed: a reversed duplicate looks like a match. */
  lemma ReversedDuplicateWouldMatch(a: nat, b: nat)
    requires a != b
    ensures var e, f := Edge(a, b), Edge(b, a);
            Adjacent(f, e) && Close(MatchEdge(e, f), e) && !Triangle(e, f, e)
  {
  }

  /** So is the absence of loops: a duplicate followed by a loop at its far end looks like a match. */
  lemma LoopWouldMatch(a: nat, b: nat)
    requires a < b
    ensures var e, l := Edge(a, b), Edge(b, b);
            Adjacent(e, e) && Close(MatchEdge(e, e), l) && !Triangle(e, e, l)
  {
  }

  // ---------- merge ----------

  function MergeEdge(s: nat, d: nat): Edge {
    if s > d then Edge(d, s) else Edge(s, d)
  }

  /** How often a loop that counts from zero up to a signed size runs. */
  function Trips(size: int): nat {
    if size < 0 then 0 else size
  }

  method MergeStreams(s: seq<nat>, d: seq<nat>, size: int) returns (edge: seq<Edge>)
    requires size <= |s| && size <= |d|
    ensures |edge| == if size < 0 then 0 else size
    ensures forall i: nat :: i < |edge| ==>
      edge[i].s <= edge[i].d && multiset{edge[i].s, edge[i].d} == multiset{s[i], d[i]}
  {
    edge := [];
    var i: nat := 0;
    while i < size
      invariant |edge| == i <= Trips(size)
      invariant forall k: nat :: k < i ==>
        edge[k].s <= edge[k].d && multiset{edge[k].s, edge[k].d} == multiset{s[k], d[k]}
    {
      edge := edge + [MergeEdge(s[i], d[i])];
      i := i + 1;
    }
  }

  // ---------- first edge sampling ----------

  /** Bits 63..32 of a product assigned to a 64-bit word. */
  function HighWord(product: nat): nat {
    product % MODULUS / WORDS
  }

  lemma HighWordOf(product: nat)
    requires product < MODULUS
    ensures HighWord(product) == product / WORDS
    ensures product < WORDS ==> HighWord(product) == 0
  {
  }

  function Draw(counter: nat, r: nat): nat {
    HighWord(counter * (r + 1))
  }

  /** The index sent down the chain: the draw if it names an edge slot, otherwise zero. */
  function EdgeIndex(counter: nat, r: nat): nat {
    if Draw(counter, r) <= E_NUM then Draw(counter, r) else 0
  }

  function RandomOf(state: nat, seqId: nat): nat {
    OutputFunction(MultiStream(state, seqId))
  }

  /** The random word of a stream, outright: the permutation of its state. */
  lemma RandomWordIs(state: nat, seqId: nat)
    ensures RandomOf(state, seqId)
      == OutputFunction((state + 2 * (seqId * 0x5851f42d4c957f2d) + 1) % 0x1_0000_0000_0000_0000)
  {
    hide OutputFunction, MultiStream;
    StreamState(state, seqId);
  }

  method FirstEdgeSampling(s: seq<nat>, size: int) returns (sOut: seq<nat>, feIndex: seq<nat>)
    requires size <= |s| && size < SIZES
    ensures var n := if size < 0 then 0 else size; sOut == s[..n] && |feIndex| == n
    ensures forall i: nat :: i < |feIndex| ==>
      var draw := ((i + 1) * (RandomOf(s[i], 1) + 1)) / 0x1_0000_0000;
      feIndex[i] == if draw <= 2 then draw else 0
  {
    hide OutputFunction, MultiStream, RandomOf;
    sOut, feIndex := [], [];
    var counter, i := 0, 0;
    while i < size
      invariant i <= Trips(size) && counter == i && sOut == s[..i] && |feIndex| == i
      invariant forall k: nat :: k < i ==> feIndex[k] == EdgeIndex(k + 1, RandomOf(s[k], 1))
    {
      sOut := sOut + [s[i]];
      var r := RandomOf(s[i], 1);
      counter := (counter + 1) % WORDS;
      var condition := (counter * (r + 1)) % MODULUS;
      var out := if condition / WORDS <= E_NUM then condition / WORDS else 0;
      feIndex := feIndex + [out];
      i := i + 1;
    }
    forall i: nat | i < |feIndex|
      ensures var draw := ((i + 1) * (RandomOf(s[i], 1) + 1)) / 0x1_0000_0000;
              feIndex[i] == if draw <= 2 then draw else 0
    {
      IndexIs(i + 1, s[i]);
    }
  }

  lemma IndexIs(counter: nat, state: nat)
    requires counter < WORDS
    ensures var draw := (counter * (RandomOf(state, 1) + 1)) / 0x1_0000_0000;
            EdgeIndex(counter, RandomOf(state, 1)) == if draw <= 2 then draw else 0
  {
    hide HighWord, Draw, RandomOf;
    RandomIsWord(state, 1);
    DrawFits(counter, RandomOf(state, 1));
  }

  /** ceil(a / n) */
  function Ceil(a: nat, n: nat): nat
    requires n > 0
  {
    (a + n - 1) / n
  }

  lemma CeilBound(a: nat, n: nat, x: nat)
    requires n > 0
    ensures n * x < a <==> x < Ceil(a, n)
  {
    var c := Ceil(a, n);
    var r := (a + n - 1) % n;
    assert a + n - 1 == n * c + r;
    if x < c {
      TimesMonotone(n, x + 1, c);
      assert n * (x + 1) == n * x + n;
    } else {
      TimesMonotone(n, c, x);
    }
  }

  /** The product of a 32-bit counter and a 33-bit draw stays inside 64 bits. */
  lemma DrawFits(counter: nat, r: nat)
    requires counter < WORDS && r < WORDS
    ensures counter * (r + 1) < MODULUS && Draw(counter, r) == (counter * (r + 1)) / WORDS
    ensures Draw(counter, r) <= counter
  {
    hide HighWord;
    ProductFits(counter, r + 1);
    HighWordOf(counter * (r + 1));
    TimesMonotone(counter, r + 1, WORDS);
  }

  lemma ProductFits(m: nat, r: nat)
    requires m < WORDS && r <= WORDS
    ensures m * r < MODULUS
  {
    TimesMonotone(m, r, WORDS);
  }

  /** The draw is the slot j of n equal slots that r + 1 falls into. */
  lemma DrawIsSlot(n: nat, r: nat, j: nat)
    requires 0 < n < WORDS && r < WORDS
    ensures Draw(n, r) == j <==> Ceil(WORDS * j, n) <= r + 1 < Ceil(WORDS * (j + 1), n)
  {
    DrawFits(n, r);
    CeilBound(WORDS * j, n, r + 1);
    CeilBound(WORDS * (j + 1), n, r + 1);
  }

  ghost function Between(a: nat, b: nat): (s: set<nat>)
    requires a <= b
    ensures forall i: nat :: i in s <==> a <= i < b
    ensures |s| == b - a
    decreases b - a
  {
    if a == b then {} else Between(a, b - 1) + {b - 1}
  }

  ghost function Draws(n: nat, j: nat): set<nat> {
    set r: nat | r < WORDS && Draw(n, r) == j
  }

  /** a multiples of n reach x but not a - 1, likewise b and x + w: b - a is w / n up to rounding. */
  lemma CeilDistance(n: nat, x: nat, w: nat)
    requires n > 0 && x > 0
    ensures 1 <= Ceil(x, n) && Ceil(x, n) + w / n <= Ceil(x + w, n) <= Ceil(x, n) + Ceil(w, n)
  {
    hide Ceil;
    var a, q, c := Ceil(x, n), w / n, Ceil(w, n);
    CeilBound(x, n, 0);
    CeilBound(x, n, a - 1);
    CeilAbove(x, n);
    CeilAbove(w, n);
    Distribute(n, a - 1, q);
    assert n * q <= w;
    CeilBound(x + w, n, a - 1 + q);
    Distribute(n, a, c);
    CeilBound(x + w, n, a + c);
  }

  lemma Distribute(n: nat, a: nat, b: nat)
    ensures n * (a + b) == n * a + n * b
  {
  }

  lemma CeilSteps(n: nat, j: nat)
    requires 0 < n < WORDS && 0 < j < n
    ensures 1 <= Ceil(WORDS * j, n) <= Ceil(WORDS * (j + 1), n) <= WORDS
    ensures WORDS / n <= Ceil(WORDS * (j + 1), n) - Ceil(WORDS * j, n) <= Ceil(WORDS, n)
  {
    hide Ceil;
    CeilDistance(n, WORDS * j, WORDS);
    TimesMonotone(WORDS, j + 1, n);
    CeilBound(WORDS * (j + 1), n, WORDS);
  }

  lemma CeilAbove(a: nat, n: nat)
    requires n > 0
    ensures n * Ceil(a, n) >= a
  {
    CeilBound(a, n, Ceil(a, n));
  }

  /** The draw is unbiased up to rounding. Of all random words, each slot 0 < j < n is hit by floor or ceil of
      2^32 / n, slot 0 by one less than that ceiling, and the largest word alone gives n, which is no slot. */
  lemma DrawIsFair(n: nat, j: nat)
    requires 0 < n < WORDS && j <= n
    ensures j == 0 ==> |Draws(n, j)| == Ceil(WORDS, n) - 1
    ensures 0 < j < n ==> WORDS / n <= |Draws(n, j)| <= Ceil(WORDS, n)
    ensures j == n ==> |Draws(n, j)| == 1
  {
    hide Draw, Ceil;
    var a, b := Ceil(WORDS * j, n), Ceil(WORDS * (j + 1), n);
    forall r: nat | r < WORDS ensures Draw(n, r) == j <==> a <= r + 1 < b { DrawIsSlot(n, r, j); }
    if j == 0 {
      CeilEnds(n);
      assert Draws(n, j) == Between(0, b - 1);
    } else if j < n {
      CeilSteps(n, j);
      assert Draws(n, j) == Between(a - 1, b - 1);
    } else {
      CeilEnds(n);
      assert Draws(n, j) == Between(WORDS - 1, WORDS);
    }
  }

  lemma CeilEnds(n: nat)
    requires 0 < n < WORDS
    ensures Ceil(WORDS * 0, n) == 0 && 1 <= Ceil(WORDS, n) <= WORDS
    ensures Ceil(WORDS * n, n) == WORDS < Ceil(WORDS * (n + 1), n)
  {
    hide Ceil;
    CeilBound(0, n, 0);
    CeilBound(WORDS, n, 0);
    CeilBound(WORDS, n, WORDS);
    TimesMonotone(WORDS, 1, n);
    CeilBound(WORDS * n, n, WORDS);
    CeilBound(WORDS * n, n, WORDS - 1);
    TimesMonotone(n, WORDS - 1, WORDS);
    Distribute(n, WORDS - 1, 1);
    CeilBound(WORDS * (n + 1), n, WORDS);
  }

  /** So the sampler with index 0 does not replace its edge with probability 1 / n: from the fourth edge on
      a draw of slot 3 replaces it too. */
  lemma ReplacedWithoutSlotZero()
    ensures Draw(4, 0xC000_0000) == 3 && EdgeIndex(4, 0xC000_0000) == 0
  {
  }

  /** The edge is replaced exactly when slot 0 is drawn if and only if the draw names an edge slot,
      which is certain only for the first two edges. */
  lemma ReplacementIsSlotZero(counter: nat, r: nat)
    requires counter < WORDS && r < WORDS
    ensures (EdgeIndex(counter, r) == 0 <==> Draw(counter, r) == 0) <==> Draw(counter, r) <= E_NUM
    ensures counter <= E_NUM ==> Draw(counter, r) <= E_NUM
  {
    DrawFits(counter, r);
  }

  ghost function KeepingWords(n: nat): set<nat> {
    set r: nat | r < WORDS && EdgeIndex(n, r) != 0
  }

  /** How many of the 2^32 random words keep the edge in place when the n-th edge arrives: about 2 / n of them for
      n > 2, one half and one for n = 2, and one for n = 1. */
  lemma EdgeIsRarelyKept(n: nat)
    requires 0 < n < WORDS
    ensures 1 <= Ceil(WORDS, n) <= (if n <= E_NUM then WORDS else Ceil(3 * WORDS, n)) <= WORDS
    ensures |KeepingWords(n)| == (if n <= E_NUM then WORDS + 1 else Ceil(3 * WORDS, n)) - Ceil(WORDS, n)
  {
    hide Draw, Ceil;
    CeilEnds(n);
    var a := Ceil(WORDS, n);
    if n <= E_NUM {
      forall r: nat | r < WORDS ensures EdgeIndex(n, r) != 0 <==> a <= r + 1 {
        DrawFits(n, r);
        DrawIsSlot(n, r, 0);
      }
      assert KeepingWords(n) == Between(a - 1, WORDS);
    } else {
      EdgeKeptLate(n);
    }
  }

  lemma EdgeKeptLate(n: nat)
    requires E_NUM < n < WORDS
    ensures 1 <= Ceil(WORDS, n) <= Ceil(3 * WORDS, n) <= WORDS
    ensures |KeepingWords(n)| == Ceil(3 * WORDS, n) - Ceil(WORDS, n)
  {
    hide Draw, Ceil;
    var a, b := Ceil(WORDS, n), Ceil(3 * WORDS, n);
    CeilBound(WORDS, n, 0);
    CeilAbove(3 * WORDS, n);
    CeilBound(WORDS, n, b);
    CeilBound(3 * WORDS, n, WORDS);
    TimesMonotone(WORDS, 3, n);
    forall r: nat | r < WORDS ensures EdgeIndex(n, r) != 0 <==> a <= r + 1 < b {
      DrawFits(n, r);
      DrawIsSlot(n, r, 1);
      DrawIsSlot(n, r, 2);
      CeilBound(2 * WORDS, n, r + 1);
      CeilBound(WORDS, n, r + 1);
      CeilBound(3 * WORDS, n, r + 1);
    }
    assert KeepingWords(n) == Between(a - 1, b - 1);
  }

  // ---------- reservoir sampling ----------

  datatype Sampler = Sampler(
    first: Edge, firstValid: bool,
    second: Edge, secondValid: bool,
    adjCount: nat,
    matchEdge: Edge, matched: bool)

  /** Bits 63..32 of (adj_count + 1) * r2 are zero. */
  predicate Selects(adjCount: nat, r2: nat) {
    HighWord(((adjCount + 1) % WORDS) * r2) == 0
  }

  /** One iteration of the loop on its local variables. */
  function Step(c: Sampler, eIndex: nat, edge: Edge, fe: nat, r2: nat): Sampler {
    if fe == eIndex then
      c.(first := edge, firstValid := true, adjCount := 0, secondValid := false, matched := false)
    else if c.firstValid && Adjacent(edge, c.first) then
      var d := c.(adjCount := (c.adjCount + 1) % WORDS);
      if Selects(c.adjCount, r2) then
        d.(second := edge, secondValid := true, matchEdge := MatchEdge(c.first, edge))
      else if c.secondValid && Close(c.matchEdge, edge) then
        d.(matched := true)
      else d
    else c
  }

  /** The very first edge is installed with every random word but the largest, which leaves the sampler as it was. */
  lemma FirstEdgeCanBeMissed(c: Sampler, edge: Edge, r: nat, r2: nat)
    requires r < WORDS && !c.firstValid
    ensures Step(c, 0, edge, EdgeIndex(1, r), r2).firstValid <==> r != WORDS - 1
    ensures r == WORDS - 1 ==> Step(c, 0, edge, EdgeIndex(1, r), r2) == c
  {
    hide Draw, Ceil;
    DrawFits(1, r);
    DrawIsSlot(1, r, 1);
    CeilEnds(1);
  }

  function Count(c: Sampler, res: nat): nat {
    if c.matched then (c.adjCount + res) % WORDS else res
  }

  /** What has arrived since the last first edge, which comes first, with the random words that came along. */
  datatype Arrival = Arrival(edge: Edge, r2: nat)

  /** Edges after the first, before position k, that are adjacent to it. */
  function AdjacentBefore(h: seq<Arrival>, k: nat): nat
    requires k <= |h|
  {
    if k <= 1 then 0
    else AdjacentBefore(h, k - 1) + if Adjacent(h[k - 1].edge, h[0].edge) then 1 else 0
  }

  predicate SelectedAt(h: seq<Arrival>, k: nat)
    requires k < |h|
  {
    k > 0 && Adjacent(h[k].edge, h[0].edge) && ((AdjacentBefore(h, k) + 1) * h[k].r2) / WORDS == 0
  }

  /** The position before k of the second edge in force, 0 if there is none. */
  function SecondBefore(h: seq<Arrival>, k: nat): (j: nat)
    requires k <= |h|
    ensures j == 0 || (j < k && SelectedAt(h, j))
  {
    if k == 0 then 0 else if SelectedAt(h, k - 1) then k - 1 else SecondBefore(h, k - 1)
  }

  /** The edge at k closes the two edges in force and is not itself taken as second edge. */
  predicate ClosesAt(h: seq<Arrival>, k: nat)
    requires k < |h|
  {
    && k > 0 && !SelectedAt(h, k)
    && SecondBefore(h, k) > 0
    && Close(MatchEdge(h[0].edge, h[SecondBefore(h, k)].edge), h[k].edge)
  }

  ghost predicate Matched(h: seq<Arrival>) {
    exists k: nat :: k < |h| && ClosesAt(h, k)
  }

  /** The local variables say what the history says. */
  ghost predicate Tracks(c: Sampler, h: seq<Arrival>) {
    && c.firstValid == (|h| > 0)
    && (|h| == 0 ==> !c.matched)
    && (|h| > 0 ==>
      && c.first == h[0].edge
      && c.adjCount == AdjacentBefore(h, |h|)
      && c.secondValid == (AdjacentBefore(h, |h|) > 0)
      && c.secondValid == (SecondBefore(h, |h|) > 0)
      && (c.secondValid ==> c.second == h[SecondBefore(h, |h|)].edge && c.matchEdge == MatchEdge(c.first, c.second))
      && (c.matched <==> Matched(h)))
  }

  function NextHistory(h: seq<Arrival>, eIndex: nat, edge: Edge, fe: nat, r2: nat): seq<Arrival> {
    if fe == eIndex then [Arrival(edge, r2)]
    else if |h| > 0 then h + [Arrival(edge, r2)]
    else h
  }

  lemma {:induction false} PrefixCounts(h: seq<Arrival>, a: Arrival, k: nat)
    requires k <= |h| && |h| > 0
    ensures AdjacentBefore(h + [a], k) == AdjacentBefore(h, k)
    ensures SecondBefore(h + [a], k) == SecondBefore(h, k)
    decreases k
  {
    if k > 0 {
      PrefixCounts(h, a, k - 1);
    }
  }

  lemma {:induction false} AtMostAll(h: seq<Arrival>, k: nat)
    requires k <= |h|
    ensures AdjacentBefore(h, k) <= k
  {
    if k > 1 { AtMostAll(h, k - 1); }
  }

  lemma MatchedGrows(h: seq<Arrival>, a: Arrival)
    requires |h| > 0
    ensures Matched(h + [a]) <==> Matched(h) || ClosesAt(h + [a], |h|)
  {
    var g := h + [a];
    forall k: nat | k < |h| ensures ClosesAt(g, k) == ClosesAt(h, k) { PrefixCounts(h, a, k); }
    if Matched(h) {
      var k: nat :| k < |h| && ClosesAt(h, k);
      assert ClosesAt(g, k);
    }
    if Matched(g) {
      var k: nat :| k < |g| && ClosesAt(g, k);
      assert k < |h| ==> ClosesAt(h, k);
    }
    if ClosesAt(g, |h|) { assert |h| < |g|; }
  }

  /** The selection product stays inside 64 bits; the first adjacent edge is always taken. */
  lemma SelectsExactly(adjCount: nat, r2: nat)
    requires adjCount + 1 < WORDS && r2 < WORDS
    ensures (adjCount + 1) * r2 < MODULUS
    ensures Selects(adjCount, r2) <==> ((adjCount + 1) * r2) / WORDS == 0
    ensures adjCount == 0 ==> Selects(adjCount, r2)
  {
    hide HighWord;
    var m := adjCount + 1;
    assert m % WORDS == m;
    ProductFits(m, r2);
    HighWordOf(m * r2);
  }

  /** The iteration keeps the correspondence, the nested tests included. */
  lemma StepTracks(c: Sampler, h: seq<Arrival>, eIndex: nat, edge: Edge, fe: nat, r2: nat)
    requires Tracks(c, h) && |h| < SIZES && r2 < WORDS
    ensures Tracks(Step(c, eIndex, edge, fe, r2), NextHistory(h, eIndex, edge, fe, r2))
  {
    var a := Arrival(edge, r2);
    if fe == eIndex {
      FreshHistory(a);
    } else if |h| > 0 {
      AppendTracks(c, h, eIndex, a, fe);
    }
  }

  lemma FreshHistory(a: Arrival)
    ensures AdjacentBefore([a], 1) == 0 && SecondBefore([a], 1) == 0 && !Matched([a])
  {
    assert !SelectedAt([a], 0);
    assert SecondBefore([a], 0) == 0;
  }

  lemma AppendTracks(c: Sampler, h: seq<Arrival>, eIndex: nat, a: Arrival, fe: nat)
    requires Tracks(c, h) && 0 < |h| < SIZES && a.r2 < WORDS && fe != eIndex
    ensures Tracks(Step(c, eIndex, a.edge, fe, a.r2), h + [a])
  {
    hide Selects, Matched, MatchEdge, Close, Adjacent, Step;
    var g, n := h + [a], |h|;
    PrefixCounts(h, a, n);
    AtMostAll(h, n);
    MatchedGrows(h, a);
    SelectsExactly(c.adjCount, a.r2);
    assert SelectedAt(g, n) == (Adjacent(a.edge, c.first) && Selects(c.adjCount, a.r2));
    assert SecondBefore(g, n + 1) == if SelectedAt(g, n) then n else SecondBefore(h, n);
    StepFlattened(c, h, eIndex, a, fe);
  }

  /** The nested tests of an iteration that does not restart, one condition per variable. */
  lemma StepFlattened(c: Sampler, h: seq<Arrival>, eIndex: nat, a: Arrival, fe: nat)
    requires Tracks(c, h) && |h| > 0 && fe != eIndex
    ensures var r := Step(c, eIndex, a.edge, fe, a.r2);
            var adjacent := Adjacent(a.edge, c.first);
            var taken := adjacent && Selects(c.adjCount, a.r2);
            && r.first == c.first && r.firstValid
            && r.adjCount == (if adjacent then (c.adjCount + 1) % WORDS else c.adjCount)
            && r.second == (if taken then a.edge else c.second)
            && r.secondValid == (taken || c.secondValid)
            && r.matchEdge == (if taken then MatchEdge(c.first, a.edge) else c.matchEdge)
            && r.matched == (c.matched || (!taken && c.secondValid && Close(c.matchEdge, a.edge)))
  {
    hide Selects, Matched, MatchEdge, Close, Adjacent;
    if c.secondValid && Close(c.matchEdge, a.edge) {
      assert SelectedAt(h, SecondBefore(h, |h|));
      ClosingEdgeIsAdjacent(c.first, c.second, a.edge);
    }
  }

  /** The history after the first k iterations. */
  function History(eIndex: nat, edges: seq<Edge>, fe: seq<nat>, r2: seq<nat>, k: nat): (h: seq<Arrival>)
    requires k <= |edges| && k <= |fe| && k <= |r2|
    ensures |h| <= k
  {
    if k == 0 then []
    else NextHistory(History(eIndex, edges, fe, r2, k - 1), eIndex, edges[k - 1], fe[k - 1], r2[k - 1])
  }

  /** What the sampler reports for a history: the adjacency count added in once a match is found. */
  ghost function Report(h: seq<Arrival>, res: nat): nat {
    if Matched(h) then (AdjacentBefore(h, |h|) + res) % WORDS else res
  }

  /** reservoir_sampling. The initial values of the edge variables are arbitrary. */
  method ReservoirSampling(edgeIn: seq<Edge>, sIn: seq<nat>, resIn: seq<nat>, feIn: seq<nat>, size: int,
                           eIndex: nat, secondarySeq: nat, garbage: Edge)
      returns (edgeOut: seq<Edge>, sOut: seq<nat>, resOut: seq<nat>, feOut: seq<nat>)
    requires size < SIZES && size <= |edgeIn| && size <= |sIn| && size <= |resIn| && size <= |feIn|
    requires forall i: nat :: i < Trips(size) ==> sIn[i] < MODULUS
    ensures var n := if size < 0 then 0 else size;
            edgeOut == edgeIn[..n] && sOut == sIn[..n] && feOut == feIn[..n] && |resOut| == n
    ensures forall i: nat :: i < |resOut| && (forall k: nat :: k <= i ==> feIn[k] != eIndex) ==> resOut[i] == resIn[i]
    ensures forall f: nat, i: nat ::
      f <= i < |resOut| && feIn[f] == eIndex && (forall k: nat :: f < k <= i ==> feIn[k] != eIndex) ==>
      var h := Window(edgeIn, sIn, secondarySeq, f, i);
      resOut[i] == if exists k: nat :: k < |h| && ClosesAt(h, k) then (|Near(h, |h|)| + resIn[i]) % 0x1_0000_0000
                   else resIn[i]
  {
    hide RandomOf, Step, Tracks, Report, Window, Near, ClosesAt;
    ghost var n := Trips(size);
    ghost var r2 := seq(n, i requires 0 <= i < n => RandomOf(sIn[i], secondarySeq));
    var c := Sampler(garbage, false, garbage, false, 0, garbage, false);
    edgeOut, sOut, resOut, feOut := [], [], [], [];
    StartTracks(c);
    var i := 0;
    while i < size
      invariant 0 <= i <= n
      invariant edgeOut == edgeIn[..i] && sOut == sIn[..i] && feOut == feIn[..i] && |resOut| == i
      invariant Tracks(c, History(eIndex, edgeIn, feIn, r2, i))
      invariant forall k: nat :: k < i ==> resOut[k] == Report(History(eIndex, edgeIn, feIn, r2, k + 1), resIn[k])
    {
      var res, edge, primary, fe := resIn[i], edgeIn[i], sIn[i], feIn[i];
      edgeOut, sOut, feOut := edgeOut + [edge], sOut + [primary], feOut + [fe];
      var word := RandomOf(primary, secondarySeq);
      RandomIsWord(primary, secondarySeq);
      StepTracks(c, History(eIndex, edgeIn, feIn, r2, i), eIndex, edge, fe, word);
      c := Step(c, eIndex, edge, fe, word);
      TrackedCount(c, History(eIndex, edgeIn, feIn, r2, i + 1), res);
      resOut := resOut + [Count(c, res)];
      i := i + 1;
    }
    forall i: nat | i < n && (forall k: nat :: k <= i ==> feIn[k] != eIndex) ensures resOut[i] == resIn[i] {
      ReportedBefore(edgeIn, resIn, feIn, eIndex, r2, resOut, i);
    }
    forall f: nat, i: nat | f <= i < n && feIn[f] == eIndex && (forall k: nat :: f < k <= i ==> feIn[k] != eIndex)
      ensures
        var h := Window(edgeIn, sIn, secondarySeq, f, i);
        resOut[i] == if exists k: nat :: k < |h| && ClosesAt(h, k) then (|Near(h, |h|)| + resIn[i]) % 0x1_0000_0000
                     else resIn[i]
    {
      ReportedSince(edgeIn, sIn, resIn, feIn, eIndex, secondarySeq, r2, resOut, f, i);
    }
  }

  /** Until a first edge has arrived the incoming results are passed on. */
  lemma ReportedBefore(edges: seq<Edge>, resIn: seq<nat>, fe: seq<nat>, eIndex: nat, r2: seq<nat>, resOut: seq<nat>,
                       i: nat)
    requires i < |edges| && i < |resIn| && i < |fe| && i < |r2| && i < |resOut|
    requires resOut[i] == Report(History(eIndex, edges, fe, r2, i + 1), resIn[i])
    requires forall k: nat :: k <= i ==> fe[k] != eIndex
    ensures resOut[i] == resIn[i]
  {
    NoWindow(eIndex, edges, fe, r2, i + 1);
  }

  /** Since the last first edge, at position f: once an edge has closed the two edges in force, the number of edges
      adjacent to the first one is added to the incoming result, as a 32-bit word; before, the result is passed on. */
  lemma ReportedSince(edges: seq<Edge>, states: seq<nat>, resIn: seq<nat>, fe: seq<nat>, eIndex: nat, seqId: nat,
                      r2: seq<nat>, resOut: seq<nat>, f: nat, i: nat)
    requires f <= i < |edges| && i < |states| && i < |resIn| && i < |fe| && i < |r2| && i < |resOut|
    requires forall k: nat :: k < |r2| && k < |states| ==> r2[k] == RandomOf(states[k], seqId)
    requires resOut[i] == Report(History(eIndex, edges, fe, r2, i + 1), resIn[i])
    requires fe[f] == eIndex && forall k: nat :: f < k <= i ==> fe[k] != eIndex
    ensures var h := Window(edges, states, seqId, f, i);
            resOut[i] == if exists k: nat :: k < |h| && ClosesAt(h, k) then (|Near(h, |h|)| + resIn[i]) % 0x1_0000_0000
                         else resIn[i]
  {
    hide RandomOf, History, Window, Near, ClosesAt, AdjacentBefore;
    HistoryIsWindow(eIndex, edges, states, fe, seqId, r2, f, i);
    var h := Window(edges, states, seqId, f, i);
    AdjacentIsSize(h, |h|);
  }

  // ---------- the history is a window of the streams ----------

  /** The arrivals f to i of a run, with the words drawn from stream seqId. */
  function Window(edges: seq<Edge>, states: seq<nat>, seqId: nat, f: nat, i: nat): (h: seq<Arrival>)
    requires f <= i < |edges| && i < |states|
    ensures |h| == i + 1 - f
    ensures forall k: nat :: k < |h| ==> h[k] == Arrival(edges[f + k], RandomOf(states[f + k], seqId))
  {
    seq(i + 1 - f, k requires 0 <= k <= i - f => Arrival(edges[f + k], RandomOf(states[f + k], seqId)))
  }

  /** Before the first first edge there is no history. */
  lemma {:induction false} NoWindow(eIndex: nat, edges: seq<Edge>, fe: seq<nat>, r2: seq<nat>, k: nat)
    requires k <= |edges| && k <= |fe| && k <= |r2| && forall j: nat :: j < k ==> fe[j] != eIndex
    ensures History(eIndex, edges, fe, r2, k) == []
    decreases k
  {
    if k > 0 { NoWindow(eIndex, edges, fe, r2, k - 1); }
  }

  /** The history after iteration i is what has arrived since the last first edge, at position f. */
  lemma {:induction false} HistoryIsWindow(eIndex: nat, edges: seq<Edge>, states: seq<nat>, fe: seq<nat>, seqId: nat,
                                           r2: seq<nat>, f: nat, i: nat)
    requires f <= i < |edges| && i < |states| && i < |fe| && i < |r2|
    requires forall k: nat :: k < |r2| && k < |states| ==> r2[k] == RandomOf(states[k], seqId)
    requires fe[f] == eIndex && forall k: nat :: f < k <= i ==> fe[k] != eIndex
    ensures History(eIndex, edges, fe, r2, i + 1) == Window(edges, states, seqId, f, i)
    decreases i
  {
    hide RandomOf, Window;
    WindowEnd(edges, states, seqId, f, i);
    if i > f { HistoryIsWindow(eIndex, edges, states, fe, seqId, r2, f, i - 1); }
  }

  lemma WindowEnd(edges: seq<Edge>, states: seq<nat>, seqId: nat, f: nat, i: nat)
    requires f <= i < |edges| && i < |states|
    ensures var last := [Arrival(edges[i], RandomOf(states[i], seqId))];
            Window(edges, states, seqId, f, i)
            == if i == f then last else Window(edges, states, seqId, f, i - 1) + last
  {
    hide RandomOf;
  }

  /** The positions before k of edges adjacent to the first edge. */
  ghost function Near(h: seq<Arrival>, k: nat): (s: set<nat>)
    requires k <= |h|
    ensures forall l: nat :: l in s <==> 0 < l < k && Adjacent(h[l].edge, h[0].edge)
  {
    set l: nat | 0 < l < k && Adjacent(h[l].edge, h[0].edge)
  }

  lemma {:induction false} AdjacentIsSize(h: seq<Arrival>, k: nat)
    requires k <= |h|
    ensures AdjacentBefore(h, k) == |Near(h, k)|
    decreases k
  {
    hide Adjacent, Near;
    if k <= 1 {
      assert Near(h, k) == {};
    } else {
      AdjacentIsSize(h, k - 1);
      if Adjacent(h[k - 1].edge, h[0].edge) {
        assert Near(h, k) == Near(h, k - 1) + {k - 1};
      } else {
        assert Near(h, k) == Near(h, k - 1);
      }
    }
  }

  /** An edge is selected exactly if it is adjacent to the first edge and its random word, times the number of such
      edges up to it, stays below 2^32. */
  lemma SelectedMeans(h: seq<Arrival>, k: nat)
    requires k < |h|
    ensures SelectedAt(h, k)
      <==> k > 0 && Adjacent(h[k].edge, h[0].edge) && (|Near(h, k)| + 1) * h[k].r2 < 0x1_0000_0000
  {
    hide Adjacent, AdjacentBefore, Near;
    AdjacentIsSize(h, k);
    BelowWord((|Near(h, k)| + 1) * h[k].r2);
  }

  lemma BelowWord(n: nat)
    ensures n / WORDS == 0 <==> n < 0x1_0000_0000
  {
  }

  lemma {:induction false} LastSelected(h: seq<Arrival>, k: nat)
    requires k <= |h|
    ensures forall l: nat :: SecondBefore(h, k) < l < k ==> !SelectedAt(h, l)
    ensures SecondBefore(h, k) > 0 ==> SelectedAt(h, SecondBefore(h, k)) && SecondBefore(h, k) < k
    decreases k
  {
    hide SelectedAt;
    if k > 0 { LastSelected(h, k - 1); }
  }

  /** An edge closes the triangle exactly if it is not selected and has the two endpoints that the first edge and the
      edge selected last before it leave open. */
  lemma ClosesMeans(h: seq<Arrival>, k: nat)
    requires k < |h|
    ensures ClosesAt(h, k) <==> exists j: nat ::
      0 < j < k && SelectedAt(h, j) && (forall l: nat :: j < l <= k ==> !SelectedAt(h, l))
      && Close(MatchEdge(h[0].edge, h[j].edge), h[k].edge)
  {
    hide SelectedAt, Close, MatchEdge, SecondBefore;
    LastSelected(h, k);
    if ClosesAt(h, k) {
      var j := SecondBefore(h, k);
      assert 0 < j < k && SelectedAt(h, j) && forall l: nat :: j < l <= k ==> !SelectedAt(h, l);
    }
    if j: nat :|
      0 < j < k && SelectedAt(h, j) && (forall l: nat :: j < l <= k ==> !SelectedAt(h, l))
      && Close(MatchEdge(h[0].edge, h[j].edge), h[k].edge)
    {
      assert SecondBefore(h, k) == j;
    }
  }

  lemma StartTracks(c: Sampler)
    requires !c.firstValid && !c.matched
    ensures Tracks(c, [])
  {
  }

  lemma TrackedCount(c: Sampler, h: seq<Arrival>, res: nat)
    requires Tracks(c, h)
    ensures Count(c, res) == Report(h, res)
  {
  }

  lemma RandomIsWord(state: nat, seqId: nat)
    ensures RandomOf(state, seqId) < WORDS
  {
    hide OutputFunction;
    MultiStreamBound(state, seqId);
    OutputBound(MultiStream(state, seqId));
  }

  // ---------- what a match means ----------

  /** If every edge is ordered, as merge leaves them, and no loop has arrived since the last first edge,
      a match means that three edges of the history form a triangle on three distinct vertices. */
  lemma MatchIsTriangle(h: seq<Arrival>)
    requires forall i: nat :: i < |h| ==> Ordered(h[i].edge) && !Loop(h[i].edge)
    ensures Matched(h) ==>
      exists i: nat, j: nat :: 0 < i < j < |h| && Triangle(h[0].edge, h[i].edge, h[j].edge)
  {
    hide Triangle, Close, MatchEdge;
    if Matched(h) {
      var j: nat :| j < |h| && ClosesAt(h, j);
      var i := SecondBefore(h, j);
      assert SelectedAt(h, i);
      ClosingEdgeMakesTriangle(h[0].edge, h[i].edge, h[j].edge);
    }
  }

  lemma {:induction false} HistoryEdges(eIndex: nat, edges: seq<Edge>, fe: seq<nat>, r2: seq<nat>, k: nat, i: nat)
    requires k <= |edges| && k <= |fe| && k <= |r2| && i < |History(eIndex, edges, fe, r2, k)|
    ensures History(eIndex, edges, fe, r2, k)[i].edge in edges[..k]
    decreases k
  {
    if k > 0 {
      var h := History(eIndex, edges, fe, r2, k - 1);
      assert edges[..k] == edges[..k - 1] + [edges[k - 1]];
      if fe[k - 1] != eIndex && i < |h| {
        HistoryEdges(eIndex, edges, fe, r2, k - 1, i);
      }
    }
  }

  /** Over a whole run on ordered edges without loops, a match after k edges means that three of them form
      a triangle. */
  lemma ReportedTriangle(eIndex: nat, edges: seq<Edge>, fe: seq<nat>, r2: seq<nat>, k: nat)
    requires k <= |edges| && k <= |fe| && k <= |r2|
    requires forall e: Edge :: e in edges[..k] ==> Ordered(e) && !Loop(e)
    ensures Matched(History(eIndex, edges, fe, r2, k)) ==>
      exists e: Edge, f: Edge, g: Edge :: e in edges[..k] && f in edges[..k] && g in edges[..k] && Triangle(e, f, g)
  {
    hide Triangle, Matched, Ordered, Loop, History;
    var h := History(eIndex, edges, fe, r2, k);
    forall i: nat | i < |h| ensures h[i].edge in edges[..k] { HistoryEdges(eIndex, edges, fe, r2, k, i); }
    MatchIsTriangle(h);
    if Matched(h) {
      var i: nat, j: nat :| 0 < i < j < |h| && Triangle(h[0].edge, h[i].edge, h[j].edge);
    }
  }

  ghost function SelectingWords(adjCount: nat): set<nat> {
    set r2: nat | r2 < WORDS && Selects(adjCount, r2)
  }

  /** Of the 2^32 random words exactly ceil(2^32 / n) select the n-th adjacent edge. */
  lemma SelectionIsFair(n: nat)
    requires 0 < n < WORDS
    ensures |SelectingWords(n - 1)| == Ceil(WORDS, n)
  {
    hide Selects, Ceil;
    var m := n - 1;
    forall r2: nat | r2 < WORDS ensures Selects(m, r2) <==> r2 < Ceil(WORDS, n) {
      SelectsExactly(m, r2);
      CeilBound(WORDS, n, r2);
    }
    CeilBound(WORDS, n, WORDS);
    TimesMonotone(WORDS, 1, n);
    assert SelectingWords(m) == Between(0, Ceil(WORDS, n));
  }
}
