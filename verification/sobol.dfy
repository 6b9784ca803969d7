/** The Sobol baseline (gpu/4_Finance/SobolQRNG/sobol_gold.cpp): direction numbers, the Gray-code
    generator, and the stratification of its points. Points are the 32-bit integers before scaling. */
module Sobol {
  import opened Bits
  import opened Counting
  import opened Directions
  import opened Recurrences

  const N_DIRECTIONS: nat := 32
  const MAX_M: nat := 17

  /** One row of sobol_primitives. */
  datatype Primitive = Primitive(degree: nat, a: nat, m: seq<nat>)

  /** What the loops need of a row to stay inside m[max_m] and the direction block. */
  predicate ValidRow(p: Primitive) {
    1 <= p.degree <= MAX_M && |p.m| == MAX_M
  }

  /** The first k initial values of a row, as far as it has them, are odd. */
  ghost predicate OddValues(p: Primitive, k: nat)
    requires ValidRow(p)
  {
    forall i: nat :: i < k && i < p.degree ==> p.m[i] % 2 == 1
  }

  // ---------- direction numbers ----------

  /** The number d places back xored with itself d bits down, and the first j - 1 terms that the row selects. */
  function Feedback(p: Primitive, v: seq<nat>, i: nat, j: nat): nat
    requires ValidRow(p) && p.degree <= i <= |v| && 1 <= j <= p.degree
  {
    if j == 1 then Xor(v[i - p.degree], Shr(v[i - p.degree], p.degree))
    else Xor(Feedback(p, v, i, j - 1), if Bit(p.a, p.degree - j) then v[i - (j - 1)] else 0)
  }

  /** The value the i-th direction number of a later dimension has to have, given its predecessors. */
  ghost predicate DirectionAt(p: Primitive, v: seq<nat>, i: nat)
    requires ValidRow(p) && i < |v|
  {
    if i < p.degree then v[i] == Low(Shl(p.m[i], 31 - i), 32)
    else v[i] == Feedback(p, v, i, p.degree)
  }

  ghost predicate DirectionsOf(table: seq<Primitive>, dim: nat, v: seq<nat>)
    requires dim < |table| && (dim > 0 ==> ValidRow(table[dim]))
  {
    && |v| == N_DIRECTIONS
    && forall i: nat :: i < N_DIRECTIONS ==>
         if dim == 0 then v[i] == Low(Shl(1, 31 - i), 32) else DirectionAt(table[dim], v, i)
  }

  lemma {:induction false} FeedbackPrefix(p: Primitive, v: seq<nat>, w: seq<nat>, i: nat, j: nat)
    requires ValidRow(p) && p.degree <= i <= |v| && i <= |w| && 1 <= j <= p.degree
    requires forall k: nat :: k < i ==> v[k] == w[k]
    ensures Feedback(p, v, i, j) == Feedback(p, w, i, j)
    decreases j
  {
    if j > 1 { FeedbackPrefix(p, v, w, i, j - 1); }
  }

  lemma InitialBanded(m: nat, b: nat)
    requires b < 32
    ensures var v := Low(Shl(m, 31 - b), 32); BandedAt(v, 32, b) && Bit(v, 31 - b) == (m % 2 == 1)
  {
    var v := Low(Shl(m, 31 - b), 32);
    forall i: nat ensures Bit(v, i) == (31 - b <= i < 32 && Bit(m, i - (31 - b))) {
      BitLow(Shl(m, 31 - b), 32, i);
      BitShl(m, 31 - b, i);
    }
    LowestBit(m);
  }

  lemma ShiftedTermBanded(x: nat, d: nat, i: nat)
    requires 1 <= d <= i < 32 && BandedAt(x, 32, i - d)
    ensures var y := Xor(x, Shr(x, d)); BandedAt(y, 32, i) && Bit(y, 31 - i) == Bit(x, 31 - (i - d))
  {
    hide Bit, Xor, Shr, Pow2;
    XorBound(x, Shr(x, d), 32);
    forall k: nat | k <= 31 - i ensures Bit(Xor(x, Shr(x, d)), k) == Bit(x, k + d) {
      BitXor(x, Shr(x, d), k);
      BitShr(x, d, k);
    }
  }

  lemma LaterTermBanded(f: nat, y: nat, b: nat, i: nat)
    requires b < i < 32 && BandedAt(f, 32, i) && (y == 0 || BandedAt(y, 32, b))
    ensures BandedAt(Xor(f, y), 32, i) && Bit(Xor(f, y), 31 - i) == Bit(f, 31 - i)
  {
    hide Bit, Xor, Pow2;
    XorBound(f, y, 32);
    forall k: nat | k <= 31 - i ensures Bit(Xor(f, y), k) == Bit(f, k) {
      BitXor(f, y, k);
      BitZero(k);
    }
  }

  /** The terms of the recurrence keep a multiple of 2^(31-i): only the shifted one can have that bit. */
  lemma {:induction false} FeedbackBanded(p: Primitive, v: seq<nat>, i: nat, j: nat)
    requires ValidRow(p) && p.degree <= i < 32 && i <= |v| && 1 <= j <= p.degree
    requires forall b: nat :: b < i ==> BandedAt(v[b], 32, b)
    ensures BandedAt(Feedback(p, v, i, j), 32, i)
    ensures Bit(Feedback(p, v, i, j), 31 - i) == Bit(v[i - p.degree], 31 - (i - p.degree))
    decreases j
  {
    hide Bit, Xor, Shr, BandedAt;
    if j == 1 {
      ShiftedTermBanded(v[i - p.degree], p.degree, i);
    } else {
      FeedbackBanded(p, v, i, j - 1);
      var y := if Bit(p.a, p.degree - j) then v[i - (j - 1)] else 0;
      LaterTermBanded(Feedback(p, v, i, j - 1), y, i - (j - 1), i);
    }
  }

  /** The initial value that decides the parity of direction number b is odd. */
  ghost predicate OddAt(p: Primitive, b: nat)
    requires ValidRow(p)
  {
    p.m[b % p.degree] % 2 == 1
  }

  lemma OddAtPeriod(p: Primitive, b: nat)
    requires ValidRow(p)
    ensures b < p.degree ==> OddAt(p, b) == (p.m[b] % 2 == 1)
    ensures b >= p.degree ==> OddAt(p, b) == OddAt(p, b - p.degree)
  {
    var d := p.degree;
    if b >= d { DivModUnique(b, d, (b - d) / d + 1, (b - d) % d); }
  }

  lemma {:induction false} PrefixBanded(p: Primitive, v: seq<nat>, i: nat)
    requires ValidRow(p) && |v| == 32 && i <= 32
    requires forall k: nat :: k < 32 ==> DirectionAt(p, v, k)
    ensures forall b: nat :: b < i ==> BandedAt(v[b], 32, b)
    ensures forall b: nat :: b < i ==> DiagonalAt(v, b) == OddAt(p, b)
    decreases i
  {
    hide BandedAt, Bit, Low, Shl, Feedback, OddAt;
    if i > 0 {
      var b := i - 1;
      PrefixBanded(p, v, b);
      assert DirectionAt(p, v, b);
      OddAtPeriod(p, b);
      if b < p.degree {
        InitialBanded(p.m[b], b);
      } else {
        FeedbackBanded(p, v, b, p.degree);
        assert DiagonalAt(v, b - p.degree) == OddAt(p, b - p.degree);
      }
    }
  }

  /** In every dimension v[b] is a multiple of 2^(31-b), odd exactly when its initial value is. */
  lemma DirectionsBanded(table: seq<Primitive>, dim: nat, v: seq<nat>)
    requires dim < |table| && (dim > 0 ==> ValidRow(table[dim])) && DirectionsOf(table, dim, v)
    ensures Banded(v, 32)
    ensures forall b: nat :: b < 32 ==> DiagonalAt(v, b) == (dim == 0 || OddAt(table[dim], b))
  {
    hide BandedAt, Bit, Low, Shl, DirectionAt, OddAt;
    if dim == 0 {
      forall b: nat | b < 32 ensures BandedAt(v[b], 32, b) && DiagonalAt(v, b) { InitialBanded(1, b); }
    } else {
      PrefixBanded(table[dim], v, 32);
    }
  }

  /** The 32 direction numbers stored from base on. */
  ghost function Slice(directions: array<nat>, base: nat): seq<nat>
    requires base + N_DIRECTIONS <= directions.Length
    reads directions
  {
    directions[base..base + N_DIRECTIONS]
  }

  /** The feedback loop for direction number i; v is the block before. */
  method InitDirection(p: Primitive, directions: array<nat>, base: nat, i: nat, ghost v: seq<nat>)
    requires ValidRow(p) && base + N_DIRECTIONS <= directions.Length && p.degree <= i < N_DIRECTIONS
    requires v == Slice(directions, base)
    modifies directions
    ensures directions[base + i] == Feedback(p, v, i, p.degree)
    ensures forall k: nat :: k < directions.Length && k != base + i ==> directions[k] == old(directions[k])
  {
    hide Xor, Shr, Bit;
    var d := p.degree;
    ghost var before := directions[..];
    var x := directions[base + i - d];
    directions[base + i] := Xor(x, Shr(x, d));
    var j := 1;
    while j < d
      invariant 1 <= j <= d
      invariant directions[base + i] == Feedback(p, v, i, j)
      invariant forall k: nat :: k < directions.Length && k != base + i ==> directions[k] == before[k]
    {
      var y := if Bit(p.a, d - 1 - j) then directions[base + i - j] else 0;
      assert directions[base + i - j] == before[base + i - j] == v[i - j];
      directions[base + i] := Xor(directions[base + i], y);
      j := j + 1;
    }
  }

  /** initSobolDirectionVectors, one later dimension: the block of 32 words from base. */
  method InitDimension(p: Primitive, directions: array<nat>, base: nat)
    requires ValidRow(p) && base + N_DIRECTIONS <= directions.Length
    modifies directions
    ensures forall i: nat :: i < N_DIRECTIONS ==> DirectionAt(p, Slice(directions, base), i)
    ensures forall k: nat :: (k < directions.Length && !(base <= k < base + N_DIRECTIONS)) ==>
      directions[k] == old(directions[k])
  {
    hide Shl, Low, Feedback;
    var d := p.degree;
    var i := 0;
    while i < d
      invariant i <= d
      invariant forall k: nat :: k < i ==> directions[base + k] == Low(Shl(p.m[k], 31 - k), 32)
      invariant forall k: nat :: (k < directions.Length && !(base <= k < base + i)) ==>
        directions[k] == old(directions[k])
    {
      directions[base + i] := Low(Shl(p.m[i], 31 - i), 32);
      i := i + 1;
    }
    while i < N_DIRECTIONS
      invariant d <= i <= N_DIRECTIONS
      invariant forall k: nat :: k < i ==> DirectionAt(p, Slice(directions, base), k)
      invariant forall k: nat :: (k < directions.Length && !(base <= k < base + N_DIRECTIONS)) ==>
        directions[k] == old(directions[k])
    {
      ghost var v := Slice(directions, base);
      InitDirection(p, directions, base, i, v);
      Extended(p, v, Slice(directions, base), i);
      i := i + 1;
    }
  }

  lemma Extended(p: Primitive, v: seq<nat>, w: seq<nat>, i: nat)
    requires ValidRow(p) && |v| == |w| == N_DIRECTIONS && p.degree <= i < N_DIRECTIONS
    requires forall k: nat :: k < i ==> w[k] == v[k] && DirectionAt(p, v, k)
    requires w[i] == Feedback(p, v, i, p.degree)
    ensures forall k: nat :: k <= i ==> DirectionAt(p, w, k)
  {
    forall k: nat | k <= i ensures DirectionAt(p, w, k) {
      if k >= p.degree { FeedbackPrefix(p, v, w, k, p.degree); }
    }
  }

  /** The direction numbers of one dimension. */
  function Block(directions: seq<nat>, dim: nat): (v: seq<nat>)
    requires N_DIRECTIONS * (dim + 1) <= |directions|
    ensures |v| == 32 && forall i: nat :: i < 32 ==> v[i] == directions[32 * dim + i]
  {
    directions[N_DIRECTIONS * dim..N_DIRECTIONS * (dim + 1)]
  }

  /** The first dimension: all m are 1. */
  method InitFirstDimension(directions: array<nat>)
    requires N_DIRECTIONS <= directions.Length
    modifies directions
    ensures forall k: nat :: k < N_DIRECTIONS ==> directions[k] == Low(Shl(1, 31 - k), 32)
    ensures forall k: nat :: N_DIRECTIONS <= k < directions.Length ==> directions[k] == old(directions[k])
  {
    hide Low, Shl;
    var i := 0;
    while i < N_DIRECTIONS
      invariant i <= N_DIRECTIONS
      invariant forall k: nat :: N_DIRECTIONS <= k < directions.Length ==> directions[k] == old(directions[k])
      invariant forall k: nat :: k < i ==> directions[k] == Low(Shl(1, 31 - k), 32)
    {
      directions[i] := Low(Shl(1, 31 - i), 32);
      i := i + 1;
    }
  }

  /** initSobolDirectionVectors: every dimension gets its 32 direction numbers, of which the first are shifted initial
      values. */
  method InitSobolDirectionVectors(table: seq<Primitive>, nDimensions: nat, directions: array<nat>)
    requires nDimensions <= |table| && N_DIRECTIONS * nDimensions <= directions.Length
    requires forall dim: nat :: 0 < dim < nDimensions ==> ValidRow(table[dim])
    modifies directions
    ensures forall dim: nat :: dim < nDimensions ==> DirectionsOf(table, dim, Block(directions[..], dim))
    ensures forall dim: nat, i: nat ::
      dim < nDimensions && i < 32 && (dim > 0 ==> ValidRow(table[dim]) && i < table[dim].degree) ==>
      Block(directions[..], dim)[i] == ((if dim == 0 then 1 else table[dim].m[i]) * Pow2(31 - i)) % 0x1_0000_0000
    ensures forall x: nat :: 32 * nDimensions <= x < directions.Length ==> directions[x] == old(directions[x])
  {
    hide DirectionAt, Low, Shl, DirectionsOf, Pow2;
    var dim := 0;
    while dim < nDimensions
      invariant dim <= nDimensions
      invariant forall e: nat :: e < dim ==> DirectionsOf(table, e, Block(directions[..], e))
      invariant forall x: nat :: 32 * dim <= x < directions.Length ==> directions[x] == old(directions[x])
    {
      ghost var before := directions[..];
      if dim == 0 {
        InitFirstDimension(directions);
        IsFirstDimension(table, Block(directions[..], 0));
      } else {
        InitDimension(table[dim], directions, N_DIRECTIONS * dim);
        assert Block(directions[..], dim) == Slice(directions, N_DIRECTIONS * dim);
        IsLaterDimension(table, dim, Block(directions[..], dim));
      }
      forall e: nat | e < dim ensures DirectionsOf(table, e, Block(directions[..], e)) {
        assert Block(directions[..], e) == Block(before, e);
      }
      dim := dim + 1;
    }
    forall dim: nat, i: nat
      | dim < nDimensions && i < 32 && (dim > 0 ==> ValidRow(table[dim]) && i < table[dim].degree)
      ensures Block(directions[..], dim)[i]
           == ((if dim == 0 then 1 else table[dim].m[i]) * Pow2(31 - i)) % 0x1_0000_0000
    {
      InitialDirection(table, dim, Block(directions[..], dim), i);
    }
  }

  lemma IsFirstDimension(table: seq<Primitive>, v: seq<nat>)
    requires |table| > 0 && |v| == N_DIRECTIONS
    requires forall k: nat :: k < N_DIRECTIONS ==> v[k] == Low(Shl(1, 31 - k), 32)
    ensures DirectionsOf(table, 0, v)
  {
  }

  lemma IsLaterDimension(table: seq<Primitive>, dim: nat, v: seq<nat>)
    requires 0 < dim < |table| && ValidRow(table[dim]) && |v| == N_DIRECTIONS
    requires forall i: nat :: i < N_DIRECTIONS ==> DirectionAt(table[dim], v, i)
    ensures DirectionsOf(table, dim, v)
  {
  }

  /** The first direction numbers are the initial values, shifted to the top of 32-bit words. */
  lemma InitialDirection(table: seq<Primitive>, dim: nat, v: seq<nat>, i: nat)
    requires dim < |table| && (dim > 0 ==> ValidRow(table[dim])) && DirectionsOf(table, dim, v)
    requires i < 32 && (dim > 0 ==> i < table[dim].degree)
    ensures v[i] == ((if dim == 0 then 1 else table[dim].m[i]) * Pow2(31 - i)) % 0x1_0000_0000
  {
    hide Pow2, Low, Shl, Feedback;
    var m := if dim == 0 then 1 else table[dim].m[i];
    assert v[i] == Low(Shl(m, 31 - i), 32) by {
      if dim > 0 { assert DirectionAt(table[dim], v, i); }
    }
    ShlIsTimes(m, 31 - i);
    LowOfWord(m * Pow2(31 - i));
  }

  lemma LowOfWord(n: nat)
    ensures Low(n, 32) == n % 0x1_0000_0000
  {
    hide Low, Shr, Pow2;
    Pow2At32();
    SplitAt(n, 32);
    assert Low(n, 32) < Pow2(32) by { LowBound(n, 32); }
    DivModUnique(n, 0x1_0000_0000, Shr(n, 32), Low(n, 32));
  }

  // ---------- the recurrence in polynomial form ----------

  /** The primitive polynomial that a row encodes: x^d + a[1] x^(d-1) + .. + a[d-1] x + 1. */
  function Polynomial(p: Primitive): nat
    requires p.degree >= 1
  {
    Pow2(p.degree) + 2 * Low(p.a, p.degree - 1) + 1
  }

  lemma PolynomialBit(p: Primitive, i: nat)
    requires p.degree >= 1
    ensures Bit(Polynomial(p), i) == (i == 0 || i == p.degree || (0 < i < p.degree && Bit(p.a, i - 1)))
  {
    hide Pow2;
    var d := p.degree;
    assert Pow2(d) == 2 * Pow2(d - 1) by { DoublePow2(d); }
    if i == 0 {
      LowestBit(Polynomial(p));
    } else {
      var a := Low(p.a, d - 1);
      assert Polynomial(p) / 2 == 1 * Pow2(d - 1) + a;
      JoinAt(1, a, d - 1);
      var n := 1 * Pow2(d - 1) + a;
      assert Bit(Polynomial(p), i) == Bit(n, i - 1);
      if i - 1 < d - 1 {
        BitLow(n, d - 1, i - 1);
        BitLow(p.a, d - 1, i - 1);
      } else {
        BitShr(n, d - 1, i - d);
        OneBit(i - d);
      }
    }
  }

  lemma DoublePow2(d: nat)
    requires d >= 1
    ensures Pow2(d) == 2 * Pow2(d - 1)
  {
  }

  lemma OneBit(k: nat)
    ensures Bit(1, k) == (k == 0)
  {
    if k > 0 { BitZero(k - 1); }
  }

  /** The part of the recurrence done after j terms, against the coefficients still to come. */
  lemma {:induction false} FeedbackActs(p: Primitive, v: seq<nat>, i: nat, j: nat, k: nat, s: nat -> bool)
    requires ValidRow(p) && p.degree <= i < |v| && 1 <= j <= p.degree
    requires forall n: nat :: n < |v| ==> s(n) == Bit(v[n], k)
    ensures var d := p.degree;
            Act(Low(Polynomial(p), d), s, i - d)
            == (((Bit(Feedback(p, v, i, j), k) != Bit(v[i - d], k)) != Bit(v[i - d], k + d))
                != Act(Low(Polynomial(p), d - j + 1), s, i - d))
    decreases j
  {
    hide Act, Xor, Low, Bit, Shr, Pow2, Polynomial;
    var d, x := p.degree, v[i - p.degree];
    if j == 1 {
      BitXor(x, Shr(x, d), k);
      BitShr(x, d, k);
    } else {
      FeedbackActs(p, v, i, j - 1, k, s);
      var e := d - j + 1;
      var y := if Bit(p.a, d - j) then v[i - (j - 1)] else 0;
      BitXor(Feedback(p, v, i, j - 1), y, k);
      BitZero(k);
      PolynomialBit(p, e);
      LowStep(Polynomial(p), e);
      var t := if Bit(Polynomial(p), e) then Pow2(e) else 0;
      ActXor(Low(Polynomial(p), e), t, s, i - d);
      ActPow2(e, s, i - d);
      ActZero(s, i - d);
    }
  }

  /** The Bratley and Fox recurrence: the primitive polynomial applied to the direction numbers gives v[i-d] / 2^d,
      bit for bit. */
  lemma BratleyFox(p: Primitive, v: seq<nat>, i: nat, k: nat, s: nat -> bool)
    requires ValidRow(p) && p.degree <= i < |v| && DirectionAt(p, v, i)
    requires forall n: nat :: n < |v| ==> s(n) == Bit(v[n], k)
    ensures Act(Polynomial(p), s, i - p.degree) == Bit(v[i - p.degree], k + p.degree)
  {
    hide Act, Xor, Low, Bit, Shr, Pow2, Polynomial, Feedback;
    var d := p.degree;
    FeedbackActs(p, v, i, d, k, s);
    PolynomialBit(p, 0);
    PolynomialBit(p, d);
    LowStep(Polynomial(p), 0);
    LowStep(Polynomial(p), d);
    PolynomialBelow(p);
    var u := i - d;
    ActXor(Low(Polynomial(p), d), Pow2(d), s, u);
    ActPow2(d, s, u);
    ActPow2(0, s, u);
    ActXor(Low(Polynomial(p), 0), Pow2(0), s, u);
    NoLow(Polynomial(p));
    ActZero(s, u);
  }

  lemma NoLow(n: nat)
    ensures Low(n, 0) == 0
  {
  }

  lemma PolynomialBelow(p: Primitive)
    requires p.degree >= 1
    ensures Low(Polynomial(p), p.degree + 1) == Polynomial(p)
  {
    hide Low;
    LowBound(p.a, p.degree - 1);
    DoublePow2(p.degree);
    DoublePow2(p.degree + 1);
    LowSmall(Polynomial(p), p.degree + 1);
  }

  // ---------- find first set ----------

  /** Position of the lowest set bit, counted from one; zero for the zero word. */
  method Ffs(i: nat) returns (count: nat)
    requires IsWord(i)
    ensures i == 0 ==> count == 0
    ensures i != 0 ==> 1 <= count <= 32 && Bit(i, count - 1) && forall j: nat :: j < count - 1 ==> !Bit(i, j)
  {
    hide Searching, Bit, Shr, Low, Pow2;
    var v := i;
    if v == 0 {
      count := 0;
    } else {
      count := 2;
      FfsStart(i);
      if Low(v, 16) == 0 {
        Halve(i, v, count, 16, 32);
        v := Shr(v, 16);
        count := count + 16;
      } else {
        Keep(i, v, count, 16, 32);
      }
      if Low(v, 8) == 0 {
        Halve(i, v, count, 8, 16);
        v := Shr(v, 8);
        count := count + 8;
      } else {
        Keep(i, v, count, 8, 16);
      }
      if Low(v, 4) == 0 {
        Halve(i, v, count, 4, 8);
        v := Shr(v, 4);
        count := count + 4;
      } else {
        Keep(i, v, count, 4, 8);
      }
      if Low(v, 2) == 0 {
        Halve(i, v, count, 2, 4);
        v := Shr(v, 2);
        count := count + 2;
      } else {
        Keep(i, v, count, 2, 4);
      }
      Found(i, v, count);
      count := count - v % 2;
    }
  }

  /** The search has skipped count - 2 zero bits and the next w bits of the word are not all zero. */
  ghost predicate Searching(i: nat, v: nat, count: nat, w: nat) {
    && count >= 2 && v == Shr(i, count - 2)
    && (forall j: nat :: j < count - 2 ==> !Bit(i, j))
    && Low(v, w) != 0 && count - 2 + w <= 32
  }

  lemma FfsStart(i: nat)
    requires IsWord(i) && i != 0
    ensures Searching(i, i, 2, 32)
  {
    LowSmall(i, 32);
  }

  lemma LowBits(v: nat, h: nat)
    ensures Low(v, h) == 0 ==> forall j: nat :: j < h ==> !Bit(v, j)
    ensures (forall j: nat :: j < h ==> !Bit(v, j)) ==> Low(v, h) == 0
  {
    if Low(v, h) == 0 {
      forall j: nat | j < h ensures !Bit(v, j) {
        BitLow(v, h, j);
        BitZero(j);
      }
    } else if forall j: nat :: j < h ==> !Bit(v, j) {
      forall j: nat | j < h ensures Bit(Low(v, h), j) == Bit(0, j) {
        BitLow(v, h, j);
        BitZero(j);
      }
      SameBits(Low(v, h), 0, h);
    }
  }

  lemma Halve(i: nat, v: nat, count: nat, h: nat, w: nat)
    requires w == 2 * h && Searching(i, v, count, w) && Low(v, h) == 0
    ensures Searching(i, Shr(v, h), count + h, h)
  {
    hide Bit, Shr, Low;
    ShrShr(i, count - 2, h);
    LowBits(v, h);
    LowBits(v, w);
    LowBits(Shr(v, h), h);
    forall j: nat ensures Bit(v, j) == Bit(i, j + (count - 2)) { BitShr(i, count - 2, j); }
    forall j: nat ensures Bit(Shr(v, h), j) == Bit(v, j + h) { BitShr(v, h, j); }
    forall j: nat | j < count + h - 2 ensures !Bit(i, j) {
      if j >= count - 2 { assert !Bit(v, j - (count - 2)); }
    }
    if Low(Shr(v, h), h) == 0 {
      forall j: nat | j < w ensures !Bit(v, j) {
        if j >= h { assert !Bit(Shr(v, h), j - h); }
      }
    }
  }

  lemma Keep(i: nat, v: nat, count: nat, h: nat, w: nat)
    requires h <= w && Searching(i, v, count, w) && Low(v, h) != 0
    ensures Searching(i, v, count, h)
  {
  }

  lemma Found(i: nat, v: nat, count: nat)
    requires Searching(i, v, count, 2)
    ensures var p := count - v % 2 - 1; 0 <= p < 32 && Bit(i, p) && forall j: nat :: j < p ==> !Bit(i, j)
  {
    BitShr(i, count - 2, 0);
    BitShr(i, count - 2, 1);
    assert Low(v, 2) == v % 2 + 2 * (v / 2 % 2 + 2 * Low(v / 2 / 2, 0));
    assert Bit(v, 0) == (v % 2 == 1) && Bit(v, 1) == (v / 2 % 2 == 1);
  }

  // ---------- the Gray-code generator ----------

  /** The complement of a 32-bit word. */
  function Complement(m: nat): nat
    requires IsWord(m)
  {
    Pow2(32) - 1 - m
  }

  lemma {:induction false} ComplementBit(m: nat, k: nat, j: nat)
    requires m < Pow2(k) && j < k
    ensures Bit(Pow2(k) - 1 - m, j) == !Bit(m, j)
    decreases k
  {
    HalfComplement(Pow2(k - 1), m);
    if j > 0 { ComplementBit(m / 2, k - 1, j - 1); }
  }

  lemma HalfComplement(p: nat, m: nat)
    requires m < 2 * p
    ensures (2 * p - 1 - m) / 2 == p - 1 - m / 2 && ((2 * p - 1 - m) % 2 == 0) == (m % 2 == 1)
  {
  }

  /** The next point differs by the direction number of the lowest zero bit. */
  lemma PointStep(v: seq<nat>, m: nat, z: nat)
    requires |v| == N_DIRECTIONS && z < N_DIRECTIONS
    requires !Bit(m, z) && forall j: nat :: j < z ==> Bit(m, j)
    ensures Point(v, m + 1) == Xor(Point(v, m), v[z])
  {
    hide Gray;
    GrayStep(m, z);
    CombineLinear(v, 0, Gray(m), Pow2(z));
    CombineOfPower(v, 0, z);
  }

  lemma FirstPoint(v: seq<nat>)
    ensures Point(v, 0) == 0
  {
    CombineOfZero(v, 0);
  }

  /** How many elements a row writes: without vectors still the first. */
  function Written(nVectors: nat): nat {
    if nVectors == 0 then 1 else nVectors
  }

  method SobolDimension(nVectors: nat, directions: array<nat>, base: nat, output: array<nat>, at: nat)
    requires nVectors < Pow2(31)
    requires base + N_DIRECTIONS <= directions.Length && at + Written(nVectors) <= output.Length && directions != output
    modifies output
    ensures forall i: nat :: i < Written(nVectors) ==> output[at + i] == Point(Slice(directions, base), i)
    ensures forall k: nat :: k < output.Length && !(at <= k < at + Written(nVectors)) ==> output[k] == old(output[k])
  {
    hide Point, Xor, Bit, Pow2;
    ghost var v := Slice(directions, base);
    var x := 0;
    output[at] := 0;
    FirstPoint(v);
    var i := 1;
    while i < nVectors
      invariant 1 <= i <= Written(nVectors)
      invariant v == Slice(directions, base)
      invariant x == Point(v, i - 1)
      invariant forall k: nat :: k < i ==> output[at + k] == Point(v, k)
      invariant forall k: nat :: k < output.Length && !(at <= k < at + i) ==> output[k] == old(output[k])
    {
      var c := LowestZero(i - 1);
      PointStep(v, i - 1, c);
      x := Xor(x, directions[base + c]);
      output[at + i] := x;
      i := i + 1;
    }
  }

  /** The lowest zero bit of m, found as the lowest set bit of its complement: which direction number to add. */
  method LowestZero(m: nat) returns (z: nat)
    requires m < Pow2(31) - 1
    ensures z < N_DIRECTIONS && !Bit(m, z) && forall j: nat :: j < z ==> Bit(m, j)
  {
    ghost var w := Pow2(31);
    assert Pow2(32) == 2 * w;
    var count := Ffs(Complement(m));
    z := count - 1;
    forall j: nat | j <= z ensures Bit(Complement(m), j) == !Bit(m, j) {
      ComplementBit(m, 32, j);
    }
  }

  /** Row d of the output holds the first n points of direction numbers v. */
  ghost predicate RowOf(output: seq<nat>, n: nat, d: nat, v: seq<nat>) {
    n * d + n <= |output| && forall i: nat :: i < n ==> output[n * d + i] == Point(v, i)
  }

  /** The elements written for nDimensions rows are those below. */
  function Extent(nVectors: nat, nDimensions: nat): nat {
    if nDimensions == 0 then 0 else nVectors * (nDimensions - 1) + Written(nVectors)
  }

  method SobolCPU(nVectors: nat, nDimensions: nat, directions: array<nat>, output: array<nat>)
    requires nVectors < Pow2(31)
    requires N_DIRECTIONS * nDimensions <= directions.Length && Extent(nVectors, nDimensions) <= output.Length
    requires directions != output
    modifies output
    ensures forall d: nat :: d < nDimensions ==> RowOf(output[..], nVectors, d, Block(directions[..], d))
    ensures nVectors == 0 && nDimensions > 0 ==> output[0] == 0
    ensures forall k: nat :: Extent(nVectors, nDimensions) <= k < output.Length ==> output[k] == old(output[k])
  {
    hide RowOf, Point, Pow2;
    var d := 0;
    while d < nDimensions
      invariant d <= nDimensions
      invariant directions[..] == old(directions[..])
      invariant forall e: nat :: e < d ==> RowOf(output[..], nVectors, e, Block(directions[..], e))
      invariant nVectors == 0 && d > 0 ==> output[0] == 0
      invariant forall k: nat :: Extent(nVectors, d) <= k < output.Length ==> output[k] == old(output[k])
    {
      ExtentGrows(nVectors, d, nDimensions);
      ghost var before := output[..];
      SobolDimension(nVectors, directions, N_DIRECTIONS * d, output, nVectors * d);
      FirstPoint(Slice(directions, N_DIRECTIONS * d));
      assert Block(directions[..], d) == Slice(directions, N_DIRECTIONS * d);
      NewRow(output[..], nVectors, d, Block(directions[..], d));
      forall e: nat | e < d ensures RowOf(output[..], nVectors, e, Block(directions[..], e)) {
        OldRow(before, output[..], nVectors, e, d, Block(directions[..], e));
      }
      d := d + 1;
    }
  }

  /** Element i of row d is the i-th point of dimension d. */
  lemma RowElement(output: seq<nat>, n: nat, d: nat, v: seq<nat>, i: nat)
    requires RowOf(output, n, d, v) && i < n
    ensures n * d + i < |output| && output[n * d + i] == Point(v, i)
  {
  }

  /** All rows lie one after the other; without vectors only the first element is written. */
  lemma ExtentIs(n: nat, dims: nat)
    ensures Extent(n, dims) == if n == 0 < dims then 1 else n * dims
  {
    assert dims > 0 ==> n * dims == n * (dims - 1) + n;
  }

  lemma ExtentGrows(n: nat, d: nat, dims: nat)
    requires d < dims
    ensures Extent(n, d) <= Extent(n, d + 1) == n * d + Written(n) <= Extent(n, dims)
  {
    TimesMonotone(n, d, dims - 1);
    if d > 0 { Within(n, d - 1, d); }
  }

  lemma NewRow(output: seq<nat>, n: nat, d: nat, v: seq<nat>)
    requires n * d + n <= |output| && forall i: nat :: i < n ==> output[n * d + i] == Point(v, i)
    ensures RowOf(output, n, d, v)
  {
  }

  lemma OldRow(before: seq<nat>, output: seq<nat>, n: nat, e: nat, d: nat, v: seq<nat>)
    requires |output| == |before| && e < d && RowOf(before, n, e, v)
    requires forall k: nat :: k < |output| && k < n * d ==> output[k] == before[k]
    ensures RowOf(output, n, e, v)
  {
    hide Point;
    Within(n, e, d);
  }

  lemma Within(n: nat, e: nat, d: nat)
    requires e < d
    ensures n * e + n <= n * d
  {
    TimesMonotone(n, e + 1, d);
    assert n * (e + 1) == n * e + n;
  }

  // ---------- stratification ----------

  /** In every dimension: the k top bits of the points of every aligned block of 2^k indices take each value
      exactly once if and only if the first k initial values of the row are odd. */
  lemma SobolStratified(table: seq<Primitive>, dim: nat, v: seq<nat>, k: nat)
    requires dim < |table| && (dim > 0 ==> ValidRow(table[dim])) && DirectionsOf(table, dim, v) && k <= 32
    ensures Stratified((n: nat) => TopBits(v, k, n), k) <==> (dim == 0 || OddValues(table[dim], k))
  {
    assert |v| == 32;
    hide Stratified, TopBits, DirectionsOf, DiagonalAt, Banded, OddAt, OddValues;
    DirectionsBanded(table, dim, v);
    StratifiedIffOdd(v, 32, k);
    if dim > 0 { OddValuesAt(table[dim], k); }
  }

  lemma OddValuesAt(p: Primitive, k: nat)
    requires ValidRow(p)
    ensures (forall b: nat :: b < k ==> OddAt(p, b)) <==> OddValues(p, k)
  {
    forall i: nat | i < p.degree ensures OddAt(p, i) == (p.m[i] % 2 == 1) { OddAtPeriod(p, i); }
    forall b: nat | b < k ensures b % p.degree <= b && OddAt(p, b) == OddAt(p, b % p.degree) {
      RemainderBelow(b, p.degree);
    }
  }

  lemma RemainderBelow(b: nat, d: nat)
    requires d > 0
    ensures b % d <= b
  {
  }

  /** The row of the table for dimension index 446, with its unused places zero: the eleventh value is even. */
  const Row446: Primitive :=
    Primitive(12, 1555, [1, 1, 7, 13, 15, 19, 57, 11, 151, 405, 2014, 2607, 0, 0, 0, 0, 0])

  /** In that dimension the k top bits are stratified for k up to 10 and for no more. */
  lemma Dimension446(table: seq<Primitive>, v: seq<nat>, k: nat)
    requires |table| > 446 && table[446] == Row446 && DirectionsOf(table, 446, v) && k <= 32
    ensures Stratified((n: nat) => TopBits(v, k, n), k) <==> k <= 10
  {
    hide Stratified, TopBits, DirectionsOf;
    SobolStratified(table, 446, v, k);
    var m := Row446.m;
    assert m[10] % 2 == 0 && forall i: nat :: i < 10 ==> m[i] % 2 == 1;
  }
}
