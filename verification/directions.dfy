/** Digital sequences over GF(2): points are xor combinations of direction numbers, and a linear key
    that vanishes only at zero stratifies every aligned block of indices. */
module Directions {
  import opened Bits
  import opened Counting

  /** The xor of v[b + j] over the set bits j of n. */
  function Combine(v: seq<nat>, b: nat, n: nat): nat
    decreases |v| - b
  {
    if b >= |v| then 0 else Xor(if n % 2 == 1 then v[b] else 0, Combine(v, b + 1, n / 2))
  }

  lemma {:induction false} CombineLinear(v: seq<nat>, b: nat, m: nat, n: nat)
    ensures Combine(v, b, Xor(m, n)) == Xor(Combine(v, b, m), Combine(v, b, n))
    decreases |v| - b
  {
    if b >= |v| {
      XorZero(0);
    } else {
      XorHalf(m, n);
      CombineLinear(v, b + 1, m / 2, n / 2);
      var p, q := if m % 2 == 1 then v[b] else 0, if n % 2 == 1 then v[b] else 0;
      XorSelf(v[b]);
      XorZero(v[b]);
      XorZero(0);
      XorSwap(p, Combine(v, b + 1, m / 2), q, Combine(v, b + 1, n / 2));
    }
  }

  lemma {:induction false} CombineBound(v: seq<nat>, b: nat, n: nat, w: nat)
    requires forall i: nat :: i < |v| ==> v[i] < Pow2(w)
    ensures Combine(v, b, n) < Pow2(w)
    decreases |v| - b
  {
    if b < |v| {
      CombineBound(v, b + 1, n / 2, w);
      XorBound(if n % 2 == 1 then v[b] else 0, Combine(v, b + 1, n / 2), w);
    }
  }

  lemma {:induction false} CombineOfZero(v: seq<nat>, b: nat)
    ensures Combine(v, b, 0) == 0
    decreases |v| - b
  {
    if b < |v| {
      CombineOfZero(v, b + 1);
      XorZero(0);
    }
  }

  /** One direction number alone. */
  lemma {:induction false} CombineOfPower(v: seq<nat>, b: nat, j: nat)
    requires b + j < |v|
    ensures Combine(v, b, Pow2(j)) == v[b + j]
    decreases j
  {
    XorZero(v[b + j]);
    if j == 0 {
      CombineOfZero(v, b + 1);
    } else {
      CombineOfPower(v, b + 1, j - 1);
    }
  }

  // ---------- linear keys stratify aligned blocks ----------

  ghost predicate LinearKey(key: nat -> nat) {
    forall m: nat, n: nat {:trigger key(Xor(m, n))} :: key(Xor(m, n)) == Xor(key(m), key(n))
  }

  ghost predicate VanishesOnlyAtZero(key: nat -> nat, k: nat) {
    forall d: nat :: 0 < d < Pow2(k) ==> key(d) != 0
  }

  ghost predicate KeyBelow(key: nat -> nat, k: nat) {
    forall n: nat :: key(n) < Pow2(k)
  }

  /** The index in block c at which the key is t. */
  ghost predicate At(key: nat -> nat, k: nat, c: nat, t: nat, n: nat) {
    Shr(n, k) == c && key(n) == t
  }

  ghost predicate ExactlyOnce(key: nat -> nat, k: nat, c: nat, t: nat) {
    && (exists n: nat :: At(key, k, c, t, n))
    && (forall m: nat, n: nat :: At(key, k, c, t, m) && At(key, k, c, t, n) ==> m == n)
  }

  /** In every aligned block of 2^k indices the key takes each value below 2^k exactly once. */
  ghost predicate Stratified(key: nat -> nat, k: nat) {
    forall c: nat, t: nat :: t < Pow2(k) ==> ExactlyOnce(key, k, c, t)
  }

  lemma StratifiedSame(f: nat -> nat, key: nat -> nat, k: nat)
    requires Stratified(f, k) && forall n: nat :: f(n) == key(n)
    ensures Stratified(key, k)
  {
    hide Shr, Pow2;
    forall c: nat, t: nat | t < Pow2(k) ensures ExactlyOnce(key, k, c, t) {
      assert ExactlyOnce(f, k, c, t);
      var n: nat :| At(f, k, c, t, n);
      assert At(key, k, c, t, n);
      forall m: nat, n: nat | At(key, k, c, t, m) && At(key, k, c, t, n) ensures m == n {
        assert At(f, k, c, t, m) && At(f, k, c, t, n);
      }
    }
  }

  lemma SameKeySameIndex(key: nat -> nat, k: nat, m: nat, n: nat)
    requires LinearKey(key) && VanishesOnlyAtZero(key, k)
    requires Shr(m, k) == Shr(n, k) && key(m) == key(n)
    ensures m == n
  {
    hide Xor, Shr, Pow2;
    XorInBlock(m, n, k);
    XorSelf(key(m));
    XorCancel(m, n);
    assert key(Xor(m, n)) == 0;
  }

  lemma IndexInBlock(key: nat -> nat, k: nat, c: nat, t: nat) returns (n: nat)
    requires LinearKey(key) && VanishesOnlyAtZero(key, k) && KeyBelow(key, k) && t < Pow2(k)
    ensures At(key, k, c, t, n)
  {
    hide Shr, Low, Pow2, LinearKey, VanishesOnlyAtZero, IndexOf;
    var size := Pow2(k);
    var f := (j: nat) => key(IndexOf(c, j, k));
    forall j: nat | j < size ensures f(j) < size {
      var x := IndexOf(c, j, k);
      assert key(x) < Pow2(k);
    }
    forall i: nat, j: nat | i < j < size ensures f(i) != f(j) {
      IndexParts(c, i, k);
      IndexParts(c, j, k);
      if f(i) == f(j) { SameKeySameIndex(key, k, IndexOf(c, i, k), IndexOf(c, j, k)); }
    }
    Pigeonhole(f, size);
    assert Hits(f, size, t);
    var j: nat :| j < size && f(j) == t;
    IndexParts(c, j, k);
    n := IndexOf(c, j, k);
  }

  /** The j-th index of block c. */
  function IndexOf(c: nat, j: nat, k: nat): nat {
    c * Pow2(k) + j
  }

  lemma IndexParts(c: nat, j: nat, k: nat)
    requires j < Pow2(k)
    ensures Shr(IndexOf(c, j, k), k) == c && Low(IndexOf(c, j, k), k) == j
  {
    JoinAt(c, j, k);
  }

  lemma LinearKeyStratifies(key: nat -> nat, k: nat)
    requires LinearKey(key) && VanishesOnlyAtZero(key, k) && KeyBelow(key, k)
    ensures Stratified(key, k)
  {
    hide Shr, Pow2, LinearKey, VanishesOnlyAtZero, KeyBelow;
    forall c: nat, t: nat | t < Pow2(k) ensures ExactlyOnce(key, k, c, t) {
      var n := IndexInBlock(key, k, c, t);
      forall m: nat, n: nat | At(key, k, c, t, m) && At(key, k, c, t, n) ensures m == n {
        SameKeySameIndex(key, k, m, n);
      }
    }
  }

  // ---------- keys without their low bits ----------

  /** The places of block c at which the key, without its r low bits, is u. */
  ghost function Places(key: nat -> nat, k: nat, r: nat, c: nat, u: nat): set<nat> {
    set j: nat | j < Pow2(k) && Shr(key(IndexOf(c, j, k)), r) == u
  }

  ghost function PlaceOf(key: nat -> nat, k: nat, c: nat, y: nat): nat {
    if n: nat :| At(key, k, c, y, n) then Low(n, k) else 0
  }

  lemma PlaceHasKey(key: nat -> nat, k: nat, c: nat, y: nat)
    requires Stratified(key, k) && y < Pow2(k)
    ensures PlaceOf(key, k, c, y) < Pow2(k) && key(IndexOf(c, PlaceOf(key, k, c, y), k)) == y
    ensures forall j: nat :: j < Pow2(k) && key(IndexOf(c, j, k)) == y ==> j == PlaceOf(key, k, c, y)
  {
    hide Shr, Low, Pow2, IndexOf;
    assert ExactlyOnce(key, k, c, y);
    var n: nat :| At(key, k, c, y, n) && PlaceOf(key, k, c, y) == Low(n, k);
    AsIndex(c, n, k);
    LowBound(n, k);
    forall j: nat | j < Pow2(k) && key(IndexOf(c, j, k)) == y ensures j == Low(n, k) {
      IndexParts(c, j, k);
      assert At(key, k, c, y, IndexOf(c, j, k));
    }
  }

  lemma AsIndex(c: nat, n: nat, k: nat)
    requires Shr(n, k) == c
    ensures n == IndexOf(c, Low(n, k), k)
  {
    SplitAt(n, k);
  }

  lemma JoinBelow(u: nat, t: nat, k: nat, r: nat)
    requires r <= k && u < Pow2(k - r) && t < Pow2(r)
    ensures u * Pow2(r) + t < Pow2(k)
  {
    TimesMonotone(Pow2(r), u + 1, Pow2(k - r));
    Pow2Add(k - r, r);
  }

  /** A stratified key, without its r low bits, takes each value exactly 2^r times in every aligned block. */
  lemma CoarseCount(key: nat -> nat, k: nat, r: nat, c: nat, u: nat)
    requires Stratified(key, k) && KeyBelow(key, k) && r <= k && u < Pow2(k - r)
    ensures |Places(key, k, r, c, u)| == Pow2(r)
  {
    hide Shr, Low, Pow2, Stratified, PlaceOf, IndexOf;
    var s := Places(key, k, r, c, u);
    var g := (t: nat) => PlaceOf(key, k, c, u * Pow2(r) + t);
    var rest := (j: nat) => Low(key(IndexOf(c, j, k)), r);
    forall t: nat | t < Pow2(r) ensures g(t) in s && rest(g(t)) == t {
      JoinBelow(u, t, k, r);
      PlaceHasKey(key, k, c, u * Pow2(r) + t);
      JoinAt(u, t, r);
    }
    forall j: nat | j in s ensures rest(j) < Pow2(r) && g(rest(j)) == j {
      var y := key(IndexOf(c, j, k));
      assert y < Pow2(k);
      LowBound(y, r);
      SplitAt(y, r);
      PlaceHasKey(key, k, c, y);
    }
    SizeByBijection(s, Pow2(r), g, rest);
  }

  // ---------- Gray code ----------

  function Gray(n: nat): nat {
    Xor(n, n / 2)
  }

  lemma GrayLinear(m: nat, n: nat)
    ensures Gray(Xor(m, n)) == Xor(Gray(m), Gray(n))
  {
    XorHalf(m, n);
    XorSwap(m, n, m / 2, n / 2);
  }

  lemma GrayBound(n: nat, k: nat)
    requires n < Pow2(k)
    ensures Gray(n) < Pow2(k)
  {
    XorBound(n, n / 2, k);
  }

  lemma GrayNonzero(n: nat)
    requires n > 0
    ensures Gray(n) != 0
  {
    XorCancel(n, n / 2);
  }

  lemma GrayHalf(n: nat)
    ensures Gray(n) / 2 == Gray(n / 2)
    ensures (Gray(n) % 2 == 0) == (n % 2 == (n / 2) % 2)
  {
    XorHalf(n, n / 2);
  }

  lemma XorOne(a: nat)
    ensures Xor(a, 1) / 2 == a / 2 && Xor(a, 1) % 2 != a % 2
  {
    XorHalf(a, 1);
    XorZero(a / 2);
  }

  lemma XorPow2(a: nat, z: nat)
    requires z > 0
    ensures Xor(a, Pow2(z)) / 2 == Xor(a / 2, Pow2(z - 1)) && Xor(a, Pow2(z)) % 2 == a % 2
  {
    XorHalf(a, Pow2(z));
  }

  /** Counting up flips one Gray bit: the lowest zero bit of the old index. */
  lemma {:induction false} GrayStep(m: nat, z: nat)
    requires !Bit(m, z) && forall j: nat :: j < z ==> Bit(m, j)
    ensures Gray(m + 1) == Xor(Gray(m), Pow2(z))
    decreases m
  {
    hide Gray, Xor;
    GrayHalf(m + 1);
    GrayHalf(m);
    if z == 0 {
      assert !Bit(m, 0);
      XorOne(Gray(m));
    } else {
      assert Bit(m, 0);
      forall j: nat | j < z - 1 ensures Bit(m / 2, j) { assert Bit(m, j + 1); }
      GrayStep(m / 2, z - 1);
      XorPow2(Gray(m), z);
    }
  }

  // ---------- banded direction numbers ----------

  /** v[b] is a multiple of 2^(w - 1 - b), a w-bit word. */
  ghost predicate BandedAt(v: nat, w: nat, b: nat)
    requires b < w
  {
    v < Pow2(w) && forall i: nat :: i < w - 1 - b ==> !Bit(v, i)
  }

  ghost predicate Banded(v: seq<nat>, w: nat) {
    |v| == w && forall b: nat :: b < w ==> BandedAt(v[b], w, b)
  }

  /** The quotient v[b] / 2^(w - 1 - b) is odd. */
  predicate DiagonalAt(v: seq<nat>, b: nat)
    requires b < |v|
  {
    Bit(v[b], |v| - 1 - b)
  }

  /** The highest set bit of the index shows in the combination, if its direction number has an odd quotient. */
  lemma {:induction false} CombineTopBit(v: seq<nat>, w: nat, b: nat, n: nat, top: nat)
    requires Banded(v, w) && b <= top < w && DiagonalAt(v, top)
    requires Bit(n, top - b) && n < Pow2(top - b + 1)
    ensures Bit(Combine(v, b, n), w - 1 - top)
    decreases top - b
  {
    var first := if n % 2 == 1 then v[b] else 0;
    var rest := Combine(v, b + 1, n / 2);
    BitXor(first, rest, w - 1 - top);
    BitZero(w - 1 - top);
    assert BandedAt(v[b], w, b);
    if b == top {
      assert n / 2 == 0;
      CombineOfZero(v, b + 1);
    } else {
      CombineTopBit(v, w, b + 1, n / 2, top);
    }
  }

  /** A nonzero number below 2^k has a highest set bit. */
  lemma {:induction false} HighestBit(n: nat, k: nat) returns (h: nat)
    requires 0 < n < Pow2(k)
    ensures h < k && Bit(n, h) && n < Pow2(h + 1)
    decreases k
  {
    if n == 1 {
      h := 0;
    } else {
      var g := HighestBit(n / 2, k - 1);
      h := g + 1;
    }
  }

  /** A nonzero combination of the first k direction numbers, with odd quotients, shows in the k top bits. */
  lemma TopNonzero(v: seq<nat>, w: nat, k: nat, d: nat)
    requires Banded(v, w) && k <= w && 0 < d < Pow2(k)
    requires forall b: nat :: b < k ==> DiagonalAt(v, b)
    ensures Shr(Combine(v, 0, d), w - k) != 0
  {
    var h := HighestBit(d, k);
    CombineTopBit(v, w, 0, d, h);
    BitShr(Combine(v, 0, d), w - k, k - 1 - h);
    BitZero(k - 1 - h);
  }

  /** With an even quotient at z, combinations of the first z + 1 direction numbers are multiples of 2^(w - z). */
  lemma {:induction false} CombineMultiple(v: seq<nat>, w: nat, z: nat, b: nat, n: nat, i: nat)
    requires Banded(v, w) && z < w && !DiagonalAt(v, z)
    requires b <= z + 1 && n < Pow2(z + 1 - b) && i < w - z
    ensures !Bit(Combine(v, b, n), i)
    decreases z + 1 - b
  {
    hide Xor, Bit;
    BitZero(i);
    if b == z + 1 {
      CombineOfZero(v, b);
    } else {
      BitXor(if n % 2 == 1 then v[b] else 0, Combine(v, b + 1, n / 2), i);
      assert BandedAt(v[b], w, b);
      CombineMultiple(v, w, z, b + 1, n / 2, i);
    }
  }

  lemma BandedBound(v: seq<nat>, w: nat)
    requires Banded(v, w)
    ensures forall i: nat :: i < |v| ==> v[i] < Pow2(w)
  {
    forall i: nat | i < |v| ensures v[i] < Pow2(w) { assert BandedAt(v[i], w, i); }
  }

  // ---------- the points in Gray-code order ----------

  /** The n-th point. */
  function Point(v: seq<nat>, n: nat): nat {
    Combine(v, 0, Gray(n))
  }

  /** The k top bits of the n-th point. */
  function TopBits(v: seq<nat>, k: nat, n: nat): nat
    requires k <= |v|
  {
    Shr(Point(v, n), |v| - k)
  }

  lemma TopBitsBound(v: seq<nat>, w: nat, k: nat, n: nat)
    requires Banded(v, w) && k <= w
    ensures TopBits(v, k, n) < Pow2(k)
  {
    assert |v| == w;
    hide Shr, Gray, Pow2, Banded;
    BandedBound(v, w);
    CombineBound(v, 0, Gray(n), w);
    ShrBound(Point(v, n), w - k, k);
  }

  lemma OddQuotientsStratify(v: seq<nat>, w: nat, k: nat)
    requires Banded(v, w) && k <= w && forall b: nat :: b < k ==> DiagonalAt(v, b)
    ensures Stratified((n: nat) => TopBits(v, k, n), k)
  {
    hide Xor, Shr, Stratified, Gray, Bit, Pow2, Combine;
    var key := (n: nat) => TopBits(v, k, n);
    forall m: nat, n: nat ensures key(Xor(m, n)) == Xor(key(m), key(n)) {
      GrayLinear(m, n);
      CombineLinear(v, 0, Gray(m), Gray(n));
      XorShr(Point(v, m), Point(v, n), w - k);
    }
    forall d: nat | 0 < d < Pow2(k) ensures key(d) != 0 {
      GrayNonzero(d);
      GrayBound(d, k);
      TopNonzero(v, w, k, Gray(d));
    }
    forall n: nat ensures key(n) < Pow2(k) { TopBitsBound(v, w, k, n); }
    LinearKeyStratifies(key, k);
  }

  /** With an even quotient at z, the z top bits determine the first 2^(z + 1) points. */
  lemma SameTopSamePoint(v: seq<nat>, w: nat, z: nat, m: nat, n: nat)
    requires Banded(v, w) && z < w && !DiagonalAt(v, z)
    requires m < Pow2(z + 1) && n < Pow2(z + 1) && TopBits(v, z, m) == TopBits(v, z, n)
    ensures Point(v, m) == Point(v, n)
  {
    assert |v| == w;
    hide Shr, Gray, Bit, Combine, Banded, Pow2, Point, DiagonalAt;
    forall i: nat ensures Bit(Point(v, m), i) == Bit(Point(v, n), i) {
      if i < w - z {
        PointMultiple(v, w, z, m, i);
        PointMultiple(v, w, z, n, i);
      } else {
        BitShr(Point(v, m), w - z, i - (w - z));
        BitShr(Point(v, n), w - z, i - (w - z));
      }
    }
    EqualBits(Point(v, m), Point(v, n));
  }

  lemma PointMultiple(v: seq<nat>, w: nat, z: nat, n: nat, i: nat)
    requires Banded(v, w) && z < w && !DiagonalAt(v, z) && n < Pow2(z + 1) && i < w - z
    ensures !Bit(Point(v, n), i)
  {
    hide Gray, Bit, Combine, Banded, Pow2;
    GrayBound(n, z + 1);
    CombineMultiple(v, w, z, 0, Gray(n), i);
  }

  /** So two of them coincide. */
  lemma TwoPointsCoincide(v: seq<nat>, w: nat, z: nat) returns (m: nat, n: nat)
    requires Banded(v, w) && z < w && !DiagonalAt(v, z)
    ensures m < n < Pow2(z + 1) && Point(v, m) == Point(v, n)
  {
    assert |v| == w;
    hide Point, Bit, Shr, Banded, DiagonalAt, TopBits;
    var f := (n: nat) => TopBits(v, z, n);
    forall n: nat | n < Pow2(z + 1) ensures f(n) < Pow2(z) { TopBitsBound(v, w, z, n); }
    Collision(f, Pow2(z + 1), Pow2(z));
    m, n :| m < n < Pow2(z + 1) && f(m) == f(n);
    SameTopSamePoint(v, w, z, m, n);
  }

  lemma EvenQuotientFails(v: seq<nat>, w: nat, k: nat, z: nat)
    requires Banded(v, w) && z < k <= w && !DiagonalAt(v, z)
    ensures !Stratified((n: nat) => TopBits(v, k, n), k)
  {
    assert |v| == w;
    hide Point, Banded, Pow2;
    var key := (n: nat) => TopBits(v, k, n);
    var m, n := TwoPointsCoincide(v, w, z);
    Pow2Mono(z + 1, k);
    InFirstBlock(m, k);
    InFirstBlock(n, k);
    TopBitsBound(v, w, k, n);
    if Stratified(key, k) { SameKeyInBlock(key, k, 0, m, n); }
  }

  lemma SameKeyInBlock(key: nat -> nat, k: nat, c: nat, m: nat, n: nat)
    requires Stratified(key, k) && Shr(m, k) == c && Shr(n, k) == c && key(m) == key(n) < Pow2(k)
    ensures m == n
  {
    hide Shr, Pow2;
    assert ExactlyOnce(key, k, c, key(n));
    assert At(key, k, c, key(n), m) && At(key, k, c, key(n), n);
  }

  lemma InFirstBlock(n: nat, k: nat)
    requires n < Pow2(k)
    ensures Shr(n, k) == 0
  {
    JoinAt(0, n, k);
  }

  /** The k top bits of the points are stratified exactly when the first k quotients are odd. */
  lemma StratifiedIffOdd(v: seq<nat>, w: nat, k: nat)
    requires Banded(v, w) && k <= w
    ensures Stratified((n: nat) => TopBits(v, k, n), k) <==> forall b: nat :: b < k ==> DiagonalAt(v, b)
  {
    assert |v| == w;
    hide DiagonalAt, Banded, Stratified, TopBits;
    if b: nat :| b < k && !DiagonalAt(v, b) {
      EvenQuotientFails(v, w, k, b);
    } else {
      OddQuotientsStratify(v, w, k);
    }
  }
}
