/** Finite counting: an injection of [0, n) into itself is a permutation, and a permutation of [0, m * w)
    takes every residue modulo m exactly w times. */
module Counting {

  ghost predicate MapsBelow(f: nat -> nat, n: nat) {
    forall i: nat :: i < n ==> f(i) < n
  }

  ghost predicate InjectiveBelow(f: nat -> nat, n: nat) {
    forall i: nat, j: nat :: i < j < n ==> f(i) != f(j)
  }

  ghost predicate Hits(f: nat -> nat, n: nat, y: nat) {
    exists x: nat :: x < n && f(x) == y
  }

  ghost predicate HitsAllBelow(f: nat -> nat, n: nat) {
    forall y: nat :: y < n ==> Hits(f, n, y)
  }

  ghost function Interval(n: nat): (s: set<nat>)
    ensures forall i: nat :: i in s <==> i < n
    ensures |s| == n
  {
    if n == 0 then {} else Interval(n - 1) + {n - 1}
  }

  ghost function Image(f: nat -> nat, n: nat): set<nat> {
    set i: nat | i < n :: f(i)
  }

  lemma {:induction false} ImageSize(f: nat -> nat, n: nat)
    requires InjectiveBelow(f, n)
    ensures |Image(f, n)| == n
  {
    if n > 0 {
      ImageSize(f, n - 1);
      assert Image(f, n) == Image(f, n - 1) + {f(n - 1)};
      assert f(n - 1) !in Image(f, n - 1);
    }
  }

  lemma SubsetOfSameSize(a: set<nat>, b: set<nat>)
    requires a <= b && |a| == |b|
    ensures a == b
  {
    assert |b - a| == |b| - |a|;
  }

  lemma FewArguments(f: nat -> nat, n: nat, bound: nat)
    requires InjectiveBelow(f, n) && forall i: nat :: i < n ==> f(i) < bound
    ensures n <= bound
  {
    ImageSize(f, n);
    assert Image(f, n) <= Interval(bound);
    assert |Interval(bound) - Image(f, n)| == bound - n;
  }

  /** More arguments than values: two arguments share a value. */
  lemma Collision(f: nat -> nat, n: nat, bound: nat)
    requires bound < n && forall i: nat :: i < n ==> f(i) < bound
    ensures exists i: nat, j: nat :: i < j < n && f(i) == f(j)
  {
    if InjectiveBelow(f, n) { FewArguments(f, n, bound); }
  }

  lemma Pigeonhole(f: nat -> nat, n: nat)
    requires MapsBelow(f, n) && InjectiveBelow(f, n)
    ensures HitsAllBelow(f, n)
  {
    ImageSize(f, n);
    assert Image(f, n) <= Interval(n);
    SubsetOfSameSize(Image(f, n), Interval(n));
    forall y: nat | y < n ensures Hits(f, n, y) {
      assert y in Interval(n);
      assert y in Image(f, n);
    }
  }

  /** The arguments below n that f sends to the residue r modulo m. */
  ghost function Fibre(f: nat -> nat, n: nat, m: nat, r: nat): set<nat>
    requires m > 0
  {
    set x: nat | x < n && f(x) % m == r
  }

  lemma DivModUnique(y: int, m: int, q: int, r: int)
    requires m > 0 && y == m * q + r && 0 <= r < m
    ensures y / m == q && y % m == r
  {
    var d := q - y / m;
    assert m * d == y % m - r;
    assert d >= 1 ==> m * d >= m;
    assert d <= -1 ==> m * d <= -m;
  }

  lemma ResidueForm(y: nat, m: nat, w: nat)
    requires m > 0 && y < m * w
    ensures y / m < w && y == m * (y / m) + y % m
  {
    var q := y / m;
    if q >= w { TimesMonotone(m, w, q); }
  }

  lemma TimesMonotone(m: nat, a: nat, b: nat)
    requires a <= b
    ensures m * a <= m * b
  {
    assert m * b == m * a + m * (b - a);
  }

  lemma ResidueOfForm(t: nat, r: nat, m: nat, w: nat)
    requires r < m && t < w
    ensures m * t + r < m * w && (m * t + r) % m == r && (m * t + r) / m == t
  {
    TimesMonotone(m, t + 1, w);
    assert m * (t + 1) == m * t + m;
    DivModUnique(m * t + r, m, t, r);
  }

  /** Choose, for each t < w, the argument that a permutation sends to m * t + r. */
  ghost function Preimage(f: nat -> nat, n: nat, y: nat): (x: nat)
    requires Hits(f, n, y)
    ensures x < n && f(x) == y
  {
    var x: nat :| x < n && f(x) == y;
    x
  }

  /** The argument that f sends to m * t + r. */
  ghost function Select(f: nat -> nat, n: nat, m: nat, r: nat, t: nat): nat {
    if Hits(f, n, m * t + r) then Preimage(f, n, m * t + r) else 0
  }

  ghost function Quotient(f: nat -> nat, m: nat, x: nat): nat
    requires m > 0
  {
    f(x) / m
  }

  lemma SelectInFibre(f: nat -> nat, m: nat, w: nat, r: nat, t: nat)
    requires r < m && t < w && HitsAllBelow(f, m * w)
    ensures Select(f, m * w, m, r, t) in Fibre(f, m * w, m, r)
    ensures Quotient(f, m, Select(f, m * w, m, r, t)) == t
  {
    ResidueOfForm(t, r, m, w);
  }

  lemma FibreIsSelected(f: nat -> nat, m: nat, w: nat, r: nat, x: nat)
    requires r < m && MapsBelow(f, m * w) && InjectiveBelow(f, m * w)
    requires x in Fibre(f, m * w, m, r)
    ensures Quotient(f, m, x) < w && Select(f, m * w, m, r, Quotient(f, m, x)) == x
  {
    ResidueForm(f(x), m, w);
    assert Hits(f, m * w, f(x));
  }

  /** A set in bijection with [0, w), through g and its inverse k, has w elements. */
  lemma SizeByBijection(s: set<nat>, w: nat, g: nat -> nat, k: nat -> nat)
    requires forall t: nat :: t < w ==> g(t) in s && k(g(t)) == t
    requires forall x: nat :: x in s ==> k(x) < w && g(k(x)) == x
    ensures |s| == w
  {
    forall t: nat, u: nat | t < u < w ensures g(t) != g(u) {
      assert k(g(t)) == t && k(g(u)) == u;
    }
    ImageSize(g, w);
    assert Image(g, w) == s by {
      forall x: nat | x in s ensures x in Image(g, w) {
        assert g(k(x)) == x;
      }
    }
  }

  /** A permutation of [0, m * w) meets each residue class modulo m exactly w times. */
  lemma FibreSize(f: nat -> nat, m: nat, w: nat, r: nat)
    requires r < m
    requires MapsBelow(f, m * w) && InjectiveBelow(f, m * w)
    ensures |Fibre(f, m * w, m, r)| == w
  {
    hide Hits, Select, Fibre, Quotient;
    Pigeonhole(f, m * w);
    var n := m * w;
    var g := (t: nat) => Select(f, n, m, r, t);
    var k := (x: nat) => Quotient(f, m, x);
    forall t: nat | t < w ensures g(t) in Fibre(f, n, m, r) && k(g(t)) == t {
      SelectInFibre(f, m, w, r, t);
    }
    forall x: nat | x in Fibre(f, n, m, r) ensures k(x) < w && g(k(x)) == x {
      FibreIsSelected(f, m, w, r, x);
    }
    SizeByBijection(Fibre(f, n, m, r), w, g, k);
  }
}
