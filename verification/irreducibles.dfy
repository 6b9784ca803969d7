/** The search for irreducible polynomials (GeneratePolynomials with primitive == false in
    gpu/4_Finance/quasirandomGenerator/quasirandomGenerator_gold.cpp): trial division by the
    polynomials found so far, on 32-bit signed integers. */
module Irreducibles {
  import opened Bits
  import opened Gf2

  ghost predicate Increasing(s: seq<nat>) {
    forall i: nat, j: nat :: i < j < |s| ==> s[i] < s[j]
  }

  ghost predicate AllIrreducible(s: seq<nat>) {
    forall i: nat :: i < |s| ==> Irreducible(s[i])
  }

  /** s lists every irreducible polynomial below bound. */
  ghost predicate CompleteBelow(s: seq<nat>, bound: nat) {
    forall q: nat :: Irreducible(q) && q < bound ==> q in s
  }

  /** The first |s| irreducible polynomials in increasing order of their codes. */
  ghost predicate FirstIrreducibles(s: seq<nat>) {
    && |s| > 0
    && Increasing(s) && AllIrreducible(s)
    && CompleteBelow(s, s[|s| - 1] + 1)
  }

  /** At least n irreducible polynomials fit into the 31 value bits of an int. */
  ghost predicate Enough(n: nat) {
    exists s: seq<nat> :: Fits(s, n)
  }

  ghost predicate Fits(s: seq<nat>, n: nat) {
    |s| == n && Increasing(s) && AllIrreducible(s) && forall i: nat :: i < n ==> s[i] < Pow2(31)
  }

  function SumOfDegrees(s: seq<nat>): nat {
    if s == [] then 0 else SumOfDegrees(s[..|s| - 1]) + Deg(s[|s| - 1])
  }

  /** There is only one such list of a given length. */
  lemma {:induction false} FirstIrreduciblesUnique(s: seq<nat>, t: seq<nat>, i: nat)
    requires FirstIrreducibles(s) && FirstIrreducibles(t) && i < |s| && i < |t|
    ensures s[i] == t[i]
    decreases i
  {
    hide Irreducible;
    forall k: nat | k < i ensures s[k] == t[k] { FirstIrreduciblesUnique(s, t, k); }
    if s[i] < t[i] { NotSmaller(s, t, i); }
    if t[i] < s[i] { NotSmaller(t, s, i); }
  }

  lemma NotSmaller(s: seq<nat>, t: seq<nat>, i: nat)
    requires FirstIrreducibles(s) && FirstIrreducibles(t) && i < |s| && i < |t|
    requires forall k: nat :: k < i ==> s[k] == t[k]
    ensures t[i] <= s[i]
  {
    hide Irreducible;
    assert Irreducible(s[i]);
    if s[i] <= t[|t| - 1] {
      assert s[i] in t;
      var k: nat :| k < |t| && t[k] == s[i];
      assert k >= i;
    }
  }

  // ---------- small cases ----------

  lemma DegreeOneIrreducible(p: nat)
    requires 2 <= p <= 3
    ensures Irreducible(p)
  {
    forall a: nat, b: nat | Mul(a, b) == p ensures a == 1 || b == 1 {
      FactorDegrees(a, b, p);
      assert Deg(p) == 1;
      if a > 1 && b > 1 { DegPositive(a); DegPositive(b); }
    }
  }

  lemma DegPositive(a: nat)
    requires a > 1
    ensures Deg(a) >= 1
  {
  }

  lemma FactorDegrees(a: nat, b: nat, p: nat)
    requires Mul(a, b) == p && p > 0
    ensures a > 0 && b > 0 && Deg(a) + Deg(b) == Deg(p)
  {
    MulZero(b);
    assert Mul(a, 0) == 0;
    DegMul(a, b);
  }

  lemma DegreeOne(a: nat)
    requires Deg(a) == 1
    ensures a == 2 || a == 3
  {
    DegBounds(a);
    assert Pow2(2) == 4;
  }

  lemma SmallProducts()
    ensures Mul(2, 2) == 4 && Mul(2, 3) == 6 && Mul(3, 2) == 6 && Mul(3, 3) == 5
  {
    assert Mul(2, 1) == 2 && Mul(3, 1) == 3;
  }

  lemma SevenIrreducible()
    ensures Irreducible(7)
  {
    forall a: nat, b: nat | Mul(a, b) == 7 ensures a == 1 || b == 1 {
      FactorDegrees(a, b, 7);
      assert Deg(7) == 2;
      if a > 1 && b > 1 {
        DegPositive(a);
        DegPositive(b);
        DegreeOne(a);
        DegreeOne(b);
        SmallProducts();
      }
    }
  }

  lemma EnoughForThree()
    ensures Enough(3)
  {
    hide Irreducible;
    DegreeOneIrreducible(2);
    DegreeOneIrreducible(3);
    SevenIrreducible();
    assert 7 < Pow2(31) by {
      Pow2Mono(3, 31);
      assert Pow2(3) == 8;
    }
    hide Pow2;
    assert Fits([2, 3, 7], 3);
  }

  /** The polynomials of the three dimensions in use: x, x + 1 and x^2 + x + 1. */
  lemma FirstThree()
    ensures FirstIrreducibles([2, 3, 7])
  {
    hide Irreducible;
    DegreeOneIrreducible(2);
    DegreeOneIrreducible(3);
    SevenIrreducible();
    SmallReducible();
    forall q: nat | Irreducible(q) && q < 8 ensures q in [2, 3, 7] {
      IrreducibleIsLarge(q);
      assert q == 2 || q == 3 || q == 4 || q == 5 || q == 6 || q == 7;
    }
  }

  lemma SmallReducible()
    ensures !Irreducible(4) && !Irreducible(5) && !Irreducible(6)
  {
    SmallProducts();
  }

  // ---------- trial division ----------

  /** p is irreducible exactly when none of the smaller irreducible polynomials divides it. */
  lemma TrialDivision(s: seq<nat>, p: nat)
    requires p > 1 && AllIrreducible(s) && CompleteBelow(s, p)
    requires forall i: nat :: i < |s| ==> s[i] < p
    ensures Irreducible(p) <==> forall i: nat :: i < |s| ==> !Divides(s[i], p)
  {
    if Irreducible(p) {
      forall i: nat | i < |s| ensures !Divides(s[i], p) {
        if Divides(s[i], p) { IrreducibleDividesIrreducible(s[i], p); }
      }
    } else {
      var q := IrreducibleDivisor(p);
      assert q in s;
      var i: nat :| i < |s| && s[i] == q;
    }
  }

  lemma CongruentStep(b: nat, k: nat, p: nat)
    ensures Divides(b, Xor(Shl(b, k), p)) <==> Divides(b, p)
  {
    hide Xor, Mul, Divides;
    var s := Shl(b, k);
    MulPow2(b, k);
    DividesIntro(b, Pow2(k), s);
    XorCancel(p, s);
    if Divides(b, p) { DividesXor(b, s, p); }
    if Divides(b, Xor(s, p)) { DividesXor(b, s, Xor(s, p)); }
  }

  lemma ReducedRemainder(b: nat, p: nat)
    requires p < b
    ensures Divides(b, p) <==> p == 0
  {
    if p == 0 {
      assert Mul(b, 0) == 0;
    } else if Divides(b, p) {
      var c: nat :| Mul(b, c) == p;
      assert Mul(b, 0) == 0;
      MultipleNotSmaller(b, c);
    }
  }

  /** Walks down from bit start to the leading bit of p, which is its degree. */
  method DegreeFrom(p: nat, start: nat) returns (e: nat)
    requires 0 < p < Pow2(start + 1)
    ensures e == Deg(p) <= start
  {
    e := start;
    DegBounds(p);
    if Deg(p) > start { Pow2Mono(start + 1, Deg(p)); }
    while !Bit(p, e)
      invariant Deg(p) <= e <= start
      decreases e
    {
      e := e - 1;
    }
    if e > Deg(p) { BitBeyond(p, Deg(p) + 1, e); }
  }

  /** The inner division of p1 by b. Its guard compares the codes, not the degrees: it may stop one
      reduction early, but never at a multiple of b other than zero. */
  method Remainder(p1: nat, b: nat, eP1: nat) returns (p2: nat)
    requires 0 < b <= p1 && eP1 == Deg(p1) <= 30
    ensures p2 < b
    ensures p2 == 0 <==> Divides(b, p1)
  {
    hide Xor, Shl, Divides, Pow2, Deg;
    FitsBelow(b, p1, eP1);
    var eB := DegreeFrom(b, eP1);
    var eP2 := eP1;
    p2 := Xor(Shl(b, eP2 - eB), p1);
    ShiftedInRange(b, eP2, p1);
    CongruentStep(b, eP2 - eB, p1);
    while p2 >= b
      invariant eB == Deg(b) && eP2 <= 30
      invariant p2 < Pow2(eP2)
      invariant Divides(b, p2) <==> Divides(b, p1)
      decreases p2
    {
      FitsBelow(b, p2, eP2);
      eP2 := DegreeFrom(p2, eP2);
      ShiftedInRange(b, eP2, p2);
      CongruentStep(b, eP2 - eB, p2);
      p2 := Xor(Shl(b, eP2 - eB), p2);
    }
    ReducedRemainder(b, p2);
  }

  lemma FitsBelow(b: nat, p: nat, e: nat)
    requires 0 < b <= p && (Deg(p) == e || p < Pow2(e))
    ensures Deg(b) <= Deg(p) && p < Pow2(e + 1) && b < Pow2(e + 1) && Pow2(Deg(p)) <= p
  {
    hide Deg;
    DegMono(b, p);
    DegBounds(p);
    Pow2Mono(e, e + 1);
  }

  /** Aligning b with the leading term of p stays inside an int and cancels that term. */
  lemma ShiftedInRange(b: nat, e: nat, p: nat)
    requires 0 < b && p > 0 && Deg(b) <= e == Deg(p) <= 30
    ensures Shl(b, e - Deg(b)) < Pow2(31)
    ensures Xor(Shl(b, e - Deg(b)), p) < Pow2(e)
  {
    hide Xor, Shl, Pow2, Deg;
    var s := Shl(b, e - Deg(b));
    DegShl(b, e - Deg(b));
    DegBounds(s);
    Pow2Mono(e + 1, 31);
    DegCancel(s, p);
  }

  /** The loop over buffer: divides p1 by the polynomials found so far, stops at a zero remainder. */
  method TryDivisors(p1: nat, buffer: array<nat>, n: nat) returns (p2: nat)
    requires 0 < n <= buffer.Length && 2 <= p1 < Pow2(31)
    requires AllIrreducible(buffer[..n]) && CompleteBelow(buffer[..n], p1)
    requires forall i: nat :: i < n ==> buffer[i] < p1
    ensures p2 != 0 <==> Irreducible(p1)
  {
    hide Irreducible, Divides, Pow2;
    var eP1 := DegreeFrom(p1, 30);
    p2 := 0;
    ghost var s := buffer[..n];
    TrialDivision(s, p1);
    var i := 0;
    while i < n
      invariant i <= n
      invariant forall k: nat :: k < i ==> !Divides(s[k], p1)
      invariant i > 0 ==> p2 != 0
    {
      assert s[i] == buffer[i];
      IrreducibleIsLarge(s[i]);
      p2 := Remainder(p1, buffer[i], eP1);
      if p2 == 0 { break; }
      i := i + 1;
    }
  }

  /** As long as fewer than n irreducible polynomials are found, there is another one below 2^31. */
  lemma NextExists(s: seq<nat>, n: nat) returns (q: nat)
    requires Enough(n) && |s| < n
    ensures Irreducible(q) && q < Pow2(31) && q !in s
  {
    var w: seq<nat> :| Fits(w, n);
    IncreasingSize(w);
    if Elements(w) <= Elements(s) { SubsetSize(Elements(w), Elements(s)); }
    q :| q in Elements(w) && q !in Elements(s);
    var i: nat :| i < n && w[i] == q;
  }

  lemma SubsetSize(a: set<nat>, b: set<nat>)
    requires a <= b
    ensures |a| <= |b|
  {
    assert b == a + (b - a);
  }

  ghost function Elements(s: seq<nat>): (e: set<nat>)
    ensures forall x: nat :: x in e <==> x in s
    ensures |e| <= |s|
  {
    if s == [] then {} else
      assert s == s[..|s| - 1] + [s[|s| - 1]];
      Elements(s[..|s| - 1]) + {s[|s| - 1]}
  }

  lemma {:induction false} IncreasingSize(w: seq<nat>)
    requires Increasing(w)
    ensures |Elements(w)| == |w|
    decreases |w|
  {
    if w != [] {
      IncreasingSize(w[..|w| - 1]);
      assert w[|w| - 1] !in w[..|w| - 1];
    }
  }

  /** The search for the next polynomial after buffer[n - 1]; q witnesses that there is one. */
  method NextPolynomial(buffer: array<nat>, n: nat, ghost q: nat) returns (p1: nat)
    requires 0 < n <= buffer.Length && FirstIrreducibles(buffer[..n])
    requires buffer[n - 1] < q < Pow2(31) && Irreducible(q)
    ensures buffer[n - 1] < p1 <= q && Irreducible(p1) && CompleteBelow(buffer[..n], p1)
  {
    hide Irreducible, Pow2;
    ghost var s := buffer[..n];
    assert s[n - 1] == buffer[n - 1];
    IrreducibleIsLarge(s[n - 1]);
    p1 := buffer[n - 1] + 1;
    BelowNext(s, p1);
    var p2 := TryDivisors(p1, buffer, n);
    while p2 == 0
      invariant 2 <= p1 <= q && CompleteBelow(s, p1) && buffer[n - 1] < p1
      invariant forall i: nat :: i < n ==> s[i] < p1
      invariant p2 != 0 <==> Irreducible(p1)
      decreases q - p1
    {
      p1 := p1 + 1;
      p2 := TryDivisors(p1, buffer, n);
    }
  }

  lemma Append(s: seq<nat>, p: nat)
    requires FirstIrreducibles(s) && s[|s| - 1] < p && Irreducible(p) && CompleteBelow(s, p)
    ensures FirstIrreducibles(s + [p])
    ensures SumOfDegrees(s + [p]) == SumOfDegrees(s) + Deg(p)
  {
    hide Irreducible, Deg;
    assert (s + [p])[..|s|] == s;
  }

  /** GeneratePolynomials(buffer, false): fills the buffer with the first irreducible polynomials and
      returns the sum of their degrees. */
  method GeneratePolynomials(buffer: array<nat>) returns (l: nat)
    requires buffer.Length > 0 && Enough(buffer.Length)
    modifies buffer
    ensures FirstIrreducibles(buffer[..])
    ensures forall i: nat :: i < buffer.Length ==> buffer[i] < Pow2(31)
    ensures l == SumOfDegrees(buffer[..])
  {
    hide Irreducible, Pow2, FirstIrreducibles, SumOfDegrees, Enough;
    buffer[0] := 2;
    FirstPolynomial();
    assert buffer[..1] == [2];
    l := 0;
    var n := 1;
    while n < buffer.Length
      invariant 1 <= n <= buffer.Length
      invariant FirstIrreducibles(buffer[..n])
      invariant forall i: nat :: i < n ==> buffer[i] < Pow2(31)
      invariant l + 1 == SumOfDegrees(buffer[..n])
    {
      ghost var s := buffer[..n];
      ghost var q := NextExists(s, buffer.Length);
      MissingIsLarger(s, q);
      var p1 := NextPolynomial(buffer, n, q);
      Append(s, p1);
      var eP1 := DegreeFrom(p1, 30);
      buffer[n] := p1;
      l := l + eP1;
      assert buffer[..n + 1] == s + [p1];
      n := n + 1;
    }
    l := l + 1;
    assert buffer[..] == buffer[..n];
  }

  lemma MissingIsLarger(s: seq<nat>, q: nat)
    requires FirstIrreducibles(s) && Irreducible(q) && q !in s
    ensures s[|s| - 1] < q
  {
  }

  lemma BelowNext(s: seq<nat>, p: nat)
    requires FirstIrreducibles(s) && p == s[|s| - 1] + 1
    ensures CompleteBelow(s, p) && forall i: nat :: i < |s| ==> s[i] < p
  {
  }

  lemma FirstPolynomial()
    ensures FirstIrreducibles([2]) && SumOfDegrees([2]) == 1 && 2 < Pow2(31)
  {
    DegreeOneIrreducible(2);
    assert [2][..0] == [];
    assert SumOfDegrees([]) == 0;
    Pow2Mono(2, 31);
    assert Pow2(2) == 4;
    assert Deg(2) == 1;
  }
}
