/** The Niederreiter baseline (gpu/4_Finance/quasirandomGenerator/quasirandomGenerator_gold.cpp): the
    table of direction numbers built from powers of irreducible polynomials, and the integers computed
    from it, before scaling. */
module Niederreiter {
  import opened Bits
  import opened Counting
  import opened Gf2
  import opened Irreducibles
  import opened Recurrences
  import opened Directions

  const BITS: nat := 63
  const SCRATCH: nat := 1024

  // ---------- specification of the table ----------

  /** Row r of the generator matrix for p: block r / e, shift r % e, column i. */
  function RowBit(p: nat, r: nat, i: nat): bool
    requires p > 1
  {
    PowerTerm(p, r / Deg(p) + 1, i + r % Deg(p))
  }

  /** Direction number i with its first rows filled in; row r is bit 62 - r. */
  function Column(p: nat, i: nat, rows: nat): nat
    requires p > 1 && rows <= BITS
  {
    if rows == 0 then 0
    else Or(Column(p, i, rows - 1), Shl(Flag(RowBit(p, rows - 1, i)), BITS - rows))
  }

  lemma {:induction false} ColumnBit(p: nat, i: nat, rows: nat, j: nat)
    requires p > 1 && rows <= BITS
    ensures Bit(Column(p, i, rows), j) == (BITS - rows <= j < BITS && RowBit(p, BITS - 1 - j, i))
    decreases rows
  {
    hide Or, Shl, RowBit;
    if rows == 0 {
      BitZero(j);
    } else {
      ColumnBit(p, i, rows - 1, j);
      var f := Flag(RowBit(p, rows - 1, i));
      BitOr(Column(p, i, rows - 1), Shl(f, BITS - rows), j);
      BitShl(f, BITS - rows, j);
      if j >= BITS - rows { FlagBit(RowBit(p, rows - 1, i), j - (BITS - rows)); }
    }
  }

  lemma FlagBit(b: bool, k: nat)
    ensures Bit(Flag(b), k) == (b && k == 0)
  {
    if k > 0 { BitZero(k - 1); }
  }

  lemma ColumnBound(p: nat, i: nat)
    requires p > 1
    ensures Column(p, i, BITS) < Pow2(BITS)
  {
    hide Column, Pow2;
    forall j: nat | BITS <= j ensures !Bit(Column(p, i, BITS), j) { ColumnBit(p, i, BITS, j); }
    BoundFromBits(Column(p, i, BITS), BITS);
  }

  /** Row u of block q of the matrix, outright: the sequence that the power q + 1 of p annihilates, with zeros below
      the degree of the power before and ones up to its own degree, shifted by u places. The block starts at row
      start, and row r is bit 62 - r of the direction numbers. */
  lemma ColumnIsUnique(p: nat, i: nat, q: nat, u: nat, start: nat, s: nat -> bool)
    requires p > 1 && u < Deg(p) && start == Deg(p) * q && start + u < 63
    requires Annihilates(Power(p, q + 1), s)
    requires forall k: nat :: k < start ==> !s(k)
    requires forall k: nat :: start <= k < start + Deg(p) ==> s(k)
    ensures Bit(Column(p, i, 63), 62 - (start + u)) == s(i + u)
  {
    hide Column, Pow2, Bit, Term, Power, Deg, Annihilates, RowBit;
    ColumnBit(p, i, 63, 62 - (start + u));
    RowInBlock(p, q, u, i);
    PowerDegrees(p, q);
    TermIsUnique(Power(p, q + 1), start, s, i + u);
  }

  lemma PowerDegrees(p: nat, q: nat)
    requires p > 1
    ensures Power(p, q + 1) > 0 && Deg(Power(p, q)) == Deg(p) * q
    ensures Deg(Power(p, q + 1)) == Deg(p) * q + Deg(p)
  {
    hide Power, Deg;
    DegPower(p, q);
    DegPower(p, q + 1);
  }

  // ---------- the coefficient table ----------

  /** The coefficients of p from the leading one down, closed by -1. */
  function Coefficients(p: nat): (c: seq<int>)
    ensures |c| == Deg(p) + 2
  {
    seq(Deg(p) + 1, i requires 0 <= i <= Deg(p) => Flag(Bit(p, Deg(p) - i))) + [-1]
  }

  function TableOf(s: seq<nat>): seq<int> {
    if s == [] then [] else TableOf(s[..|s| - 1]) + Coefficients(s[|s| - 1])
  }

  lemma {:induction false} TableSize(s: seq<nat>)
    ensures |TableOf(s)| == SumOfDegrees(s) + 2 * |s|
    decreases |s|
  {
    if s != [] { TableSize(s[..|s| - 1]); }
  }

  lemma {:induction false} TableAt(s: seq<nat>, d: nat, k: nat)
    requires d < |s| && k < Deg(s[d]) + 2
    ensures |TableOf(s[..d])| + k < |TableOf(s)|
    ensures TableOf(s)[|TableOf(s[..d])| + k] == Coefficients(s[d])[k]
    ensures |TableOf(s[..d + 1])| == |TableOf(s[..d])| + Deg(s[d]) + 2
    decreases |s|
  {
    hide Coefficients;
    var n := |s| - 1;
    assert s[..d + 1][..d] == s[..d];
    if d < n {
      TableAt(s[..n], d, k);
      assert s[..n][..d] == s[..d];
      assert s[..n][..d + 1] == s[..d + 1];
    } else {
      assert s[..d + 1] == s;
    }
  }

  lemma CoefficientAt(p: nat, k: nat)
    requires p > 0 && k < Deg(p) + 2
    ensures Coefficients(p)[k] == if k <= Deg(p) then Flag(Bit(p, Deg(p) - k)) else -1
    ensures Coefficients(p)[0] == 1
  {
    hide Bit;
    DegBounds(p);
    var c := seq(Deg(p) + 1, i requires 0 <= i <= Deg(p) => Flag(Bit(p, Deg(p) - i)));
    assert c[0] == 1;
    assert k <= Deg(p) ==> c[k] == Flag(Bit(p, Deg(p) - k));
  }

  /** One row of the table: 1, the lower coefficients, -1. */
  method FillRow(p1: nat, polynomials: array<int>, start: nat) returns (l: nat)
    requires 1 < p1 < Pow2(31) && start + Deg(p1) + 2 < polynomials.Length
    modifies polynomials
    ensures l == start + Deg(p1) + 2
    ensures polynomials[..start] == old(polynomials[..start])
    ensures polynomials[start..l] == Coefficients(p1)
  {
    hide Bit, Pow2, Coefficients, Deg;
    ghost var done := polynomials[..start];
    l := start;
    var eP1 := DegreeFrom(p1, 30);
    DegreeRange(p1);
    CoefficientAt(p1, 0);
    polynomials[l] := 1;
    l := l + 1;
    var e: int := eP1 - 1;
    while e >= 0
      invariant -1 <= e < eP1 && l == start + eP1 - e
      invariant polynomials[..start] == done
      invariant forall x: nat :: start <= x < l ==> polynomials[x] == Coefficients(p1)[x - start]
    {
      CoefficientAt(p1, l - start);
      polynomials[l] := Flag(Bit(p1, e));
      l := l + 1;
      e := e - 1;
    }
    CoefficientAt(p1, l - start);
    polynomials[l] := -1;
    l := l + 1;
  }

  /** The polynomials table is filled exactly: one row per polynomial, closed by a final -1. */
  method FillTable(buffer: array<nat>, polynomials: array<int>)
    requires forall i: nat :: i < buffer.Length ==> 1 < buffer[i] < Pow2(31)
    requires polynomials.Length == SumOfDegrees(buffer[..]) + 2 * buffer.Length + 1
    modifies polynomials
    ensures polynomials[..] == TableOf(buffer[..]) + [-1]
  {
    hide Bit, Pow2, Coefficients, Deg, SumOfDegrees;
    var l, n := 0, 0;
    TableSize(buffer[..]);
    assert buffer[..0] == [];
    while n < buffer.Length
      invariant n <= buffer.Length
      invariant l == |TableOf(buffer[..n])| <= |TableOf(buffer[..])|
      invariant polynomials[..l] == TableOf(buffer[..n])
    {
      ghost var start, done := l, polynomials[..l];
      var p1 := buffer[n];
      TableAt(buffer[..], n, Deg(p1) + 1);
      assert buffer[..][..n] == buffer[..n] && buffer[..][..n + 1] == buffer[..n + 1];
      assert buffer[..n + 1][..n] == buffer[..n];
      l := FillRow(p1, polynomials, l);
      assert polynomials[..l] == polynomials[..start] + polynomials[start..l];
      n := n + 1;
    }
    polynomials[l] := -1;
    assert buffer[..n] == buffer[..];
    assert polynomials[..] == polynomials[..l] + [-1];
  }

  // ---------- powers in right-aligned arrays ----------

  /** a[at..at + m] holds the coefficients of q, the leading one first. */
  ghost predicate Holds(a: seq<nat>, at: nat, q: nat, m: nat) {
    at + m < |a| && forall x: nat :: at <= x <= at + m ==> a[x] == Flag(Bit(q, at + m - x))
  }

  ghost predicate IsPolynomial(table: seq<int>, at: nat, p: nat) {
    && at + Deg(p) + 1 < |table|
    && forall x: nat :: at <= x < at + Deg(p) + 2 ==> table[x] == Coefficients(p)[x - at]
  }

  lemma ConvolutionStep(p: nat, t: nat, k: int, s: nat, acc: bool)
    requires k - s >= 0
    ensures ((acc != (Bit(p, k - s) && Bit(t, s))) != Convolution(p, Shr(t, s + 1), k - s - 1))
         == (acc != Convolution(p, Shr(t, s), k - s))
  {
    hide Bit;
    BitShr(t, s, 0);
    ShrShr(t, s, 1);
    assert Shr(Shr(t, s), 1) == Shr(Shr(t, s) / 2, 0);
    assert Bit(Shr(t, s), 0) == (Shr(t, s) % 2 == 1) by { LowestBit(Shr(t, s)); }
  }

  lemma ConvolutionDone(p: nat, t: nat, k: int, s: nat)
    requires k - s < 0 || t < Pow2(s)
    ensures !Convolution(p, Shr(t, s), k - s)
  {
    if t < Pow2(s) {
      ShrBound(t, s, 0);
      ConvolutionZero(p, k - s);
    }
  }

  /** One coefficient of p * t: the loop over ip and it. */
  method ProductCoefficientAt(polynomials: array<int>, pAt: nat, e: nat, bArr: array<nat>, bAt: nat,
                              tArr: array<nat>, tAt: nat, m1: nat, i: nat, ghost p: nat, ghost t: nat)
    requires bArr != tArr && p > 1 && t > 0 && e == Deg(p) && m1 == Deg(t) && i <= m1 + e
    requires IsPolynomial(polynomials[..], pAt, p) && Holds(tArr[..], tAt, t, m1) && bAt + i < bArr.Length
    modifies bArr
    ensures bArr[bAt + i] == Flag(Bit(Mul(t, p), m1 + e - i))
    ensures forall k: nat :: k < bArr.Length && k != bAt + i ==> bArr[k] == old(bArr[k])
  {
    hide Bit, Mul, Convolution, Xor, And, Pow2, Shr, Deg;
    var m := m1 + e;
    ghost var k := m - i;
    ghost var tSeq := tArr[..];
    ghost var pSeq := polynomials[..];
    bArr[bAt + i] := 0;
    var ip: int := e - (m - i);
    var it: int := m1;
    ghost var acc := false;
    ghost var s := 0;
    assert Shr(t, 0) == t by { ShrNothing(t); }
    while ip <= e && it >= 0
      invariant s == m1 - it && -1 <= it <= m1 && ip == e - k + s
      invariant bArr[bAt + i] == Flag(acc)
      invariant (acc != Convolution(p, Shr(t, s), k - s)) == Convolution(p, t, k)
      invariant forall x: nat :: x < bArr.Length && x != bAt + i ==> bArr[x] == old(bArr[x])
      decreases it + 1
    {
      ConvolutionStep(p, t, k, s, acc);
      assert tSeq[tAt + it] == Flag(Bit(t, m1 - it));
      if ip >= 0 {
        assert pSeq[pAt + ip] == Coefficients(p)[ip] == Flag(Bit(p, e - ip));
        FlagOps(Bit(p, k - s), Bit(t, s));
        FlagOps(acc, Bit(p, k - s) && Bit(t, s));
        bArr[bAt + i] := Xor(bArr[bAt + i], And(polynomials[pAt + ip], tArr[tAt + it]));
        acc := acc != (Bit(p, k - s) && Bit(t, s));
      } else {
        DegBounds(p);
        BitBeyond(p, e + 1, k - s);
      }
      ip := ip + 1;
      it := it - 1;
      s := s + 1;
    }
    DegBounds(t);
    ConvolutionDone(p, t, k, s);
    ProductCoefficient(p, t, k);
    MulComm(p, t);
  }

  lemma ShrNothing(t: nat)
    ensures Shr(t, 0) == t
  {
  }

  /** Multiplies b by p in place, the array growing to the left; t is the scratch copy of b. */
  method MultiplyByP(polynomials: array<int>, pAt: nat, e: nat, bArr: array<nat>, tArr: array<nat>, m1: nat,
                     ghost p: nat, ghost t: nat) returns (m: nat)
    requires bArr.Length == tArr.Length == SCRATCH && bArr != tArr
    requires p > 1 && t > 0 && e == Deg(p) && m1 == Deg(t) && m1 + e < SCRATCH
    requires IsPolynomial(polynomials[..], pAt, p) && Holds(bArr[..], SCRATCH - 1 - m1, t, m1)
    modifies bArr, tArr
    ensures m == m1 + e && Holds(bArr[..], SCRATCH - 1 - m, Mul(t, p), m)
    ensures forall x: nat :: 1023 - m <= x <= 1023 ==> bArr[x] == if Bit(Mul(t, p), 1023 - x) then 1 else 0
  {
    hide Bit, Mul, Deg, IsPolynomial;
    var tAt := SCRATCH - 1 - m1;
    ghost var b0 := bArr[..];
    var i := 0;
    while i <= m1
      invariant i <= m1 + 1
      invariant bArr[..] == b0
      invariant forall x: nat :: tAt <= x < tAt + i ==> tArr[x] == b0[x]
    {
      tArr[tAt + i] := bArr[tAt + i];
      i := i + 1;
    }
    assert Holds(tArr[..], tAt, t, m1);
    m := m1 + e;
    var bAt := SCRATCH - 1 - m;
    i := 0;
    while i <= m
      invariant i <= m + 1
      invariant Holds(tArr[..], tAt, t, m1)
      invariant forall x: nat :: bAt <= x < bAt + i ==> bArr[x] == Flag(Bit(Mul(t, p), bAt + m - x))
    {
      ProductCoefficientAt(polynomials, pAt, e, bArr, bAt, tArr, tAt, m1, i, p, t);
      i := i + 1;
    }
  }

  /** v[0 .. 61 + e]: zeros below m1, ones below m, then the recurrence of b. */
  method ComputeV(bArr: array<nat>, m: nat, m1: nat, vArr: array<nat>, vAt: nat, top: nat, ghost b: nat)
    requires bArr.Length == vArr.Length == SCRATCH && bArr != vArr
    requires m1 <= m == Deg(b) <= top + 1 && m < SCRATCH && vAt + top < SCRATCH
    requires Holds(bArr[..], SCRATCH - 1 - m, b, m)
    modifies vArr
    ensures forall x: nat :: vAt <= x <= vAt + top ==> vArr[x] == Flag(Term(b, m1, x - vAt))
    ensures forall x: nat :: vAt <= x < vAt + m1 ==> vArr[x] == 0
    ensures forall x: nat :: vAt + m1 <= x < vAt + m ==> vArr[x] == 1
  {
    hide Bit, Xor, And, Deg;
    ghost var bSeq := bArr[..];
    var bAt := SCRATCH - 1 - m;
    var i := 0;
    while i < m1
      invariant i <= m1
      invariant forall x: nat :: vAt <= x < vAt + i ==> vArr[x] == Flag(Term(b, m1, x - vAt))
    {
      vArr[vAt + i] := 0;
      i := i + 1;
    }
    while i < m
      invariant m1 <= i <= m
      invariant forall x: nat :: vAt <= x < vAt + i ==> vArr[x] == Flag(Term(b, m1, x - vAt))
    {
      vArr[vAt + i] := 1;
      i := i + 1;
    }
    while i <= top
      invariant m <= i <= top + 1 && bArr[..] == bSeq && Holds(bSeq, bAt, b, m)
      invariant forall x: nat :: vAt <= x < vAt + i ==> vArr[x] == Flag(Term(b, m1, x - vAt))
    {
      vArr[vAt + i] := 0;
      var it := 1;
      while it <= m
        invariant 1 <= it <= m + 1 && bArr[..] == bSeq && Holds(bSeq, bAt, b, m)
        invariant vArr[vAt + i] == Flag(Feed(b, m1, i, it - 1))
        invariant forall x: nat :: vAt <= x < vAt + i ==> vArr[x] == Flag(Term(b, m1, x - vAt))
      {
        assert bSeq[bAt + it] == Flag(Bit(b, m - it));
        FlagOps(Term(b, m1, i - it), Bit(b, m - it));
        FlagOps(Feed(b, m1, i, it - 1), Term(b, m1, i - it) && Bit(b, m - it));
        vArr[vAt + i] := Xor(vArr[vAt + i], And(vArr[vAt + i - it], bArr[bAt + it]));
        it := it + 1;
      }
      i := i + 1;
    }
  }

  /** Enters one row of the matrix: the sequence v, shifted by u places, becomes bit j of every direction number. */
  method AddRow(cjn: array2<nat>, d: nat, vArr: array<nat>, vAt: nat, u: nat, j: nat, ghost p: nat)
    requires p > 1 && cjn.Length0 == BITS && d < cjn.Length1 && j < BITS
    requires vAt + BITS - 1 + u < vArr.Length
    requires forall x: nat :: vAt + u <= x < vAt + u + BITS ==> vArr[x] == Flag(RowBit(p, BITS - 1 - j, x - vAt - u))
    requires forall i: nat :: i < BITS ==> cjn[i, d] == Column(p, i, BITS - 1 - j)
    modifies cjn
    ensures forall i: nat :: i < BITS ==> cjn[i, d] == Column(p, i, BITS - j)
    ensures forall i: nat, k: nat :: i < BITS && k < cjn.Length1 && k != d ==> cjn[i, k] == old(cjn[i, k])
  {
    hide RowBit, Or, Shl;
    var i := 0;
    while i < BITS
      invariant i <= BITS
      invariant forall k: nat :: k < i ==> cjn[k, d] == Column(p, k, BITS - j)
      invariant forall k: nat :: i <= k < BITS ==> cjn[k, d] == Column(p, k, BITS - 1 - j)
      invariant forall x: nat, k: nat :: x < BITS && k < cjn.Length1 && k != d ==> cjn[x, k] == old(cjn[x, k])
    {
      cjn[i, d] := Or(cjn[i, d], Shl(vArr[vAt + i + u], j));
      i := i + 1;
    }
  }

  lemma RowInBlock(p: nat, q: nat, u: nat, i: nat)
    requires p > 1 && u < Deg(p)
    ensures RowBit(p, Deg(p) * q + u, i) == Term(Power(p, q + 1), Deg(p) * q, i + u)
  {
    hide Term, Power;
    var e := Deg(p);
    DivModUnique(e * q + u, e, q, u);
    DegPower(p, q);
  }

  /** A new block of rows: b becomes the next power of p and v its sequence. */
  method NextBlock(polynomials: array<int>, pAt: nat, e: nat, bArr: array<nat>, tArr: array<nat>, vArr: array<nat>,
                   m1: nat, ghost p: nat, ghost q: nat) returns (m: nat)
    requires p > 1 && 1 <= e == Deg(p) <= 30 && IsPolynomial(polynomials[..], pAt, p)
    requires bArr.Length == tArr.Length == vArr.Length == SCRATCH
    requires bArr != tArr && bArr != vArr && tArr != vArr
    requires m1 < BITS && Power(p, q) > 0 && Deg(Power(p, q)) == m1
    requires Holds(bArr[..], SCRATCH - 1 - m1, Power(p, q), m1)
    modifies bArr, tArr, vArr
    ensures m == m1 + e && Power(p, q + 1) > 0 && Deg(Power(p, q + 1)) == m
    ensures Holds(bArr[..], SCRATCH - 1 - m, Power(p, q + 1), m)
    ensures HoldsTerms(vArr[..], SCRATCH + 1 - BITS - e, Power(p, q + 1), m1, BITS + e - 2)
  {
    hide Term, Power, Deg, IsPolynomial, Bit, Holds;
    NextPower(p, q);
    m := MultiplyByP(polynomials, pAt, e, bArr, tArr, m1, p, Power(p, q));
    ComputeV(bArr, m, m1, vArr, SCRATCH + 1 - BITS - e, BITS + e - 2, Power(p, q + 1));
  }

  /** v[at .. at + top] holds the sequence of b. */
  ghost predicate HoldsTerms(v: seq<nat>, at: nat, b: nat, start: nat, top: nat) {
    at + top < |v| && forall x: nat :: at <= x <= at + top ==> v[x] == Flag(Term(b, start, x - at))
  }

  lemma RowInV(v: seq<nat>, at: nat, top: nat, p: nat, q: nat, u: nat, r: nat)
    requires p > 1 && q > 0 && u < Deg(p) && top == BITS + Deg(p) - 2 && r == Deg(p) * q - Deg(p) + u
    requires HoldsTerms(v, at, Power(p, q), Deg(p) * q - Deg(p), top)
    ensures forall x: nat :: at + u <= x < at + u + BITS ==> v[x] == Flag(RowBit(p, r, x - at - u))
  {
    hide RowBit, Term, Power, Deg;
    BlockOffset(Deg(p), q);
    forall x: nat | at + u <= x < at + u + BITS ensures v[x] == Flag(RowBit(p, r, x - at - u)) {
      RowInBlock(p, q - 1, u, x - at - u);
    }
  }

  /** The body of the cycle over the polynomials: fills column block d of cjn for the polynomial at pAt. */
  method GenerateDimension(polynomials: array<int>, pAt: nat, e: nat, cjn: array2<nat>, d: nat,
                           bArr: array<nat>, tArr: array<nat>, vArr: array<nat>, ghost p: nat)
    requires p > 1 && 1 <= e == Deg(p) <= 30 && IsPolynomial(polynomials[..], pAt, p)
    requires cjn.Length0 == BITS && d < cjn.Length1
    requires bArr.Length == tArr.Length == vArr.Length == SCRATCH
    requires bArr != tArr && bArr != vArr && tArr != vArr
    requires forall i: nat :: i < BITS ==> cjn[i, d] == 0
    modifies cjn, bArr, tArr, vArr
    ensures forall i: nat :: i < BITS ==> cjn[i, d] == Column(p, i, BITS)
    ensures forall i: nat, k: nat :: i < BITS && k < cjn.Length1 && k != d ==> cjn[i, k] == old(cjn[i, k])
  {
    hide RowBit, Power, Deg, IsPolynomial, Column, Holds, HoldsTerms;
    var m := 0;
    bArr[SCRATCH - 1] := 1;
    var top := BITS + e - 2;
    var vAt := SCRATCH - 1 - top;
    var j: int := BITS - 1;
    var u := e;
    ghost var q := 0;
    Start(p, bArr[..]);
    forall i: nat | i < BITS ensures cjn[i, d] == Column(p, i, 0) { NoRows(p, i); }
    while j >= 0
      invariant -1 <= j < BITS && u <= e
      invariant m == e * q && BITS - 1 - j == m - e + u && (q == 0 ==> u == e)
      invariant Power(p, q) > 0 && Deg(Power(p, q)) == m && Holds(bArr[..], SCRATCH - 1 - m, Power(p, q), m)
      invariant q > 0 ==> m >= e && HoldsTerms(vArr[..], vAt, Power(p, q), m - e, top)
      invariant forall i: nat :: i < BITS ==> cjn[i, d] == Column(p, i, BITS - 1 - j)
      invariant forall i: nat, k: nat :: i < BITS && k < cjn.Length1 && k != d ==> cjn[i, k] == old(cjn[i, k])
      decreases j + 1
    {
      if u == e {
        u := 0;
        m := NextBlock(polynomials, pAt, e, bArr, tArr, vArr, m, p, q);
        q := q + 1;
        NextMultiple(e, q);
      }
      ghost var v := vArr[..];
      RowInV(v, vAt, top, p, q, u, BITS - 1 - j);
      RowsFit(v, vAt, p, q, m - e, top);
      AddRow(cjn, d, vArr, vAt, u, j, p);
      j := j - 1;
      u := u + 1;
    }
  }

  lemma NextMultiple(e: nat, q: nat)
    requires q > 0
    ensures e * q == e * (q - 1) + e
  {
  }

  lemma RowsFit(v: seq<nat>, at: nat, p: nat, q: nat, start: nat, top: nat)
    requires HoldsTerms(v, at, Power(p, q), start, top)
    ensures at + top < |v|
  {
  }

  lemma NoRows(p: nat, i: nat)
    requires p > 1
    ensures Column(p, i, 0) == 0
  {
  }

  lemma BlockOffset(e: nat, q: nat)
    requires q > 0
    ensures e * (q - 1) == e * q - e
  {
  }

  lemma Start(p: nat, b: seq<nat>)
    requires p > 1 && |b| == SCRATCH && b[SCRATCH - 1] == 1
    ensures Power(p, 0) == 1 && Deg(Power(p, 0)) == 0 && Holds(b, SCRATCH - 1, Power(p, 0), 0)
  {
  }

  lemma NextPower(p: nat, q: nat)
    requires p > 1
    ensures Power(p, q + 1) == Mul(Power(p, q), p) && Power(p, q + 1) > 0
    ensures Deg(Power(p, q + 1)) == Deg(Power(p, q)) + Deg(p)
  {
    DegPower(p, q);
    DegMul(Power(p, q), p);
  }

  // ---------- the whole table ----------

  lemma PolynomialAt(s: seq<nat>, d: nat, table: seq<int>)
    requires d < |s| && table == TableOf(s) + [-1]
    ensures IsPolynomial(table, |TableOf(s[..d])|, s[d])
    ensures |TableOf(s[..d + 1])| == |TableOf(s[..d])| + Deg(s[d]) + 2
    ensures |TableOf(s[..d + 1])| < |table|
  {
    hide Coefficients, Deg;
    var at := |TableOf(s[..d])|;
    TableAt(s, d, Deg(s[d]) + 1);
    forall x: nat | at <= x < at + Deg(s[d]) + 2 ensures x < |TableOf(s)| && table[x] == Coefficients(s[d])[x - at] {
      TableAt(s, d, x - at);
    }
  }

  /** Finds the degree of a polynomial in the table: the place just before its closing mark. */
  method DegreeAt(polynomials: array<int>, pAt: nat, ghost p: nat) returns (e: nat)
    requires p > 0 && IsPolynomial(polynomials[..], pAt, p)
    ensures e == Deg(p)
  {
    hide Bit, Coefficients;
    ghost var table := polynomials[..];
    e := 0;
    CoefficientAt(p, 1);
    while polynomials[pAt + e + 1] != -1
      invariant e <= Deg(p) && table == polynomials[..]
      invariant polynomials[pAt + e + 1] == Coefficients(p)[e + 1]
      invariant e < Deg(p) ==> Coefficients(p)[e + 1] >= 0
      invariant e == Deg(p) ==> Coefficients(p)[e + 1] == -1
      decreases Deg(p) - e
    {
      e := e + 1;
      CoefficientAt(p, e + 1);
      assert table[pAt + e + 1] == Coefficients(p)[e + 1];
    }
  }

  /** GenerateCJ: cjn[i][d] becomes direction number i for the d-th irreducible polynomial. */
  method GenerateCJ(cjn: array2<nat>) returns (ghost used: seq<nat>)
    requires cjn.Length0 == BITS && cjn.Length1 > 0 && Enough(cjn.Length1)
    modifies cjn
    ensures |used| == cjn.Length1 && FirstIrreducibles(used)
    ensures forall d: nat :: d < |used| ==> used[d] > 1
    ensures forall i: nat, d: nat :: i < BITS && d < |used| ==> cjn[i, d] == Column(used[d], i, BITS)
  {
    hide Column, Pow2, FirstIrreducibles, Enough, Coefficients, Deg, SumOfDegrees, Irreducible, TableOf;
    var dims := cjn.Length1;
    var buffer := new nat[dims];
    var l := GeneratePolynomials(buffer);
    used := buffer[..];
    UsedPolynomials(used);
    var polynomials := new int[l + 2 * dims + 1];
    FillTable(buffer, polynomials);
    ghost var table := polynomials[..];
    var bArr := new nat[SCRATCH];
    var vArr := new nat[SCRATCH];
    var tArr := new nat[SCRATCH];
    var p, d := 0, 0;
    NoTable(used);
    while polynomials[p] != -1
      invariant d <= dims && polynomials[..] == table
      invariant p == |TableOf(used[..d])| < |table|
      invariant forall i: nat, k: nat :: i < BITS && k < d ==> cjn[i, k] == Column(used[k], i, BITS)
      decreases dims - d
    {
      InsideTable(used, d, table);
      PolynomialAt(used, d, table);
      var i := 0;
      while i < BITS
        invariant i <= BITS && polynomials[..] == table
        invariant forall k: nat :: k < i ==> cjn[k, d] == 0
        invariant forall x: nat, k: nat :: x < BITS && k < d ==> cjn[x, k] == Column(used[k], x, BITS)
      {
        cjn[i, d] := 0;
        i := i + 1;
      }
      var e := DegreeAt(polynomials, p, used[d]);
      DegreeRange(used[d]);
      GenerateDimension(polynomials, p, e, cjn, d, bArr, tArr, vArr, used[d]);
      d := d + 1;
      p := p + e + 2;
    }
    TableEnd(used, d, table);
  }

  lemma UsedPolynomials(s: seq<nat>)
    requires FirstIrreducibles(s)
    ensures forall d: nat :: d < |s| ==> s[d] > 1
  {
    forall d: nat | d < |s| ensures s[d] > 1 { assert Irreducible(s[d]); }
  }

  lemma NoTable(s: seq<nat>)
    ensures TableOf(s[..0]) == []
  {
  }

  lemma DegreeRange(p: nat)
    requires 1 < p < Pow2(31)
    ensures 1 <= Deg(p) <= 30
  {
    DegBounds(p);
    if Deg(p) > 30 { Pow2Mono(31, Deg(p)); }
  }

  lemma InsideTable(s: seq<nat>, d: nat, table: seq<int>)
    requires table == TableOf(s) + [-1] && d <= |s| && |TableOf(s[..d])| < |table|
    requires table[|TableOf(s[..d])|] != -1
    ensures d < |s|
  {
    assert s[..|s|] == s;
  }

  lemma TableEnd(s: seq<nat>, d: nat, table: seq<int>)
    requires table == TableOf(s) + [-1] && d <= |s| && |TableOf(s[..d])| < |table|
    requires table[|TableOf(s[..d])|] == -1 && forall d: nat :: d < |s| ==> s[d] > 1
    ensures d == |s|
  {
    if d < |s| {
      TableAt(s, d, 0);
      CoefficientAt(s[d], 0);
    }
  }

  // ---------- the generators ----------

  /** The direction numbers of one dimension of the table. */
  ghost function DirectionNumbers(cjn: array2<nat>, dim: nat): (v: seq<nat>)
    requires cjn.Length0 == BITS && dim < cjn.Length1
    reads cjn
    ensures |v| == 63 && forall b: nat :: b < 63 ==> v[b] == cjn[b, dim]
  {
    seq(BITS, b requires 0 <= b < BITS reads cjn => cjn[b, dim])
  }

  /** The k low bits of a two's complement integer. */
  function LowBitsOf(i: int, k: nat): nat
    decreases k
  {
    if k == 0 then 0 else i % 2 + 2 * LowBitsOf(i / 2, k - 1)
  }

  lemma LowBitsStep(i: int, k: nat)
    requires k > 0
    ensures LowBitsOf(i, k) % 2 == i % 2 && LowBitsOf(i, k) / 2 == LowBitsOf(i / 2, k - 1)
  {
  }

  lemma {:induction false} LowBitsResidue(i: int, k: nat)
    ensures LowBitsOf(i, k) == i % Pow2(k)
    decreases k
  {
    if k > 0 {
      LowBitsResidue(i / 2, k - 1);
      HalfResidue(i, Pow2(k - 1));
    }
  }

  lemma HalfResidue(i: int, p: int)
    requires p > 0
    ensures i % (2 * p) == i % 2 + 2 * ((i / 2) % p)
  {
    var q, r := (i / 2) / p, (i / 2) % p;
    assert i == 2 * p * q + (i % 2 + 2 * r);
    DivModUnique(i, 2 * p, q, i % 2 + 2 * r);
  }

  /** Of a signed index, negative ones included, the generators use the residue modulo a power of two. */
  lemma LowBitsAre(i: int)
    ensures LowBitsOf(i, 63) == i % 0x8000_0000_0000_0000 && LowBitsOf(i, 31) == i % 0x8000_0000
  {
    hide LowBitsOf, Pow2;
    LowBitsResidue(i, 63);
    LowBitsResidue(i, 31);
    Pow2Add(32, 31);
    Pow2At32();
  }

  /** getQuasirandomValue63 before scaling. The index is a signed word; halving it rounds down. */
  method QuasirandomValue63(cjn: array2<nat>, index: int, dim: nat) returns (result: nat)
    requires cjn.Length0 == BITS && dim < cjn.Length1
    ensures result == Combine(DirectionNumbers(cjn, dim), 0, index % 0x8000_0000_0000_0000)
  {
    LowBitsAre(index);
    hide Xor, LowBitsOf;
    ghost var v := DirectionNumbers(cjn, dim);
    result := 0;
    var i, bit := index, 0;
    XorZero(Combine(v, 0, LowBitsOf(index, BITS)));
    while bit < BITS
      invariant bit <= BITS
      invariant Xor(result, Combine(v, bit, LowBitsOf(i, BITS - bit))) == Combine(v, 0, LowBitsOf(index, BITS))
    {
      LowBitsStep(i, BITS - bit);
      ghost var rest := Combine(v, bit + 1, LowBitsOf(i / 2, BITS - bit - 1));
      XorZero(rest);
      if i % 2 == 1 {
        XorAssoc(result, v[bit], rest);
        result := Xor(result, cjn[bit, dim]);
      }
      bit := bit + 1;
      i := i / 2;
    }
    XorZero(result);
  }

  // ---------- the 31-bit table ----------

  const RESOLUTION: nat := 31

  /** The direction numbers of one dimension of the short table. */
  ghost function TableNumbers(table: array2<nat>, dim: nat): (v: seq<nat>)
    requires dim < table.Length0 && table.Length1 == RESOLUTION
    reads table
    ensures |v| == 31 && forall b: nat :: b < 31 ==> v[b] == table[dim, b]
  {
    seq(RESOLUTION, b requires 0 <= b < RESOLUTION reads table => table[dim, b])
  }

  /** initQuasirandomGenerator after GenerateCJ: keeps the 31 top bits of every direction number, for each dimension. */
  method FillResolutionTable(cjn: array2<nat>, table: array2<nat>)
    requires cjn.Length0 == BITS && cjn.Length1 == table.Length0 && table.Length1 == RESOLUTION && cjn != table
    modifies table
    ensures forall dim: nat, bit: nat :: dim < table.Length0 && bit < RESOLUTION ==>
      table[dim, bit] == Low(Shr(cjn[bit, dim], 32), 31)
  {
    hide Low, Shr;
    var dim := 0;
    while dim < table.Length0
      invariant dim <= table.Length0
      invariant forall d: nat, b: nat :: d < dim && b < RESOLUTION ==> table[d, b] == Low(Shr(cjn[b, d], 32), 31)
    {
      var bit := 0;
      while bit < RESOLUTION
        invariant bit <= RESOLUTION
        invariant forall d: nat, b: nat :: d < dim && b < RESOLUTION ==> table[d, b] == Low(Shr(cjn[b, d], 32), 31)
        invariant forall b: nat :: b < bit ==> table[dim, b] == Low(Shr(cjn[b, dim], 32), 31)
      {
        table[dim, bit] := Low(Shr(cjn[bit, dim], 32), 31);
        bit := bit + 1;
      }
      dim := dim + 1;
    }
  }

  /** getQuasirandomValue before scaling. */
  method QuasirandomValue(table: array2<nat>, index: int, dim: nat) returns (result: nat)
    requires dim < table.Length0 && table.Length1 == RESOLUTION
    ensures result == Combine(TableNumbers(table, dim), 0, index % 0x8000_0000)
  {
    LowBitsAre(index);
    hide Xor, LowBitsOf;
    ghost var v := TableNumbers(table, dim);
    result := 0;
    var i, bit := index, 0;
    XorZero(Combine(v, 0, LowBitsOf(index, RESOLUTION)));
    while bit < RESOLUTION
      invariant bit <= RESOLUTION
      invariant Xor(result, Combine(v, bit, LowBitsOf(i, RESOLUTION - bit)))
             == Combine(v, 0, LowBitsOf(index, RESOLUTION))
    {
      LowBitsStep(i, RESOLUTION - bit);
      ghost var rest := Combine(v, bit + 1, LowBitsOf(i / 2, RESOLUTION - bit - 1));
      XorZero(rest);
      if i % 2 == 1 {
        XorAssoc(result, v[bit], rest);
        result := Xor(result, table[dim, bit]);
      }
      bit := bit + 1;
      i := i / 2;
    }
    XorZero(result);
  }

  /** The short table gives the 31 top bits of the 63-bit value, for every index below 2^31. */
  lemma {:induction false} ShortTableTruncates(v: seq<nat>, w: seq<nat>, b: nat, n: nat)
    requires |v| == BITS && |w| == RESOLUTION && b <= RESOLUTION && n < Pow2(RESOLUTION - b)
    requires forall i: nat :: i < BITS ==> v[i] < Pow2(BITS)
    requires forall i: nat :: i < RESOLUTION ==> w[i] == Low(Shr(v[i], 32), 31)
    ensures Combine(w, b, n) == Shr(Combine(v, b, n), 32)
    decreases RESOLUTION - b
  {
    hide Xor, Low, Shr;
    if b == RESOLUTION {
      CombineOfZero(v, b);
      ShrZero(32);
    } else {
      ShortTableTruncates(v, w, b + 1, n / 2);
      ShrBound(v[b], 32, 31);
      LowSmall(Shr(v[b], 32), 31);
      XorShr(if n % 2 == 1 then v[b] else 0, Combine(v, b + 1, n / 2), 32);
      ShrZero(32);
    }
  }

  lemma {:induction false} ShrZero(k: nat)
    ensures Shr(0, k) == 0
  {
    if k > 0 { ShrZero(k - 1); }
  }
}
