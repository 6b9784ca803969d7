/** Several Sobol dimensions together: each applies its primitive polynomial layer by layer, so that vanishing top
    bits make the Gray-coded index a multiple of powers of all polynomials in use. */
module SobolNet {
  import opened Bits
  import opened Counting
  import opened Gf2
  import opened Irreducibles
  import opened Recurrences
  import opened Directions
  import opened Words
  import opened Nets
  import opened Sobol

  // ---------- layered rows ----------

  /** The polynomial p of degree e sends row r to row r - e, and the first e rows to zero. */
  ghost predicate Layered(p: nat, row: nat -> nat -> bool, w: nat) {
    forall r: nat, u: nat :: r < w ==> Act(p, row(r), u) == (r >= Deg(p) && row(r - Deg(p))(u))
  }

  /** Some row of the first layer does not vanish on x. */
  ghost predicate Seen(p: nat, row: nat -> nat -> bool, x: nat) {
    exists r: nat :: r < Deg(p) && Act(x, row(r), 0)
  }

  /** The first e rows tell a nonzero polynomial of degree below e from zero. */
  ghost predicate Separating(p: nat, row: nat -> nat -> bool) {
    forall x: nat :: 0 < x < Pow2(Deg(p)) ==> Seen(p, row, x)
  }

  lemma LayerAt(p: nat, row: nat -> nat -> bool, w: nat, r: nat, u: nat)
    requires Layered(p, row, w) && r < w
    ensures Act(p, row(r), u) == (r >= Deg(p) && row(r - Deg(p))(u))
  {
  }

  /** The q-th power of p moves q layers. */
  lemma {:induction false} PowerLayers(p: nat, row: nat -> nat -> bool, w: nat, q: nat, r: nat, u: nat)
    requires Layered(p, row, w) && r < w
    ensures Act(Power(p, q), row(r), u) == (r >= Deg(p) * q && row(r - Deg(p) * q)(u))
    decreases q
  {
    hide Act, Deg, Mul, Layered;
    if q == 0 {
      ActOne(row(r), u);
    } else {
      var a, m := Power(p, q - 1), Deg(p) * (q - 1);
      assert Deg(p) * q == m + Deg(p);
      if r >= m {
        var t := row(r - m);
        forall n: nat ensures t(n) == Act(a, row(r), n) { PowerLayers(p, row, w, q - 1, r, n); }
        ActMul(a, p, row(r), t, u);
        LayerAt(p, row, w, r - m, u);
      } else {
        var t := (n: nat) => false;
        forall n: nat ensures t(n) == Act(a, row(r), n) { PowerLayers(p, row, w, q - 1, r, n); }
        ActMul(a, p, row(r), t, u);
        ActOnZero(p, t, u);
      }
    }
  }

  /** A polynomial on which the first layer vanishes is a multiple of p. */
  lemma FirstLayer(p: nat, row: nat -> nat -> bool, w: nat, x: nat)
    requires p > 0 && Deg(p) <= w && Layered(p, row, w) && Separating(p, row)
    requires forall r: nat :: r < Deg(p) ==> !Act(x, row(r), 0)
    ensures Divides(p, x)
  {
    hide Act, Deg, Mul, Xor, Layered;
    var q, rest := DivMod(x, p);
    forall r: nat | r < Deg(p) ensures !Act(rest, row(r), 0) {
      ActXor(Mul(p, q), rest, row(r), 0);
      var zero := (n: nat) => false;
      forall n: nat ensures zero(n) == Act(p, row(r), n) { LayerAt(p, row, w, r, n); }
      ActMul(p, q, row(r), zero, 0);
      ActOnZero(q, zero, 0);
    }
    assert !Seen(p, row, rest);
    XorZero(Mul(p, q));
    DividesIntro(p, q, x);
  }

  lemma {:induction false} FactorsFromLayers(p: nat, row: nat -> nat -> bool, w: nat, q: nat, x: nat)
    requires p > 0 && Layered(p, row, w) && Separating(p, row) && Deg(p) * q <= w
    requires forall r: nat :: r < Deg(p) * q ==> !Act(x, row(r), 0)
    ensures Divides(Power(p, q), x)
    decreases q
  {
    hide Act, Deg, Mul, Layered, Separating, Divides;
    if q == 0 {
      DividesSelf(x);
    } else {
      var e, a := Deg(p), Power(p, q - 1);
      assert e * q == e * (q - 1) + e;
      FactorsFromLayers(p, row, w, q - 1, x);
      var c := Cofactor(a, x);
      TimesMonotone(e, 1, q);
      forall r: nat | r < e ensures !Act(c, row(r), 0) {
        var s := row(e * (q - 1) + r);
        forall n: nat ensures row(r)(n) == Act(a, s, n) { PowerLayers(p, row, w, q - 1, e * (q - 1) + r, n); }
        ActMul(a, c, s, row(r), 0);
      }
      FirstLayer(p, row, w, c);
      PowerStep(p, q, c, x);
    }
  }

  lemma LayersFromFactors(p: nat, row: nat -> nat -> bool, w: nat, q: nat, x: nat, r: nat)
    requires Layered(p, row, w) && Deg(p) * q <= w && r < Deg(p) * q && Divides(Power(p, q), x)
    ensures !Act(x, row(r), 0)
  {
    hide Act, Deg, Mul, Layered, Divides;
    var c := Cofactor(Power(p, q), x);
    var zero := (n: nat) => false;
    forall n: nat ensures zero(n) == Act(Power(p, q), row(r), n) { PowerLayers(p, row, w, q, r, n); }
    ActMul(Power(p, q), c, row(r), zero, 0);
    ActOnZero(c, zero, 0);
  }

  /** Direction numbers whose bits, row by row, are layered and separating make a valid dimension. */
  lemma LayeredDimension(d: Dimension, row: nat -> nat -> bool, w: nat)
    requires d.p > 1 && |d.v| == w && forall i: nat :: i < w ==> d.v[i] < Pow2(w)
    requires forall r: nat, i: nat :: r < w && i < w ==> row(r)(i) == Bit(d.v[i], w - 1 - r)
    requires Layered(d.p, row, w) && Separating(d.p, row)
    ensures ValidDimension(d, w)
  {
    hide Act, Deg, Bit, Pow2, Row, Top, Layered, Separating, Divides, Power, Combine;
    forall q: nat, x: nat | Deg(d.p) * q <= w && x < Pow2(w)
      ensures Top(d, Deg(d.p) * q, x) == 0 <==> Divides(Power(d.p, q), x)
    {
      var k := Deg(d.p) * q;
      TopVanishes(d, k, x);
      forall r: nat | r < k ensures Row(d, r, x) == Act(x, row(r), 0) { RowIsAct(d, r, x, row(r)); }
      if Divides(Power(d.p, q), x) {
        forall r: nat | r < k ensures !Row(d, r, x) { LayersFromFactors(d.p, row, w, q, x, r); }
      } else if forall r: nat :: r < k ==> !Row(d, r, x) {
        forall r: nat | r < k ensures !Act(x, row(r), 0) { assert !Row(d, r, x); }
        FactorsFromLayers(d.p, row, w, q, x);
      }
    }
  }

  lemma RowIsAct(d: Dimension, r: nat, x: nat, s: nat -> bool)
    requires r < |d.v| && x < Pow2(|d.v|)
    requires forall i: nat :: i < |d.v| ==> s(i) == Bit(d.v[i], |d.v| - 1 - r)
    ensures Row(d, r, x) == Act(x, s, 0)
  {
    hide Act, Bit, Pow2;
    CombineActs(d.v, 0, x, |d.v| - 1 - r, s);
  }

  // ---------- direction numbers continued beyond the table ----------

  /** n more direction numbers by the same recurrence. */
  function Continued(p: Primitive, v: seq<nat>, n: nat): (r: seq<nat>)
    requires ValidRow(p) && p.degree <= |v|
    ensures |r| == |v| + n && forall i: nat :: i < |v| ==> r[i] == v[i]
  {
    if n == 0 then v else
      var u := Continued(p, v, n - 1);
      u + [Feedback(p, u, |u|, p.degree)]
  }

  lemma {:induction false} SameNumbers(p: Primitive, v: seq<nat>, m: nat, n: nat)
    requires ValidRow(p) && p.degree <= |v| && m <= n
    ensures forall i: nat :: i < |v| + m ==> Continued(p, v, m)[i] == Continued(p, v, n)[i]
    decreases n
  {
    hide Feedback;
    if m < n { SameNumbers(p, v, m, n - 1); }
  }

  /** Direction number i, for any i. */
  function Number(p: Primitive, v: seq<nat>, i: nat): nat
    requires ValidRow(p) && p.degree <= |v|
  {
    Continued(p, v, i + 1)[i]
  }

  lemma NumberIn(p: Primitive, v: seq<nat>, n: nat, i: nat)
    requires ValidRow(p) && p.degree <= |v| && i < |v| + n
    ensures Number(p, v, i) == Continued(p, v, n)[i]
  {
    hide Continued;
    if i + 1 <= n { SameNumbers(p, v, i + 1, n); } else { SameNumbers(p, v, n, i + 1); }
  }

  lemma {:induction false} FeedbackBound(p: Primitive, v: seq<nat>, i: nat, j: nat, w: nat)
    requires ValidRow(p) && p.degree <= i <= |v| && 1 <= j <= p.degree
    requires forall k: nat :: k < |v| ==> v[k] < Pow2(w)
    ensures Feedback(p, v, i, j) < Pow2(w)
    decreases j
  {
    hide Xor, Shr, Pow2, Bit;
    if j == 1 {
      XorBound(v[i - p.degree], Shr(v[i - p.degree], p.degree), w);
    } else {
      FeedbackBound(p, v, i, j - 1, w);
      XorBound(Feedback(p, v, i, j - 1), if Bit(p.a, p.degree - j) then v[i - (j - 1)] else 0, w);
    }
  }

  lemma {:induction false} ContinuedBound(p: Primitive, v: seq<nat>, n: nat, w: nat)
    requires ValidRow(p) && p.degree <= |v| && forall k: nat :: k < |v| ==> v[k] < Pow2(w)
    ensures forall k: nat :: k < |v| + n ==> Continued(p, v, n)[k] < Pow2(w)
    decreases n
  {
    hide Feedback, Pow2;
    if n > 0 {
      ContinuedBound(p, v, n - 1, w);
      var u := Continued(p, v, n - 1);
      FeedbackBound(p, u, |u|, p.degree, w);
    }
  }

  /** Every later number obeys the recurrence. */
  lemma {:induction false} ContinuedDirection(p: Primitive, v: seq<nat>, n: nat, i: nat)
    requires ValidRow(p) && p.degree <= |v| && forall k: nat :: k < |v| ==> DirectionAt(p, v, k)
    requires p.degree <= i < |v| + n
    ensures DirectionAt(p, Continued(p, v, n), i)
    decreases n
  {
    hide Feedback;
    if n > 0 {
      var u, x := Continued(p, v, n - 1), Continued(p, v, n);
      if i < |u| {
        ContinuedDirection(p, v, n - 1, i);
        FeedbackPrefix(p, u, x, i, p.degree);
      } else {
        FeedbackPrefix(p, u, x, i, p.degree);
      }
    } else {
      assert DirectionAt(p, v, i);
    }
  }

  /** Row r, counted from the top of the 32-bit words. */
  function SobolRow(p: Primitive, v: seq<nat>): nat -> nat -> bool
    requires ValidRow(p) && p.degree <= |v|
  {
    (r: nat) => (i: nat) => r < 32 && Bit(Number(p, v, i), 31 - r)
  }

  lemma SobolRowAt(p: Primitive, v: seq<nat>, n: nat, r: nat, i: nat)
    requires ValidRow(p) && p.degree <= |v| && i < |v| + n && r < 32
    ensures SobolRow(p, v)(r)(i) == Bit(Continued(p, v, n)[i], 31 - r)
  {
    hide Bit, Number, Continued;
    NumberIn(p, v, n, i);
  }

  /** The polynomial of the row moves one layer: by the recurrence, and because the numbers have 32 bits. */
  lemma SobolLayer(p: Primitive, v: seq<nat>, r: nat, u: nat)
    requires ValidRow(p) && |v| == 32 && r < 32
    requires forall i: nat :: i < 32 ==> DirectionAt(p, v, i) && v[i] < Pow2(32)
    ensures Act(Polynomial(p), SobolRow(p, v)(r), u) == (r >= p.degree && SobolRow(p, v)(r - p.degree)(u))
  {
    hide Act, Bit, Polynomial, DirectionAt, Continued, SobolRow, Pow2, Number;
    var d, x, s := p.degree, Continued(p, v, u + 1), SobolRow(p, v)(r);
    ContinuedDirection(p, v, u + 1, u + d);
    forall n: nat | n < |x| ensures s(n) == Bit(x[n], 31 - r) { SobolRowAt(p, v, u + 1, r, n); }
    BratleyFox(p, x, u + d, 31 - r, s);
    if r >= d {
      SobolRowAt(p, v, u + 1, r - d, u);
    } else {
      ContinuedBound(p, v, u + 1, 32);
      BitBeyond(x[u], 32, 31 - r + d);
    }
  }

  lemma PolynomialDegree(p: Primitive)
    requires ValidRow(p)
    ensures Polynomial(p) > 1 && Deg(Polynomial(p)) == p.degree
  {
    var d := p.degree;
    LowBound(p.a, d - 1);
    DoublePow2(d);
    DoublePow2(d + 1);
    DegUnique(Polynomial(p), d);
  }

  /** Odd initial values: the first rows are triangular with ones on the diagonal. */
  lemma SobolSeparating(p: Primitive, v: seq<nat>, x: nat)
    requires ValidRow(p) && Banded(v, 32) && forall b: nat :: b < p.degree ==> DiagonalAt(v, b)
    requires 0 < x < Pow2(p.degree) && Deg(Polynomial(p)) == p.degree
    ensures Seen(Polynomial(p), SobolRow(p, v), x)
  {
    hide Act, Bit, Pow2, SobolRow, Combine, Polynomial, Deg;
    var h := HighestBit(x, p.degree);
    CombineTopBit(v, 32, 0, x, h);
    forall i: nat | i < 32 ensures SobolRow(p, v)(h)(i) == Bit(v[i], 31 - h) { SobolRowAt(p, v, 0, h, i); }
    Pow2Mono(p.degree, 32);
    CombineActs(v, 0, x, 31 - h, SobolRow(p, v)(h));
  }

  // ---------- the dimensions of a table ----------

  /** The polynomial of a dimension: x for the first, then the one that the row encodes. */
  function PolynomialOf(table: seq<Primitive>, dim: nat): nat
    requires dim < |table| && (dim > 0 ==> ValidRow(table[dim]))
  {
    if dim == 0 then 2 else Polynomial(table[dim])
  }

  function DimensionOf(table: seq<Primitive>, dim: nat, v: seq<nat>): Dimension
    requires dim < |table| && (dim > 0 ==> ValidRow(table[dim]))
  {
    Dimension(PolynomialOf(table, dim), v)
  }

  /** v holds the direction numbers of a dimension. */
  ghost predicate TableDimension(table: seq<Primitive>, dim: nat, v: seq<nat>) {
    dim < |table| && (dim > 0 ==> ValidRow(table[dim])) && DirectionsOf(table, dim, v)
  }

  /** All initial values of the row of a dimension are odd. */
  ghost predicate OddDimension(table: seq<Primitive>, dim: nat)
    requires dim < |table| && (dim > 0 ==> ValidRow(table[dim]))
  {
    dim == 0 || OddValues(table[dim], table[dim].degree)
  }

  lemma LaterDimension(table: seq<Primitive>, dim: nat, v: seq<nat>)
    requires TableDimension(table, dim, v) && OddDimension(table, dim) && dim > 0
    ensures ValidDimension(DimensionOf(table, dim, v), 32)
  {
    assert |v| == 32;
    hide ValidDimension, Polynomial, DirectionAt, Low, Shl, Banded, DiagonalAt, OddAt, OddValues;
    var p := table[dim];
    DirectionsBanded(table, dim, v);
    OddValuesAt(p, p.degree);
    RowDimension(p, v);
  }

  lemma RowDimension(p: Primitive, v: seq<nat>)
    requires ValidRow(p) && |v| == 32 && forall i: nat :: i < 32 ==> DirectionAt(p, v, i)
    requires Banded(v, 32) && forall b: nat :: b < p.degree ==> DiagonalAt(v, b)
    ensures ValidDimension(Dimension(Polynomial(p), v), 32)
  {
    hide Act, Bit, Pow2, SobolRow, ValidDimension, Polynomial, Deg, DirectionAt, Banded, DiagonalAt, Seen;
    BandedBound(v, 32);
    PolynomialDegree(p);
    forall r: nat, u: nat | r < 32
      ensures Act(Polynomial(p), SobolRow(p, v)(r), u) == (r >= p.degree && SobolRow(p, v)(r - p.degree)(u))
    {
      SobolLayer(p, v, r, u);
    }
    forall x: nat | 0 < x < Pow2(p.degree) ensures Seen(Polynomial(p), SobolRow(p, v), x) {
      SobolSeparating(p, v, x);
    }
    forall r: nat, i: nat | r < 32 && i < 32 ensures SobolRow(p, v)(r)(i) == Bit(v[i], 31 - r) {
      SobolRowAt(p, v, 0, r, i);
    }
    LayeredDimension(Dimension(Polynomial(p), v), SobolRow(p, v), 32);
  }

  /** Direction number i of the first dimension has bit 31 - i alone. */
  lemma FirstDimension(table: seq<Primitive>, v: seq<nat>)
    requires TableDimension(table, 0, v)
    ensures ValidDimension(DimensionOf(table, 0, v), 32)
  {
    assert |v| == 32;
    hide Act, Bit, Pow2, ValidDimension, DirectionsOf, Low, Shl;
    DirectionsBanded(table, 0, v);
    BandedBound(v, 32);
    var row := (r: nat) => (i: nat) => i == r;
    assert Deg(2) == 1;
    forall r: nat, u: nat ensures Act(2, row(r), u) == (r >= 1 && row(r - 1)(u)) {
      ActTwice(1, row(r), u);
      ActOne(row(r), u + 1);
    }
    assert Act(1, row(0), 0) by { ActOne(row(0), 0); }
    assert Pow2(1) == 2 by { DoublePow2(1); One(); }
    forall r: nat, i: nat | r < 32 && i < 32 ensures row(r)(i) == Bit(v[i], 31 - r) { UnitColumn(table, v, r, i); }
    LayeredDimension(DimensionOf(table, 0, v), row, 32);
  }

  lemma UnitColumn(table: seq<Primitive>, v: seq<nat>, r: nat, i: nat)
    requires |table| > 0 && DirectionsOf(table, 0, v) && r < 32 && i < 32
    ensures Bit(v[i], 31 - r) == (i == r)
  {
    hide Bit, Low, Shl;
    assert v[i] == Low(Shl(1, 31 - i), 32);
    BitLow(Shl(1, 31 - i), 32, 31 - r);
    BitShl(1, 31 - i, 31 - r);
    if i >= r { OneBit(i - r); }
  }

  // ---------- the net property ----------

  /** The dimensions dims of the table, with their direction numbers. */
  ghost predicate TableDimensions(table: seq<Primitive>, dims: seq<nat>, v: seq<seq<nat>>) {
    |dims| == |v| && forall i: nat :: i < |dims| ==> TableDimension(table, dims[i], v[i])
  }

  ghost predicate OddDimensions(table: seq<Primitive>, dims: seq<nat>, v: seq<seq<nat>>)
    requires TableDimensions(table, dims, v)
  {
    forall i: nat :: i < |dims| ==> OddDimension(table, dims[i])
  }

  ghost function Dimensions(table: seq<Primitive>, dims: seq<nat>, v: seq<seq<nat>>): (s: seq<Dimension>)
    requires TableDimensions(table, dims, v)
    ensures |s| == |dims|
  {
    seq(|dims|, i requires 0 <= i < |dims| => DimensionOf(table, dims[i], v[i]))
  }

  lemma DimensionsAreSystem(table: seq<Primitive>, dims: seq<nat>, v: seq<seq<nat>>)
    requires TableDimensions(table, dims, v) && OddDimensions(table, dims, v)
    ensures System(Dimensions(table, dims, v), 32)
  {
    hide OddDimension, ValidDimension, DimensionOf, DirectionsOf;
    forall i: nat | i < |dims| ensures ValidDimension(Dimensions(table, dims, v)[i], 32) {
      if dims[i] == 0 { FirstDimension(table, v[i]); } else { LaterDimension(table, dims[i], v[i]); }
    }
  }

  lemma DegreeOf(table: seq<Primitive>, dim: nat)
    requires dim < |table| && (dim > 0 ==> ValidRow(table[dim]))
    ensures Deg(PolynomialOf(table, dim)) <= 17
    ensures dim > 0 ==> Deg(PolynomialOf(table, dim)) == table[dim].degree
  {
    if dim > 0 { PolynomialDegree(table[dim]); }
  }

  /** Every dimension of a net has odd initial values. */
  lemma NetNeedsOdd(table: seq<Primitive>, dims: seq<nat>, v: seq<seq<nat>>, i: nat)
    requires TableDimensions(table, dims, v) && i < |dims| && IsNet(Dimensions(table, dims, v), 32, GrayCode)
    ensures OddDimension(table, dims[i])
  {
    hide IsNet, Stratified, DirectionsOf, Deg, Combine, Shr, Gray, PolynomialOf, Pow2;
    var s, dim := Dimensions(table, dims, v), dims[i];
    forall j: nat | j < |dims| ensures |v[j]| == 32 && forall b: nat :: b < 32 ==> v[j][b] < Pow2(32) {
      assert TableDimension(table, dims[j], v[j]);
      DirectionsBanded(table, dims[j], v[j]);
      BandedBound(v[j], 32);
    }
    assert TableDimension(table, dim, v[i]);
    DegreeOf(table, dim);
    NetStratifiesEach(s, 32, GrayCode, i);
    if dim > 0 {
      var k := table[dim].degree;
      StratifiedSame((n: nat) => Top(s[i], k, Position(GrayCode, n)), (n: nat) => TopBits(v[i], k, n), k);
      SobolStratified(table, dim, v[i], k);
    }
  }

  /** Any Sobol dimensions form a net, in the order in which the points are computed, if and only if their initial
      values are odd and their polynomials are coprime: in each block of 2^k indices, k the rows asked for in whole
      blocks of the degrees, one index has any given top bits in all dimensions. */
  lemma SobolNetExactly(table: seq<Primitive>, dims: seq<nat>, v: seq<seq<nat>>)
    requires TableDimensions(table, dims, v)
    ensures IsNet(Dimensions(table, dims, v), 32, GrayCode)
      <==> OddDimensions(table, dims, v) && Apart(Dimensions(table, dims, v), 32)
  {
    hide System, IsNet, Apart, Dimensions, OddDimension, DirectionsOf;
    if OddDimensions(table, dims, v) {
      DimensionsAreSystem(table, dims, v);
      NetExactly(Dimensions(table, dims, v), 32, GrayCode);
    } else {
      var i: nat :| i < |dims| && !OddDimension(table, dims[i]);
      if IsNet(Dimensions(table, dims, v), 32, GrayCode) { NetNeedsOdd(table, dims, v, i); }
    }
  }

  /** Different primitive polynomials are coprime, so that any numbers of rows are equidistributed: each cell holds
      2^(k - sum of rows) of the 2^k indices of a block. */
  lemma SobolPointsPerCell(table: seq<Primitive>, dims: seq<nat>, v: seq<seq<nat>>,
                           blocks: seq<nat>, rows: seq<nat>, c: nat, t: seq<nat>)
    requires TableDimensions(table, dims, v) && OddDimensions(table, dims, v)
    requires |dims| == |blocks| == |rows| == |t|
    requires forall i: nat :: i < |dims| ==> Irreducible(Dimensions(table, dims, v)[i].p)
    requires forall i: nat, j: nat :: i < j < |dims| ==>
      Dimensions(table, dims, v)[i].p != Dimensions(table, dims, v)[j].p
    requires Total(Wide(Dimensions(table, dims, v), blocks), |dims|) <= 32
    requires forall i: nat :: i < |dims| ==>
      rows[i] <= Wide(Dimensions(table, dims, v), blocks)[i] && t[i] < Pow2(rows[i])
    ensures var s := Dimensions(table, dims, v);
            var k := Total(Wide(s, blocks), |dims|);
            Total(rows, |dims|) <= k && |Cell(s, GrayCode, rows, t, k, c)| == Pow2(k - Total(rows, |dims|))
  {
    hide Pow2, Irreducible, Total, Cell, System, TableDimensions, OddDimensions, Dimensions, Coprime, Wide;
    var s := Dimensions(table, dims, v);
    DimensionsAreSystem(table, dims, v);
    forall i: nat, j: nat | i < j < |s| ensures Coprime(s[j].p, s[i].p) { PrimesCoprime(s[j].p, s[i].p); }
    var wide := Wide(s, blocks);
    forall i: nat | i < |s| ensures rows[i] <= wide[i] <= 32 { PartOfTotal(wide, i, |s|); }
    PointsPerCell(s, 32, GrayCode, blocks, rows, t, c);
  }

  // ---------- rows whose polynomials are not coprime ----------

  lemma SharedDivisor(table: seq<Primitive>, dims: seq<nat>, v: seq<seq<nat>>, g: nat)
    requires |dims| == 2 && TableDimensions(table, dims, v) && g != 1
    requires var s := Dimensions(table, dims, v);
             Deg(s[0].p) + Deg(s[1].p) <= 32 && Divides(g, s[0].p) && Divides(g, s[1].p)
    ensures !IsNet(Dimensions(table, dims, v), 32, GrayCode)
  {
    hide IsNet, Dimensions, TableDimensions, OddDimensions, Divides, Deg;
    var s := Dimensions(table, dims, v);
    assert !Coprime(s[1].p, s[0].p);
    SobolNetExactly(table, dims, v);
  }

  /** The rows of the table for dimension indices 478 and 479 encode one polynomial. */
  const Row478: Primitive :=
    Primitive(12, 2014, [1, 1, 5, 1, 15, 47, 25, 137, 329, 531, 1957, 1933, 0, 0, 0, 0, 0])
  const Row479: Primitive :=
    Primitive(12, 2014, [1, 3, 1, 11, 23, 37, 67, 123, 181, 567, 893, 2307, 0, 0, 0, 0, 0])

  /** So these two dimensions together are not a net, although each is stratified alone. */
  lemma Dimensions478And479(table: seq<Primitive>, v: seq<seq<nat>>)
    requires |table| > 479 && table[478] == Row478 && table[479] == Row479
    requires |v| == 2 && DirectionsOf(table, 478, v[0]) && DirectionsOf(table, 479, v[1])
    ensures TableDimensions(table, [478, 479], v) && OddDimensions(table, [478, 479], v)
    ensures !IsNet(Dimensions(table, [478, 479], v), 32, GrayCode)
  {
    hide IsNet, DirectionsOf, Polynomial, Divides, Deg, OddValues;
    OddRow478();
    OddRow479();
    assert Polynomial(Row478) == Polynomial(Row479) by { SamePolynomial(Row478, Row479); }
    PolynomialDegree(Row478);
    DividesSelf(Polynomial(Row478));
    SharedDivisor(table, [478, 479], v, Polynomial(Row478));
  }

  lemma SamePolynomial(p: Primitive, r: Primitive)
    requires ValidRow(p) && ValidRow(r) && p.degree == r.degree && p.a == r.a
    ensures Polynomial(p) == Polynomial(r)
  {
  }

  lemma OddRow478()
    ensures ValidRow(Row478) && OddValues(Row478, 12)
  {
  }

  lemma OddRow479()
    ensures ValidRow(Row479) && OddValues(Row479, 12)
  {
  }

  /** The row for dimension index 1293: its polynomial is a multiple of x^2 + x + 1. */
  const Row1293: Primitive :=
    Primitive(14, 2014, [1, 1, 3, 7, 3, 21, 127, 157, 45, 773, 1973, 2577, 6057, 8153, 0, 0, 0])

  lemma OddRow1293()
    ensures ValidRow(Row1293) && OddValues(Row1293, 14)
  {
  }

  lemma OddRow2()
    ensures ValidRow(Row2) && OddValues(Row2, 2)
  {
  }

  lemma ReduciblePolynomial()
    ensures Polynomial(Row1293) == 20413 && Mul(7, 6463) == 20413
  {
    hide Mul, Xor;
    LowSmall(2014, 13);
    MulComm(7, 6463);
    assert Mul(6463, 0) == 0 by { ZeroMultiple(6463); }
    XorZero(6463);
    MulStep(6463, 1);
    MulStep(6463, 3);
    MulStep(6463, 7);
    assert Xor(6463, 2 * 6463) == 11073 by { FirstSum(); }
    assert Xor(6463, 2 * 11073) == 20413 by { SecondSum(); }
  }

  lemma XorJoin(a: nat, b: nat, c: nat, d: nat, k: nat)
    requires b < Pow2(k) && d < Pow2(k)
    ensures Xor(a * Pow2(k) + b, c * Pow2(k) + d) == Xor(a, c) * Pow2(k) + Xor(b, d)
  {
    hide Xor, Pow2, Shr, Low;
    var x, y := a * Pow2(k) + b, c * Pow2(k) + d;
    JoinAt(a, b, k);
    JoinAt(c, d, k);
    XorShr(x, y, k);
    XorLow(x, y, k);
    SplitAt(Xor(x, y), k);
  }

  lemma FirstSum()
    ensures Xor(6463, 2 * 6463) == 11073
  {
    assert Pow2(7) == 128;
    assert Xor(50, 100) == 86 && Xor(63, 126) == 65;
    XorJoin(50, 63, 100, 126, 7);
  }

  lemma SecondSum()
    ensures Xor(6463, 2 * 11073) == 20413
  {
    assert Pow2(7) == 128;
    assert Xor(50, 173) == 159 && Xor(63, 2) == 61;
    XorJoin(50, 63, 173, 2, 7);
  }

  /** So the dimensions 2 and 1293 are not a net. */
  lemma Dimensions2And1293(table: seq<Primitive>, v: seq<seq<nat>>)
    requires |table| > 1293 && table[2] == Row2 && table[1293] == Row1293
    requires |v| == 2 && DirectionsOf(table, 2, v[0]) && DirectionsOf(table, 1293, v[1])
    ensures TableDimensions(table, [2, 1293], v) && OddDimensions(table, [2, 1293], v)
    ensures !IsNet(Dimensions(table, [2, 1293], v), 32, GrayCode)
  {
    hide IsNet, DirectionsOf, Polynomial, Deg, OddValues, Mul;
    assert ValidRow(Row2) && OddValues(Row2, 2) by { OddRow2(); }
    assert ValidRow(Row1293) && OddValues(Row1293, 14) by { OddRow1293(); }
    ReduciblePolynomial();
    DividesIntro(7, 6463, 20413);
    assert Polynomial(Row2) == 7 by { SecondPolynomial(); }
    PolynomialDegree(Row2);
    PolynomialDegree(Row1293);
    DividesSelf(7);
    SharedDivisor(table, [2, 1293], v, 7);
  }

  lemma SecondPolynomial()
    ensures Polynomial(Row2) == 7
  {
  }

  // ---------- the first three dimensions ----------

  /** The rows of the table for dimension indices 1 and 2. */
  const Row1: Primitive := Primitive(1, 0, [1, 0, 0, 0, 0, 0, 0, 0, 0, 0, 0, 0, 0, 0, 0, 0, 0])
  const Row2: Primitive := Primitive(2, 1, [1, 3, 0, 0, 0, 0, 0, 0, 0, 0, 0, 0, 0, 0, 0, 0, 0])

  lemma FirstThreePolynomials(table: seq<Primitive>)
    requires |table| > 2 && table[1] == Row1 && table[2] == Row2
    ensures PolynomialOf(table, 0) == 2 && PolynomialOf(table, 1) == 3 && PolynomialOf(table, 2) == 7
  {
  }

  /** The first three dimensions have the polynomials x, x + 1 and x^2 + x + 1: a cell holds two points if the
      number of rows of the third is odd, and one point otherwise. */
  lemma FirstThreeNet(table: seq<Primitive>, v: seq<seq<nat>>, rows: seq<nat>, c: nat, t: seq<nat>)
    requires |table| > 2 && table[1] == Row1 && table[2] == Row2
    requires |v| == 3 && forall dim: nat :: dim < 3 ==> DirectionsOf(table, dim, v[dim])
    requires |rows| == |t| == 3 && rows[0] + rows[1] + rows[2] + rows[2] % 2 <= 32
    requires forall i: nat :: i < 3 ==> t[i] < Pow2(rows[i])
    ensures TableDimensions(table, [0, 1, 2], v) && OddDimensions(table, [0, 1, 2], v)
    ensures |Cell(Dimensions(table, [0, 1, 2], v), GrayCode, rows, t, rows[0] + rows[1] + rows[2] + rows[2] % 2, c)|
      == 1 + rows[2] % 2
  {
    hide Cell, Pow2, System, DirectionsOf, Polynomial, Irreducible, Coprime;
    FirstThreePolynomials(table);
    FirstThree();
    assert forall dim: nat :: dim < 3 ==> TableDimension(table, dim, v[dim]) && OddDimension(table, dim);
    var s := Dimensions(table, [0, 1, 2], v);
    assert Irreducible(2) && Irreducible(3) && Irreducible(7) by { FirstThreeIrreducible(); }
    PrimesCoprime(3, 2);
    PrimesCoprime(7, 2);
    PrimesCoprime(7, 3);
    DimensionsAreSystem(table, [0, 1, 2], v);
    ThreeDimensions(s, 32, GrayCode, rows, t, c);
  }

  lemma FirstThreeIrreducible()
    ensures Irreducible(2) && Irreducible(3) && Irreducible(7)
  {
    hide Irreducible;
    FirstThree();
    var s := [2, 3, 7];
    assert Irreducible(s[0]) && Irreducible(s[1]) && Irreducible(s[2]);
  }
}
