/** The points of the Niederreiter table form a digital net: the index, read as a polynomial over GF(2),
    is driven through the linear recurrences of the table, and vanishing top bits in every dimension
    force it to be divisible by all the powers in use. */
module DigitalNet {
  import opened Bits
  import opened Gf2
  import opened Irreducibles
  import opened Recurrences
  import opened Counting
  import opened Directions
  import opened Words
  import opened Nets
  import opened Niederreiter

  /** The direction numbers of the dimension of p. */
  function Columns(p: nat): (v: seq<nat>)
    requires p > 1
    ensures |v| == BITS
  {
    seq(BITS, i requires 0 <= i < BITS => Column(p, i, BITS))
  }

  function DimensionOf(p: nat): (d: Dimension)
    requires p > 1
  {
    Dimension(p, Columns(p))
  }

  /** The integer computed for index n in the dimension of p. */
  function Value(p: nat, n: nat): nat
    requires p > 1
  {
    Combine(Columns(p), 0, n)
  }

  // ---------- rows of the matrix act like recurrences ----------

  lemma {:induction false} ActShift(a: nat, s: nat -> bool, t: nat -> bool, u: nat, x: nat)
    requires forall i: nat :: t(i) == s(i + u)
    ensures Act(a, t, x) == Act(a, s, x + u)
    decreases a
  {
    if a > 0 {
      ActShift(a / 2, s, t, u, x + 1);
      assert x + 1 + u == x + u + 1;
    }
  }

  /** Row e (q - 1) + u of the matrix is the sequence of the q-th power acting at place u. */
  lemma BlockRowActs(p: nat, q: nat, u: nat, r: nat, n: nat, s: nat -> bool)
    requires p > 1 && q > 0 && u < Deg(p) && r == Deg(p) * (q - 1) + u && r < BITS && n < Pow2(BITS)
    requires forall i: nat :: s(i) == PowerTerm(p, q, i)
    ensures Row(DimensionOf(p), r, n) == Act(n, s, u)
  {
    hide Bit, Column, Act, PowerTerm, Deg, Pow2;
    DivModUnique(r, Deg(p), q - 1, u);
    var t := (i: nat) => s(i + u);
    var v := Columns(p);
    forall i: nat | i < |v| ensures t(i) == Bit(v[i], BITS - 1 - r) { ColumnBit(p, i, BITS, BITS - 1 - r); }
    CombineActs(v, 0, n, BITS - 1 - r, t);
    ActShift(n, s, t, u, 0);
  }

  // ---------- vanishing rows give factors of the index ----------

  /** If the rows of block q vanish on n, which p^(q-1) divides, one more factor p divides it. */
  lemma NextFactor(p: nat, q: nat, n: nat, s: nat -> bool)
    requires Irreducible(p) && q > 0 && Divides(Power(p, q - 1), n)
    requires forall i: nat :: s(i) == PowerTerm(p, q, i)
    requires forall u: nat :: u < Deg(p) ==> !Act(n, s, u)
    ensures Divides(Power(p, q), n)
  {
    hide Mul, Act, Deg, PowerTerm, Irreducible, Annihilates;
    var a := Power(p, q - 1);
    IrreducibleIsLarge(p);
    var x := Cofactor(a, n);
    var w := (i: nat) => Act(a, s, i);
    PowerTermRemnant(p, q, s, w);
    forall u: nat | u < Deg(p) ensures !Act(x, w, u) { ActMul(a, x, s, w, u); }
    forall k: nat ensures !Act(x, w, k) { ZeroOnStart(p, x, w, k); }
    AllZero(x, w);
    AnnihilatorIsMultiple(p, x, w, 0);
    PowerStep(p, q, x, n);
  }

  lemma AllZero(x: nat, w: nat -> bool)
    requires forall k: nat :: !Act(x, w, k)
    ensures Annihilates(x, w)
  {
  }

  /** If the rows of the first q blocks vanish on n, the q-th power of p divides n. */
  lemma {:induction false} FactorsFromRows(p: nat, q: nat, n: nat)
    requires Irreducible(p) && p > 1 && Deg(p) * q <= BITS && n < Pow2(BITS)
    requires forall r: nat :: r < Deg(p) * q ==> !Row(DimensionOf(p), r, n)
    ensures Divides(Power(p, q), n)
    decreases q
  {
    hide Deg, Irreducible, Divides, Act, PowerTerm, Pow2, Row, DimensionOf, Power;
    if q == 0 {
      assert Power(p, 0) == 1 by { PowerZero(p); }
      DividesSelf(n);
    } else {
      TimesMonotone(Deg(p), q - 1, q);
      FactorsFromRows(p, q - 1, n);
      var s := (i: nat) => PowerTerm(p, q, i);
      forall u: nat | u < Deg(p) ensures !Act(n, s, u) {
        RowBelow(Deg(p), q, q, u);
        BlockRowActs(p, q, u, Deg(p) * (q - 1) + u, n, s);
      }
      NextFactor(p, q, n, s);
    }
  }

  lemma PowerZero(p: nat)
    ensures Power(p, 0) == 1
  {
  }

  /** And conversely: the rows of the first q blocks vanish on every multiple of p^q. */
  lemma RowsFromFactors(p: nat, q: nat, n: nat, r: nat)
    requires p > 1 && Deg(p) * q <= BITS && n < Pow2(BITS) && Divides(Power(p, q), n) && r < Deg(p) * q
    ensures !Row(DimensionOf(p), r, n)
  {
    hide Deg, Divides, Act, PowerTerm, Pow2, Row, DimensionOf, Mul;
    ResidueForm(r, Deg(p), q);
    var b, u := r / Deg(p) + 1, r % Deg(p);
    var s := (i: nat) => PowerTerm(p, b, i);
    LowerPower(p, b, q, n);
    var c := Cofactor(Power(p, b), n);
    PowerTermAnnihilated(p, b, s);
    AnnihilatesMul(Power(p, b), c, s);
    assert !Act(n, s, u);
    BlockRowActs(p, b, u, r, n, s);
  }

  lemma PowerTermAnnihilated(p: nat, q: nat, s: nat -> bool)
    requires p > 1 && q > 0 && forall n: nat :: s(n) == PowerTerm(p, q, n)
    ensures Annihilates(Power(p, q), s)
  {
    hide Deg, Annihilates, Term, Mul;
    DegPower(p, q - 1);
    DegPower(p, q);
    DegMul(Power(p, q - 1), p);
    TermsAnnihilated(Power(p, q), Deg(Power(p, q - 1)), s);
  }

  /** In its own dimension the first q blocks of top bits vanish exactly at the multiples of p^q. */
  lemma TopVanishesAtMultiples(p: nat, q: nat, n: nat)
    requires Irreducible(p) && p > 1 && Deg(p) * q <= BITS && n < Pow2(BITS)
    ensures Top(DimensionOf(p), Deg(p) * q, n) == 0 <==> Divides(Power(p, q), n)
  {
    hide Deg, Irreducible, Divides, Pow2, Row, Top, Column, Power;
    var d := DimensionOf(p);
    forall i: nat | i < BITS ensures d.v[i] < Pow2(BITS) { ColumnBound(p, i); }
    TopVanishes(d, Deg(p) * q, n);
    if Divides(Power(p, q), n) {
      forall r: nat | r < Deg(p) * q ensures !Row(d, r, n) { RowsFromFactors(p, q, n, r); }
    } else if forall r: nat :: r < Deg(p) * q ==> !Row(d, r, n) {
      FactorsFromRows(p, q, n);
    }
  }

  lemma DimensionIsValid(p: nat)
    requires Irreducible(p) && p > 1
    ensures ValidDimension(DimensionOf(p), BITS)
  {
    hide Deg, Irreducible, Divides, Pow2, Top, Column, Power;
    var d := DimensionOf(p);
    forall i: nat | i < BITS ensures d.v[i] < Pow2(BITS) { ColumnBound(p, i); }
    forall q: nat, x: nat | Deg(p) * q <= BITS && x < Pow2(BITS)
      ensures Top(d, Deg(p) * q, x) == 0 <==> Divides(Power(p, q), x)
    {
      TopVanishesAtMultiples(p, q, x);
    }
  }

  // ---------- several dimensions together ----------

  ghost predicate Distinct(s: seq<nat>) {
    forall i: nat, j: nat :: i < j < |s| ==> s[i] != s[j]
  }

  ghost predicate Primes(s: seq<nat>) {
    forall i: nat :: i < |s| ==> s[i] > 1 && Irreducible(s[i])
  }

  /** One dimension for each polynomial. */
  ghost function Dimensions(s: seq<nat>): (d: seq<Dimension>)
    requires Primes(s)
    ensures |d| == |s|
  {
    seq(|s|, i requires 0 <= i < |s| => DimensionOf(s[i]))
  }

  lemma DimensionsAreSystem(s: seq<nat>)
    requires Primes(s) && Distinct(s)
    ensures System(Dimensions(s), BITS) && Apart(Dimensions(s), BITS)
  {
    hide Irreducible, Columns, ValidDimension, Coprime;
    forall i: nat | i < |s| ensures ValidDimension(Dimensions(s)[i], BITS) { DimensionIsValid(s[i]); }
    forall i: nat, j: nat | i < j < |s| ensures Coprime(Dimensions(s)[j].p, Dimensions(s)[i].p) {
      PrimesCoprime(s[j], s[i]);
    }
  }

  /** The digital net property for any numbers of rows. Take distinct irreducible polynomials, any numbers of top
      bits within blocks[i] whole blocks of rows, k rows in all blocks together and k at most 63. Every aligned
      block of 2^k indices holds exactly 2^(k - sum of rows) indices with any given top bits in all dimensions. */
  lemma PointsPerCell(s: seq<nat>, blocks: seq<nat>, rows: seq<nat>, c: nat, t: seq<nat>)
    requires |s| == |blocks| == |rows| == |t| && Primes(s) && Distinct(s)
    requires Total(Wide(Dimensions(s), blocks), |s|) <= BITS
    requires forall i: nat :: i < |s| ==> rows[i] <= Deg(s[i]) * blocks[i] && t[i] < Pow2(rows[i])
    ensures var k := Total(Wide(Dimensions(s), blocks), |s|);
            Total(rows, |s|) <= k && |Cell(Dimensions(s), Binary, rows, t, k, c)| == Pow2(k - Total(rows, |s|))
  {
    hide Pow2, Irreducible, Deg, Total, Cell, System, Apart, Columns, Distinct, Primes;
    DimensionsAreSystem(s);
    var wide := Wide(Dimensions(s), blocks);
    forall i: nat | i < |s| ensures rows[i] <= wide[i] <= BITS { PartOfTotal(wide, i, |s|); }
    Nets.PointsPerCell(Dimensions(s), BITS, Binary, blocks, rows, t, c);
  }

  /** Whole blocks of rows: exactly one index of the block has those top bits in all dimensions. */
  lemma OnePointPerCell(s: seq<nat>, blocks: seq<nat>, c: nat, t: seq<nat>)
    requires |s| == |blocks| == |t| && Primes(s) && Distinct(s)
    requires Total(Wide(Dimensions(s), blocks), |s|) <= BITS
    requires forall i: nat :: i < |s| ==> t[i] < Pow2(Wide(Dimensions(s), blocks)[i])
    ensures var rows := Wide(Dimensions(s), blocks);
            ExactlyOneIndex(Dimensions(s), Binary, rows, t, Total(rows, |s|), c)
  {
    hide Pow2, Irreducible, Deg, Total, ExactlyOneIndex, System, Apart, Columns, Distinct, Primes, Wide;
    DimensionsAreSystem(s);
    Nets.OnePointPerCell(Dimensions(s), BITS, Binary, blocks, t, c);
  }

  // ---------- the generated table ----------

  lemma GeneratedPolynomials(used: seq<nat>)
    requires FirstIrreducibles(used)
    ensures Primes(used) && Distinct(used)
  {
    hide Irreducible;
    forall i: nat | i < |used| ensures used[i] > 1 && Irreducible(used[i]) {
      assert Irreducible(used[i]);
      IrreducibleIsLarge(used[i]);
    }
  }

  /** The points of all dimensions of the table that GenerateCJ builds form a digital net. */
  lemma GeneratedNet(used: seq<nat>, blocks: seq<nat>, rows: seq<nat>, c: nat, t: seq<nat>)
    requires FirstIrreducibles(used) && |used| == |blocks| == |rows| == |t|
    requires Primes(used) ==> Total(Wide(Dimensions(used), blocks), |used|) <= BITS
    requires forall i: nat :: i < |used| ==> rows[i] <= Deg(used[i]) * blocks[i] && t[i] < Pow2(rows[i])
    ensures Primes(used)
    ensures var k := Total(Wide(Dimensions(used), blocks), |used|);
            Total(rows, |used|) <= k && |Cell(Dimensions(used), Binary, rows, t, k, c)| == Pow2(k - Total(rows, |used|))
  {
    hide Cell, Deg, Pow2, Primes, Distinct, FirstIrreducibles;
    GeneratedPolynomials(used);
    PointsPerCell(used, blocks, rows, c, t);
  }

  /** The three dimensions of the repository: any numbers of top bits, in blocks of that many bits, the number of
      the third rounded up to even. A cell holds two points if that number is odd, and one point otherwise. */
  lemma ThreeDimensionNet(rows: seq<nat>, c: nat, t: seq<nat>)
    requires |rows| == |t| == 3 && rows[0] + rows[1] + rows[2] + rows[2] % 2 <= BITS
    requires forall i: nat :: i < 3 ==> t[i] < Pow2(rows[i])
    ensures Primes([2, 3, 7])
    ensures |Cell(Dimensions([2, 3, 7]), Binary, rows, t, rows[0] + rows[1] + rows[2] + rows[2] % 2, c)|
      == 1 + rows[2] % 2
  {
    hide Cell, FirstIrreducibles, Pow2, System, Apart, Columns, Primes, Distinct;
    FirstThree();
    GeneratedPolynomials([2, 3, 7]);
    DimensionsAreSystem([2, 3, 7]);
    ThreeDimensions(Dimensions([2, 3, 7]), BITS, Binary, rows, t, c);
  }

  /** The integer that the generator computes from the table, for any signed index, is the value the net theorem
      speaks of, at the index modulo 2^63. */
  lemma TableGivesValue(cjn: array2<nat>, dim: nat, p: nat, index: int)
    requires cjn.Length0 == BITS && dim < cjn.Length1 && p > 1
    requires forall i: nat :: i < BITS ==> cjn[i, dim] == Column(p, i, BITS)
    ensures Combine(DirectionNumbers(cjn, dim), 0, index % 0x8000_0000_0000_0000)
         == Value(p, index % 0x8000_0000_0000_0000)
  {
    hide Column;
    assert DirectionNumbers(cjn, dim) == Columns(p);
  }

  /** For a polynomial of degree one, any number of top bits is stratified in its own dimension. */
  lemma DegreeOneStratified(p: nat, k: nat)
    requires Irreducible(p) && p > 1 && Deg(p) == 1 && k <= BITS
    ensures Stratified((n: nat) => Top(DimensionOf(p), k, n), k)
  {
    hide Irreducible, Deg, Top, Xor, Pow2, Stratified, Columns, Factors;
    var d := DimensionOf(p);
    assert |d.v| == BITS by { DimensionIsValid(p); }
    var key := (n: nat) => Top(d, k, n);
    forall m: nat, n: nat ensures key(Xor(m, n)) == Xor(key(m), key(n)) { TopLinear(d, k, m, n); }
    forall n: nat | 0 < n < Pow2(k) ensures key(n) != 0 { DegreeOneNonzero(p, k, n); }
    forall n: nat ensures key(n) < Pow2(k) {
      DimensionIsValid(p);
      TopBelow(d, k, n);
    }
    LinearKeyStratifies(key, k);
  }

  lemma DegreeOneNonzero(p: nat, k: nat, n: nat)
    requires Irreducible(p) && p > 1 && Deg(p) == 1 && k <= BITS && 0 < n < Pow2(k)
    ensures Top(DimensionOf(p), k, n) != 0
  {
    hide Irreducible, Deg, Top, Pow2, Columns, Mul, Power, Divides;
    if Top(DimensionOf(p), k, n) == 0 {
      Pow2Mono(k, BITS);
      TopVanishesAtMultiples(p, k, n);
      DegPower(p, k);
      DegBounds(Power(p, k));
      var c := Cofactor(Power(p, k), n);
      ZeroMultiple(Power(p, k));
      MultipleNotSmaller(Power(p, k), c);
    }
  }
}
