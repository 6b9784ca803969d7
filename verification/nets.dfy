/** Digital nets over GF(2). In each dimension vanishing top bits mean that the index, read as a polynomial, is a
    multiple of a power of the polynomial of that dimension. Several dimensions together are equidistributed
    exactly when their polynomials are coprime. */
module Nets {
  import opened Bits
  import opened Counting
  import opened Gf2
  import opened Recurrences
  import opened Directions
  import opened Words

  /** A polynomial and the direction numbers built from it. */
  datatype Dimension = Dimension(p: nat, v: seq<nat>)

  /** The order in which a generator visits the combinations of its direction numbers. */
  datatype Order = Binary | GrayCode

  function Position(o: Order, n: nat): nat {
    match o
    case Binary => n
    case GrayCode => Gray(n)
  }

  /** The k top bits of the combination that x selects. */
  function Top(d: Dimension, k: nat, x: nat): nat
    requires k <= |d.v|
  {
    Shr(Combine(d.v, 0, x), |d.v| - k)
  }

  /** Row r of the matrix of direction numbers, counted from the top bit, applied to x. */
  predicate Row(d: Dimension, r: nat, x: nat)
    requires r < |d.v|
  {
    Bit(Combine(d.v, 0, x), |d.v| - 1 - r)
  }

  /** The q Deg(p) top bits vanish exactly if p^q divides the index. */
  ghost predicate Factors(d: Dimension) {
    forall q: nat, x: nat ::
      Deg(d.p) * q <= |d.v| && x < Pow2(|d.v|) ==> (Top(d, Deg(d.p) * q, x) == 0 <==> Divides(Power(d.p, q), x))
  }

  ghost predicate ValidDimension(d: Dimension, w: nat) {
    && d.p > 1
    && |d.v| == w
    && (forall i: nat :: i < w ==> d.v[i] < Pow2(w))
    && Factors(d)
  }

  /** Dimensions of w direction numbers each. */
  ghost predicate System(s: seq<Dimension>, w: nat) {
    forall i: nat :: i < |s| ==> ValidDimension(s[i], w)
  }

  /** The polynomials of any two dimensions with room for a block of each are coprime. */
  ghost predicate Apart(s: seq<Dimension>, w: nat) {
    forall i: nat, j: nat :: i < j < |s| && Deg(s[i].p) + Deg(s[j].p) <= w ==> Coprime(s[j].p, s[i].p)
  }

  // ---------- direction numbers as sequences of bits ----------

  /** Bit j of a combination: the index acts on the sequence of bits j of the direction numbers. */
  lemma {:induction false} CombineActs(v: seq<nat>, b: nat, n: nat, j: nat, s: nat -> bool)
    requires b <= |v| && n < Pow2(|v| - b)
    requires forall i: nat :: i < |v| ==> s(i) == Bit(v[i], j)
    ensures Bit(Combine(v, b, n), j) == Act(n, s, b)
    decreases |v| - b
  {
    hide Xor, Bit, Act;
    BitZero(j);
    if b == |v| {
      ActZero(s, b);
    } else {
      BitXor(if n % 2 == 1 then v[b] else 0, Combine(v, b + 1, n / 2), j);
      ActStep(n, s, b);
      CombineActs(v, b + 1, n / 2, j, s);
    }
  }

  lemma TopBitIsRow(d: Dimension, k: nat, x: nat, i: nat)
    requires i < k <= |d.v|
    ensures Bit(Top(d, k, x), i) == Row(d, k - 1 - i, x)
  {
    BitShr(Combine(d.v, 0, x), |d.v| - k, i);
  }

  /** Top bits vanish exactly if the corresponding rows do. */
  lemma TopVanishes(d: Dimension, k: nat, x: nat)
    requires k <= |d.v| && forall i: nat :: i < |d.v| ==> d.v[i] < Pow2(|d.v|)
    ensures Top(d, k, x) == 0 <==> forall r: nat :: r < k ==> !Row(d, r, x)
  {
    hide Bit, Shr, Pow2, Row, Top;
    if Top(d, k, x) == 0 {
      forall r: nat | r < k ensures !Row(d, r, x) {
        TopBitIsRow(d, k, x, k - 1 - r);
        BitZero(k - 1 - r);
      }
    } else if forall r: nat :: r < k ==> !Row(d, r, x) {
      forall i: nat | i < k ensures Bit(Top(d, k, x), i) == Bit(0, i) {
        TopBitIsRow(d, k, x, i);
        BitZero(i);
      }
      TopBelow(d, k, x);
      SameBits(Top(d, k, x), 0, k);
    }
  }

  lemma TopBelow(d: Dimension, k: nat, x: nat)
    requires k <= |d.v| && forall i: nat :: i < |d.v| ==> d.v[i] < Pow2(|d.v|)
    ensures Top(d, k, x) < Pow2(k)
  {
    hide Shr, Pow2;
    CombineBound(d.v, 0, x, |d.v|);
    ShrBound(Combine(d.v, 0, x), |d.v| - k, k);
  }

  lemma RowBelow(e: nat, q: nat, blocks: nat, u: nat)
    requires 0 < q <= blocks && u < e
    ensures e * (q - 1) + u < e * blocks
  {
    TimesMonotone(e, q, blocks);
    assert e * q == e * (q - 1) + e;
  }

  // ---------- the product of the powers in use ----------

  /** Rows asked for in each dimension, in whole blocks of the degree. */
  function Wide(s: seq<Dimension>, blocks: seq<nat>): (r: seq<nat>)
    requires |s| == |blocks|
    ensures |r| == |s|
  {
    seq(|s|, i requires 0 <= i < |s| => Deg(s[i].p) * blocks[i])
  }

  function Product(s: seq<Dimension>, blocks: seq<nat>, j: nat): nat
    requires j <= |s| == |blocks|
  {
    if j == 0 then 1 else Mul(Product(s, blocks, j - 1), Power(s[j - 1].p, blocks[j - 1]))
  }

  lemma {:induction false} ProductDegree(s: seq<Dimension>, blocks: seq<nat>, w: nat, j: nat)
    requires j <= |s| == |blocks| && System(s, w)
    ensures Product(s, blocks, j) > 0 && Deg(Product(s, blocks, j)) == Total(Wide(s, blocks), j)
    decreases j
  {
    if j > 0 {
      hide Mul, Deg, Power, Factors;
      ProductDegree(s, blocks, w, j - 1);
      assert ValidDimension(s[j - 1], w);
      var p := s[j - 1].p;
      DegPower(p, blocks[j - 1]);
      DegMul(Product(s, blocks, j - 1), Power(p, blocks[j - 1]));
      TimesComm(blocks[j - 1], Deg(p));
    }
  }

  lemma TimesComm(a: nat, b: nat)
    ensures a * b == b * a
  {
  }

  /** The power of dimension j, dividing a multiple of the product of the first i earlier powers, divides the rest. */
  lemma {:induction false} ProductCancels(s: seq<Dimension>, blocks: seq<nat>, w: nat, j: nat, i: nat, x: nat)
    requires i <= j < |s| == |blocks| && System(s, w) && Apart(s, w) && Total(Wide(s, blocks), |s|) <= w
    requires Divides(Power(s[j].p, blocks[j]), Mul(Product(s, blocks, i), x))
    ensures Divides(Power(s[j].p, blocks[j]), x)
    decreases i
  {
    hide Mul, Divides, Power, Deg, Factors, Coprime;
    var a := Power(s[j].p, blocks[j]);
    if i == 0 {
      OneMul(x);
    } else {
      var b, r := Product(s, blocks, i - 1), s[i - 1].p;
      MulAssoc(b, Power(r, blocks[i - 1]), x);
      ProductCancels(s, blocks, w, j, i - 1, Mul(Power(r, blocks[i - 1]), x));
      assert ValidDimension(s[j], w);
      PowersApart(s, blocks, w, i - 1, j, x);
    }
  }

  lemma PowersApart(s: seq<Dimension>, blocks: seq<nat>, w: nat, i: nat, j: nat, x: nat)
    requires i < j < |s| == |blocks| && Apart(s, w) && Total(Wide(s, blocks), |s|) <= w && s[j].p > 1
    requires Divides(Power(s[j].p, blocks[j]), Mul(Power(s[i].p, blocks[i]), x))
    ensures Divides(Power(s[j].p, blocks[j]), x)
  {
    hide Mul, Divides, Deg, Coprime;
    if blocks[j] == 0 {
      DividesSelf(x);
    } else if blocks[i] == 0 {
      OneMul(x);
    } else {
      var wide := Wide(s, blocks);
      TwoOfTotal(wide, i, j, |s|);
      TimesMonotone(Deg(s[i].p), 1, blocks[i]);
      TimesMonotone(Deg(s[j].p), 1, blocks[j]);
      PowersCancel(s[j].p, blocks[j], s[i].p, blocks[i], x);
    }
  }

  /** Vanishing top bits in the first j dimensions make the index a multiple of the product of the powers. */
  lemma {:induction false} ProductDivides(s: seq<Dimension>, blocks: seq<nat>, w: nat, j: nat, x: nat)
    requires j <= |s| == |blocks| && System(s, w) && Apart(s, w) && Total(Wide(s, blocks), |s|) <= w && x < Pow2(w)
    requires forall i: nat :: i < j ==> Wide(s, blocks)[i] <= |s[i].v| && Top(s[i], Wide(s, blocks)[i], x) == 0
    ensures Divides(Product(s, blocks, j), x)
    decreases j
  {
    hide Mul, Divides, Power, Deg, Top, Pow2, Apart, Total;
    if j == 0 {
      DividesSelf(x);
    } else {
      ProductDivides(s, blocks, w, j - 1, x);
      var d, a := s[j - 1], Product(s, blocks, j - 1);
      assert ValidDimension(d, w);
      assert Wide(s, blocks)[j - 1] == Deg(d.p) * blocks[j - 1];
      assert Divides(Power(d.p, blocks[j - 1]), x);
      var c := Cofactor(a, x);
      ProductCancels(s, blocks, w, j - 1, j - 1, c);
      var e := Cofactor(Power(d.p, blocks[j - 1]), c);
      MulAssoc(a, Power(d.p, blocks[j - 1]), e);
      DividesIntro(Product(s, blocks, j), e, x);
    }
  }

  // ---------- the key of an index ----------

  lemma TopLinear(d: Dimension, k: nat, m: nat, n: nat)
    requires k <= |d.v|
    ensures Top(d, k, Xor(m, n)) == Xor(Top(d, k, m), Top(d, k, n))
  {
    hide Xor, Shr;
    CombineLinear(d.v, 0, m, n);
    XorShr(Combine(d.v, 0, m), Combine(d.v, 0, n), |d.v| - k);
  }

  /** What is asked for: k[i] of the wide[i] top bits of each dimension. */
  ghost predicate ValidRows(s: seq<Dimension>, w: nat, wide: seq<nat>, rows: seq<nat>) {
    && System(s, w)
    && |s| == |wide| == |rows|
    && forall i: nat :: i < |s| ==> rows[i] <= wide[i] <= w
  }

  /** The top rows[i] bits in each dimension. */
  ghost function Tops(s: seq<Dimension>, w: nat, wide: seq<nat>, rows: seq<nat>, x: nat): (r: seq<nat>)
    requires ValidRows(s, w, wide, rows)
    ensures |r| == |s|
  {
    seq(|s|, i requires 0 <= i < |s| => Top(s[i], rows[i], x))
  }

  /** The bits below them, up to wide[i]. */
  ghost function Rests(s: seq<Dimension>, w: nat, wide: seq<nat>, rows: seq<nat>, x: nat): (r: seq<nat>)
    requires ValidRows(s, w, wide, rows)
    ensures |r| == |s|
  {
    seq(|s|, i requires 0 <= i < |s| => Low(Top(s[i], wide[i], x), wide[i] - rows[i]))
  }

  ghost function Key(s: seq<Dimension>, w: nat, wide: seq<nat>, rows: seq<nat>, x: nat): nat
    requires ValidRows(s, w, wide, rows)
  {
    Xor(Shl(Joined(Tops(s, w, wide, rows, x), rows, |s|), Total(Spare(wide, rows), |s|)),
        Joined(Rests(s, w, wide, rows, x), Spare(wide, rows), |s|))
  }

  lemma PartBounds(s: seq<Dimension>, w: nat, wide: seq<nat>, rows: seq<nat>, x: nat)
    requires ValidRows(s, w, wide, rows)
    ensures forall i: nat :: i < |s| ==> Tops(s, w, wide, rows, x)[i] < Pow2(rows[i])
    ensures forall i: nat :: i < |s| ==> Rests(s, w, wide, rows, x)[i] < Pow2(Spare(wide, rows)[i])
  {
    hide Top, Low, Pow2;
    forall i: nat | i < |s| ensures Tops(s, w, wide, rows, x)[i] < Pow2(rows[i]) {
      assert ValidDimension(s[i], w);
      TopBelow(s[i], rows[i], x);
    }
    forall i: nat | i < |s| ensures Rests(s, w, wide, rows, x)[i] < Pow2(Spare(wide, rows)[i]) {
      LowBound(Top(s[i], wide[i], x), wide[i] - rows[i]);
    }
  }

  lemma KeyLinear(s: seq<Dimension>, w: nat, wide: seq<nat>, rows: seq<nat>, m: nat, n: nat)
    requires ValidRows(s, w, wide, rows)
    ensures Key(s, w, wide, rows, Xor(m, n)) == Xor(Key(s, w, wide, rows, m), Key(s, w, wide, rows, n))
  {
    hide Xor, Shl, Top, Low, Joined, Total;
    var x := Xor(m, n);
    forall i: nat | i < |s|
      ensures Tops(s, w, wide, rows, x)[i] == Xor(Tops(s, w, wide, rows, m)[i], Tops(s, w, wide, rows, n)[i])
      ensures Rests(s, w, wide, rows, x)[i] == Xor(Rests(s, w, wide, rows, m)[i], Rests(s, w, wide, rows, n)[i])
    {
      assert ValidDimension(s[i], w);
      TopLinear(s[i], rows[i], m, n);
      TopLinear(s[i], wide[i], m, n);
      XorLow(Top(s[i], wide[i], m), Top(s[i], wide[i], n), wide[i] - rows[i]);
    }
    var a, b := Tops(s, w, wide, rows, m), Tops(s, w, wide, rows, n);
    var c, d := Rests(s, w, wide, rows, m), Rests(s, w, wide, rows, n);
    var spare := Spare(wide, rows);
    JoinedXor(a, b, Tops(s, w, wide, rows, x), rows, |s|);
    JoinedXor(c, d, Rests(s, w, wide, rows, x), spare, |s|);
    JoinXor(Joined(a, rows, |s|), Joined(c, spare, |s|), Joined(b, rows, |s|), Joined(d, spare, |s|),
            Total(spare, |s|));
  }

  lemma KeyBound(s: seq<Dimension>, w: nat, wide: seq<nat>, rows: seq<nat>, x: nat)
    requires ValidRows(s, w, wide, rows)
    ensures Key(s, w, wide, rows, x) < Pow2(Total(wide, |s|))
    ensures Shr(Key(s, w, wide, rows, x), Total(Spare(wide, rows), |s|)) == Joined(Tops(s, w, wide, rows, x), rows, |s|)
  {
    hide Xor, Shl, Shr, Low, Pow2, Joined, Total, Tops, Rests;
    var a, c, spare := Tops(s, w, wide, rows, x), Rests(s, w, wide, rows, x), Spare(wide, rows);
    PartBounds(s, w, wide, rows, x);
    JoinedBound(a, rows, |s|);
    JoinedBound(c, spare, |s|);
    SpareTotal(wide, rows, |s|);
    JoinBound(Joined(a, rows, |s|), Joined(c, spare, |s|), Total(spare, |s|), Total(rows, |s|));
    JoinParts(Joined(a, rows, |s|), Joined(c, spare, |s|), Total(spare, |s|));
  }

  /** A zero key means zero top bits, wide[i] of them, in every dimension. */
  lemma ZeroKey(s: seq<Dimension>, w: nat, wide: seq<nat>, rows: seq<nat>, x: nat)
    requires ValidRows(s, w, wide, rows) && Key(s, w, wide, rows, x) == 0
    ensures forall i: nat :: i < |s| ==> wide[i] <= |s[i].v| && Top(s[i], wide[i], x) == 0
  {
    hide Xor, Shl, Shr, Low, Pow2, Joined, Total, Factors;
    var a, c, spare := Tops(s, w, wide, rows, x), Rests(s, w, wide, rows, x), Spare(wide, rows);
    PartBounds(s, w, wide, rows, x);
    JoinedBound(c, spare, |s|);
    JoinParts(Joined(a, rows, |s|), Joined(c, spare, |s|), Total(spare, |s|));
    ZeroWord(Total(spare, |s|));
    JoinedZero(a, rows, |s|);
    JoinedZero(c, spare, |s|);
    forall i: nat | i < |s| ensures wide[i] <= |s[i].v| && Top(s[i], wide[i], x) == 0 {
      assert ValidDimension(s[i], w);
      assert a[i] == 0 && c[i] == 0;
      TopSplit(s[i], wide[i], rows[i], x);
    }
  }

  lemma TopSplit(d: Dimension, wide: nat, rows: nat, x: nat)
    requires rows <= wide <= |d.v|
    ensures Shr(Top(d, wide, x), wide - rows) == Top(d, rows, x)
    ensures Top(d, rows, x) == 0 && Low(Top(d, wide, x), wide - rows) == 0 ==> Top(d, wide, x) == 0
  {
    hide Shr, Low, Combine;
    ShrShr(Combine(d.v, 0, x), |d.v| - wide, wide - rows);
    SplitAt(Top(d, wide, x), wide - rows);
  }

  lemma ZeroKeyDivides(s: seq<Dimension>, w: nat, blocks: seq<nat>, rows: seq<nat>, x: nat)
    requires |s| == |blocks| && ValidRows(s, w, Wide(s, blocks), rows) && Apart(s, w) && x < Pow2(w)
    requires Total(Wide(s, blocks), |s|) <= w
    requires Key(s, w, Wide(s, blocks), rows, x) == 0
    ensures Divides(Product(s, blocks, |s|), x)
  {
    hide Deg, Top, Pow2, Factors, Key, Product, Divides;
    var wide := Wide(s, blocks);
    ZeroKey(s, w, wide, rows, x);
    ProductDivides(s, blocks, w, |s|, x);
  }

  /** A nonzero index below 2^k, k all the rows together, has a nonzero key. */
  lemma KeyNonzero(s: seq<Dimension>, w: nat, blocks: seq<nat>, rows: seq<nat>, x: nat)
    requires |s| == |blocks| && ValidRows(s, w, Wide(s, blocks), rows) && Apart(s, w)
    requires Total(Wide(s, blocks), |s|) <= w
    requires 0 < x < Pow2(Total(Wide(s, blocks), |s|))
    ensures Key(s, w, Wide(s, blocks), rows, x) != 0
  {
    hide Mul, Deg, Pow2, System, Key, Product, Total, Wide;
    var k := Total(Wide(s, blocks), |s|);
    var a := Product(s, blocks, |s|);
    if Key(s, w, Wide(s, blocks), rows, x) == 0 {
      Pow2Mono(k, w);
      ZeroKeyDivides(s, w, blocks, rows, x);
      ProductDegree(s, blocks, w, |s|);
      DegBounds(a);
      var c: nat :| Mul(a, c) == x;
      ZeroMultiple(a);
      MultipleNotSmaller(a, c);
    }
  }

  lemma ZeroMultiple(d: nat)
    ensures Mul(d, 0) == 0
  {
  }

  // ---------- the net property ----------

  lemma PositionLinear(o: Order, m: nat, n: nat)
    ensures Position(o, Xor(m, n)) == Xor(Position(o, m), Position(o, n))
  {
    if o.GrayCode? { GrayLinear(m, n); }
  }

  lemma PositionBelow(o: Order, n: nat, k: nat)
    requires 0 < n < Pow2(k)
    ensures 0 < Position(o, n) < Pow2(k)
  {
    if o.GrayCode? {
      GrayNonzero(n);
      GrayBound(n, k);
    }
  }

  lemma KeyStratified(s: seq<Dimension>, w: nat, o: Order, blocks: seq<nat>, rows: seq<nat>)
    requires |s| == |blocks| && ValidRows(s, w, Wide(s, blocks), rows) && Apart(s, w)
    requires Total(Wide(s, blocks), |s|) <= w
    ensures var key := (n: nat) => Key(s, w, Wide(s, blocks), rows, Position(o, n));
            Stratified(key, Total(Wide(s, blocks), |s|)) && KeyBelow(key, Total(Wide(s, blocks), |s|))
  {
    hide Pow2, Xor, Key, Stratified, Position, System, Wide, Total;
    var wide := Wide(s, blocks);
    var k := Total(wide, |s|);
    var key := (n: nat) => Key(s, w, wide, rows, Position(o, n));
    forall m: nat, n: nat ensures key(Xor(m, n)) == Xor(key(m), key(n)) {
      PositionLinear(o, m, n);
      KeyLinear(s, w, wide, rows, Position(o, m), Position(o, n));
    }
    forall n: nat | 0 < n < Pow2(k) ensures key(n) != 0 {
      PositionBelow(o, n, k);
      KeyNonzero(s, w, blocks, rows, Position(o, n));
    }
    forall n: nat ensures key(n) < Pow2(k) { KeyBound(s, w, wide, rows, Position(o, n)); }
    LinearKeyStratifies(key, k);
  }

  /** Index n has, in every dimension i, the rows[i] top bits t[i]. */
  ghost predicate InCell(s: seq<Dimension>, o: Order, rows: seq<nat>, t: seq<nat>, n: nat)
    requires |s| == |rows| == |t|
  {
    forall i: nat :: i < |s| ==> rows[i] <= |s[i].v| && Top(s[i], rows[i], Position(o, n)) == t[i]
  }

  /** The places of the aligned block c of 2^k indices that lie in a cell. */
  ghost function Cell(s: seq<Dimension>, o: Order, rows: seq<nat>, t: seq<nat>, k: nat, c: nat): set<nat>
    requires |s| == |rows| == |t|
  {
    set j: nat | j < Pow2(k) && InCell(s, o, rows, t, IndexOf(c, j, k))
  }

  lemma TopsNameCell(s: seq<Dimension>, w: nat, o: Order, wide: seq<nat>, rows: seq<nat>, t: seq<nat>, n: nat)
    requires ValidRows(s, w, wide, rows) && |t| == |s| && forall i: nat :: i < |s| ==> t[i] < Pow2(rows[i])
    ensures Joined(Tops(s, w, wide, rows, Position(o, n)), rows, |s|) == Joined(t, rows, |s|)
      <==> InCell(s, o, rows, t, n)
  {
    hide Joined, Pow2, Position, Top, Factors;
    var x := Position(o, n);
    var a := Tops(s, w, wide, rows, x);
    PartBounds(s, w, wide, rows, x);
    JoinedSame(a, t, rows, |s|);
    forall i: nat | i < |s| ensures rows[i] <= |s[i].v| && a[i] == Top(s[i], rows[i], x) {
      assert ValidDimension(s[i], w);
    }
  }

  /** The net property. For any rows[i] of the Deg(p) blocks[i] top bits of each dimension (k bits in all blocks
      together), any aligned block of 2^k indices and any top bits t: exactly 2^(k - sum of rows) indices of the
      block have the rows[i] top bits t[i] in every dimension. */
  lemma PointsPerCell(s: seq<Dimension>, w: nat, o: Order, blocks: seq<nat>, rows: seq<nat>, t: seq<nat>, c: nat)
    requires |s| == |blocks| == |t| && ValidRows(s, w, Wide(s, blocks), rows) && Apart(s, w)
    requires Total(Wide(s, blocks), |s|) <= w
    requires forall i: nat :: i < |s| ==> t[i] < Pow2(rows[i])
    ensures Total(rows, |s|) <= Total(Wide(s, blocks), |s|)
    ensures |Cell(s, o, rows, t, Total(Wide(s, blocks), |s|), c)|
      == Pow2(Total(Wide(s, blocks), |s|) - Total(rows, |s|))
  {
    hide Pow2, Shr, Key, Stratified, KeyBelow, Position, System, Wide, Total, InCell, Joined, IndexOf, Spare;
    var wide := Wide(s, blocks);
    var k := Total(wide, |s|);
    var key := (n: nat) => Key(s, w, wide, rows, Position(o, n));
    KeyStratified(s, w, o, blocks, rows);
    SpareTotal(wide, rows, |s|);
    var r, u := Total(Spare(wide, rows), |s|), Joined(t, rows, |s|);
    JoinedBound(t, rows, |s|);
    CoarseCount(key, k, r, c, u);
    forall j: nat
      ensures Shr(key(IndexOf(c, j, k)), r) == u <==> InCell(s, o, rows, t, IndexOf(c, j, k))
    {
      KeyBound(s, w, wide, rows, Position(o, IndexOf(c, j, k)));
      TopsNameCell(s, w, o, wide, rows, t, IndexOf(c, j, k));
    }
    assert Places(key, k, r, c, u) == Cell(s, o, rows, t, k, c);
  }

  /** Index n lies in block c of 2^k indices and in the cell. */
  ghost predicate InBlockCell(s: seq<Dimension>, o: Order, rows: seq<nat>, t: seq<nat>, k: nat, c: nat, n: nat)
    requires |s| == |rows| == |t|
  {
    Shr(n, k) == c && InCell(s, o, rows, t, n)
  }

  ghost predicate ExactlyOneIndex(s: seq<Dimension>, o: Order, rows: seq<nat>, t: seq<nat>, k: nat, c: nat)
    requires |s| == |rows| == |t|
  {
    && (exists n: nat :: InBlockCell(s, o, rows, t, k, c, n))
    && (forall m: nat, n: nat ::
         (InBlockCell(s, o, rows, t, k, c, m) && InBlockCell(s, o, rows, t, k, c, n)) ==> m == n)
  }

  lemma OnlyElement(a: set<nat>, x: nat, y: nat)
    requires |a| == 1 && x in a && y in a
    ensures x == y
  {
    if x != y { SubsetOfSameSize({x}, a); }
  }

  /** Whole blocks of rows: exactly one index of the block lies in each cell. */
  lemma OnePointPerCell(s: seq<Dimension>, w: nat, o: Order, blocks: seq<nat>, t: seq<nat>, c: nat)
    requires |s| == |blocks| == |t| && System(s, w) && Apart(s, w) && Total(Wide(s, blocks), |s|) <= w
    requires forall i: nat :: i < |s| ==> t[i] < Pow2(Wide(s, blocks)[i])
    ensures ExactlyOneIndex(s, o, Wide(s, blocks), t, Total(Wide(s, blocks), |s|), c)
  {
    hide System, Apart, Wide, InCell, Total, Shr, Low, IndexOf, Pow2;
    var rows := Wide(s, blocks);
    var k := Total(rows, |s|);
    forall i: nat | i < |s| ensures rows[i] <= w { PartOfTotal(rows, i, |s|); }
    PointsPerCell(s, w, o, blocks, rows, t, c);
    One();
    var a := Cell(s, o, rows, t, k, c);
    var j: nat :| j in a;
    IndexParts(c, j, k);
    assert InBlockCell(s, o, rows, t, k, c, IndexOf(c, j, k));
    forall n: nat | InBlockCell(s, o, rows, t, k, c, n) ensures n == IndexOf(c, j, k) {
      LowBound(n, k);
      AsIndex(c, n, k);
      OnlyElement(a, j, Low(n, k));
    }
  }

  lemma One()
    ensures Pow2(0) == 1
  {
  }

  // ---------- exactly the coprime systems are nets ----------

  /** Any whole blocks of rows, any cell and any aligned block: one index. */
  ghost predicate IsNet(s: seq<Dimension>, w: nat, o: Order) {
    forall blocks: seq<nat>, t: seq<nat>, c: nat ::
      (|blocks| == |t| == |s| && Total(Wide(s, blocks), |s|) <= w
       && forall i: nat :: i < |s| ==> t[i] < Pow2(Wide(s, blocks)[i]))
      ==> ExactlyOneIndex(s, o, Wide(s, blocks), t, Total(Wide(s, blocks), |s|), c)
  }

  /** One block of rows in dimensions i and j, none elsewhere. */
  function OneBlockEach(n: nat, i: nat, j: nat): (r: seq<nat>)
    ensures |r| == n
  {
    seq(n, k requires 0 <= k < n => if k == i || k == j then 1 else 0)
  }

  function Zeros(n: nat): (r: seq<nat>)
    ensures |r| == n && forall k: nat :: k < n ==> r[k] == 0
  {
    seq(n, k requires 0 <= k < n => 0)
  }

  lemma {:induction false} PairTotal(s: seq<Dimension>, i: nat, j: nat, n: nat)
    requires i < j < |s| && n <= |s|
    ensures Total(Wide(s, OneBlockEach(|s|, i, j)), n)
      == (if i < n then Deg(s[i].p) else 0) + (if j < n then Deg(s[j].p) else 0)
    decreases n
  {
    hide Deg;
    if n > 0 { PairTotal(s, i, j, n - 1); }
  }

  /** A common multiple of the two polynomials lies in the zero cell. */
  lemma MultipleInZeroCell(s: seq<Dimension>, w: nat, o: Order, i: nat, j: nat, n: nat)
    requires System(s, w) && i < j < |s| && Deg(s[i].p) + Deg(s[j].p) <= w && Position(o, n) < Pow2(w)
    requires Divides(s[i].p, Position(o, n)) && Divides(s[j].p, Position(o, n))
    ensures InCell(s, o, Wide(s, OneBlockEach(|s|, i, j)), Zeros(|s|), n)
  {
    hide Deg, Divides, Position, Top, Pow2, Power;
    var wide, x := Wide(s, OneBlockEach(|s|, i, j)), Position(o, n);
    forall k: nat | k < |s| ensures wide[k] <= |s[k].v| && Top(s[k], wide[k], x) == 0 {
      var d := s[k];
      assert ValidDimension(d, w);
      if k == i || k == j {
        assert wide[k] == Deg(d.p) * 1;
        PowerOne(d.p);
        assert Divides(Power(d.p, 1), x);
      } else {
        assert wide[k] == 0;
        TopBelow(d, 0, x);
        One();
      }
    }
  }

  lemma PositionZero(o: Order)
    ensures Position(o, 0) == 0
  {
    XorZero(0);
  }

  lemma PositionOf(o: Order, x: nat, k: nat) returns (n: nat)
    requires 0 < x < Pow2(k)
    ensures Position(o, n) == x && Shr(n, k) == 0 && n > 0
  {
    hide Position, Pow2, Shr, Stratified, Low, Xor;
    var key := (n: nat) => Low(Position(o, n), k);
    forall m: nat, n: nat ensures key(Xor(m, n)) == Xor(key(m), key(n)) {
      PositionLinear(o, m, n);
      XorLow(Position(o, m), Position(o, n), k);
    }
    forall n: nat | 0 < n < Pow2(k) ensures key(n) != 0 {
      PositionBelow(o, n, k);
      LowSmall(Position(o, n), k);
    }
    forall n: nat ensures key(n) < Pow2(k) { LowBound(Position(o, n), k); }
    LinearKeyStratifies(key, k);
    n := FirstBlockIndex(key, k, x);
    if n > 0 { PositionBelow(o, n, k); }
    PositionZero(o);
    LowSmall(Position(o, n), k);
    InFirstBlock(n, k);
  }

  lemma FirstBlockIndex(key: nat -> nat, k: nat, x: nat) returns (n: nat)
    requires Stratified(key, k) && x < Pow2(k)
    ensures n < Pow2(k) && key(n) == x
  {
    hide Shr, Pow2;
    assert ExactlyOnce(key, k, 0, x);
    n :| At(key, k, 0, x, n);
    SplitAt(n, k);
    LowBound(n, k);
  }

  /** Two polynomials with a common factor: the zero cell of one block of rows each holds two indices. */
  lemma SharedFactorFails(s: seq<Dimension>, w: nat, o: Order, i: nat, j: nat)
    requires System(s, w) && i < j < |s| && Deg(s[i].p) + Deg(s[j].p) <= w && !Coprime(s[j].p, s[i].p)
    ensures !IsNet(s, w, o)
  {
    hide Deg, System, Pow2, Position, InCell, Wide, Total, Divides, Shr, ExactlyOneIndex;
    assert s[i].p > 1 && s[j].p > 1 by { BothValid(s, w, i, j); }
    var g: nat :| Divides(g, s[j].p) && Divides(g, s[i].p) && g != 1;
    var x := CommonMultiple(s[i].p, s[j].p, g);
    var blocks, t := OneBlockEach(|s|, i, j), Zeros(|s|);
    var k := Deg(s[i].p) + Deg(s[j].p);
    PairTotal(s, i, j, |s|);
    Pow2Mono(k, w);
    var n := PositionOf(o, x, k);
    MultipleInZeroCell(s, w, o, i, j, n);
    PositionZero(o);
    ZeroIsMultiple(s[i].p);
    ZeroIsMultiple(s[j].p);
    MultipleInZeroCell(s, w, o, i, j, 0);
    ZeroWord(k);
    if IsNet(s, w, o) {
      assert Total(Wide(s, blocks), |s|) == k;
      NetAt(s, w, o, blocks, t, 0);
      SameCell(s, o, Wide(s, blocks), t, k, 0, 0, n);
    }
  }

  lemma NetAt(s: seq<Dimension>, w: nat, o: Order, blocks: seq<nat>, t: seq<nat>, c: nat)
    requires IsNet(s, w, o) && |blocks| == |t| == |s| && Total(Wide(s, blocks), |s|) <= w
    requires forall i: nat :: i < |s| ==> t[i] < Pow2(Wide(s, blocks)[i])
    ensures ExactlyOneIndex(s, o, Wide(s, blocks), t, Total(Wide(s, blocks), |s|), c)
  {
  }

  lemma SameCell(s: seq<Dimension>, o: Order, rows: seq<nat>, t: seq<nat>, k: nat, c: nat, m: nat, n: nat)
    requires |s| == |rows| == |t| && ExactlyOneIndex(s, o, rows, t, k, c)
    requires InBlockCell(s, o, rows, t, k, c, m) && InBlockCell(s, o, rows, t, k, c, n)
    ensures m == n
  {
  }

  lemma BothValid(s: seq<Dimension>, w: nat, i: nat, j: nat)
    requires System(s, w) && i < |s| && j < |s|
    ensures s[i].p > 1 && s[j].p > 1
  {
    assert ValidDimension(s[i], w) && ValidDimension(s[j], w);
  }

  lemma ZeroIsMultiple(p: nat)
    ensures Divides(p, 0)
  {
    DividesIntro(p, 0, 0);
  }

  /** The dimensions form a net if and only if the polynomials of any two with room for a block each are coprime. */
  lemma NetExactly(s: seq<Dimension>, w: nat, o: Order)
    requires System(s, w)
    ensures IsNet(s, w, o) <==> Apart(s, w)
  {
    hide Deg, System, Pow2, ExactlyOneIndex, Wide, Total, Coprime;
    if !Apart(s, w) {
      var i: nat, j: nat :| i < j < |s| && Deg(s[i].p) + Deg(s[j].p) <= w && !Coprime(s[j].p, s[i].p);
      SharedFactorFails(s, w, o, i, j);
    } else {
      forall blocks: seq<nat>, t: seq<nat>, c: nat
        | |blocks| == |t| == |s| && Total(Wide(s, blocks), |s|) <= w
          && forall i: nat :: i < |s| ==> t[i] < Pow2(Wide(s, blocks)[i])
        ensures ExactlyOneIndex(s, o, Wide(s, blocks), t, Total(Wide(s, blocks), |s|), c)
      {
        OnePointPerCell(s, w, o, blocks, t, c);
      }
    }
  }

  // ---------- each dimension of a net ----------

  lemma {:induction false} SingleTotal(s: seq<Dimension>, i: nat, n: nat)
    requires i < |s| && n <= |s|
    ensures Total(Wide(s, OneBlockEach(|s|, i, i)), n) == if i < n then Deg(s[i].p) else 0
    decreases n
  {
    hide Deg;
    if n > 0 { SingleTotal(s, i, n - 1); }
  }

  /** The indices of the cell that asks for one block of dimension i alone. */
  lemma CellOfOne(s: seq<Dimension>, w: nat, o: Order, i: nat, y: nat, n: nat)
    requires i < |s| && Deg(s[i].p) <= w
    requires forall j: nat :: j < |s| ==> |s[j].v| == w
    requires forall j: nat, b: nat :: j < |s| && b < w ==> s[j].v[b] < Pow2(w)
    ensures InCell(s, o, Wide(s, OneBlockEach(|s|, i, i)), Zeros(|s|)[i := y], n)
      <==> Top(s[i], Deg(s[i].p), Position(o, n)) == y
  {
    hide Deg, Top, Pow2, Position;
    var wide, t, x := Wide(s, OneBlockEach(|s|, i, i)), Zeros(|s|)[i := y], Position(o, n);
    assert wide[i] == Deg(s[i].p) * 1;
    One();
    forall j: nat | j < |s| && j != i ensures wide[j] <= |s[j].v| && Top(s[j], wide[j], x) == t[j] {
      assert wide[j] == 0;
      TopBelow(s[j], 0, x);
    }
  }

  /** In a net one block of top bits of each dimension is stratified. */
  lemma NetStratifiesEach(s: seq<Dimension>, w: nat, o: Order, i: nat)
    requires IsNet(s, w, o) && i < |s| && Deg(s[i].p) <= w
    requires forall j: nat :: j < |s| ==> |s[j].v| == w
    requires forall j: nat, b: nat :: j < |s| && b < w ==> s[j].v[b] < Pow2(w)
    ensures Stratified((n: nat) => Top(s[i], Deg(s[i].p), Position(o, n)), Deg(s[i].p))
  {
    hide Deg, Top, Pow2, Position, InCell, IsNet, Total, Wide, Shr, ExactlyOneIndex;
    var k := Deg(s[i].p);
    var key := (n: nat) => Top(s[i], k, Position(o, n));
    forall c: nat, y: nat | y < Pow2(k) ensures ExactlyOnce(key, k, c, y) { NetHitsOnce(s, w, o, i, c, y, key); }
  }

  lemma NetHitsOnce(s: seq<Dimension>, w: nat, o: Order, i: nat, c: nat, y: nat, key: nat -> nat)
    requires IsNet(s, w, o) && i < |s| && Deg(s[i].p) <= w && y < Pow2(Deg(s[i].p))
    requires forall j: nat :: j < |s| ==> |s[j].v| == w
    requires forall j: nat, b: nat :: j < |s| && b < w ==> s[j].v[b] < Pow2(w)
    requires forall n: nat :: key(n) == Top(s[i], Deg(s[i].p), Position(o, n))
    ensures ExactlyOnce(key, Deg(s[i].p), c, y)
  {
    hide Deg, Top, Pow2, Position, InCell, IsNet, Total, Shr;
    var k := Deg(s[i].p);
    var blocks, t := OneBlockEach(|s|, i, i), Zeros(|s|)[i := y];
    SingleTotal(s, i, |s|);
    assert Wide(s, blocks)[i] == k * 1;
    NetAt(s, w, o, blocks, t, c);
    forall n: nat ensures At(key, k, c, y, n) <==> InBlockCell(s, o, Wide(s, blocks), t, k, c, n) {
      CellOfOne(s, w, o, i, y, n);
    }
    var n: nat :| InBlockCell(s, o, Wide(s, blocks), t, k, c, n);
    assert At(key, k, c, y, n);
  }

  /** With the primes x, x + 1 and x^2 + x + 1 and any numbers of rows, a cell of three dimensions holds two
      points if the number of rows of the third is odd, and one if it is even. */
  lemma ThreeDimensions(s: seq<Dimension>, w: nat, o: Order, rows: seq<nat>, t: seq<nat>, c: nat)
    requires |s| == |rows| == |t| == 3 && System(s, w) && Apart(s, w)
    requires s[0].p == 2 && s[1].p == 3 && s[2].p == 7
    requires rows[0] + rows[1] + rows[2] + rows[2] % 2 <= w
    requires forall i: nat :: i < 3 ==> t[i] < Pow2(rows[i])
    ensures |Cell(s, o, rows, t, rows[0] + rows[1] + rows[2] + rows[2] % 2, c)| == 1 + rows[2] % 2
  {
    hide System, Apart, Cell;
    var blocks := [rows[0], rows[1], (rows[2] + 1) / 2];
    var wide := Wide(s, blocks);
    assert wide[0] == rows[0] && wide[1] == rows[1] && wide[2] == rows[2] + rows[2] % 2;
    TotalOfThree(wide);
    TotalOfThree(rows);
    PointsPerCell(s, w, o, blocks, rows, t, c);
  }
}
