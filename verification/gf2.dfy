/** Polynomials over GF(2) coded as numbers: bit k is the coefficient of x^k, addition is xor. */
module Gf2 {
  import opened Bits

  function Mul(a: nat, b: nat): nat
    decreases b
  {
    if b == 0 then 0 else Xor(if b % 2 == 1 then a else 0, 2 * Mul(a, b / 2))
  }

  /** Degree; 0 also for the zero polynomial. */
  function Deg(n: nat): nat {
    if n <= 1 then 0 else 1 + Deg(n / 2)
  }

  ghost predicate Divides(b: nat, p: nat) {
    exists c: nat :: Mul(b, c) == p
  }

  /** 1 is the only unit. */
  ghost predicate Irreducible(p: nat) {
    p > 1 && forall a: nat, b: nat :: Mul(a, b) == p ==> a == 1 || b == 1
  }

  // ---------- ring laws ----------

  lemma XorDouble(a: nat, b: nat)
    ensures Xor(2 * a, 2 * b) == 2 * Xor(a, b)
  {
    XorHalf(2 * a, 2 * b);
  }

  lemma MulOne(a: nat)
    ensures Mul(a, 1) == a
  {
    assert Mul(a, 0) == 0;
    XorZero(a);
  }

  lemma {:induction false} MulZero(b: nat)
    ensures Mul(0, b) == 0
    decreases b
  {
    if b > 0 {
      MulZero(b / 2);
      XorZero(0);
    }
  }

  lemma MulTwice(a: nat, b: nat)
    ensures Mul(a, 2 * b) == 2 * Mul(a, b)
  {
    XorZero(2 * Mul(a, b));
  }

  lemma {:induction false} MulTwiceLeft(a: nat, b: nat)
    ensures Mul(2 * a, b) == 2 * Mul(a, b)
    decreases b
  {
    if b > 0 {
      MulTwiceLeft(a, b / 2);
      XorDouble(if b % 2 == 1 then a else 0, 2 * Mul(a, b / 2));
    }
  }

  lemma {:induction false} MulXorLeft(a: nat, b: nat, c: nat)
    ensures Mul(Xor(a, b), c) == Xor(Mul(a, c), Mul(b, c))
    decreases c
  {
    if c == 0 {
      XorZero(0);
    } else {
      hide Xor;
      MulXorLeft(a, b, c / 2);
      var x, y := Mul(a, c / 2), Mul(b, c / 2);
      XorDouble(x, y);
      var p, q := if c % 2 == 1 then a else 0, if c % 2 == 1 then b else 0;
      XorZero(0);
      XorSwap(p, 2 * x, q, 2 * y);
    }
  }

  /** One step of Mul, for any parity. */
  lemma MulStep(a: nat, b: nat)
    ensures Mul(a, b) == Xor(if b % 2 == 1 then a else 0, 2 * Mul(a, b / 2))
  {
    if b == 0 { XorZero(0); }
  }

  lemma {:induction false} MulXor(a: nat, b: nat, c: nat)
    ensures Mul(a, Xor(b, c)) == Xor(Mul(a, b), Mul(a, c))
    decreases b + c
  {
    if b + c == 0 {
      XorZero(0);
    } else {
      hide Xor, Mul;
      MulXor(a, b / 2, c / 2);
      XorHalf(b, c);
      MulStep(a, b);
      MulStep(a, c);
      MulStep(a, Xor(b, c));
      var x, y := Mul(a, b / 2), Mul(a, c / 2);
      XorDouble(x, y);
      var p, q := if b % 2 == 1 then a else 0, if c % 2 == 1 then a else 0;
      XorSelf(a);
      XorZero(a);
      XorZero(0);
      XorSwap(p, 2 * x, q, 2 * y);
    }
  }

  lemma XorParts(b: nat)
    ensures Xor(b % 2, 2 * (b / 2)) == b
  {
    XorHalf(b % 2, 2 * (b / 2));
    XorZero(b / 2);
  }

  lemma {:induction false} OneMul(b: nat)
    ensures Mul(1, b) == b
    decreases b
  {
    if b > 0 {
      OneMul(b / 2);
      XorParts(b);
    }
  }

  lemma {:induction false} MulComm(a: nat, b: nat)
    ensures Mul(a, b) == Mul(b, a)
    decreases b
  {
    if b == 0 {
      MulZero(a);
    } else {
      hide Xor;
      MulComm(a, b / 2);
      XorParts(b);
      MulXorLeft(b % 2, 2 * (b / 2), a);
      MulTwiceLeft(b / 2, a);
      OneMul(a);
      MulZero(a);
    }
  }

  lemma {:induction false} MulAssoc(a: nat, b: nat, c: nat)
    ensures Mul(Mul(a, b), c) == Mul(a, Mul(b, c))
    decreases c
  {
    if c > 0 {
      hide Xor;
      MulAssoc(a, b, c / 2);
      var p := if c % 2 == 1 then b else 0;
      MulXor(a, p, 2 * Mul(b, c / 2));
      MulTwice(a, Mul(b, c / 2));
    }
  }

  lemma {:induction false} MulPow2(a: nat, k: nat)
    ensures Mul(a, Pow2(k)) == Shl(a, k)
    decreases k
  {
    if k == 0 {
      MulOne(a);
    } else {
      MulPow2(a, k - 1);
      MulTwice(a, Pow2(k - 1));
    }
  }

  // ---------- degrees ----------

  lemma {:induction false} DegBounds(n: nat)
    requires n > 0
    ensures Pow2(Deg(n)) <= n < Pow2(Deg(n) + 1) && Bit(n, Deg(n))
  {
    if n > 1 { DegBounds(n / 2); }
  }

  lemma {:induction false} DegUnique(n: nat, d: nat)
    requires Pow2(d) <= n < Pow2(d + 1)
    ensures Deg(n) == d
    decreases d
  {
    if d > 0 { DegUnique(n / 2, d - 1); }
  }

  /** The polynomial of higher degree keeps its leading term. */
  lemma {:induction false} DegXor(a: nat, b: nat)
    requires b > 0 && (a == 0 || Deg(a) < Deg(b))
    ensures Xor(a, b) > 0 && Deg(Xor(a, b)) == Deg(b)
    decreases b
  {
    if a == 0 {
      XorZero(b);
    } else {
      hide Xor;
      XorHalf(a, b);
      if a == 1 {
        XorZero(b / 2);
      } else {
        DegXor(a / 2, b / 2);
      }
    }
  }

  /** Two polynomials of the same degree cancel their leading terms. */
  lemma {:induction false} DegCancel(a: nat, b: nat)
    requires a > 0 && b > 0 && Deg(a) == Deg(b)
    ensures Xor(a, b) == 0 || Deg(Xor(a, b)) < Deg(a) || (Deg(a) == 0 && a == b)
    ensures Xor(a, b) < Pow2(Deg(a))
    decreases b
  {
    hide Xor;
    XorHalf(a, b);
    if a > 1 {
      DegCancel(a / 2, b / 2);
    } else {
      XorSelf(1);
    }
  }

  lemma {:induction false} DegMul(a: nat, b: nat)
    requires a > 0 && b > 0
    ensures Mul(a, b) > 0 && Deg(Mul(a, b)) == Deg(a) + Deg(b)
    decreases b
  {
    if b == 1 {
      MulOne(a);
    } else {
      DegMul(a, b / 2);
      DegXor(if b % 2 == 1 then a else 0, 2 * Mul(a, b / 2));
    }
  }

  lemma {:induction false} DegShl(a: nat, k: nat)
    requires a > 0
    ensures Shl(a, k) > 0 && Deg(Shl(a, k)) == Deg(a) + k
    decreases k
  {
    if k > 0 { DegShl(a, k - 1); }
  }

  lemma {:induction false} DegMono(a: nat, b: nat)
    requires a <= b
    ensures Deg(a) <= Deg(b)
    decreases b
  {
    if a > 1 { DegMono(a / 2, b / 2); }
  }

  /** A multiple is zero or not smaller, also as a number. */
  lemma MultipleNotSmaller(b: nat, c: nat)
    requires b > 0 && c > 0
    ensures Mul(b, c) >= b && (Mul(b, c) == b ==> c == 1)
  {
    if c == 1 {
      MulOne(b);
    } else {
      DegMul(b, c);
      DegBounds(b);
      DegBounds(Mul(b, c));
      assert Deg(c) >= 1;
      Pow2Mono(Deg(b) + 1, Deg(Mul(b, c)));
    }
  }

  // ---------- division ----------

  lemma DividesIntro(b: nat, c: nat, p: nat)
    requires Mul(b, c) == p
    ensures Divides(b, p)
  {
  }

  lemma DividesSelf(p: nat)
    ensures Divides(p, p) && Divides(1, p)
  {
    MulOne(p);
    OneMul(p);
    DividesIntro(p, 1, p);
    DividesIntro(1, p, p);
  }

  lemma DividesTrans(a: nat, b: nat, c: nat)
    requires Divides(a, b) && Divides(b, c)
    ensures Divides(a, c)
  {
    var x: nat :| Mul(a, x) == b;
    var y: nat :| Mul(b, y) == c;
    MulAssoc(a, x, y);
    DividesIntro(a, Mul(x, y), c);
  }

  lemma DividesXor(b: nat, p: nat, q: nat)
    requires Divides(b, p) && Divides(b, q)
    ensures Divides(b, Xor(p, q))
  {
    var x: nat :| Mul(b, x) == p;
    var y: nat :| Mul(b, y) == q;
    MulXor(b, x, y);
    DividesIntro(b, Xor(x, y), Xor(p, q));
  }

  lemma DividesMultiple(b: nat, p: nat, q: nat)
    requires Divides(b, p)
    ensures Divides(b, Mul(p, q)) && Divides(b, Mul(q, p))
  {
    MulComm(p, q);
    DividesIntro(p, q, Mul(p, q));
    DividesTrans(b, p, Mul(p, q));
  }

  /** Division with remainder. */
  lemma {:induction false} DivMod(p: nat, b: nat) returns (q: nat, r: nat)
    requires b > 0
    ensures p == Xor(Mul(b, q), r) && (r == 0 || Deg(r) < Deg(b)) && r < Pow2(Deg(b))
    decreases p
  {
    if p == 0 || Deg(p) < Deg(b) {
      q, r := 0, p;
      assert Mul(b, 0) == 0;
      XorZero(p);
      if p > 0 {
        DegBounds(p);
        Pow2Mono(Deg(p) + 1, Deg(b));
      }
    } else {
      var k := Deg(p) - Deg(b);
      var s := Shl(b, k);
      DegShl(b, k);
      DegCancel(p, s);
      DegBounds(p);
      var q', r' := DivMod(Xor(p, s), b);
      q, r := Xor(q', Pow2(k)), r';
      DivModStep(p, b, k, q', r);
    }
  }

  lemma DivModStep(p: nat, b: nat, k: nat, q: nat, r: nat)
    requires Xor(p, Shl(b, k)) == Xor(Mul(b, q), r)
    ensures p == Xor(Mul(b, Xor(q, Pow2(k))), r)
  {
    hide Xor, Mul, Shl;
    var s := Shl(b, k);
    XorCancel(p, s);
    MulXor(b, q, Pow2(k));
    MulPow2(b, k);
    XorAssoc(Mul(b, q), r, s);
    XorComm(r, s);
    XorAssoc(Mul(b, q), s, r);
  }

  // ---------- ideals and prime elements ----------

  ghost predicate Ideal(I: nat -> bool) {
    && (forall x: nat, y: nat {:trigger I(Xor(x, y))} :: I(x) && I(y) ==> I(Xor(x, y)))
    && (forall x: nat, q: nat {:trigger I(Mul(x, q))} :: I(x) ==> I(Mul(x, q)))
  }

  lemma {:induction false} Smallest(I: nat -> bool, n: nat) returns (c: nat)
    requires n > 0 && I(n)
    ensures 0 < c <= n && I(c) && forall x: nat :: 0 < x < c ==> !I(x)
    decreases n
  {
    if x: nat :| 0 < x < n && I(x) { c := Smallest(I, x); } else { c := n; }
  }

  /** The smallest element of an ideal divides all of it. */
  lemma SmallestDivides(I: nat -> bool, c: nat, b: nat)
    requires Ideal(I) && c > 0 && I(c) && I(b)
    requires forall x: nat :: 0 < x < c ==> !I(x)
    ensures Divides(c, b)
  {
    hide Xor, Mul, Deg, Pow2;
    var q, r := DivMod(b, c);
    DegBounds(c);
    XorComm(Mul(c, q), r);
    XorCancel(r, Mul(c, q));
    assert I(Xor(b, Mul(c, q)));
    assert r == 0;
    XorZero(Mul(c, q));
    DividesIntro(c, q, b);
  }

  /** A proper ideal that contains an irreducible polynomial consists of its multiples. */
  lemma MaximalIdeal(I: nat -> bool, p: nat, b: nat)
    requires Ideal(I) && Irreducible(p) && I(p) && !I(1) && I(b)
    ensures Divides(p, b)
  {
    hide Ideal, Mul, Xor;
    var c := Smallest(I, p);
    SmallestDivides(I, c, p);
    var q: nat :| Mul(c, q) == p;
    MulOne(c);
    assert c == p;
    SmallestDivides(I, c, b);
  }

  lemma IrreducibleIsLarge(p: nat)
    requires Irreducible(p)
    ensures p > 1
  {
  }

  lemma IrreducibleDividesIrreducible(p: nat, q: nat)
    requires Irreducible(p) && Irreducible(q) && Divides(p, q)
    ensures p == q
  {
    var c: nat :| Mul(p, c) == q;
    MulOne(p);
  }

  /** Every polynomial of positive degree has an irreducible divisor no larger than itself. */
  lemma {:induction false} IrreducibleDivisor(p: nat) returns (q: nat)
    requires p > 1
    ensures Irreducible(q) && Divides(q, p) && q <= p
    decreases p
  {
    if Irreducible(p) {
      q := p;
      DividesSelf(p);
    } else {
      var a: nat, b: nat :| Mul(a, b) == p && a != 1 && b != 1;
      MulZero(b);
      assert b > 0 by { assert Mul(a, 0) == 0; }
      MultipleNotSmaller(a, b);
      q := IrreducibleDivisor(a);
      DividesIntro(a, b, p);
      DividesTrans(q, a, p);
    }
  }

  // ---------- coprime polynomials ----------

  ghost predicate Coprime(a: nat, b: nat) {
    forall c: nat :: Divides(c, a) && Divides(c, b) ==> c == 1
  }

  lemma PrimesCoprime(p: nat, q: nat)
    requires Irreducible(p) && Irreducible(q) && p != q
    ensures Coprime(p, q)
  {
    forall c: nat | Divides(c, p) && Divides(c, q) ensures c == 1 {
      DivisorOfPrime(c, p);
      DivisorOfPrime(c, q);
    }
  }

  lemma DivisorOfPrime(c: nat, p: nat)
    requires Irreducible(p) && Divides(c, p)
    ensures c == 1 || c == p
  {
    var x: nat :| Mul(c, x) == p;
    MulOne(c);
  }

  /** A polynomial coprime to one factor of a multiple divides the other. */
  lemma CoprimeCancels(a: nat, b: nat, x: nat)
    requires a > 0 && Coprime(a, b) && Divides(a, Mul(b, x))
    ensures Divides(a, x)
  {
    hide Mul, Xor, Divides;
    var I := (y: nat) => Divides(a, Mul(x, y));
    forall y: nat, z: nat | I(y) && I(z) ensures I(Xor(y, z)) {
      MulXor(x, y, z);
      DividesXor(a, Mul(x, y), Mul(x, z));
    }
    forall y: nat, q: nat | I(y) ensures I(Mul(y, q)) {
      MulAssoc(x, y, q);
      DividesMultiple(a, Mul(x, y), q);
    }
    DividesSelf(a);
    DividesMultiple(a, a, x);
    MulComm(b, x);
    var c := Smallest(I, a);
    SmallestDivides(I, c, a);
    SmallestDivides(I, c, b);
    MulOne(x);
  }

  lemma MulCancel(p: nat, a: nat, b: nat)
    requires p > 0 && Mul(p, a) == Mul(p, b)
    ensures a == b
  {
    hide Mul, Xor;
    MulXor(p, a, b);
    XorSelf(Mul(p, a));
    XorCancel(a, b);
    if a != b { DegMul(p, Xor(a, b)); }
  }

  /** Polynomials with a common factor have a common multiple of smaller degree than their product. */
  lemma CommonMultiple(a: nat, b: nat, g: nat) returns (y: nat)
    requires a > 0 && b > 0 && g != 1 && Divides(g, a) && Divides(g, b)
    ensures 0 < y < Pow2(Deg(a) + Deg(b)) && Divides(a, y) && Divides(b, y)
  {
    hide Mul, Pow2;
    var x: nat :| Mul(g, x) == a;
    var z: nat :| Mul(g, z) == b;
    ProductNonzero(g, x);
    ProductNonzero(g, z);
    y := Mul(b, x);
    MulAssoc(g, z, x);
    MulComm(z, x);
    MulAssoc(g, x, z);
    DividesIntro(a, z, y);
    DividesIntro(b, x, y);
    DegMul(b, x);
    DegMul(g, x);
    DegPositive(g);
    DegBounds(y);
    Pow2Mono(Deg(y) + 1, Deg(a) + Deg(b));
  }

  lemma ProductNonzero(a: nat, b: nat)
    requires Mul(a, b) > 0
    ensures a > 0 && b > 0
  {
    MulZero(b);
  }

  lemma DegPositive(g: nat)
    requires g > 1
    ensures Deg(g) > 0
  {
  }

  // ---------- powers ----------

  function Power(p: nat, q: nat): nat {
    if q == 0 then 1 else Mul(Power(p, q - 1), p)
  }

  lemma {:induction false} DegPower(p: nat, q: nat)
    requires p > 0
    ensures Power(p, q) > 0 && Deg(Power(p, q)) == q * Deg(p)
    decreases q
  {
    if q > 0 {
      DegPower(p, q - 1);
      DegMul(Power(p, q - 1), p);
      assert q * Deg(p) == (q - 1) * Deg(p) + Deg(p);
    }
  }

  lemma PowerOne(p: nat)
    ensures Power(p, 1) == p
  {
    hide Mul;
    assert Power(p, 0) == 1;
    OneMul(p);
  }

  /** A factor of the cofactor can be moved to the power. */
  lemma PowerStep(p: nat, q: nat, x: nat, n: nat)
    requires q > 0 && Divides(p, x) && Mul(Power(p, q - 1), x) == n
    ensures Divides(Power(p, q), n)
  {
    hide Mul;
    var e: nat :| Mul(p, e) == x;
    MulAssoc(Power(p, q - 1), p, e);
    DividesIntro(Power(p, q), e, n);
  }

  /** Lower powers divide whatever a higher one divides. */
  lemma {:induction false} LowerPower(p: nat, q: nat, r: nat, n: nat)
    requires q <= r && Divides(Power(p, r), n)
    ensures Divides(Power(p, q), n)
    decreases r
  {
    hide Mul, Divides;
    if q < r {
      DividesIntro(Power(p, r - 1), p, Power(p, r));
      DividesTrans(Power(p, r - 1), Power(p, r), n);
      LowerPower(p, q, r - 1, n);
    }
  }

  lemma {:induction false} PowerCancels(p: nat, q: nat, b: nat, x: nat)
    requires p > 0 && Coprime(p, b) && Divides(Power(p, q), Mul(b, x))
    ensures Divides(Power(p, q), x)
    decreases q
  {
    hide Mul, Divides, Coprime;
    if q == 0 {
      DividesSelf(x);
    } else {
      var a := Power(p, q - 1);
      MulComm(a, p);
      DividesIntro(p, a, Power(p, q));
      DividesTrans(p, Power(p, q), Mul(b, x));
      CoprimeCancels(p, b, x);
      var y := Cofactor(p, x);
      OneFactorLess(p, a, b, y);
      PowerCancels(p, q - 1, b, y);
      TimesBoth(p, a, y);
    }
  }

  ghost function Cofactor(p: nat, x: nat): (y: nat)
    requires Divides(p, x)
    ensures Mul(p, y) == x
  {
    var y: nat :| Mul(p, y) == x;
    y
  }

  lemma OneFactorLess(p: nat, a: nat, b: nat, y: nat)
    requires p > 0 && Divides(Mul(a, p), Mul(b, Mul(p, y)))
    ensures Divides(a, Mul(b, y))
  {
    hide Mul;
    var c: nat :| Mul(Mul(a, p), c) == Mul(b, Mul(p, y));
    MulComm(a, p);
    MulAssoc(p, a, c);
    MulAssoc(b, p, y);
    MulComm(b, p);
    MulAssoc(p, b, y);
    MulCancel(p, Mul(a, c), Mul(b, y));
    DividesIntro(a, c, Mul(b, y));
  }

  lemma TimesBoth(p: nat, a: nat, y: nat)
    requires Divides(a, y)
    ensures Divides(Mul(a, p), Mul(p, y))
  {
    hide Mul;
    var c: nat :| Mul(a, c) == y;
    MulAssoc(p, a, c);
    MulComm(p, a);
    DividesIntro(Mul(a, p), c, Mul(p, y));
  }

  lemma {:induction false} PowersCancel(p: nat, q: nat, r: nat, b: nat, x: nat)
    requires p > 0 && Coprime(p, r) && Divides(Power(p, q), Mul(Power(r, b), x))
    ensures Divides(Power(p, q), x)
    decreases b
  {
    hide Mul, Divides, Coprime;
    if b == 0 {
      OneMul(x);
    } else {
      MulAssoc(Power(r, b - 1), r, x);
      PowersCancel(p, q, r, b - 1, Mul(r, x));
      PowerCancels(p, q, r, x);
    }
  }

  // ---------- coefficients of a product ----------

  /** Coefficient k of a product: the xor of the products of coefficients whose places add up to k. */
  function Convolution(p: nat, t: nat, k: int): bool
    decreases k
  {
    if k < 0 then false
    else (Bit(p, k) && t % 2 == 1) != Convolution(p, t / 2, k - 1)
  }

  lemma {:induction false} ConvolutionZero(p: nat, k: int)
    ensures !Convolution(p, 0, k)
    decreases k
  {
    if k >= 0 { ConvolutionZero(p, k - 1); }
  }

  lemma {:induction false} ProductCoefficient(p: nat, t: nat, k: nat)
    ensures Bit(Mul(p, t), k) == Convolution(p, t, k)
    decreases k
  {
    hide Xor, Mul;
    var x := if t % 2 == 1 then p else 0;
    var y := Mul(p, t / 2);
    MulStep(p, t);
    BitXor(x, 2 * y, k);
    BitZero(k);
    if k > 0 { ProductCoefficient(p, t / 2, k - 1); }
  }
}
