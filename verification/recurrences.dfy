/** Linear recurring bit sequences: a polynomial acts on a sequence by xor of shifted copies, and the
    polynomials that annihilate a sequence form an ideal. */
module Recurrences {
  import opened Bits
  import opened Gf2

  /** The xor of s(u + k) over the coefficients k of a. */
  function Act(a: nat, s: nat -> bool, u: nat): bool
    decreases a
  {
    if a == 0 then false else (a % 2 == 1 && s(u)) != Act(a / 2, s, u + 1)
  }

  ghost predicate Annihilates(a: nat, s: nat -> bool) {
    forall u: nat :: !Act(a, s, u)
  }

  lemma ActStep(a: nat, s: nat -> bool, u: nat)
    ensures Act(a, s, u) == ((a % 2 == 1 && s(u)) != Act(a / 2, s, u + 1))
  {
  }

  lemma ActOne(s: nat -> bool, u: nat)
    ensures Act(1, s, u) == s(u)
  {
    assert !Act(0, s, u + 1);
  }

  lemma ActTwice(a: nat, s: nat -> bool, u: nat)
    ensures Act(2 * a, s, u) == Act(a, s, u + 1)
  {
  }

  lemma {:induction false} ActXor(a: nat, b: nat, s: nat -> bool, u: nat)
    ensures Act(Xor(a, b), s, u) == (Act(a, s, u) != Act(b, s, u))
    decreases a + b
  {
    if a + b == 0 {
      XorZero(0);
    } else {
      hide Act, Xor;
      XorHalf(a, b);
      ActStep(a, s, u);
      ActStep(b, s, u);
      ActStep(Xor(a, b), s, u);
      ActXor(a / 2, b / 2, s, u + 1);
    }
  }

  /** The product acts one factor after the other. */
  lemma {:induction false} ActMul(a: nat, b: nat, s: nat -> bool, t: nat -> bool, u: nat)
    requires forall n: nat :: t(n) == Act(a, s, n)
    ensures Act(Mul(a, b), s, u) == Act(b, t, u)
    decreases b
  {
    if b > 0 {
      hide Act, Xor;
      var p := if b % 2 == 1 then a else 0;
      ActXor(p, 2 * Mul(a, b / 2), s, u);
      ActTwice(Mul(a, b / 2), s, u);
      ActMul(a, b / 2, s, t, u + 1);
      ActStep(b, t, u);
      ActStep(0, s, u);
      ActZero(s, u);
    } else {
      ActZero(s, u);
      ActZero(t, u);
    }
  }

  lemma ActZero(s: nat -> bool, u: nat)
    ensures !Act(0, s, u)
  {
  }

  lemma {:induction false} ActOnZero(a: nat, s: nat -> bool, u: nat)
    requires forall n: nat :: !s(n)
    ensures !Act(a, s, u)
    decreases a
  {
    if a > 0 { ActOnZero(a / 2, s, u + 1); }
  }

  /** Sequences that agree from u on for Deg(a) + 1 terms look the same to a. */
  lemma {:induction false} ActLocal(a: nat, s: nat -> bool, t: nat -> bool, u: nat)
    requires forall n: nat :: u <= n <= u + Deg(a) ==> s(n) == t(n)
    ensures Act(a, s, u) == Act(a, t, u)
    decreases a
  {
    if a > 0 {
      if a > 1 {
        ActLocal(a / 2, s, t, u + 1);
      } else {
        ActZero(s, u + 1);
        ActZero(t, u + 1);
      }
    }
  }

  /** If the terms below the leading one vanish, the action is the leading term. */
  lemma {:induction false} ActLeading(a: nat, s: nat -> bool, u: nat)
    requires a > 0
    requires forall n: nat :: u <= n < u + Deg(a) ==> !s(n)
    ensures Act(a, s, u) == s(u + Deg(a))
    decreases a
  {
    if a == 1 {
      ActOne(s, u);
    } else {
      assert Deg(a) >= 1;
      ActLeading(a / 2, s, u + 1);
    }
  }

  lemma ActPow2(k: nat, s: nat -> bool, u: nat)
    ensures Act(Pow2(k), s, u) == s(u + k)
    decreases k
  {
    if k == 0 {
      ActOne(s, u);
    } else {
      ActTwice(Pow2(k - 1), s, u);
      ActPow2(k - 1, s, u + 1);
    }
  }

  /** A recurrence of order e is determined by its first e terms; zero ones give the zero sequence. */
  lemma {:induction false} ZeroStart(p: nat, s: nat -> bool, n: nat)
    requires p > 0 && Annihilates(p, s)
    requires forall u: nat :: u < Deg(p) ==> !s(u)
    ensures !s(n)
    decreases n
  {
    if n >= Deg(p) {
      var u := n - Deg(p);
      forall k: nat | u <= k < u + Deg(p) ensures !s(k) { ZeroStart(p, s, k); }
      ActLeading(p, s, u);
      assert !Act(p, s, u);
    }
  }

  /** A polynomial that acts to zero on the first e places of a sequence annihilated by p of degree e
      acts to zero everywhere. */
  lemma ZeroOnStart(p: nat, a: nat, s: nat -> bool, n: nat)
    requires p > 0 && Annihilates(p, s)
    requires forall u: nat :: u < Deg(p) ==> !Act(a, s, u)
    ensures !Act(a, s, n)
  {
    hide Act;
    var t := (k: nat) => Act(a, s, k);
    var z := (k: nat) => Act(p, s, k);
    forall u: nat ensures !Act(p, t, u) {
      ActMul(a, p, s, t, u);
      ActMul(p, a, s, z, u);
      MulComm(a, p);
      ActOnZero(a, z, u);
    }
    ZeroStart(p, t, n);
  }

  /** A nonzero sequence annihilated by an irreducible p is annihilated by multiples of p only. */
  lemma AnnihilatorIsMultiple(p: nat, a: nat, s: nat -> bool, n: nat)
    requires Irreducible(p) && Annihilates(p, s) && Annihilates(a, s) && s(n)
    ensures Divides(p, a)
  {
    hide Irreducible, Divides, Act, Annihilates;
    var I := (x: nat) => Annihilates(x, s);
    forall x: nat, y: nat | I(x) && I(y) ensures I(Xor(x, y)) { AnnihilatesXor(x, y, s); }
    forall x: nat, q: nat | I(x) ensures I(Mul(x, q)) { AnnihilatesMul(x, q, s); }
    NotByOne(s, n);
    MaximalIdeal(I, p, a);
  }

  lemma AnnihilatesXor(x: nat, y: nat, s: nat -> bool)
    requires Annihilates(x, s) && Annihilates(y, s)
    ensures Annihilates(Xor(x, y), s)
  {
    forall u: nat ensures !Act(Xor(x, y), s, u) { ActXor(x, y, s, u); }
  }

  lemma AnnihilatesMul(x: nat, q: nat, s: nat -> bool)
    requires Annihilates(x, s)
    ensures Annihilates(Mul(x, q), s)
  {
    hide Act;
    var t := (k: nat) => Act(x, s, k);
    forall u: nat ensures !Act(Mul(x, q), s, u) {
      ActMul(x, q, s, t, u);
      ActOnZero(q, t, u);
    }
  }

  lemma NotByOne(s: nat -> bool, n: nat)
    requires s(n)
    ensures !Annihilates(1, s)
  {
    ActOne(s, n);
  }

  // ---------- the sequences of the table ----------

  /** Term i of the sequence for b of degree m: zeros up to start, ones up to m, then the recurrence
      v[i] = v[i-1] b[1] ^ .. ^ v[i-m] b[m], where b[t] is the coefficient of x^(m-t). */
  function Term(b: nat, start: nat, i: nat): bool
    decreases i, Deg(b) + 1
  {
    if i < start then false
    else if i < Deg(b) then true
    else Feed(b, start, i, Deg(b))
  }

  /** The first t terms of that xor. */
  function Feed(b: nat, start: nat, i: nat, t: nat): bool
    requires t <= Deg(b) <= i
    decreases i, t
  {
    if t == 0 then false
    else Feed(b, start, i, t - 1) != (Term(b, start, i - t) && Bit(b, Deg(b) - t))
  }

  lemma LowStep(b: nat, k: nat)
    ensures Low(b, k + 1) == Xor(Low(b, k), if Bit(b, k) then Pow2(k) else 0)
  {
    hide Xor, Low, Bit, Pow2;
    var y := if Bit(b, k) then Pow2(k) else 0;
    var r := Xor(Low(b, k), y);
    forall i: nat ensures Bit(Low(b, k + 1), i) == Bit(r, i) {
      BitLow(b, k + 1, i);
      BitLow(b, k, i);
      BitXor(Low(b, k), y, i);
      BitPow2(k, i);
      BitZero(i);
    }
    EqualBits(Low(b, k + 1), r);
  }

  /** The action of b splits into the fed-back terms and the lower coefficients. */
  lemma {:induction false} FeedIsAct(b: nat, start: nat, i: nat, t: nat, s: nat -> bool)
    requires b > 0 && t <= Deg(b) <= i
    requires forall n: nat :: s(n) == Term(b, start, n)
    ensures var m := Deg(b);
            Act(b, s, i - m) == ((s(i) != Feed(b, start, i, t)) != Act(Low(b, m - t), s, i - m))
    decreases t
  {
    hide Act, Xor, Low, Term, Bit, Pow2;
    var m := Deg(b);
    var u := i - m;
    if t == 0 {
      DegBounds(b);
      LowSmall(b, m + 1);
      LowStep(b, m);
      ActXor(Low(b, m), Pow2(m), s, u);
      ActPow2(m, s, u);
    } else {
      FeedIsAct(b, start, i, t - 1, s);
      var k := m - t;
      LowStep(b, k);
      var y := if Bit(b, k) then Pow2(k) else 0;
      ActXor(Low(b, k), y, s, u);
      ActPow2(k, s, u);
      ActZero(s, u);
    }
  }

  /** The sequence for b is annihilated by b. */
  lemma TermsAnnihilated(b: nat, start: nat, s: nat -> bool)
    requires b > 0 && start <= Deg(b)
    requires forall n: nat :: s(n) == Term(b, start, n)
    ensures Annihilates(b, s)
  {
    hide Act, Feed;
    forall u: nat ensures !Act(b, s, u) {
      var i := u + Deg(b);
      FeedIsAct(b, start, i, Deg(b), s);
      assert Low(b, 0) == 0;
      ActZero(s, u);
    }
  }

  lemma {:induction false} ActSum(a: nat, s: nat -> bool, t: nat -> bool, r: nat -> bool, u: nat)
    requires forall n: nat :: r(n) == (s(n) != t(n))
    ensures Act(a, r, u) == (Act(a, s, u) != Act(a, t, u))
    decreases a
  {
    if a > 0 { ActSum(a / 2, s, t, r, u + 1); }
  }

  /** It is the one sequence with zeros up to start, ones up to the degree, and b acting to zero everywhere. */
  lemma TermIsUnique(b: nat, start: nat, s: nat -> bool, n: nat)
    requires b > 0 && start <= Deg(b) && Annihilates(b, s)
    requires forall k: nat :: k < start ==> !s(k)
    requires forall k: nat :: start <= k < Deg(b) ==> s(k)
    ensures s(n) == Term(b, start, n)
  {
    hide Act, Feed;
    var t := (k: nat) => Term(b, start, k);
    var r := (k: nat) => s(k) != t(k);
    TermsAnnihilated(b, start, t);
    forall u: nat ensures !Act(b, r, u) {
      ActSum(b, s, t, r, u);
      assert !Act(b, s, u) && !Act(b, t, u);
    }
    ZeroStart(b, r, n);
    assert !r(n);
  }

  /** The table sequence for the q-th power of p (q counted from one). */
  function PowerTerm(p: nat, q: nat, i: nat): bool
    requires q > 0
  {
    Term(Power(p, q), Deg(Power(p, q - 1)), i)
  }

  /** Applying the (q-1)-st power to it leaves a nonzero sequence annihilated by p. */
  lemma PowerTermRemnant(p: nat, q: nat, s: nat -> bool, w: nat -> bool)
    requires p > 1 && q > 0
    requires forall n: nat :: s(n) == PowerTerm(p, q, n)
    requires forall n: nat :: w(n) == Act(Power(p, q - 1), s, n)
    ensures Annihilates(p, w) && w(0)
  {
    hide Act, Term;
    var a, b := Power(p, q - 1), Power(p, q);
    DegPower(p, q - 1);
    DegPower(p, q);
    DegMul(a, p);
    TermsAnnihilated(b, Deg(a), s);
    forall u: nat ensures !Act(p, w, u) {
      ActMul(a, p, s, w, u);
      assert !Act(b, s, u);
    }
    assert Deg(p) > 0;
    assert Deg(b) > Deg(a) by { DegMul(a, p); }
    FirstTerms(b, Deg(a));
    ActLeading(a, s, 0);
  }

  lemma FirstTerms(b: nat, start: nat)
    requires start < Deg(b)
    ensures Term(b, start, start) && forall n: nat :: n < start ==> !Term(b, start, n)
  {
  }
}
