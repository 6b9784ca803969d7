/** Several words of given widths put one after the other into one word. */
module Words {
  import opened Bits

  // ---------- widths ----------

  /** The sum of the first j numbers. */
  function Total(k: seq<nat>, j: nat): nat
    requires j <= |k|
  {
    if j == 0 then 0 else Total(k, j - 1) + k[j - 1]
  }

  lemma {:induction false} PartOfTotal(k: seq<nat>, i: nat, j: nat)
    requires i < j <= |k|
    ensures k[i] <= Total(k, j)
    decreases j
  {
    if i < j - 1 { PartOfTotal(k, i, j - 1); }
  }

  lemma {:induction false} TwoOfTotal(k: seq<nat>, i: nat, j: nat, n: nat)
    requires i < j < n <= |k|
    ensures k[i] + k[j] <= Total(k, n)
    decreases n
  {
    if j < n - 1 { TwoOfTotal(k, i, j, n - 1); } else { PartOfTotal(k, i, j); }
  }

  lemma TotalOfThree(k: seq<nat>)
    requires |k| == 3
    ensures Total(k, 3) == k[0] + k[1] + k[2]
  {
    assert Total(k, 1) == k[0] && Total(k, 2) == k[0] + k[1];
  }

  function Spare(wide: seq<nat>, rows: seq<nat>): (r: seq<nat>)
    requires |wide| == |rows| && forall i: nat :: i < |wide| ==> rows[i] <= wide[i]
    ensures |r| == |wide|
  {
    seq(|wide|, i requires 0 <= i < |wide| => wide[i] - rows[i])
  }

  lemma {:induction false} SpareTotal(wide: seq<nat>, rows: seq<nat>, j: nat)
    requires j <= |wide| == |rows| && forall i: nat :: i < |wide| ==> rows[i] <= wide[i]
    ensures Total(rows, j) + Total(Spare(wide, rows), j) == Total(wide, j)
    decreases j
  {
    if j > 0 { SpareTotal(wide, rows, j - 1); }
  }

  // ---------- joined words ----------

  /** The first j words, of widths k, one after the other. */
  function Joined(x: seq<nat>, k: seq<nat>, j: nat): nat
    requires j <= |x| == |k|
  {
    if j == 0 then 0 else Xor(Shl(Joined(x, k, j - 1), k[j - 1]), x[j - 1])
  }

  lemma {:induction false} JoinedXor(x: seq<nat>, y: seq<nat>, z: seq<nat>, k: seq<nat>, j: nat)
    requires j <= |x| == |y| == |z| == |k| && forall i: nat :: i < |x| ==> z[i] == Xor(x[i], y[i])
    ensures Joined(z, k, j) == Xor(Joined(x, k, j), Joined(y, k, j))
    decreases j
  {
    hide Xor, Shl;
    if j == 0 {
      XorZero(0);
    } else {
      JoinedXor(x, y, z, k, j - 1);
      JoinXor(Joined(x, k, j - 1), x[j - 1], Joined(y, k, j - 1), y[j - 1], k[j - 1]);
    }
  }

  lemma JoinXor(a: nat, x: nat, b: nat, y: nat, k: nat)
    ensures Xor(Shl(Xor(a, b), k), Xor(x, y)) == Xor(Xor(Shl(a, k), x), Xor(Shl(b, k), y))
  {
    hide Xor, Shl;
    XorShl(a, b, k);
    XorSwap(Shl(a, k), Shl(b, k), x, y);
  }

  lemma JoinBound(a: nat, x: nat, k: nat, w: nat)
    requires a < Pow2(w) && x < Pow2(k)
    ensures Xor(Shl(a, k), x) < Pow2(w + k)
  {
    hide Xor, Shl, Pow2;
    ShlBound(a, k, w);
    Pow2Mono(k, w + k);
    XorBound(Shl(a, k), x, w + k);
  }

  lemma {:induction false} JoinedBound(x: seq<nat>, k: seq<nat>, j: nat)
    requires j <= |x| == |k| && forall i: nat :: i < |x| ==> x[i] < Pow2(k[i])
    ensures Joined(x, k, j) < Pow2(Total(k, j))
    decreases j
  {
    hide Xor, Shl;
    if j > 0 {
      hide Pow2;
      JoinedBound(x, k, j - 1);
      JoinBound(Joined(x, k, j - 1), x[j - 1], k[j - 1], Total(k, j - 1));
    }
  }

  /** The two parts can be read off. */
  lemma JoinParts(a: nat, x: nat, k: nat)
    requires x < Pow2(k)
    ensures Shr(Xor(Shl(a, k), x), k) == a && Low(Xor(Shl(a, k), x), k) == x
  {
    hide Xor, Shr, Shl, Low, Pow2;
    ShlIsTimes(a, k);
    JoinAt(a, 0, k);
    JoinAt(0, x, k);
    XorShr(Shl(a, k), x, k);
    XorLow(Shl(a, k), x, k);
    XorZero(a);
    XorZero(x);
  }

  lemma {:induction false} JoinedSame(x: seq<nat>, y: seq<nat>, k: seq<nat>, j: nat)
    requires j <= |x| == |y| == |k|
    requires forall i: nat :: i < |x| ==> x[i] < Pow2(k[i]) && y[i] < Pow2(k[i])
    ensures Joined(x, k, j) == Joined(y, k, j) <==> forall i: nat :: i < j ==> x[i] == y[i]
    decreases j
  {
    hide Xor, Shl, Shr, Low, Pow2;
    if j > 0 {
      JoinedSame(x, y, k, j - 1);
      JoinParts(Joined(x, k, j - 1), x[j - 1], k[j - 1]);
      JoinParts(Joined(y, k, j - 1), y[j - 1], k[j - 1]);
    }
  }

  lemma {:induction false} JoinedZero(x: seq<nat>, k: seq<nat>, j: nat)
    requires j <= |x| == |k| && Joined(x, k, j) == 0
    requires forall i: nat :: i < |x| ==> x[i] < Pow2(k[i])
    ensures forall i: nat :: i < j ==> x[i] == 0
    decreases j
  {
    hide Xor, Shl, Shr, Low, Pow2;
    if j > 0 {
      JoinParts(Joined(x, k, j - 1), x[j - 1], k[j - 1]);
      ZeroWord(k[j - 1]);
      JoinedZero(x, k, j - 1);
    }
  }

  lemma ZeroWord(k: nat)
    ensures Shr(0, k) == 0 && Low(0, k) == 0
  {
    JoinAt(0, 0, k);
  }
}
