/** A bounded hls::stream together with its history: everything ever written to it and how much of
    that has been read. The words waiting in the FIFO are written[taken..]. */
module Fifos {

  datatype Fifo<T> = Fifo(written: seq<T>, taken: nat) {

    ghost predicate Within(depth: nat) {
      taken <= |written| <= taken + depth
    }

    predicate Empty() {
      |written| <= taken
    }

    predicate Full(depth: nat) {
      taken + depth <= |written|
    }

    function Head(): T
      requires !Empty()
    {
      written[taken]
    }

    function Read(): Fifo<T>
      requires !Empty()
    {
      this.(taken := taken + 1)
    }

    function Write(x: T): Fifo<T> {
      this.(written := written + [x])
    }
  }

  const NO_DATA: Fifo<nat> := Fifo([], 0)

  function Sum(w: seq<nat>): nat {
    if w == [] then 0 else Sum(w[..|w| - 1]) + w[|w| - 1]
  }

  lemma SumAppend(w: seq<nat>, x: nat)
    ensures Sum(w + [x]) == Sum(w) + x
  {
    assert (w + [x])[..|w|] == w;
  }

  lemma SumTake(w: seq<nat>, k: nat)
    requires k < |w|
    ensures Sum(w[..k + 1]) == Sum(w[..k]) + w[k]
  {
    assert w[..k + 1][..k] == w[..k];
  }

  lemma {:induction false} SumConcat(v: seq<nat>, w: seq<nat>)
    ensures Sum(v + w) == Sum(v) + Sum(w)
    decreases |w|
  {
    if w == [] {
      assert v + w == v;
    } else {
      var n := |w| - 1;
      assert v + w == (v + w[..n]) + [w[n]];
      SumAppend(v + w[..n], w[n]);
      SumConcat(v, w[..n]);
    }
  }
}
