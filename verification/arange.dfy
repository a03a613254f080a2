// The length of numpy's arange over real bounds.

module Arange {
  import opened Planar

  // How many values np.arange(lo, hi, step) has.
  function ArangeLength(lo: real, hi: real, step: real): nat
    requires step > 0.0
  {
    var c := -((-((hi - lo) / step)).Floor);
    if c > 0 then c else 0
  }

  lemma ArangeCovers(lo: real, hi: real, step: real, j: nat)
    requires step > 0.0
    ensures j < ArangeLength(lo, hi, step) <==> lo + j as real * step < hi
  {
    var q := (hi - lo) / step;
    assert q * step == hi - lo;
    if j < ArangeLength(lo, hi, step) {
      SignOfProduct(j as real - q, step);
      assert (j as real - q) * step == j as real * step - (hi - lo);
    } else {
      ProductSign(j as real - q, step);
      assert (j as real - q) * step == j as real * step - (hi - lo);
    }
  }
}
