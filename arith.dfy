/**
 * Exact Euclidean division, used to show that the shifts and masks of the
 * codec's accumulators pick out the fields the model works with.
 */
module Base64Arith {

  /** Euclidean division of `q * d + r` by `d` when `r` is a remainder. */
  lemma DivideExactly(q: int, r: int, d: int)
    requires d > 0 && 0 <= r < d
    ensures (q * d + r) / d == q && (q * d + r) % d == r
  {
    var n := q * d + r;
    var q', r' := n / d, n % d;
    assert (q - q') * d == r' - r;
    if q' != q {
      var a := if q' < q then q - q' else q' - q;
      AtLeastOnce(a, d);
    }
  }

  lemma AtLeastOnce(a: int, d: int)
    requires a >= 1 && d > 0
    ensures a * d >= d
  {
    assert a * d == (a - 1) * d + d;
  }
}
