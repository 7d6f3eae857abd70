/** The one fact about division with a variable divisor that the model needs. */
module Numbers {

  lemma ModuloUnique(q: int, d: int, r: int)
    requires 0 <= r < d
    ensures (q * d + r) % d == r
  {
    var y := q * d + r;
    var q' := y / d;
    assert (q' - q) * d == r - y % d;
    assert q' - q >= 1 ==> (q' - q) * d >= d;
    assert q' - q <= -1 ==> (q' - q) * d + d <= 0;
  }
}
