/** Facts about Euclidean division by a positive number, for the index arithmetic of the plot and chunk helpers. */
module Arith {

  /** A positive multiple of `step` is at least `step`. */
  lemma MultipleAtLeast(a: int, step: nat)
    requires a >= 1
    ensures a * step >= step
  {
    assert a * step == (a - 1) * step + step;
  }

  /** The quotient is the only `q` that leaves a remainder in `[0, size)`. */
  lemma DivUnique(x: int, q: int, size: nat, r: int)
    requires 0 <= r < size && x == q * size + r
    ensures x / size == q
  {
    var q', r' := x / size, x % size;
    assert x == q' * size + r';
    if q' < q {
      MultipleAtLeast(q - q', size);
    } else if q' > q {
      MultipleAtLeast(q' - q, size);
    }
  }
}
