/** Facts about Euclidean division used by the carousel proofs. */
module Arith {

  lemma MulBounded(m: int, t: int)
    requires t > 0 && -t < m * t < t
    ensures m == 0
  {
  }

  /** A quotient-remainder split with the remainder in range is the one `%` gives. */
  lemma ModUnique(a: int, t: int, q: int, r: int)
    requires t > 0 && 0 <= r < t && a == q * t + r
    ensures a % t == r
  {
    var q', r' := a / t, a % t;
    assert a == q' * t + r';
    assert (q - q') * t == r' - r;
    MulBounded(q - q', t);
  }

  /** A whole number of turns leaves no remainder. */
  lemma ModTurns(t: int)
    requires t > 0
    ensures 0 % t == 0 && t % t == 0 && (-t) % t == 0
  {
  }

  /** A value already in range is its own remainder. */
  lemma ModShift(a: int, t: int)
    requires t > 0
    ensures 0 <= a < t ==> a % t == a
    ensures -t <= a < 0 ==> a % t == a + t
    ensures t <= a < 2 * t ==> a % t == a - t
  {
  }

  /** Adding one to a value adds one to its remainder, wrapping at `t`. */
  lemma ModStep(a: int, t: int)
    requires t > 0
    ensures (a + 1) % t == if a % t == t - 1 then 0 else a % t + 1
  {
    if a % t == t - 1 {
      ModUnique(a + 1, t, a / t + 1, 0);
    } else {
      ModUnique(a + 1, t, a / t, a % t + 1);
    }
  }
}
