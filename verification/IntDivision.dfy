/** Remainders of whole numbers by a positive divisor. */
module IntDivision {

  lemma MultipleIsFar(d: int, n: int)
    requires n >= 0
    ensures d >= 1 ==> d * n >= n
    ensures d <= -1 ==> d * n <= -n
  {
    if d >= 1 { assert (d - 1) * n >= 0; }
    if d <= -1 { assert (-1 - d) * n >= 0; }
  }

  /** Whole multiples of the divisor do not change the remainder. */
  lemma AddTurns(c: int, turns: int, n: nat)
    requires 0 <= c < n
    ensures (c + turns * n) % n == c
  {
    var value := c + turns * n;
    var q, r := value / n, value % n;
    assert (q - turns) * n == c - r;
    MultipleIsFar(q - turns, n);
  }
}
