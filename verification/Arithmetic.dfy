/** Facts about division that the solver does not find by itself. */
module Arithmetic {
  lemma Scale(m: nat, t: int)
    ensures t >= 1 ==> m * t >= m
    ensures t <= 0 ==> m * t <= 0
    ensures t <= -1 ==> m * t + m <= 0
  {
    assert m * t == m * (t - 1) + m;
    assert m * t == m * (t + 1) - m;
  }

  lemma RemainderUnique(x: int, m: nat, r: nat, k: int)
    requires r < m && x == r + m * k
    ensures x % m == r
  {
    var t := x / m - k;
    assert m * t == m * (x / m) - m * k;
    assert m * t == r - x % m;
    Scale(m, t);
  }

  lemma MultipleRemainder(m: nat, q: int)
    requires m > 0
    ensures m * q % m == 0
  {
    RemainderUnique(m * q, m, 0, q);
  }

  /** Rounding down to a multiple is monotone. */
  lemma RoundDownMonotone(m: nat, x: int, y: int)
    requires m > 0 && x <= y
    ensures x - x % m <= y - y % m
  {
    var t := x / m - y / m;
    assert m * t == m * (x / m) - m * (y / m);
    assert m * t == (x - x % m) - (y - y % m);
    Scale(m, t);
  }
}
