/** Quotients and remainders by a variable. */
module Floors {
  lemma MulMonotone(a: int, b: int, c: nat)
    requires a <= b
    ensures a * c <= b * c
  {
  }

  lemma AtMostFloor(elapsed: int, interval: int, n: int)
    requires interval > 0 && n * interval <= elapsed
    ensures n <= elapsed / interval && (n + 1) * interval <= (elapsed / interval + 1) * interval
  {
    var q := elapsed / interval;
    if n > q {
      MulMonotone(q + 1, n, interval);
      assert false;
    }
    MulMonotone(n + 1, q + 1, interval);
  }

  lemma FloorLaw(elapsed: int, interval: int, fired: int)
    requires interval > 0 && fired * interval <= elapsed < (fired + 1) * interval
    ensures fired == elapsed / interval
  {
    var q := elapsed / interval;
    AtMostFloor(elapsed, interval, fired);
    if fired < q {
      MulMonotone(fired + 1, q, interval);
      assert false;
    }
  }

  lemma RemainderOf(q: nat, n: nat, r: nat)
    requires r < n
    ensures (q * n + r) / n == q && (q * n + r) % n == r
  {
    assert (q + 1) * n == q * n + n;
    FloorLaw(q * n + r, n, q);
  }

  lemma WrapNegative(n: int, m: int)
    requires -m <= n < 0
    ensures n % m == n + m
  {
    FloorLaw(n, m, -1);
    assert n == n / m * m + n % m;
  }
}
