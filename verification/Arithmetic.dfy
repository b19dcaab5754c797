/** Facts about the integers that several components use. */
module Arithmetic {

  function Max(x: int, y: int): int { if x < y then y else x }

  function Min(x: int, y: int): int { if x < y then x else y }

  lemma Distribute(k: int, m: int)
    ensures (k + 1) * m == k * m + m
  {}

  /** The quotient is fixed by the multiple of `l` below x. */
  lemma FloorIs(x: int, l: int, q: int)
    requires l > 0 && q * l <= x < q * l + l
    ensures x / l == q
  {
    var d := x / l - q;
    assert x == (x / l) * l + x % l;
    assert d * l == x - x % l - q * l;
    assert d > 0 ==> d * l >= l;
    assert d < 0 ==> d * l <= -l;
  }

  lemma FloorShift(x: int, l: int)
    requires l > 0
    ensures (x - l) / l == x / l - 1
  {
    FloorIs(x - l, l, x / l - 1);
  }

  lemma FloorMonotone(x: int, y: int, l: int)
    requires l > 0 && x <= y
    ensures x / l <= y / l
  {
    var d := x / l - y / l;
    assert x == (x / l) * l + x % l && y == (y / l) * l + y % l;
    assert d * l == x - x % l - (y - y % l);
    assert d > 0 ==> d * l >= l;
  }

  lemma ModOf(n: nat, q: nat, r: nat)
    requires r < n
    ensures (q * n + r) % n == r
  {
    FloorIs(q * n + r, n, q);
  }
}
