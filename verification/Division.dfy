/** Division by numbers that are not constants. */
module Division {

  lemma Multiple(m: int, d: int)
    requires m > 0
    ensures d > 0 ==> m * d >= m
    ensures d < 0 ==> m * d <= -m
  {
  }

  /** A quotient and a remainder are the only ones. */
  lemma DivisionIsUnique(x: int, m: int, q: int, r: int)
    requires 0 <= r < m && x == m * q + r
    ensures x / m == q && x % m == r
  {
    var d := q - x / m;
    assert m * d == x % m - r by {
      assert x == m * (x / m) + x % m;
      assert m * d == m * q - m * (x / m);
    }
    Multiple(m, d);
  }

  lemma Monotone(a: nat, b: nat, m: nat)
    requires m > 0 && a <= b
    ensures a / m <= b / m
  {
    var d := a / m - b / m;
    assert a == m * (a / m) + a % m && b == m * (b / m) + b % m;
    assert m * (a / m) == m * (b / m) + m * d;
    Multiple(m, d);
  }

  lemma ModOfSum(x: nat, y: nat, m: nat)
    requires m > 0
    ensures (x + y % m) % m == (x + y) % m
  {
    var z := x + y % m;
    var q, r := z / m, z % m;
    assert z == m * q + r && y == m * (y / m) + y % m;
    assert x + y == m * (q + y / m) + r by {
      assert m * (q + y / m) == m * q + m * (y / m);
    }
    DivisionIsUnique(x + y, m, q + y / m, r);
  }
}
