// Division by a positive number.
module Division {

  // There is only one quotient and one remainder.
  lemma DivIs(x: int, d: int, q: int, b: int)
    requires 0 <= b < d && x == d * q + b
    ensures x / d == q && x % d == b
  {
    var more := x / d - q;
    assert x == d * (x / d) + x % d;
    assert d * (x / d) - d * q == d * more;
    NoMultiple(d, more);
  }

  lemma NoMultiple(d: int, q: int)
    requires -d < d * q < d
    ensures q == 0
  {
  }

  lemma AddMultiple(x: int, d: int, q: int)
    requires d > 0
    ensures (x + d * q) / d == x / d + q
  {
    var a, b := x / d, x % d;
    assert x == d * a + b;
    assert d * (a + q) == d * a + d * q;
    DivIs(x + d * q, d, a + q, b);
  }

  lemma SameRemainder(x: int, d: int, q: int)
    requires d > 0
    ensures (x + d * q) % d == x % d
  {
    AddMultiple(x, d, q);
    assert d * (x / d + q) == d * (x / d) + d * q;
  }
}
