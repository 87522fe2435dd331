// Facts about division and scaling that the solver does not find by itself.
module Arithmetic {

  lemma NonZeroMultiple(a: int, d: int)
    requires a > 0
    ensures d == 0 || a * d >= a || a * d <= -a
  {
  }

  lemma DivMod(d: nat, q: nat, r: nat)
    requires r < d
    ensures (d * q + r) / d == q && (d * q + r) % d == r
  {
    var x := d * q + r;
    assert x == d * (x / d) + x % d;
    NonZeroMultiple(d, q - x / d);
    assert d * (q - x / d) == x % d - r;
  }

  lemma ScaleOrder(a: real, b: real, s: real)
    requires s > 0.0
    ensures a <= b <==> a * s <= b * s
    ensures a < b <==> a * s < b * s
  {
  }
}
