/** Quotients and remainders by their defining equation. */
module Division {
  lemma Remainder(x: int, d: nat, q: int, r: int)
    requires d > 0 && x == q * d + r && 0 <= r < d
    ensures x % d == r && x / d == q
  {
    var k := q - x / d;
    assert k * d == x % d - r;
    assert k > 0 ==> k * d >= d;
    assert k < 0 ==> k * d <= -1 * d;
  }
}
