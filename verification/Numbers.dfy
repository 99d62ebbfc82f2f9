/** The limits of C's unsigned integers. */
module Numbers {
  const TWO_32: nat := 0x1_0000_0000
  const U32_MAX: nat := 0xFFFF_FFFF
  const TWO_64: nat := 0x1_0000_0000_0000_0000
  const U64_MAX: nat := 0xFFFF_FFFF_FFFF_FFFF

  lemma MulNonNegative(a: int, b: int)
    requires a >= 0 && b >= 0
    ensures a * b >= 0
  {
  }

  lemma QuotientUnique(x: int, d: int, q: int)
    requires d > 0 && q * d <= x < q * d + d
    ensures x / d == q
  {
    var e := x / d - q;
    assert x == (x / d) * d + x % d;
    assert e * d == x - x % d - q * d;
    if e >= 1 { MulNonNegative(e - 1, d); }
    if e <= -1 { MulNonNegative(-e - 1, d); }
  }
}
