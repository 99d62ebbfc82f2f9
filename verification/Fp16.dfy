/** common/fp16.c: amounts squeezed into a 5-bit exponent and an 11-bit mantissa, and the
    capacity test of common/gossmap.c that relies on them. */
module Fp16 {
  import opened Numbers
  import opened Words

  type Fp = f: int | 0 <= f < 0x1_0000

  /** fp16_to_u64. */
  function Value(f: Fp): nat {
    (f % 2048) * Pow2(f / 2048)
  }

  /** The largest representable amount, 2047 * 2^31. */
  const CAP: nat := 2047 * 0x8000_0000

  /** bitops_hs64: the number of the highest one-bit. */
  function HighBit(v: nat): (b: nat)
    requires v > 0
    ensures Pow2(b) <= v < 2 * Pow2(b)
  {
    if v == 1 then 0 else 1 + HighBit(v / 2)
  }

  /** u64_to_fp16. */
  function FromU64(val: nat, roundUp: bool): Fp
    requires val <= U64_MAX
  {
    if val == 0 then 0
    else
      var bits := HighBit(val) + 1;
      if bits <= 11 then SmallFits(val); val
      else
        var e := bits - 11;
        var m := val / Pow2(e);
        MantissaFits(val, e);
        if roundUp && val % Pow2(e) != 0 then
          if m + 1 == 2048 then Pack(1024, e + 1) else Pack(m + 1, e)
        else Pack(m, e)
  }

  /** Mantissa and exponent in one word; an exponent of more than 5 bits makes it the maximum. */
  function Pack(m: nat, e: nat): (f: Fp)
    requires m < 2048
  {
    if e >= 32 then 31 * 2048 + 2047 else e * 2048 + m
  }

  lemma SmallFits(val: nat)
    requires val > 0 && HighBit(val) < 11
    ensures val < 2048
  {
    Pow2Monotone(HighBit(val), 10);
    assert Pow2(10) == 1024;
  }

  lemma MantissaFits(val: nat, e: nat)
    requires val > 0 && e == HighBit(val) - 10 && e >= 0
    ensures 1024 <= val / Pow2(e) < 2048
    ensures val == (val / Pow2(e)) * Pow2(e) + val % Pow2(e)
  {
    var p, b := Pow2(e), HighBit(val);
    assert Pow2(b) == 1024 * p by {
      Pow2Add(10, e);
      Pow2At10();
      hide HighBit, Pow2;
    }
    hide HighBit, Pow2;
    DivBounds(val, p, 1024, 2048);
  }

  lemma Pow2At10()
    ensures Pow2(10) == 1024
  {
  }

  lemma DivBounds(v: nat, p: nat, lo: nat, hi: nat)
    requires p > 0 && lo * p <= v < hi * p
    ensures lo <= v / p < hi && v == (v / p) * p + v % p
  {
    var q := v / p;
    assert v == q * p + v % p;
    if q < lo { Products(q + 1, lo, p, p); }
    if q >= hi { Products(hi, q, p, p); }
  }

  lemma Pow2At31()
    ensures Pow2(31) == 0x8000_0000
  {
    Pow2At30();
  }

  /** Packing and unpacking. */
  lemma PackedValue(m: nat, e: nat)
    requires m < 2048 && e < 32
    ensures Value(Pack(m, e)) == m * Pow2(e)
  {
    var f := Pack(m, e);
    assert f == e * 2048 + m;
    hide *;
    assert f % 2048 == m && f / 2048 == e;
  }

  lemma AtMostCap(f: Fp)
    ensures Value(f) <= CAP && Value(0xFFFF) == CAP
  {
    Pow2At31();
    hide Pow2;
    assert 0xFFFF % 2048 == 2047 && 0xFFFF / 2048 == 31;
    Pow2Monotone(f / 2048, 31);
    Products(f % 2048, 2047, Pow2(f / 2048), Pow2(31));
  }

  lemma ZeroIsZero()
    ensures Value(0) == 0
  {
  }

  lemma Products(a: nat, b: nat, c: nat, d: nat)
    requires a <= b && c <= d
    ensures a * c <= b * d
  {
    assert a * c <= b * c <= b * d;
  }

  /** No representable value lies strictly between consecutive multiples of 2^e at or above
      1024 * 2^e. */
  lemma NoneBetween(m: nat, e: nat, f: Fp)
    requires m >= 1024
    ensures Value(f) <= m * Pow2(e) || (m + 1) * Pow2(e) <= Value(f)
  {
    var m', e' := f % 2048, f / 2048;
    if e' >= e {
      Pow2Add(e' - e, e);
      hide Pow2;
      var q := m' * Pow2(e' - e);
      Regroup(m', Pow2(e' - e), Pow2(e));
      if q <= m { Products(q, m, Pow2(e), Pow2(e)); } else { Products(m + 1, q, Pow2(e), Pow2(e)); }
    } else {
      Pow2Monotone(e' + 1, e);
      assert Pow2(e' + 1) == 2 * Pow2(e');
      hide Pow2;
      HalfProducts(m', m, Pow2(e'), Pow2(e));
    }
  }

  lemma Regroup(a: nat, b: nat, c: nat)
    ensures a * (b * c) == (a * b) * c
  {
  }

  lemma HalfProducts(a: nat, b: nat, c: nat, d: nat)
    requires a <= 2 * b && 2 * c <= d
    ensures a * c <= b * d
  {
    Products(a, 2 * b, c, c);
    Products(b, b, 2 * c, d);
    assert (2 * b) * c == b * (2 * c);
  }

  /** What rounding down computes for a value of more than 11 bits. */
  lemma DownValue(val: nat, e: nat)
    requires val <= U64_MAX && val > 0 && HighBit(val) >= 11 && e == HighBit(val) - 10
    ensures Value(FromU64(val, false)) == if e >= 32 then CAP else (val / Pow2(e)) * Pow2(e)
  {
    hide HighBit, Pow2, Value, FromU64, Pack;
    MantissaFits(val, e);
    var m := val / Pow2(e);
    FromLarge(val, e, m);
    PackSaturates(m, e);
    AtMostCap(0);
    if e < 32 { PackedValue(m, e); }
  }

  lemma FromLarge(val: nat, e: nat, m: nat)
    requires val <= U64_MAX && val > 0 && HighBit(val) >= 11 && e == HighBit(val) - 10
    requires m == val / Pow2(e) < 2048
    ensures FromU64(val, false) == Pack(m, e)
  {
    hide HighBit, Pow2, Pack;
  }

  lemma PackSaturates(m: nat, e: nat)
    requires m < 2048
    ensures e >= 32 ==> Pack(m, e) == 0xFFFF
  {
  }

  /** What rounding up computes. */
  lemma UpValue(val: nat, e: nat)
    requires val <= U64_MAX && val > 0 && HighBit(val) >= 11 && e == HighBit(val) - 10
    ensures e >= 32 ==> FromU64(val, true) == 0xFFFF
    ensures e < 32 && val % Pow2(e) == 0 ==> Value(FromU64(val, true)) == val
    ensures e < 32 && val % Pow2(e) != 0 && (e < 31 || val / Pow2(e) < 2047) ==>
      Value(FromU64(val, true)) == (val / Pow2(e) + 1) * Pow2(e)
    ensures e == 31 && val % Pow2(e) != 0 && val / Pow2(e) == 2047 ==> FromU64(val, true) == 0xFFFF
  {
    hide HighBit;
    MantissaFits(val, e);
    var m, p := val / Pow2(e), Pow2(e);
    assert Pow2(e + 1) == 2 * p;
    assert e >= 32 ==> Pack(m, e) == 0xFFFF && (m < 2047 ==> Pack(m + 1, e) == 0xFFFF);
    assert e >= 31 ==> Pack(1024, e + 1) == 0xFFFF;
    if e < 32 {
      PackedValue(m, e);
      if m < 2047 { PackedValue(m + 1, e); }
      else if e < 31 {
        PackedValue(1024, e + 1);
        assert 1024 * (2 * p) == (m + 1) * p;
      }
    }
    hide Pow2, Value, Pack;
  }

  /** Rounding down gives the greatest representable value not above val. */
  lemma RoundsDown(val: nat, f: Fp)
    requires val <= U64_MAX
    ensures Value(FromU64(val, false)) <= val
    ensures Value(f) <= val ==> Value(f) <= Value(FromU64(val, false))
  {
    if val > 0 && HighBit(val) >= 11 {
      var e := HighBit(val) - 10;
      MantissaFits(val, e);
      DownValue(val, e);
      AtMostCap(f);
      hide *;
      if e >= 32 {
        Products(1024, val / Pow2(e), Pow2(e), Pow2(e));
        BigExceedsCap(val, e);
      } else {
        NoneBetween(val / Pow2(e), e, f);
        AtOrBelow(val, val / Pow2(e), Pow2(e), Value(f));
      }
    } else {
      SmallValue(val);
    }
  }

  lemma AtOrBelow(val: nat, m: nat, p: nat, v: nat)
    requires val < m * p + p && (v <= m * p || (m + 1) * p <= v)
    ensures v <= val ==> v <= m * p
  {
    assert (m + 1) * p == m * p + p;
  }

  lemma SmallValue(val: nat)
    requires val <= U64_MAX && (val > 0 ==> HighBit(val) < 11)
    ensures Value(FromU64(val, false)) == val == Value(FromU64(val, true)) && val <= CAP
  {
    if val > 0 { SmallFits(val); }
    PackedValue(val, 0);
    assert Pack(val, 0) == val;
  }

  lemma BigExceedsCap(val: nat, e: nat)
    requires val >= 1024 * Pow2(e) && e >= 32
    ensures val > CAP
  {
    Pow2At31();
    Pow2Monotone(32, e);
    assert Pow2(32) == 2 * Pow2(31);
  }

  /** Rounding up gives the least representable value not below val, and saturates when
      there is none. */
  lemma RoundsUp(val: nat, f: Fp)
    requires val <= U64_MAX
    ensures val <= CAP ==> val <= Value(FromU64(val, true))
    ensures val <= Value(f) ==> Value(FromU64(val, true)) <= Value(f)
    ensures val > CAP ==> FromU64(val, true) == 0xFFFF
  {
    AtMostCap(f);
    if val > 0 && HighBit(val) >= 11 {
      var e := HighBit(val) - 10;
      MantissaFits(val, e);
      UpValue(val, e);
      hide Value, FromU64;
      if e >= 32 {
        hide Pow2;
        Products(1024, val / Pow2(e), Pow2(e), Pow2(e));
        BigExceedsCap(val, e);
      } else {
        UpBounds(val, e, f);
      }
    } else {
      SmallValue(val);
    }
  }

  lemma UpBounds(val: nat, e: nat, f: Fp)
    requires 1024 <= val / Pow2(e) < 2048 && e < 32 && val == (val / Pow2(e)) * Pow2(e) + val % Pow2(e)
    ensures val % Pow2(e) != 0 && val <= Value(f) ==> (val / Pow2(e) + 1) * Pow2(e) <= Value(f)
    ensures val <= (val / Pow2(e) + 1) * Pow2(e)
    ensures val > CAP ==> e == 31 && val / Pow2(e) == 2047 && val % Pow2(e) != 0
    ensures val <= CAP && e == 31 && val / Pow2(e) == 2047 ==> val % Pow2(e) == 0
  {
    var p, m := Pow2(e), val / Pow2(e);
    NoneBetween(m, e, f);
    Pow2At31();
    Pow2Monotone(e, 31);
    assert e < 31 ==> 2 * p <= Pow2(31) by {
      if e < 31 { Pow2Monotone(e + 1, 31); }
    }
    hide Pow2, Value;
    assert (m + 1) * p == m * p + p;
    if e < 31 {
      HalfProducts(m + 1, 1024, p, Pow2(31));
    } else if m < 2047 {
      Products(m + 1, 2047, p, p);
    }
  }

  /** gossmap_chan_capacity on compact limits. */
  predicate Capacity(htlcMin: Fp, htlcMax: Fp, amount: nat) {
    !(amount < Value(htlcMin)) && !(amount > Value(htlcMax))
  }

  /** The compact test passes every amount within the true limits, up to the largest
      representable amount; and it passes no amount that is further off than rounding. */
  lemma CapacityIsConservative(lo: nat, hi: nat, amount: nat)
    requires lo <= U64_MAX && hi <= U64_MAX && amount <= U64_MAX
    ensures lo <= amount <= hi && amount <= CAP ==> Capacity(FromU64(lo, false), FromU64(hi, true), amount)
    ensures Capacity(FromU64(lo, false), FromU64(hi, true), amount) ==> amount <= CAP
    ensures Capacity(FromU64(lo, false), FromU64(hi, true), amount) ==>
      (forall f: Fp :: Value(f) <= lo ==> Value(f) <= amount) && (forall f: Fp :: hi <= Value(f) ==> amount <= Value(f))
  {
    AtMostCap(FromU64(hi, true));
    RoundsDown(lo, 0);
    RoundsUp(hi, 0);
    forall f: Fp ensures Value(f) <= lo ==> Value(f) <= Value(FromU64(lo, false)) { RoundsDown(lo, f); }
    forall f: Fp ensures hi <= Value(f) ==> Value(FromU64(hi, true)) <= Value(f) { RoundsUp(hi, f); }
  }
}
