/** Millisatoshi amounts with the overflow tests of common/overflows.h and the
    fee rule of common/amount.c. */
module Amount {
  import opened Wrappers
  import opened Numbers

  /** add_overflows_u64: the wrapped sum is below an operand. */
  predicate AddOverflows(a: nat, b: nat) {
    (a + b) % TWO_64 < a
  }

  /** mul_overflows_u64: dividing the wrapped product back does not give b. */
  predicate MulOverflows(a: nat, b: nat) {
    a != 0 && (a * b) % TWO_64 / a != b
  }

  lemma AddOverflowsExact(a: nat, b: nat)
    requires a <= U64_MAX && b <= U64_MAX
    ensures AddOverflows(a, b) <==> a + b > U64_MAX
  {
  }

  /** The division test detects exactly the products that do not fit 64 bits. */
  lemma MulOverflowsExact(a: nat, b: nat)
    requires a <= U64_MAX && b <= U64_MAX
    ensures MulOverflows(a, b) <==> a * b > U64_MAX
  {
    MulNonNegative(a, b);
    if a != 0 {
      var p := a * b;
      if p <= U64_MAX {
        QuotientUnique(p, a, b);
      } else {
        var w := p % TWO_64;
        assert w <= p - TWO_64;
        assert (w / a) * a <= w;
        assert (w / a) * a != b * a;
      }
    }
  }

  function MsatAdd(a: nat, b: nat): Option<nat> {
    if AddOverflows(a, b) then None else Some((a + b) % TWO_64)
  }

  /** amount_msat_fee: base fee plus the proportional part, rounded down. */
  function MsatFee(amt: nat, base: nat, millionths: nat): Option<nat> {
    if MulOverflows(amt, millionths) then None
    else MsatAdd(base, (amt * millionths) % TWO_64 / 1000000)
  }

  /** amount_msat_add_fee. */
  function MsatAddFee(amt: nat, base: nat, millionths: nat): Option<nat> {
    match MsatFee(amt, base, millionths)
    case None => None
    case Some(fee) => MsatAdd(amt, fee)
  }

  /** The fee of BOLT #7, "HTLC Fees", over unbounded integers. */
  function ExactFee(amt: nat, base: nat, millionths: nat): (fee: nat) {
    MulNonNegative(amt, millionths);
    base + amt * millionths / 1000000
  }

  lemma MsatAddExact(a: nat, b: nat)
    requires a <= U64_MAX && b <= U64_MAX
    ensures MsatAdd(a, b) == if a + b <= U64_MAX then Some(a + b) else None
  {
  }

  lemma MsatFeeExact(amt: nat, base: nat, millionths: nat)
    requires amt <= U64_MAX && base <= U32_MAX && millionths <= U32_MAX
    ensures MsatFee(amt, base, millionths) ==
      if amt * millionths <= U64_MAX && ExactFee(amt, base, millionths) <= U64_MAX
      then Some(ExactFee(amt, base, millionths)) else None
  {
    hide MulOverflows, MsatAdd;
    MulOverflowsExact(amt, millionths);
    MulNonNegative(amt, millionths);
    var p := amt * millionths;
    if p <= U64_MAX {
      assert p % TWO_64 == p;
      MsatAddExact(base, p / 1000000);
    }
  }

  /** Adding a fee succeeds exactly when nothing overflows, and then adds the exact fee. */
  lemma AddFeeExact(amt: nat, base: nat, millionths: nat)
    requires amt <= U64_MAX && base <= U32_MAX && millionths <= U32_MAX
    ensures MsatAddFee(amt, base, millionths).Some? <==>
      amt * millionths <= U64_MAX && amt + ExactFee(amt, base, millionths) <= U64_MAX
    ensures MsatAddFee(amt, base, millionths).Some? ==>
      MsatAddFee(amt, base, millionths).value == amt + ExactFee(amt, base, millionths)
  {
    hide MsatFee, MsatAdd, ExactFee;
    MsatFeeExact(amt, base, millionths);
    if MsatFee(amt, base, millionths).Some? {
      MsatAddExact(amt, ExactFee(amt, base, millionths));
    }
  }

  /** A smaller amount can always pay when a larger one can, and then pays no more. */
  lemma AddFeeMonotone(a: nat, b: nat, base: nat, millionths: nat)
    requires a <= b <= U64_MAX && base <= U32_MAX && millionths <= U32_MAX
    requires MsatAddFee(b, base, millionths).Some?
    ensures MsatAddFee(a, base, millionths).Some?
    ensures a <= MsatAddFee(a, base, millionths).value <= MsatAddFee(b, base, millionths).value <= U64_MAX
  {
    hide MsatAddFee;
    AddFeeExact(a, base, millionths);
    AddFeeExact(b, base, millionths);
    MulNonNegative(a, millionths);
    MulNonNegative(b - a, millionths);
    assert (b - a) * millionths == b * millionths - a * millionths;
    assert a * millionths / 1000000 <= b * millionths / 1000000;
  }

  /** A smaller amount pays strictly less. */
  lemma AddFeeStrict(a: nat, b: nat, base: nat, millionths: nat)
    requires a < b <= U64_MAX && base <= U32_MAX && millionths <= U32_MAX
    requires MsatAddFee(a, base, millionths).Some? && MsatAddFee(b, base, millionths).Some?
    ensures MsatAddFee(a, base, millionths).value < MsatAddFee(b, base, millionths).value
  {
    hide MsatAddFee;
    AddFeeExact(a, base, millionths);
    AddFeeExact(b, base, millionths);
    MulNonNegative(b - a, millionths);
    assert (b - a) * millionths == b * millionths - a * millionths;
    assert a * millionths / 1000000 <= b * millionths / 1000000;
  }
}
