/** Reading and writing amounts as text, common/amount.c. */
module AmountText {
  import opened Wrappers
  import opened Numbers
  import opened Amount

  const MSAT_PER_BTC_DIGITS: nat := 11
  const SAT_PER_BTC_DIGITS: nat := 8

  predicate IsDigit(c: char) {
    '0' <= c <= '9'
  }

  function Digit(c: char): nat
    requires IsDigit(c)
  {
    c as int - '0' as int
  }

  predicate Digits(s: string) {
    forall i :: 0 <= i < |s| ==> IsDigit(s[i])
  }

  /** The number a string of digits writes. */
  function Value(s: string): nat
    requires Digits(s)
  {
    if s == [] then 0 else 10 * Value(s[..|s| - 1]) + Digit(s[|s| - 1])
  }

  function Pow10(k: nat): (p: nat)
    ensures p >= 1
  {
    if k == 0 then 1 else 10 * Pow10(k - 1)
  }

  // ---- from_number ----

  /** The digits, scaled by a power of ten, if there are any and the result fits 64 bits. */
  ghost function Scaled(s: string, tens: nat): Option<nat>
    requires Digits(s)
  {
    if s != [] && Value(s) * Pow10(tens) <= U64_MAX then Some(Value(s) * Pow10(tens)) else None
  }

  /** from_number: fails exactly when there is no digit or the scaled number does not fit. */
  method FromNumber(s: string, tens: nat) returns (r: Option<nat>)
    requires Digits(s)
    ensures r == Scaled(s, tens)
  {
    hide Value, Pow10;
    if s == [] { return None; }
    var v := ReadDigits(s);
    ProductAtLeast(Value(s), Pow10(tens));
    if v.None? { return None; }
    r := ScaleUp(v.value, tens);
  }

  /** The loop over the digits. */
  method ReadDigits(s: string) returns (r: Option<nat>)
    requires Digits(s)
    ensures r == if Value(s) <= U64_MAX then Some(Value(s)) else None
  {
    hide MulOverflows, AddOverflows;
    var res: nat := 0;
    for i := 0 to |s|
      invariant res == Value(s[..i]) && res <= U64_MAX
    {
      MulOverflowsExact(res, 10);
      PrefixValue(s, i + 1);
      NextDigit(s, i);
      if MulOverflows(res, 10) { return None; }
      AddOverflowsExact(res * 10, Digit(s[i]));
      if AddOverflows(res * 10, Digit(s[i])) { return None; }
      res := res * 10 + Digit(s[i]);
    }
    assert s[..|s|] == s;
    return Some(res);
  }

  /** The loop over the powers of ten. */
  method ScaleUp(v: nat, tens: nat) returns (r: Option<nat>)
    requires v <= U64_MAX
    ensures r == if v * Pow10(tens) <= U64_MAX then Some(v * Pow10(tens)) else None
  {
    hide MulOverflows;
    var res, k := v, tens;
    assert v * Pow10(0) == v;
    while k > 0
      invariant 0 <= k <= tens && res == v * Pow10(tens - k) && 0 <= res <= U64_MAX
    {
      MulOverflowsExact(res, 10);
      TimesTen(v, tens - k);
      ScaledMore(v, tens - k + 1, tens);
      if MulOverflows(res, 10) { return None; }
      res := res * 10;
      k := k - 1;
    }
    return Some(res);
  }

  lemma ScaledMore(v: nat, k: nat, tens: nat)
    requires k <= tens
    ensures v * Pow10(k) <= v * Pow10(tens)
  {
    Pow10Monotone(k, tens);
    hide Pow10;
    Products(v, Pow10(k), Pow10(tens));
  }

  lemma NextDigit(s: string, i: nat)
    requires Digits(s) && i < |s|
    ensures Value(s[..i + 1]) == 10 * Value(s[..i]) + Digit(s[i])
  {
    assert s[..i + 1][..i] == s[..i];
  }

  lemma TimesTen(v: nat, k: nat)
    ensures v * Pow10(k + 1) == v * Pow10(k) * 10
  {
  }

  /** A prefix that does not fit keeps the whole from fitting. */
  lemma {:induction false} PrefixValue(s: string, i: nat)
    requires Digits(s) && i <= |s|
    ensures Value(s[..i]) <= Value(s)
    decreases |s| - i
  {
    if i < |s| {
      NextDigit(s, i);
      PrefixValue(s, i + 1);
    } else {
      assert s[..i] == s;
    }
  }

  lemma ProductAtLeast(v: nat, p: nat)
    requires p >= 1
    ensures v <= v * p
  {
  }

  lemma {:induction false} Pow10Monotone(a: nat, b: nat)
    requires a <= b
    ensures Pow10(a) <= Pow10(b)
    decreases b
  {
    if a < b { Pow10Monotone(a, b - 1); }
  }

  lemma Products(v: nat, a: nat, b: nat)
    requires a <= b
    ensures v * a <= v * b
  {
  }

  /** The two parts of a decimal number, scaled. */
  ghost function ScaledDecimal(a: string, tens: nat, b: string): Option<nat>
    requires Digits(a) && Digits(b)
  {
    if a != [] && b != [] && |b| <= tens && Value(a) * Pow10(tens) + Value(b) * Pow10(tens - |b|) <= U64_MAX
    then Some(Value(a) * Pow10(tens) + Value(b) * Pow10(tens - |b|)) else None
  }

  /** from_numbers. */
  method FromNumbers(a: string, tens: nat, b: string) returns (r: Option<nat>)
    requires Digits(a) && Digits(b)
    ensures r == ScaledDecimal(a, tens, b)
  {
    hide AddOverflows, Value, Pow10;
    if |b| > tens { return None; }
    var p1 := FromNumber(a, tens);
    if p1.None? { return None; }
    var p2 := FromNumber(b, tens - |b|);
    if p2.None? { return None; }
    AddOverflowsExact(p1.value, p2.value);
    if AddOverflows(p1.value, p2.value) { return None; }
    return Some(p1.value + p2.value);
  }

  // ---- breakup ----

  predicate AtEnd(s: string, i: nat) {
    i >= |s| || s[i] == '\0'
  }

  /** How many digits stand at i. */
  function Run(s: string, i: nat): (n: nat)
    ensures i <= |s| ==> i + n <= |s|
    ensures forall k :: i <= k < i + n ==> k < |s| && IsDigit(s[k])
    decreases |s| - i
  {
    if i < |s| && IsDigit(s[i]) then 1 + Run(s, i + 1) else 0
  }

  /** breakup's out-parameters: the digits before and after a point, and the suffix. */
  datatype Parts = Parts(whole: string, decimal: Option<string>, suffix: Option<string>)

  function Breakup(s: string): (r: Option<Parts>)
    ensures r.Some? ==> Digits(r.value.whole) && (r.value.decimal.Some? ==> Digits(r.value.decimal.value))
  {
    var w := Run(s, 0);
    if AtEnd(s, w) then if w != 0 then Some(Parts(s[..w], None, None)) else None
    else if s[w] == '.' then
      var d := Run(s, w + 1);
      var i := w + 1 + d;
      if AtEnd(s, i) then if d != 0 then Some(Parts(s[..w], Some(s[w + 1..i]), None)) else None
      else Some(Parts(s[..w], Some(s[w + 1..i]), Some(s[i..])))
    else Some(Parts(s[..w], None, Some(s[w..])))
  }

  /** The loops of breakup. */
  method CountDigits(s: string, start: nat) returns (i: nat)
    requires start <= |s|
    ensures i == start + Run(s, start)
  {
    i := start;
    while !AtEnd(s, i) && IsDigit(s[i])
      invariant start <= i <= |s| && start + Run(s, start) == i + Run(s, i)
      decreases |s| - i
    {
      i := i + 1;
    }
  }

  /** What is in front of the suffix. */
  function Joined(p: Parts): string {
    p.whole + if p.decimal.Some? then "." + p.decimal.value else []
  }

  /** The parts make up s, or s up to a zero byte, and no digit is left out of a run of digits.
      The last number of a string without suffix is not empty. */
  predicate BrokenUp(s: string, p: Parts) {
    && Digits(p.whole) && (p.decimal.Some? ==> Digits(p.decimal.value))
    && match p.suffix
       case Some(x) =>
         && s == Joined(p) + x && x != [] && x[0] != '\0' && !IsDigit(x[0])
         && (p.decimal.None? ==> x[0] != '.')
       case None =>
         && Joined(p) <= s && AtEnd(s, |Joined(p)|)
         && (if p.decimal.Some? then p.decimal.value else p.whole) != []
  }

  lemma {:induction false} RunIs(s: string, i: nat, n: nat)
    requires i + n <= |s| && (forall k :: i <= k < i + n ==> IsDigit(s[k]))
    requires i + n < |s| ==> !IsDigit(s[i + n])
    ensures Run(s, i) == n
    decreases n
  {
    if n > 0 { RunIs(s, i + 1, n - 1); }
  }

  lemma {:induction false} RunEnds(s: string, i: nat)
    requires i <= |s|
    ensures i + Run(s, i) < |s| ==> !IsDigit(s[i + Run(s, i)])
    decreases |s| - i
  {
    if i < |s| && IsDigit(s[i]) { RunEnds(s, i + 1); }
  }

  /** breakup finds the parts that make up s, and there are no others. */
  lemma BreakupExactly(s: string, p: Parts)
    ensures Breakup(s) == Some(p) <==> BrokenUp(s, p)
  {
    hide Run;
    if Breakup(s) == Some(p) { BreakupIsParts(s); }
    if BrokenUp(s, p) { PartsAreFound(s, p); }
  }

  lemma BreakupIsParts(s: string)
    requires Breakup(s).Some?
    ensures BrokenUp(s, Breakup(s).value)
  {
    hide Run, Joined;
    var p, w := Breakup(s).value, Run(s, 0);
    RunEnds(s, 0);
    JoinedIs(p);
    if p.decimal.Some? {
      var i := w + 1 + Run(s, w + 1);
      RunEnds(s, w + 1);
      assert Joined(p) == s[..i];
      assert s == s[..i] + s[i..];
    } else {
      assert Joined(p) == s[..w];
      assert s == s[..w] + s[w..];
    }
  }

  lemma JoinedIs(p: Parts)
    ensures p.decimal.None? ==> Joined(p) == p.whole
    ensures p.decimal.Some? ==> Joined(p) == p.whole + "." + p.decimal.value
  {
    if p.decimal.Some? { assert p.whole + ("." + p.decimal.value) == p.whole + "." + p.decimal.value; }
  }

  lemma PartsAreFound(s: string, p: Parts)
    requires BrokenUp(s, p)
    ensures Breakup(s) == Some(p)
  {
    hide Run;
    var w, n := |p.whole|, |Joined(p)|;
    assert s[..n] == Joined(p) && s[..w] == p.whole;
    forall k | 0 <= k < w ensures IsDigit(s[k]) { assert s[..w][k] == p.whole[k]; }
    if p.decimal.Some? {
      assert s[w] == '.' && s[w + 1..n] == p.decimal.value;
      forall k | w + 1 <= k < n ensures IsDigit(s[k]) { assert s[w + 1..n][k - w - 1] == p.decimal.value[k - w - 1]; }
      RunIs(s, w + 1, n - w - 1);
    }
    RunIs(s, 0, w);
    if p.suffix.Some? { assert s[n..] == p.suffix.value; }
  }

  /** It fails on the empty string and where nothing follows a point. */
  lemma BreakupFails(s: string)
    ensures Breakup(s).None? <==>
      AtEnd(s, 0) || exists w: nat :: w < |s| && Digits(s[..w]) && s[w] == '.' && AtEnd(s, w + 1)
  {
    hide Run;
    var w := Run(s, 0);
    RunEnds(s, 0);
    assert Digits(s[..w]);
    if v: nat :| v < |s| && Digits(s[..v]) && s[v] == '.' && AtEnd(s, v + 1) {
      forall k | 0 <= k < v ensures IsDigit(s[k]) { assert s[..v][k] == s[k]; }
      RunIs(s, 0, v);
      RunIs(s, v + 1, 0);
    }
    if AtEnd(s, 0) { RunIs(s, 0, 0); }
  }

  lemma AllParts(s: string)
    ensures forall p :: Breakup(s) == Some(p) <==> BrokenUp(s, p)
  {
    forall p ensures Breakup(s) == Some(p) <==> BrokenUp(s, p) { BreakupExactly(s, p); }
  }

  /** breakup. */
  method BreakupStr(s: string) returns (r: Option<Parts>)
    ensures r == Breakup(s)
    ensures forall p :: r == Some(p) <==> BrokenUp(s, p)
  {
    hide BrokenUp, Run;
    AllParts(s);
    var w := CountDigits(s, 0);
    if AtEnd(s, w) { return if w != 0 then Some(Parts(s[..w], None, None)) else None; }
    if s[w] == '.' {
      var i := CountDigits(s, w + 1);
      if AtEnd(s, i) { return if i != w + 1 then Some(Parts(s[..w], Some(s[w + 1..i]), None)) else None; }
      return Some(Parts(s[..w], Some(s[w + 1..i]), Some(s[i..])));
    }
    return Some(Parts(s[..w], None, Some(s[w..])));
  }

  // ---- Parsing ----

  /** memstarts_str on the suffix. */
  predicate Unit(p: Parts, unit: string) {
    p.suffix.Some? && unit <= p.suffix.value
  }

  /** What parse_amount_msat makes of the parts. */
  ghost function MsatOf(p: Parts): Option<nat>
    requires Digits(p.whole) && (p.decimal.Some? ==> Digits(p.decimal.value))
  {
    if p.decimal.None? && (p.suffix.None? || Unit(p, "msat")) then Scaled(p.whole, 0)
    else if p.decimal.None? && Unit(p, "sat") then Scaled(p.whole, 3)
    else if Unit(p, "btc") then
      if p.decimal.Some? && p.decimal.value != [] then ScaledDecimal(p.whole, MSAT_PER_BTC_DIGITS, p.decimal.value)
      else Scaled(p.whole, MSAT_PER_BTC_DIGITS)
    else None
  }

  /** parse_amount_msat. */
  method ParseMsat(s: string) returns (r: Option<nat>)
    ensures r == if Breakup(s).Some? then MsatOf(Breakup(s).value) else None
  {
    hide Breakup, Scaled, ScaledDecimal, Unit;
    var b := BreakupStr(s);
    if b.None? { return None; }
    var p := b.value;
    if p.decimal.None? && p.suffix.None? {
      r := FromNumber(p.whole, 0);
    } else if p.decimal.None? && Unit(p, "msat") {
      r := FromNumber(p.whole, 0);
    } else if p.decimal.None? && Unit(p, "sat") {
      r := FromNumber(p.whole, 3);
    } else if Unit(p, "btc") {
      if p.decimal.Some? && p.decimal.value != [] {
        r := FromNumbers(p.whole, MSAT_PER_BTC_DIGITS, p.decimal.value);
      } else {
        r := FromNumber(p.whole, MSAT_PER_BTC_DIGITS);
      }
    } else {
      r := None;
    }
  }

  /** What parse_amount_sat makes of the parts. */
  ghost function SatOf(p: Parts): Option<nat>
    requires Digits(p.whole) && (p.decimal.Some? ==> Digits(p.decimal.value))
  {
    if p.decimal.None? && (p.suffix.None? || Unit(p, "sat")) then Scaled(p.whole, 0)
    else if p.decimal.None? && Unit(p, "msat") then
      if |p.whole| >= 3 && p.whole[|p.whole| - 3..] == "000" then Scaled(p.whole[..|p.whole| - 3], 0)
      else if "0" <= p.whole then Scaled(p.whole, 0)
      else None
    else if Unit(p, "btc") then
      if p.decimal.Some? && p.decimal.value != [] then ScaledDecimal(p.whole, SAT_PER_BTC_DIGITS, p.decimal.value)
      else Scaled(p.whole, SAT_PER_BTC_DIGITS)
    else None
  }

  /** parse_amount_sat. */
  method ParseSat(s: string) returns (r: Option<nat>)
    ensures r == if Breakup(s).Some? then SatOf(Breakup(s).value) else None
  {
    hide Breakup, Scaled, ScaledDecimal, Unit;
    var b := BreakupStr(s);
    if b.None? { return None; }
    var p := b.value;
    if p.decimal.None? && p.suffix.None? {
      r := FromNumber(p.whole, 0);
    } else if p.decimal.None? && Unit(p, "sat") {
      r := FromNumber(p.whole, 0);
    } else if p.decimal.None? && Unit(p, "msat") {
      if !(|p.whole| >= 3 && p.whole[|p.whole| - 3..] == "000") {
        if "0" <= p.whole {
          r := FromNumber(p.whole, 0);
        } else {
          r := None;
        }
      } else {
        r := FromNumber(p.whole[..|p.whole| - 3], 0);
      }
    } else if Unit(p, "btc") {
      if p.decimal.Some? && p.decimal.value != [] {
        r := FromNumbers(p.whole, SAT_PER_BTC_DIGITS, p.decimal.value);
      } else {
        r := FromNumber(p.whole, SAT_PER_BTC_DIGITS);
      }
    } else {
      r := None;
    }
  }

  // ---- Formatting ----

  function CharOf(d: nat): (c: char)
    requires d < 10
    ensures IsDigit(c) && Digit(c) == d
  {
    ('0' as int + d) as char
  }

  /** %PRIu64. */
  function Dec(n: nat): (s: string)
    ensures s != [] && Digits(s)
  {
    if n < 10 then [CharOf(n)] else Dec(n / 10) + [CharOf(n % 10)]
  }

  /** %0kPRIu64 of a number of at most k digits. */
  function Pad(n: nat, k: nat): (s: string)
    ensures |s| == k && Digits(s)
  {
    if k == 0 then [] else Pad(n / 10, k - 1) + [CharOf(n % 10)]
  }

  lemma {:induction false} ValueOfDec(n: nat)
    ensures Value(Dec(n)) == n
  {
    var s := Dec(n);
    if n < 10 {
      assert s[..|s| - 1] == [];
    } else {
      ValueOfDec(n / 10);
      assert s[..|s| - 1] == Dec(n / 10);
    }
  }

  lemma {:induction false} ValueOfPad(n: nat, k: nat)
    requires n < Pow10(k)
    ensures Value(Pad(n, k)) == n
  {
    if k > 0 {
      ValueOfPad(n / 10, k - 1);
      var s := Pad(n, k);
      assert s[..|s| - 1] == Pad(n / 10, k - 1);
    }
  }

  /** fmt_amount_msat, fmt_amount_sat. */
  function FmtMsat(v: nat): string { Dec(v) + "msat" }
  function FmtSat(v: nat): string { Dec(v) + "sat" }

  /** fmt_amount_msat_btc and fmt_amount_sat_btc with a unit. */
  function FmtBtc(v: nat, k: nat): string {
    if v == 0 then "0btc" else Dec(Quotient(v, Pow10(k))) + "." + Pad(v % Pow10(k), k) + "btc"
  }

  function Quotient(v: nat, p: nat): (q: nat)
    requires p > 0
    ensures v == q * p + v % p
  {
    v / p
  }

  // ---- Round trips ----

  lemma {:induction false} RunOfDigits(a: string, b: string)
    requires Digits(a) && (b == [] || !IsDigit(b[0]))
    ensures Run(a + b, 0) == |a|
  {
    RunFrom(a, b, 0);
  }

  lemma {:induction false} RunFrom(a: string, b: string, i: nat)
    requires i <= |a| && Digits(a) && (b == [] || !IsDigit(b[0]))
    ensures Run(a + b, i) == |a| - i
    decreases |a| - i
  {
    if i < |a| { RunFrom(a, b, i + 1); }
  }

  /** Digits followed by a unit. */
  lemma BreakUnit(a: string, unit: string)
    requires Digits(a) && unit != [] && !IsDigit(unit[0]) && unit[0] != '.' && unit[0] != '\0'
    ensures Breakup(a + unit) == Some(Parts(a, None, Some(unit)))
  {
    RunOfDigits(a, unit);
    assert (a + unit)[..|a|] == a && (a + unit)[|a|..] == unit;
  }

  /** Digits, a point, digits and a unit. */
  lemma BreakDecimal(a: string, b: string, unit: string)
    requires Digits(a) && Digits(b) && unit != [] && !IsDigit(unit[0]) && unit[0] != '\0'
    ensures Breakup(a + "." + b + unit) == Some(Parts(a, Some(b), Some(unit)))
  {
    var s := a + "." + b + unit;
    DecimalSlices(a, b, unit);
    RunOfDigits(a, "." + (b + unit));
    RunOfDigits(b, unit);
    RunShift(a + ".", b + unit, 0);
    hide Run;
    assert Run(s, 0) == |a| && Run(s, |a| + 1) == |b|;
    assert !AtEnd(s, |a|) && !AtEnd(s, |a| + 1 + |b|);
  }

  lemma DecimalSlices(a: string, b: string, unit: string)
    ensures var s := a + "." + b + unit;
      && s == a + ("." + (b + unit)) && s == (a + ".") + (b + unit)
      && s[..|a|] == a && s[|a|] == '.' && s[|a| + 1..|a| + 1 + |b|] == b && s[|a| + 1 + |b|..] == unit
  {
  }

  lemma {:induction false} RunShift(x: string, y: string, i: nat)
    requires i <= |y|
    ensures Run(x + y, |x| + i) == Run(y, i)
    decreases |y| - i
  {
    if i < |y| { RunShift(x, y, i + 1); }
  }

  lemma UnitIs(unit: string)
    requires unit in {"msat", "sat", "btc"}
    ensures forall p: Parts :: p.suffix == Some(unit) ==>
      && (Unit(p, "msat") <==> unit == "msat") && (Unit(p, "sat") <==> unit == "sat")
      && (Unit(p, "btc") <==> unit == "btc")
  {
    assert "msat"[0] == 'm' && "sat"[0] == 's' && "btc"[0] == 'b';
    assert "msat" <= "msat" && "sat" <= "sat" && "btc" <= "btc";
    assert unit[0] == 'm' ==> unit == "msat";
    assert unit[0] == 's' ==> unit == "sat";
    assert unit[0] == 'b' ==> unit == "btc";
  }

  /** Every amount written with a unit reads back as itself. */
  lemma MsatRoundTrip(v: nat)
    requires v <= U64_MAX
    ensures Breakup(FmtMsat(v)).Some? && MsatOf(Breakup(FmtMsat(v)).value) == Some(v)
  {
    BreakUnit(Dec(v), "msat");
    ValueOfDec(v);
    UnitIs("msat");
  }

  lemma SatRoundTrip(v: nat)
    requires v <= U64_MAX
    ensures Breakup(FmtSat(v)).Some? && SatOf(Breakup(FmtSat(v)).value) == Some(v)
    ensures MsatOf(Breakup(FmtSat(v)).value) == if v * 1000 <= U64_MAX then Some(v * 1000) else None
  {
    BreakUnit(Dec(v), "sat");
    ValueOfDec(v);
    UnitIs("sat");
    assert Pow10(3) == 1000;
  }

  lemma BtcParts(v: nat, k: nat)
    requires v <= U64_MAX && k > 0
    ensures Breakup(FmtBtc(v, k)).Some?
    ensures var p := Breakup(FmtBtc(v, k)).value;
      && p.suffix == Some("btc")
      && (v == 0 ==> p.decimal == None && p.whole == "0")
      && (v > 0 ==> p.decimal.Some? && p.decimal.value != [] && ScaledDecimal(p.whole, k, p.decimal.value) == Some(v))
  {
    if v == 0 {
      BreakUnit("0", "btc");
      assert "0" + "btc" == "0btc";
    } else {
      hide Breakup, ScaledDecimal;
      BtcDecimal(v, k);
    }
  }

  lemma BtcDecimal(v: nat, k: nat)
    requires 0 < v <= U64_MAX && k > 0
    ensures Breakup(FmtBtc(v, k)) == Some(Parts(Dec(Quotient(v, Pow10(k))), Some(Pad(v % Pow10(k), k)), Some("btc")))
    ensures ScaledDecimal(Dec(Quotient(v, Pow10(k))), k, Pad(v % Pow10(k), k)) == Some(v)
  {
    hide Breakup, Value, Dec, Pad, Quotient;
    var q, m := Quotient(v, Pow10(k)), v % Pow10(k);
    BreakDecimal(Dec(q), Pad(m, k), "btc");
    ValueOfDec(q);
    ValueOfPad(m, k);
    assert Pow10(0) == 1;
    hide Pow10;
    assert m * 1 == m;
  }

  lemma BtcRoundTrip(v: nat)
    requires v <= U64_MAX
    ensures Breakup(FmtBtc(v, MSAT_PER_BTC_DIGITS)).Some? && Breakup(FmtBtc(v, SAT_PER_BTC_DIGITS)).Some?
    ensures MsatOf(Breakup(FmtBtc(v, MSAT_PER_BTC_DIGITS)).value) == Some(v)
    ensures SatOf(Breakup(FmtBtc(v, SAT_PER_BTC_DIGITS)).value) == Some(v)
  {
    BtcParts(v, MSAT_PER_BTC_DIGITS);
    BtcParts(v, SAT_PER_BTC_DIGITS);
    UnitIs("btc");
    ZeroScaled(MSAT_PER_BTC_DIGITS);
    ZeroScaled(SAT_PER_BTC_DIGITS);
    hide Breakup, ScaledDecimal, FmtBtc, Scaled;
  }

  lemma ZeroScaled(k: nat)
    ensures Digits("0") && Scaled("0", k) == Some(0)
  {
    assert "0"[..0] == [];
    assert Value("0") == 0;
  }

  // ---- Without a unit, and in the other unit ----

  /** Digits alone are the number itself, in either unit. */
  lemma PlainNumber(a: string)
    requires Digits(a) && a != []
    ensures Breakup(a).Some?
    ensures MsatOf(Breakup(a).value) == SatOf(Breakup(a).value) == if Value(a) <= U64_MAX then Some(Value(a)) else None
  {
    var p := Parts(a, None, None);
    assert Joined(p) == a;
    PartsAreFound(a, p);
    hide Breakup;
    assert Pow10(0) == 1;
    assert Value(a) * 1 == Value(a);
  }

  /** What is neither number is refused: no digit in front, decimals without btc, or another unit. */
  lemma Refused(p: Parts)
    requires Digits(p.whole) && (p.decimal.Some? ==> Digits(p.decimal.value))
    requires p.whole == [] || (p.decimal.Some? && !Unit(p, "btc"))
      || (p.suffix.Some? && !Unit(p, "msat") && !Unit(p, "sat") && !Unit(p, "btc"))
    ensures MsatOf(p) == None && SatOf(p) == None
  {
  }

  /** Eleven decimals of a bitcoin are millisatoshi and eight are satoshi; more are refused. */
  lemma DecimalsOfBtc(a: string, b: string)
    requires Digits(a) && Digits(b) && a != [] && b != []
    ensures var p := Parts(a, Some(b), Some("btc"));
      && (|b| > 11 ==> MsatOf(p) == None) && (|b| > 8 ==> SatOf(p) == None)
      && (|b| == 11 ==> MsatOf(p) == Fitting(Value(a) * 100_000_000_000 + Value(b)))
      && (|b| == 8 ==> SatOf(p) == Fitting(Value(a) * 100_000_000 + Value(b)))
  {
    hide Scaled, ScaledDecimal, Value;
    UnitIs("btc");
    DecimalsScaled(a, 11, b);
    DecimalsScaled(a, 8, b);
    TenPowers();
  }

  lemma DecimalsScaled(a: string, k: nat, b: string)
    requires Digits(a) && Digits(b) && a != [] && b != []
    ensures |b| > k ==> ScaledDecimal(a, k, b) == None
    ensures |b| == k ==> ScaledDecimal(a, k, b) == Fitting(Value(a) * Pow10(k) + Value(b))
  {
    hide Value;
    assert Pow10(0) == 1;
    hide Pow10;
    assert Value(b) * 1 == Value(b);
  }

  lemma TenPowers()
    ensures Pow10(0) == 1 && Pow10(8) == 100_000_000 && Pow10(11) == 100_000_000_000
  {
    assert Pow10(4) == 10000;
  }

  function Fitting(v: nat): Option<nat> {
    if v <= U64_MAX then Some(v) else None
  }

  lemma LastDigit(a: string)
    requires Digits(a) && a != []
    ensures Digits(a[..|a| - 1]) && Value(a) == 10 * Value(a[..|a| - 1]) + Digit(a[|a| - 1])
  {
  }

  lemma LastThree(a: string, b: string, n: nat)
    requires Digits(a) && |a| == n + 3 && b == a[..n]
    ensures Digits(b) && Value(a) == 1000 * Value(b) + 100 * Digit(a[n]) + 10 * Digit(a[n + 1]) + Digit(a[n + 2])
  {
    hide Value;
    var c, d := a[..n + 2], a[..n + 1];
    assert c[..n + 1] == d && d[..n] == b;
    LastDigit(a);
    LastDigit(c);
    LastDigit(d);
  }

  /** Three zeros at the end are a whole number of thousands, if there are three digits. */
  lemma EndsInZeros(a: string, b: string, n: nat)
    requires Digits(a) && |a| == n + 3 && b == a[..n]
    ensures Digits(b) && (a[n..] == "000" <==> Value(a) % 1000 == 0)
    ensures a[n..] == "000" ==> Value(b) == Value(a) / 1000
  {
    LastThree(a, b, n);
    hide Value;
    assert a[n..] == [a[n], a[n + 1], a[n + 2]];
    ZeroDigits(Value(a), Value(b), Digit(a[n]), Digit(a[n + 1]), Digit(a[n + 2]));
  }

  lemma ZeroDigits(v: nat, q: nat, x: nat, y: nat, z: nat)
    requires x < 10 && y < 10 && z < 10 && v == 1000 * q + 100 * x + 10 * y + z
    ensures v % 1000 == 0 <==> x == y == z == 0
    ensures v / 1000 == q
  {
  }

  lemma FewDigits(a: string)
    requires Digits(a) && 0 < |a| < 3
    ensures Value(a) < 100 && (Value(a) == 0 ==> a[0] == '0')
  {
    assert Value(a) == 10 * Value(a[..|a| - 1]) + Digit(a[|a| - 1]);
    if |a| == 2 {
      assert a[..1][..0] == [];
      assert Value(a[..1]) == 10 * Value([]) + Digit(a[0]);
    } else {
      assert a[..0] == [];
    }
  }

  /** The satoshi that a number of millisatoshi makes, if it makes any. */
  function WholeSat(msat: nat): Option<nat> {
    if msat % 1000 == 0 then Fitting(msat / 1000) else None
  }

  /** The three ways of parse_amount_sat with an msat string. */
  lemma MsatInSatCases(a: string)
    requires Digits(a) && a != []
    ensures var r := SatOf(Parts(a, None, Some("msat")));
      if |a| >= 3 && a[|a| - 3..] == "000" then r == Scaled(a[..|a| - 3], 0)
      else if a[0] == '0' then r == Fitting(Value(a)) else r == None
  {
    hide Scaled, Value, Unit;
    UnitIs("msat");
    PlainScaled(a);
    StartsWithZero(a);
  }

  lemma StartsWithZero(a: string)
    requires a != []
    ensures "0" <= a <==> a[0] == '0'
  {
  }

  lemma PlainScaled(a: string)
    requires Digits(a)
    ensures Scaled(a, 0) == if a == [] then None else Fitting(Value(a))
  {
    hide Value;
    assert Pow10(0) == 1;
    hide Pow10;
    assert Value(a) * 1 == Value(a);
  }

  /** parse_amount_sat reads millisatoshi as the satoshi they make, except "000", which it refuses,
      and numbers that start with a zero and make none, which it takes for satoshi. */
  lemma MsatInSatExactly(a: string)
    requires Digits(a) && a != []
    ensures Breakup(a + "msat") == Some(Parts(a, None, Some("msat")))
    ensures SatOf(Parts(a, None, Some("msat"))) == WholeSat(Value(a)) <==>
      a != "000" && !(a[0] == '0' && Value(a) % 1000 != 0 && Value(a) <= U64_MAX)
    ensures a[0] == '0' && Value(a) % 1000 != 0 ==> SatOf(Parts(a, None, Some("msat"))) == Fitting(Value(a))
  {
    hide Breakup, SatOf, Scaled, Value, WholeSat;
    BreakUnit(a, "msat");
    MsatInSatCases(a);
    var ends := |a| >= 3 && a[|a| - 3..] == "000";
    ThreeZeros(a, ends);
    MsatInSatDecided(Value(a), ends, a[0] == '0', a == "000", SatOf(Parts(a, None, Some("msat"))));
  }

  lemma ThreeZeros(a: string, ends: bool)
    requires Digits(a) && a != [] && ends == (|a| >= 3 && a[|a| - 3..] == "000")
    ensures ends ==> Value(a) % 1000 == 0
    ensures ends ==> Scaled(a[..|a| - 3], 0) == if a == "000" then None else Fitting(Value(a) / 1000)
    ensures !ends && Value(a) % 1000 == 0 ==> Value(a) == 0 && a[0] == '0'
    ensures a == "000" ==> ends && Value(a) == 0
  {
    hide Value, Scaled;
    if |a| >= 3 { ManyDigits(a, a[..|a| - 3], |a| - 3); } else { FewDigits(a); }
  }

  lemma ManyDigits(a: string, b: string, n: nat)
    requires Digits(a) && |a| == n + 3 && b == a[..n]
    ensures Digits(b) && (a[n..] == "000" <==> Value(a) % 1000 == 0)
    ensures a[n..] == "000" ==> Scaled(b, 0) == if a == "000" then None else Fitting(Value(a) / 1000)
    ensures a == "000" ==> a[n..] == "000" && Value(a) == 0
  {
    NoDigits();
    hide Value, Scaled;
    EndsInZeros(a, b, n);
    PlainScaled(b);
    if n == 0 { assert a[n..] == a && b == []; }
  }

  lemma NoDigits()
    ensures Value([]) == 0
  {
  }

  lemma MsatInSatDecided(v: nat, ends: bool, zero: bool, zeros: bool, r: Option<nat>)
    requires ends ==> v % 1000 == 0 && r == if zeros then None else Fitting(v / 1000)
    requires !ends ==> r == if zero then Fitting(v) else None
    requires !ends && v % 1000 == 0 ==> v == 0 && zero
    requires zeros ==> ends && v == 0
    ensures r == WholeSat(v) <==> !zeros && !(zero && v % 1000 != 0 && v <= U64_MAX)
  {
  }

  /** Five millisatoshi written with a leading zero are read as five satoshi. */
  lemma LeadingZeroMisread()
    ensures Digits("05") && Value("05") == 5
    ensures SatOf(Parts("05", None, Some("msat"))) == Some(5)
  {
    assert "05"[..1] == "0" && "0"[..0] == [];
    assert Value("0") == 0;
    MsatInSatExactly("05");
  }

  lemma {:induction false} NoLeadingZero(v: nat)
    ensures v > 0 ==> Dec(v)[0] != '0'
    ensures Dec(v) != "000"
  {
    if v >= 10 { NoLeadingZero(v / 10); }
    ValueOfDec(v);
  }

  /** Every msat string written reads as satoshi exactly when it is a whole number of them. */
  lemma MsatInSat(v: nat)
    requires v <= U64_MAX
    ensures Breakup(FmtMsat(v)).Some?
    ensures SatOf(Breakup(FmtMsat(v)).value) == if v % 1000 == 0 then Some(v / 1000) else None
  {
    ValueOfDec(v);
    NoLeadingZero(v);
    MsatInSatExactly(Dec(v));
    hide SatOf, Breakup, Dec;
  }
}
