/** Machine words as the sets of their one-bits, so C's &, |, & ~ and ^ are intersection,
    union, difference and symmetric difference; and powers of two. */
module Words {
  import opened Numbers

  type Word = set<nat>

  function Pow2(n: nat): (p: nat)
    ensures p >= 1
  {
    if n == 0 then 1 else 2 * Pow2(n - 1)
  }

  lemma {:induction false} Pow2Monotone(a: nat, b: nat)
    requires a <= b
    ensures Pow2(a) <= Pow2(b)
    decreases b
  {
    if a < b { Pow2Monotone(a, b - 1); }
  }

  lemma {:induction false} Pow2Add(a: nat, b: nat)
    ensures Pow2(a + b) == Pow2(a) * Pow2(b)
  {
    if a > 0 {
      Pow2Add(a - 1, b);
      assert Pow2(a + b) == 2 * (Pow2(a - 1) * Pow2(b));
    }
  }

  lemma Pow2At30()
    ensures Pow2(30) == 0x4000_0000
  {
    assert Pow2(5) == 32;
    assert Pow2(10) == 1024;
    assert Pow2(15) == 32768;
    assert Pow2(20) == 0x10_0000;
    assert Pow2(25) == 0x200_0000;
  }

  /** The word with the lowest n bits set. */
  function BitsBelow(n: nat): (w: Word)
    ensures forall i: nat :: i in w <==> i < n
  {
    if n == 0 then {} else BitsBelow(n - 1) + {n - 1}
  }

  function Xor(a: Word, b: Word): Word {
    (a - b) + (b - a)
  }

  function ShiftRight(a: Word, n: nat): Word {
    set i | i in a && i >= n :: i - n
  }

  function ShiftLeft(a: Word, n: nat): Word {
    set i | i in a :: i + n
  }

  predicate Below(w: Word, n: nat) {
    forall i :: i in w ==> i < n
  }

  lemma ShiftBit(c: Word, n: nat, i: nat)
    ensures i in ShiftRight(c, n) <==> i + n in c
    ensures i in ShiftLeft(c, n) <==> i >= n && i - n in c
  {
    if i + n in c { assert (i + n) - n == i; }
  }

  /** The number written by the lowest n bits of a word. */
  function LowBits(h: Word, n: nat): (v: nat)
    ensures v < Pow2(n)
  {
    if n == 0 then 0 else LowBits(h, n - 1) + (if n - 1 in h then Pow2(n - 1) else 0)
  }

  /** The word that writes the number v in n bits. */
  function Bits(v: nat, n: nat): (w: Word)
    requires v < Pow2(n)
    ensures forall i :: i in w ==> i < n
  {
    if n == 0 then {}
    else if v >= Pow2(n - 1) then Bits(v - Pow2(n - 1), n - 1) + {n - 1}
    else Bits(v, n - 1)
  }

  /** Numbers and words correspond. */
  lemma {:induction false} BitsOfLow(w: Word, n: nat)
    ensures Bits(LowBits(w, n), n) == w * BitsBelow(n)
  {
    if n == 0 {
      assert w * BitsBelow(0) == {};
    } else {
      BitsOfLow(w, n - 1);
      assert w * BitsBelow(n) == w * BitsBelow(n - 1) + (if n - 1 in w then {n - 1} else {});
    }
  }

  lemma {:induction false} LowOfBits(v: nat, n: nat)
    requires v < Pow2(n)
    ensures LowBits(Bits(v, n), n) == v
  {
    if n > 0 {
      var rest := if v >= Pow2(n - 1) then v - Pow2(n - 1) else v;
      LowOfBits(rest, n - 1);
      LowBitsFrame(Bits(v, n), Bits(rest, n - 1), n - 1);
    }
  }

  /** The bit of v that stands for p. */
  predicate HasBit(v: nat, p: nat)
    requires p > 0
  {
    v / p % 2 == 1
  }

  /** Bit i of a number. */
  lemma {:induction false} BitsAt(v: nat, n: nat, i: nat)
    requires v < Pow2(n) && i < n
    ensures i in Bits(v, n) <==> HasBit(v, Pow2(i))
    decreases n
  {
    hide Pow2, Bits, HasBit;
    BitsTop(v, n);
    var top := Pow2(n - 1);
    var rest := if v >= top then v - top else v;
    if i == n - 1 {
      HighestHasBit(v, top);
    } else {
      BitsAt(rest, n - 1, i);
      if v >= top { AddedHasBit(rest, i, n - 1); }
    }
  }

  lemma BitsTop(v: nat, n: nat)
    requires n > 0 && v < Pow2(n)
    ensures v < 2 * Pow2(n - 1)
    ensures var top := Pow2(n - 1); var rest := if v >= top then v - top else v;
      rest < top && Bits(v, n) == Bits(rest, n - 1) + if v >= top then {n - 1} else {}
  {
  }

  lemma HighestHasBit(v: nat, p: nat)
    requires 0 < p && v < 2 * p
    ensures HasBit(v, p) <==> v >= p
  {
    QuotientUnique(v, p, if v >= p then 1 else 0);
  }

  lemma AddedHasBit(x: nat, i: nat, n: nat)
    requires i < n
    ensures HasBit(x + Pow2(n), Pow2(i)) <==> HasBit(x, Pow2(i))
  {
    Twice(n - i);
    hide Pow2, HasBit;
    Pow2Add(i, n - i);
    AddMultiple(x, Pow2(i), Pow2(n - 1 - i));
  }

  lemma Twice(n: nat)
    requires n > 0
    ensures Pow2(n) == 2 * Pow2(n - 1)
  {
  }

  lemma AddMultiple(x: nat, m: nat, k: nat)
    requires m > 0
    ensures HasBit(x + m * (2 * k), m) <==> HasBit(x, m)
  {
    var q, r := x / m, x % m;
    assert x == q * m + r;
    Distribute(q, k, m);
    WithRemainder(x + m * (2 * k), m, q + 2 * k, r);
  }

  lemma WithRemainder(y: nat, m: nat, q: nat, r: nat)
    requires r < m && y == q * m + r
    ensures y / m == q
  {
    QuotientUnique(y, m, q);
  }

  lemma Distribute(q: nat, k: nat, m: nat)
    ensures (q + 2 * k) * m == q * m + m * (2 * k)
  {
  }

  lemma {:induction false} LowBitsFrame(a: Word, b: Word, n: nat)
    requires forall i: nat :: i < n ==> (i in a <==> i in b)
    ensures LowBits(a, n) == LowBits(b, n)
  {
    if n > 0 { LowBitsFrame(a, b, n - 1); }
  }

  /** a and b agree above bit d, which only b has. */
  ghost predicate LessAt(a: Word, b: Word, d: nat) {
    d in b && d !in a && forall e: nat :: e > d ==> (e in a <==> e in b)
  }

  /** The highest bit in which words differ decides which number is less. */
  lemma {:induction false} LessAtIsLess(a: Word, b: Word, d: nat, n: nat)
    requires LessAt(a, b, d) && d < n
    ensures LowBits(a, n) < LowBits(b, n)
    decreases n
  {
    if d < n - 1 { LessAtIsLess(a, b, d, n - 1); }
  }

  /** The highest one-bit below n. */
  function HighestBit(w: Word, n: nat): (h: nat)
    requires w != {} && Below(w, n)
    ensures h in w && forall i :: i in w ==> i <= h
    decreases n
  {
    if n - 1 in w then n - 1 else HighestBit(w, n - 1)
  }

  lemma XorApart(a: Word, b: Word, n: nat)
    requires a != b && Below(a, n) && Below(b, n)
    ensures Xor(a, b) != {} && Below(Xor(a, b), n)
  {
    var i :| (i in a && i !in b) || (i in b && i !in a);
    assert i in Xor(a, b);
  }
}
