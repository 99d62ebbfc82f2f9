/** CRC-32C as its standards give it (section 12.1 of RFC 3720): division by the polynomial 0x11EDC6F41,
    highest power first, of the message with the bits of each byte lowest first, starting from ones and
    complemented; against the register with reversed bits of ccan/ccan/crc32c/crc32c.c. */
module CrcSerial {
  import opened Words
  import opened Crc32c

  /** x^28 + x^27 + ... + 1: the polynomial without its x^32. */
  const GENERATOR: Word := {28, 27, 26, 25, 23, 22, 20, 19, 18, 14, 13, 11, 10, 9, 8, 6, 0}

  /** A remainder times x, reduced. */
  function TimesX(r: Word): Word {
    var s := ShiftLeft(r, 1) - {32};
    if 31 in r then Xor(s, GENERATOR) else s
  }

  /** One bit of the message enters at the highest power. */
  function TakeBit(r: Word, bit: bool): Word {
    TimesX(if bit then Xor(r, {31}) else r)
  }

  function TakeBits(r: Word, bits: seq<bool>): Word
    decreases |bits|
  {
    if bits == [] then r else TakeBits(TakeBit(r, bits[0]), bits[1..])
  }

  /** The bits of a byte, lowest first. */
  function BitsOfByte(b: Byte): (s: seq<bool>)
    ensures |s| == 8
  {
    seq(8, i requires 0 <= i < 8 => HasBit(b as nat, Pow2(i)))
  }

  function BitsOfAll(s: seq<Byte>): seq<bool> {
    if s == [] then [] else BitsOfByte(s[0]) + BitsOfAll(s[1..])
  }

  /** A 32-bit word with its bits reversed. */
  function Reversed(w: Word): Word {
    set i | i in w && i < 32 :: 31 - i
  }

  lemma ReversedBit(w: Word, i: nat)
    ensures i in Reversed(w) <==> i < 32 && 31 - i in w
  {
    if i < 32 && 31 - i in w { assert 31 - (31 - i) == i; }
  }

  lemma GeneratorIsPoly(i: nat)
    requires i < 32
    ensures i in GENERATOR <==> 31 - i in Poly()
  {
  }

  lemma TimesXBit(r: Word, i: nat)
    requires Below(r, 32) && i < 32
    ensures i in TimesX(r) <==> ((i > 0 && i - 1 in r) != (31 in r && i in GENERATOR))
  {
    ShiftBit(r, 1, i);
    hide ShiftLeft;
  }

  lemma TimesXBelow(r: Word, i: nat)
    requires Below(r, 32) && i in TimesX(r)
    ensures i < 32
  {
    ShiftBit(r, 1, i);
    hide ShiftLeft;
  }

  /** Feeding a zero bit is multiplying by x. */
  lemma ReversedStep(c: Word)
    requires Below(c, 32)
    ensures Below(Step(c), 32) && Reversed(Step(c)) == TimesX(Reversed(c))
  {
    var r := Reversed(c);
    assert Below(r, 32) by { forall i | i in r ensures i < 32 { ReversedBit(c, i); } }
    forall i | i in Step(c) ensures i < 32 { StepBit(c, i); }
    forall i: nat ensures i in Reversed(Step(c)) <==> i in TimesX(r) {
      ReversedBit(Step(c), i);
      if i < 32 { ReversedStepBit(c, i); }
      if i in TimesX(r) { TimesXBelow(r, i); }
    }
  }

  lemma ReversedStepBit(c: Word, i: nat)
    requires Below(c, 32) && Below(Reversed(c), 32) && i < 32
    ensures 31 - i in Step(c) <==> i in TimesX(Reversed(c))
  {
    hide Step, TimesX, Reversed, Poly;
    StepBit(c, 31 - i);
    TimesXBit(Reversed(c), i);
    GeneratorIsPoly(i);
    ReversedBit(c, 31);
    if i > 0 { ReversedBit(c, i - 1); }
  }

  /** The lowest n bits of a word as they are fed. */
  ghost predicate Spells(bits: seq<bool>, w: Word) {
    Below(w, |bits|) && forall i :: 0 <= i < |bits| ==> (bits[i] <==> i in w)
  }

  /** Bits xored into the low end and shifted out are taken one by one. */
  lemma {:induction false} StepsTakeBits(c: Word, w: Word, bits: seq<bool>)
    requires Below(c, 32) && Spells(bits, w) && |bits| <= 32
    ensures Below(Steps(|bits|, Xor(c, w)), 32)
    ensures Reversed(Steps(|bits|, Xor(c, w))) == TakeBits(Reversed(c), bits)
    decreases |bits|
  {
    if bits == [] {
      assert w == {} && Xor(c, w) == c;
    } else {
      var first := if bits[0] then {0} else {};
      var d, rest := Xor(c, first), ShiftRight(w, 1);
      FirstBit(c, w, bits[0]);
      assert Spells(bits[1..], rest) by { forall i: nat ensures i in rest <==> i + 1 in w { ShiftBit(w, 1, i); } }
      assert Below(d, 32);
      ReversedStep(d);
      assert Reversed(Step(d)) == TakeBit(Reversed(c), bits[0]) by { ReversedFirst(c, bits[0]); }
      hide Step, Xor, TakeBit, Reversed, ShiftRight;
      StepsTakeBits(Step(d), rest, bits[1..]);
    }
  }

  lemma FirstBit(c: Word, w: Word, bit: bool)
    requires bit <==> 0 in w
    ensures Step(Xor(c, w)) == Xor(Step(Xor(c, if bit then {0} else {})), ShiftRight(w, 1))
  {
    var first: Word := if bit then {0} else {};
    var rest := w - first;
    assert Xor(c, w) == Xor(Xor(c, first), rest);
    StepXor(Xor(c, first), rest);
    assert Step(rest) == ShiftRight(rest, 1);
    assert ShiftRight(rest, 1) == ShiftRight(w, 1) by {
      forall i: nat ensures i in ShiftRight(rest, 1) <==> i in ShiftRight(w, 1) {
        ShiftBit(rest, 1, i);
        ShiftBit(w, 1, i);
      }
    }
  }

  lemma ReversedFirst(c: Word, bit: bool)
    ensures Reversed(Xor(c, if bit then {0} else {})) == if bit then Xor(Reversed(c), {31}) else Reversed(c)
  {
    var first: Word := if bit then {0} else {};
    forall i: nat ensures i in Reversed(Xor(c, first)) <==> i in if bit then Xor(Reversed(c), {31}) else Reversed(c) {
      ReversedBit(Xor(c, first), i);
      ReversedBit(c, i);
    }
  }

  lemma ByteSpelled(b: Byte)
    ensures Spells(BitsOfByte(b), ByteBits(b))
  {
    assert Pow2(8) == 256;
    forall i | 0 <= i < 8 ensures BitsOfByte(b)[i] <==> i in ByteBits(b) { BitsAt(b as nat, 8, i); }
  }

  lemma {:induction false} TakeAppend(r: Word, s: seq<bool>, t: seq<bool>)
    ensures TakeBits(r, s + t) == TakeBits(TakeBits(r, s), t)
    decreases |s|
  {
    hide TakeBit;
    if s == [] {
      assert s + t == t;
    } else {
      assert (s + t)[1..] == s[1..] + t;
      TakeAppend(TakeBit(r, s[0]), s[1..], t);
    }
  }

  lemma {:induction false} FeedIsDivision(c: Word, s: seq<Byte>)
    requires Below(c, 32)
    ensures Reversed(FeedAll(c, s)) == TakeBits(Reversed(c), BitsOfAll(s))
    decreases |s|
  {
    hide TakeBits, BitsOfByte, Steps, Xor, ByteBits, Reversed;
    if s == [] {
      TakeNone(Reversed(c));
    } else {
      ByteSpelled(s[0]);
      StepsTakeBits(c, ByteBits(s[0]), BitsOfByte(s[0]));
      FeedIsDivision(Feed(c, s[0]), s[1..]);
      TakeAppend(Reversed(c), BitsOfByte(s[0]), BitsOfAll(s[1..]));
    }
  }

  lemma TakeNone(r: Word)
    ensures TakeBits(r, []) == r
  {
  }

  /** The checksum of s by itself: all ones divided through s, complemented, with its bits reversed. */
  lemma CrcIsStandard(s: seq<Byte>)
    ensures Crc({}, s) == Reversed(Not(TakeBits(BitsBelow(32), BitsOfAll(s))))
  {
    hide FeedAll, TakeBits, Reversed, BitsOfAll;
    var ones := BitsBelow(32);
    AllOnes();
    FeedIsDivision(ones, s);
    ReversedNot(FeedAll(ones, s));
  }

  lemma AllOnes()
    ensures Not({}) == BitsBelow(32) == Reversed(BitsBelow(32))
  {
    var ones := BitsBelow(32);
    forall i: nat ensures i in Reversed(ones) <==> i in ones { ReversedBit(ones, i); }
    hide BitsBelow, Reversed;
  }

  lemma ReversedNot(r: Word)
    ensures Not(r) == Reversed(Not(Reversed(r)))
  {
    hide Reversed, BitsBelow;
    forall i: nat ensures i in Not(r) <==> i in Reversed(Not(Reversed(r))) {
      ReversedBit(Not(Reversed(r)), i);
      if i < 32 { ReversedBit(r, 31 - i); }
    }
  }
}
