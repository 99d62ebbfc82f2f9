/** ccan/ccan/crc32c/crc32c.c: CRC-32C (section 12.1 of RFC 3720) eight bytes at a time through
    tables, and three interleaved blocks at a time joined by zeros operators, both against the
    definition that feeds one bit at a time. */
module Crc32c {
  import opened Words

  /** 0x82f63b78, the polynomial in reversed bit order. */
  function Poly(): (p: Word)
    ensures forall i :: i in p ==> i < 32
  {
    {3, 4, 5, 6, 8, 9, 11, 12, 13, 17, 18, 20, 21, 22, 23, 25, 31}
  }

  // ---- Definition ----

  /** Feeding a zero bit. */
  function Step(c: Word): Word {
    if 0 in c then Xor(ShiftRight(c, 1), Poly()) else ShiftRight(c, 1)
  }

  /** Feeding k zero bits. */
  function Steps(k: nat, c: Word): Word {
    if k == 0 then c else Steps(k - 1, Step(c))
  }

  newtype Byte = b: int | 0 <= b < 256

  function ByteBits(b: Byte): (w: Word)
    ensures forall i :: i in w ==> i < 8
  {
    assert Pow2(8) == 256;
    Bits(b as nat, 8)
  }

  /** Feeding the bits of a byte, lowest first. */
  function Feed(c: Word, b: Byte): Word {
    Steps(8, Xor(c, ByteBits(b)))
  }

  function FeedAll(c: Word, s: seq<Byte>): Word
    decreases |s|
  {
    if s == [] then c else FeedAll(Feed(c, s[0]), s[1..])
  }

  /** ~c in 32 bits. */
  function Not(c: Word): Word {
    BitsBelow(32) - c
  }

  /** The checksum of s appended to data with checksum crc. */
  function Crc(crc: Word, s: seq<Byte>): Word {
    Not(FeedAll(Not(crc), s))
  }

  // ---- Linearity ----

  lemma XorLaws(a: Word, b: Word, c: Word)
    ensures Xor(Xor(a, b), c) == Xor(a, Xor(b, c)) && Xor(a, b) == Xor(b, a) && Xor(a, {}) == a == Xor({}, a)
  {
  }

  lemma StepBit(c: Word, i: nat)
    ensures i in Step(c) <==> ((i + 1 in c) != (0 in c && i in Poly()))
  {
    hide ShiftRight, Poly;
    ShiftBit(c, 1, i);
  }

  lemma StepXor(a: Word, b: Word)
    ensures Step(Xor(a, b)) == Xor(Step(a), Step(b))
  {
    forall i: nat ensures i in Step(Xor(a, b)) <==> i in Xor(Step(a), Step(b)) {
      StepBit(a, i);
      StepBit(b, i);
      StepBit(Xor(a, b), i);
      hide Step, Poly;
    }
  }

  lemma {:induction false} StepsXor(k: nat, a: Word, b: Word)
    ensures Steps(k, Xor(a, b)) == Xor(Steps(k, a), Steps(k, b))
  {
    hide Step, Xor;
    if k > 0 {
      StepXor(a, b);
      StepsXor(k - 1, Step(a), Step(b));
    }
  }

  lemma {:induction false} StepsAdd(j: nat, k: nat, c: Word)
    ensures Steps(j + k, c) == Steps(k, Steps(j, c))
    decreases j
  {
    hide Step;
    if j > 0 { StepsAdd(j - 1, k, Step(c)); }
  }

  /** Zero bits over a word whose low bits are zero only shift it. */
  lemma {:induction false} StepsHigh(k: nat, c: Word)
    requires forall i :: i in c ==> i >= k
    ensures Steps(k, c) == ShiftRight(c, k)
    decreases k
  {
    if k == 0 {
      assert ShiftRight(c, 0) == c by { forall i: nat ensures i in ShiftRight(c, 0) <==> i in c { ShiftBit(c, 0, i); } }
    } else {
      var d := ShiftRight(c, 1);
      assert Step(c) == d;
      assert ShiftRight(d, k - 1) == ShiftRight(c, k) by {
        forall i: nat ensures i in ShiftRight(d, k - 1) <==> i in ShiftRight(c, k) {
          ShiftBit(d, k - 1, i);
          ShiftBit(c, 1, i + k - 1);
          ShiftBit(c, k, i);
        }
      }
      forall i | i in d ensures i >= k - 1 { ShiftBit(c, 1, i); }
      hide Step, ShiftRight;
      StepsHigh(k - 1, d);
    }
  }

  lemma {:induction false} StepsBelow(k: nat, c: Word, n: nat)
    requires Below(c, n) && n >= 32
    ensures Below(Steps(k, c), n)
    decreases k
  {
    if k > 0 {
      forall i | i in Step(c) ensures i < n { StepBit(c, i); }
      hide Step;
      StepsBelow(k - 1, Step(c), n);
    }
  }

  /** What was fed before enters linearly, as if followed by zero bits. */
  lemma {:induction false} FeedAllXor(c: Word, d: Word, s: seq<Byte>)
    ensures FeedAll(Xor(c, d), s) == Xor(Steps(8 * |s|, c), FeedAll(d, s))
    decreases |s|
  {
    hide Steps, Xor, ByteBits;
    if s == [] {
      StepsNone(c);
    } else {
      var b := ByteBits(s[0]);
      XorLaws(c, d, b);
      StepsXor(8, c, Xor(d, b));
      FeedAllXor(Steps(8, c), Feed(d, s[0]), s[1..]);
      StepsAdd(8, 8 * (|s| - 1), c);
    }
  }

  lemma StepsNone(c: Word)
    ensures Steps(0, c) == c
  {
  }

  lemma {:induction false} FeedAllAppend(c: Word, s: seq<Byte>, t: seq<Byte>)
    ensures FeedAll(c, s + t) == FeedAll(FeedAll(c, s), t)
    decreases |s|
  {
    hide Feed;
    if s == [] {
      assert s + t == t;
    } else {
      assert (s + t)[1..] == s[1..] + t;
      FeedAllAppend(Feed(c, s[0]), s[1..], t);
    }
  }

  lemma {:induction false} FeedAllBelow(c: Word, s: seq<Byte>)
    requires Below(c, 32)
    ensures Below(FeedAll(c, s), 32)
    decreases |s|
  {
    if s != [] {
      StepsBelow(8, Xor(c, ByteBits(s[0])), 32);
      hide Steps, Xor, ByteBits;
      FeedAllBelow(Feed(c, s[0]), s[1..]);
    }
  }

  /** Checksums chain: one pass over two pieces is two passes. */
  lemma Chaining(crc: Word, s: seq<Byte>, t: seq<Byte>)
    ensures Crc(crc, s + t) == Crc(Crc(crc, s), t)
  {
    FeedAllAppend(Not(crc), s, t);
    FeedAllBelow(Not(crc), s);
    assert Not(Not(FeedAll(Not(crc), s))) == FeedAll(Not(crc), s);
  }

  /** The checksum of a concatenation from the checksums of its parts: shift the first by the
      second's length in zeros. */
  lemma Combine(c: Word, s: seq<Byte>, t: seq<Byte>)
    ensures FeedAll(c, s + t) == Xor(Steps(8 * |t|, FeedAll(c, s)), FeedAll({}, t))
  {
    hide FeedAll, Steps;
    FeedAllAppend(c, s, t);
    XorLaws(FeedAll(c, s), {}, {});
    FeedAllXor(FeedAll(c, s), {}, t);
  }

  // ---- Whole words at a time ----

  /** The bytes of s as one word, the first lowest. */
  function Load(s: seq<Byte>): (w: Word)
    ensures forall i :: i in w ==> i < 8 * |s|
  {
    if s == [] then {} else Xor(ByteBits(s[0]), ShiftLeft(Load(s[1..]), 8))
  }

  /** Shifting up and feeding as many zero bits is nothing. */
  lemma StepsUp(w: Word, k: nat)
    ensures Steps(k, ShiftLeft(w, k)) == w
  {
    var u := ShiftLeft(w, k);
    StepsHigh(k, u);
    forall i: nat ensures i in ShiftRight(u, k) <==> i in w {
      ShiftBit(u, k, i);
      ShiftBit(w, k, i + k);
    }
  }

  /** Feeding bytes one by one is xoring them in as one word and feeding zeros. */
  lemma {:induction false} FeedIsLoad(c: Word, s: seq<Byte>)
    ensures FeedAll(c, s) == Steps(8 * |s|, Xor(c, Load(s)))
    decreases |s|
  {
    hide Steps, Xor, ByteBits, ShiftLeft;
    if s == [] {
      StepsNone(c);
      XorLaws(c, {}, {});
    } else {
      var b, up := ByteBits(s[0]), ShiftLeft(Load(s[1..]), 8);
      FeedIsLoad(Feed(c, s[0]), s[1..]);
      XorLaws(c, b, up);
      StepsXor(8, Xor(c, b), up);
      StepsUp(Load(s[1..]), 8);
      StepsAdd(8, 8 * (|s| - 1), Xor(c, Load(s)));
    }
  }

  function Low(w: Word): (r: Word)
    ensures Below(r, 8)
  {
    w * BitsBelow(8)
  }

  /** The table step: the low byte goes through k zero bytes, the rest is shifted first. */
  lemma ByteStep(k: nat, w: Word)
    requires k >= 8
    ensures Steps(k, w) == Xor(Steps(k, Low(w)), Steps(k - 8, ShiftRight(w, 8)))
  {
    var high := w - BitsBelow(8);
    assert w == Xor(Low(w), high);
    StepsHigh(8, high);
    assert ShiftRight(high, 8) == ShiftRight(w, 8) by {
      forall i: nat ensures i in ShiftRight(high, 8) <==> i in ShiftRight(w, 8) {
        ShiftBit(high, 8, i);
        ShiftBit(w, 8, i);
      }
    }
    hide Steps, Xor;
    StepsXor(k, Low(w), high);
    StepsAdd(8, k - 8, high);
  }

  // ---- Tables ----

  /** t[n] is byte n followed by k zero bits. */
  ghost predicate TableOk(t: seq<Word>, k: nat) {
    |t| == 256 && forall n: Byte :: t[n] == Steps(k, ByteBits(n))
  }

  /** crc32c_table_little. */
  ghost predicate TablesOk(t: seq<seq<Word>>) {
    |t| == 8 && forall k :: 0 <= k < 8 ==> TableOk(t[k], 8 * (k + 1))
  }

  function Index(w: Word): (n: Byte) {
    assert Pow2(8) == 256;
    LowBits(w, 8) as Byte
  }

  lemma IndexBits(w: Word)
    ensures ByteBits(Index(w)) == Low(w)
  {
    assert Pow2(8) == 256;
    BitsOfLow(w, 8);
  }

  lemma Lookup(t: seq<Word>, k: nat, w: Word)
    requires TableOk(t, k)
    ensures t[Index(w)] == Steps(k, Low(w))
  {
    hide Steps;
    IndexBits(w);
  }

  /** One byte through a table: table[w & 0xff] ^ (w >> 8). */
  lemma LookupStep(t: seq<Word>, w: Word)
    requires TableOk(t, 8)
    ensures Xor(t[Index(w)], ShiftRight(w, 8)) == Steps(8, w)
  {
    hide Steps, Xor, ShiftRight;
    Lookup(t, 8, w);
    ByteStep(8, w);
    StepsNone(ShiftRight(w, 8));
  }

  /** The first table of crc32c_init_sw_little. */
  method FirstTable() returns (t: seq<Word>)
    ensures TableOk(t, 8)
  {
    t := [];
    for n := 0 to 256
      invariant |t| == n && forall m: Byte :: m as int < n ==> t[m] == Steps(8, ByteBits(m))
    {
      hide Step;
      var c0 := ByteBits(n as Byte);
      var crc := c0;
      for j := 0 to 8
        invariant Steps(8 - j, crc) == Steps(8, c0)
      {
        crc := Step(crc);
      }
      t := t + [crc];
    }
  }

  /** crc32c_init_sw_little. */
  method InitTables() returns (t: seq<seq<Word>>)
    ensures TablesOk(t)
  {
    hide Steps, ByteBits, Xor, ShiftRight;
    var first := FirstTable();
    t := [first, first, first, first, first, first, first, first];
    for n := 0 to 256
      invariant |t| == 8 && t[0] == first && forall k :: 0 <= k < 8 ==> |t[k]| == 256
      invariant forall k, m: Byte :: 0 <= k < 8 && (m as int < n || k == 0) ==>
        t[k][m] == Steps(8 * (k + 1), ByteBits(m))
    {
      ghost var c0 := ByteBits(n as Byte);
      var crc := first[n];
      ghost var t0 := t;
      for k := 1 to 8
        invariant |t| == 8 && t[0] == first && forall j :: 0 <= j < 8 ==> |t[j]| == 256
        invariant forall j, m: Byte :: 0 <= j < 8 && m as int != n ==> t[j][m] == t0[j][m]
        invariant forall j :: 0 <= j < k ==> t[j][n] == Steps(8 * (j + 1), c0)
        invariant crc == Steps(8 * k, c0)
      {
        LookupStep(first, crc);
        StepsAdd(8 * k, 8, c0);
        crc := Xor(first[Index(crc)], ShiftRight(crc, 8));
        t := t[k := t[k][n := crc]];
      }
    }
  }

  // ---- Software: slicing by eight ----

  /** The bytes of w through tables m - 1 down to 0, xored together. */
  function Slices(t: seq<seq<Word>>, w: Word, m: nat): Word
    requires m <= |t| && forall k :: 0 <= k < m ==> |t[k]| == 256
    decreases m
  {
    if m == 0 then {} else Xor(t[m - 1][Index(w)], Slices(t, ShiftRight(w, 8), m - 1))
  }

  lemma {:induction false} SlicesAreSteps(t: seq<seq<Word>>, w: Word, m: nat)
    requires m <= |t| && forall k :: 0 <= k < m ==> |t[k]| == 256 && TableOk(t[k], 8 * (k + 1))
    requires Below(w, 8 * m)
    ensures Slices(t, w, m) == Steps(8 * m, w)
    decreases m
  {
    if m == 0 {
      assert w == {};
    } else {
      forall i | i in ShiftRight(w, 8) ensures i < 8 * (m - 1) { ShiftBit(w, 8, i); }
      hide Steps, Xor, ShiftRight;
      Lookup(t[m - 1], 8 * m, w);
      ByteStep(8 * m, w);
      SlicesAreSteps(t, ShiftRight(w, 8), m - 1);
    }
  }

  /** The expression of the eight-byte loop. */
  function EightLookups(t: seq<seq<Word>>, w: Word): Word
    requires |t| == 8 && forall k :: 0 <= k < 8 ==> |t[k]| == 256
  {
    Xor(t[7][Index(w)],
    Xor(t[6][Index(ShiftRight(w, 8))],
    Xor(t[5][Index(ShiftRight(w, 16))],
    Xor(t[4][Index(ShiftRight(w, 24))],
    Xor(t[3][Index(ShiftRight(w, 32))],
    Xor(t[2][Index(ShiftRight(w, 40))],
    Xor(t[1][Index(ShiftRight(w, 48))],
        t[0][Index(ShiftRight(w, 56))])))))))
  }

  lemma ShiftTwice(w: Word, j: nat, k: nat)
    ensures ShiftRight(ShiftRight(w, j), k) == ShiftRight(w, j + k)
  {
    forall i: nat ensures i in ShiftRight(ShiftRight(w, j), k) <==> i in ShiftRight(w, j + k) {
      ShiftBit(ShiftRight(w, j), k, i);
      ShiftBit(w, j, i + k);
      ShiftBit(w, j + k, i);
    }
  }

  lemma EightAreSlices(t: seq<seq<Word>>, w: Word)
    requires |t| == 8 && forall k :: 0 <= k < 8 ==> |t[k]| == 256
    ensures EightLookups(t, w) == Slices(t, w, 8)
  {
    hide Xor, ShiftRight, Index;
    var w1, w2, w3 := ShiftRight(w, 8), ShiftRight(w, 16), ShiftRight(w, 24);
    var w4, w5, w6, w7 := ShiftRight(w, 32), ShiftRight(w, 40), ShiftRight(w, 48), ShiftRight(w, 56);
    ShiftTwice(w, 8, 8); ShiftTwice(w, 16, 8); ShiftTwice(w, 24, 8); ShiftTwice(w, 32, 8);
    ShiftTwice(w, 40, 8); ShiftTwice(w, 48, 8);
    XorLaws(t[0][Index(w7)], {}, {});
    assert Slices(t, ShiftRight(w7, 8), 0) == {};
    assert Slices(t, w7, 1) == t[0][Index(w7)];
    assert Slices(t, w6, 2) == Xor(t[1][Index(w6)], Slices(t, w7, 1));
    assert Slices(t, w5, 3) == Xor(t[2][Index(w5)], Slices(t, w6, 2));
    assert Slices(t, w4, 4) == Xor(t[3][Index(w4)], Slices(t, w5, 3));
    assert Slices(t, w3, 5) == Xor(t[4][Index(w3)], Slices(t, w4, 4));
    assert Slices(t, w2, 6) == Xor(t[5][Index(w2)], Slices(t, w3, 5));
    assert Slices(t, w1, 7) == Xor(t[6][Index(w1)], Slices(t, w2, 6));
  }

  /** Eight bytes at once. */
  lemma EightBytes(t: seq<seq<Word>>, c: Word, s: seq<Byte>)
    requires TablesOk(t) && Below(c, 32) && |s| == 8
    ensures EightLookups(t, Xor(c, Load(s))) == FeedAll(c, s)
  {
    hide Steps, TableOk, EightLookups, Slices, FeedAll;
    var w := Xor(c, Load(s));
    assert Below(w, 64);
    hide Xor, Load;
    Sized(t);
    EightAreSlices(t, w);
    SlicesAreSteps(t, w, 8);
    FeedIsLoad(c, s);
  }

  lemma Sized(t: seq<seq<Word>>)
    requires TablesOk(t)
    ensures |t| == 8 && forall k :: 0 <= k < 8 ==> |t[k]| == 256
    ensures TableOk(t[0], 8)
  {
    assert forall k :: 0 <= k < 8 ==> TableOk(t[k], 8 * (k + 1));
  }

  /** One byte through the first table. */
  lemma OneByte(t: seq<Word>, c: Word, b: Byte)
    requires TableOk(t, 8)
    ensures Xor(t[Index(Xor(c, ByteBits(b)))], ShiftRight(c, 8)) == Feed(c, b)
  {
    var w := Xor(c, ByteBits(b));
    assert ShiftRight(w, 8) == ShiftRight(c, 8) by {
      forall i: nat ensures i in ShiftRight(w, 8) <==> i in ShiftRight(c, 8) {
        ShiftBit(w, 8, i);
        ShiftBit(c, 8, i);
      }
    }
    hide Steps, Xor, ShiftRight;
    LookupStep(t, w);
  }

  lemma FeedNext(c: Word, s: seq<Byte>, i: nat, n: nat)
    requires i + n <= |s|
    ensures FeedAll(c, s[..i + n]) == FeedAll(FeedAll(c, s[..i]), s[i..i + n])
  {
    assert s[..i + n] == s[..i] + s[i..i + n];
    FeedAllAppend(c, s[..i], s[i..i + n]);
  }

  lemma FeedOne(c: Word, s: seq<Byte>, i: nat)
    requires i < |s|
    ensures FeedAll(c, s[..i + 1]) == Feed(FeedAll(c, s[..i]), s[i])
  {
    FeedNext(c, s, i, 1);
    var b := s[i..i + 1];
    assert b == [s[i]] && b[1..] == [];
  }

  /** crc32c_sw_little: for a buffer at any address, the checksum by definition. */
  method SwLittle(t: seq<seq<Word>>, crc: Word, buf: seq<Byte>, addr: nat) returns (r: Word)
    requires TablesOk(t) && Below(crc, 32)
    ensures r == Crc(crc, buf)
  {
    hide TablesOk, Steps, Feed, FeedAll, EightLookups, Xor, ShiftRight, Load, ByteBits;
    Sized(t);
    var c0 := Not(crc);
    var c := c0;
    var next := 0;
    FeedNone(c0, buf);
    while next < |buf| && (addr + next) % 8 != 0
      invariant next <= |buf| && c == FeedAll(c0, buf[..next])
    {
      OneByte(t[0], c, buf[next]);
      FeedOne(c0, buf, next);
      c := Xor(t[0][Index(Xor(c, ByteBits(buf[next])))], ShiftRight(c, 8));
      next := next + 1;
    }
    while |buf| - next >= 8
      invariant next <= |buf| && c == FeedAll(c0, buf[..next])
    {
      FeedAllBelow(c0, buf[..next]);
      EightBytes(t, c, buf[next..next + 8]);
      FeedNext(c0, buf, next, 8);
      c := EightLookups(t, Xor(c, Load(buf[next..next + 8])));
      next := next + 8;
    }
    while next < |buf|
      invariant next <= |buf| && c == FeedAll(c0, buf[..next])
    {
      OneByte(t[0], c, buf[next]);
      FeedOne(c0, buf, next);
      c := Xor(t[0][Index(Xor(c, ByteBits(buf[next])))], ShiftRight(c, 8));
      next := next + 1;
    }
    assert buf[..next] == buf;
    r := Not(c);
  }

  lemma FeedNone(c: Word, s: seq<Byte>)
    ensures FeedAll(c, s[..0]) == c
  {
    assert s[..0] == [];
  }

  // ---- Zeros operators ----

  /** gf2_matrix_times. */
  function Times(mat: seq<Word>, v: Word): Word
    decreases |mat|
  {
    if mat == [] then {} else Xor(if 0 in v then mat[0] else {}, Times(mat[1..], ShiftRight(v, 1)))
  }

  /** mat is the operator that feeds k zero bits to words of |mat| bits. */
  ghost predicate IsOp(mat: seq<Word>, k: nat) {
    |mat| == 32 && forall n :: 0 <= n < 32 ==> mat[n] == Steps(k, {n})
  }

  lemma {:induction false} TimesFrom(mat: seq<Word>, k: nat, j: nat, v: Word)
    requires IsOp(mat, k) && j <= 32 && Below(v, 32 - j)
    ensures Times(mat[j..], v) == Steps(k, ShiftLeft(v, j))
    decreases 32 - j
  {
    hide Steps;
    if j == 32 {
      assert v == {} && ShiftLeft(v, j) == {};
      StepsOfNothing(k);
    } else {
      var u, rest := if 0 in v then {j} else {}, ShiftRight(v, 1);
      assert mat[j..][1..] == mat[j + 1..];
      forall i | i in rest ensures i < 32 - (j + 1) { ShiftBit(v, 1, i); }
      TimesFrom(mat, k, j + 1, rest);
      assert ShiftLeft(v, j) == Xor(u, ShiftLeft(rest, j + 1)) by { TopBit(v, j); }
      StepsXor(k, u, ShiftLeft(rest, j + 1));
      if 0 !in v { StepsOfNothing(k); }
    }
  }

  lemma TopBit(v: Word, j: nat)
    ensures ShiftLeft(v, j) == Xor(if 0 in v then {j} else {}, ShiftLeft(ShiftRight(v, 1), j + 1))
  {
    forall i: nat ensures i in ShiftLeft(v, j) <==>
      ((0 in v && i == j) != (i in ShiftLeft(ShiftRight(v, 1), j + 1)))
    {
      ShiftBit(v, j, i);
      ShiftBit(ShiftRight(v, 1), j + 1, i);
      if i >= j + 1 { ShiftBit(v, 1, i - j - 1); }
    }
    hide ShiftLeft, ShiftRight;
  }

  lemma {:induction false} StepsOfNothing(k: nat)
    ensures Steps(k, {}) == {}
  {
    if k > 0 {
      assert Step({}) == {};
      StepsOfNothing(k - 1);
    }
  }

  /** The matrix applies the operator. */
  lemma TimesIsSteps(mat: seq<Word>, k: nat, v: Word)
    requires IsOp(mat, k) && Below(v, 32)
    ensures Times(mat, v) == Steps(k, v)
  {
    assert mat[0..] == mat;
    forall i: nat ensures i in ShiftLeft(v, 0) <==> i in v { ShiftBit(v, 0, i); }
    assert ShiftLeft(v, 0) == v;
    hide Times, Steps, ShiftLeft, IsOp;
    TimesFrom(mat, k, 0, v);
  }

  /** gf2_matrix_times as the loop over the bits of vec. */
  method MatrixTimes(mat: seq<Word>, vec: Word) returns (sum: Word)
    requires |mat| == 32 && Below(vec, 32)
    ensures sum == Times(mat, vec)
  {
    sum := {};
    var v, n := vec, 0;
    assert mat[0..] == mat;
    XorLaws(Times(mat, vec), {}, {});
    while v != {}
      invariant n <= 32 && Below(v, 32 - n) && Xor(sum, Times(mat[n..], v)) == Times(mat, vec)
      decreases 32 - n
    {
      assert n < 32 by { var i :| i in v; }
      assert mat[n..][1..] == mat[n + 1..];
      ghost var rest := Times(mat[n + 1..], ShiftRight(v, 1));
      XorLaws(sum, if 0 in v then mat[n] else {}, rest);
      forall i | i in ShiftRight(v, 1) ensures i < 32 - (n + 1) { ShiftBit(v, 1, i); }
      if 0 in v { sum := Xor(sum, mat[n]); }
      v := ShiftRight(v, 1);
      n := n + 1;
    }
    TimesNothing(mat[n..]);
    XorLaws(sum, {}, {});
  }

  lemma {:induction false} TimesNothing(mat: seq<Word>)
    ensures Times(mat, {}) == {}
    decreases |mat|
  {
    if mat != [] {
      assert ShiftRight({}, 1) == {};
      TimesNothing(mat[1..]);
    }
  }

  /** gf2_matrix_square: twice as many zeros. */
  method MatrixSquare(mat: seq<Word>, ghost k: nat) returns (square: seq<Word>)
    requires IsOp(mat, k)
    ensures IsOp(square, 2 * k)
  {
    hide Steps, Times;
    square := [];
    for n: nat := 0 to 32
      invariant |square| == n && forall j :: 0 <= j < n ==> square[j] == Steps(2 * k, {j})
    {
      StepsBelow(k, {n}, 32);
      var row := MatrixTimes(mat, mat[n]);
      TimesIsSteps(mat, k, mat[n]);
      StepsAdd(k, k, {n});
      square := square + [row];
    }
  }

  /** The largest power of two not above len; 1 for 0. */
  function FloorPow2(len: nat): nat {
    if len < 2 then 1 else 2 * FloorPow2(len / 2)
  }

  lemma {:induction false} FloorOfPow2(e: nat)
    ensures FloorPow2(Pow2(e)) == Pow2(e)
  {
    if e > 0 { FloorOfPow2(e - 1); }
  }

  /** The operator for one zero bit. */
  method OneZero() returns (odd: seq<Word>)
    ensures IsOp(odd, 1)
  {
    odd := [Poly()];
    var row := {0};
    StepOfUnit(0);
    for n: nat := 1 to 32
      invariant |odd| == n && row == {n - 1} && forall j :: 0 <= j < n ==> odd[j] == Steps(1, {j})
    {
      StepOfUnit(n);
      odd := odd + [row];
      assert ShiftLeft(row, 1) == {n} by {
        forall i: nat ensures i in ShiftLeft(row, 1) <==> i == n { ShiftBit(row, 1, i); }
      }
      row := ShiftLeft(row, 1);
    }
  }

  lemma StepOfUnit(n: nat)
    ensures Steps(1, {n}) == if n == 0 then Poly() else {n - 1}
  {
    var s := ShiftRight({n}, 1);
    forall i: nat ensures i in s <==> i + 1 == n { ShiftBit({n}, 1, i); }
    assert Steps(1, {n}) == Steps(0, Step({n})) == Step({n});
    if n == 0 {
      assert s == {};
      XorLaws(Poly(), {}, {});
    } else {
      assert s == {n - 1};
    }
  }

  lemma Quartered(k: nat, len: nat)
    ensures len >= 4 ==> k * FloorPow2(len) == (4 * k) * FloorPow2(len / 2 / 2)
    ensures len < 2 ==> k * FloorPow2(len) == k
    ensures 2 <= len < 4 ==> k * FloorPow2(len) == 2 * k
  {
    FloorHalves(len);
    if len >= 4 {
      var f := FloorPow2(len / 2 / 2);
      FloorHalves(len / 2);
      hide FloorPow2;
      Regroup(k, f, FloorPow2(len));
    } else if len >= 2 {
      assert FloorPow2(len / 2) == 1;
    }
  }

  lemma Regroup(k: nat, f: nat, g: nat)
    requires g == 4 * f
    ensures k * g == (4 * k) * f
  {
  }

  lemma FloorHalves(len: nat)
    ensures FloorPow2(len) == if len < 2 then 1 else 2 * FloorPow2(len / 2)
  {
  }

  /** crc32c_zeros_op: the operator for len zero bytes when len is a power of two, else for the
      largest power of two below. */
  method ZerosOp(length: nat) returns (even: seq<Word>)
    ensures IsOp(even, 8 * FloorPow2(length))
  {
    hide IsOp;
    var odd := OneZero();
    even := MatrixSquare(odd, 1);
    odd := MatrixSquare(even, 2);
    var len := length;
    ghost var k: nat := 4;
    while true
      invariant IsOp(odd, k) && 2 * (k * FloorPow2(len)) == 8 * FloorPow2(length)
      decreases len
    {
      Quartered(k, len);
      even := MatrixSquare(odd, k);
      len := len / 2;
      if len == 0 { return; }
      odd := MatrixSquare(even, 2 * k);
      len := len / 2;
      k := 4 * k;
      if len == 0 { break; }
    }
    even := odd;
  }

  /** The four tables apply the operator for k zero bits byte by byte. */
  ghost predicate ZerosOk(zeros: seq<seq<Word>>, k: nat) {
    |zeros| == 4 && forall j :: 0 <= j < 4 ==> ZeroTableOk(zeros[j], j, k)
  }

  ghost predicate ZeroTableOk(t: seq<Word>, j: nat, k: nat) {
    |t| == 256 && forall n: Byte :: t[n] == Steps(k, ShiftLeft(ByteBits(n), 8 * j))
  }

  /** One of the tables of crc32c_zeros. */
  method ZeroTable(op: seq<Word>, j: nat, ghost k: nat) returns (t: seq<Word>)
    requires IsOp(op, k) && j < 4
    ensures ZeroTableOk(t, j, k)
  {
    hide IsOp, Steps, Times, ByteBits;
    Op32(op, k);
    t := [];
    for n := 0 to 256
      invariant |t| == n && forall m: Byte :: m as int < n ==> t[m] == Steps(k, ShiftLeft(ByteBits(m), 8 * j))
    {
      var w := ShiftLeft(ByteBits(n as Byte), 8 * j);
      assert Below(w, 32);
      var x := MatrixTimes(op, w);
      TimesIsSteps(op, k, w);
      t := t + [x];
    }
  }

  lemma Op32(op: seq<Word>, k: nat)
    requires IsOp(op, k)
    ensures |op| == 32
  {
  }

  /** crc32c_zeros. */
  method Zeros(length: nat) returns (zeros: seq<seq<Word>>)
    ensures ZerosOk(zeros, 8 * FloorPow2(length))
  {
    hide IsOp, ZeroTableOk, FloorPow2;
    var op := ZerosOp(length);
    ghost var k := 8 * FloorPow2(length);
    var z0 := ZeroTable(op, 0, k);
    var z1 := ZeroTable(op, 1, k);
    var z2 := ZeroTable(op, 2, k);
    var z3 := ZeroTable(op, 3, k);
    zeros := [z0, z1, z2, z3];
  }

  /** crc32c_shift. */
  function Shift(zeros: seq<seq<Word>>, crc: Word): Word
    requires |zeros| == 4 && forall j :: 0 <= j < 4 ==> |zeros[j]| == 256
  {
    Xor(Xor(Xor(zeros[0][Index(crc)], zeros[1][Index(ShiftRight(crc, 8))]),
            zeros[2][Index(ShiftRight(crc, 16))]), zeros[3][Index(ShiftRight(crc, 24))])
  }

  /** Byte j of a word, in place. */
  ghost function ByteAt(w: Word, j: nat): Word {
    ShiftLeft(Low(ShiftRight(w, 8 * j)), 8 * j)
  }

  lemma ByteAtBit(w: Word, j: nat, i: nat)
    ensures i in ByteAt(w, j) <==> i in w && 8 * j <= i < 8 * j + 8
  {
    ShiftBit(Low(ShiftRight(w, 8 * j)), 8 * j, i);
    if i >= 8 * j { ShiftBit(w, 8 * j, i - 8 * j); }
  }

  lemma FourBytes(w: Word)
    requires Below(w, 32)
    ensures w == Xor(Xor(Xor(ByteAt(w, 0), ByteAt(w, 1)), ByteAt(w, 2)), ByteAt(w, 3))
  {
    forall i: nat ensures i in w <==> i in Xor(Xor(Xor(ByteAt(w, 0), ByteAt(w, 1)), ByteAt(w, 2)), ByteAt(w, 3)) {
      ByteAtBit(w, 0, i);
      ByteAtBit(w, 1, i);
      ByteAtBit(w, 2, i);
      ByteAtBit(w, 3, i);
      hide ByteAt;
    }
  }

  lemma ZeroLookup(zeros: seq<seq<Word>>, k: nat, j: nat, w: Word)
    requires ZerosOk(zeros, k) && j < 4
    ensures |zeros[j]| == 256 && zeros[j][Index(ShiftRight(w, 8 * j))] == Steps(k, ByteAt(w, j))
  {
    hide Steps, ShiftLeft, ShiftRight;
    assert ZeroTableOk(zeros[j], j, k);
    IndexBits(ShiftRight(w, 8 * j));
  }

  /** Shifting through the tables is feeding the zeros. */
  lemma ShiftIsSteps(zeros: seq<seq<Word>>, k: nat, w: Word)
    requires ZerosOk(zeros, k) && Below(w, 32)
    ensures |zeros| == 4 && forall j :: 0 <= j < 4 ==> |zeros[j]| == 256
    ensures Shift(zeros, w) == Steps(k, w)
  {
    hide Steps, Xor, ByteAt, ShiftRight, ZeroTableOk, Index;
    forall j: nat | j < 4 ensures |zeros[j]| == 256 { ZeroLookup(zeros, k, j, w); }
    ZeroLookup(zeros, k, 0, w);
    ShiftNone(w);
    ZeroLookup(zeros, k, 1, w);
    ZeroLookup(zeros, k, 2, w);
    ZeroLookup(zeros, k, 3, w);
    FourBytes(w);
    StepsXor(k, ByteAt(w, 0), ByteAt(w, 1));
    StepsXor(k, Xor(ByteAt(w, 0), ByteAt(w, 1)), ByteAt(w, 2));
    StepsXor(k, Xor(Xor(ByteAt(w, 0), ByteAt(w, 1)), ByteAt(w, 2)), ByteAt(w, 3));
  }

  lemma ShiftNone(w: Word)
    ensures ShiftRight(w, 0) == w
  {
    forall i: nat ensures i in ShiftRight(w, 0) <==> i in w { ShiftBit(w, 0, i); }
  }

  // ---- Hardware: three blocks at a time ----

  const LONG: nat := 8192
  const SHORT: nat := 256

  /** The crc32q instruction: eight bytes. */
  function Crc32q(c: Word, s: seq<Byte>): Word
    requires |s| == 8
  {
    FeedAll(c, s)
  }

  /** Three blocks fed side by side and joined by two shifts are the three in a row. */
  lemma ThreeBlocks(zeros: seq<seq<Word>>, c: Word, a: seq<Byte>, b: seq<Byte>, d: seq<Byte>)
    requires ZerosOk(zeros, 8 * |b|) && |b| == |d| && Below(c, 32)
    ensures |zeros| == 4 && forall j :: 0 <= j < 4 ==> |zeros[j]| == 256
    ensures Xor(Shift(zeros, Xor(Shift(zeros, FeedAll(c, a)), FeedAll({}, b))), FeedAll({}, d)) == FeedAll(c, a + b + d)
  {
    hide FeedAll, Steps, Shift, ZerosOk, Xor;
    FeedAllBelow(c, a);
    ShiftIsSteps(zeros, 8 * |b|, FeedAll(c, a));
    Combine(c, a, b);
    FeedAllBelow(c, a + b);
    ShiftIsSteps(zeros, 8 * |b|, FeedAll(c, a + b));
    Combine(c, a + b, d);
  }

  /** The body of the block loops: size bytes in each of three streams, eight at a time. */
  method ThreeWay(zeros: seq<seq<Word>>, c: Word, buf: seq<Byte>, start: nat, size: nat) returns (r: Word)
    requires size % 8 == 0 && ZerosOk(zeros, 8 * size) && Below(c, 32) && start + 3 * size <= |buf|
    ensures r == FeedAll(c, buf[start..start + 3 * size])
  {
    hide FeedAll, Shift, ZerosOk, Xor;
    ghost var a, b := buf[start..start + size], buf[start + size..start + 2 * size];
    ghost var d := buf[start + 2 * size..start + 3 * size];
    var crc0, crc1, crc2 := c, {}, {};
    FeedNone(c, a);
    FeedNone({}, b);
    FeedNone({}, d);
    var i := 0;
    while i < size
      invariant i <= size && i % 8 == 0
      invariant crc0 == FeedAll(c, a[..i]) && crc1 == FeedAll({}, b[..i]) && crc2 == FeedAll({}, d[..i])
    {
      FeedNext(c, a, i, 8);
      FeedNext({}, b, i, 8);
      FeedNext({}, d, i, 8);
      crc0 := Crc32q(crc0, buf[start + i..start + i + 8]);
      crc1 := Crc32q(crc1, buf[start + size + i..start + size + i + 8]);
      crc2 := Crc32q(crc2, buf[start + 2 * size + i..start + 2 * size + i + 8]);
      SliceOfSlice(buf, start, start + size, i);
      SliceOfSlice(buf, start + size, start + 2 * size, i);
      SliceOfSlice(buf, start + 2 * size, start + 3 * size, i);
      i := i + 8;
    }
    assert a[..size] == a && b[..size] == b && d[..size] == d;
    ThreeBlocks(zeros, c, a, b, d);
    assert a + b + d == buf[start..start + 3 * size];
    crc0 := Xor(Shift(zeros, crc0), crc1);
    r := Xor(Shift(zeros, crc0), crc2);
  }

  lemma SliceOfSlice(s: seq<Byte>, lo: nat, hi: nat, i: nat)
    requires lo <= hi <= |s| && i + 8 <= hi - lo
    ensures s[lo..hi][i..i + 8] == s[lo + i..lo + i + 8]
  {
    var t, u := s[lo..hi][i..i + 8], s[lo + i..lo + i + 8];
    forall j | 0 <= j < 8 ensures t[j] == u[j] { assert t[j] == s[lo..hi][i + j] == s[lo + i + j]; }
  }

  /** One of the two loops over triple blocks. */
  method TripleBlocks(zeros: seq<seq<Word>>, size: nat, ghost c0: Word, c: Word, buf: seq<Byte>, start: nat)
      returns (r: Word, next: nat)
    requires size % 8 == 0 && size > 0 && ZerosOk(zeros, 8 * size) && Below(c0, 32)
    requires start <= |buf| && c == FeedAll(c0, buf[..start])
    ensures start <= next <= |buf| && r == FeedAll(c0, buf[..next]) && |buf| - next < 3 * size
    ensures next % 8 == start % 8
  {
    hide FeedAll, ZerosOk;
    r, next := c, start;
    while |buf| - next >= 3 * size
      invariant start <= next <= |buf| && r == FeedAll(c0, buf[..next]) && next % 8 == start % 8
      decreases |buf| - next
    {
      FeedAllBelow(c0, buf[..next]);
      FeedNext(c0, buf, next, 3 * size);
      r := ThreeWay(zeros, r, buf, next, size);
      next := next + 3 * size;
    }
  }

  /** crc32c_init_hw. */
  method InitHw() returns (long: seq<seq<Word>>, short: seq<seq<Word>>)
    ensures ZerosOk(long, 8 * LONG) && ZerosOk(short, 8 * SHORT)
  {
    hide ZerosOk;
    assert Pow2(8) == 256 && Pow2(13) == 8192;
    FloorOfPow2(13);
    FloorOfPow2(8);
    long := Zeros(LONG);
    short := Zeros(SHORT);
  }

  /** crc32c_hw: for a buffer at any address, the checksum by definition. */
  method Hw(long: seq<seq<Word>>, short: seq<seq<Word>>, crc: Word, buf: seq<Byte>, addr: nat) returns (r: Word)
    requires ZerosOk(long, 8 * LONG) && ZerosOk(short, 8 * SHORT) && Below(crc, 32)
    ensures r == Crc(crc, buf)
  {
    hide ZerosOk, FeedAll, Feed;
    var c0 := Not(crc);
    var c, next := c0, 0;
    FeedNone(c0, buf);
    while next < |buf| && (addr + next) % 8 != 0
      invariant next <= |buf| && c == FeedAll(c0, buf[..next])
    {
      FeedOne(c0, buf, next);
      c := Feed(c, buf[next]);
      next := next + 1;
    }
    c, next := TripleBlocks(long, LONG, c0, c, buf, next);
    c, next := TripleBlocks(short, SHORT, c0, c, buf, next);
    while |buf| - next >= 8
      invariant next <= |buf| && c == FeedAll(c0, buf[..next])
    {
      FeedNext(c0, buf, next, 8);
      c := Crc32q(c, buf[next..next + 8]);
      next := next + 8;
    }
    while next < |buf|
      invariant next <= |buf| && c == FeedAll(c0, buf[..next])
    {
      FeedOne(c0, buf, next);
      c := Feed(c, buf[next]);
      next := next + 1;
    }
    assert buf[..next] == buf;
    r := Not(c);
  }
}
