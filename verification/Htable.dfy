/** The pointer hash table of ccan/ccan/htable/htable.c.

    Bits that all stored pointers share are cleared from the table words and used for hash
    bits, plus one "perfect" bit that marks a pointer sitting in its home bucket.  A word is
    0 (empty), 1 (deleted) or such an encoded pointer.  Words are sets of one-bits, so C's
    &, |, & ~ and ^ are intersection, union, difference and symmetric difference. */
module Htable {
  import opened Wrappers
  import opened Words
  import opened HtableSlots

  /** HTABLE_DELETED is the word 1, whose only one-bit is bit 0. */
  const DELETED: Word := {0}

  /** perfect_bitnum value meaning there is no perfect bit: 2 << 63 is 0. */
  const NO_PERFECT_BIT: nat := 63

  // ---- Words ----

  /** ht_perfect_mask: the word 2 << perfect_bitnum. */
  function PerfectMask(bitnum: nat): Word {
    if bitnum >= NO_PERFECT_BIT then {} else {bitnum + 1}
  }

  /** get_hash_ptr_bits before masking: the hash with its redundant low bits folded in. */
  function Folded(hash: Word, bits: nat): Word {
    Xor(hash, ShiftRight(hash, bits))
  }

  /** get_hash_ptr_bits. */
  function HashBits(folded: Word, mask: Word, perfect: Word): Word {
    folded * mask - perfect
  }

  /** make_hval on a pointer, its folded hash and whether it is in its home bucket. */
  function Encode(p: Ptr, folded: Word, mask: Word, perfect: Word, atHome: bool): Word {
    (p - mask) + (HashBits(folded, mask, perfect) + if atHome then perfect else {})
  }

  /** get_raw_ptr. */
  function RawPtr(w: Word, mask: Word, common: Word): Ptr {
    (w - mask) + common
  }

  /** entry_is_valid: greater than 1. */
  predicate EntryIsValid(w: Word) {
    w != {} && w != DELETED
  }

  /** Bits set aside so that no encoded pointer looks empty or deleted.  Either all pointers share
      a highest bit, the one in `shown`, which then always shows in the table; or `shown` is empty.
      No pointer has a bit from `floor` on, so hash bits above floor are never given back. */
  datatype Spare = Spare(shown: Word, floor: nat)

  ghost predicate SpareOk(r: Spare) {
    1 <= r.floor <= 64 && forall t :: t in r.shown ==> 2 <= t < r.floor
  }

  ghost predicate Fits(p: Ptr, r: Spare) {
    && r.shown <= p && (forall i :: i in p ==> i < r.floor)
    && (forall i, t :: i in p && t in r.shown ==> i <= t)
  }

  /** A bit other than bit 0 that the word of p always has: one of its own or of its hash. */
  ghost predicate Anchored(p: Ptr, folded: Word, r: Spare) {
    exists a :: a >= 1 && ((a in r.shown && a in p) || (r.floor < a < 64 && a in folded))
  }

  /** p can be stored at any time, in tables of any size. */
  ghost predicate Lasting(rehash: Ptr -> Word, r: Spare, p: Ptr) {
    Fits(p, r) && forall bits: nat :: bits <= 30 ==> Anchored(p, Folded(rehash(p), bits), r)
  }

  /** The common bits are inside the mask, the perfect bit is inside it or absent, and the mask
      spares what is to show and keeps what is not to be given back. */
  ghost predicate MasksOk(mask: Word, common: Word, perfect: Word, r: Spare) {
    && SpareOk(r) && common <= mask && perfect <= mask && |perfect| <= 1
    && (forall t :: t in r.shown ==> t !in mask)
    && (forall i :: r.floor <= i < 64 ==> i in mask && i !in common)
    && (forall i :: i in perfect ==> i <= r.floor)
  }

  /** An encoded pointer is neither empty nor deleted. */
  lemma EncodeIsValid(p: Ptr, folded: Word, mask: Word, common: Word, perfect: Word, r: Spare, atHome: bool)
    requires MasksOk(mask, common, perfect, r) && Anchored(p, folded, r)
    ensures EntryIsValid(Encode(p, folded, mask, perfect, atHome))
  {
    var a :| a >= 1 && ((a in r.shown && a in p) || (r.floor < a < 64 && a in folded));
    assert a in Encode(p, folded, mask, perfect, atHome);
    assert a !in DELETED;
  }

  lemma EncodeRoundTrip(p: Ptr, folded: Word, mask: Word, common: Word, perfect: Word, atHome: bool)
    requires p * mask == common && perfect <= mask
    ensures RawPtr(Encode(p, folded, mask, perfect, atHome), mask, common) == p
    ensures Encode(p, folded, mask, perfect, atHome) * mask
         == HashBits(folded, mask, perfect) + if atHome then perfect else {}
    ensures Encode(p, folded, mask, perfect, atHome) * perfect == if atHome then perfect else {}
  {
  }

  /** The bits update_common takes out of the mask for a new pointer q. */
  function MaskDiff(q: Ptr, mask: Word, common: Word): Word {
    Xor(common, q * mask)
  }

  /** Giving bits back rewrites each word into the encoding under the smaller mask. */
  lemma GiveBackWord(p: Ptr, q: Ptr, folded: Word, mask: Word, common: Word, perfect: Word, r: Spare, atHome: bool)
    requires MasksOk(mask, common, perfect, r) && p * mask == common
    ensures var d := MaskDiff(q, mask, common);
      var perfect' := if perfect * d != {} then {} else perfect;
      && (Encode(p, folded, mask, perfect, atHome) - d) + (common * d) == Encode(p, folded, mask - d, perfect', atHome)
      && p * (mask - d) == common - d
  {
    var d := MaskDiff(q, mask, common);
    PerfectInOrOut(perfect, d);
    var perfect' := if perfect * d != {} then {} else perfect;
    var w, w' := Encode(p, folded, mask, perfect, atHome), Encode(p, folded, mask - d, perfect', atHome);
    DiffInMask(q, mask, common);
    hide MaskDiff;
    forall i ensures i in (w - d) + (common * d) <==> i in w' {
      assert i in perfect' <==> i in perfect && i !in d;
    }
    assert (w - d) + (common * d) == w';
  }

  lemma DiffInMask(q: Ptr, mask: Word, common: Word)
    requires common <= mask
    ensures MaskDiff(q, mask, common) <= mask
    ensures q * (mask - MaskDiff(q, mask, common)) == common - MaskDiff(q, mask, common)
  {
  }

  lemma GiveBackMasks(q: Ptr, mask: Word, common: Word, perfect: Word, r: Spare)
    requires MasksOk(mask, common, perfect, r) && Fits(q, r)
    ensures var d := MaskDiff(q, mask, common);
      var perfect' := if perfect * d != {} then {} else perfect;
      && q * (mask - d) == common - d
      && MasksOk(mask - d, common - d, perfect', r)
  {
    var d := MaskDiff(q, mask, common);
    PerfectInOrOut(perfect, d);
    DiffInMask(q, mask, common);
    assert perfect * d == {} ==> perfect <= mask - d by {
      forall i | i in perfect && perfect * d == {} ensures i !in d {
        assert i !in perfect * d;
      }
    }
  }

  lemma PerfectInOrOut(perfect: Word, d: Word)
    requires |perfect| <= 1
    ensures perfect * d == {} || perfect <= d
    ensures forall i :: i in (if perfect * d != {} then {} else perfect) <==> i in perfect && i !in d
  {
    if b :| b in perfect * d {
      assert perfect == {b} by {
        assert |perfect - {b}| == 0;
      }
    }
  }

  // ---- Tables as slots ----

  /** All that decides how a pointer is written into a table. */
  datatype Coding = Coding(rehash: Ptr -> Word, bits: nat, mask: Word, common: Word, perfect: Word, spare: Spare)

  /** The home bucket of each pointer in a table of 2^bits words. */
  ghost function HomeOf(rehash: Ptr -> Word, bits: nat): (home: Ptr -> nat)
    ensures forall p :: home(p) == LowBits(rehash(p), bits)
  {
    (p: Ptr) => LowBits(rehash(p), bits)
  }

  ghost function HomeIn(c: Coding): Ptr -> nat {
    HomeOf(c.rehash, c.bits)
  }

  ghost predicate CodingOk(c: Coding) {
    c.bits <= 30 && MasksOk(c.mask, c.common, c.perfect, c.spare)
  }

  /** p may be stored as things are: it has the common bits. */
  ghost predicate Storable(c: Coding, p: Ptr) {
    Lasting(c.rehash, c.spare, p) && p * c.mask == c.common
  }

  ghost function PtrWord(c: Coding, p: Ptr, i: nat): Word {
    Encode(p, Folded(c.rehash(p), c.bits), c.mask, c.perfect, i == LowBits(c.rehash(p), c.bits))
  }

  ghost predicate WordOk(c: Coding, w: Word, x: Slot, i: nat) {
    match x
    case Empty => w == {}
    case Tomb => w == DELETED
    case Elem(p) => CodingOk(c) && Storable(c, p) && w == PtrWord(c, p, i)
  }

  ghost predicate WordsOk(c: Coding, words: seq<Word>, s: seq<Slot>) {
    |words| == |s| == Pow2(c.bits) && forall i :: 0 <= i < |s| ==> WordOk(c, words[i], s[i], i)
  }

  /** What a word tells about its slot. */
  lemma ReadWord(c: Coding, w: Word, x: Slot, i: nat)
    requires WordOk(c, w, x, i)
    ensures w == {} <==> x == Empty
    ensures w == DELETED <==> x == Tomb
    ensures EntryIsValid(w) <==> x.Elem?
    ensures x.Elem? ==> RawPtr(w, c.mask, c.common) == x.p
    ensures x.Elem? ==> (w * c.perfect != {} ==> i == LowBits(c.rehash(x.p), c.bits))
    ensures x.Elem? ==> w * c.mask == ExtraBits(c, c.rehash(x.p), i)
  {
    hide Folded, LowBits;
    if x.Elem? {
      var p := x.p;
      EncodeIsValid(p, Folded(c.rehash(p), c.bits), c.mask, c.common, c.perfect, c.spare,
                    i == LowBits(c.rehash(p), c.bits));
      EncodeRoundTrip(p, Folded(c.rehash(p), c.bits), c.mask, c.common, c.perfect, i == LowBits(c.rehash(p), c.bits));
    } else {
      assert 0 in DELETED;
    }
  }

  /** The extra bits of a word at bucket i whose pointer has the given hash. */
  ghost function ExtraBits(c: Coding, hash: Word, i: nat): Word {
    HashBits(Folded(hash, c.bits), c.mask, c.perfect) + if i == LowBits(hash, c.bits) then c.perfect else {}
  }

  /** Dropping the perfect bit gives the extra bits of every later bucket. */
  lemma ExtraBitsNext(c: Coding, hash: Word, i: nat)
    ensures forall j: nat :: j != LowBits(hash, c.bits) ==> ExtraBits(c, hash, i) - c.perfect == ExtraBits(c, hash, j)
  {
    hide Folded, LowBits;
  }

  /** Pointers with this hash that lie lo or more steps from bucket b lie hi or more steps from it. */
  ghost predicate PassedOver(s: seq<Slot>, rehash: Ptr -> Word, hash: Word, b: nat, lo: nat, hi: nat)
    requires b < |s|
  {
    forall j :: 0 <= j < |s| && s[j].Elem? && rehash(s[j].p) == hash && lo <= Dist(b, j, |s|) ==>
      hi <= Dist(b, j, |s|)
  }

  lemma PassOver(s: seq<Slot>, rehash: Ptr -> Word, hash: Word, b: nat, lo: nat, off: nat)
    requires b < |s| && off < |s| && PassedOver(s, rehash, hash, b, lo, Dist(b, off, |s|))
    requires s[off].Elem? ==> rehash(s[off].p) != hash
    ensures PassedOver(s, rehash, hash, b, lo, Dist(b, off, |s|) + 1)
  {
    DistNext(b, off, |s|);
  }

  /** The walk from the home bucket of `hash` has reached off. */
  ghost predicate Walking(c: Coding, s: seq<Slot>, hash: Word, lo: nat, off: nat) {
    var b := LowBits(hash, c.bits);
    && |s| == Pow2(c.bits) && off < |s|
    && ChainFull(s, b, off) && lo <= Dist(b, off, |s|)
    && PassedOver(s, c.rehash, hash, b, lo, Dist(b, off, |s|))
  }

  lemma WalkStart(c: Coding, s: seq<Slot>, hash: Word, off: nat)
    requires |s| == Pow2(c.bits) && off < |s| && ChainFull(s, LowBits(hash, c.bits), off)
    ensures Walking(c, s, hash, Dist(LowBits(hash, c.bits), off, |s|), off)
  {
    hide LowBits;
  }

  /** A bucket that is not empty and holds no pointer with the hash is walked past. */
  lemma WalkNext(c: Coding, s: seq<Slot>, hash: Word, lo: nat, off: nat, e: nat)
    requires Walking(c, s, hash, lo, off) && e < |s| && s[e] == Empty
    requires s[off] != Empty && (s[off].Elem? ==> c.rehash(s[off].p) != hash)
    ensures Walking(c, s, hash, lo, Next(off, |s|)) && Next(off, |s|) != LowBits(hash, c.bits)
    ensures Dist(LowBits(hash, c.bits), Next(off, |s|), |s|) == Dist(LowBits(hash, c.bits), off, |s|) + 1
  {
    hide LowBits, ChainFull, PassedOver;
    ChainExtend(s, LowBits(hash, c.bits), off, e);
    PassOver(s, c.rehash, hash, LowBits(hash, c.bits), lo, off);
  }

  lemma WalkFound(c: Coding, s: seq<Slot>, hash: Word, lo: nat, off: nat)
    requires Walking(c, s, hash, lo, off)
    ensures ChainFull(s, LowBits(hash, c.bits), off) && lo <= Dist(LowBits(hash, c.bits), off, |s|)
    ensures PassedOver(s, c.rehash, hash, LowBits(hash, c.bits), lo, Dist(LowBits(hash, c.bits), off, |s|))
  {
  }

  lemma WalkEnd(c: Coding, s: seq<Slot>, hash: Word, lo: nat, off: nat)
    requires Walking(c, s, hash, lo, off) && s[off] == Empty && ProbeOk(s, HomeIn(c))
    ensures PassedOver(s, c.rehash, hash, LowBits(hash, c.bits), lo, |s|)
  {
    PassToEnd(c, s, hash, lo, off);
  }

  /** Reading bucket off of a table. */
  lemma WalkRead(c: Coding, words: seq<Word>, s: seq<Slot>, off: nat)
    requires WordsOk(c, words, s) && off < |s|
    ensures words[off] == {} <==> s[off] == Empty
    ensures words[off] == DELETED <==> s[off] == Tomb
    ensures EntryIsValid(words[off]) <==> s[off].Elem?
    ensures s[off].Elem? ==> s[off] == Elem(RawPtr(words[off], c.mask, c.common))
    ensures s[off].Elem? ==> words[off] * c.mask == ExtraBits(c, c.rehash(s[off].p), off)
    ensures s[off].Elem? && words[off] * c.perfect != {} ==> off == LowBits(c.rehash(s[off].p), c.bits)
  {
    assert WordOk(c, words[off], s[off], off);
    ReadWord(c, words[off], s[off], off);
  }

  /** ps are stored pointers, among them all those with the hash nearer than `from` to bucket b. */
  ghost predicate Seen(s: seq<Slot>, rehash: Ptr -> Word, hash: Word, b: nat, from: nat, ps: seq<Ptr>) {
    && b < |s|
    && (forall j :: 0 <= j < |s| && s[j].Elem? && rehash(s[j].p) == hash && s[j].p !in ps ==> from <= Dist(b, j, |s|))
    && (forall k :: 0 <= k < |ps| ==> Total(s, OfPtr(ps[k])) > 0)
  }

  lemma SeenNothing(s: seq<Slot>, rehash: Ptr -> Word, hash: Word, b: nat, off: nat, r: Option<Ptr>)
    requires Reached(s, rehash, hash, b, 0, off, r)
    ensures b < |s| && Seen(s, rehash, hash, b, 0, [])
  {
  }

  /** The walk from bucket b stopped at off with pointer r, or ended with none, and passed no
      pointer with the hash that lies `from` or more steps out. */
  ghost predicate Reached(s: seq<Slot>, rehash: Ptr -> Word, hash: Word, b: nat, from: nat, off: nat, r: Option<Ptr>) {
    && b < |s| && off < |s|
    && match r
       case Some(p) =>
         && s[off] == Elem(p) && ChainFull(s, b, off)
         && from <= Dist(b, off, |s|) && PassedOver(s, rehash, hash, b, from, Dist(b, off, |s|))
       case None => PassedOver(s, rehash, hash, b, from, |s|)
  }

  lemma HitFacts(s: seq<Slot>, rehash: Ptr -> Word, hash: Word, b: nat, from: nat, off: nat, r: Option<Ptr>)
    requires Reached(s, rehash, hash, b, from, off, r) && r.Some?
    ensures b < |s| && off < |s| && s[off] == Elem(r.value) && ChainFull(s, b, off)
    ensures from <= Dist(b, off, |s|) < |s|
  {
  }

  lemma SeeOne(s: seq<Slot>, rehash: Ptr -> Word, hash: Word, b: nat, from: nat, off: nat, r: Option<Ptr>, ps: seq<Ptr>)
    requires Reached(s, rehash, hash, b, from, off, r) && r.Some? && Seen(s, rehash, hash, b, from, ps)
    ensures Seen(s, rehash, hash, b, Dist(b, off, |s|) + 1, ps + [r.value])
  {
    DistNext(b, off, |s|);
    ElemStored(s, off);
    hide Total;
  }

  lemma SeenAll(s: seq<Slot>, rehash: Ptr -> Word, hash: Word, b: nat, from: nat, off: nat, r: Option<Ptr>,
                ps: seq<Ptr>)
    requires Reached(s, rehash, hash, b, from, off, r) && r.None? && Seen(s, rehash, hash, b, from, ps)
    ensures forall p :: Total(s, OfPtr(p)) > 0 && rehash(p) == hash ==> p in ps
    ensures forall p :: p in ps ==> Total(s, OfPtr(p)) > 0
  {
    hide Total;
    forall p | Total(s, OfPtr(p)) > 0 && rehash(p) == hash ensures p in ps {
      var j := StoredElem(s, p);
    }
  }

  /** A hit on another pointer leaves every occurrence of p further out. */
  lemma MissOne(s: seq<Slot>, rehash: Ptr -> Word, p: Ptr, b: nat, from: nat, off: nat, r: Option<Ptr>)
    requires Reached(s, rehash, rehash(p), b, from, off, r) && r.Some? && r.value != p
    requires forall j :: 0 <= j < |s| && s[j] == Elem(p) ==> from <= Dist(b, j, |s|)
    ensures forall j :: 0 <= j < |s| && s[j] == Elem(p) ==> Dist(b, off, |s|) + 1 <= Dist(b, j, |s|)
  {
    DistNext(b, off, |s|);
  }

  lemma MissAll(s: seq<Slot>, rehash: Ptr -> Word, p: Ptr, b: nat, from: nat, off: nat, r: Option<Ptr>)
    requires Reached(s, rehash, rehash(p), b, from, off, r) && r.None?
    requires forall j :: 0 <= j < |s| && s[j] == Elem(p) ==> from <= Dist(b, j, |s|)
    ensures Total(s, OfPtr(p)) == 0
  {
    hide Total;
    if Total(s, OfPtr(p)) > 0 {
      var j := StoredElem(s, p);
    }
  }

  lemma PassToEnd(c: Coding, s: seq<Slot>, hash: Word, lo: nat, off: nat)
    requires |s| == Pow2(c.bits) && off < |s| && s[off] == Empty
    requires ProbeOk(s, HomeIn(c))
    requires PassedOver(s, c.rehash, hash, LowBits(hash, c.bits), lo, Dist(LowBits(hash, c.bits), off, |s|))
    ensures PassedOver(s, c.rehash, hash, LowBits(hash, c.bits), lo, |s|)
  {
    NoneBeyondEmpty(s, HomeIn(c), LowBits(hash, c.bits), off);
  }

  lemma HomesIn(c: Coding)
    ensures Homes(HomeIn(c), Pow2(c.bits))
  {
    forall p: Ptr ensures HomeIn(c)(p) < Pow2(c.bits) {
      assert HomeIn(c)(p) == LowBits(c.rehash(p), c.bits);
    }
  }

  /** A zeroed table stores nothing. */
  lemma EmptyTable(c: Coding, words: seq<Word>, s: seq<Slot>)
    requires |words| == |s| == Pow2(c.bits)
    requires forall i :: 0 <= i < |s| ==> words[i] == {} && s[i] == Empty
    ensures WordsOk(c, words, s) && ProbeOk(s, HomeIn(c))
    ensures forall t :: Total(s, t) == 0
  {
    HomesIn(c);
    forall t ensures Total(s, t) == 0 { NothingStored(s, t); }
  }

  class Htable {
    const rehash: Ptr -> Word
    ghost const spare: Spare
    var bits: nat
    var perfectBitnum: nat
    var elems: nat
    var deleted: nat
    var commonMask: Word
    var commonBits: Word
    var table: array<Word>
    ghost var slots: seq<Slot>

    ghost function C(): Coding
      reads this
    {
      Coding(rehash, bits, commonMask, commonBits, PerfectMask(perfectBitnum), spare)
    }

    /** The table's words say what `slots` says, and probing works. */
    ghost predicate Findable()
      reads this, table
    {
      && table.Length == |slots| == Pow2(bits)
      && WordsOk(C(), table[..], slots)
      && ProbeOk(slots, HomeIn(C()))
    }

    /** No pointer was ever added. */
    ghost predicate Untouched()
      reads this
    {
      elems == 0 && deleted == 0 && commonMask == BitsBelow(64) && commonBits == {} && perfectBitnum == 0
    }

    /** htable_check's promise and the load limits that keep an empty bucket. */
    ghost predicate Valid()
      reads this, table
    {
      && SpareOk(spare) && bits <= 30
      && Findable()
      && (CodingOk(C()) || Untouched())
      && Total(slots, AnyElem) == elems <= 3 * table.Length / 4
      && Total(slots, NotEmpty) <= elems + deleted <= 9 * table.Length / 10
    }

    /** How often p is stored. */
    ghost function Stored(p: Ptr): nat
      reads this
    {
      Total(slots, OfPtr(p))
    }

    /** htable_init: the one-word table. */
    constructor (rehash: Ptr -> Word, ghost spare: Spare)
      requires SpareOk(spare)
      ensures Valid() && this.rehash == rehash && this.spare == spare
      ensures fresh(table) && elems == 0 && forall p :: Stored(p) == 0
    {
      this.rehash, this.spare := rehash, spare;
      bits, perfectBitnum, elems, deleted := 0, 0, 0, 0;
      commonMask, commonBits := BitsBelow(64), {};
      table := new Word[1](_ => {});
      slots := [Empty];
      new;
      EmptyTable(C(), table[..], slots);
    }

    /** The load limits always leave an empty bucket. */
    lemma SpareBucket() returns (e: nat)
      requires Valid()
      ensures e < |slots| && slots[e] == Empty
    {
      e := UntalliedExists(slots, NotEmpty);
    }

    /** hash_bucket. */
    function Bucket(hash: Word): (b: nat)
      reads this
      ensures b < Pow2(bits)
    {
      LowBits(hash, bits)
    }

    /** htable_val: walk on from `off0` for an entry whose extra bits match the hash. */
    method Val(off0: nat, hash: Word, perfect0: Word) returns (off: nat, r: Option<Ptr>)
      requires Valid() && off0 < table.Length
      requires ChainFull(slots, Bucket(hash), off0)
      requires perfect0 == if off0 == Bucket(hash) then PerfectMask(perfectBitnum) else {}
      ensures off < table.Length
      ensures Reached(slots, rehash, hash, Bucket(hash), Dist(Bucket(hash), off0, |slots|), off, r)
    {
      hide LowBits, Folded, HashBits, PerfectMask, ChainFull, PassedOver, ProbeOk, CodingOk, WordsOk, Total, Walking,
           Untouched;
      ghost var c, b := C(), Bucket(hash);
      ghost var lo := Dist(b, off0, |slots|);
      ghost var e := SpareBucket();
      off := off0;
      WalkStart(c, slots, hash, off0);
      var h2 := HashBits(Folded(hash, bits), commonMask, PerfectMask(perfectBitnum)) + perfect0;
      while table[off] != {}
        invariant Walking(c, slots, hash, lo, off)
        invariant off < table.Length && h2 == ExtraBits(c, hash, off)
        decreases |slots| - Dist(b, off, |slots|)
      {
        WalkRead(c, table[..], slots, off);
        if table[off] != DELETED && table[off] * commonMask == h2 {
          WalkFound(c, slots, hash, lo, off);
          return off, Some(RawPtr(table[off], commonMask, commonBits));
        }
        WalkNext(c, slots, hash, lo, off, e);
        ExtraBitsNext(c, hash, off);
        off := Next(off, table.Length);
        h2 := h2 - PerfectMask(perfectBitnum);
      }
      WalkRead(c, table[..], slots, off);
      WalkEnd(c, slots, hash, lo, off);
      return off, None;
    }

    /** htable_firstval. */
    method FirstVal(hash: Word) returns (off: nat, r: Option<Ptr>)
      requires Valid()
      ensures off < table.Length && Reached(slots, rehash, hash, Bucket(hash), 0, off, r)
    {
      off, r := Val(Bucket(hash), hash, PerfectMask(perfectBitnum));
    }

    /** htable_nextval after a hit at off0. */
    method NextVal(off0: nat, hash: Word) returns (off: nat, r: Option<Ptr>)
      requires Valid() && off0 < table.Length
      requires slots[off0].Elem? && ChainFull(slots, Bucket(hash), off0)
      ensures off < table.Length
      ensures Reached(slots, rehash, hash, Bucket(hash), Dist(Bucket(hash), off0, |slots|) + 1, off, r)
    {
      hide LowBits, ChainFull, PassedOver, ProbeOk, CodingOk, WordsOk, Total, Untouched, Reached;
      ghost var e := SpareBucket();
      ChainExtend(slots, Bucket(hash), off0, e);
      off, r := Val(Next(off0, table.Length), hash, {});
    }

    /** The lookup loop of htable's users: every stored pointer with the hash is visited,
        and every pointer visited is stored. */
    method Visit(hash: Word) returns (ps: seq<Ptr>)
      requires Valid()
      ensures forall p :: Stored(p) > 0 && rehash(p) == hash ==> p in ps
      ensures forall p :: p in ps ==> Stored(p) > 0
    {
      hide Valid, Total, Seen, Reached, LowBits, ChainFull;
      ps := [];
      var off, r := FirstVal(hash);
      ghost var b := Bucket(hash);
      ghost var from: nat := 0;
      SeenNothing(slots, rehash, hash, b, off, r);
      while r.Some?
        invariant 0 <= off && Reached(slots, rehash, hash, b, from, off, r)
        invariant Seen(slots, rehash, hash, b, from, ps)
        decreases r.Some?, |slots| - from
      {
        HitFacts(slots, rehash, hash, b, from, off, r);
        SeeOne(slots, rehash, hash, b, from, off, r, ps);
        ps := ps + [r.value];
        from := Dist(b, off, |slots|) + 1;
        Sizes();
        off, r := NextVal(off, hash);
      }
      SeenAll(slots, rehash, hash, b, from, off, r, ps);
    }

    lemma Sizes()
      requires Valid()
      ensures table.Length == |slots| == Pow2(bits)
    {
    }

    /** htable_delval: the bucket becomes a tombstone. */
    method DelVal(off: nat)
      requires Valid() && off < table.Length && slots[off].Elem?
      modifies this, table
      ensures Valid() && table == old(table) && elems == old(elems) - 1
      ensures slots == old(slots)[off := Tomb]
      ensures forall q :: Stored(q) == old(Stored(q)) - (if old(slots[off]) == Elem(q) then 1 else 0)
    {
      hide ChainFull, LowBits, PtrWord, CodingOk, Untouched;
      TotalsUpdate(slots, off, Tomb);
      DeleteKeepsProbe(slots, HomeIn(C()), off);
      ghost var c := C();
      elems := elems - 1;
      table[off] := DELETED;
      deleted := deleted + 1;
      slots := slots[off := Tomb];
      assert C() == c;
    }

    /** The search loop of htable_del. */
    method Find(hash: Word, p: Ptr) returns (off: nat, found: bool)
      requires Valid() && hash == rehash(p)
      ensures found <==> Stored(p) > 0
      ensures found ==> off < table.Length && slots[off] == Elem(p)
    {
      hide Valid, Total, Reached, LowBits, ChainFull;
      var r;
      off, r := FirstVal(hash);
      ghost var b := Bucket(hash);
      ghost var from: nat := 0;
      while r.Some?
        invariant Reached(slots, rehash, hash, b, from, off, r)
        invariant forall j :: 0 <= j < |slots| && slots[j] == Elem(p) ==> from <= Dist(b, j, |slots|)
        decreases r.Some?, |slots| - from
      {
        HitFacts(slots, rehash, hash, b, from, off, r);
        Sizes();
        if r.value == p {
          ElemStored(slots, off);
          return off, true;
        }
        MissOne(slots, rehash, p, b, from, off, r);
        from := Dist(b, off, |slots|) + 1;
        off, r := NextVal(off, hash);
      }
      MissAll(slots, rehash, p, b, from, off, r);
      return off, false;
    }

    /** htable_del: removes one occurrence of p, if there is one. */
    method Del(hash: Word, p: Ptr) returns (found: bool)
      requires Valid() && hash == rehash(p)
      modifies this, table
      ensures Valid() && table == old(table) && elems <= old(elems)
      ensures found <==> old(Stored(p)) > 0
      ensures forall q :: Stored(q) == old(Stored(q)) - (if found && q == p then 1 else 0)
    {
      hide Valid;
      var off;
      off, found := Find(hash, p);
      if found {
        DelVal(off);
      }
    }

    /** ht_add: the first bucket from home without a pointer takes it. */
    method HtAdd(p: Ptr, hash: Word, ghost e: nat) returns (ghost at: nat)
      requires table.Length == |slots| == Pow2(bits)
      requires WordsOk(C(), table[..], slots) && CodingOk(C()) && Storable(C(), p) && hash == rehash(p)
      requires e < |slots| && !slots[e].Elem?
      modifies table, this`slots
      ensures at < |old(slots)| && !old(slots)[at].Elem?
      ensures ElemsTo(old(slots), Bucket(hash), at)
      ensures slots == old(slots)[at := Elem(p)]
      ensures table.Length == |slots| && WordsOk(C(), table[..], slots)
    {
      hide LowBits, Folded, HashBits, PerfectMask, CodingOk, Storable, ElemsTo, WordsOk;
      ghost var c, words := C(), table[..];
      var perfect := PerfectMask(perfectBitnum);
      var i := Bucket(hash);
      ElemsToNothing(slots, i);
      while true
        invariant unchanged(this) && unchanged(table) && 0 <= i < table.Length && table[..] == words
        invariant ElemsTo(slots, Bucket(hash), i)
        invariant perfect == if i == Bucket(hash) then PerfectMask(perfectBitnum) else {}
        decreases |slots| - Dist(Bucket(hash), i, |slots|)
      {
        WalkRead(c, table[..], slots, i);
        if !EntryIsValid(table[i]) { break; }
        ElemsExtend(slots, Bucket(hash), i, e);
        perfect := {};
        i := Next(i, table.Length);
      }
      table[i] := (p - commonMask) + (HashBits(Folded(hash, bits), commonMask, PerfectMask(perfectBitnum)) + perfect);
      assert table[..] == words[i := PtrWord(c, p, i)];
      WordsUpdate(c, words, slots, i, PtrWord(c, p, i), Elem(p));
      slots := slots[i := Elem(p)];
      at := i;
    }

    /** rehash_table starts from the first empty bucket. */
    method FirstEmpty() returns (start: nat)
      requires Valid()
      ensures start < table.Length && slots[start] == Empty
    {
      hide ProbeOk, CodingOk, WordsOk, Total, Untouched, LowBits, PerfectMask, ExtraBits;
      ghost var e := SpareBucket();
      ghost var c, words := C(), table[..];
      start := 0;
      while true
        invariant start <= e
        decreases e - start
      {
        WalkRead(c, words, slots, start);
        if table[start] == {} { return; }
        start := start + 1;
      }
    }

    /** rehash_table: clear the tombstones in place. */
    method RehashTable()
      requires Valid() && CodingOk(C())
      modifies table, this`slots, this`deleted
      ensures Valid() && table == old(table)
      ensures deleted == 0 && Total(slots, NotEmpty) == elems
      ensures forall q :: Stored(q) == old(Stored(q))
    {
      hide ChainFull, LowBits, Folded, HashBits, PerfectMask, ProbeOk, CodingOk, WordsOk, Total, Untouched, Rehashing,
           ElemsTo, SameElems;
      ghost var c, s0 := C(), slots;
      var start := FirstEmpty();
      RehashStart(slots, HomeIn(c), start);
      for k := 0 to table.Length
        invariant C() == c && table.Length == |slots| == |s0| == Pow2(bits)
        invariant WordsOk(c, table[..], slots)
        invariant Rehashing(slots, s0, HomeIn(c), start, k)
      {
        RehashBucket(c, s0, start, k);
      }
      RehashDone(slots, s0, HomeIn(c), start);
      NoTombs(slots);
      deleted := 0;
      assert C() == c;
      SameTotals(slots, s0);
    }

    /** One pass of rehash_table's loop. */
    method RehashBucket(ghost c: Coding, ghost s0: seq<Slot>, start: nat, k: nat)
      requires C() == c && CodingOk(c) && table.Length == |slots| == Pow2(bits) && k < table.Length
      requires start < table.Length
      requires WordsOk(c, table[..], slots) && Rehashing(slots, s0, HomeIn(c), start, k)
      modifies table, this`slots
      ensures C() == c && table.Length == |slots| == |s0|
      ensures WordsOk(c, table[..], slots) && Rehashing(slots, s0, HomeIn(c), start, k + 1)
    {
      hide LowBits, Folded, HashBits, PerfectMask, ProbeOk, CodingOk, WordsOk, Rehashing, ElemsTo;
      var h := At(start, k, table.Length);
      var word := table[h];
      WalkRead(c, table[..], slots, h);
      RehashingHomes(slots, s0, HomeIn(c), start, k);
      if word == {} {
        RehashKeep(slots, s0, HomeIn(c), start, k);
        return;
      }
      if word != DELETED && word * PerfectMask(perfectBitnum) != {} {
        RehashKeep(slots, s0, HomeIn(c), start, k);
        return;
      }
      ghost var s1, words := slots, table[..];
      WordsUpdate(c, words, slots, h, {}, Empty);
      table[h] := {};
      slots := slots[h := Empty];
      assert table[..] == words[h := {}];
      if word == DELETED {
        RehashTomb(s1, s0, HomeIn(c), start, k);
        return;
      }
      var p := RawPtr(word, commonMask, commonBits);
      StoredIsStorable(c, words, s1, h);
      ghost var at := HtAdd(p, rehash(p), h);
      RehashMove(s1, s0, HomeIn(c), start, k, at);
    }

    /** update_common: pick the common bits for a first pointer, or give back the bits in which
        a new pointer differs.  No stored pointer moves or changes. */
    method UpdateCommon(p: Ptr)
      requires Valid() && Lasting(rehash, spare, p) && p * commonMask != commonBits
      requires elems == 0 ==> !TwoOrThree(p)
      modifies this`commonMask, this`commonBits, this`perfectBitnum, table
      ensures Valid() && CodingOk(C()) && Storable(C(), p)
    {
      if elems == 0 {
        FirstCommon(p);
      } else {
        GiveBack(p);
      }
    }

    method FirstCommon(p: Ptr)
      requires Valid() && Lasting(rehash, spare, p) && elems == 0 && !TwoOrThree(p)
      modifies this`commonMask, this`commonBits, this`perfectBitnum
      ensures Valid() && CodingOk(C()) && Storable(C(), p)
    {
      hide ProbeOk, Total, LowBits, Folded, WordsOk, BitsBelow, PerfectMask, MasksOk, TwoOrThree;
      var i := SearchDown(p);
      FirstCoding(p, i, spare);
      ghost var c := C();
      commonMask := BitsBelow(64) - {i};
      commonBits := p * commonMask;
      perfectBitnum := 0;
      NoElemsAnyCoding(c, C(), table[..], slots);
    }

    /** The loop of update_common over the table. */
    method RewriteWords(p: Ptr, d: Word)
      requires WordsOk(C(), table[..], slots) && d == MaskDiff(p, commonMask, commonBits) && Fits(p, spare)
      modifies table
      ensures WordsOk(Returned(C(), d), table[..], slots)
    {
      hide LowBits, WordOk, MaskDiff, Returned;
      ghost var c, words := C(), table[..];
      ghost var c' := Returned(c, d);
      for i := 0 to table.Length
        invariant forall j :: 0 <= j < i ==> WordOk(c', table[j], slots[j], j)
        invariant forall j :: i <= j < table.Length ==> table[j] == words[j]
      {
        ReadWord(c, words[i], slots[i], i);
        GiveBackSlot(c, p, words[i], slots[i], i);
        if EntryIsValid(table[i]) {
          table[i] := (table[i] - d) + (commonBits * d);
        }
      }
      ReturnedBits(c, d);
    }

    method GiveBack(p: Ptr)
      requires Valid() && elems != 0 && Lasting(rehash, spare, p)
      modifies this`commonMask, this`commonBits, this`perfectBitnum, table
      ensures Valid() && CodingOk(C()) && Storable(C(), p)
    {
      hide ProbeOk, Total, LowBits, WordsOk, MaskDiff;
      ghost var c := C();
      var d := MaskDiff(p, commonMask, commonBits);
      ghost var c' := Returned(c, d);
      GiveBackMasks(p, c.mask, c.common, c.perfect, c.spare);
      RewriteWords(p, d);
      if PerfectMask(perfectBitnum) * d != {} {
        perfectBitnum := NO_PERFECT_BIT;
      }
      commonMask := commonMask - d;
      commonBits := commonBits - d;
      assert C() == c';
    }

    /** The end of htable_add: the table has room, its common bits suit p. */
    method PutIn(hash: Word, p: Ptr)
      requires Valid() && CodingOk(C()) && Storable(C(), p) && hash == rehash(p)
      requires elems + 1 <= 3 * table.Length / 4 && elems + 1 + deleted <= 9 * table.Length / 10
      modifies table, this`slots, this`elems
      ensures Valid() && elems == old(elems) + 1
      ensures forall q :: Stored(q) == old(Stored(q)) + (if q == p then 1 else 0)
    {
      hide LowBits, WordsOk, MasksOk, ElemsTo, ProbeOk, Total, PerfectMask, BitsBelow, Storable;
      ghost var c, s0 := C(), slots;
      ghost var e := SpareBucket();
      ghost var at := HtAdd(p, hash, e);
      InsertFound(c, s0, at, p);
      TotalsUpdate(s0, at, Elem(p));
      elems := elems + 1;
      assert C() == c;
    }

    /** htable_add: one more occurrence of p. */
    method Add(hash: Word, p: Ptr)
      requires Valid() && Lasting(rehash, spare, p) && hash == rehash(p)
      requires elems == 0 && p * commonMask != commonBits ==> !TwoOrThree(p)
      requires bits < 30 || elems + 1 <= 3 * table.Length / 4
      modifies this, table
      ensures Valid() && elems == old(elems) + 1 && (table == old(table) || fresh(table))
      ensures forall q :: Stored(q) == old(Stored(q)) + (if q == p then 1 else 0)
    {
      hide Findable, MasksOk, Total, BitsBelow, PerfectMask;
      MakeRoom();
      if p * commonMask != commonBits {
        UpdateCommon(p);
      }
      assert CodingOk(C()) by { TouchedByNow(p); }
      PutIn(hash, p);
    }

    /** htable_add's growing: doubled when too many are stored, else rehashed when too many
        buckets are deleted. */
    method MakeRoom()
      requires Valid() && (bits < 30 || elems + 1 <= 3 * table.Length / 4)
      modifies this`bits, this`perfectBitnum, this`deleted, this`table, this`slots, table
      ensures Valid() && (table == old(table) || fresh(table))
      ensures elems + 1 <= 3 * table.Length / 4 && elems + 1 + deleted <= 9 * table.Length / 10
      ensures forall q :: Stored(q) == old(Stored(q))
    {
      hide Findable, MasksOk, Total, CodingOk;
      LoadOk();
      if elems + 1 > 3 * table.Length / 4 {
        DoubleTable();
      }
      LoadOk();
      if elems + 1 + deleted > 9 * table.Length / 10 {
        RehashTable();
      }
    }

    lemma LoadOk()
      requires Valid()
      ensures table.Length >= 1 && elems <= 3 * table.Length / 4
      ensures table.Length == 2 * (table.Length / 2) || table.Length == 1
    {
    }

    lemma TouchedByNow(p: Ptr)
      requires Valid() && Lasting(rehash, spare, p) && p * commonMask == commonBits
      ensures CodingOk(C())
    {
      hide Lasting, MasksOk, Findable, Total, BitsBelow, PerfectMask, Fits;
      FitsOf(rehash, spare, p);
      if Untouched() { NoCoding(p, spare); }
    }

    /** Every run of adds and deletes stores what the same run leaves in a bag. */
    method Run(ops: seq<Op>)
      requires Valid() && elems + |ops| <= 0x2000_0000
      requires forall k :: 0 <= k < |ops| && ops[k].AddOp? ==> Lasting(rehash, spare, ops[k].p)
      requires forall k :: 0 <= k < |ops| && ops[k].AddOp? && TwoOrThree(ops[k].p) ==>
        exists q :: After(Stored(q), ops, k, q) > 0
      modifies this, table
      ensures Valid() && (table == old(table) || fresh(table))
      ensures forall q :: Stored(q) == After(old(Stored(q)), ops, |ops|, q)
    {
      hide Valid, Total, Lasting, TwoOrThree;
      for k := 0 to |ops|
        invariant Valid() && (table == old(table) || fresh(table))
        invariant elems <= old(elems) + k
        invariant forall q :: Stored(q) == After(old(Stored(q)), ops, k, q)
      {
        RoomOk();
        match ops[k]
        case AddOp(p) =>
          NotFirst();
          Add(rehash(p), p);
        case DelOp(p) => var found := Del(rehash(p), p);
      }
    }

    /** A table that stores something is not empty. */
    lemma NotFirst()
      requires Valid()
      ensures (exists q :: Stored(q) > 0) ==> elems > 0
    {
      hide Findable, Total, CodingOk;
      if q :| Stored(q) > 0 {
        var j := StoredElem(slots, q);
        if elems == 0 { NoElems(slots, j); }
      }
    }

    lemma RoomOk()
      requires Valid() && elems < 0x2000_0000
      ensures bits < 30 || elems + 1 <= 3 * table.Length / 4
    {
      hide Pow2;
      Pow2At30();
    }

    /** "If we lost our perfect bit, get it back now." */
    method RegainPerfect()
      requires CodingOk(C()) || Untouched()
      modifies this`perfectBitnum
      ensures CodingOk(old(C())) ==> CodingOk(C())
      ensures old(Untouched()) ==> Untouched()
    {
      assert CodingOk(C()) && spare.floor < 64 ==> spare.floor in commonMask;
      if perfectBitnum == NO_PERFECT_BIT && commonMask != {} {
        for i := 0 to 64
          invariant perfectBitnum == NO_PERFECT_BIT
          invariant forall j :: 1 <= j <= i && j < 64 ==> j !in commonMask
        {
          // 2 << 63 is 0, so the last bit number never matches.
          if i < 63 && i + 1 in commonMask {
            perfectBitnum := i;
            break;
          }
        }
      }
    }

    /** double_table: twice the buckets, every pointer hashed afresh. */
    method DoubleTable()
      requires Valid() && bits < 30
      modifies this`bits, this`perfectBitnum, this`deleted, this`table, this`slots
      ensures Valid() && fresh(table) && bits == old(bits) + 1
      ensures table.Length == 2 * old(table.Length) && deleted == 0
      ensures CodingOk(old(C())) ==> CodingOk(C())
      ensures old(Untouched()) ==> Untouched()
      ensures forall q :: Stored(q) == old(Stored(q))
    {
      hide ProbeOk, Total, LowBits, Folded, WordsOk, MasksOk, Migrated, BitsBelow, PerfectMask, Storable, SameElems;
      var oldtable := table;
      ghost var c0, s0, words := C(), slots, table[..];
      RegainPerfect();
      bits := bits + 1;
      table := new Word[2 * oldtable.Length](_ => {});
      slots := seq(2 * oldtable.Length, _ => Empty);
      ghost var c := C();
      MigrateStart(c0, c, s0, table[..], slots);
      Migrate(oldtable, c0, c, s0, words);
      deleted := 0;
      MigrateDone(c, s0, slots);
      assert C() == c;
    }

    /** double_table's loop over the old buckets. */
    method Migrate(oldtable: array<Word>, ghost c0: Coding, ghost c: Coding, ghost s0: seq<Slot>,
                   ghost words: seq<Word>)
      requires C() == c && c0.rehash == c.rehash && c0.mask == c.mask && c0.common == c.common && c0.spare == c.spare
      requires CodingOk(c0) ==> CodingOk(c)
      requires oldtable != table && oldtable[..] == words && oldtable.Length == |s0| && WordsOk(c0, words, s0)
      requires table.Length == |slots| == 2 * |s0| == Pow2(bits)
      requires WordsOk(c, table[..], slots) && Migrated(c, s0, 0, slots)
      modifies table, this`slots
      ensures table.Length == |slots| && WordsOk(c, table[..], slots) && Migrated(c, s0, |s0|, slots)
    {
      hide LowBits, WordsOk, CodingOk, Migrated, ElemsTo, PerfectMask;
      for i := 0 to oldtable.Length
        invariant table.Length == |slots| == 2 * |s0| == Pow2(bits) && C() == c
        invariant oldtable[..] == words
        invariant WordsOk(c, table[..], slots) && Migrated(c, s0, i, slots)
      {
        WalkRead(c0, words, s0, i);
        if EntryIsValid(oldtable[i]) {
          var p := RawPtr(oldtable[i], commonMask, commonBits);
          StoredIsStorable(c0, words, s0, i);
          ghost var e := MigrateRoom(c, s0, i, slots);
          ghost var s1 := slots;
          ghost var at := HtAdd(p, rehash(p), e);
          MigrateElem(c, s0, i, s1, at);
        } else {
          MigrateNone(c, s0, i, slots);
        }
      }
    }
  }

  lemma InsertFound(c: Coding, s: seq<Slot>, at: nat, p: Ptr)
    requires ProbeOk(s, HomeIn(c)) && at < |s| == Pow2(c.bits) && !s[at].Elem?
    requires ElemsTo(s, LowBits(c.rehash(p), c.bits), at)
    ensures ProbeOk(s[at := Elem(p)], HomeIn(c))
  {
    ElemsAreChain(s, HomeIn(c)(p), at);
    InsertKeepsProbe(s, HomeIn(c), at, p);
  }

  /** The pointers of the first i old buckets are in the new slots, which hold no tombstone. */
  ghost predicate Migrated(c: Coding, s0: seq<Slot>, i: nat, s: seq<Slot>) {
    && i <= |s0| && ProbeOk(s, HomeIn(c))
    && (forall j :: 0 <= j < |s| ==> s[j] != Tomb)
    && SameElems(s, s0[..i])
  }

  lemma MigrateStart(c0: Coding, c: Coding, s0: seq<Slot>, words: seq<Word>, s: seq<Slot>)
    requires |s0| == Pow2(c0.bits) && c.bits == c0.bits + 1 && |words| == |s| == 2 * |s0|
    requires forall i :: 0 <= i < |s| ==> words[i] == {} && s[i] == Empty
    ensures |s| == Pow2(c.bits) && WordsOk(c, words, s) && Migrated(c, s0, 0, s)
  {
    EmptyTable(c, words, s);
  }

  lemma TotalBound(s: seq<Slot>, t: Tally)
    ensures Total(s, t) <= |s|
  {
  }

  lemma MigrateRoom(c: Coding, s0: seq<Slot>, i: nat, s: seq<Slot>) returns (e: nat)
    requires Migrated(c, s0, i, s) && |s| == 2 * |s0| > 0
    ensures e < |s| && !s[e].Elem?
  {
    TotalBound(s0[..i], AnyElem);
    e := UntalliedExists(s, AnyElem);
  }

  lemma MigrateElem(c: Coding, s0: seq<Slot>, i: nat, s: seq<Slot>, at: nat)
    requires Migrated(c, s0, i, s) && i < |s0| && s0[i].Elem? && at < |s| == Pow2(c.bits) && !s[at].Elem?
    requires ElemsTo(s, LowBits(c.rehash(s0[i].p), c.bits), at)
    ensures Migrated(c, s0, i + 1, s[at := s0[i]])
  {
    var s' := s[at := s0[i]];
    ElemsAreChain(s, HomeIn(c)(s0[i].p), at);
    InsertKeepsProbe(s, HomeIn(c), at, s0[i].p);
    hide ProbeOk;
    assert s0[..i + 1][..i] == s0[..i];
    forall t: Tally | t != NotEmpty ensures Total(s', t) == Total(s0[..i + 1], t) {
      TotalUpdate(s, at, s0[i], t);
    }
  }

  lemma MigrateNone(c: Coding, s0: seq<Slot>, i: nat, s: seq<Slot>)
    requires Migrated(c, s0, i, s) && i < |s0| && !s0[i].Elem?
    ensures Migrated(c, s0, i + 1, s)
  {
    hide ProbeOk;
    assert s0[..i + 1][..i] == s0[..i];
    forall t: Tally | t != NotEmpty ensures Total(s, t) == Total(s0[..i + 1], t) {
      assert Total(s0[..i + 1], t) == Total(s0[..i], t) + Tallied(t, s0[i]);
    }
  }

  lemma MigrateDone(c: Coding, s0: seq<Slot>, s: seq<Slot>)
    requires Migrated(c, s0, |s0|, s)
    ensures ProbeOk(s, HomeIn(c)) && Total(s, NotEmpty) == Total(s, AnyElem) == Total(s0, AnyElem)
    ensures forall p :: Total(s, OfPtr(p)) == Total(s0, OfPtr(p))
  {
    assert s0[..|s0|] == s0;
    SameTotals(s, s0);
    NoTombs(s);
  }

  datatype Op = AddOp(p: Ptr) | DelOp(p: Ptr)

  /** How often q is in a bag that held it n times, after k of the operations. */
  ghost function After(n: nat, ops: seq<Op>, k: nat, q: Ptr): nat
    requires k <= |ops|
  {
    if k == 0 then n
    else
      var m := After(n, ops, k - 1, q);
      match ops[k - 1]
      case AddOp(p) => if p == q then m + 1 else m
      case DelOp(p) => if p == q && m > 0 then m - 1 else m
  }

  /** The pointers 2 and 3, whose highest bit is bit 1. */
  ghost predicate TwoOrThree(p: Ptr) {
    1 in p && forall i :: i in p ==> i <= 1
  }

  /** update_common's search from bit 63 down for the first set bit; bit 0 if there is no other. */
  method SearchDown(p: Ptr) returns (i: nat)
    ensures i < 64 && (i > 0 ==> i in p) && forall j :: i < j < 64 ==> j !in p
  {
    i := 63;
    while i > 0
      invariant i < 64 && forall j :: i < j < 64 ==> j !in p
    {
      if i in p { break; }
      i := i - 1;
    }
  }

  lemma FitsOf(rehash: Ptr -> Word, r: Spare, p: Ptr)
    requires Lasting(rehash, r, p)
    ensures Fits(p, r)
  {
  }

  /** A fresh table's coding will do for a pointer without bits. */
  lemma NoCoding(p: Ptr, r: Spare)
    requires SpareOk(r) && Fits(p, r) && p * BitsBelow(64) == {}
    ensures MasksOk(BitsBelow(64), {}, PerfectMask(0), r)
  {
    forall t | t in r.shown ensures t !in BitsBelow(64) {
      assert t in p && t !in p * BitsBelow(64);
    }
  }

  lemma FirstCoding(p: Ptr, i: nat, r: Spare)
    requires SpareOk(r) && Fits(p, r) && i < 64 && (i > 0 ==> i in p) && (forall j :: i < j < 64 ==> j !in p)
    requires !TwoOrThree(p)
    ensures MasksOk(BitsBelow(64) - {i}, p * (BitsBelow(64) - {i}), PerfectMask(0), r)
  {
    assert i != 1;
  }

  /** The coding once update_common has taken the bits d out of the mask. */
  ghost function Returned(c: Coding, d: Word): Coding {
    c.(mask := c.mask - d, common := c.common - d, perfect := if c.perfect * d != {} then {} else c.perfect)
  }

  lemma ReturnedBits(c: Coding, d: Word)
    ensures Returned(c, d).bits == c.bits
  {
  }

  /** A valid word is rewritten; empty and deleted ones mean the same under any coding. */
  lemma GiveBackSlot(c: Coding, q: Ptr, w: Word, x: Slot, i: nat)
    requires WordOk(c, w, x, i) && Fits(q, c.spare)
    ensures var d := MaskDiff(q, c.mask, c.common);
      WordOk(Returned(c, d), if x.Elem? then (w - d) + (c.common * d) else w, x, i)
  {
    hide LowBits, Folded, Encode, MaskDiff;
    if x.Elem? {
      var p := x.p;
      GiveBackWord(p, q, Folded(c.rehash(p), c.bits), c.mask, c.common, c.perfect, c.spare,
                   i == LowBits(c.rehash(p), c.bits));
      GiveBackMasks(q, c.mask, c.common, c.perfect, c.spare);
    }
  }

  lemma NoElemsAnyCoding(c: Coding, c': Coding, words: seq<Word>, s: seq<Slot>)
    requires WordsOk(c, words, s) && Total(s, AnyElem) == 0 && ProbeOk(s, HomeIn(c))
    requires c'.bits == c.bits && c'.rehash == c.rehash
    ensures WordsOk(c', words, s) && ProbeOk(s, HomeIn(c'))
  {
    hide LowBits, PtrWord, ProbeOk;
    forall i | 0 <= i < |s| ensures !s[i].Elem? && WordOk(c', words[i], s[i], i) {
      NoElems(s, i);
      assert WordOk(c, words[i], s[i], i);
    }
  }

  lemma SameTotals(s: seq<Slot>, s0: seq<Slot>)
    requires SameElems(s, s0)
    ensures Total(s, AnyElem) == Total(s0, AnyElem)
    ensures forall p :: Total(s, OfPtr(p)) == Total(s0, OfPtr(p))
  {
    hide Total;
  }

  lemma StoredIsStorable(c: Coding, words: seq<Word>, s: seq<Slot>, i: nat)
    requires WordsOk(c, words, s) && i < |s| && s[i].Elem?
    ensures CodingOk(c) && Storable(c, s[i].p)
  {
    assert WordOk(c, words[i], s[i], i);
  }

  lemma ElemsToNothing(s: seq<Slot>, h: nat)
    requires h < |s|
    ensures ElemsTo(s, h, h)
  {
  }

  lemma WordsUpdate(c: Coding, words: seq<Word>, s: seq<Slot>, i: nat, w: Word, x: Slot)
    requires WordsOk(c, words, s) && i < |s| && WordOk(c, w, x, i)
    ensures WordsOk(c, words[i := w], s[i := x])
  {
    hide WordOk;
  }

  // ---- Which pointers last ----

  /** Pointers that share a highest bit above bit 1 last, whatever their hashes: so do the
      addresses between two consecutive powers of two. */
  lemma SharedTopLasts(rehash: Ptr -> Word, p: Ptr, top: nat)
    requires 2 <= top < 64 && top in p && forall i :: i in p ==> i <= top
    ensures SpareOk(Spare({top}, 64)) && Lasting(rehash, Spare({top}, 64), p) && !TwoOrThree(p)
  {
    var r := Spare({top}, 64);
    assert top in p && top in r.shown;
  }

  /** A small number kept as a pointer, an array index plus one, lasts if its hash has a high bit
      left after folding. */
  lemma IndexLasts(rehash: Ptr -> Word, p: Ptr)
    requires forall i :: i in p ==> i < 32
    requires forall bits: nat :: bits <= 30 ==> exists a :: 32 < a < 64 && a in Folded(rehash(p), bits)
    ensures SpareOk(Spare({}, 32)) && Lasting(rehash, Spare({}, 32), p)
  {
    hide Folded;
    forall bits: nat | bits <= 30 ensures Anchored(p, Folded(rehash(p), bits), Spare({}, 32)) {
      var a :| 32 < a < 64 && a in Folded(rehash(p), bits);
    }
  }

  /** The pointer 1, stored first, takes its own bit out of the mask.  From then on its word is
      lost, being the mark of a deleted entry, exactly when it is not marked perfect and its hash
      has no bit under the mask. */
  lemma PointerOne(folded: Word, mask: Word, perfect: Word, atHome: bool)
    requires 0 !in mask && perfect <= mask
    ensures Encode({0}, folded, mask, perfect, atHome) == DELETED <==>
      HashBits(folded, mask, perfect) == {} && (atHome ==> perfect == {})
    ensures Encode({0}, folded, mask, perfect, atHome) != {}
  {
    var extra := HashBits(folded, mask, perfect) + if atHome then perfect else {};
    assert Encode({0}, folded, mask, perfect, atHome) == {0} + extra;
    assert 0 !in extra;
  }

  /** The pointers 2 and 3, stored first, show bit 1, which is also the perfect bit then: in its
      home bucket their word does not match what a lookup compares it with. */
  lemma TwoOrThreeIsMissed(p: Ptr, folded: Word)
    requires TwoOrThree(p)
    ensures var mask, perfect := BitsBelow(64) - {1}, PerfectMask(0);
      Encode(p, folded, mask, perfect, true) * mask != HashBits(folded, mask, perfect) + perfect
  {
    assert 1 in PerfectMask(0) && 1 !in BitsBelow(64) - {1};
  }
}
