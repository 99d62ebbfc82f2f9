/** BigSize integers (BOLT #1), common/bigsize.c. */
module Bigsize {
  import opened Wrappers
  import opened Numbers

  type Byte = b: int | 0 <= b < 256

  /** The low n bytes of v, highest first. */
  function Bytes(v: nat, n: nat): (s: seq<Byte>)
    ensures |s| == n
  {
    if n == 0 then [] else Bytes(v / 256, n - 1) + [v % 256]
  }

  /** The number that bytes write, highest first. */
  function Number(s: seq<Byte>): nat {
    if s == [] then 0 else Number(s[..|s| - 1]) * 256 + s[|s| - 1]
  }

  function Pow256(n: nat): (p: nat)
    ensures p >= 1
  {
    if n == 0 then 1 else 256 * Pow256(n - 1)
  }

  lemma {:induction false} NumberOfBytes(v: nat, n: nat)
    requires v < Pow256(n)
    ensures Number(Bytes(v, n)) == v
  {
    if n > 0 {
      NumberOfBytes(v / 256, n - 1);
      var s := Bytes(v, n);
      assert s[..|s| - 1] == Bytes(v / 256, n - 1);
    }
  }

  lemma {:induction false} BytesOfNumber(s: seq<Byte>)
    ensures Number(s) < Pow256(|s|) && Bytes(Number(s), |s|) == s
  {
    if s != [] {
      var t, b := s[..|s| - 1], s[|s| - 1];
      BytesOfNumber(t);
      assert (Number(t) * 256 + b) / 256 == Number(t) && (Number(t) * 256 + b) % 256 == b;
      assert s == t + [b];
    }
  }

  lemma Sizes()
    ensures Pow256(2) == 0x1_0000 && Pow256(4) == 0x1_0000_0000 && Pow256(8) == U64_MAX + 1
  {
    assert Pow256(4) == 0x1_0000_0000;
    assert Pow256(6) == 0x1_0000_0000_0000;
  }

  /** bigsize_len. */
  function Len(v: nat): nat {
    if v < 0xfd then 1 else if v <= 0xffff then 3 else if v <= 0xffff_ffff then 5 else 9
  }

  /** bigsize_put. */
  function Put(v: nat): (s: seq<Byte>)
    requires v <= U64_MAX
    ensures |s| == Len(v)
  {
    if v < 0xfd then [v]
    else if v <= 0xffff then [0xfd] + Bytes(v, 2)
    else if v <= 0xffff_ffff then [0xfe] + Bytes(v, 4)
    else [0xff] + Bytes(v, 8)
  }

  datatype Got = Got(val: nat, len: nat)

  /** bigsize_get: the value and how many bytes it took, unless the bytes run out or are not
      the shortest form. */
  function Get(p: seq<Byte>): (r: Option<Got>)
    ensures r.Some? ==> r.value.len <= |p|
  {
    if |p| < 1 then None
    else if p[0] == 0xfd then
      if |p| < 3 then None
      else var v := Number(p[1..3]); if v < 0xfd then None else Some(Got(v, 3))
    else if p[0] == 0xfe then
      if |p| < 5 then None
      else var v := Number(p[1..5]); if v / 0x1_0000 == 0 then None else Some(Got(v, 5))
    else if p[0] == 0xff then
      if |p| < 9 then None
      else var v := Number(p[1..9]); if v / 0x1_0000_0000 == 0 then None else Some(Got(v, 9))
    else Some(Got(p[0], 1))
  }

  /** Decoding undoes encoding, whatever follows. */
  lemma GetOfPut(v: nat, rest: seq<Byte>)
    requires v <= U64_MAX
    ensures Get(Put(v) + rest) == Some(Got(v, Len(v)))
  {
    var p := Put(v) + rest;
    Sizes();
    if v >= 0xfd {
      var n := Len(v) - 1;
      assert p[1..n + 1] == Bytes(v, n);
      hide Pow256;
      NumberOfBytes(v, n);
    }
  }

  /** Only the shortest form of a 64-bit number is accepted. */
  lemma PutOfGet(p: seq<Byte>)
    requires Get(p).Some?
    ensures var g := Get(p).value; g.val <= U64_MAX && g.len == Len(g.val) && p[..g.len] == Put(g.val)
  {
    var g := Get(p).value;
    GotLen(p);
    if p[0] >= 0xfd {
      Sizes();
      hide Pow256, Number, Bytes, Get;
      var s := p[1..g.len];
      BytesOfNumber(s);
      assert p[..g.len] == [p[0]] + s;
    } else {
      assert p[..1] == [p[0]];
    }
  }

  /** What Get has taken, by the first byte. */
  lemma GotLen(p: seq<Byte>)
    requires Get(p).Some?
    ensures var g := Get(p).value;
      && 1 <= g.len <= |p|
      && (p[0] < 0xfd ==> g == Got(p[0], 1))
      && (p[0] >= 0xfd ==>
            && g.val == Number(p[1..g.len])
            && g.len == (if p[0] == 0xfd then 3 else if p[0] == 0xfe then 5 else 9)
            && g.val >= (if p[0] == 0xfd then 0xfd else if p[0] == 0xfe then 0x1_0000 else 0x1_0000_0000))
  {
    hide Number;
  }

  /** Decoding fails exactly when no encoding is a prefix. */
  lemma GetFails(p: seq<Byte>)
    ensures Get(p).None? <==> forall v: nat :: v <= U64_MAX ==> !(Put(v) <= p)
  {
    if Get(p).Some? {
      PutOfGet(p);
    }
    forall v: nat | v <= U64_MAX && Put(v) <= p ensures Get(p).Some? {
      GetOfPut(v, p[|Put(v)|..]);
      assert p == Put(v) + p[|Put(v)|..];
    }
  }

  // ---- On the wire ----

  /** The first difference of a and b, a having the smaller byte. */
  ghost predicate Parted(a: seq<Byte>, b: seq<Byte>, d: nat) {
    d < |a| && d < |b| && a[d] < b[d] && forall k :: 0 <= k < d ==> a[k] == b[k]
  }

  /** a comes before b in the order of bytes, the first that differs deciding. */
  ghost predicate Before(a: seq<Byte>, b: seq<Byte>) {
    exists d :: Parted(a, b, d)
  }

  lemma {:induction false} BytesOrder(v: nat, w: nat, n: nat)
    requires v < w < Pow256(n)
    ensures Before(Bytes(v, n), Bytes(w, n))
  {
    var a, b := Bytes(v, n), Bytes(w, n);
    if v / 256 < w / 256 {
      BytesOrder(v / 256, w / 256, n - 1);
      var a', b' := Bytes(v / 256, n - 1), Bytes(w / 256, n - 1);
      var d :| Parted(a', b', d);
      assert Parted(a, b, d);
    } else {
      assert Parted(a, b, n - 1);
    }
  }

  /** Encodings are ordered byte by byte as the numbers are. */
  lemma PutOrder(v: nat, w: nat)
    requires v <= U64_MAX && w <= U64_MAX
    ensures v < w <==> Before(Put(v), Put(w))
  {
    if v < w { PutBefore(v, w); }
    if w < v {
      PutBefore(w, v);
      BeforeOneWay(Put(w), Put(v));
    }
  }

  lemma BeforeOneWay(a: seq<Byte>, b: seq<Byte>)
    requires Before(a, b)
    ensures !Before(b, a)
  {
    var d :| Parted(a, b, d);
    forall e ensures !Parted(b, a, e) {
      assert Parted(a, b, d);
    }
  }

  lemma PutBefore(v: nat, w: nat)
    requires v < w <= U64_MAX
    ensures Before(Put(v), Put(w))
  {
    var a, b := Put(v), Put(w);
    Sizes();
    hide Pow256;
    if Len(v) < Len(w) || w < 0xfd {
      FirstByte(v);
      FirstByte(w);
      assert Parted(a, b, 0);
    } else {
      var n := Len(v) - 1;
      BytesOrder(v, w, n);
      var a', b' := Bytes(v, n), Bytes(w, n);
      var d :| Parted(a', b', d);
      assert a == [a[0]] + a' && b == [b[0]] + b' && a[0] == b[0];
      ShiftParted(a[0], a', b', d);
    }
  }

  lemma ShiftParted(x: Byte, a: seq<Byte>, b: seq<Byte>, d: nat)
    requires Parted(a, b, d)
    ensures Parted([x] + a, [x] + b, d + 1)
  {
  }

  lemma FirstByte(v: nat)
    requires v <= U64_MAX
    ensures Put(v)[0] == if v < 0xfd then v else if v <= 0xffff then 0xfd else if v <= 0xffff_ffff then 0xfe else 0xff
  {
  }

  /** The bytes themselves, most significant first. */
  lemma PutBytes(v: nat)
    requires v <= U64_MAX
    ensures v < 0xfd ==> Put(v) == [v]
    ensures 0xfd <= v <= 0xffff ==> Put(v) == [0xfd, v / 256, v % 256]
    ensures 0xffff < v <= 0xffff_ffff ==>
      Put(v) == [0xfe, v / 0x100_0000, v / 0x1_0000 % 256, v / 256 % 256, v % 256]
    ensures 0xffff_ffff < v ==>
      Put(v) == [0xff, v / 0x100_0000_0000_0000, v / 0x1_0000_0000_0000 % 256, v / 0x100_0000_0000 % 256,
                 v / 0x1_0000_0000 % 256, v / 0x100_0000 % 256, v / 0x1_0000 % 256, v / 256 % 256, v % 256]
  {
    TwoBytes(v);
    FourBytes(v);
    EightBytes(v);
    hide Bytes;
  }

  lemma TwoBytes(v: nat)
    ensures Bytes(v, 2) == [v / 256 % 256, v % 256]
  {
    assert Bytes(v / 256, 1) == Bytes(v / 256 / 256, 0) + [v / 256 % 256];
  }

  lemma FourBytes(v: nat)
    ensures Bytes(v, 4) == [v / 0x100_0000 % 256, v / 0x1_0000 % 256, v / 256 % 256, v % 256]
  {
    var u := v / 256 / 256;
    TwoBytes(u);
    assert Bytes(v / 256, 3) == Bytes(u, 2) + [v / 256 % 256];
    hide Bytes;
    assert u == v / 0x1_0000 && u / 256 == v / 0x100_0000;
  }

  lemma EightBytes(v: nat)
    ensures Bytes(v, 8) ==
      [v / 0x100_0000_0000_0000 % 256, v / 0x1_0000_0000_0000 % 256, v / 0x100_0000_0000 % 256, v / 0x1_0000_0000 % 256,
       v / 0x100_0000 % 256, v / 0x1_0000 % 256, v / 256 % 256, v % 256]
  {
    var a, b, c := v / 256, v / 256 / 256, v / 256 / 256 / 256;
    var u := c / 256;
    FourBytes(u);
    assert Bytes(c, 5) == Bytes(u, 4) + [c % 256];
    assert Bytes(b, 6) == Bytes(c, 5) + [b % 256];
    assert Bytes(a, 7) == Bytes(b, 6) + [a % 256];
    hide Bytes;
    assert b == v / 0x1_0000 && c == v / 0x100_0000 && u == v / 0x1_0000_0000;
    Quotients(v, u);
  }

  lemma Quotients(v: nat, u: nat)
    requires u == v / 0x1_0000_0000
    ensures u / 256 == v / 0x100_0000_0000 && u / 0x1_0000 == v / 0x1_0000_0000_0000
    ensures u / 0x100_0000 == v / 0x100_0000_0000_0000
  {
  }
}
