/** TLV streams (BOLT #1, "Type-Length-Value Format"), wire/tlvstream.c. */
module Tlvstream {
  import opened Wrappers
  import opened Numbers
  import opened Bigsize
  import Asort

  /** tlv_record_type for a record of type R.  `fromwire` says how many of the given bytes its
      decoder leaves over, or None when it fails; what it stores in the record is not modelled. */
  datatype RecordType<!R> = RecordType(
    numtype: nat, towire: R -> Option<seq<Byte>>, fromwire: seq<Byte> -> Option<nat>)

  /** tlv_field; meta is the index of the record type, if the type is known. */
  datatype Field = Field(meta: Option<nat>, numtype: nat, value: seq<Byte>)

  predicate FieldOk(f: Field) {
    f.numtype <= U64_MAX && |f.value| <= U64_MAX
  }

  predicate FieldsOk(fs: seq<Field>) {
    forall i :: 0 <= i < |fs| ==> FieldOk(fs[i])
  }

  function Encode(f: Field): seq<Byte>
    requires FieldOk(f)
  {
    Put(f.numtype) + Put(|f.value|) + f.value
  }

  function EncodeAll(fs: seq<Field>): seq<Byte>
    requires FieldsOk(fs)
  {
    if fs == [] then [] else Encode(fs[0]) + EncodeAll(fs[1..])
  }

  /** m is the last record type listed for a type number, or none when there is none. */
  predicate IsMeta<R>(types: seq<RecordType<R>>, numtype: nat, m: Option<nat>) {
    match m
    case None => forall i :: 0 <= i < |types| ==> types[i].numtype != numtype
    case Some(k) =>
      k < |types| && types[k].numtype == numtype && forall i :: k < i < |types| ==> types[i].numtype != numtype
  }

  lemma MetaUnique<R>(types: seq<RecordType<R>>, numtype: nat, m: Option<nat>)
    requires IsMeta(types, numtype, m)
    ensures m == Meta(types, numtype)
  {
    var m' := Meta(types, numtype);
    assert m.Some? && m'.Some? ==> m.value <= m'.value && m'.value <= m.value;
  }

  /** The loop of fromwire_tlv over the record types. */
  function Meta<R>(types: seq<RecordType<R>>, numtype: nat): (m: Option<nat>)
    ensures IsMeta(types, numtype, m)
  {
    if types == [] then None
    else if types[|types| - 1].numtype == numtype then Some(|types| - 1)
    else Meta(types[..|types| - 1], numtype)
  }

  /** A known type's decoder takes the value whole; other values are not looked at. */
  predicate Accepts<R>(types: seq<RecordType<R>>, numtype: nat, value: seq<Byte>) {
    var m := Meta(types, numtype);
    m.None? || types[m.value].fromwire(value) == Some(0)
  }

  /** One round of fromwire_tlv: a field and the bytes after it. */
  function DecodeOne<R>(types: seq<RecordType<R>>, p: seq<Byte>): (r: Option<(Field, seq<Byte>)>)
    ensures r.Some? ==> |r.value.1| < |p|
  {
    var t := Get(p);
    if t.None? then None
    else
      var p1 := p[t.value.len..];
      var l := Get(p1);
      if l.None? then None
      else
        var p2 := p1[l.value.len..];
        GetTakes(p);
        if l.value.val > |p2| then None
        else
          var value := p2[..l.value.val];
          if Accepts(types, t.value.val, value)
          then Some((Field(Meta(types, t.value.val), t.value.val, value), p2[l.value.val..]))
          else None
  }

  lemma GetTakes(p: seq<Byte>)
    requires Get(p).Some?
    ensures Get(p).value.len >= 1
  {
  }

  function DecodeAll<R>(types: seq<RecordType<R>>, p: seq<Byte>): Option<seq<Field>>
    decreases |p|
  {
    if p == [] then Some([])
    else
      var r := DecodeOne(types, p);
      if r.None? then None
      else
        var rest := DecodeAll(types, r.value.1);
        if rest.None? then None else Some([r.value.0] + rest.value)
  }

  // ---- Round trips ----

  lemma EncodeThenDecodeOne<R>(types: seq<RecordType<R>>, f: Field, rest: seq<Byte>)
    requires FieldDecodable(types, f)
    ensures DecodeOne(types, Encode(f) + rest) == Some((f, rest))
  {
    DecodableExactly(types, f);
    hide Put, Get, Meta, IsMeta, Accepts, Len;
    var a, b, tail := Put(f.numtype), Put(|f.value|), f.value + rest;
    assert Encode(f) + rest == a + (b + tail);
    GetOfPut(f.numtype, b + tail);
    GetOfPut(|f.value|, tail);
    assert (a + (b + tail))[|a|..] == b + tail && (b + tail)[|b|..] == tail;
    assert tail[..|f.value|] == f.value && tail[|f.value|..] == rest;
  }

  lemma DecodeOneThenEncode<R>(types: seq<RecordType<R>>, p: seq<Byte>)
    requires |p| <= U64_MAX && DecodeOne(types, p).Some?
    ensures var (f, rest) := DecodeOne(types, p).value;
      FieldDecodable(types, f) && Encode(f) + rest == p
  {
    hide Put, Get, Meta, IsMeta, Accepts, Len, FieldDecodable;
    DecodableExactly(types, DecodeOne(types, p).value.0);
    PutOfGet(p);
    var t := Get(p).value;
    var p1 := p[t.len..];
    PutOfGet(p1);
    var l := Get(p1).value;
    var p2 := p1[l.len..];
    Rejoin(p, Put(t.val), p1, Put(l.val), p2, l.val);
  }

  lemma Rejoin(p: seq<Byte>, a: seq<Byte>, p1: seq<Byte>, b: seq<Byte>, p2: seq<Byte>, n: nat)
    requires |a| <= |p| && p[..|a|] == a && p1 == p[|a|..]
    requires |b| <= |p1| && p1[..|b|] == b && p2 == p1[|b|..] && n <= |p2|
    ensures a + b + p2[..n] + p2[n..] == p
  {
    assert p == a + p1 && p1 == b + p2;
  }

  /** Every field carries the record type of its number, and one that has a record type has a value
      that its decoder takes to the last byte. */
  ghost predicate Decodable<R>(types: seq<RecordType<R>>, fs: seq<Field>) {
    forall i :: 0 <= i < |fs| ==> FieldDecodable(types, fs[i])
  }

  ghost predicate FieldDecodable<R>(types: seq<RecordType<R>>, f: Field) {
    && FieldOk(f) && IsMeta(types, f.numtype, f.meta)
    && (f.meta.Some? ==> types[f.meta.value].fromwire(f.value) == Some(0))
  }

  lemma DecodableExactly<R>(types: seq<RecordType<R>>, f: Field)
    ensures FieldDecodable(types, f) <==>
      FieldOk(f) && f.meta == Meta(types, f.numtype) && Accepts(types, f.numtype, f.value)
  {
    if IsMeta(types, f.numtype, f.meta) { MetaUnique(types, f.numtype, f.meta); }
    hide Meta, IsMeta;
  }

  /** Decoding an encoded stream gives its fields back. */
  lemma {:induction false} EncodeThenDecode<R>(types: seq<RecordType<R>>, fs: seq<Field>)
    requires Decodable(types, fs)
    ensures DecodeAll(types, EncodeAll(fs)) == Some(fs)
  {
    hide DecodeOne, Encode, IsMeta;
    if fs != [] {
      assert Decodable(types, fs[1..]);
      EncodeThenDecode(types, fs[1..]);
      EncodeThenDecodeOne(types, fs[0], EncodeAll(fs[1..]));
      EncodeNotEmpty(fs[0]);
      assert EncodeAll(fs) != [];
      assert fs == [fs[0]] + fs[1..];
    }
  }

  lemma EncodeNotEmpty(f: Field)
    requires FieldOk(f)
    ensures Encode(f) != []
  {
  }

  /** An accepted stream is the encoding of its fields. */
  lemma {:induction false} DecodeThenEncode<R>(types: seq<RecordType<R>>, p: seq<Byte>)
    requires |p| <= U64_MAX && DecodeAll(types, p).Some?
    ensures Decodable(types, DecodeAll(types, p).value) && EncodeAll(DecodeAll(types, p).value) == p
    decreases |p|
  {
    hide DecodeOne, Encode, IsMeta;
    if p != [] {
      DecodeOneThenEncode(types, p);
      var (f, rest) := DecodeOne(types, p).value;
      DecodeThenEncode(types, rest);
      var fs := DecodeAll(types, rest).value;
      assert DecodeAll(types, p).value == [f] + fs && ([f] + fs)[1..] == fs;
    }
  }

  /** A stream is accepted, as just these fields, exactly when it is their encoding and each is what
      its decoder takes. */
  lemma DecodeExactly<R>(types: seq<RecordType<R>>, p: seq<Byte>, fs: seq<Field>)
    requires |p| <= U64_MAX
    ensures DecodeAll(types, p) == Some(fs) <==> Decodable(types, fs) && FieldsOk(fs) && p == EncodeAll(fs)
  {
    hide DecodeAll, EncodeAll, IsMeta;
    if DecodeAll(types, p).Some? { DecodeThenEncode(types, p); }
    if Decodable(types, fs) && FieldsOk(fs) { EncodeThenDecode(types, fs); }
  }

  /** On the wire a field is its type, its length and its value, in this order. */
  lemma FieldLayout(f: Field, rest: seq<Byte>)
    requires FieldOk(f)
    ensures var p := Encode(f) + rest;
      && Get(p) == Some(Got(f.numtype, Len(f.numtype))) && Len(f.numtype) <= |p|
      && var p1 := p[Len(f.numtype)..];
      && Get(p1) == Some(Got(|f.value|, Len(|f.value|))) && Len(|f.value|) <= |p1|
      && p1[Len(|f.value|)..] == f.value + rest
  {
    hide Put, Get, Len;
    var a, b, tail := Put(f.numtype), Put(|f.value|), f.value + rest;
    assert Encode(f) + rest == a + (b + tail);
    GetOfPut(f.numtype, b + tail);
    GetOfPut(|f.value|, tail);
    assert (a + (b + tail))[|a|..] == b + tail && (b + tail)[|b|..] == tail;
  }

  // ---- Order ----

  ghost predicate Ascending(fs: seq<Field>) {
    forall i, j :: 0 <= i < j < |fs| ==> fs[i].numtype < fs[j].numtype
  }

  ghost predicate DistinctTypes(fs: seq<Field>) {
    forall i, j :: 0 <= i < j < |fs| ==> fs[i].numtype != fs[j].numtype
  }

  /** tlv_field_cmp, which never finds two fields equal. */
  function FieldCmp(a: Field, b: Field): int {
    if a.numtype > b.numtype then 1 else -1
  }

  lemma CmpIsPreorder(fs: seq<Field>)
    requires DistinctTypes(fs)
    ensures Asort.Preorder(FieldCmp, fs)
  {
    forall i, j | 0 <= i < |fs| && 0 <= j < |fs| && i != j
      ensures FieldCmp(fs[i], fs[j]) >= 0 <==> FieldCmp(fs[j], fs[i]) < 0
    {
      if i < j { assert fs[i].numtype != fs[j].numtype; } else { assert fs[j].numtype != fs[i].numtype; }
    }
    assert forall i, j :: 0 <= i < |fs| && 0 <= j < |fs| ==>
      (FieldCmp(fs[i], fs[j]) >= 0 <==> fs[i].numtype > fs[j].numtype);
    hide FieldCmp;
  }

  lemma PermKeepsDistinct(fs: seq<Field>, gs: seq<Field>)
    requires multiset(fs) == multiset(gs) && DistinctTypes(fs)
    ensures DistinctTypes(gs) && |fs| == |gs|
  {
    assert |fs| == |multiset(fs)| == |multiset(gs)| == |gs|;
    forall i, j | 0 <= i < j < |gs| ensures gs[i].numtype != gs[j].numtype {
      assert gs[i] in multiset(gs) && gs[j] in multiset(gs);
      assert gs[i] in fs && gs[j] in fs;
      if gs[i] == gs[j] {
        CountTwice(gs, i, j);
        CountOnce(fs, gs[i]);
      }
    }
  }

  lemma CountTwice(s: seq<Field>, i: nat, j: nat)
    requires i < j < |s| && s[i] == s[j]
    ensures multiset(s)[s[i]] >= 2
  {
    assert s == s[..j] + s[j..];
    assert s[i] in multiset(s[..j]) && s[j] in multiset(s[j..]) by {
      assert s[..j][i] == s[i] && s[j..][0] == s[j];
    }
  }

  lemma {:induction false} CountOnce(s: seq<Field>, x: Field)
    requires DistinctTypes(s)
    ensures multiset(s)[x] <= 1
  {
    if s != [] {
      assert s == [s[0]] + s[1..];
      CountOnce(s[1..], x);
      if x == s[0] {
        assert forall k :: 0 <= k < |s[1..]| ==> s[1..][k] != x;
        assert x !in s[1..];
      }
    }
  }

  /** An ascending rearrangement is unique. */
  lemma {:induction false} AscendingUnique(fs: seq<Field>, gs: seq<Field>)
    requires Ascending(fs) && Ascending(gs) && multiset(fs) == multiset(gs)
    ensures fs == gs
    decreases |fs|
  {
    assert |fs| == |multiset(fs)| == |multiset(gs)| == |gs|;
    if fs != [] {
      SameHead(fs, gs);
      TailOf(fs);
      TailOf(gs);
      assert multiset(fs[1..]) == multiset(gs[1..]);
      AscendingUnique(fs[1..], gs[1..]);
      assert fs == [fs[0]] + fs[1..] && gs == [gs[0]] + gs[1..];
    }
  }

  lemma TailOf(s: seq<Field>)
    requires s != []
    ensures multiset(s[1..]) == multiset(s) - multiset{s[0]}
  {
    assert s == [s[0]] + s[1..];
  }

  lemma SameHead(fs: seq<Field>, gs: seq<Field>)
    requires Ascending(fs) && Ascending(gs) && multiset(fs) == multiset(gs) && fs != [] && gs != []
    ensures fs[0] == gs[0]
  {
    assert fs[0] in multiset(gs) && gs[0] in multiset(fs);
    var i :| 0 <= i < |gs| && gs[i] == fs[0];
    var j :| 0 <= j < |fs| && fs[j] == gs[0];
    assert gs[0].numtype <= gs[i].numtype && fs[0].numtype <= fs[j].numtype;
    assert i == 0;
  }

  lemma SortedIsAscending(gs: seq<Field>)
    requires DistinctTypes(gs) && forall i, j :: 0 <= i < j < |gs| ==> FieldCmp(gs[j], gs[i]) >= 0
    ensures Ascending(gs)
  {
  }

  // ---- Methods ----

  /** towire_tlvstream_raw: sorts the fields in place and appends their encoding. */
  method TowireRaw(out: seq<Byte>, fields: array<Field>) returns (r: seq<Byte>)
    requires fields.Length <= U64_MAX && FieldsOk(fields[..]) && DistinctTypes(fields[..])
    modifies fields
    ensures multiset(fields[..]) == multiset(old(fields[..])) && Ascending(fields[..]) && FieldsOk(fields[..])
    ensures r == out + EncodeAll(fields[..])
    ensures Ascending(old(fields[..])) ==> fields[..] == old(fields[..])
  {
    hide Encode, FieldOk, FieldsOk, DistinctTypes, Ascending, Asort.Preorder;
    ghost var fs := fields[..];
    CmpIsPreorder(fs);
    Asort.Asort(fields, FieldCmp);
    PermKeepsDistinct(fs, fields[..]);
    SortedIsAscending(fields[..]);
    PermKeepsOk(fs, fields[..]);
    if Ascending(fs) { AscendingUnique(fs, fields[..]); }
    r := AppendAll(out, fields[..]);
  }

  // ---- Repeated types ----

  ghost function TypeOf(): Field -> int {
    (f: Field) => f.numtype
  }

  /** f is of the least type in fs. */
  ghost predicate Least(fs: seq<Field>, f: Field) {
    forall j :: 0 <= j < |fs| ==> f.numtype <= fs[j].numtype
  }

  /** Of two fields of the least type one stands in the second place. */
  ghost predicate StaysInside(fs: seq<Field>) {
    forall i, j :: 0 <= i < j < |fs| && Least(fs, fs[i]) && Least(fs, fs[j]) ==> i == 1 || j == 1
  }

  /** Three fields of one type do not stay inside, nor do two of the least type around another. */
  lemma RepeatedLeast(f: Field, g: Field, h: Field)
    requires f.numtype == h.numtype <= g.numtype
    ensures !StaysInside([f, g, h])
  {
    var fs := [f, g, h];
    assert Least(fs, fs[0]) && Least(fs, fs[2]);
  }

  /** asort on so few fields that it only inserts.  tlv_field_cmp calls a field less than another
      of its type, so the unguarded inner loop runs past the first field when a field of the least
      type is inserted: `inside` says that this did not happen. */
  method SortFew(a: array<Field>) returns (inside: bool)
    requires 0 < a.Length <= Asort.MAX_THRESH
    modifies a
    ensures inside <==> StaysInside(old(a[..]))
    ensures inside ==> Asort.Perm(a[..], old(a[..])) && Asort.Sorted(a[..], TypeOf(), a.Length)
  {
    hide Asort.Perm, Asort.Sorted, StaysInside, Least;
    ghost var base := a[..];
    var tmp := LastLeast(a);
    ghost var s := base[0 := base[tmp]][tmp := base[0]];
    if tmp != 0 { Asort.Swap(a, base, tmp, 0); }
    assert a[..] == s;
    SwapDecides(base, s, tmp);
    TwoSortedFields(s);
    var run := 2;
    while run < a.Length
      invariant 2 <= run && Asort.Perm(a[..], base) && a[0] == s[0]
      invariant forall j :: run <= j < a.Length ==> a[j] == s[j]
      invariant Asort.Sorted(a[..], TypeOf(), if a.Length < run then a.Length else run)
      invariant forall j :: 2 <= j < run && j < a.Length ==> s[0].numtype < s[j].numtype
    {
      inside := Insert(a, base, run);
      if !inside { return; }
      run := run + 1;
    }
    return true;
  }

  /** The search for the smallest element: of several it ends on the last. */
  method LastLeast(a: array<Field>) returns (tmp: nat)
    requires a.Length > 0
    ensures tmp < a.Length && Least(a[..], a[tmp])
    ensures forall j :: tmp < j < a.Length ==> a[tmp].numtype < a[j].numtype
  {
    tmp := 0;
    for run := 1 to a.Length
      invariant tmp < run && forall j :: 0 <= j < run ==> a[tmp].numtype <= a[j].numtype
      invariant forall j :: tmp < j < run ==> a[tmp].numtype < a[j].numtype
    {
      if FieldCmp(a[run], a[tmp]) < 0 { tmp := run; }
    }
  }

  /** The inner loop for the field at run. */
  method Insert(a: array<Field>, ghost base: seq<Field>, run: nat) returns (inside: bool)
    requires 2 <= run < a.Length && Asort.Perm(a[..], base) && Asort.Sorted(a[..], TypeOf(), run)
    modifies a
    ensures inside <==> old(a[0].numtype < a[run].numtype)
    ensures inside ==> Asort.Perm(a[..], base) && Asort.Sorted(a[..], TypeOf(), run + 1)
    ensures inside ==> a[0] == old(a[0]) && forall j :: run < j < a.Length ==> a[j] == old(a[j])
  {
    hide Asort.Perm, Asort.Rotated;
    ghost var s := a[..];
    var tmp: int := run - 1;
    while tmp >= 0 && FieldCmp(a[run], a[tmp]) < 0
      invariant -1 <= tmp < run && a[..] == s
      invariant forall k :: tmp < k < run ==> a[run].numtype <= a[k].numtype
    {
      tmp := tmp - 1;
    }
    // Here the C compares with the element before the first.
    if tmp < 0 { return false; }
    tmp := tmp + 1;
    Asort.RotatedIsPerm(s, base, tmp, run);
    Asort.RotatedIsSorted(s, TypeOf(), tmp, run);
    RotatedEnds(s, tmp, run);
    Asort.Rotate(a, tmp, run);
    return true;
  }

  lemma RotatedEnds(s: seq<Field>, at: nat, run: nat)
    requires 0 < at <= run < |s|
    ensures var t := Asort.Rotated(s, at, run);
      |t| == |s| && t[0] == s[0] && forall j :: run < j < |s| ==> t[j] == s[j]
  {
  }

  lemma TwoSortedFields(s: seq<Field>)
    requires s != [] && Least(s, s[0])
    ensures Asort.Sorted(s, TypeOf(), if |s| < 2 then |s| else 2)
  {
  }

  /** With the last of the least fields in front, the others of its type must be in second place. */
  lemma SwapDecides(base: seq<Field>, s: seq<Field>, tmp: nat)
    requires tmp < |base| && s == base[0 := base[tmp]][tmp := base[0]] && Least(base, base[tmp])
    requires forall j :: tmp < j < |base| ==> base[tmp].numtype < base[j].numtype
    ensures StaysInside(base) <==> forall j :: 2 <= j < |s| ==> s[0].numtype < s[j].numtype
    ensures Least(s, s[0]) && Asort.Perm(s, base)
  {
    if StaysInside(base) {
      forall j | 2 <= j < |s| ensures s[0].numtype < s[j].numtype {
        var i := if j == tmp then 0 else j;
        assert i < tmp ==> !Least(base, base[i]);
        assert s[j] == base[i] && (Least(base, base[i]) <==> base[i].numtype == base[tmp].numtype);
      }
    }
    if forall j :: 2 <= j < |s| ==> s[0].numtype < s[j].numtype {
      forall i, j | 0 <= i < j < |base| && Least(base, base[i]) && Least(base, base[j]) ensures i == 1 || j == 1 {
        assert base[i].numtype == base[j].numtype == s[0].numtype;
        var k := if i >= 2 then i else j;
        assert k >= 2 ==> s[0].numtype < s[k].numtype;
      }
    }
  }

  method AppendAll(out: seq<Byte>, fs: seq<Field>) returns (r: seq<Byte>)
    requires FieldsOk(fs)
    ensures r == out + EncodeAll(fs)
  {
    hide Put;
    r := out;
    for i := 0 to |fs|
      invariant FieldsOk(fs[..i]) && r == out + EncodeAll(fs[..i])
    {
      EncodeAppend(fs, i);
      r := r + Put(fs[i].numtype) + Put(|fs[i].value|) + fs[i].value;
    }
    assert fs[..|fs|] == fs;
  }

  lemma PermKeepsOk(fs: seq<Field>, gs: seq<Field>)
    requires multiset(fs) == multiset(gs) && FieldsOk(fs)
    ensures FieldsOk(gs)
  {
    forall i | 0 <= i < |gs| ensures FieldOk(gs[i]) {
      assert gs[i] in multiset(gs);
      assert gs[i] in fs;
    }
  }

  lemma {:induction false} EncodeConcat(fs: seq<Field>, gs: seq<Field>)
    requires FieldsOk(fs) && FieldsOk(gs)
    ensures FieldsOk(fs + gs) && EncodeAll(fs + gs) == EncodeAll(fs) + EncodeAll(gs)
  {
    if fs == [] {
      assert fs + gs == gs;
    } else {
      assert (fs + gs)[1..] == fs[1..] + gs;
      EncodeConcat(fs[1..], gs);
    }
  }

  lemma EncodeAppend(fs: seq<Field>, i: nat)
    requires FieldsOk(fs) && i < |fs|
    ensures EncodeAll(fs[..i + 1]) == EncodeAll(fs[..i]) + Put(fs[i].numtype) + Put(|fs[i].value|) + fs[i].value
  {
    assert fs[..i + 1] == fs[..i] + [fs[i]];
    EncodeConcat(fs[..i], [fs[i]]);
    assert EncodeAll([fs[i]]) == Encode(fs[i]) + EncodeAll([]);
  }

  /** fromwire_tlv. */
  method FromwireTlv<R>(types: seq<RecordType<R>>, p: seq<Byte>) returns (r: Option<seq<Field>>)
    ensures r == DecodeAll(types, p)
  {
    hide DecodeOne;
    var cursor, fields := p, [];
    ThenNothing(DecodeAll(types, p));
    while cursor != []
      invariant DecodeAll(types, p) == Then(fields, DecodeAll(types, cursor))
      decreases |cursor|
    {
      var one := DecodeOne(types, cursor);
      if one.None? { return None; }
      ThenMore(fields, one.value.0, DecodeAll(types, one.value.1));
      fields, cursor := fields + [one.value.0], one.value.1;
    }
    assert fields + [] == fields;
    r := Some(fields);
  }

  ghost function Then(fields: seq<Field>, rest: Option<seq<Field>>): Option<seq<Field>> {
    if rest.None? then None else Some(fields + rest.value)
  }

  lemma ThenNothing(rest: Option<seq<Field>>)
    ensures Then([], rest) == rest
  {
    if rest.Some? { assert [] + rest.value == rest.value; }
  }

  lemma ThenMore(fields: seq<Field>, f: Field, rest: Option<seq<Field>>)
    ensures Then(fields + [f], rest) == Then(fields, Then([f], rest))
  {
    if rest.Some? { assert fields + [f] + rest.value == fields + ([f] + rest.value); }
  }

  /** tlv_type_is_allowed. */
  predicate Allowed(f: Field, extra: seq<nat>) {
    f.numtype % 2 != 0 || f.meta.Some? || f.numtype in extra
  }

  /** "It is OK to be odd": types increase strictly, and an even one is known or among the extra. */
  ghost predicate ValidFields(fs: seq<Field>, extra: seq<nat>) {
    && Ascending(fs)
    && forall k :: 0 <= k < |fs| && fs[k].numtype % 2 == 0 ==> fs[k].meta.Some? || fs[k].numtype in extra
  }

  /** The fields before i break no rule. */
  ghost predicate ValidUpTo(fs: seq<Field>, extra: seq<nat>, i: nat)
    requires i <= |fs|
  {
    && (forall k :: 0 <= k < i && fs[k].numtype % 2 == 0 ==> fs[k].meta.Some? || fs[k].numtype in extra)
    && (forall k :: 0 < k < i ==> fs[k - 1].numtype < fs[k].numtype)
  }

  /** tlv_fields_valid: known, odd or extra types only, strictly increasing; err is the first
      field that breaks a rule. */
  method FieldsValid(fs: seq<Field>, extra: seq<nat>) returns (ok: bool, err: nat)
    ensures ok <==> ValidFields(fs, extra)
    ensures !ok ==> err < |fs| && ValidUpTo(fs, extra, err) && !ValidUpTo(fs, extra, err + 1)
  {
    var first, prev := true, 0;
    err := 0;
    while err < |fs|
      invariant err <= |fs| && ValidUpTo(fs, extra, err)
      invariant first == (err == 0) && (!first ==> prev == fs[err - 1].numtype)
    {
      if !Allowed(fs[err], extra) || (!first && fs[err].numtype <= prev) {
        return false, err;
      }
      first, prev := false, fs[err].numtype;
      err := err + 1;
    }
    StepsAscend(fs);
    return true, err;
  }

  lemma StepsAscend(fs: seq<Field>)
    requires forall k :: 0 < k < |fs| ==> fs[k - 1].numtype < fs[k].numtype
    ensures Ascending(fs)
  {
    forall i, j | 0 <= i < j < |fs| ensures fs[i].numtype < fs[j].numtype { StepsLess(fs, i, j); }
  }

  lemma {:induction false} StepsLess(fs: seq<Field>, i: nat, j: nat)
    requires i < j < |fs| && forall k :: 0 < k < |fs| ==> fs[k - 1].numtype < fs[k].numtype
    ensures fs[i].numtype < fs[j].numtype
  {
    if i < j - 1 { StepsLess(fs, i, j - 1); }
  }

  /** The record types are listed in increasing order, as the writers assert. */
  ghost predicate TypesOk<R(!new)>(types: seq<RecordType<R>>, record: R) {
    && (forall i, j :: 0 <= i < j < |types| ==> types[i].numtype < types[j].numtype)
    && (forall i :: 0 <= i < |types| ==> types[i].numtype <= U64_MAX)
    && (forall i :: 0 <= i < |types| && types[i].towire(record).Some? ==> |types[i].towire(record).value| <= U64_MAX)
  }

  /** What tlv_make_fields_ gives for the first n types. */
  ghost function Present<R>(types: seq<RecordType<R>>, record: R, n: nat): seq<Field>
    requires n <= |types|
  {
    if n == 0 then []
    else
      var w := types[n - 1].towire(record);
      Present(types, record, n - 1) + if w.Some? then [Field(Some(n - 1), types[n - 1].numtype, w.value)] else []
  }

  /** A record's fields are exactly what its types write. */
  lemma {:induction false} PresentExactly<R>(types: seq<RecordType<R>>, record: R, n: nat, f: Field)
    requires n <= |types|
    ensures f in Present(types, record, n) <==>
      && f.meta.Some? && f.meta.value < n && f.numtype == types[f.meta.value].numtype
      && types[f.meta.value].towire(record) == Some(f.value)
  {
    if n > 0 { PresentExactly(types, record, n - 1, f); }
  }

  lemma {:induction false} PresentAscends<R(!new)>(types: seq<RecordType<R>>, record: R, n: nat)
    requires TypesOk(types, record) && n <= |types|
    ensures var fs := Present(types, record, n); Ascending(fs) && FieldsOk(fs)
    ensures forall i :: 0 <= i < |Present(types, record, n)| ==>
      var f := Present(types, record, n)[i];
      f.meta.Some? && f.meta.value < n && f.numtype == types[f.meta.value].numtype
  {
    if n > 0 {
      PresentAscends(types, record, n - 1);
    }
  }

  /** tlv_make_fields_. */
  method MakeFields<R(!new)>(types: seq<RecordType<R>>, record: R) returns (fields: seq<Field>)
    requires TypesOk(types, record)
    ensures fields == Present(types, record, |types|)
  {
    fields := [];
    for i := 0 to |types|
      invariant fields == Present(types, record, i)
    {
      var val := types[i].towire(record);
      if val.Some? {
        fields := fields + [Field(Some(i), types[i].numtype, val.value)];
      } else {
        assert fields + [] == fields;
      }
    }
  }

  /** towire_tlv. */
  method TowireTlv<R(!new)>(out: seq<Byte>, types: seq<RecordType<R>>, record: R) returns (r: seq<Byte>)
    requires TypesOk(types, record)
    ensures FieldsOk(Present(types, record, |types|)) && r == out + EncodeAll(Present(types, record, |types|))
  {
    r := out;
    assert FieldsOk(Present(types, record, 0)) && out + EncodeAll(Present(types, record, 0)) == out;
    hide Put, EncodeAll, Present, FieldsOk, TypesOk;
    for i := 0 to |types|
      invariant FieldsOk(Present(types, record, i)) && r == out + EncodeAll(Present(types, record, i))
    {
      PresentStep(out, types, record, i);
      var val := types[i].towire(record);
      r := AppendField(r, types[i].numtype, val);
    }
  }

  /** One round of towire_tlv. */
  method AppendField(out: seq<Byte>, numtype: nat, val: Option<seq<Byte>>) returns (r: seq<Byte>)
    requires numtype <= U64_MAX && (val.Some? ==> |val.value| <= U64_MAX)
    ensures r == if val.Some? then out + Put(numtype) + Put(|val.value|) + val.value else out
  {
    hide Put;
    r := out;
    if val.Some? {
      r := r + Put(numtype) + Put(|val.value|) + val.value;
    }
  }

  lemma PresentStep<R(!new)>(out: seq<Byte>, types: seq<RecordType<R>>, record: R, i: nat)
    requires TypesOk(types, record) && i < |types| && FieldsOk(Present(types, record, i))
    ensures FieldsOk(Present(types, record, i + 1)) && types[i].numtype <= U64_MAX
    ensures var w := types[i].towire(record);
      if w.Some? then
        && |w.value| <= U64_MAX
        && out + EncodeAll(Present(types, record, i + 1))
           == out + EncodeAll(Present(types, record, i)) + Put(types[i].numtype) + Put(|w.value|) + w.value
      else EncodeAll(Present(types, record, i + 1)) == EncodeAll(Present(types, record, i))
  {
    var fs, w := Present(types, record, i), types[i].towire(record);
    if w.Some? {
      var f := Field(Some(i), types[i].numtype, w.value);
      EncodeConcat(fs, [f]);
      assert EncodeAll([f]) == Encode(f) + EncodeAll([]);
      hide Put;
      Regroup(out, EncodeAll(fs), Put(f.numtype), Put(|f.value|), f.value);
    } else {
      assert fs + [] == fs;
    }
  }

  lemma Regroup(a: seq<Byte>, b: seq<Byte>, c: seq<Byte>, d: seq<Byte>, e: seq<Byte>)
    ensures a + (b + (c + d + e + [])) == a + b + c + d + e
  {
  }

  /** Writing a record directly or through its fields gives the same bytes. */
  method TowireTwice<R(!new)>(out: seq<Byte>, types: seq<RecordType<R>>, record: R)
      returns (direct: seq<Byte>, raw: seq<Byte>)
    requires TypesOk(types, record) && |types| <= U64_MAX
    ensures direct == raw
  {
    direct := TowireTlv(out, types, record);
    var fields := MakeFields(types, record);
    PresentAscends(types, record, |types|);
    PresentSize(types, record, |types|);
    var a := new Field[|fields|](i requires 0 <= i < |fields| => fields[i]);
    assert a[..] == fields;
    hide Ascending, FieldsOk;
    AscendingDistinct(fields);
    raw := TowireRaw(out, a);
  }

  lemma AscendingDistinct(fs: seq<Field>)
    requires Ascending(fs)
    ensures DistinctTypes(fs)
  {
  }

  lemma {:induction false} PresentSize<R>(types: seq<RecordType<R>>, record: R, n: nat)
    requires n <= |types|
    ensures |Present(types, record, n)| <= n
  {
    if n > 0 { PresentSize(types, record, n - 1); }
  }

  /** Decoding a valid stream and writing it raw reproduces it byte for byte. */
  method ReencodeRaw<R>(types: seq<RecordType<R>>, p: seq<Byte>, extra: seq<nat>) returns (r: Option<seq<Byte>>)
    requires |p| <= U64_MAX
    ensures r.Some? ==> r.value == p
    ensures r.Some? <==> DecodeAll(types, p).Some? && ValidFields(DecodeAll(types, p).value, extra)
  {
    var fs := FromwireTlv(types, p);
    if fs.None? { return None; }
    var ok, err := FieldsValid(fs.value, extra);
    if !ok { return None; }
    DecodeThenEncode(types, p);
    DecodeSize(types, p);
    var fields := fs.value;
    AscendingDistinct(fields);
    assert FieldsOk(fields);
    var a := new Field[|fields|](i requires 0 <= i < |fields| => fields[i]);
    assert a[..] == fields;
    hide DecodeAll, EncodeAll, Allowed;
    var out := TowireRaw([], a);
    assert [] + EncodeAll(fields) == EncodeAll(fields);
    r := Some(out);
  }

  lemma {:induction false} DecodeSize<R>(types: seq<RecordType<R>>, p: seq<Byte>)
    requires DecodeAll(types, p).Some?
    ensures |DecodeAll(types, p).value| <= |p|
    decreases |p|
  {
    hide DecodeOne;
    if p != [] { DecodeSize(types, DecodeOne(types, p).value.1); }
  }

  lemma PermKeepsDecodable<R>(types: seq<RecordType<R>>, fs: seq<Field>, gs: seq<Field>)
    requires multiset(fs) == multiset(gs) && Decodable(types, fs)
    ensures Decodable(types, gs)
  {
    hide FieldDecodable;
    forall i | 0 <= i < |gs| ensures FieldDecodable(types, gs[i]) {
      assert gs[i] in multiset(gs);
      assert gs[i] in fs;
    }
  }

  /** Writing fields in any order and reading them back gives them in type order. */
  method WriteThenRead<R>(types: seq<RecordType<R>>, fields: array<Field>) returns (r: Option<seq<Field>>)
    requires fields.Length <= U64_MAX && Decodable(types, fields[..]) && DistinctTypes(fields[..])
    modifies fields
    ensures r == Some(fields[..]) && Ascending(fields[..]) && multiset(fields[..]) == multiset(old(fields[..]))
  {
    hide Ascending, DistinctTypes, EncodeAll, DecodeAll;
    ghost var fs := fields[..];
    assert FieldsOk(fs);
    var out := TowireRaw([], fields);
    PermKeepsDecodable(types, fs, fields[..]);
    EncodeThenDecode(types, fields[..]);
    assert [] + EncodeAll(fields[..]) == EncodeAll(fields[..]);
    r := FromwireTlv(types, out);
  }
}
