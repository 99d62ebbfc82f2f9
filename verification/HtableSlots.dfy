/** Open addressing as ccan/ccan/htable/htable.c does it, seen as slots: a word is empty,
    deleted, or holds a pointer.  Probing goes up from the home bucket and wraps. */
module HtableSlots {
  import opened Words

  type Ptr = Word

  datatype Slot = Empty | Tomb | Elem(p: Ptr)

  /** (i + 1) & (capacity - 1) for the power-of-two capacity. */
  function Next(i: nat, cap: nat): (j: nat)
    requires i < cap
    ensures j < cap
  {
    if i + 1 == cap then 0 else i + 1
  }

  /** How many probe steps lead from bucket h to bucket i. */
  function Dist(h: nat, i: nat, cap: nat): (d: nat)
    requires h < cap && i < cap
    ensures d < cap
  {
    if h <= i then i - h else i + cap - h
  }

  /** The bucket k probe steps after h. */
  function At(h: nat, k: nat, cap: nat): (i: nat)
    requires h < cap && k < cap
    ensures i < cap && Dist(h, i, cap) == k
  {
    if h + k < cap then h + k else h + k - cap
  }

  /** No bucket between h and i in probe order is empty. */
  ghost predicate ChainFull(s: seq<Slot>, h: nat, i: nat)
    requires h < |s| && i < |s|
  {
    forall j :: 0 <= j < |s| && Dist(h, j, |s|) < Dist(h, i, |s|) ==> s[j] != Empty
  }

  /** `home` sends every pointer to a bucket. */
  ghost predicate Homes(home: Ptr -> nat, cap: nat) {
    forall p :: home(p) < cap
  }

  /** Every stored pointer can be found by probing from its home. */
  ghost predicate ProbeOk(s: seq<Slot>, home: Ptr -> nat) {
    Homes(home, |s|) && forall i :: 0 <= i < |s| && s[i].Elem? ==> ChainFull(s, home(s[i].p), i)
  }

  // ---- Contents and occupancy ----

  /** What to count: occurrences of one pointer, all pointers, or buckets that are not empty. */
  datatype Tally = OfPtr(p: Ptr) | AnyElem | NotEmpty

  ghost function Tallied(t: Tally, x: Slot): nat {
    match t
    case OfPtr(p) => if x == Elem(p) then 1 else 0
    case AnyElem => if x.Elem? then 1 else 0
    case NotEmpty => if x == Empty then 0 else 1
  }

  ghost function Total(s: seq<Slot>, t: Tally): nat {
    if s == [] then 0 else Total(s[..|s| - 1], t) + Tallied(t, s[|s| - 1])
  }

  lemma {:induction false} TotalUpdate(s: seq<Slot>, i: nat, x: Slot, t: Tally)
    requires i < |s|
    ensures Total(s[i := x], t) + Tallied(t, s[i]) == Total(s, t) + Tallied(t, x)
  {
    var n := |s| - 1;
    if i == n {
      assert s[i := x][..n] == s[..n];
    } else {
      TotalUpdate(s[..n], i, x, t);
      assert s[i := x][..n] == s[..n][i := x];
    }
  }

  lemma TotalsUpdate(s: seq<Slot>, i: nat, x: Slot)
    requires i < |s|
    ensures forall t :: Total(s[i := x], t) + Tallied(t, s[i]) == Total(s, t) + Tallied(t, x)
  {
    forall t ensures Total(s[i := x], t) + Tallied(t, s[i]) == Total(s, t) + Tallied(t, x) {
      TotalUpdate(s, i, x, t);
    }
  }

  /** The same pointers are stored equally often. */
  ghost predicate SameElems(s: seq<Slot>, s0: seq<Slot>) {
    forall t: Tally :: t != NotEmpty ==> Total(s, t) == Total(s0, t)
  }

  /** A tally below the capacity leaves out some bucket. */
  lemma {:induction false} UntalliedExists(s: seq<Slot>, t: Tally) returns (i: nat)
    requires Total(s, t) < |s|
    ensures i < |s| && Tallied(t, s[i]) == 0
  {
    var n := |s| - 1;
    if Tallied(t, s[n]) == 0 {
      i := n;
    } else {
      i := UntalliedExists(s[..n], t);
    }
  }

  lemma {:induction false} NothingStored(s: seq<Slot>, t: Tally)
    requires forall i :: 0 <= i < |s| ==> s[i] == Empty
    ensures Total(s, t) == 0
  {
    if s != [] { NothingStored(s[..|s| - 1], t); }
  }

  lemma {:induction false} ElemStored(s: seq<Slot>, i: nat)
    requires i < |s| && s[i].Elem?
    ensures Total(s, OfPtr(s[i].p)) > 0
  {
    var n := |s| - 1;
    if i < n {
      ElemStored(s[..n], i);
    }
  }

  lemma {:induction false} StoredElem(s: seq<Slot>, p: Ptr) returns (i: nat)
    requires Total(s, OfPtr(p)) > 0
    ensures i < |s| && s[i] == Elem(p)
  {
    var n := |s| - 1;
    if s[n] == Elem(p) {
      i := n;
    } else {
      i := StoredElem(s[..n], p);
    }
  }

  /** Without tombstones the used buckets are those with pointers. */
  lemma {:induction false} NoTombs(s: seq<Slot>)
    requires forall i :: 0 <= i < |s| ==> s[i] != Tomb
    ensures Total(s, NotEmpty) == Total(s, AnyElem)
  {
    if s != [] { NoTombs(s[..|s| - 1]); }
  }

  lemma {:induction false} NoElems(s: seq<Slot>, i: nat)
    requires Total(s, AnyElem) == 0 && i < |s|
    ensures !s[i].Elem?
  {
    if i < |s| - 1 { NoElems(s[..|s| - 1], i); }
  }

  // ---- Probing ----

  /** One more probe step: distances grow by one until the walk would wrap to its home. */
  lemma DistNext(h: nat, i: nat, cap: nat)
    requires h < cap && i < cap
    ensures Dist(h, i, cap) + 1 < cap ==> Dist(h, Next(i, cap), cap) == Dist(h, i, cap) + 1
    ensures Dist(h, i, cap) + 1 == cap ==> Next(i, cap) == h
    ensures forall j :: 0 <= j < cap && Dist(h, j, cap) == Dist(h, i, cap) ==> j == i
  {
  }

  /** A chain without gaps and one more full bucket give a longer chain, which cannot cover
      a table that has an empty bucket. */
  lemma ChainExtend(s: seq<Slot>, h: nat, i: nat, e: nat)
    requires h < |s| && i < |s| && e < |s| && s[e] == Empty
    requires ChainFull(s, h, i) && s[i] != Empty
    ensures Dist(h, Next(i, |s|), |s|) == Dist(h, i, |s|) + 1
    ensures ChainFull(s, h, Next(i, |s|))
  {
    DistNext(h, i, |s|);
  }

  /** Every bucket between h and i in probe order holds a pointer. */
  ghost predicate ElemsTo(s: seq<Slot>, h: nat, i: nat)
    requires h < |s| && i < |s|
  {
    forall j :: 0 <= j < |s| && Dist(h, j, |s|) < Dist(h, i, |s|) ==> s[j].Elem?
  }

  lemma ElemsExtend(s: seq<Slot>, h: nat, i: nat, e: nat)
    requires h < |s| && i < |s| && e < |s| && !s[e].Elem?
    requires ElemsTo(s, h, i) && s[i].Elem?
    ensures Dist(h, Next(i, |s|), |s|) == Dist(h, i, |s|) + 1
    ensures ElemsTo(s, h, Next(i, |s|)) && Next(i, |s|) != h
  {
    DistNext(h, i, |s|);
  }

  lemma ElemsAreChain(s: seq<Slot>, h: nat, i: nat)
    requires h < |s| && i < |s| && ElemsTo(s, h, i)
    ensures ChainFull(s, h, i)
  {
  }

  /** Writing a pointer at the end of a full chain from its home keeps every pointer findable. */
  lemma InsertKeepsProbe(s: seq<Slot>, home: Ptr -> nat, i: nat, p: Ptr)
    requires ProbeOk(s, home) && i < |s| && ChainFull(s, home(p), i)
    ensures ProbeOk(s[i := Elem(p)], home)
  {
  }

  /** A tombstone keeps every other pointer findable. */
  lemma DeleteKeepsProbe(s: seq<Slot>, home: Ptr -> nat, i: nat)
    requires ProbeOk(s, home) && i < |s|
    ensures ProbeOk(s[i := Tomb], home)
  {
  }

  /** Once the walk from h meets an empty bucket no pointer with that home lies beyond. */
  lemma NoneBeyondEmpty(s: seq<Slot>, home: Ptr -> nat, h: nat, e: nat)
    requires ProbeOk(s, home) && h < |s| && e < |s| && s[e] == Empty
    ensures forall j :: 0 <= j < |s| && s[j].Elem? && home(s[j].p) == h ==> Dist(h, j, |s|) < Dist(h, e, |s|)
  {
    DistNext(h, e, |s|);
  }

  // ---- Rehash in place ----

  /** State of rehash_table after k buckets, counted from the empty bucket `start`: those
      done are findable and free of tombstones, those to come are untouched, and no pointer
      lies before its home in that order. */
  ghost predicate Rehashing(s: seq<Slot>, s0: seq<Slot>, home: Ptr -> nat, start: nat, k: nat) {
    Placed(s, s0, home, start, k) && SameElems(s, s0)
  }

  ghost predicate Placed(s: seq<Slot>, s0: seq<Slot>, home: Ptr -> nat, start: nat, k: nat) {
    && |s| == |s0| && start < |s| && k <= |s| && Homes(home, |s|)
    && s[start] == Empty
    && (forall i :: 0 <= i < |s| && Dist(start, i, |s|) < k ==> s[i] != Tomb)
    && (forall i :: 0 <= i < |s| && Dist(start, i, |s|) >= k ==> s[i] == s0[i])
    && (forall i :: 0 <= i < |s| && s[i].Elem? ==>
          0 < Dist(start, home(s[i].p), |s|) <= Dist(start, i, |s|))
    && (forall i :: 0 <= i < |s| && s[i].Elem? && Dist(start, i, |s|) < k ==> ChainFull(s, home(s[i].p), i))
  }

  lemma RehashStart(s: seq<Slot>, home: Ptr -> nat, start: nat)
    requires ProbeOk(s, home) && start < |s| && s[start] == Empty
    ensures Rehashing(s, s, home, start, 0)
  {
    forall i | 0 <= i < |s| && s[i].Elem?
      ensures 0 < Dist(start, home(s[i].p), |s|) <= Dist(start, i, |s|)
    {
      assert ChainFull(s, home(s[i].p), i);
    }
  }

  lemma RehashingHomes(s: seq<Slot>, s0: seq<Slot>, home: Ptr -> nat, start: nat, k: nat)
    requires Rehashing(s, s0, home, start, k)
    ensures Homes(home, |s|) && start < |s| == |s0|
  {
  }

  lemma RehashDone(s: seq<Slot>, s0: seq<Slot>, home: Ptr -> nat, start: nat)
    requires Rehashing(s, s0, home, start, |s|)
    ensures ProbeOk(s, home) && SameElems(s, s0)
    ensures forall i :: 0 <= i < |s| ==> s[i] != Tomb
  {
  }

  /** A bucket that stays as it is: empty, or a pointer in its home bucket. */
  lemma RehashKeep(s: seq<Slot>, s0: seq<Slot>, home: Ptr -> nat, start: nat, k: nat)
    requires Rehashing(s, s0, home, start, k) && k < |s|
    requires s[At(start, k, |s|)] != Tomb
    requires s[At(start, k, |s|)].Elem? ==> home(s[At(start, k, |s|)].p) == At(start, k, |s|)
    ensures Rehashing(s, s0, home, start, k + 1)
  {
    DistNext(start, At(start, k, |s|), |s|);
  }

  /** Counted from start, a chain from a home to a later bucket stays before that bucket. */
  lemma ChainBefore(start: nat, hm: nat, i: nat, j: nat, cap: nat)
    requires start < cap && hm < cap && i < cap && j < cap
    requires Dist(start, hm, cap) <= Dist(start, i, cap) && Dist(hm, j, cap) < Dist(hm, i, cap)
    ensures Dist(start, hm, cap) <= Dist(start, j, cap) < Dist(start, i, cap)
  {
  }

  /** Emptying a bucket at or after i leaves a chain that ends at i alone. */
  lemma ClearKeepsChain(s: seq<Slot>, start: nat, hm: nat, i: nat, h: nat)
    requires start < |s| && hm < |s| && i < |s| && h < |s| && ChainFull(s, hm, i)
    requires Dist(start, hm, |s|) <= Dist(start, i, |s|) <= Dist(start, h, |s|)
    ensures ChainFull(s[h := Empty], hm, i)
  {
    forall j | 0 <= j < |s| && Dist(hm, j, |s|) < Dist(hm, i, |s|) ensures s[h := Empty][j] != Empty {
      ChainBefore(start, hm, i, j, |s|);
    }
  }

  lemma FillKeepsChain(s: seq<Slot>, hm: nat, i: nat, at: nat, p: Ptr)
    requires hm < |s| && i < |s| && at < |s| && ChainFull(s, hm, i)
    ensures ChainFull(s[at := Elem(p)], hm, i)
  {
  }

  /** Bucket k emptied: the state for k + 1, with whatever it held missing. */
  ghost predicate Cleared(s: seq<Slot>, s0: seq<Slot>, home: Ptr -> nat, start: nat, k: nat) {
    && |s| == |s0| && start < |s| && k < |s| && Homes(home, |s|)
    && s[start] == Empty && s[At(start, k, |s|)] == Empty
    && (forall i :: 0 <= i < |s| && Dist(start, i, |s|) <= k ==> s[i] != Tomb)
    && (forall i :: 0 <= i < |s| && Dist(start, i, |s|) > k ==> s[i] == s0[i])
    && (forall i :: 0 <= i < |s| && s[i].Elem? ==>
          0 < Dist(start, home(s[i].p), |s|) <= Dist(start, i, |s|))
    && (forall i :: 0 <= i < |s| && s[i].Elem? && Dist(start, i, |s|) <= k ==> ChainFull(s, home(s[i].p), i))
  }

  lemma RehashClear(s: seq<Slot>, s0: seq<Slot>, home: Ptr -> nat, start: nat, k: nat)
    requires Rehashing(s, s0, home, start, k) && k < |s|
    ensures Cleared(s[At(start, k, |s|) := Empty], s0, home, start, k)
  {
    hide ChainFull, SameElems;
    var h := At(start, k, |s|);
    var s1 := s[h := Empty];
    DistNext(start, h, |s|);
    forall i | 0 <= i < |s| && s1[i].Elem? && Dist(start, i, |s|) <= k ensures ChainFull(s1, home(s1[i].p), i) {
      ClearKeepsChain(s, start, home(s[i].p), i, h);
    }
  }

  /** A tombstone becomes empty. */
  lemma RehashTomb(s: seq<Slot>, s0: seq<Slot>, home: Ptr -> nat, start: nat, k: nat)
    requires Rehashing(s, s0, home, start, k) && k < |s|
    requires s[At(start, k, |s|)] == Tomb
    ensures Rehashing(s[At(start, k, |s|) := Empty], s0, home, start, k + 1)
  {
    hide ChainFull;
    RehashClear(s, s0, home, start, k);
    TotalsUpdate(s, At(start, k, |s|), Empty);
  }

  /** The pointer of bucket k goes back in at i, the end of a chain of pointers from its home
      that does not go past bucket k. */
  lemma RehashInsert(s: seq<Slot>, s0: seq<Slot>, home: Ptr -> nat, start: nat, k: nat, i: nat, p: Ptr)
    requires Cleared(s, s0, home, start, k) && i < |s| && !s[i].Elem?
    requires 0 < Dist(start, home(p), |s|) <= k
    requires ElemsTo(s, home(p), i)
    ensures Placed(s[i := Elem(p)], s0, home, start, k + 1)
  {
    var s' := s[i := Elem(p)];
    InsertSpot(s, start, home(p), At(start, k, |s|), i);
    RehashInsertChains(s, s0, home, start, k, i, p);
    hide ChainFull, ElemsTo, Homes;
  }

  lemma RehashInsertChains(s: seq<Slot>, s0: seq<Slot>, home: Ptr -> nat, start: nat, k: nat, i: nat, p: Ptr)
    requires Cleared(s, s0, home, start, k) && i < |s| && ElemsTo(s, home(p), i)
    ensures var s' := s[i := Elem(p)];
      forall j :: 0 <= j < |s| && s'[j].Elem? && Dist(start, j, |s|) < k + 1 ==> ChainFull(s', home(s'[j].p), j)
  {
    var s' := s[i := Elem(p)];
    ElemsAreChain(s, home(p), i);
    hide ChainFull, ElemsTo;
    forall j | 0 <= j < |s| && s'[j].Elem? && Dist(start, j, |s|) < k + 1 ensures ChainFull(s', home(s'[j].p), j) {
      FillKeepsChain(s, home(s'[j].p), j, i, p);
    }
  }

  /** Probing from a home before the free bucket h ends at or before h. */
  lemma InsertSpot(s: seq<Slot>, start: nat, hm: nat, h: nat, i: nat)
    requires start < |s| && hm < |s| && h < |s| && i < |s| && !s[h].Elem? && ElemsTo(s, hm, i)
    requires 0 < Dist(start, hm, |s|) <= Dist(start, h, |s|)
    ensures Dist(start, hm, |s|) <= Dist(start, i, |s|) <= Dist(start, h, |s|) && i != start
  {
    assert Dist(hm, i, |s|) <= Dist(hm, h, |s|);
  }

  lemma MoveSameElems(s: seq<Slot>, h: nat, i: nat)
    requires h < |s| && i < |s| && s[h].Elem? && !s[h := Empty][i].Elem?
    ensures SameElems(s[h := Empty][i := s[h]], s)
  {
    var s1 := s[h := Empty];
    forall t: Tally | t != NotEmpty ensures Total(s1[i := s[h]], t) == Total(s, t) {
      TotalUpdate(s, h, Empty, t);
      TotalUpdate(s1, i, s[h], t);
    }
  }

  lemma RehashMove(s: seq<Slot>, s0: seq<Slot>, home: Ptr -> nat, start: nat, k: nat, i: nat)
    requires Rehashing(s, s0, home, start, k) && k < |s| && i < |s|
    requires s[At(start, k, |s|)].Elem? && Homes(home, |s|)
    requires var h := At(start, k, |s|); var s1 := s[h := Empty];
      !s1[i].Elem? && ElemsTo(s1, home(s[h].p), i)
    ensures var h := At(start, k, |s|);
      Rehashing(s[h := Empty][i := s[h]], s0, home, start, k + 1)
  {
    var h := At(start, k, |s|);
    var p := s[h].p;
    var s1 := s[h := Empty];
    RehashClear(s, s0, home, start, k);
    RehashInsert(s1, s0, home, start, k, i, p);
    MoveSameElems(s, h, i);
    hide Placed;
    assert SameElems(s1[i := Elem(p)], s0);
  }
}
