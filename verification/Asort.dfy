/** The sort of ccan/ccan/asort/asort.c: quicksort down to small partitions with an explicit
    stack, then one insertion sort whose inner loop has no bounds check.

    Positions are indices; `cmp` is the caller's comparison and `rank` a ghost number that
    represents it on the elements of `base`, the array as it was.  The comparison of an element
    with itself may say anything, even "less", as long as no other element ranks equal to it:
    wire/tlvstream.c sorts with such a comparison. */
module Asort {
  import opened Words

  const MAX_THRESH: nat := 4

  /** CHAR_BIT * sizeof(size_t). */
  const STACK_SIZE: nat := 64

  ghost predicate Ranks<T>(cmp: (T, T) -> int, rank: T -> int, base: seq<T>) {
    && (forall i, j :: 0 <= i < |base| && 0 <= j < |base| && i != j ==>
          (cmp(base[i], base[j]) < 0 <==> rank(base[i]) < rank(base[j])))
    && (forall i :: 0 <= i < |base| && cmp(base[i], base[i]) < 0 ==> Lone(base, rank, i))
  }

  /** No other element ranks equal to s[i]. */
  ghost predicate Lone<T>(s: seq<T>, rank: T -> int, i: nat)
    requires i < |s|
  {
    forall j :: 0 <= j < |s| && j != i ==> rank(s[j]) != rank(s[i])
  }

  ghost predicate Perm<T>(s: seq<T>, base: seq<T>) {
    multiset(s) == multiset(base)
  }

  lemma PermMember<T>(s: seq<T>, base: seq<T>, i: nat)
    requires Perm(s, base) && i < |s|
    ensures s[i] in base && |s| == |base|
  {
    assert s[i] in multiset(s);
    assert |multiset(s)| == |s|;
    assert |multiset(base)| == |base|;
  }

  lemma PermSwap<T>(s: seq<T>, base: seq<T>, i: nat, j: nat)
    requires Perm(s, base) && i < |s| && j < |s|
    ensures Perm(s[i := s[j]][j := s[i]], base)
  {
  }

  /** Two positions of a permutation come from two positions of the original. */
  lemma PermPair<T>(s: seq<T>, base: seq<T>, i: nat, j: nat) returns (k: nat, l: nat)
    requires Perm(s, base) && i < |s| && j < |s| && i != j
    ensures k < |base| && l < |base| && k != l && base[k] == s[i] && base[l] == s[j]
  {
    hide Perm;
    PermMember(s, base, i);
    k :| k < |base| && base[k] == s[i];
    var rest, s' := Without(base, k), Without(s, i);
    WithoutPerm(s, base, i, k);
    var j' := if j < i then j else j - 1;
    assert s'[j'] == s[j];
    PermMember(s', rest, j');
    var l' :| 0 <= l' < |rest| && rest[l'] == s[j];
    l := if l' < k then l' else l' + 1;
  }

  ghost function Without<T>(s: seq<T>, i: nat): seq<T>
    requires i < |s|
  {
    s[..i] + s[i + 1..]
  }

  lemma WithoutPerm<T>(s: seq<T>, base: seq<T>, i: nat, k: nat)
    requires Perm(s, base) && i < |s| && k < |base| && s[i] == base[k]
    ensures Perm(Without(s, i), Without(base, k))
  {
    WithoutOne(s, i);
    WithoutOne(base, k);
  }

  lemma WithoutOne<T>(s: seq<T>, i: nat)
    requires i < |s|
    ensures multiset(Without(s, i)) == multiset(s) - multiset{s[i]}
  {
    assert s == s[..i] + [s[i]] + s[i + 1..];
    assert multiset(s) == multiset(s[..i]) + multiset{s[i]} + multiset(s[i + 1..]);
  }

  lemma PermLone<T>(s: seq<T>, base: seq<T>, rank: T -> int, i: nat, k: nat)
    requires Perm(s, base) && i < |s| && k < |base| && base[k] == s[i] && Lone(base, rank, k)
    ensures Lone(s, rank, i)
  {
    forall j | 0 <= j < |s| && j != i ensures rank(s[j]) != rank(s[i]) {
      var k', l := PermPair(s, base, i, j);
      assert k' == k;
    }
  }

  /** The comparison of two array elements, as a test on ranks. */
  method Less<T>(a: array<T>, cmp: (T, T) -> int, ghost rank: T -> int, ghost base: seq<T>, i: nat, j: nat)
      returns (b: bool)
    requires i < a.Length && j < a.Length && Perm(a[..], base) && Ranks(cmp, rank, base)
    ensures i != j ==> (b <==> rank(a[i]) < rank(a[j]))
    ensures i == j && b ==> Lone(a[..], rank, i)
  {
    hide Perm, Lone;
    b := cmp(a[i], a[j]) < 0;
    if i != j {
      ghost var k, l := PermPair(a[..], base, i, j);
    } else if b {
      PermMember(a[..], base, i);
      ghost var k: nat :| k < |base| && base[k] == a[i];
      PermLone(a[..], base, rank, i, k);
    }
  }

  method Swap<T>(a: array<T>, ghost base: seq<T>, i: nat, j: nat)
    requires i < a.Length && j < a.Length && Perm(a[..], base)
    modifies a
    ensures a[i] == old(a[j]) && a[j] == old(a[i])
    ensures forall k :: 0 <= k < a.Length && k != i && k != j ==> a[k] == old(a[k])
    ensures Perm(a[..], base)
  {
    PermSwap(a[..], base, i, j);
    ghost var s := a[..];
    a[i], a[j] := a[j], a[i];
    assert a[..] == s[i := s[j]][j := s[i]];
  }

  /** Elements outside [lo, hi] are as in s. */
  ghost predicate Outside<T>(s: seq<T>, t: seq<T>, lo: nat, hi: nat) {
    |s| == |t| && forall k :: 0 <= k < |s| && !(lo <= k <= hi) ==> s[k] == t[k]
  }

  /** Median of three: a[lo], a[mid], a[hi] in order. */
  method Median<T>(a: array<T>, cmp: (T, T) -> int, ghost rank: T -> int, ghost base: seq<T>, lo: nat, hi: nat)
      returns (mid: nat)
    requires lo + 2 <= hi < a.Length && Perm(a[..], base) && Ranks(cmp, rank, base)
    modifies a
    ensures Perm(a[..], base) && Outside(a[..], old(a[..]), lo, hi)
    ensures lo < mid < hi
    ensures rank(a[lo]) <= rank(a[mid]) <= rank(a[hi])
  {
    hide Perm, Ranks, Outside;
    mid := lo + (hi - lo) / 2;
    ghost var s0 := a[..];
    var b := Less(a, cmp, rank, base, mid, lo);
    if b { Swap(a, base, mid, lo); }
    b := Less(a, cmp, rank, base, hi, mid);
    if b {
      Swap(a, base, mid, hi);
      b := Less(a, cmp, rank, base, mid, lo);
      if b { Swap(a, base, mid, lo); }
    }
    OutsideThree(a[..], s0, lo, mid, hi);
  }

  lemma OutsideThree<T>(s: seq<T>, t: seq<T>, lo: nat, mid: nat, hi: nat)
    requires |s| == |t| && lo <= mid <= hi
    requires forall k :: 0 <= k < |s| && k != lo && k != mid && k != hi ==> s[k] == t[k]
    ensures Outside(s, t, lo, hi)
  {
  }

  /** Up to left everything in the segment ranks at most pv, from right on at least pv. */
  ghost predicate Walls<T>(s: seq<T>, rank: T -> int, pv: int, lo: nat, hi: nat, left: int, right: int) {
    && hi < |s| && lo <= left <= hi + 1 && lo - 1 <= right <= hi
    && (forall k :: lo <= k < left ==> rank(s[k]) <= pv)
    && (forall k :: right < k <= hi ==> rank(s[k]) >= pv)
  }

  /** "Collapse the walls": one partition of [lo, hi]; neither inner scan is bounds-checked. */
  method Partition<T>(a: array<T>, cmp: (T, T) -> int, ghost rank: T -> int, ghost base: seq<T>, lo: nat, hi: nat)
      returns (left: int, right: int)
    requires lo + 2 <= hi < a.Length && Perm(a[..], base) && Ranks(cmp, rank, base)
    modifies a
    ensures Perm(a[..], base) && Outside(a[..], old(a[..]), lo, hi)
    ensures lo <= right < left <= hi && lo < left && right < hi
    ensures forall j, k :: lo <= j <= right < k <= hi ==> rank(a[j]) <= rank(a[k])
  {
    hide Perm, Ranks, Outside;
    ghost var s0 := a[..];
    var mid := Median(a, cmp, rank, base, lo, hi);
    ghost var pv := rank(a[mid]);
    left, right := lo + 1, hi - 1;
    while true
      invariant lo < left <= right + 1 && right < hi
      invariant lo < mid < hi && rank(a[mid]) == pv
      invariant Walls(a[..], rank, pv, lo, hi, left, right)
      invariant Perm(a[..], base) && Outside(a[..], s0, lo, hi)
      decreases right - left
    {
      left := ScanUp(a, cmp, rank, base, lo, hi, mid, left, right);
      right := ScanDown(a, cmp, rank, base, lo, hi, mid, left, right);
      if left < right {
        ghost var s := a[..];
        Swap(a, base, left, right);
        SwapInside(a[..], s, s0, rank, pv, lo, hi, left, right);
        if mid == left { mid := right; }
        else if mid == right { mid := left; }
        left, right := left + 1, right - 1;
      } else if left == right {
        left, right := left + 1, right - 1;
        break;
      }
      if left > right { break; }
    }
  }

  /** Exchanging two elements that are on the wrong sides moves both walls inwards. */
  lemma SwapInside<T>(s': seq<T>, s: seq<T>, s0: seq<T>, rank: T -> int, pv: int, lo: nat, hi: nat, left: int,
                      right: int)
    requires Walls(s, rank, pv, lo, hi, left, right) && Outside(s, s0, lo, hi) && lo < left < right < hi
    requires |s'| == |s| && s'[left] == s[right] && s'[right] == s[left]
    requires forall k :: 0 <= k < |s| && k != left && k != right ==> s'[k] == s[k]
    requires rank(s[left]) >= pv >= rank(s[right])
    ensures Walls(s', rank, pv, lo, hi, left + 1, right - 1) && Outside(s', s0, lo, hi)
  {
  }

  /** Walking up, the scan may step over the pivot itself but stops at the next element. */
  method ScanUp<T>(a: array<T>, cmp: (T, T) -> int, ghost rank: T -> int, ghost base: seq<T>,
                   ghost lo: nat, ghost hi: nat, mid: nat, left0: int, ghost right: int) returns (left: int)
    requires lo < mid < hi < a.Length && Perm(a[..], base) && Ranks(cmp, rank, base)
    requires lo < left0 <= right + 1 && right < hi && Walls(a[..], rank, rank(a[mid]), lo, hi, left0, right)
    ensures left0 <= left && (left <= right + 1 || (left == right + 2 && mid == right + 1))
    ensures left <= hi && rank(a[left]) >= rank(a[mid])
    ensures Walls(a[..], rank, rank(a[mid]), lo, hi, left, right)
  {
    hide Perm, Ranks;
    left := left0;
    while true
      invariant left0 <= left && (left <= right + 1 || (left == right + 2 && mid == right + 1))
      invariant Walls(a[..], rank, rank(a[mid]), lo, hi, left, right)
      decreases hi - left
    {
      var b := Less(a, cmp, rank, base, left, mid);
      if !b { return; }
      left := left + 1;
    }
  }

  method ScanDown<T>(a: array<T>, cmp: (T, T) -> int, ghost rank: T -> int, ghost base: seq<T>,
                     ghost lo: nat, ghost hi: nat, mid: nat, ghost left: int, right0: int) returns (right: int)
    requires lo < mid < hi < a.Length && Perm(a[..], base) && Ranks(cmp, rank, base)
    requires lo < left <= hi && right0 < hi && (left <= right0 + 1 || (left == right0 + 2 && mid == right0 + 1))
    requires Walls(a[..], rank, rank(a[mid]), lo, hi, left, right0)
    ensures right <= right0 && (left - 1 <= right || (right == left - 2 && mid == left - 1))
    ensures lo <= right && rank(a[right]) <= rank(a[mid])
    ensures Walls(a[..], rank, rank(a[mid]), lo, hi, left, right)
  {
    hide Perm, Ranks;
    right := right0;
    while true
      invariant right <= right0 && (left - 1 <= right || (right == left - 2 && mid == left - 1))
      invariant Walls(a[..], rank, rank(a[mid]), lo, hi, left, right)
      decreases right
    {
      var b := Less(a, cmp, rank, base, mid, right);
      if !b { return; }
      right := right - 1;
    }
  }

  // ---- The leftmost partition keeps the minimum ----

  /** The least rank r of the array is attained among the first b + 1 elements. */
  ghost predicate MinWithin<T>(s: seq<T>, rank: T -> int, r: int, b: int) {
    b < |s| && exists m :: 0 <= m <= b && rank(s[m]) == r
  }

  ghost predicate AtLeast<T>(s: seq<T>, rank: T -> int, r: int) {
    forall k :: 0 <= k < |s| ==> rank(s[k]) >= r
  }

  lemma PermAtLeast<T>(s: seq<T>, base: seq<T>, rank: T -> int, r: int)
    requires Perm(s, base) && AtLeast(base, rank, r)
    ensures AtLeast(s, rank, r)
  {
    forall k | 0 <= k < |s| ensures rank(s[k]) >= r {
      PermMember(s, base, k);
    }
  }

  lemma {:induction false} MinExists<T>(s: seq<T>, rank: T -> int) returns (m: nat)
    requires s != []
    ensures m < |s| && AtLeast(s, rank, rank(s[m]))
  {
    if |s| == 1 {
      m := 0;
    } else {
      m := MinExists(s[..|s| - 1], rank);
      forall k | 0 <= k < |s| - 1 ensures rank(s[k]) >= rank(s[m]) {
        assert s[..|s| - 1][k] == s[k];
      }
      if rank(s[|s| - 1]) < rank(s[m]) { m := |s| - 1; }
    }
  }

  /** Permuting a whole array only inside [lo, hi] permutes that segment. */
  lemma SegmentPerm<T>(s: seq<T>, t: seq<T>, lo: nat, hi: nat)
    requires Perm(s, t) && Outside(s, t, lo, hi) && lo <= hi < |s|
    ensures Perm(s[lo..hi + 1], t[lo..hi + 1])
  {
    assert s[..lo] == t[..lo] && s[hi + 1..] == t[hi + 1..];
    assert s == s[..lo] + s[lo..hi + 1] + s[hi + 1..];
    assert t == s[..lo] + t[lo..hi + 1] + s[hi + 1..];
    CancelEnds(s[..lo], s[lo..hi + 1], t[lo..hi + 1], s[hi + 1..]);
  }

  lemma CancelEnds<T>(p: seq<T>, x: seq<T>, y: seq<T>, q: seq<T>)
    requires multiset(p + x + q) == multiset(p + y + q)
    ensures multiset(x) == multiset(y)
  {
    var o := multiset(p) + multiset(q);
    assert multiset(p + x + q) == multiset(x) + o;
    assert multiset(p + y + q) == multiset(y) + o;
    assert multiset(x) == multiset(x) + o - o == multiset(y) + o - o == multiset(y);
  }

  /** Partitioning the leftmost segment leaves the minimum in its left part. */
  lemma MinStaysLeft<T>(s: seq<T>, t: seq<T>, rank: T -> int, r: int, hi: nat, right: nat)
    requires Perm(s, t) && Outside(s, t, 0, hi) && right < hi < |s| && AtLeast(t, rank, r)
    requires MinWithin(t, rank, r, hi)
    requires forall j, k :: 0 <= j <= right < k <= hi ==> rank(s[j]) <= rank(s[k])
    ensures MinWithin(s, rank, r, right)
  {
    SegmentPerm(s, t, 0, hi);
    PermAtLeast(s, t, rank, r);
    var m :| 0 <= m <= hi && rank(t[m]) == r;
    assert t[m] == t[0..hi + 1][m];
    PermMember(t[0..hi + 1], s[0..hi + 1], m) by { assert Perm(t[0..hi + 1], s[0..hi + 1]); }
    var m' :| 0 <= m' <= hi && s[0..hi + 1][m'] == t[m];
    assert rank(s[m']) == r;
    if m' > right { assert rank(s[0]) <= rank(s[m']); }
  }

  lemma MinUntouched<T>(s: seq<T>, t: seq<T>, rank: T -> int, r: int, b: int, lo: nat, hi: nat)
    requires MinWithin(t, rank, r, b) && Outside(s, t, lo, hi) && b < lo
    ensures MinWithin(s, rank, r, b)
  {
    var m :| 0 <= m <= b && rank(t[m]) == r;
    assert s[m] == t[m];
  }

  // ---- The stack of pending partitions ----

  datatype Seg = Seg(lo: int, hi: int) {
    function Size(): int { hi - lo + 1 }
  }

  lemma Pow2At61()
    ensures Pow2(61) == 0x2000_0000_0000_0000
  {
    assert Pow2(10) == 1024;
    assert Pow2(20) == 0x10_0000;
    assert Pow2(30) == 0x4000_0000;
    assert Pow2(40) == 0x100_0000_0000;
    assert Pow2(50) == 0x4_0000_0000_0000;
    assert Pow2(60) == 0x1000_0000_0000_0000;
  }

  /** A segment at depth k has at most n / 2^k elements. */
  ghost predicate Fits(size: int, k: nat, n: nat) {
    size * Pow2(k) <= n
  }

  /** A pending segment at stack depth k: worth sorting, small enough for its depth, and
      either the leftmost one, which ends at b, or wholly beyond b. */
  ghost predicate SegOk(g: Seg, n: nat, k: nat, b: int, leftmost: bool) {
    && 0 <= g.lo && g.lo + MAX_THRESH <= g.hi < n
    && Fits(g.Size(), k, n)
    && if leftmost then g == Seg(0, b) else g.lo > b
  }

  /** st[0] is the sentinel; `place` is where the leftmost segment waits: on the stack, in hand
      (0), or nowhere (-1) because at most five elements remain in it. */
  ghost predicate StackOk(st: seq<Seg>, n: nat, b: int, place: int) {
    && 0 <= b < n && -1 <= place < |st| && (place == -1 ==> b <= MAX_THRESH)
    && forall k :: 1 <= k < |st| ==> SegOk(st[k], n, k - 1, b, k == place)
  }

  ghost function Load(st: seq<Seg>): int {
    if st == [] then 0 else Load(st[..|st| - 1]) + st[|st| - 1].hi - st[|st| - 1].lo
  }

  /** Pushing happens at depth 60 or less when the array has fewer than 2^64 elements. */
  lemma StackDepth(g: Seg, n: nat, k: nat)
    requires Fits(g.Size(), k, n) && n < 0x1_0000_0000_0000_0000 && g.Size() >= 2 * MAX_THRESH + 2
    ensures k <= 60
  {
    if k > 60 {
      Pow2Monotone(61, k);
      Pow2At61();
      MulMonotone(g.Size(), Pow2(k), 0x2000_0000_0000_0000);
    }
  }

  lemma MulMonotone(x: int, y: int, z: int)
    requires x >= 8 && y >= z >= 0
    ensures x * y >= 8 * z
  {
    assert x * y == 8 * y + (x - 8) * y;
    assert (x - 8) * y >= 0;
  }

  /** The smaller of two disjoint parts is at most half. */
  lemma HalfFits(part: int, whole: int, n: nat, k: nat)
    requires 0 <= 2 * part <= whole && Fits(whole, k, n)
    ensures Fits(part, k + 1, n)
  {
    assert part * Pow2(k + 1) == (2 * part) * Pow2(k);
    assert (whole - 2 * part) * Pow2(k) >= 0;
    assert (whole - 2 * part) * Pow2(k) == whole * Pow2(k) - (2 * part) * Pow2(k);
  }

  lemma PartFits(part: int, whole: int, n: nat, k: nat)
    requires 0 <= part <= whole && Fits(whole, k, n)
    ensures Fits(part, k, n)
  {
    assert (whole - part) * Pow2(k) >= 0;
    assert (whole - part) * Pow2(k) == whole * Pow2(k) - part * Pow2(k);
  }

  /** Where a partition of the segment in hand sends the leftmost segment's right end. */
  ghost function NextEnd(b: int, place: int, right: int): int {
    if place == 0 then right else b
  }

  /** What every step of the loop keeps: the pending segments and the one in hand. */
  ghost predicate Pending(st: seq<Seg>, g: Seg, n: nat, b: int, place: int) {
    StackOk(st, n, b, place) && (|st| > 0 ==> SegOk(g, n, |st| - 1, b, place == 0))
  }

  /** The segment in hand was split into [lo, right] and [left, hi]. */
  ghost predicate Split(g: Seg, left: int, right: int) {
    g.lo <= right < left <= g.hi && g.lo < left && right < g.hi
  }

  /** Both parts small: the next pending segment comes off the stack. */
  lemma PopStep(st: seq<Seg>, g: Seg, n: nat, b: int, place: int, left: int, right: int)
    requires |st| > 0 && Pending(st, g, n, b, place) && Split(g, left, right) && right - g.lo <= MAX_THRESH
    ensures Pending(st[..|st| - 1], st[|st| - 1], n, NextEnd(b, place, right),
                    if place == 0 then -1 else if place == |st| - 1 then 0 else place)
    ensures Load(st[..|st| - 1]) + st[|st| - 1].hi - st[|st| - 1].lo < Load(st) + g.hi - g.lo
  {
    hide Fits;
    var st' := st[..|st| - 1];
    var b', place' := NextEnd(b, place, right), if place == 0 then -1 else if place == |st| - 1 then 0 else place;
    forall k | 1 <= k < |st'| ensures SegOk(st'[k], n, k - 1, b', k == place') {
      assert SegOk(st[k], n, k - 1, b, k == place);
    }
    assert StackOk(st', n, b', place');
  }

  /** Only the right part is worth sorting. */
  lemma LeftDone(st: seq<Seg>, g: Seg, n: nat, b: int, place: int, left: int, right: int)
    requires |st| > 0 && Pending(st, g, n, b, place) && Split(g, left, right)
    requires right - g.lo <= MAX_THRESH < g.hi - left
    ensures Pending(st, Seg(left, g.hi), n, NextEnd(b, place, right), if place == 0 then -1 else place)
  {
    hide Fits;
    PartFits(g.hi - left + 1, g.Size(), n, |st| - 1);
  }

  /** Only the left part is worth sorting. */
  lemma RightDone(st: seq<Seg>, g: Seg, n: nat, b: int, place: int, left: int, right: int)
    requires |st| > 0 && Pending(st, g, n, b, place) && Split(g, left, right)
    requires right - g.lo > MAX_THRESH
    ensures Pending(st, Seg(g.lo, right), n, NextEnd(b, place, right), place)
  {
    hide Fits;
    PartFits(right - g.lo + 1, g.Size(), n, |st| - 1);
  }

  /** Pushing a segment that fits its depth, with b moved to b' and the leftmost segment to
      place'. */
  lemma StackPush(st: seq<Seg>, x: Seg, n: nat, b: int, place: int, b': int, place': int)
    requires |st| > 0 && StackOk(st, n, b, place) && SegOk(x, n, |st| - 1, b', |st| == place')
    requires 0 <= b' <= b && (place' == -1 ==> b' <= MAX_THRESH) && -1 <= place' <= |st|
    requires (place' == place || (place == 0 && place' == |st|)) && (place >= 1 ==> b' == b)
    ensures StackOk(st + [x], n, b', place')
    ensures Load(st + [x]) == Load(st) + x.hi - x.lo
  {
    hide Fits;
    var st' := st + [x];
    assert st'[..|st|] == st;
    forall k | 1 <= k < |st'| ensures SegOk(st'[k], n, k - 1, b', k == place') {
      if k < |st| { assert SegOk(st[k], n, k - 1, b, k == place); }
    }
  }

  /** The larger left part is pushed. */
  lemma PushLeft(st: seq<Seg>, g: Seg, n: nat, b: int, place: int, left: int, right: int)
    requires |st| > 0 && Pending(st, g, n, b, place) && Split(g, left, right)
    requires right - g.lo > g.hi - left > MAX_THRESH
    ensures Pending(st + [Seg(g.lo, right)], Seg(left, g.hi), n, NextEnd(b, place, right),
                    if place == 0 then |st| else place)
    ensures Load(st + [Seg(g.lo, right)]) + g.hi - left < Load(st) + g.hi - g.lo
  {
    hide Fits, Load;
    PartFits(right - g.lo + 1, g.Size(), n, |st| - 1);
    HalfFits(g.hi - left + 1, g.Size(), n, |st| - 1);
    StackPush(st, Seg(g.lo, right), n, b, place, NextEnd(b, place, right), if place == 0 then |st| else place);
    hide StackOk;
  }

  /** The larger right part is pushed. */
  lemma PushRight(st: seq<Seg>, g: Seg, n: nat, b: int, place: int, left: int, right: int)
    requires |st| > 0 && Pending(st, g, n, b, place) && Split(g, left, right)
    requires MAX_THRESH < right - g.lo <= g.hi - left
    ensures Pending(st + [Seg(left, g.hi)], Seg(g.lo, right), n, NextEnd(b, place, right), place)
    ensures Load(st + [Seg(left, g.hi)]) + right - g.lo < Load(st) + g.hi - g.lo
  {
    hide Fits, Load;
    PartFits(g.hi - left + 1, g.Size(), n, |st| - 1);
    HalfFits(right - g.lo + 1, g.Size(), n, |st| - 1);
    StackPush(st, Seg(left, g.hi), n, b, place, NextEnd(b, place, right), place);
    hide StackOk;
  }

  lemma {:induction false} LoadNonNegative(st: seq<Seg>)
    requires forall k :: 0 <= k < |st| ==> st[k].lo <= st[k].hi
    ensures Load(st) >= 0
  {
    if st != [] { LoadNonNegative(st[..|st| - 1]); }
  }

  /** The pending work, as the loop's variant. */
  ghost function Work(st: seq<Seg>, g: Seg): int {
    Load(st) + g.hi - g.lo
  }

  lemma InHand(st: seq<Seg>, g: Seg, n: nat, b: int, place: int)
    requires |st| > 0 && st[0] == Seg(-1, -1) && Pending(st, g, n, b, place)
    ensures SegOk(g, n, |st| - 1, b, place == 0) && Work(st, g) >= 0
  {
    LoadNonNegative(st);
  }

  /** Choose the next segment: ignore small parts, push the larger of two worth sorting. */
  method Next(stack: array<Seg>, top: nat, g: Seg, left: int, right: int,
              ghost n: nat, ghost b: int, ghost place: int)
      returns (top': nat, g': Seg, ghost place': int)
    requires 1 <= top <= STACK_SIZE == stack.Length && n < 0x1_0000_0000_0000_0000
    requires stack[0] == Seg(-1, -1) && Pending(stack[..top], g, n, b, place) && Split(g, left, right)
    modifies stack
    ensures top' <= STACK_SIZE && (top' > 0 ==> stack[0] == Seg(-1, -1))
    ensures Pending(stack[..top'], g', n, NextEnd(b, place, right), place')
    ensures top' > 0 ==> Work(stack[..top'], g') < old(Work(stack[..top], g))
  {
    ghost var st := stack[..top];
    InHand(st, g, n, b, place);
    hide Pending, Load, Fits;
    top', g', place' := top, g, place;
    if right - g.lo <= MAX_THRESH {
      if g.hi - left <= MAX_THRESH {
        PopStep(st, g, n, b, place, left, right);
        assert st[..top - 1] == stack[..top - 1];
        top', g' := top - 1, stack[top - 1];
        place' := if place == 0 then -1 else if place == top - 1 then 0 else place;
      } else {
        LeftDone(st, g, n, b, place, left, right);
        g' := Seg(left, g.hi);
        place' := if place == 0 then -1 else place;
      }
    } else if g.hi - left <= MAX_THRESH {
      RightDone(st, g, n, b, place, left, right);
      g' := Seg(g.lo, right);
    } else {
      StackDepth(g, n, top - 1);
      if right - g.lo > g.hi - left {
        PushLeft(st, g, n, b, place, left, right);
        stack[top] := Seg(g.lo, right);
        g' := Seg(left, g.hi);
        place' := if place == 0 then top else place;
      } else {
        PushRight(st, g, n, b, place, left, right);
        stack[top] := Seg(left, g.hi);
        g' := Seg(g.lo, right);
      }
      top' := top + 1;
      assert stack[..top'] == st + [stack[top]];
    }
  }

  lemma StartPending(st: seq<Seg>, n: nat)
    requires st == [Seg(-1, -1)] && n > MAX_THRESH
    ensures Pending(st, Seg(0, n - 1), n, n - 1, 0)
  {
  }

  /** The minimum after one partition. */
  lemma MinAfter<T>(s: seq<T>, t: seq<T>, base: seq<T>, rank: T -> int, r: int, g: Seg, b: int, place: int, right: int,
                    k: nat)
    requires Perm(s, base) && Perm(t, base) && AtLeast(base, rank, r) && MinWithin(t, rank, r, b)
    requires SegOk(g, |t|, k, b, place == 0)
    requires Outside(s, t, g.lo, g.hi) && g.lo <= right < g.hi
    requires forall j, k :: g.lo <= j <= right < k <= g.hi ==> rank(s[j]) <= rank(s[k])
    ensures MinWithin(s, rank, r, NextEnd(b, place, right))
  {
    PermAtLeast(t, base, rank, r);
    if place == 0 {
      MinStaysLeft(s, t, rank, r, g.hi, right);
    } else {
      MinUntouched(s, t, rank, r, b, g.lo, g.hi);
    }
  }

  /** The quicksort phase.  Afterwards the minimum is among the first five elements, and no
      push ever left the stack's 64 entries. */
  method QuickPhase<T>(a: array<T>, cmp: (T, T) -> int, ghost rank: T -> int, ghost base: seq<T>, ghost r: int)
      returns (ghost b: int)
    requires MAX_THRESH < a.Length < 0x1_0000_0000_0000_0000
    requires Perm(a[..], base) && Ranks(cmp, rank, base)
    requires AtLeast(base, rank, r) && MinWithin(a[..], rank, r, a.Length - 1)
    modifies a
    ensures Perm(a[..], base) && 0 <= b <= MAX_THRESH && MinWithin(a[..], rank, r, b)
  {
    hide Perm, Ranks, AtLeast, MinWithin, Pending, Load, Outside, Fits, Work;
    var stack := new Seg[STACK_SIZE](_ => Seg(-1, -1));
    var g, top := Seg(0, a.Length - 1), 1;
    ghost var place := 0;
    b := a.Length - 1;
    StartPending(stack[..1], a.Length);
    while top > 0
      invariant 0 <= top <= STACK_SIZE && (top > 0 ==> stack[0] == Seg(-1, -1))
      invariant Pending(stack[..top], g, a.Length, b, place)
      invariant Perm(a[..], base) && MinWithin(a[..], rank, r, b)
      decreases top > 0, Work(stack[..top], g)
    {
      ghost var s := a[..];
      InHand(stack[..top], g, a.Length, b, place);
      var left, right := Partition(a, cmp, rank, base, g.lo, g.hi);
      MinAfter(a[..], s, base, rank, r, g, b, place, right, top - 1);
      ghost var b' := NextEnd(b, place, right);
      top, g, place := Next(stack, top, g, left, right, a.Length, b, place);
      b := b';
    }
    NothingPending(stack[..0], g, a.Length, b, place);
  }

  lemma NothingPending(st: seq<Seg>, g: Seg, n: nat, b: int, place: int)
    requires st == [] && Pending(st, g, n, b, place)
    ensures 0 <= b <= MAX_THRESH
  {
  }

  // ---- Insertion sort ----

  ghost predicate Sorted<T>(s: seq<T>, rank: T -> int, n: nat)
    requires n <= |s|
  {
    forall i, j :: 0 <= i < j < n ==> rank(s[i]) <= rank(s[j])
  }

  /** s with the element at `run` taken out and put back in at `at`. */
  ghost function Rotated<T>(s: seq<T>, at: nat, run: nat): seq<T>
    requires at <= run < |s|
  {
    s[..at] + [s[run]] + s[at..run] + s[run + 1..]
  }

  lemma RotatedAt<T>(s: seq<T>, t: seq<T>, at: nat, run: nat)
    requires at <= run < |s| == |t| && t[at] == s[run]
    requires forall j :: 0 <= j < |s| && !(at <= j <= run) ==> t[j] == s[j]
    requires forall j :: at < j <= run ==> t[j] == s[j - 1]
    ensures t == Rotated(s, at, run)
  {
  }

  lemma RotatedIsPerm<T>(s: seq<T>, base: seq<T>, at: nat, run: nat)
    requires at <= run < |s| && Perm(s, base)
    ensures Perm(Rotated(s, at, run), base) && |Rotated(s, at, run)| == |s|
  {
    assert s == s[..at] + s[at..run] + [s[run]] + s[run + 1..];
    var p, x, q, e := multiset(s[..at]), multiset(s[at..run]), multiset(s[run + 1..]), multiset([s[run]]);
    assert multiset(s) == p + x + e + q;
    assert multiset(Rotated(s, at, run)) == p + e + x + q;
  }

  /** Inserting after the last element that does not rank above it keeps the prefix sorted. */
  lemma RotatedIsSorted<T>(s: seq<T>, rank: T -> int, at: nat, run: nat)
    requires at <= run < |s| && Sorted(s, rank, run)
    requires at > 0 ==> rank(s[at - 1]) <= rank(s[run])
    requires forall k :: at <= k < run ==> rank(s[run]) <= rank(s[k])
    ensures Sorted(Rotated(s, at, run), rank, run + 1)
  {
    var t := Rotated(s, at, run);
    forall i, j | 0 <= i < j < run + 1 ensures rank(t[i]) <= rank(t[j]) {
      assert t[i] == if i < at then s[i] else if i == at then s[run] else s[i - 1];
      assert t[j] == if j < at then s[j] else if j == at then s[run] else s[j - 1];
      if i < at - 1 && at > 0 { assert rank(s[i]) <= rank(s[at - 1]); }
    }
  }

  /** Shift the elements between `at` and `run` up by one and put a[run] at `at`. */
  method Rotate<T>(a: array<T>, at: nat, run: nat)
    requires at <= run < a.Length
    modifies a
    ensures a[..] == Rotated(old(a[..]), at, run)
  {
    ghost var s := a[..];
    var c := a[run];
    var k := run;
    while k > at
      invariant at <= k <= run
      invariant forall j :: 0 <= j < a.Length && !(k < j <= run) ==> a[j] == s[j]
      invariant forall j :: k < j <= run ==> a[j] == s[j - 1]
    {
      a[k] := a[k - 1];
      k := k - 1;
    }
    a[at] := c;
    RotatedAt(s, a[..], at, run);
  }

  /** The insertion sort.  The inner loop stops at the left end because the minimum sits there. */
  method InsertionPhase<T>(a: array<T>, cmp: (T, T) -> int, ghost rank: T -> int, ghost base: seq<T>, ghost r: int)
    requires a.Length > 0 && Perm(a[..], base) && Ranks(cmp, rank, base)
    requires AtLeast(base, rank, r)
    requires MinWithin(a[..], rank, r, if a.Length - 1 < MAX_THRESH then a.Length - 1 else MAX_THRESH)
    modifies a
    ensures Perm(a[..], base) && Sorted(a[..], rank, a.Length)
  {
    hide Perm, Ranks, Rotated, Sorted;
    PermAtLeast(a[..], base, rank, r);
    var thresh := if a.Length - 1 < MAX_THRESH then a.Length - 1 else MAX_THRESH;
    var tmp := FindLeast(a, cmp, rank, base, thresh);
    assert rank(a[tmp]) == r;
    if tmp != 0 { Swap(a, base, tmp, 0); }
    assert rank(a[0]) == r;
    TwoSorted(a[..], base, rank, r);
    var run := 2;
    while run < a.Length
      invariant Perm(a[..], base) && rank(a[0]) == r
      invariant 2 <= run && Sorted(a[..], rank, if a.Length < run then a.Length else run)
    {
      InsertOne(a, cmp, rank, base, r, run);
      run := run + 1;
    }
  }

  /** "Find smallest element in first threshold." */
  method FindLeast<T>(a: array<T>, cmp: (T, T) -> int, ghost rank: T -> int, ghost base: seq<T>, thresh: nat)
      returns (tmp: nat)
    requires thresh < a.Length && Perm(a[..], base) && Ranks(cmp, rank, base)
    ensures tmp <= thresh && forall k :: 0 <= k <= thresh ==> rank(a[tmp]) <= rank(a[k])
  {
    hide Perm, Ranks;
    tmp := 0;
    for run := 1 to thresh + 1
      invariant tmp <= thresh && forall k :: 0 <= k < run ==> rank(a[tmp]) <= rank(a[k])
    {
      var b := Less(a, cmp, rank, base, run, tmp);
      if b { tmp := run; }
    }
  }

  lemma TwoSorted<T>(s: seq<T>, base: seq<T>, rank: T -> int, r: int)
    requires Perm(s, base) && AtLeast(base, rank, r) && s != [] && rank(s[0]) == r
    ensures Sorted(s, rank, if |s| < 2 then |s| else 2)
  {
    PermAtLeast(s, base, rank, r);
  }

  method InsertOne<T>(a: array<T>, cmp: (T, T) -> int, ghost rank: T -> int, ghost base: seq<T>, ghost r: int, run: nat)
    requires 1 <= run < a.Length && Perm(a[..], base) && Ranks(cmp, rank, base)
    requires AtLeast(base, rank, r) && rank(a[0]) == r && Sorted(a[..], rank, run)
    modifies a
    ensures Perm(a[..], base) && rank(a[0]) == r && Sorted(a[..], rank, run + 1)
  {
    hide Perm, Ranks, Rotated, Sorted;
    PermAtLeast(a[..], base, rank, r);
    ghost var s := a[..];
    var tmp := run - 1;
    while true
      invariant 0 <= tmp < run && a[..] == s
      invariant forall k :: tmp < k < run ==> rank(s[run]) < rank(s[k])
      decreases tmp
    {
      var b := Less(a, cmp, rank, base, run, tmp);
      if !b { break; }
      tmp := tmp - 1;
    }
    tmp := tmp + 1;
    RotatedIsPerm(s, base, tmp, run);
    RotatedIsSorted(s, rank, tmp, run);
    RotatedFirst(s, tmp, run);
    if tmp != run {
      Rotate(a, tmp, run);
    } else {
      RotatedSame(s, run);
    }
  }

  lemma RotatedFirst<T>(s: seq<T>, at: nat, run: nat)
    requires 0 < at <= run < |s|
    ensures |Rotated(s, at, run)| == |s| && Rotated(s, at, run)[0] == s[0]
  {
  }

  lemma RotatedSame<T>(s: seq<T>, run: nat)
    requires run < |s|
    ensures Rotated(s, run, run) == s
  {
  }

  // ---- Any total preorder ----

  /** The comparison's verdict on two distinct elements. */
  ghost predicate Before<T>(cmp: (T, T) -> int, x: T, y: T) {
    cmp(x, y) < 0 && !(cmp(y, x) < 0)
  }

  /** What cmp must be on the elements: consistent and total between distinct positions; an
      element may call itself less only if it ties with no other. */
  ghost predicate Preorder<T>(cmp: (T, T) -> int, base: seq<T>) {
    && (forall i, j :: 0 <= i < |base| && 0 <= j < |base| && i != j && cmp(base[i], base[j]) < 0 ==>
          cmp(base[j], base[i]) >= 0)
    && (forall i, j, k ::
          0 <= i < |base| && 0 <= j < |base| && 0 <= k < |base| && i != j && j != k && i != k ==>
          cmp(base[i], base[j]) >= 0 && cmp(base[j], base[k]) >= 0 ==> cmp(base[i], base[k]) >= 0)
    && (forall i, j :: 0 <= i < |base| && 0 <= j < |base| && i != j && cmp(base[i], base[i]) < 0 ==>
          cmp(base[i], base[j]) < 0 || cmp(base[j], base[i]) < 0)
  }

  /** How many of the first m elements come before x. */
  ghost function CountBefore<T>(cmp: (T, T) -> int, base: seq<T>, x: T, m: nat): nat
    requires m <= |base|
  {
    if m == 0 then 0 else CountBefore(cmp, base, x, m - 1) + (if Before(cmp, base[m - 1], x) then 1 else 0)
  }

  lemma NotBeforeTransitive<T>(cmp: (T, T) -> int, base: seq<T>, i: nat, j: nat, k: nat)
    requires Preorder(cmp, base) && i < |base| && j < |base| && k < |base|
    requires !Before(cmp, base[i], base[j]) && !Before(cmp, base[j], base[k])
    ensures !Before(cmp, base[i], base[k])
  {
  }

  lemma {:induction false} CountMonotone<T>(cmp: (T, T) -> int, base: seq<T>, i: nat, j: nat, m: nat)
    requires Preorder(cmp, base) && i < |base| && j < |base| && m <= |base| && !Before(cmp, base[j], base[i])
    ensures CountBefore(cmp, base, base[i], m) <= CountBefore(cmp, base, base[j], m)
    ensures Before(cmp, base[i], base[j]) && i < m ==>
      CountBefore(cmp, base, base[i], m) < CountBefore(cmp, base, base[j], m)
  {
    if m > 0 {
      CountMonotone(cmp, base, i, j, m - 1);
      if !Before(cmp, base[m - 1], base[j]) {
        NotBeforeTransitive(cmp, base, m - 1, j, i);
      }
    }
  }

  /** Every comparison that is a total preorder on the elements has a rank. */
  lemma RankExists<T>(cmp: (T, T) -> int, base: seq<T>) returns (rank: T -> int)
    requires Preorder(cmp, base)
    ensures Ranks(cmp, rank, base)
  {
    rank := x => CountBefore(cmp, base, x, |base|);
    forall i, j | 0 <= i < |base| && 0 <= j < |base|
      ensures Before(cmp, base[i], base[j]) <==> rank(base[i]) < rank(base[j])
    {
      if Before(cmp, base[i], base[j]) {
        CountMonotone(cmp, base, i, j, |base|);
      } else {
        CountMonotone(cmp, base, j, i, |base|);
      }
    }
    forall i, j | 0 <= i < |base| && 0 <= j < |base| && i != j
      ensures cmp(base[i], base[j]) < 0 <==> rank(base[i]) < rank(base[j])
    {
      assert Before(cmp, base[i], base[j]) <==> cmp(base[i], base[j]) < 0;
    }
    forall i | 0 <= i < |base| && cmp(base[i], base[i]) < 0 ensures Lone(base, rank, i) {
      forall j | 0 <= j < |base| && j != i ensures rank(base[j]) != rank(base[i]) {
        assert Before(cmp, base[i], base[j]) || Before(cmp, base[j], base[i]);
      }
    }
  }

  /** _asort: a sorted permutation of the array. */
  method Asort<T>(a: array<T>, cmp: (T, T) -> int)
    requires a.Length < 0x1_0000_0000_0000_0000 && Preorder(cmp, a[..])
    modifies a
    ensures multiset(a[..]) == multiset(old(a[..]))
    ensures forall i, j :: 0 <= i < j < a.Length ==> cmp(a[j], a[i]) >= 0
  {
    hide Preorder, Ranks;
    if a.Length == 0 { return; }
    ghost var base := a[..];
    ghost var rank := RankExists(cmp, base);
    ghost var m := MinExists(base, rank);
    ghost var r := rank(base[m]);
    if a.Length > MAX_THRESH {
      ghost var b := QuickPhase(a, cmp, rank, base, r);
    }
    InsertionPhase(a, cmp, rank, base, r);
    forall i, j | 0 <= i < j < a.Length ensures cmp(a[j], a[i]) >= 0 {
      SortedByCmp(a[..], cmp, rank, base, i, j);
    }
  }

  lemma SortedByCmp<T>(s: seq<T>, cmp: (T, T) -> int, rank: T -> int, base: seq<T>, i: nat, j: nat)
    requires Perm(s, base) && Ranks(cmp, rank, base) && Sorted(s, rank, |s|) && i < j < |s|
    ensures cmp(s[j], s[i]) >= 0
  {
    hide Perm;
    var k, l := PermPair(s, base, j, i);
  }
}
