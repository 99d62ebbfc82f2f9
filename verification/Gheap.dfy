/** The generic heap of external/gheap/gheap.h as common/dijkstra.c uses it.

    Items are node numbers.  `less` is the comparer; `key` is a ghost rank that
    represents it.  The item mover is the one of common/dijkstra.c: writing an item
    into a slot also writes that slot's index into the item's back-pointer. */
module Gheap {
  import opened Numbers
  import opened GheapIndex

  /** Back-pointer of an item that sits in a temporary on the stack. */
  const OFF_HEAP: int := -2

  /** `key` ranks the items below `limit` exactly as the comparer orders them. */
  ghost predicate Ranks(less: (nat, nat) -> bool, key: nat -> int, limit: nat) {
    forall a: nat, b: nat :: a < limit && b < limit ==> (less(a, b) <==> key(a) < key(b))
  }

  function Parent(c: Ctx, w: nat): (p: nat)
    requires ValidCtx(c) && w > 0
    ensures p < w
  {
    ChildOfParent(c, w);
    ParentIndex(c, w)
  }

  /** The items of a heap of n whose parent is u are the (clipped) chunk at ChildIndex(u). */
  lemma Children(c: Ctx, u: nat, n: nat)
    requires ValidCtx(c) && u < n <= SIZE_MAX
    ensures ChildIndex(c, u) >= 1 && (ChildIndex(c, u) < n ==> ChildIndex(c, u) > u)
    ensures forall w: nat :: 0 < w < n ==>
      (Parent(c, w) == u <==> ChildIndex(c, u) <= w < ChildIndex(c, u) + c.fanout)
    ensures ChildIndex(c, u) < n ==> (ChildIndex(c, u) - 1) % c.fanout == 0
  {
    ChildIndexExact(c, u);
    ChunkAligned(c, u);
    ParentOfChild(c, u, 0);
    ChildOfParent(c, FirstChild(c, u));
    hide ParentIndex, ChildIndex, FirstChild;
    forall w: nat | 0 < w < n
      ensures Parent(c, w) == u <==> ChildIndex(c, u) <= w < ChildIndex(c, u) + c.fanout
    {
      ChildOfParent(c, w);
      if ChildIndex(c, u) <= w < ChildIndex(c, u) + c.fanout {
        ParentOfChild(c, u, w - ChildIndex(c, u));
      }
    }
  }

  /** Heap order on the edges of s[..n] whose upper end is at or after lo. */
  ghost predicate Ordered(c: Ctx, s: seq<nat>, n: nat, lo: nat, key: nat -> int)
    requires ValidCtx(c) && n <= |s|
  {
    forall w: nat :: 0 < w < n && Parent(c, w) >= lo ==> key(s[w]) <= key(s[Parent(c, w)])
  }

  /** Heap order except at the edge from the hole to its parent; the hole's children
      are below its parent. */
  ghost predicate OrderedButUp(c: Ctx, s: seq<nat>, n: nat, lo: nat, hole: nat, key: nat -> int)
    requires ValidCtx(c) && hole < n <= |s|
  {
    && (forall w: nat :: 0 < w < n && Parent(c, w) >= lo && w != hole ==>
          key(s[w]) <= key(s[Parent(c, w)]))
    && (hole > lo ==> forall w: nat :: 0 < w < n && Parent(c, w) == hole ==>
          key(s[w]) <= key(s[Parent(c, hole)]))
  }

  /** Heap order except at the edges that meet the hole; the hole's children are below
      its parent. */
  ghost predicate OrderedButAt(c: Ctx, s: seq<nat>, n: nat, lo: nat, hole: nat, key: nat -> int)
    requires ValidCtx(c) && hole < n <= |s|
  {
    && (forall w: nat :: 0 < w < n && Parent(c, w) >= lo && w != hole && Parent(c, w) != hole ==>
          key(s[w]) <= key(s[Parent(c, w)]))
    && (hole > lo ==> forall w: nat :: 0 < w < n && Parent(c, w) == hole ==>
          key(s[w]) <= key(s[Parent(c, hole)]))
  }

  /** w lies in the subheap rooted at root. */
  ghost predicate Below(c: Ctx, root: nat, w: nat)
    requires ValidCtx(c)
  {
    w == root || (w > root && Below(c, root, Parent(c, w)))
  }

  lemma {:induction false} AllBelowRoot(c: Ctx, w: nat)
    requires ValidCtx(c)
    ensures Below(c, 0, w)
  {
    if w > 0 { AllBelowRoot(c, Parent(c, w)); }
  }

  /** Slots of s[..n] other than the hole and the back-pointers agree. */
  ghost predicate Linked(s: seq<nat>, n: nat, hole: int, p: seq<int>)
    requires n <= |s|
  {
    forall i :: 0 <= i < n && i != hole ==> s[i] < |p| && p[s[i]] == i
  }

  /** Back-pointers of items outside s[..n] are as they were. */
  ghost predicate OthersKept(s: seq<nat>, n: nat, p: seq<int>, q: seq<int>)
    requires n <= |s|
  {
    |p| == |q| && forall x: nat :: x < |p| && x !in s[..n] ==> p[x] == q[x]
  }

  function Swapped(s: seq<nat>, i: nat, j: nat): seq<nat>
    requires i < |s| && j < |s|
  {
    s[i := s[j]][j := s[i]]
  }

  lemma SwappedIsPermutation(s: seq<nat>, i: nat, j: nat)
    requires i < |s| && j < |s|
    ensures multiset(Swapped(s, i, j)) == multiset(s)
  {
  }

  /** One step of sift-up on values: the hole's item passes its smaller parent. */
  lemma UpStep(c: Ctx, v: seq<nat>, n: nat, root: nat, hole: nat, key: nat -> int)
    requires ValidCtx(c) && root < hole < n <= |v| && Below(c, root, hole)
    requires OrderedButUp(c, v, n, root, hole, key)
    requires key(v[Parent(c, hole)]) < key(v[hole])
    ensures OrderedButUp(c, Swapped(v, hole, Parent(c, hole)), n, root, Parent(c, hole), key)
  {
    hide Parent;
    var p := Parent(c, hole);
    assert Below(c, root, p);
    assert p > root ==> Below(c, root, Parent(c, p));
    assert p > root ==> key(v[p]) <= key(v[Parent(c, p)]);
  }

  lemma UpDone(c: Ctx, v: seq<nat>, n: nat, root: nat, hole: nat, key: nat -> int)
    requires ValidCtx(c) && root <= hole < n <= |v|
    requires OrderedButUp(c, v, n, root, hole, key)
    requires hole == root || key(v[Parent(c, hole)]) >= key(v[hole])
    ensures Ordered(c, v, n, root, key)
  {
    hide Parent;
  }

  /** Mid-sift state: h and p are the heap and back-pointers while `item` is out in a
      temporary and `hole` is free; h0, p0, hole0 are the ones at the start. */
  ghost predicate Sifting(h: seq<nat>, p: seq<int>, n: nat, hole: nat, item: nat,
                          h0: seq<nat>, p0: seq<int>, hole0: nat)
  {
    && hole < n <= |h| == |h0| && hole0 < n
    && item < |p| && p[item] == OFF_HEAP
    && Linked(h, n, hole, p)
    && multiset(h[hole := item]) == multiset(h0[hole0 := item])
    && h[n..] == h0[n..]
    && OthersKept(h[hole := item], n, p, p0)
  }

  lemma SiftingItems(h: seq<nat>, p: seq<int>, n: nat, hole: nat, item: nat,
                     h0: seq<nat>, p0: seq<int>, hole0: nat)
    requires Sifting(h, p, n, hole, item, h0, p0, hole0)
    ensures item < |p| && hole < n <= |h|
    ensures forall i :: 0 <= i < n && i != hole ==> h[i] < |p|
  {
  }

  /** The item mover, applied from slot `from` to the hole, makes `from` the new hole. */
  lemma SiftingStep(h: seq<nat>, p: seq<int>, n: nat, hole: nat, from: nat, item: nat,
                    h0: seq<nat>, p0: seq<int>, hole0: nat)
    requires Sifting(h, p, n, hole, item, h0, p0, hole0) && from < n && from != hole
    ensures h[from] < |p|
    ensures Sifting(h[hole := h[from]], p[h[from] := hole], n, from, item, h0, p0, hole0)
  {
    var v := h[hole := item];
    SwappedIsPermutation(v, hole, from);
    assert h[hole := h[from]][from := item] == Swapped(v, hole, from);
    KeptStep(v, n, from, hole, p, p0);
    assert h[hole := h[from]][n..] == h[n..];
  }

  /** What a sift leaves: h0 with `item` written over slot hole0, permuted within n,
      with every back-pointer right and no other one touched. */
  ghost predicate Sifted(h: seq<nat>, p: seq<int>, n: nat, item: nat,
                         h0: seq<nat>, p0: seq<int>, hole0: nat)
  {
    && hole0 < n <= |h| == |h0|
    && Linked(h, n, -1, p)
    && multiset(h) == multiset(h0[hole0 := item])
    && h[n..] == h0[n..]
    && OthersKept(h, n, p, p0)
  }

  lemma SiftingStart(h: seq<nat>, p: seq<int>, n: nat, hole: nat, item: nat)
    requires hole < n <= |h| && item < |p| && p[item] == OFF_HEAP && Linked(h, n, hole, p)
    ensures Sifting(h, p, n, hole, item, h, p, hole)
  {
  }

  /** Putting the item into the hole links everything again. */
  lemma SiftingDone(h: seq<nat>, p: seq<int>, n: nat, hole: nat, item: nat,
                    h0: seq<nat>, p0: seq<int>, hole0: nat)
    requires Sifting(h, p, n, hole, item, h0, p0, hole0)
    ensures Sifted(h[hole := item], p[item := hole], n, item, h0, p0, hole0)
  {
    var v := h[hole := item];
    KeptStep(v, n, hole, hole, p, p0);
    assert Swapped(v, hole, hole) == v;
    assert v[n..] == h[n..];
  }

  lemma KeptStep(v: seq<nat>, n: nat, from: nat, hole: nat, p: seq<int>, q: seq<int>)
    requires from < n <= |v| && hole < n && OthersKept(v, n, p, q) && v[from] < |p|
    ensures OthersKept(Swapped(v, hole, from), n, p[v[from] := hole], q)
  {
    var w := Swapped(v, hole, from);
    assert w[..n] == Swapped(v[..n], hole, from);
    SwappedIsPermutation(v[..n], hole, from);
    forall x: nat | x < |p| && x !in w[..n] ensures p[v[from] := hole][x] == q[x] {
      assert v[from] == w[..n][hole];
      assert x !in multiset(w[..n]);
    }
  }

  /** _gheap_sift_up: move the hole towards the root until the item fits. */
  method SiftUp(c: Ctx, less: (nat, nat) -> bool, ghost key: nat -> int,
                heap: array<nat>, ptr: array<int>, ghost n: nat,
                root: nat, start: nat, item: nat,
                ghost h0: seq<nat>, ghost p0: seq<int>, ghost hole0: nat)
    requires ValidCtx(c) && Ranks(less, key, ptr.Length)
    requires Sifting(heap[..], ptr[..], n, start, item, h0, p0, hole0)
    requires root <= start && Below(c, root, start)
    requires OrderedButUp(c, heap[..][start := item], n, root, start, key)
    modifies heap, ptr
    ensures Sifted(heap[..], ptr[..], n, item, h0, p0, hole0)
    ensures Ordered(c, heap[..], n, root, key)
    ensures start > 0 && key(item) <= key(old(heap[0])) ==> heap[0] == old(heap[0])
  {
    hide Parent, OrderedButUp, Ordered, OthersKept, Linked, Sifted;
    var hole := start;
    while hole > root
      invariant root <= hole < n && Below(c, root, hole)
      invariant OrderedButUp(c, heap[..][hole := item], n, root, hole, key)
      invariant Sifting(heap[..], ptr[..], n, hole, item, h0, p0, hole0)
      invariant start > 0 && key(item) <= key(old(heap[0])) ==> hole > 0 && heap[0] == old(heap[0])
    {
      hide Sifting;
      SiftingItems(heap[..], ptr[..], n, hole, item, h0, p0, hole0);
      var parent := Parent(c, hole);
      if !less(heap[parent], item) {
        break;
      }
      ghost var h, p := heap[..], ptr[..];
      UpStep(c, h[hole := item], n, root, hole, key);
      SiftingStep(h, p, n, hole, parent, item, h0, p0, hole0);
      heap[hole] := heap[parent];
      ptr[heap[hole]] := hole;
      assert heap[..] == h[hole := h[parent]];
      assert ptr[..] == p[h[parent] := hole];
      assert heap[..][parent := item] == Swapped(h[hole := item], hole, parent);
      hole := parent;
    }
    UpDone(c, heap[..][hole := item], n, root, hole, key);
    SiftingDone(heap[..], ptr[..], n, hole, item, h0, p0, hole0);
    heap[hole] := item;
    ptr[item] := hole;
  }

  /** One step of sift-down on values: the hole takes its largest child. */
  lemma DownStep(c: Ctx, s: seq<nat>, n: nat, root: nat, hole: nat, m: nat, key: nat -> int)
    requires ValidCtx(c) && root <= hole < n <= |s| && 0 < m < n && Parent(c, m) == hole
    requires OrderedButAt(c, s, n, root, hole, key)
    requires forall w: nat :: 0 < w < n && Parent(c, w) == hole ==> key(s[w]) <= key(s[m])
    ensures OrderedButAt(c, s[hole := s[m]], n, root, m, key)
  {
    hide Parent;
    assert m > hole;
  }

  lemma DownStart(c: Ctx, s: seq<nat>, n: nat, root: nat, key: nat -> int)
    requires ValidCtx(c) && root < n <= |s| && Ordered(c, s, n, root + 1, key)
    ensures OrderedButAt(c, s, n, root, root, key)
  {
    hide Parent;
  }

  /** A childless hole only has the edge to its parent left to repair. */
  lemma DownDone(c: Ctx, s: seq<nat>, n: nat, root: nat, hole: nat, item: nat, key: nat -> int)
    requires ValidCtx(c) && root <= hole < n <= |s| && OrderedButAt(c, s, n, root, hole, key)
    requires forall w: nat :: 0 < w < n ==> Parent(c, w) != hole
    ensures OrderedButUp(c, s[hole := item], n, root, hole, key)
  {
    hide Parent;
  }

  /** last_full_index separates whole chunks from the partial one at the end. */
  lemma FullChunks(child: nat, n: nat, f: nat)
    requires f > 0 && 1 <= child < n && (child - 1) % f == 0
    ensures child < n - (n - 1) % f ==> child + f <= n
    ensures child >= n - (n - 1) % f ==> child == n - (n - 1) % f && n < child + f
  {
    var q, r := (n - 1) / f, (n - 1) % f;
    var p := (child - 1) / f;
    DivModSplit(n - 1, f);
    DivModSplit(child - 1, f);
    if p < q {
      MulNonNegative(q - p - 1, f);
      assert (q - p - 1) * f == q * f - p * f - f;
    } else {
      assert (q + 1) * f == q * f + f;
      LessFromProducts(p, q + 1, f);
    }
  }

  /** Items of the last, partial chunk have no children in the heap. */
  lemma LastChunkIsLeaf(c: Ctx, n: nat, child: nat, m: nat)
    requires ValidCtx(c) && n <= SIZE_MAX && 1 <= child <= m < n
    requires (child - 1) % c.fanout == 0 && child == n - (n - 1) % c.fanout
    ensures forall w: nat :: 0 < w < n ==> Parent(c, w) != m
  {
    hide Parent, ChildIndex;
    Children(c, m, n);
    var first := ChildIndex(c, m);
    if first < n {
      assert Parent(c, first) == m;
      FullChunks(first, n, c.fanout);
    }
  }

  /** _gheap_move_up_max_child: pick the largest of `count` children of the hole. */
  method MaxChild(c: Ctx, less: (nat, nat) -> bool, ghost key: nat -> int,
                  heap: array<nat>, count: nat, child: nat, ghost limit: nat) returns (m: nat)
    requires Ranks(less, key, limit)
    requires 0 < count && child + count <= heap.Length
    requires forall w :: child <= w < child + count ==> heap[w] < limit
    ensures child <= m < child + count
    ensures forall w :: child <= w < child + count ==> key(heap[w]) <= key(heap[m])
  {
    m := child;
    for i := 1 to count
      invariant child <= m < child + count
      invariant forall w :: child <= w < child + i ==> key(heap[w]) <= key(heap[m])
    {
      if !less(heap[child + i], heap[m]) {
        m := child + i;
      }
    }
  }

  /** One round of _gheap_sift_down's loop: the largest child of the hole (the hole itself
      if it has none) and whether the walk ends there. */
  method NextHole(c: Ctx, less: (nat, nat) -> bool, ghost key: nat -> int,
                  heap: array<nat>, n: nat, hole: nat, ghost limit: nat)
      returns (m: nat, last: bool)
    requires ValidCtx(c) && Ranks(less, key, limit)
    requires hole < n <= heap.Length && n <= SIZE_MAX
    requires forall w :: 0 <= w < n && w != hole ==> heap[w] < limit
    ensures m != hole ==> hole < m < n && Parent(c, m) == hole
    ensures m != hole ==> forall w: nat :: 0 < w < n && Parent(c, w) == hole ==> key(heap[w]) <= key(heap[m])
    ensures m == hole ==> last
    ensures last ==> forall w: nat :: 0 < w < n ==> Parent(c, w) != m
  {
    hide Parent, ChildIndex;
    var lastFull := n - (n - 1) % c.fanout;
    Children(c, hole, n);
    var child := ChildIndex(c, hole);
    if child >= lastFull {
      last := true;
      m := hole;
      if child < n {
        FullChunks(child, n, c.fanout);
        m := MaxChild(c, less, key, heap, n - child, child, limit);
        LastChunkIsLeaf(c, n, child, m);
      }
    } else {
      last := false;
      FullChunks(child, n, c.fanout);
      m := MaxChild(c, less, key, heap, c.fanout, child, limit);
    }
  }

  /** _gheap_sift_down: walk the hole down along largest children, then sift the item up. */
  method SiftDown(c: Ctx, less: (nat, nat) -> bool, ghost key: nat -> int,
                  heap: array<nat>, ptr: array<int>, n: nat, root: nat, item: nat)
    requires ValidCtx(c) && Ranks(less, key, ptr.Length)
    requires root < n <= heap.Length && n <= SIZE_MAX
    requires Linked(heap[..], n, root, ptr[..])
    requires item < ptr.Length && ptr[item] == OFF_HEAP
    requires Ordered(c, heap[..], n, root + 1, key)
    modifies heap, ptr
    ensures Sifted(heap[..], ptr[..], n, item, old(heap[..]), old(ptr[..]), root)
    ensures Ordered(c, heap[..], n, root, key)
  {
    hide Parent, Ordered, OrderedButAt, OthersKept, Linked, Sifted;
    var hole, last := root, false;
    ghost var h0, p0 := heap[..], ptr[..];
    SiftingStart(h0, p0, n, root, item);
    DownStart(c, h0, n, root, key);
    while !last
      invariant root <= hole < n && Below(c, root, hole)
      invariant OrderedButAt(c, heap[..], n, root, hole, key)
      invariant Sifting(heap[..], ptr[..], n, hole, item, h0, p0, root)
      invariant last ==> forall w: nat :: 0 < w < n ==> Parent(c, w) != hole
      decreases !last, n - hole
    {
      hide Sifting;
      ghost var h, p := heap[..], ptr[..];
      SiftingItems(h, p, n, hole, item, h0, p0, root);
      var m;
      m, last := NextHole(c, less, key, heap, n, hole, ptr.Length);
      if m != hole {
        DownStep(c, h, n, root, hole, m, key);
        SiftingStep(h, p, n, hole, m, item, h0, p0, root);
        heap[hole] := heap[m];
        ptr[heap[hole]] := hole;
        assert heap[..] == h[hole := h[m]];
        assert ptr[..] == p[h[m] := hole];
        hole := m;
      }
    }
    DownDone(c, heap[..], n, root, hole, item, key);
    SiftUp(c, less, key, heap, ptr, n, root, hole, item, h0, p0, root);
  }

  /** h is h0 permuted within its first n slots, with back-pointers to match. */
  ghost predicate Permuted(h: seq<nat>, p: seq<int>, n: nat, h0: seq<nat>, p0: seq<int>) {
    && n <= |h| == |h0|
    && Linked(h, n, -1, p)
    && multiset(h) == multiset(h0)
    && h[n..] == h0[n..]
    && OthersKept(h, n, p, p0)
  }

  lemma PrefixPermuted(h: seq<nat>, h0: seq<nat>, n: nat)
    requires n <= |h| == |h0| && multiset(h) == multiset(h0) && h[n..] == h0[n..]
    ensures multiset(h[..n]) == multiset(h0[..n])
  {
    assert h == h[..n] + h[n..];
    assert h0 == h0[..n] + h0[n..];
    var a, a0, b := multiset(h[..n]), multiset(h0[..n]), multiset(h[n..]);
    assert a + b == a0 + b;
    assert a == a + b - b == a0 + b - b == a0;
  }

  lemma PermutedMembers(h: seq<nat>, p: seq<int>, n: nat, h0: seq<nat>, p0: seq<int>)
    requires Permuted(h, p, n, h0, p0)
    ensures forall x :: x in h[..n] <==> x in h0[..n]
  {
    PrefixPermuted(h, h0, n);
    forall x ensures x in h[..n] <==> x in h0[..n] {
      assert x in multiset(h[..n]) <==> x in multiset(h0[..n]);
    }
  }

  lemma PermutedTrans(h: seq<nat>, p: seq<int>, n: nat, h1: seq<nat>, p1: seq<int>, h0: seq<nat>, p0: seq<int>)
    requires Permuted(h, p, n, h1, p1) && Permuted(h1, p1, n, h0, p0)
    ensures Permuted(h, p, n, h0, p0)
  {
    PermutedMembers(h, p, n, h1, p1);
  }

  /** A sift of an item taken out of the same slot is a permutation. */
  lemma SiftedInPlace(h: seq<nat>, p: seq<int>, n: nat, hole: nat, h0: seq<nat>, p0: seq<int>)
    requires hole < n <= |h0| && Linked(h0, n, -1, p0)
    requires Sifted(h, p, n, h0[hole], h0, p0[h0[hole] := OFF_HEAP], hole)
    ensures Permuted(h, p, n, h0, p0)
  {
    assert h0[hole := h0[hole]] == h0;
    PrefixPermuted(h, h0, n);
    assert h0[hole] in multiset(h0[..n]) by { assert h0[hole] == h0[..n][hole]; }
    assert h0[hole] in h[..n];
  }

  /** gheap_restore_heap_after_item_increase. */
  method RestoreAfterIncrease(c: Ctx, less: (nat, nat) -> bool, ghost key: nat -> int,
                              heap: array<nat>, ptr: array<int>, ghost n: nat, modified: nat)
    requires ValidCtx(c) && Ranks(less, key, ptr.Length)
    requires modified < n <= heap.Length
    requires Linked(heap[..], n, -1, ptr[..])
    requires OrderedButUp(c, heap[..], n, 0, modified, key)
    modifies heap, ptr
    ensures Permuted(heap[..], ptr[..], n, old(heap[..]), old(ptr[..]))
    ensures Ordered(c, heap[..], n, 0, key)
    ensures key(old(heap[modified])) <= key(old(heap[0])) ==> heap[0] == old(heap[0])
  {
    hide Parent, OrderedButUp, Sifting, Sifted;
    ghost var h0, p0 := heap[..], ptr[..];
    if modified > 0 {
      var tmp := heap[modified];
      ptr[tmp] := OFF_HEAP;
      ghost var p1 := p0[tmp := OFF_HEAP];
      assert ptr[..] == p1;
      SiftingStart(h0, p1, n, modified, tmp);
      AllBelowRoot(c, modified);
      assert h0[modified := tmp] == h0;
      SiftUp(c, less, key, heap, ptr, n, 0, modified, tmp, h0, p1, modified);
      SiftedInPlace(heap[..], ptr[..], n, modified, h0, p0);
    } else {
      UpDone(c, h0, n, 0, 0, key);
    }
  }

  lemma LastIsButUp(c: Ctx, s: seq<nat>, n: nat, key: nat -> int)
    requires ValidCtx(c) && 0 < n <= |s| && Ordered(c, s, n - 1, 0, key)
    ensures OrderedButUp(c, s, n, 0, n - 1, key)
  {
    hide Parent;
  }

  /** gheap_push_heap: the item in the last slot joins the heap before it. */
  method PushHeap(c: Ctx, less: (nat, nat) -> bool, ghost key: nat -> int, heap: array<nat>, ptr: array<int>, n: nat)
    requires ValidCtx(c) && Ranks(less, key, ptr.Length) && 0 < n <= heap.Length
    requires Linked(heap[..], n, -1, ptr[..]) && Ordered(c, heap[..], n - 1, 0, key)
    modifies heap, ptr
    ensures Permuted(heap[..], ptr[..], n, old(heap[..]), old(ptr[..]))
    ensures Ordered(c, heap[..], n, 0, key)
  {
    LastIsButUp(c, heap[..], n, key);
    hide Parent, OrderedButUp, Ordered;
    RestoreAfterIncrease(c, less, key, heap, ptr, n, n - 1);
  }

  /** In a heap the root ranks highest. */
  lemma {:induction false} RootIsMax(c: Ctx, s: seq<nat>, n: nat, w: nat, key: nat -> int)
    requires ValidCtx(c) && w < n <= |s| && Ordered(c, s, n, 0, key)
    ensures key(s[w]) <= key(s[0])
  {
    hide Parent;
    if w > 0 { RootIsMax(c, s, n, Parent(c, w), key); }
  }

  /** Contents after the root moved behind a heap of n and the displaced item was sifted in. */
  lemma PopContents(h: seq<nat>, n: nat, h0: seq<nat>)
    requires 0 < n < |h0| == |h|
    requires forall i :: 0 < i <= n ==> h0[i] != h0[0]
    requires multiset(h) == multiset(h0[n := h0[0]][0 := h0[n]])
    requires h[n..] == h0[n := h0[0]][n..]
    ensures h[n] == h0[0] && h0[0] !in h[..n] && h0[n] in h[..n]
    ensures multiset(h) == multiset(h0) && h[n + 1..] == h0[n + 1..]
  {
    var h1 := h0[n := h0[0]];
    assert h[n] == h[n..][0] == h1[n..][0];
    var w := h1[0 := h0[n]];
    assert w == Swapped(h0, 0, n);
    SwappedIsPermutation(h0, 0, n);
    assert w[n..] == h1[n..];
    PrefixPermuted(h, w, n);
    assert h0[0] !in multiset(w[..n]);
    assert h0[n] in multiset(w[..n]) by { assert w[..n][0] == h0[n]; }
    assert h[n + 1..] == h[n..][1..] == h1[n..][1..] == h0[n + 1..];
  }

  lemma PopIsPermutation(h: seq<nat>, p: seq<int>, n: nat, h0: seq<nat>, p0: seq<int>)
    requires 0 < n < |h0| && Linked(h0, n + 1, -1, p0)
    requires Sifted(h, p, n, h0[n], h0[n := h0[0]], p0[h0[n] := OFF_HEAP][h0[0] := n], 0)
    ensures h[n] == h0[0]
    ensures Permuted(h, p, n + 1, h0, p0)
  {
    PopContents(h, n, h0);
    var p1 := p0[h0[n] := OFF_HEAP][h0[0] := n];
    assert p[h0[0]] == p1[h0[0]] == n;
    assert h[..n + 1] == h[..n] + [h0[0]];
    forall x: nat | x < |p| && x !in h[..n + 1] ensures p[x] == p0[x] {
      assert x !in h[..n] && x != h0[0] && x != h0[n];
      assert p1[x] == p0[x];
    }
  }

  /** gheap_pop_heap of a heap of n + 1 items: the maximum goes to slot n. */
  method PopHeap(c: Ctx, less: (nat, nat) -> bool, ghost key: nat -> int,
                 heap: array<nat>, ptr: array<int>, n: nat)
    requires ValidCtx(c) && Ranks(less, key, ptr.Length)
    requires n < heap.Length && n < SIZE_MAX
    requires Linked(heap[..], n + 1, -1, ptr[..])
    requires Ordered(c, heap[..], n + 1, 0, key)
    modifies heap, ptr
    ensures Permuted(heap[..], ptr[..], n + 1, old(heap[..]), old(ptr[..]))
    ensures Ordered(c, heap[..], n, 0, key)
    ensures heap[n] == old(heap[0])
    ensures forall i :: 0 <= i < n ==> key(heap[i]) <= key(heap[n])
  {
    hide Parent, Sifted;
    ghost var h0, p0 := heap[..], ptr[..];
    forall w: nat | w <= n ensures key(h0[w]) <= key(h0[0]) {
      RootIsMax(c, h0, n + 1, w, key);
    }
    if n > 0 {
      var tmp := heap[n];
      ptr[tmp] := OFF_HEAP;
      heap[n] := heap[0];
      ptr[heap[n]] := n;
      assert heap[..] == h0[n := h0[0]];
      assert ptr[..] == p0[tmp := OFF_HEAP][h0[0] := n];
      SiftDown(c, less, key, heap, ptr, n, 0, tmp);
      PopIsPermutation(heap[..], ptr[..], n, h0, p0);
      PermutedMembers(heap[..], ptr[..], n + 1, h0, p0);
      forall i | 0 <= i < n ensures key(heap[i]) <= key(heap[n]) {
        assert heap[..][..n + 1][i] in h0[..n + 1];
      }
    }
  }

  /** gheap_make_heap: any linked array becomes a heap. */
  method MakeHeap(c: Ctx, less: (nat, nat) -> bool, ghost key: nat -> int,
                  heap: array<nat>, ptr: array<int>, n: nat)
    requires ValidCtx(c) && Ranks(less, key, ptr.Length)
    requires n <= heap.Length && n <= SIZE_MAX
    requires Linked(heap[..], n, -1, ptr[..])
    modifies heap, ptr
    ensures Permuted(heap[..], ptr[..], n, old(heap[..]), old(ptr[..]))
    ensures Ordered(c, heap[..], n, 0, key)
  {
    hide Parent, Sifted;
    ghost var h0, p0 := heap[..], ptr[..];
    if n > 1 {
      var i: int := if c.pageChunks == 1 then (n - 2) / c.fanout else n - 2;
      LeavesSkipped(c, n, i);
      while i >= 0
        invariant -1 <= i < n - 1
        invariant Permuted(heap[..], ptr[..], n, h0, p0)
        invariant Ordered(c, heap[..], n, i + 1, key)
      {
        ghost var h, p := heap[..], ptr[..];
        var tmp := heap[i];
        ptr[tmp] := OFF_HEAP;
        assert ptr[..] == p[tmp := OFF_HEAP];
        SiftDown(c, less, key, heap, ptr, n, i, tmp);
        SiftedInPlace(heap[..], ptr[..], n, i, h, p);
        PermutedTrans(heap[..], ptr[..], n, h, p, h0, p0);
        i := i - 1;
      }
    }
  }

  /** Items past the starting index of gheap_make_heap have no children. */
  lemma LeavesSkipped(c: Ctx, n: nat, i: int)
    requires ValidCtx(c) && n > 1
    requires i == if c.pageChunks == 1 then (n - 2) / c.fanout else n - 2
    ensures 0 <= i < n - 1
    ensures forall w: nat :: 0 < w < n ==> Parent(c, w) <= i
  {
    if c.pageChunks == 1 {
      DivModSplit(n - 2, c.fanout);
      LessOrEqualQuotient(n - 2, c.fanout);
      forall w: nat | 0 < w < n ensures Parent(c, w) <= i {
        DivMonotone(w - 1, n - 2, c.fanout);
      }
    }
  }

  lemma LessOrEqualQuotient(x: nat, d: nat)
    requires d > 0
    ensures x / d <= x
  {
    DivModSplit(x, d);
    MulNonNegative(x / d, d - 1);
    assert (x / d) * (d - 1) == (x / d) * d - x / d;
  }

  lemma DivMonotone(x: nat, y: nat, d: nat)
    requires d > 0 && x <= y
    ensures x / d <= y / d
  {
    DivModSplit(x, d);
    DivModSplit(y, d);
    assert (y / d + 1) * d == (y / d) * d + d;
    LessFromProducts(x / d, y / d + 1, d);
  }

  /** gheap_sort_heap: a heap becomes an ascending array. */
  method SortHeap(c: Ctx, less: (nat, nat) -> bool, ghost key: nat -> int,
                  heap: array<nat>, ptr: array<int>, n: nat)
    requires ValidCtx(c) && Ranks(less, key, ptr.Length)
    requires n <= heap.Length && n <= SIZE_MAX
    requires Linked(heap[..], n, -1, ptr[..])
    requires Ordered(c, heap[..], n, 0, key)
    modifies heap, ptr
    ensures Permuted(heap[..], ptr[..], n, old(heap[..]), old(ptr[..]))
    ensures Ascending(heap[..], 0, n, key)
  {
    hide Parent, Ordered, Permuted, Linked, Ascending, Separated;
    ghost var h0, p0 := heap[..], ptr[..];
    var i: nat := n;
    SortStart(h0, p0, n, key);
    while i > 1
      invariant i <= n && Permuted(heap[..], ptr[..], n, h0, p0)
      invariant Ordered(c, heap[..], i, 0, key)
      invariant Ascending(heap[..], i, n, key) && Separated(heap[..], i, n, key)
    {
      ghost var h, p := heap[..], ptr[..];
      PermutedLinks(h, p, n, h0, p0, i);
      PopHeap(c, less, key, heap, ptr, i - 1);
      SortStep(heap[..], ptr[..], i, n, h, p, key);
      PermutedTrans(heap[..], ptr[..], n, h, p, h0, p0);
      i := i - 1;
    }
    SortEnd(heap[..], i, n, key);
  }

  /** The first i items are below the rest. */
  ghost predicate Separated(s: seq<nat>, i: nat, n: nat, key: nat -> int)
    requires n <= |s|
  {
    forall a, b :: 0 <= a < i <= b < n ==> key(s[a]) <= key(s[b])
  }

  lemma SortStart(h: seq<nat>, p: seq<int>, n: nat, key: nat -> int)
    requires n <= |h| && Linked(h, n, -1, p)
    ensures Permuted(h, p, n, h, p) && Ascending(h, n, n, key) && Separated(h, n, n, key)
  {
  }

  lemma PermutedLinks(h: seq<nat>, p: seq<int>, n: nat, h0: seq<nat>, p0: seq<int>, i: nat)
    requires Permuted(h, p, n, h0, p0) && i <= n
    ensures |h| == |h0| && n <= |h| && Linked(h, n, -1, p) && Linked(h, i, -1, p)
  {
  }

  lemma SortEnd(h: seq<nat>, i: nat, n: nat, key: nat -> int)
    requires i <= 1 && n <= |h| && Ascending(h, i, n, key) && Separated(h, i, n, key)
    ensures Ascending(h, 0, n, key)
  {
  }

  ghost predicate Ascending(s: seq<nat>, lo: nat, hi: nat, key: nat -> int)
    requires hi <= |s|
  {
    forall a, b :: lo <= a < b < hi ==> key(s[a]) <= key(s[b])
  }

  /** Popping from the first i slots permutes the first n. */
  lemma PermutedWider(h: seq<nat>, p: seq<int>, i: nat, n: nat, h0: seq<nat>, p0: seq<int>)
    requires i <= n <= |h0| && Permuted(h, p, i, h0, p0) && Linked(h0, n, -1, p0)
    ensures Permuted(h, p, n, h0, p0)
    ensures forall b :: i <= b < n ==> h[b] == h0[b]
    ensures forall a :: 0 <= a < i ==> h[a] in h0[..i]
  {
    PermutedMembers(h, p, i, h0, p0);
    forall b | i <= b < n ensures h[b] == h0[b] && h[b] !in h[..i] {
      assert h[b] == h[i..][b - i] == h0[i..][b - i];
      assert h0[b] !in h0[..i];
    }
    assert h[n..] == h[i..][n - i..] == h0[i..][n - i..] == h0[n..];
    forall a | 0 <= a < i ensures h[a] in h0[..i] {
      assert h[..i][a] in h0[..i];
    }
    forall x: nat | x < |p| && x !in h[..n] ensures p[x] == p0[x] {
      assert x !in h[..i] by { assert h[..i] == h[..n][..i]; }
    }
  }

  /** The popped maximum extends the sorted tail downwards. */
  lemma SortStep(h: seq<nat>, p: seq<int>, i: nat, n: nat, h0: seq<nat>, p0: seq<int>, key: nat -> int)
    requires 0 < i <= n <= |h0| && Permuted(h, p, i, h0, p0) && Linked(h0, n, -1, p0)
    requires forall a :: 0 <= a < i - 1 ==> key(h[a]) <= key(h[i - 1])
    requires Separated(h0, i, n, key) && Ascending(h0, i, n, key)
    ensures Permuted(h, p, n, h0, p0)
    ensures Ascending(h, i - 1, n, key) && Separated(h, i - 1, n, key)
  {
    PermutedWider(h, p, i, n, h0, p0);
    hide Permuted, Linked;
    HeadBelowTail(h, i, n, h0, key);
  }

  lemma HeadBelowTail(h: seq<nat>, i: nat, n: nat, h0: seq<nat>, key: nat -> int)
    requires i <= n <= |h0| == |h| && (forall b :: i <= b < n ==> h[b] == h0[b])
    requires forall a :: 0 <= a < i ==> h[a] in h0[..i]
    requires forall a, b :: 0 <= a < i <= b < n ==> key(h0[a]) <= key(h0[b])
    ensures forall a, b :: 0 <= a < i <= b < n ==> key(h[a]) <= key(h[b])
  {
    forall a, b | 0 <= a < i <= b < n ensures key(h[a]) <= key(h[b]) {
      var j :| 0 <= j < i && h0[..i][j] == h[a];
      assert key(h0[j]) <= key(h0[b]);
    }
  }

  /** What a comparer must be on the items below `limit`: a strict weak ordering. */
  ghost predicate StrictWeak(less: (nat, nat) -> bool, limit: nat) {
    && (forall a: nat, b: nat :: a < limit && b < limit && less(a, b) ==> !less(b, a))
    && (forall a: nat, b: nat, d: nat :: a < limit && b < limit && d < limit && !less(a, b) && !less(b, d) ==>
          !less(a, d))
  }

  /** How many items below m the comparer puts before x. */
  ghost function CountBefore(less: (nat, nat) -> bool, x: nat, m: nat): nat {
    if m == 0 then 0 else CountBefore(less, x, m - 1) + (if less(m - 1, x) then 1 else 0)
  }

  lemma {:induction false} CountBeforeMonotone(less: (nat, nat) -> bool, x: nat, y: nat, m: nat, limit: nat)
    requires StrictWeak(less, limit) && x < limit && y < limit && m <= limit && !less(y, x)
    ensures CountBefore(less, x, m) <= CountBefore(less, y, m)
    ensures less(x, y) && x < m ==> CountBefore(less, x, m) < CountBefore(less, y, m)
  {
    if m > 0 {
      CountBeforeMonotone(less, x, y, m - 1, limit);
      var z := m - 1;
      assert less(z, x) ==> less(z, y);
      assert !less(x, x);
    }
  }

  /** Every strict weak ordering of finitely many items has a rank. */
  lemma RankExists(less: (nat, nat) -> bool, limit: nat) returns (key: nat -> int)
    requires StrictWeak(less, limit)
    ensures Ranks(less, key, limit)
  {
    key := (x: nat) => CountBefore(less, x, limit);
    forall a: nat, b: nat | a < limit && b < limit ensures less(a, b) <==> key(a) < key(b) {
      if less(a, b) {
        CountBeforeMonotone(less, a, b, limit, limit);
      } else {
        CountBeforeMonotone(less, b, a, limit, limit);
      }
    }
  }

  /** gheap_make_heap followed by gheap_sort_heap sorts, for any comparer, fanout and page size. */
  method HeapSort(c: Ctx, less: (nat, nat) -> bool, heap: array<nat>, ptr: array<int>, n: nat)
    requires ValidCtx(c) && StrictWeak(less, ptr.Length)
    requires n <= heap.Length && n <= SIZE_MAX
    requires Linked(heap[..], n, -1, ptr[..])
    modifies heap, ptr
    ensures Permuted(heap[..], ptr[..], n, old(heap[..]), old(ptr[..]))
    ensures forall i, j :: 0 <= i < j < n ==> !less(heap[j], heap[i])
  {
    hide Parent, Ordered, StrictWeak;
    ghost var h0, p0 := heap[..], ptr[..];
    ghost var key := RankExists(less, ptr.Length);
    MakeHeap(c, less, key, heap, ptr, n);
    ghost var h1, p1 := heap[..], ptr[..];
    SortHeap(c, less, key, heap, ptr, n);
    PermutedTrans(heap[..], ptr[..], n, h1, p1, h0, p0);
  }
}
