/** Index arithmetic of the paged d-ary heap (external/gheap/gheap.h).

    A heap with `fanout` children per item is laid out in pages of `pageChunks`
    chunks, a chunk being `fanout` consecutive items.  ParentIndex and ChildIndex
    follow the C branch by branch; sizes are C's 64-bit size_t. */
module GheapIndex {
  import opened Numbers

  const SIZE_MAX: nat := U64_MAX

  datatype Ctx = Ctx(fanout: nat, pageChunks: nat)

  /** What gheap asks of its context: both counts positive and a page no larger than size_t. */
  ghost predicate ValidCtx(c: Ctx) {
    && 1 <= c.fanout && 1 <= c.pageChunks
    && c.fanout * c.pageChunks <= SIZE_MAX
  }

  /** A page holds this many items that have no child inside the page. */
  function PageLeaves(c: Ctx): int {
    (c.fanout - 1) * c.pageChunks + 1
  }

  function ParentIndex(c: Ctx, child: nat): int
    requires ValidCtx(c) && child > 0
  {
    var u := child - 1;
    if c.pageChunks == 1 then u / c.fanout
    else if u < c.fanout then 0
    else
      var pageSize := c.fanout * c.pageChunks;
      assert pageSize > 0 by { MulPositive(c.fanout, c.pageChunks); }
      var v := u % pageSize;
      if v >= c.fanout then u - v + v / c.fanout
      else
        var w := u / pageSize - 1;
        assert PageLeaves(c) > 0 by { MulNonNegative(c.fanout - 1, c.pageChunks); }
        (w / PageLeaves(c) + 1) * pageSize + w % PageLeaves(c) - PageLeaves(c) + 1
  }

  /** The index of the first child as a number that may not fit size_t. */
  function FirstChild(c: Ctx, parent: nat): int
    requires ValidCtx(c)
  {
    if c.pageChunks == 1 then parent * c.fanout + 1
    else if parent == 0 then 1
    else
      var pageSize := c.fanout * c.pageChunks;
      assert pageSize > 0 by { MulPositive(c.fanout, c.pageChunks); }
      var u := parent - 1;
      var v := u % pageSize + 1;
      if v < c.pageChunks then u + v * (c.fanout - 1) + 2
      else (v + (u / pageSize + 1) * PageLeaves(c) - pageSize) * pageSize + 1
  }

  /** gheap_get_child_index: SIZE_MAX stands for a child that does not fit.
      The one size_t expression that can wrap is reduced modulo 2^64. */
  function ChildIndex(c: Ctx, parent: nat): int
    requires ValidCtx(c) && parent < SIZE_MAX
  {
    if c.pageChunks == 1 then
      if parent > (SIZE_MAX - 1) / c.fanout then SIZE_MAX else parent * c.fanout + 1
    else if parent == 0 then 1
    else
      var pageSize := c.fanout * c.pageChunks;
      assert pageSize > 0 by { MulPositive(c.fanout, c.pageChunks); }
      var u := parent - 1;
      var v := u % pageSize + 1;
      if v < pageSize / c.fanout then
        var step := v * (c.fanout - 1);
        if u > SIZE_MAX - 2 - step then SIZE_MAX else u + step + 2
      else
        var w := (v + (u / pageSize + 1) * PageLeaves(c) - pageSize) % (SIZE_MAX + 1);
        if w > (SIZE_MAX - 1) / pageSize then SIZE_MAX else w * pageSize + 1
  }

  lemma MulPositive(a: int, b: int)
    requires a > 0 && b > 0
    ensures a * b > 0 && a * b >= a && a * b >= b
  {
    MulNonNegative(a - 1, b - 1);
  }

  lemma DivModUnique(q: int, d: int, r: int)
    requires 0 <= r < d
    ensures (q * d + r) / d == q && (q * d + r) % d == r
  {
    var x := q * d + r;
    assert x == (x / d) * d + x % d;
    var e := x / d - q;
    assert e * d == r - x % d;
    if e > 0 { MulNonNegative(e - 1, d); }
    if e < 0 { MulNonNegative(-e - 1, d); }
  }

  lemma DivModSplit(x: int, d: int)
    requires d > 0 && x >= 0
    ensures x == (x / d) * d + x % d && 0 <= x % d < d && x / d >= 0
  {
  }

  /** First child of the item at offset r of page q, when it shares the page. */
  lemma FirstChildSamePage(c: Ctx, q: nat, r: nat)
    requires ValidCtx(c) && c.pageChunks > 1 && r + 1 < c.pageChunks
    ensures q * (c.fanout * c.pageChunks) >= 0
    ensures FirstChild(c, q * (c.fanout * c.pageChunks) + r + 1)
         == q * (c.fanout * c.pageChunks) + (r + 1) * c.fanout + 1
  {
    var ps := c.fanout * c.pageChunks;
    MulPositive(c.fanout, c.pageChunks);
    MulNonNegative(q, ps);
    DivModUnique(q, ps, r);
    assert (r + 1) * (c.fanout - 1) == (r + 1) * c.fanout - r - 1;
  }

  /** First child of the item at offset r of page q, when it starts a page of its own. */
  lemma FirstChildOtherPage(c: Ctx, q: nat, r: nat)
    requires ValidCtx(c) && c.pageChunks > 1 && c.pageChunks - 1 <= r < c.fanout * c.pageChunks
    ensures q * (c.fanout * c.pageChunks) >= 0
    ensures FirstChild(c, q * (c.fanout * c.pageChunks) + r + 1)
         == (q * PageLeaves(c) + r - c.pageChunks + 2) * (c.fanout * c.pageChunks) + 1
  {
    var ps, pl := c.fanout * c.pageChunks, PageLeaves(c);
    PageLeavesSize(c);
    MulNonNegative(q, ps);
    DivModUnique(q, ps, r);
    assert (q + 1) * pl == q * pl + pl;
  }

  lemma ParentSamePage(c: Ctx, q: nat, r: nat, i: nat)
    requires ValidCtx(c) && c.pageChunks > 1 && r + 1 < c.pageChunks && i < c.fanout
    ensures q * (c.fanout * c.pageChunks) >= 0 && (r + 1) * c.fanout >= 0
    ensures ParentIndex(c, q * (c.fanout * c.pageChunks) + (r + 1) * c.fanout + i + 1)
         == q * (c.fanout * c.pageChunks) + r + 1
  {
    var f, k := c.fanout, c.pageChunks;
    var ps := f * k;
    MulPositive(f, k);
    MulNonNegative(q, ps);
    MulNonNegative(r, f);
    assert (r + 1) * f == r * f + f;
    MulNonNegative(k - r - 2, f);
    assert (k - r - 2) * f == ps - (r + 1) * f - f;
    DivModUnique(q, ps, (r + 1) * f + i);
    DivModUnique(r + 1, f, i);
  }

  lemma ParentOtherPage(c: Ctx, q: nat, m: nat, i: nat)
    requires ValidCtx(c) && c.pageChunks > 1 && m < PageLeaves(c) && i < c.fanout
    ensures (q * PageLeaves(c) + m + 1) * (c.fanout * c.pageChunks) >= 0
    ensures ParentIndex(c, (q * PageLeaves(c) + m + 1) * (c.fanout * c.pageChunks) + i + 1)
         == q * (c.fanout * c.pageChunks) + m + c.pageChunks
  {
    hide ParentIndex;
    var f, k := c.fanout, c.pageChunks;
    var ps, pl := f * k, PageLeaves(c);
    PageLeavesSize(c);
    hide PageLeaves;
    MulNonNegative(q, pl);
    var v := q * pl + m + 1;
    MulPositive(v, ps);
    DivModUnique(v, ps, i);
    DivModUnique(q, pl, m);
    ParentByParts(c, v * ps + i, v, q, m);
    assert (q + 1) * ps == q * ps + ps;
  }

  /** The parent of the first child in page v, by page and offset. */
  lemma ParentByParts(c: Ctx, u: nat, v: nat, q: int, m: int)
    requires ValidCtx(c) && c.pageChunks > 1 && c.fanout * c.pageChunks > 0 && PageLeaves(c) > 0
    requires u >= c.fanout && u % (c.fanout * c.pageChunks) < c.fanout && u / (c.fanout * c.pageChunks) == v
    requires (v - 1) / PageLeaves(c) == q && (v - 1) % PageLeaves(c) == m
    ensures ParentIndex(c, u + 1) == (q + 1) * (c.fanout * c.pageChunks) + m - PageLeaves(c) + 1
  {
    hide PageLeaves;
  }

  lemma PageLeavesSize(c: Ctx)
    requires ValidCtx(c)
    ensures 1 <= PageLeaves(c) && PageLeaves(c) == c.fanout * c.pageChunks - c.pageChunks + 1
    ensures c.fanout <= c.fanout * c.pageChunks && c.pageChunks <= c.fanout * c.pageChunks
  {
    MulPositive(c.fanout, c.pageChunks);
    MulNonNegative(c.fanout - 1, c.pageChunks);
    assert (c.fanout - 1) * c.pageChunks == c.fanout * c.pageChunks - c.pageChunks;
  }

  /** Every child finds its parent again: parent(child(u) + i) == u. */
  lemma ParentOfChild(c: Ctx, u: nat, i: nat)
    requires ValidCtx(c) && i < c.fanout
    ensures FirstChild(c, u) >= 1
    ensures ParentIndex(c, FirstChild(c, u) + i) == u
  {
    var f, k := c.fanout, c.pageChunks;
    if k == 1 {
      DivModUnique(u, f, i);
      MulNonNegative(u, f);
    } else if u > 0 {
      ParentOfChildPaged(c, u, i);
    }
  }

  lemma ParentOfChildPaged(c: Ctx, u: nat, i: nat)
    requires ValidCtx(c) && i < c.fanout && c.pageChunks > 1 && u > 0
    ensures FirstChild(c, u) >= 1
    ensures ParentIndex(c, FirstChild(c, u) + i) == u
  {
    hide FirstChild, ParentIndex;
    var f, k := c.fanout, c.pageChunks;
    var ps := f * k;
    PageLeavesSize(c);
    var q, r := (u - 1) / ps, (u - 1) % ps;
    DivModSplit(u - 1, ps);
    if r + 1 < k {
      FirstChildSamePage(c, q, r);
      ParentSamePage(c, q, r, i);
    } else {
      FirstChildOtherPage(c, q, r);
      ParentOtherPage(c, q, r - k + 1, i);
    }
  }

  /** Conversely every item but the root lies in its parent's chunk of children, and after it. */
  lemma ChildOfParent(c: Ctx, w: nat)
    requires ValidCtx(c) && w > 0
    ensures 0 <= ParentIndex(c, w) < w
    ensures FirstChild(c, ParentIndex(c, w)) <= w < FirstChild(c, ParentIndex(c, w)) + c.fanout
  {
    var f, k := c.fanout, c.pageChunks;
    var u := w - 1;
    if k == 1 {
      DivModSplit(u, f);
      MulNonNegative(u / f, f - 1);
      assert (u / f) * (f - 1) == (u / f) * f - u / f;
    } else if u >= f {
      ChildOfParentPaged(c, w);
    }
  }

  lemma ChildOfParentPaged(c: Ctx, w: nat)
    requires ValidCtx(c) && c.pageChunks > 1 && w > c.fanout
    ensures 0 <= ParentIndex(c, w) < w
    ensures FirstChild(c, ParentIndex(c, w)) <= w < FirstChild(c, ParentIndex(c, w)) + c.fanout
  {
    hide FirstChild, ParentIndex;
    var f, k := c.fanout, c.pageChunks;
    var ps, pl := f * k, PageLeaves(c);
    PageLeavesSize(c);
    var q, v := (w - 1) / ps, (w - 1) % ps;
    DivModSplit(w - 1, ps);
    if v >= f {
      var r, i := v / f - 1, v % f;
      DivModSplit(v, f);
      QuotientBounds(v, f, k);
      ParentSamePage(c, q, r, i);
      FirstChildSamePage(c, q, r);
      MulNonNegative(r + 1, f - 1);
      assert (r + 1) * (f - 1) == (r + 1) * f - r - 1;
    } else {
      LessFromProducts(0, q, ps);
      var q', m := (q - 1) / pl, (q - 1) % pl;
      DivModSplit(q - 1, pl);
      ParentOtherPage(c, q', m, v);
      FirstChildOtherPage(c, q', m + k - 1);
      PageBefore(q, q', m, pl, ps, k);
    }
  }

  lemma QuotientBounds(v: nat, f: nat, k: nat)
    requires 0 < f <= v < f * k
    ensures 1 <= v / f < k
  {
    DivModSplit(v, f);
    LessFromProducts(v / f, k, f);
    LessFromProducts(0, v / f, f);
  }

  lemma LessFromProducts(a: int, b: int, f: nat)
    requires a * f < b * f
    ensures a < b
  {
    if a >= b { MulNonNegative(a - b, f); }
  }

  /** The page of a parent precedes the page of its children. */
  lemma PageBefore(q: nat, q': nat, m: nat, pl: nat, ps: nat, k: nat)
    requires q == q' * pl + m + 1 && m < pl && pl == ps - k + 1 && 1 < k <= ps
    ensures q' * ps + m + k < q * ps + 1
  {
    MulNonNegative(q', pl - 1);
    assert q' * (pl - 1) == q' * pl - q';
    if m == 0 {
      MulNonNegative(q - q' - 1, ps);
      assert (q - q' - 1) * ps == q * ps - q' * ps - ps;
    } else {
      MulNonNegative(q - q' - 2, ps);
      assert (q - q' - 2) * ps == q * ps - q' * ps - ps - ps;
    }
  }

  /** The overflow tests of the C are exact: the child index is clipped to SIZE_MAX
      precisely when the true one does not fit. */
  lemma ChildIndexExact(c: Ctx, u: nat)
    requires ValidCtx(c) && u < SIZE_MAX
    ensures ChildIndex(c, u) == if FirstChild(c, u) > SIZE_MAX then SIZE_MAX else FirstChild(c, u)
  {
    var f, k := c.fanout, c.pageChunks;
    if k == 1 {
      QuotientTest(u, f);
    } else if u > 0 {
      var ps, pl := f * k, PageLeaves(c);
      PageLeavesSize(c);
      DivModUnique(k, f, 0);
      var q, r := (u - 1) / ps, (u - 1) % ps;
      DivModSplit(u - 1, ps);
      if r + 1 >= k {
        var w := r + 1 + (q + 1) * pl - ps;
        LeafBefore(u, q, r, pl, ps, k);
        QuotientTest(w, ps);
      }
    }
  }

  /** The number of leaves up to and including index u. */
  lemma LeafBefore(u: nat, q: nat, r: nat, pl: nat, ps: nat, k: nat)
    requires u == q * ps + r + 1 && k <= r + 1 <= ps && pl == ps - k + 1 && 0 < pl <= ps
    ensures 1 <= r + 1 + (q + 1) * pl - ps <= u
  {
    assert (q + 1) * pl == q * pl + pl;
    MulNonNegative(q, pl);
    MulNonNegative(q, ps - pl);
    assert q * (ps - pl) == q * ps - q * pl;
  }

  /** u > (SIZE_MAX - 1) / f is the overflow test for u * f + 1. */
  lemma QuotientTest(u: nat, f: nat)
    requires f > 0
    ensures u > (SIZE_MAX - 1) / f <==> u * f + 1 > SIZE_MAX
  {
    var q := (SIZE_MAX - 1) / f;
    DivModSplit(SIZE_MAX - 1, f);
    if u > q {
      MulNonNegative(u - q - 1, f);
      assert (u - q - 1) * f == u * f - q * f - f;
    } else {
      MulNonNegative(q - u, f);
      assert (q - u) * f == q * f - u * f;
    }
  }

  /** Chunks of children start one past a multiple of the fanout. */
  lemma ChunkAligned(c: Ctx, u: nat)
    requires ValidCtx(c)
    ensures FirstChild(c, u) >= 1 && (FirstChild(c, u) - 1) % c.fanout == 0
  {
    ParentOfChild(c, u, 0);
    if c.pageChunks == 1 {
      DivModUnique(u, c.fanout, 0);
    } else if u > 0 {
      ChunkAlignedPaged(c, u);
    }
  }

  lemma ChunkAlignedPaged(c: Ctx, u: nat)
    requires ValidCtx(c) && c.pageChunks > 1 && u > 0
    ensures (FirstChild(c, u) - 1) % c.fanout == 0
  {
    hide FirstChild, ParentIndex;
    var f, k := c.fanout, c.pageChunks;
    var ps := f * k;
    PageLeavesSize(c);
    var q, r := (u - 1) / ps, (u - 1) % ps;
    DivModSplit(u - 1, ps);
    if r + 1 < k {
      FirstChildSamePage(c, q, r);
      assert q * ps + (r + 1) * f == (q * k + r + 1) * f;
      DivModUnique(q * k + r + 1, f, 0);
    } else {
      FirstChildOtherPage(c, q, r);
      var v := q * PageLeaves(c) + r - k + 2;
      assert v * ps == (v * k) * f;
      DivModUnique(v * k, f, 0);
    }
  }
}
