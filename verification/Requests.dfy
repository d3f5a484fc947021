/** The allocator's requests as functions on the layout, and what they promise. */
module Requests {
  import opened Memory
  import opened Layout
  import opened BoundaryTags
  import opened Coalescing
  import opened Placement

  /** A heap as its client sees it. */
  datatype State = State(blocks: seq<Block>, brk: int)

  ghost predicate ValidState(s: State) {
    Tiles(s.blocks, 16, s.brk) && DoubleWords(s.blocks) && DoubleAligned(s.brk) && NoAdjacentFree(s.blocks)
  }

  /** The block size mm_malloc looks for: the payload rounded up, header and footer included. */
  function Adjusted(size: int): (n: int)
    requires size > 0
    ensures DoubleAligned(n) && 16 <= n && size + 8 <= n
    ensures forall m :: DoubleAligned(m) && 16 <= m && size + 8 <= m ==> n <= m
  {
    if size < 8 then 16 else (size + 15) - (size + 15) % 8
  }

  /** Whether the arena can serve a request for a block of `n` bytes. */
  ghost predicate HasRoom(s: State, n: int) {
    FirstFit(s.blocks, n) < |s.blocks| || s.brk + Growth(s.blocks, n) <= MAX_HEAP
  }

  /** The heap in which a block of `n` bytes is looked for: grown when nothing fits. */
  ghost function Prepared(s: State, n: int): State {
    if FirstFit(s.blocks, n) < |s.blocks| then s
    else State(Grown(s.blocks, s.brk, Growth(s.blocks, n)), s.brk + Growth(s.blocks, n))
  }

  /** The number of the block that is used. */
  ghost function FitIndex(s: State, n: int): int {
    FirstFit(Prepared(s, n).blocks, n)
  }

  /** The first fit is the only block that fits with none before it. */
  lemma FirstFitUnique(bs: seq<Block>, n: int, k: int)
    requires 0 <= k < |bs| && Fits(bs[k], n)
    requires forall i :: 0 <= i < k ==> !Fits(bs[i], n)
    ensures FirstFit(bs, n) == k
  {
  }

  lemma NoFitShort(bs: seq<Block>, n: int)
    requires DoubleWords(bs) && DoubleAligned(n) && FirstFit(bs, n) == |bs|
    ensures forall i :: 0 <= i < |bs| ==> !Fits(bs[i], n)
    ensures var tail := if bs != [] && bs[|bs| - 1].free then bs[|bs| - 1].size else 0;
      && (n - tail) % 8 == 0 && DoubleAligned(Growth(bs, n))
      && (tail > 0 ==> tail < n)
  {
    if bs != [] && bs[|bs| - 1].free {
      assert !Fits(bs[|bs| - 1], n);
      DoubleAlignedSum(n, bs[|bs| - 1].size);
    }
  }

  lemma GrownFit(bs: seq<Block>, brk: int, n: int)
    requires Tiles(bs, 16, brk) && NoAdjacentFree(bs) && DoubleWords(bs)
    requires 16 <= n && DoubleAligned(n) && FirstFit(bs, n) == |bs|
    ensures var g, r := Growth(bs, n), Grown(bs, brk, Growth(bs, n));
      var tail := if bs != [] && bs[|bs| - 1].free then bs[|bs| - 1].size else 0;
      && DoubleAligned(g) && g == (if n - tail < 16 then 16 else n - tail)
      && r != [] && FirstFit(r, n) == |r| - 1
      && r[|r| - 1].size == (if n - tail == 8 then n + 8 else n)
  {
    hide Tiles, NoAdjacentFree, DoubleAligned, Grown, FirstFit, Coalesced;
    var g := Growth(bs, n);
    var r := Grown(bs, brk, g);
    GrownShape(bs, 16, brk, g);
    NoFitShort(bs, n);
    var k := |r| - 1;
    forall i | 0 <= i < k
      ensures !Fits(r[i], n)
    {
      assert r[i] == bs[i];
    }
    FirstFitUnique(r, n, k);
  }

  /** The growth bound: mm_malloc extends a heap with no fit by the shortfall of the
      trailing free block, at least 16 bytes. The merged last block is then the
      first fit, has `n` or, for a shortfall of 8, `n` + 8 bytes, and is not split. */
  lemma GrowthBound(bs: seq<Block>, brk: int, n: int)
    requires Tiles(bs, 16, brk) && NoAdjacentFree(bs) && DoubleWords(bs)
    requires 16 <= n && DoubleAligned(n) && FirstFit(bs, n) == |bs|
    ensures var g, r := Growth(bs, n), Grown(bs, brk, Growth(bs, n));
      var tail := if bs != [] && bs[|bs| - 1].free then bs[|bs| - 1].size else 0;
      && g == (if n - tail < 16 then 16 else n - tail)
      && r != [] && FirstFit(r, n) == |r| - 1
      && r[|r| - 1].size == (if n - tail == 8 then n + 8 else n)
      && Carve(r, |r| - 1, n) == r[..|r| - 1] + [Block(r[|r| - 1].bp, r[|r| - 1].size, false)]
  {
    hide Tiles, NoAdjacentFree, DoubleWords, DoubleAligned, Grown, Growth, FirstFit;
    GrownFit(bs, brk, n);
  }

  /** Growing keeps the heap valid and its live blocks. */
  lemma GrownState(s: State, n: int)
    requires ValidState(s) && 16 <= n && DoubleAligned(n) && FirstFit(s.blocks, n) == |s.blocks|
    ensures ValidState(Prepared(s, n)) && Live(Prepared(s, n).blocks) == Live(s.blocks)
  {
    hide FirstFit, Growth, Tiles, Live, NoAdjacentFree, DoubleWords, DoubleAligned, Normalize;
    var bs, g := s.blocks, Growth(s.blocks, n);
    GrownFit(bs, s.brk, n);
    GrownShape(bs, 16, s.brk, g);
    GrownDoubleWords(bs, s.brk, g);
    DoubleAlignedSum(s.brk, g);
    NormalizeLive(bs + [Block(s.brk, g, true)]);
    ExtendList(bs, s.brk, g);
  }

  lemma GrownDoubleWords(bs: seq<Block>, brk: int, g: int)
    requires DoubleWords(bs) && DoubleAligned(brk) && DoubleAligned(g)
    ensures DoubleWords(Grown(bs, brk, g))
  {
    ExtendDoubleWords(bs, brk, g);
    NormalizeDoubleWords(bs + [Block(brk, g, true)]);
  }

  lemma {:induction false} NormalizeDoubleWords(bs: seq<Block>)
    requires DoubleWords(bs)
    ensures DoubleWords(Normalize(bs))
  {
    hide DoubleAligned;
    if bs != [] {
      var r := Normalize(bs[1..]);
      NormalizeDoubleWords(bs[1..]);
      if r != [] {
        DoubleAlignedSum(bs[0].size, r[0].size);
      }
      ConsDoubleWords(bs[0], r);
    }
  }

  lemma ConsDoubleWords(b: Block, r: seq<Block>)
    requires DoubleAligned(b.bp) && DoubleAligned(b.size) && DoubleWords(r)
    requires r != [] ==> DoubleAligned(b.size + r[0].size)
    ensures DoubleWords(Cons(b, r))
  {
    hide DoubleAligned;
  }

  /** Merging free blocks touches no live one. */
  lemma {:induction false} NormalizeLive(bs: seq<Block>)
    ensures Live(Normalize(bs)) == Live(bs)
  {
    if bs != [] {
      NormalizeLive(bs[1..]);
      ConsLive(bs[0], Normalize(bs[1..]));
      ConsLive(bs[0], bs[1..]);
      assert bs == [bs[0]] + bs[1..];
    }
  }

  lemma ConsLive(b: Block, r: seq<Block>)
    ensures Live(Cons(b, r)) == (if b.free then {} else {b}) + Live(r)
    ensures Live([b] + r) == (if b.free then {} else {b}) + Live(r)
  {
    if b.free && r != [] && r[0].free {
      assert r == [r[0]] + r[1..];
    }
  }

  // ----- mm_malloc -----

  lemma FitFacts(s: State, n: int)
    requires ValidState(s) && 16 <= n && DoubleAligned(n)
    ensures var p, k := Prepared(s, n), FitIndex(s, n);
      && ValidState(p) && Live(p.blocks) == Live(s.blocks)
      && 0 <= k < |p.blocks| && Fits(p.blocks[k], n)
  {
    if FirstFit(s.blocks, n) == |s.blocks| {
      GrownState(s, n);
      GrownFit(s.blocks, s.brk, n);
    }
  }

  /** The heap after a request for a block of `n` bytes: first fit, grown when nothing fits, carved. */
  ghost function MallocState(s: State, n: int): State
    requires ValidState(s) && 16 <= n && DoubleAligned(n)
  {
    FitFacts(s, n);
    State(Carve(Prepared(s, n).blocks, FitIndex(s, n), n), Prepared(s, n).brk)
  }

  /** The block such a request returns. */
  ghost function MallocBlock(s: State, n: int): Block
    requires ValidState(s) && 16 <= n && DoubleAligned(n)
  {
    FitFacts(s, n);
    CarvedPieces(Prepared(s, n).blocks[FitIndex(s, n)], n)[0]
  }

  /** A request keeps the heap valid and adds exactly one live block, which is
      large enough and overlaps no other live block. */
  lemma MallocAddsBlock(s: State, n: int)
    requires ValidState(s) && 16 <= n && DoubleAligned(n)
    ensures var t, b := MallocState(s, n), MallocBlock(s, n);
      && ValidState(t) && s.brk <= t.brk
      && Live(t.blocks) == Live(s.blocks) + {b} && b !in Live(s.blocks)
      && n <= b.size < n + 16 && 16 <= b.bp && b.bp + b.size <= t.brk && DoubleAligned(b.bp)
      && forall c :: c in Live(s.blocks) ==> c.bp + c.size <= b.bp || b.bp + b.size <= c.bp
  {
    hide Tiles, NoAdjacentFree, Live, FirstFit, Grown, Growth;
    var p, k := Prepared(s, n), FitIndex(s, n);
    FitFacts(s, n);
    MallocKeepsValid(s, n);
    CarveKeepsLive(p.blocks, k, n);
    var t, b := MallocState(s, n), MallocBlock(s, n);
    assert t.blocks[k] == b && DoubleAligned(t.blocks[k].bp);
    NewBlockApart(p.blocks, p.brk, k);
    if FirstFit(s.blocks, n) == |s.blocks| {
      GrownFit(s.blocks, s.brk, n);
    }
  }

  lemma MallocKeepsValid(s: State, n: int)
    requires ValidState(s) && 16 <= n && DoubleAligned(n)
    ensures ValidState(MallocState(s, n))
  {
    var p, k := Prepared(s, n), FitIndex(s, n);
    FitFacts(s, n);
    CarveTiles(p.blocks, k, n, 16, p.brk);
    CarveNoAdjacentFree(p.blocks, k, n);
    CarvedDoubleWords(p.blocks[k], n);
    ReplacedDoubleWords(p.blocks, k, k + 1, CarvedPieces(p.blocks[k], n));
  }

  /** No live block reaches into the extent of a free one. */
  lemma NewBlockApart(bs: seq<Block>, brk: int, k: int)
    requires Tiles(bs, 16, brk) && 0 <= k < |bs| && bs[k].free
    ensures 16 <= bs[k].bp && bs[k].End() <= brk
    ensures forall c :: c in Live(bs) ==> c.End() <= bs[k].bp || bs[k].End() <= c.bp
    ensures forall c :: c in Live(bs) ==> c.size >= 16
  {
    TilesOrdered(bs, 16, brk);
    forall c | c in Live(bs)
      ensures c.End() <= bs[k].bp || bs[k].End() <= c.bp
    {
      var x :| 0 <= x < |bs| && bs[x] == c;
    }
  }

  // ----- mm_free -----

  /** The layout in which the blocks at the addresses `a` are marked free. */
  ghost function Marked(bs: seq<Block>, a: set<int>): seq<Block> {
    if bs == [] then []
    else [if bs[0].bp in a then Block(bs[0].bp, bs[0].size, true) else bs[0]] + Marked(bs[1..], a)
  }

  /** The heap after freeing the block at `bp`. */
  ghost function FreeState(s: State, bp: int): State {
    State(Normalize(Marked(s.blocks, {bp})), s.brk)
  }

  lemma {:induction false} MarkedIndex(bs: seq<Block>, a: set<int>)
    ensures |Marked(bs, a)| == |bs|
    ensures forall i :: 0 <= i < |bs| ==>
      Marked(bs, a)[i] == if bs[i].bp in a then Block(bs[i].bp, bs[i].size, true) else bs[i]
  {
    if bs != [] {
      MarkedIndex(bs[1..], a);
    }
  }

  lemma FuseOne(bs: seq<Block>, k: int)
    requires 0 <= k < |bs|
    ensures Fuse(bs, k, k + 1) == bs[k := Block(bs[k].bp, bs[k].size, true)]
    ensures NoAdjacentFree(bs) ==> NoAdjacentFreeBut(Fuse(bs, k, k + 1), k)
  {
    assert bs[k..k + 1] == [bs[k]];
    assert Total([bs[k]]) == bs[k].size;
    var f := bs[k := Block(bs[k].bp, bs[k].size, true)];
    assert f[..k] == bs[..k] && f[k + 1..] == bs[k + 1..];
    if NoAdjacentFree(bs) {
      NoAdjacentFreeSlice(bs, 0, k);
      NoAdjacentFreeSlice(bs, k + 1, |bs|);
    }
  }

  /** Marking one block by its address, in a layout where addresses are unique. */
  lemma MarkedOne(bs: seq<Block>, lo: int, hi: int, k: int)
    requires Tiles(bs, lo, hi) && 0 <= k < |bs|
    ensures Marked(bs, {bs[k].bp}) == Fuse(bs, k, k + 1)
  {
    TilesOrdered(bs, lo, hi);
    MarkedIndex(bs, {bs[k].bp});
    FuseOne(bs, k);
    hide Fuse, Marked, NoAdjacentFree;
    assert forall i :: 0 <= i < |bs| && i != k ==> bs[i].bp != bs[k].bp;
  }

  lemma {:induction false} MarkedTiles(bs: seq<Block>, a: set<int>, lo: int, hi: int)
    requires Tiles(bs, lo, hi)
    ensures Tiles(Marked(bs, a), lo, hi)
  {
    if bs != [] {
      var b := Marked(bs, a)[0];
      TilesSlice(bs, 1, |bs|, lo, hi);
      MarkedTiles(bs[1..], a, bs[0].End(), hi);
      TilesJoin([b], Marked(bs[1..], a), lo, bs[0].End(), hi);
    }
  }

  lemma {:induction false} MarkedDoubleWords(bs: seq<Block>, a: set<int>)
    requires DoubleWords(bs)
    ensures DoubleWords(Marked(bs, a))
  {
    hide DoubleAligned;
    if bs != [] {
      MarkedDoubleWords(bs[1..], a);
    }
  }

  /** Marking ends the life of exactly the live blocks at the given addresses. */
  lemma {:induction false} MarkedLive(bs: seq<Block>, a: set<int>)
    ensures Live(Marked(bs, a)) == set b | b in Live(bs) && b.bp !in a
  {
    if bs != [] {
      MarkedLive(bs[1..], a);
      ConsLive(bs[0], bs[1..]);
      ConsLive(Marked(bs, a)[0], Marked(bs[1..], a));
      assert bs == [bs[0]] + bs[1..];
    }
  }

  /** Freeing keeps the heap valid and removes exactly one live block. */
  lemma FreeRemovesBlock(s: State, bp: int)
    requires ValidState(s)
    ensures ValidState(FreeState(s, bp)) && FreeState(s, bp).brk == s.brk
    ensures Live(FreeState(s, bp).blocks) == set b | b in Live(s.blocks) && b.bp != bp
  {
    var m := Marked(s.blocks, {bp});
    MarkedTiles(s.blocks, {bp}, 16, s.brk);
    MarkedDoubleWords(s.blocks, {bp});
    MarkedLive(s.blocks, {bp});
    NormalizeTiles(m, 16, s.brk);
    NormalizeDoubleWords(m);
    NormalizeNoAdjacentFree(m);
    NormalizeLive(m);
  }

  lemma {:induction false} MarkedTwice(bs: seq<Block>, a: set<int>, b: set<int>)
    ensures Marked(Marked(bs, a), b) == Marked(bs, a + b)
  {
    if bs != [] {
      MarkedTwice(bs[1..], a, b);
      assert Marked(bs, a)[1..] == Marked(bs[1..], a);
    }
  }

  lemma NormalizeCons(x: Block, m: seq<Block>)
    ensures Normalize(Cons(x, m)) == Cons(x, Normalize(m))
  {
    if x.free && m != [] && m[0].free {
      assert Cons(x, m)[1..] == m[1..];
    } else {
      assert Cons(x, m)[1..] == m;
    }
  }

  /** Merging before marking makes no difference once merged again. */
  lemma {:induction false} NormalizeMarked(bs: seq<Block>, a: set<int>)
    ensures Normalize(Marked(Normalize(bs), a)) == Normalize(Marked(bs, a))
  {
    if bs != [] {
      var x, r := bs[0], Normalize(bs[1..]);
      var x' := if x.bp in a then Block(x.bp, x.size, true) else x;
      NormalizeMarked(bs[1..], a);
      if x.free && r != [] && r[0].free {
        assert Cons(x, r)[1..] == r[1..];
        assert Marked(r, a)[0].free && Marked(r, a)[0].size == r[0].size;
        assert Marked(r, a)[1..] == Marked(r[1..], a);
        assert Marked(Cons(x, r), a) == Cons(x, Marked(r, a));
        NormalizeCons(x, Marked(r, a));
      } else {
        assert Cons(x, r)[1..] == r;
        assert Marked(Cons(x, r), a) == [x'] + Marked(r, a);
        assert ([x'] + Marked(r, a))[1..] == Marked(r, a);
      }
      assert ([x'] + Marked(bs[1..], a))[1..] == Marked(bs[1..], a);
    }
  }

  // ----- full recovery -----

  /** The heap after freeing the blocks at `ptrs` one after the other. */
  ghost function FreeAll(s: State, ptrs: seq<int>): State
    decreases |ptrs|
  {
    if ptrs == [] then s else FreeAll(FreeState(s, ptrs[0]), ptrs[1..])
  }

  ghost function Members(ptrs: seq<int>): set<int> {
    set p | p in ptrs
  }

  /** Any order of frees leads to the same heap: the one with all of them marked, merged once. */
  lemma {:induction false} FreesCommute(s: State, ptrs: seq<int>)
    requires ValidState(s)
    ensures ValidState(FreeAll(s, ptrs))
    ensures FreeAll(s, ptrs) == State(Normalize(Marked(s.blocks, Members(ptrs))), s.brk)
    decreases |ptrs|
  {
    if ptrs == [] {
      assert Members(ptrs) == {};
      MarkedNothing(s.blocks);
      NormalizeFixed(s.blocks);
    } else {
      var rest := Members(ptrs[1..]);
      var m := Marked(s.blocks, {ptrs[0]});
      FreeRemovesBlock(s, ptrs[0]);
      FreesCommute(FreeState(s, ptrs[0]), ptrs[1..]);
      NormalizeMarked(m, rest);
      MarkedTwice(s.blocks, {ptrs[0]}, rest);
      assert Members(ptrs) == {ptrs[0]} + rest;
    }
  }

  lemma {:induction false} MarkedNothing(bs: seq<Block>)
    ensures Marked(bs, {}) == bs
  {
    if bs != [] {
      MarkedNothing(bs[1..]);
    }
  }

  /** Full recovery: once every live block has been freed, in whatever order, the
      heap is one free block of all its bytes but the 16 of prologue and epilogue. */
  lemma FullRecovery(s: State, ptrs: seq<int>)
    requires ValidState(s) && s.brk > 16
    requires forall b :: b in Live(s.blocks) ==> b.bp in ptrs
    ensures FreeAll(s, ptrs).blocks == [Block(16, s.brk - 16, true)] && FreeAll(s, ptrs).brk == s.brk
  {
    var m := Marked(s.blocks, Members(ptrs));
    FreesCommute(s, ptrs);
    MarkedLive(s.blocks, Members(ptrs));
    MarkedTiles(s.blocks, Members(ptrs), 16, s.brk);
    forall i | 0 <= i < |m|
      ensures m[i].free
    {
      var b := m[i];
      assert b in m;
      assert b.free || b in Live(m);
    }
    RunNormal(m, []);
    assert m + [] == m;
    TilesTotal(m, 16, s.brk);
  }

  /** Conservation: between the prologue and the epilogue every byte belongs to a block. */
  lemma SizesSumToHeap(s: State)
    requires ValidState(s)
    ensures Total(s.blocks) == s.brk - 16
  {
    TilesTotal(s.blocks, 16, s.brk);
  }

  /** The steps of mm_malloc, spelled out. */
  lemma MallocSteps(s: State, n: int)
    requires ValidState(s) && 16 <= n && DoubleAligned(n)
    ensures var p, k := Prepared(s, n), FitIndex(s, n);
      && 0 <= k < |p.blocks| && MallocState(s, n) == State(Carve(p.blocks, k, n), p.brk)
      && MallocBlock(s, n).bp == p.blocks[k].bp
      && p.blocks[k].free && n <= p.blocks[k].size && 16 <= p.blocks[k].bp
      && 0 <= FirstFit(s.blocks, n) <= |s.blocks|
      && (FirstFit(s.blocks, n) < |s.blocks| ==> p == s && k == FirstFit(s.blocks, n))
      && (FirstFit(s.blocks, n) == |s.blocks| ==>
          && p.blocks == Grown(s.blocks, s.brk, Growth(s.blocks, n)) && p.brk == s.brk + Growth(s.blocks, n)
          && k == |p.blocks| - 1
          && (HasRoom(s, n) ==> s.brk + Growth(s.blocks, n) <= MAX_HEAP))
  {
    FitFacts(s, n);
    TilesOrdered(Prepared(s, n).blocks, 16, Prepared(s, n).brk);
    if FirstFit(s.blocks, n) == |s.blocks| {
      GrownFit(s.blocks, s.brk, n);
    }
  }
}
