/** Memory-level facts behind coalesce, extend_heap and place: what neighbouring
    tags read as, and what rewriting the tags of a run does to heap and list. */
module Coalescing {
  import opened Memory
  import opened FreeList
  import opened Layout
  import opened BoundaryTags

  lemma WUpdate(m: Words, p: int, v: int, q: int)
    ensures W(m[p := v], q) == if q == p then v else W(m, q)
  {
  }

  /** The footer before position `k` (the prologue's for k = 0) leads to the previous header. */
  lemma PrevFacts(m: Words, bs: seq<Block>, brk: int, k: int)
    requires HeapOk(m, bs, brk) && 0 <= k <= |bs|
    ensures var a := StartAt(bs, k, brk);
      var size := SizeOf(W(m, a - 8));
      && Aligned(a - 8) && Aligned(a - size - 4)
      && AllocOf(W(m, a - size - 4)) == (if k > 0 && bs[k - 1].free then 0 else 1)
      && (k > 0 ==> size == bs[k - 1].size && a - size == bs[k - 1].bp && SizeOf(W(m, a - size - 4)) == size)
  {
    hide *;
    if k > 0 {
      BlockFacts(m, bs, brk, k - 1);
    } else {
      PrologueFacts(m, bs, brk);
    }
    StartIsAligned(m, bs, brk, k);
  }

  lemma PrologueFacts(m: Words, bs: seq<Block>, brk: int)
    requires HeapOk(m, bs, brk)
    ensures StartAt(bs, 0, brk) == 16 && W(m, 4) == 9 && W(m, 8) == 9 && SizeOf(9) == 8 && AllocOf(9) == 1
    ensures Aligned(4) && Aligned(8)
  {
  }

  lemma StartIsAligned(m: Words, bs: seq<Block>, brk: int, k: int)
    requires HeapOk(m, bs, brk) && 0 <= k <= |bs|
    ensures Aligned(StartAt(bs, k, brk) - 8)
  {
    UnfoldHeap(m, bs, brk);
    TilesOrdered(bs, 16, brk);
    var a := StartAt(bs, k, brk);
    assert DoubleAligned(a) && 16 <= a <= brk;
    hide Tiles, DoubleWords, HeapOk, Tags, Fenced;
    DoubleWordAligned(a);
  }

  /** The header after block `k` (the epilogue's for the last block). */
  lemma NextFacts(m: Words, bs: seq<Block>, brk: int, k: int)
    requires HeapOk(m, bs, brk) && 0 <= k < |bs|
    ensures var e := bs[k].bp + bs[k].size;
      && Aligned(e - 4)
      && AllocOf(W(m, e - 4)) == (if k + 1 < |bs| && bs[k + 1].free then 0 else 1)
      && (k + 1 < |bs| ==> SizeOf(W(m, e - 4)) == bs[k + 1].size && e == bs[k + 1].bp)
  {
    hide *;
    BlockFacts(m, bs, brk, k);
    if k + 1 < |bs| {
      BlockFacts(m, bs, brk, k + 1);
    } else {
      EpilogueFacts(m, bs, brk, k);
    }
  }

  lemma EpilogueFacts(m: Words, bs: seq<Block>, brk: int, k: int)
    requires HeapOk(m, bs, brk) && 0 <= k && k + 1 == |bs|
    ensures bs[k].bp + bs[k].size == brk && Aligned(brk - 4) && W(m, brk - 4) == 1 && AllocOf(1) == 1
  {
    TilesOrdered(bs, 16, brk);
    DoubleWordAligned(brk);
  }

  lemma OmitMiddle(p: seq<int>, a: int, s: seq<int>)
    ensures (p + [a] + s)[|p|] == a
    ensures OmitAt(p + [a] + s, |p|) == p + s
    ensures PutAt(p + s, |p|, a) == p + [a] + s
  {
  }

  /** Names for the list of the free blocks before, and from, a position. */
  ghost function Before(bs: seq<Block>, i: int): seq<int>
    requires 0 <= i <= |bs|
  {
    FreeAddrs(bs[..i])
  }

  ghost function From(bs: seq<Block>, j: int): seq<int>
    requires 0 <= j <= |bs|
  {
    FreeAddrs(bs[j..])
  }

  /** Stepping over one block. */
  lemma FromStep(bs: seq<Block>, j: int)
    requires 0 <= j < |bs|
    ensures From(bs, j) == if bs[j].free then [bs[j].bp] + From(bs, j + 1) else From(bs, j + 1)
  {
    assert bs[j..][1..] == bs[j + 1..];
  }

  lemma ListAt(bs: seq<Block>, i: int)
    requires 0 <= i <= |bs|
    ensures FreeAddrs(bs) == Before(bs, i) + From(bs, i)
  {
    FreeAddrsConcat(bs[..i], bs[i..]);
    assert bs[..i] + bs[i..] == bs;
  }

  /** The list of a layout in which the blocks i..j were replaced by `mid`. */
  lemma ListReplaced(bs: seq<Block>, i: int, j: int, mid: seq<Block>)
    requires 0 <= i <= j <= |bs|
    ensures FreeAddrs(bs[..i] + mid + bs[j..]) == Before(bs, i) + FreeAddrs(mid) + From(bs, j)
  {
    FreeAddrsConcat(bs[..i], mid);
    FreeAddrsConcat(bs[..i] + mid, bs[j..]);
  }

  lemma LiveReplaced(bs: seq<Block>, i: int, j: int, mid: seq<Block>)
    requires 0 <= i <= j <= |bs|
    ensures bs == bs[..i] + bs[i..j] + bs[j..]
    ensures Live(bs[..i] + mid + bs[j..]) == Live(bs[..i]) + Live(mid) + Live(bs[j..])
  {
    assert bs == bs[..i] + bs[i..j] + bs[j..];
  }

  /** Blocks outside i..j keep their list nodes clear of the extent of i..j. */
  lemma NodesOutside(bs: seq<Block>, brk: int, i: int, j: int, a: int)
    requires Tiles(bs, 16, brk) && 0 <= i < j <= |bs|
    requires a in Before(bs, i) + From(bs, j)
    ensures a + 16 <= bs[i].bp || StartAt(bs, j, brk) <= a
    ensures exists x :: (0 <= x < i || j <= x < |bs|) && bs[x].free && bs[x].bp == a
  {
    TilesOrdered(bs, 16, brk);
    FreeAddrsMember(bs[..i], a);
    FreeAddrsMember(bs[j..], a);
    if a in Before(bs, i) {
      var x :| 0 <= x < i && bs[..i][x].free && bs[..i][x].bp == a;
      assert bs[x].free && bs[x].bp == a;
    } else {
      var x :| 0 <= x < |bs| - j && bs[j..][x].free && bs[j..][x].bp == a;
      assert bs[x + j].free && bs[x + j].bp == a;
    }
  }

  ghost function Replaced(bs: seq<Block>, i: int, j: int, mid: seq<Block>): seq<Block>
    requires 0 <= i <= j <= |bs|
  {
    bs[..i] + mid + bs[j..]
  }

  lemma ReplacedTiles(bs: seq<Block>, brk: int, i: int, j: int, mid: seq<Block>)
    requires Tiles(bs, 16, brk) && 0 <= i < j <= |bs|
    requires Tiles(mid, bs[i].bp, StartAt(bs, j, brk))
    ensures Tiles(Replaced(bs, i, j, mid), 16, brk)
  {
    var top := StartAt(bs, j, brk);
    TilesSlice(bs, 0, i, 16, brk);
    TilesSlice(bs, j, |bs|, 16, brk);
    TilesJoin(bs[..i], mid, 16, bs[i].bp, top);
    TilesJoin(bs[..i] + mid, bs[j..], 16, top, brk);
  }

  lemma ReplacedDoubleWords(bs: seq<Block>, i: int, j: int, mid: seq<Block>)
    requires DoubleWords(bs) && DoubleWords(mid) && 0 <= i <= j <= |bs|
    ensures DoubleWords(Replaced(bs, i, j, mid))
  {
    hide DoubleAligned;
    var r := Replaced(bs, i, j, mid);
    assert forall x :: 0 <= x < i ==> r[x] == bs[x];
    assert forall x :: 0 <= x < |mid| ==> r[i + x] == mid[x];
    assert forall x :: i + |mid| <= x < |r| ==> r[x] == bs[x - i - |mid| + j];
  }

  lemma ReplacedNodes(bs: seq<Block>, brk: int, i: int, j: int, mid: seq<Block>, fl: seq<int>)
    requires Tiles(bs, 16, brk) && 0 <= i < j <= |bs| && fl == Before(bs, i) + From(bs, j)
    ensures Nodes(Replaced(bs, i, j, mid), fl)
  {
    hide Tiles, Before, From;
    var r := Replaced(bs, i, j, mid);
    forall a | a in fl
      ensures IsFree(r, a)
    {
      NodesOutside(bs, brk, i, j, a);
      var x :| (0 <= x < i || j <= x < |bs|) && bs[x].free && bs[x].bp == a;
      if x < i {
        assert r[x] == bs[x];
      } else {
        assert r[x - j + i + |mid|] == bs[x];
      }
    }
  }

  /** Retagging the extent of the blocks i..j as the blocks `mid`. */
  lemma Retag(m: Words, m': Words, bs: seq<Block>, brk: int, i: int, j: int, mid: seq<Block>, fl: seq<int>)
    requires HeapOk(m, bs, brk) && LinkedList(m, fl)
    requires 0 <= i < j <= |bs| && fl == Before(bs, i) + From(bs, j)
    requires Tiles(mid, bs[i].bp, StartAt(bs, j, brk)) && DoubleWords(mid) && Tags(m', mid)
    requires SameOutside(m, m', bs[i].bp - 4, StartAt(bs, j, brk) - 4)
    ensures HeapOk(m', Replaced(bs, i, j, mid), brk)
    ensures LinkedList(m', fl) && Nodes(Replaced(bs, i, j, mid), fl)
  {
    hide Tiles, DoubleWords, DoubleAligned, Tags, Fenced, SameOutside, Links, Spaced, InArena, Before, From;
    ReplacedTiles(bs, brk, i, j, mid);
    ReplacedDoubleWords(bs, i, j, mid);
    ReplacedNodes(bs, brk, i, j, mid, fl);
    ReplaceTags(bs, i, j, mid, 16, brk, m, m');
    forall a | a in fl
      ensures a + 8 <= bs[i].bp - 4 || StartAt(bs, j, brk) - 4 <= a
    {
      NodesOutside(bs, brk, i, j, a);
    }
    LinksOutside(m, m', fl, bs[i].bp - 4, StartAt(bs, j, brk) - 4);
  }

  lemma BeforeBelow(bs: seq<Block>, brk: int, i: int, a: int)
    requires Tiles(bs, 16, brk) && 0 <= i < |bs| && a in Before(bs, i)
    ensures a + 16 <= bs[i].bp
  {
    TilesOrdered(bs, 16, brk);
    FreeAddrsMember(bs[..i], a);
    var x :| 0 <= x < i && bs[..i][x].free && bs[..i][x].bp == a;
    assert bs[x].End() <= bs[i].bp;
  }

  lemma FromAbove(bs: seq<Block>, brk: int, i: int, j: int, a: int)
    requires Tiles(bs, 16, brk) && 0 <= i < j <= |bs| && a in From(bs, j)
    ensures bs[i].bp + 16 <= a
  {
    TilesOrdered(bs, 16, brk);
    FreeAddrsMember(bs[j..], a);
    var x :| 0 <= x < |bs| - j && bs[j..][x].free && bs[j..][x].bp == a;
    assert bs[i].End() <= bs[x + j].bp;
  }

  /** The address order puts block `i` between the free blocks before and after it. */
  lemma PlaceOfBlock(bs: seq<Block>, brk: int, i: int, j: int)
    requires Tiles(bs, 16, brk) && 0 <= i < j <= |bs|
    ensures Slot(Before(bs, i) + From(bs, j), |Before(bs, i)|, bs[i].bp)
  {
    TilesOrdered(bs, 16, brk);
    hide Tiles, Before, From;
    var p, s := Before(bs, i), From(bs, j);
    if p != [] {
      BeforeBelow(bs, brk, i, p[|p| - 1]);
    }
    if s != [] {
      FromAbove(bs, brk, i, j, s[0]);
    }
  }

  /** The memory in which the blocks i..j carry the tags of one free block of `t` bytes. */
  ghost function FusedWords(m: Words, bs: seq<Block>, i: int, j: int, t: int): Words
    requires 0 <= i < j <= |bs|
  {
    m[bs[i].bp - 4 := t][bs[j - 1].bp + bs[j - 1].size - 8 := t]
  }

  /** A run of blocks spans as many bytes as its blocks have together. */
  lemma FusedExtent(m: Words, bs: seq<Block>, brk: int, i: int, j: int)
    requires HeapOk(m, bs, brk) && 0 <= i < j <= |bs|
    ensures var t := Total(bs[i..j]);
      && t == bs[j - 1].bp + bs[j - 1].size - bs[i].bp && 16 <= t <= brk <= MAX_HEAP == 20971520 && DoubleAligned(t)
      && bs[i].bp + t == StartAt(bs, j, brk) && bs[i].bp <= bs[j - 1].bp && DoubleAligned(bs[i].bp)
      && 16 <= bs[j - 1].size && 16 <= bs[i].bp
      && Aligned(bs[i].bp - 4) && Aligned(bs[j - 1].bp + bs[j - 1].size - 8)
      && SizeOf(t) == t == Pack(t, 0)
  {
    hide HeapOk, Tiles, DoubleWords, DoubleAligned, Aligned, Total, Tags, StartAt, SizeOf, AllocOf, Pack, W, Fuse;
    HeapTiles(m, bs, brk);
    FuseTiles(bs, i, j, 16, brk);
    BlockFacts(m, bs, brk, i);
    BlockFacts(m, bs, brk, j - 1);
    if i < j - 1 {
      TilesOrdered(bs, 16, brk);
    }
    DoubleAlignedSum(bs[j - 1].bp, bs[j - 1].size);
    DoubleAlignedSum(bs[j - 1].bp + bs[j - 1].size, bs[i].bp);
    TagFields(Total(bs[i..j]), 0);
    PackFree(Total(bs[i..j]));
  }

  lemma PackFree(size: int)
    ensures Pack(size, 0) == size && Pack(size, 1) == size + 1
  {
  }

  lemma HeapTiles(m: Words, bs: seq<Block>, brk: int)
    requires HeapOk(m, bs, brk)
    ensures Tiles(bs, 16, brk) && DoubleWords(bs) && DoubleAligned(brk)
  {
  }

  lemma FusedTags(m: Words, bs: seq<Block>, brk: int, i: int, j: int)
    requires HeapOk(m, bs, brk) && 0 <= i < j <= |bs|
    ensures var t := Total(bs[i..j]);
      var mid, m' := [Block(bs[i].bp, t, true)], FusedWords(m, bs, i, j, t);
      && Tiles(mid, bs[i].bp, StartAt(bs, j, brk)) && DoubleWords(mid) && Tags(m', mid)
      && SameOutside(m, m', bs[i].bp - 4, StartAt(bs, j, brk) - 4)
  {
    hide HeapOk, Fenced, Aligned, DoubleAligned, Total, StartAt;
    FusedExtent(m, bs, brk, i, j);
  }

  lemma LiveFuse(bs: seq<Block>, i: int, j: int)
    requires 0 <= i < j <= |bs|
    ensures Live(Fuse(bs, i, j)) == Live(bs[..i]) + Live(bs[j..])
    ensures (forall x :: i <= x < j ==> bs[x].free) ==> Live(Fuse(bs, i, j)) == Live(bs)
  {
    var mid := [Block(bs[i].bp, Total(bs[i..j]), true)];
    LiveReplaced(bs, i, j, mid);
    LiveReplaced(bs, i, j, bs[i..j]);
    assert Live(mid) == {};
    if forall x :: i <= x < j ==> bs[x].free {
      assert Live(bs[i..j]) == {};
    }
  }

  /** Words within the extent of the blocks i..j are in no other live payload. */
  lemma ExtentPreserves(m: Words, m': Words, bs: seq<Block>, brk: int, i: int, j: int)
    requires Tiles(bs, 16, brk) && 0 <= i < j <= |bs|
    requires SameOutside(m, m', bs[i].bp - 4, StartAt(bs, j, brk) - 4)
    ensures Preserved(m, m', Live(bs[..i]) + Live(bs[j..]))
  {
    TilesOrdered(bs, 16, brk);
    forall b | b in Live(bs[..i]) + Live(bs[j..])
      ensures Same(m, m', b.bp, b.End() - 8)
    {
      var x :| (0 <= x < i || j <= x < |bs|) && bs[x] == b;
    }
  }

  lemma IsFreeFuse(bs: seq<Block>, i: int, j: int)
    requires 0 <= i < j <= |bs|
    ensures IsFree(Fuse(bs, i, j), bs[i].bp)
  {
    assert Fuse(bs, i, j)[i] == Block(bs[i].bp, Total(bs[i..j]), true);
  }

  lemma ListFused(bs: seq<Block>, i: int, j: int)
    requires 0 <= i < j <= |bs|
    ensures PutAt(Before(bs, i) + From(bs, j), |Before(bs, i)|, bs[i].bp) == FreeAddrs(Fuse(bs, i, j))
  {
    var mid := [Block(bs[i].bp, Total(bs[i..j]), true)];
    ListReplaced(bs, i, j, mid);
    assert mid[1..] == [];
    OmitMiddle(Before(bs, i), bs[i].bp, From(bs, j));
  }

  /** Retagging the blocks i..j, none of which is listed, as one free block:
      afterwards put_block at the list position before it completes the layout. */
  lemma FuseMemory(m: Words, bs: seq<Block>, brk: int, i: int, j: int, fl: seq<int>)
    requires HeapOk(m, bs, brk) && LinkedList(m, fl)
    requires 0 <= i < j <= |bs| && fl == Before(bs, i) + From(bs, j)
    ensures var m' := FusedWords(m, bs, i, j, Total(bs[i..j]));
      && HeapOk(m', Fuse(bs, i, j), brk) && LinkedList(m', fl) && Nodes(Fuse(bs, i, j), fl)
      && Preserved(m, m', Live(Fuse(bs, i, j)))
    ensures IsFree(Fuse(bs, i, j), bs[i].bp)
    ensures Slot(fl, |Before(bs, i)|, bs[i].bp)
    ensures PutAt(fl, |Before(bs, i)|, bs[i].bp) == FreeAddrs(Fuse(bs, i, j))
    ensures (forall x :: i <= x < j ==> bs[x].free) ==> Live(Fuse(bs, i, j)) == Live(bs)
  {
    hide *;
    HeapTiles(m, bs, brk);
    FusedTags(m, bs, brk, i, j);
    FusedIsReplaced(bs, i, j);
    Retag(m, FusedWords(m, bs, i, j, Total(bs[i..j])), bs, brk, i, j, [Block(bs[i].bp, Total(bs[i..j]), true)], fl);
    ExtentPreserves(m, FusedWords(m, bs, i, j, Total(bs[i..j])), bs, brk, i, j);
    LiveFuse(bs, i, j);
    IsFreeFuse(bs, i, j);
    PlaceOfBlock(bs, brk, i, j);
    ListFused(bs, i, j);
  }

  lemma FusedIsReplaced(bs: seq<Block>, i: int, j: int)
    requires 0 <= i < j <= |bs|
    ensures Fuse(bs, i, j) == Replaced(bs, i, j, [Block(bs[i].bp, Total(bs[i..j]), true)])
  {
  }

  /** The list and size of a run of two or three free blocks. */
  lemma RunOfTwo(bs: seq<Block>, i: int)
    requires 0 <= i && i + 2 <= |bs| && bs[i].free && bs[i + 1].free
    ensures FreeAddrs(bs) == Before(bs, i) + ([bs[i].bp] + ([bs[i + 1].bp] + From(bs, i + 2)))
    ensures Total(bs[i..i + 2]) == bs[i].size + bs[i + 1].size
  {
    hide *;
    ListAt(bs, i);
    FromStep(bs, i);
    FromStep(bs, i + 1);
    TotalStep(bs, i, i + 1);
    TotalStep(bs, i, i);
  }

  lemma TotalStep(bs: seq<Block>, i: int, j: int)
    requires 0 <= i <= j < |bs|
    ensures Total(bs[i..j + 1]) == Total(bs[i..j]) + bs[j].size && Total(bs[i..i]) == 0
  {
    assert bs[i..j + 1] == bs[i..j] + [bs[j]];
    TotalConcat(bs[i..j], [bs[j]]);
  }

  lemma RunOfThree(bs: seq<Block>, i: int)
    requires 0 <= i && i + 3 <= |bs| && bs[i].free && bs[i + 1].free && bs[i + 2].free
    ensures FreeAddrs(bs) == Before(bs, i) + ([bs[i].bp] + ([bs[i + 1].bp] + ([bs[i + 2].bp] + From(bs, i + 3))))
    ensures Total(bs[i..i + 3]) == bs[i].size + bs[i + 1].size + bs[i + 2].size
  {
    hide *;
    RunOfTwo(bs, i);
    FromStep(bs, i + 2);
    TotalStep(bs, i, i + 2);
  }

  /** Removing the first of the nodes `a + s` after `p`. */
  lemma RemoveFirst(p: seq<int>, a: int, s: seq<int>)
    ensures (p + ([a] + s))[|p|] == a
    ensures OmitAt(p + ([a] + s), |p|) == p + s
  {
  }

  /** What coalesce leaves behind, by the state of the neighbours. */
  lemma CoalescedCases(bs: seq<Block>, k: int)
    requires 0 <= k < |bs| && NoAdjacentFreeBut(bs, k)
    ensures var p, n := k > 0 && bs[k - 1].free, k + 1 < |bs| && bs[k + 1].free;
      && RunStart(bs, k) == (if p then k - 1 else k) && bs[k].free
      && Normalize(bs) == (
        if !p && !n then bs
        else if !p then Fuse(bs, k, k + 2)
        else if !n then Fuse(bs, k - 1, k + 1)
        else Fuse(bs, k - 1, k + 2))
    ensures NoAdjacentFree(Normalize(bs))
  {
    hide Normalize, NoAdjacentFree, Fuse;
    CoalescedIsNormal(bs, k);
    NormalizeNoAdjacentFree(bs);
    FuseAlone(bs, k);
  }

  lemma FuseAlone(bs: seq<Block>, k: int)
    requires 0 <= k < |bs| && bs[k].free
    ensures Fuse(bs, k, k + 1) == bs
  {
    assert bs[k..k + 1] == [bs[k]];
    assert Total([bs[k]]) == bs[k].size;
  }

  lemma FusedWordsSteps(m: Words, bs: seq<Block>, i: int, j: int, t: int)
    requires 0 <= i < j <= |bs|
    ensures FusedWords(m, bs, i, j, t) == m[bs[i].bp - 4 := t][bs[j - 1].bp + bs[j - 1].size - 8 := t]
  {
  }

  lemma PreservedRefl(m: Words, live: set<Block>)
    ensures Preserved(m, m, live)
  {
  }

  lemma PreservedTrans(m1: Words, m2: Words, m3: Words, live: set<Block>)
    requires Preserved(m1, m2, live) && Preserved(m2, m3, live)
    ensures Preserved(m1, m3, live)
  {
  }

  lemma PreservedSteps(m0: Words, m1: Words, m2: Words, m3: Words, m4: Words, live: set<Block>)
    requires Preserved(m0, m1, live) && Preserved(m1, m2, live) && Preserved(m2, m3, live) && Preserved(m3, m4, live)
    ensures Preserved(m0, m4, live)
  {
    hide Preserved;
    PreservedTrans(m0, m1, m2, live);
    PreservedTrans(m0, m2, m3, live);
    PreservedTrans(m0, m3, m4, live);
  }

  // ----- first fit along the list -----

  /** The position in the layout of the free block that is node `x` of the list. */
  ghost function NodeIndex(bs: seq<Block>, x: int): (k: int)
    requires 0 <= x < |FreeAddrs(bs)|
    ensures 0 <= k < |bs| && bs[k].free && bs[k].bp == FreeAddrs(bs)[x]
  {
    if !bs[0].free then 1 + NodeIndex(bs[1..], x)
    else if x == 0 then 0
    else 1 + NodeIndex(bs[1..], x - 1)
  }

  /** Scanning the list and scanning the whole heap find the same block. */
  lemma {:induction false} ListFirstFit(bs: seq<Block>, n: int, x: int)
    requires 0 <= x <= |FreeAddrs(bs)|
    requires forall y :: 0 <= y < x ==> bs[NodeIndex(bs, y)].size < n
    requires x < |FreeAddrs(bs)| ==> bs[NodeIndex(bs, x)].size >= n
    ensures FirstFit(bs, n) == if x < |FreeAddrs(bs)| then NodeIndex(bs, x) else |bs|
  {
    if bs != [] {
      var r := bs[1..];
      if bs[0].free {
        if x > 0 {
          assert NodeIndex(bs, 0) == 0;
          forall y | 0 <= y < x - 1
            ensures r[NodeIndex(r, y)].size < n
          {
            assert NodeIndex(bs, y + 1) == 1 + NodeIndex(r, y);
          }
          ListFirstFit(r, n, x - 1);
        }
      } else {
        forall y | 0 <= y < x
          ensures r[NodeIndex(r, y)].size < n
        {
          assert NodeIndex(bs, y) == 1 + NodeIndex(r, y);
        }
        ListFirstFit(r, n, x);
      }
    }
  }

  // ----- growing the heap -----

  /** The memory after writing the tags of a free block of `g` bytes at the break, and the new epilogue. */
  ghost function ExtendedWords(m: Words, brk: int, g: int): Words {
    m[brk - 4 := g][brk + g - 8 := g][brk + g - 4 := 1]
  }

  lemma ExtendedWordsSteps(m: Words, brk: int, g: int)
    ensures ExtendedWords(m, brk, g) == m[brk - 4 := g][brk + g - 8 := g][brk + g - 4 := 1]
  {
  }

  lemma BreakFacts(m: Words, bs: seq<Block>, brk: int, g: int)
    requires HeapOk(m, bs, brk) && 16 <= g && DoubleAligned(g) && brk + g <= MAX_HEAP
    ensures Aligned(brk - 4) && Aligned(brk + g - 8) && Aligned(brk + g - 4)
    ensures 16 <= brk && SizeOf(g) == g == Pack(g, 0) && Pack(0, 1) == 1 && MAX_HEAP == 20971520
  {
    TilesOrdered(bs, 16, brk);
    hide Tiles, Tags, Fenced, DoubleWords;
    DoubleAlignedSum(brk, g);
    DoubleWordAligned(brk);
    DoubleWordAligned(brk + g);
    DoubleWordAligned(brk + g - 8);
    TagFields(g, 0);
  }

  lemma ExtendTags(m: Words, bs: seq<Block>, brk: int, g: int)
    requires Tiles(bs, 16, brk) && Tags(m, bs) && Fenced(m, 16, brk) && 16 <= g
    ensures Tags(ExtendedWords(m, brk, g), bs + [Block(brk, g, true)])
    ensures Fenced(ExtendedWords(m, brk, g), 16, brk + g)
    ensures Preserved(m, ExtendedWords(m, brk, g), Live(bs))
  {
    hide Tiles;
    ExtendOutside(m, brk, g);
    BelowBreak(bs, brk);
    var m' := ExtendedWords(m, brk, g);
    forall i | 0 <= i < |bs|
      ensures Tagged(m', bs[i])
    {
      assert Tagged(m, bs[i]);
    }
    ExtendedEnds(m, brk, g);
    hide ExtendedWords;
    forall b | b in Live(bs)
      ensures Same(m, m', b.bp, b.End() - 8)
    {
      var i :| 0 <= i < |bs| && bs[i] == b;
    }
  }

  lemma BelowBreak(bs: seq<Block>, brk: int)
    requires Tiles(bs, 16, brk)
    ensures 16 <= brk && forall i :: 0 <= i < |bs| ==> 16 <= bs[i].bp && 16 <= bs[i].size && bs[i].End() <= brk
  {
    TilesOrdered(bs, 16, brk);
  }

  lemma ExtendedEnds(m: Words, brk: int, g: int)
    requires 16 <= g && 16 <= brk && W(m, 4) == W(m, 8) == 9
    ensures var m' := ExtendedWords(m, brk, g);
      W(m', brk - 4) == g == W(m', brk + g - 8) && W(m', brk + g - 4) == 1 && W(m', 4) == 9 == W(m', 8)
  {
  }

  lemma ExtendOutside(m: Words, brk: int, g: int)
    requires 16 <= g
    ensures SameOutside(m, ExtendedWords(m, brk, g), brk - 4, brk + g)
  {
  }

  lemma NodesBelow(bs: seq<Block>, brk: int, fl: seq<int>, b: Block)
    requires Tiles(bs, 16, brk) && Nodes(bs, fl)
    ensures forall a :: a in fl ==> a + 16 <= brk
    ensures Nodes(bs + [b], fl)
  {
    TilesOrdered(bs, 16, brk);
    forall a | a in fl
      ensures a + 16 <= brk && IsFree(bs + [b], a)
    {
      var i :| 0 <= i < |bs| && bs[i].free && bs[i].bp == a;
      assert (bs + [b])[i] == bs[i];
    }
  }

  lemma ExtendLinks(m: Words, bs: seq<Block>, brk: int, g: int, fl: seq<int>)
    requires Tiles(bs, 16, brk) && LinkedList(m, fl) && Nodes(bs, fl) && 16 <= g
    ensures LinkedList(ExtendedWords(m, brk, g), fl) && Nodes(bs + [Block(brk, g, true)], fl)
    ensures fl != [] ==> fl[|fl| - 1] + 16 <= brk
  {
    hide Tiles, Nodes, Links, Spaced, InArena, ExtendedWords, SameOutside;
    NodesBelow(bs, brk, fl, Block(brk, g, true));
    ExtendOutside(m, brk, g);
    LinksOutside(m, ExtendedWords(m, brk, g), fl, brk - 4, brk + g);
    if fl != [] {
      assert fl[|fl| - 1] in fl;
    }
  }

  lemma ExtendList(bs: seq<Block>, brk: int, g: int)
    ensures var bs' := bs + [Block(brk, g, true)];
      && FreeAddrs(bs') == FreeAddrs(bs) + [brk] && IsFree(bs', brk) && Live(bs') == Live(bs)
      && PutAt(FreeAddrs(bs), |FreeAddrs(bs)|, brk) == FreeAddrs(bs')
  {
    var b := Block(brk, g, true);
    FreeAddrsConcat(bs, [b]);
    assert [b][1..] == [];
    assert (bs + [b])[|bs|] == b;
  }

  lemma ExtendTiles(bs: seq<Block>, brk: int, g: int)
    requires Tiles(bs, 16, brk) && 16 <= g
    ensures Tiles(bs + [Block(brk, g, true)], 16, brk + g) && 16 <= brk
  {
    TilesJoin(bs, [Block(brk, g, true)], 16, brk, brk + g);
    TilesOrdered(bs, 16, brk);
  }

  lemma ExtendDoubleWords(bs: seq<Block>, brk: int, g: int)
    requires DoubleWords(bs) && DoubleAligned(brk) && DoubleAligned(g)
    ensures DoubleWords(bs + [Block(brk, g, true)]) && DoubleAligned(brk + g)
  {
    DoubleAlignedSum(brk, g);
  }

  lemma ExtendNoAdjacentFree(bs: seq<Block>, brk: int, g: int)
    requires NoAdjacentFree(bs)
    ensures NoAdjacentFreeBut(bs + [Block(brk, g, true)], |bs|)
  {
    var bs' := bs + [Block(brk, g, true)];
    assert bs'[..|bs|] == bs && bs'[|bs| + 1..] == [];
  }

  lemma FoldHeap(m: Words, bs: seq<Block>, brk: int)
    requires Tiles(bs, 16, brk) && DoubleWords(bs) && DoubleAligned(brk) && brk <= MAX_HEAP
    requires Tags(m, bs) && Fenced(m, 16, brk)
    ensures HeapOk(m, bs, brk)
  {
  }

  lemma UnfoldHeap(m: Words, bs: seq<Block>, brk: int)
    requires HeapOk(m, bs, brk)
    ensures Tiles(bs, 16, brk) && DoubleWords(bs) && DoubleAligned(brk) && brk <= MAX_HEAP
    ensures Tags(m, bs) && Fenced(m, 16, brk)
  {
  }

  lemma PlaceLast(fl: seq<int>, a: int)
    requires 16 <= a && (fl != [] ==> fl[|fl| - 1] + 16 <= a)
    ensures Slot(fl, |fl|, a)
  {
  }

  /** Tagging a new free block at the break and moving the epilogue behind it. */
  lemma ExtendMemory(m: Words, bs: seq<Block>, brk: int, g: int, fl: seq<int>)
    requires HeapOk(m, bs, brk) && LinkedList(m, fl) && fl == FreeAddrs(bs) && Nodes(bs, fl) && NoAdjacentFree(bs)
    requires 16 <= g && DoubleAligned(g) && brk + g <= MAX_HEAP
    ensures var m', bs' := ExtendedWords(m, brk, g), bs + [Block(brk, g, true)];
      && HeapOk(m', bs', brk + g) && LinkedList(m', fl) && Nodes(bs', fl)
      && Preserved(m, m', Live(bs)) && Live(bs') == Live(bs)
      && IsFree(bs', brk) && Slot(fl, |fl|, brk) && PutAt(fl, |fl|, brk) == FreeAddrs(bs')
      && NoAdjacentFreeBut(bs', |bs|)
  {
    hide *;
    UnfoldHeap(m, bs, brk);
    ExtendTags(m, bs, brk, g);
    ExtendLinks(m, bs, brk, g, fl);
    ExtendList(bs, brk, g);
    ExtendTiles(bs, brk, g);
    ExtendDoubleWords(bs, brk, g);
    ExtendNoAdjacentFree(bs, brk, g);
    FoldHeap(ExtendedWords(m, brk, g), bs + [Block(brk, g, true)], brk + g);
    PlaceLast(fl, brk);
  }
}
