/** The heap of mm.c seen as a sequence of blocks in address order, and the
    allocator's requests as functions on such sequences.

    A block is named by its payload pointer `bp`; it occupies the `size` bytes
    from its header at bp - 4 up to the header of the next block. */
module Layout {
  import opened Memory

  datatype Block = Block(bp: int, size: int, free: bool) {
    function End(): int {
      bp + size
    }
  }

  /** The blocks follow each other without gap from `lo` to `hi`, each of a legal size. */
  ghost predicate Tiles(bs: seq<Block>, lo: int, hi: int) {
    && (bs == [] ==> lo == hi)
    && (bs != [] ==> bs[0].bp == lo && bs[|bs| - 1].End() == hi)
    && (forall i :: 0 <= i < |bs| ==> bs[i].size >= 16)
    && (forall i, j :: 0 <= i && j == i + 1 && j < |bs| ==> bs[j].bp == bs[i].End())
  }

  /** Payload pointers and sizes are multiples of 8. */
  ghost predicate DoubleWords(bs: seq<Block>) {
    forall i :: 0 <= i < |bs| ==> DoubleAligned(bs[i].bp) && DoubleAligned(bs[i].size)
  }

  ghost predicate NoAdjacentFree(bs: seq<Block>) {
    forall i, j :: 0 <= i && j == i + 1 && j < |bs| ==> !(bs[i].free && bs[j].free)
  }

  ghost function Total(bs: seq<Block>): int {
    if bs == [] then 0 else bs[0].size + Total(bs[1..])
  }

  /** Blocks are ordered and inside the bounds. */
  lemma {:induction false} TilesOrdered(bs: seq<Block>, lo: int, hi: int)
    requires Tiles(bs, lo, hi)
    ensures lo <= hi
    ensures forall i :: 0 <= i < |bs| ==> lo <= bs[i].bp && bs[i].End() <= hi
    ensures forall i, j :: 0 <= i < j < |bs| ==> bs[i].End() <= bs[j].bp
    decreases |bs|
  {
    if bs != [] {
      var n := |bs| - 1;
      var init := bs[..n];
      TilesOrdered(init, lo, bs[n].bp);
      assert forall i :: 0 <= i < n ==> init[i] == bs[i];
      assert forall i :: 0 <= i < n ==> init[i].End() <= bs[n].bp;
    }
  }

  /** Where block `i` starts, `hi` for the index past the last block. */
  ghost function StartAt(bs: seq<Block>, i: int, hi: int): int
    requires 0 <= i <= |bs|
  {
    if i < |bs| then bs[i].bp else hi
  }

  lemma TilesSlice(bs: seq<Block>, i: int, j: int, lo: int, hi: int)
    requires Tiles(bs, lo, hi) && 0 <= i <= j <= |bs|
    ensures Tiles(bs[i..j], StartAt(bs, i, hi), StartAt(bs, j, hi))
  {
    var r := bs[i..j];
    assert forall x :: 0 <= x < |r| ==> r[x] == bs[i + x];
    if r != [] && j < |bs| {
      assert bs[j].bp == bs[j - 1].End();
    }
  }

  lemma TilesJoin(a: seq<Block>, b: seq<Block>, lo: int, mid: int, hi: int)
    requires Tiles(a, lo, mid) && Tiles(b, mid, hi)
    ensures Tiles(a + b, lo, hi)
  {
    var r := a + b;
    assert forall x :: 0 <= x < |a| ==> r[x] == a[x];
    assert forall x :: |a| <= x < |r| ==> r[x] == b[x - |a|];
    forall x, y | 0 <= x && y == x + 1 && y < |r|
      ensures r[y].bp == r[x].End()
    {
    }
  }

  lemma NoAdjacentFreeSlice(bs: seq<Block>, i: int, j: int)
    requires NoAdjacentFree(bs) && 0 <= i <= j <= |bs|
    ensures NoAdjacentFree(bs[i..j])
  {
    var r := bs[i..j];
    assert forall x :: 0 <= x < |r| ==> r[x] == bs[i + x];
  }

  lemma NoAdjacentFreeJoin(a: seq<Block>, b: seq<Block>)
    requires NoAdjacentFree(a) && NoAdjacentFree(b)
    requires a != [] && b != [] ==> !(a[|a| - 1].free && b[0].free)
    ensures NoAdjacentFree(a + b)
  {
    var r := a + b;
    assert forall x :: 0 <= x < |a| ==> r[x] == a[x];
    assert forall x :: |a| <= x < |r| ==> r[x] == b[x - |a|];
    forall x, y | 0 <= x && y == x + 1 && y < |r|
      ensures !(r[x].free && r[y].free)
    {
    }
  }

  lemma {:induction false} TotalConcat(a: seq<Block>, b: seq<Block>)
    ensures Total(a + b) == Total(a) + Total(b)
  {
    if a == [] {
      assert a + b == b;
    } else {
      assert (a + b)[1..] == a[1..] + b;
      TotalConcat(a[1..], b);
    }
  }

  /** Conservation: the block sizes add up to the tiled extent. */
  lemma {:induction false} TilesTotal(bs: seq<Block>, lo: int, hi: int)
    requires Tiles(bs, lo, hi)
    ensures Total(bs) == hi - lo
  {
    if bs != [] {
      TilesTotal(bs[1..], bs[0].End(), hi);
    }
  }

  // ----- the normal form of a layout -----

  /** Puts `b` in front of `rest`, merging it with a free neighbour. */
  ghost function Cons(b: Block, rest: seq<Block>): seq<Block> {
    if b.free && rest != [] && rest[0].free
    then [Block(b.bp, b.size + rest[0].size, true)] + rest[1..]
    else [b] + rest
  }

  /** The layout with every maximal run of free blocks merged into one block. */
  ghost function Normalize(bs: seq<Block>): seq<Block> {
    if bs == [] then [] else Cons(bs[0], Normalize(bs[1..]))
  }

  lemma ConsTiles(b: Block, rest: seq<Block>, lo: int, hi: int)
    requires Tiles(rest, b.End(), hi) && b.bp == lo && b.size >= 16
    ensures Tiles(Cons(b, rest), lo, hi)
  {
    if b.free && rest != [] && rest[0].free {
      TilesSlice(rest, 1, |rest|, b.End(), hi);
      TilesJoin([Block(b.bp, b.size + rest[0].size, true)], rest[1..], lo, StartAt(rest, 1, hi), hi);
    } else {
      TilesJoin([b], rest, lo, b.End(), hi);
    }
  }

  lemma ConsNoAdjacentFree(b: Block, rest: seq<Block>)
    requires NoAdjacentFree(rest)
    ensures NoAdjacentFree(Cons(b, rest))
  {
    if b.free && rest != [] && rest[0].free {
      NoAdjacentFreeSlice(rest, 1, |rest|);
      NoAdjacentFreeJoin([Block(b.bp, b.size + rest[0].size, true)], rest[1..]);
    } else {
      NoAdjacentFreeJoin([b], rest);
    }
  }

  lemma {:induction false} NormalizeTiles(bs: seq<Block>, lo: int, hi: int)
    requires Tiles(bs, lo, hi)
    ensures Tiles(Normalize(bs), lo, hi)
  {
    if bs != [] {
      TilesSlice(bs, 1, |bs|, lo, hi);
      NormalizeTiles(bs[1..], bs[0].End(), hi);
      ConsTiles(bs[0], Normalize(bs[1..]), lo, hi);
    }
  }

  lemma {:induction false} NormalizeNoAdjacentFree(bs: seq<Block>)
    ensures NoAdjacentFree(Normalize(bs))
  {
    if bs != [] {
      NormalizeNoAdjacentFree(bs[1..]);
      ConsNoAdjacentFree(bs[0], Normalize(bs[1..]));
    }
  }

  lemma {:induction false} NormalizeFixed(bs: seq<Block>)
    requires NoAdjacentFree(bs)
    ensures Normalize(bs) == bs
  {
    if bs != [] {
      NoAdjacentFreeSlice(bs, 1, |bs|);
      NormalizeFixed(bs[1..]);
    }
  }

  /** Normalising a suffix first changes nothing. */
  lemma {:induction false} NormalizeSuffix(a: seq<Block>, b: seq<Block>, b': seq<Block>)
    requires Normalize(b) == Normalize(b')
    ensures Normalize(a + b) == Normalize(a + b')
  {
    if a == [] {
      assert a + b == b && a + b' == b';
    } else {
      assert (a + b)[1..] == a[1..] + b && (a + b')[1..] == a[1..] + b';
      NormalizeSuffix(a[1..], b, b');
    }
  }

  // ----- coalescing -----

  /** Replaces the blocks i..j by one free block. */
  ghost function Fuse(bs: seq<Block>, i: int, j: int): (r: seq<Block>)
    requires 0 <= i < j <= |bs|
  {
    bs[..i] + [Block(bs[i].bp, Total(bs[i..j]), true)] + bs[j..]
  }

  lemma FuseParts(bs: seq<Block>, i: int, j: int)
    requires 0 <= i < j <= |bs|
    ensures bs == bs[..i] + (bs[i..j] + bs[j..])
    ensures Fuse(bs, i, j) == bs[..i] + ([Block(bs[i].bp, Total(bs[i..j]), true)] + bs[j..])
  {
  }

  /** The blocks i..j as one block over the same extent. */
  lemma RunTiles(bs: seq<Block>, i: int, j: int, lo: int, hi: int)
    requires Tiles(bs, lo, hi) && 0 <= i < j <= |bs|
    ensures StartAt(bs, i, hi) == bs[i].bp && (i == 0 ==> bs[i].bp == lo) && (j == |bs| ==> StartAt(bs, j, hi) == hi)
    ensures StartAt(bs, 0, hi) == lo && StartAt(bs, |bs|, hi) == hi
    ensures Total(bs[i..j]) == bs[j - 1].End() - bs[i].bp == StartAt(bs, j, hi) - bs[i].bp
    ensures Tiles([Block(bs[i].bp, Total(bs[i..j]), true)], bs[i].bp, StartAt(bs, j, hi))
  {
    var run := bs[i..j];
    TilesSlice(bs, i, j, lo, hi);
    TilesTotal(run, bs[i].bp, StartAt(bs, j, hi));
    TilesOrdered(run, bs[i].bp, StartAt(bs, j, hi));
    assert run[0] == bs[i] && run[j - i - 1] == bs[j - 1];
  }

  lemma FuseTiles(bs: seq<Block>, i: int, j: int, lo: int, hi: int)
    requires Tiles(bs, lo, hi) && 0 <= i < j <= |bs|
    ensures Tiles(Fuse(bs, i, j), lo, hi)
    ensures Total(bs[i..j]) == bs[j - 1].End() - bs[i].bp
  {
    hide Tiles, Total;
    var top := StartAt(bs, j, hi);
    TilesSlice(bs, 0, i, lo, hi);
    TilesSlice(bs, j, |bs|, lo, hi);
    RunTiles(bs, i, j, lo, hi);
    var fused := [Block(bs[i].bp, Total(bs[i..j]), true)];
    assert bs[0..i] == bs[..i] && bs[j..|bs|] == bs[j..];
    TilesJoin(bs[..i], fused, lo, bs[i].bp, top);
    TilesJoin(bs[..i] + fused, bs[j..], lo, top, hi);
  }

  /** First and last-plus-one index of the free run around block `k`. */
  ghost function RunStart(bs: seq<Block>, k: int): int
    requires 0 <= k < |bs|
  {
    if k > 0 && bs[k - 1].free then k - 1 else k
  }

  ghost function RunEnd(bs: seq<Block>, k: int): int
    requires 0 <= k < |bs|
  {
    if k + 1 < |bs| && bs[k + 1].free then k + 2 else k + 1
  }

  /** What coalesce does to the layout when block `k` has just become free. */
  ghost function Coalesced(bs: seq<Block>, k: int): seq<Block>
    requires 0 <= k < |bs|
  {
    Fuse(bs, RunStart(bs, k), RunEnd(bs, k))
  }

  ghost predicate NoAdjacentFreeBut(bs: seq<Block>, k: int)
    requires 0 <= k < |bs|
  {
    bs[k].free && NoAdjacentFree(bs[..k]) && NoAdjacentFree(bs[k + 1..])
  }

  /** The blocks outside the fused run: no two adjacent ones are free, and none next to the run is. */
  lemma RunIsMaximal(bs: seq<Block>, k: int)
    requires 0 <= k < |bs| && NoAdjacentFreeBut(bs, k)
    ensures var i, j := RunStart(bs, k), RunEnd(bs, k);
            && NoAdjacentFree(bs[..i]) && NoAdjacentFree(bs[j..])
            && (i > 0 ==> !bs[i - 1].free) && (j < |bs| ==> !bs[j].free)
            && forall x :: i <= x < j ==> bs[x].free
  {
    var i, j := RunStart(bs, k), RunEnd(bs, k);
    var left, right := bs[..k], bs[k + 1..];
    NoAdjacentFreeSlice(left, 0, i);
    assert left[..i] == bs[..i];
    NoAdjacentFreeSlice(right, j - k - 1, |right|);
    assert right[j - k - 1..] == bs[j..];
    if i > 0 && i == k - 1 {
      assert left[i - 1] == bs[i - 1] && left[i] == bs[i];
    }
    if j < |bs| && j == k + 2 {
      assert right[0] == bs[k + 1] && right[1] == bs[j];
    }
  }

  /** A run of free blocks before an allocated block collapses to one. */
  lemma {:induction false} RunNormal(run: seq<Block>, tail: seq<Block>)
    requires run != [] && forall i :: 0 <= i < |run| ==> run[i].free
    requires tail != [] ==> !tail[0].free
    requires NoAdjacentFree(tail)
    ensures Normalize(run + tail) == [Block(run[0].bp, Total(run), true)] + tail
  {
    hide NoAdjacentFree, Normalize, Total, Cons;
    NormalizeFront(run, tail);
    TotalFront(run);
    if |run| == 1 {
      NormalizeFixed(tail);
      ConsFront(run[0], tail);
    } else {
      RunNormal(run[1..], tail);
      ConsMerges(run[0], Block(run[1].bp, Total(run[1..]), true), tail);
    }
  }

  lemma NormalizeFront(run: seq<Block>, tail: seq<Block>)
    requires run != []
    ensures Normalize(run + tail) == Cons(run[0], Normalize(if |run| == 1 then tail else run[1..] + tail))
  {
    assert (run + tail)[1..] == run[1..] + tail;
    assert |run| == 1 ==> run[1..] + tail == tail;
  }

  lemma TotalFront(bs: seq<Block>)
    requires bs != []
    ensures Total(bs) == bs[0].size + (if |bs| == 1 then 0 else Total(bs[1..]))
  {
  }

  lemma ConsFront(b: Block, tail: seq<Block>)
    requires b.free && (tail != [] ==> !tail[0].free)
    ensures Cons(b, tail) == [Block(b.bp, b.size, true)] + tail
  {
  }

  lemma ConsMerges(b: Block, c: Block, tail: seq<Block>)
    requires b.free && c.free
    ensures Cons(b, [c] + tail) == [Block(b.bp, b.size + c.size, true)] + tail
  {
    assert ([c] + tail)[1..] == tail;
  }

  /** ... and so it does after any layout that is already normal. */
  lemma NormalizeRun(head: seq<Block>, run: seq<Block>, tail: seq<Block>)
    requires run != [] && forall i :: 0 <= i < |run| ==> run[i].free
    requires NoAdjacentFree(head) && NoAdjacentFree(tail)
    requires (head != [] ==> !head[|head| - 1].free) && (tail != [] ==> !tail[0].free)
    ensures Normalize(head + (run + tail)) == head + ([Block(run[0].bp, Total(run), true)] + tail)
  {
    var fused := [Block(run[0].bp, Total(run), true)];
    RunNormal(run, tail);
    NoAdjacentFreeJoin(fused, tail);
    NormalizeFixed(fused + tail);
    NormalizeSuffix(head, run + tail, fused + tail);
    NoAdjacentFreeJoin(head, fused + tail);
    NormalizeFixed(head + (fused + tail));
  }

  /** Four-case boundary-tag coalescing computes the normal form. */
  lemma CoalescedIsNormal(bs: seq<Block>, k: int)
    requires 0 <= k < |bs| && NoAdjacentFreeBut(bs, k)
    ensures Coalesced(bs, k) == Normalize(bs)
  {
    hide Fuse, Normalize, NoAdjacentFree, Total;
    RunIsMaximal(bs, k);
    var i, j := RunStart(bs, k), RunEnd(bs, k);
    CutRun(bs, i, j);
    hide NoAdjacentFreeBut, RunStart, RunEnd;
    NormalizeRun(bs[..i], bs[i..j], bs[j..]);
    FuseParts(bs, i, j);
  }

  lemma CutRun(bs: seq<Block>, i: int, j: int)
    requires 0 <= i < j <= |bs|
    requires (i > 0 ==> !bs[i - 1].free) && (j < |bs| ==> !bs[j].free)
    requires forall x :: i <= x < j ==> bs[x].free
    ensures var head, run, tail := bs[..i], bs[i..j], bs[j..];
      && run != [] && run[0] == bs[i] && (forall x :: 0 <= x < |run| ==> run[x].free)
      && (head != [] ==> !head[|head| - 1].free) && (tail != [] ==> !tail[0].free)
  {
  }

  // ----- the free list of a layout -----

  /** The payload pointers of the free blocks, in address order. */
  ghost function FreeAddrs(bs: seq<Block>): seq<int> {
    if bs == [] then [] else (if bs[0].free then [bs[0].bp] else []) + FreeAddrs(bs[1..])
  }

  lemma {:induction false} FreeAddrsConcat(a: seq<Block>, b: seq<Block>)
    ensures FreeAddrs(a + b) == FreeAddrs(a) + FreeAddrs(b)
  {
    if a == [] {
      assert a + b == b;
    } else {
      var h := if a[0].free then [a[0].bp] else [];
      assert (a + b)[1..] == a[1..] + b && (a + b)[0] == a[0];
      FreeAddrsConcat(a[1..], b);
      assert FreeAddrs(a + b) == h + FreeAddrs(a[1..] + b);
      assert h + (FreeAddrs(a[1..]) + FreeAddrs(b)) == (h + FreeAddrs(a[1..])) + FreeAddrs(b);
    }
  }

  lemma {:induction false} FreeAddrsMember(bs: seq<Block>, a: int)
    ensures a in FreeAddrs(bs) <==> exists i :: 0 <= i < |bs| && bs[i].free && bs[i].bp == a
  {
    if bs != [] {
      var r := bs[1..];
      FreeAddrsMember(r, a);
      if a in FreeAddrs(bs) && !(bs[0].free && bs[0].bp == a) {
        var i :| 0 <= i < |r| && r[i].free && r[i].bp == a;
        assert bs[i + 1].free && bs[i + 1].bp == a;
      }
      if i :| 0 <= i < |bs| && bs[i].free && bs[i].bp == a && i > 0 {
        assert r[i - 1].free && r[i - 1].bp == a;
      }
    }
  }

  // ----- allocation requests -----

  predicate Fits(b: Block, n: int) {
    b.free && b.size >= n
  }

  /** Linear first-fit scan over all blocks, the number of blocks when none fits. */
  ghost function FirstFit(bs: seq<Block>, n: int): (k: int)
    ensures 0 <= k <= |bs|
    ensures k < |bs| ==> Fits(bs[k], n)
    ensures forall i :: 0 <= i < k ==> !Fits(bs[i], n)
  {
    if bs == [] || Fits(bs[0], n) then 0
    else
      var k := FirstFit(bs[1..], n);
      assert forall i :: 0 < i < k + 1 ==> bs[i] == bs[1..][i - 1];
      k + 1
  }

  /** The pieces of a free block of which `n` bytes are used: all of it, or two blocks. */
  ghost function CarvedPieces(b: Block, n: int): seq<Block> {
    if b.size - n < 16 then [Block(b.bp, b.size, false)]
    else [Block(b.bp, n, false), Block(b.bp + n, b.size - n, true)]
  }

  /** What place does to the layout. */
  ghost function Carve(bs: seq<Block>, k: int, n: int): (r: seq<Block>)
    requires 0 <= k < |bs|
  {
    bs[..k] + CarvedPieces(bs[k], n) + bs[k + 1..]
  }

  lemma CarveTiles(bs: seq<Block>, k: int, n: int, lo: int, hi: int)
    requires Tiles(bs, lo, hi)
    requires 0 <= k < |bs| && Fits(bs[k], n) && n >= 16
    ensures Tiles(Carve(bs, k, n), lo, hi)
  {
    hide Tiles, CarvedPieces;
    var b, top := bs[k], StartAt(bs, k + 1, hi);
    RunTiles(bs, k, k + 1, lo, hi);
    TilesSlice(bs, 0, k, lo, hi);
    TilesSlice(bs, k + 1, |bs|, lo, hi);
    assert bs[0..k] == bs[..k] && bs[k + 1..|bs|] == bs[k + 1..];
    var mid := CarvedPieces(b, n);
    PiecesTile(b, n);
    TilesJoin(bs[..k], mid, lo, b.bp, top);
    TilesJoin(bs[..k] + mid, bs[k + 1..], lo, top, hi);
  }

  lemma PiecesTile(b: Block, n: int)
    requires 16 <= n <= b.size
    ensures Tiles(CarvedPieces(b, n), b.bp, b.End())
  {
  }

  lemma CarveNoAdjacentFree(bs: seq<Block>, k: int, n: int)
    requires NoAdjacentFree(bs) && 0 <= k < |bs| && bs[k].free
    ensures NoAdjacentFree(Carve(bs, k, n))
  {
    NoAdjacentFreeSlice(bs, 0, k);
    NoAdjacentFreeSlice(bs, k + 1, |bs|);
    var mid := CarvedPieces(bs[k], n);
    NoAdjacentFreeJoin(bs[..k], mid);
    NoAdjacentFreeJoin(bs[..k] + mid, bs[k + 1..]);
  }

  /** How far mm_malloc moves the break when no block of `n` bytes is free. */
  function Growth(bs: seq<Block>, n: int): int {
    var extend := n - (if bs != [] && bs[|bs| - 1].free then bs[|bs| - 1].size else 0);
    if extend < 16 then 16 else extend
  }

  /** The layout after the break moved up by `g` bytes. */
  ghost function Grown(bs: seq<Block>, brk: int, g: int): seq<Block> {
    Normalize(bs + [Block(brk, g, true)])
  }

  lemma GrownShape(bs: seq<Block>, lo: int, brk: int, g: int)
    requires Tiles(bs, lo, brk) && NoAdjacentFree(bs) && g >= 16
    ensures Coalesced(bs + [Block(brk, g, true)], |bs|) == Grown(bs, brk, g)
    ensures Tiles(Grown(bs, brk, g), lo, brk + g) && NoAdjacentFree(Grown(bs, brk, g))
    ensures var last := bs != [] && bs[|bs| - 1].free;
            Grown(bs, brk, g) ==
            if last then bs[..|bs| - 1] + [Block(bs[|bs| - 1].bp, bs[|bs| - 1].size + g, true)]
            else bs + [Block(brk, g, true)]
  {
    hide Tiles, NoAdjacentFree, Normalize, Coalesced;
    var x := bs + [Block(brk, g, true)];
    TilesSingle(brk, g);
    TilesJoin(bs, [Block(brk, g, true)], lo, brk, brk + g);
    NormalizeTiles(x, lo, brk + g);
    NormalizeNoAdjacentFree(x);
    GrownIs(bs, brk, g);
  }

  lemma TilesSingle(brk: int, g: int)
    requires g >= 16
    ensures Tiles([Block(brk, g, true)], brk, brk + g)
  {
  }

  lemma GrownIs(bs: seq<Block>, brk: int, g: int)
    requires NoAdjacentFree(bs)
    ensures Coalesced(bs + [Block(brk, g, true)], |bs|) == Grown(bs, brk, g)
    ensures var last := bs != [] && bs[|bs| - 1].free;
            Grown(bs, brk, g) ==
            if last then bs[..|bs| - 1] + [Block(bs[|bs| - 1].bp, bs[|bs| - 1].size + g, true)]
            else bs + [Block(brk, g, true)]
  {
    hide Normalize, NoAdjacentFree;
    var n := |bs|;
    var x := bs + [Block(brk, g, true)];
    ExtendedSlices(bs, Block(brk, g, true));
    AppendBut(bs, Block(brk, g, true));
    CoalescedIsNormal(x, n);
    if bs != [] && bs[n - 1].free {
      assert Total(x[n - 1..n + 1]) == bs[n - 1].size + g by {
        assert x[n - 1..n + 1] == [bs[n - 1]] + [Block(brk, g, true)];
        TotalConcat([bs[n - 1]], [Block(brk, g, true)]);
      }
      assert x[..n - 1] == bs[..n - 1];
    } else {
      assert x[n..n + 1] == [Block(brk, g, true)];
      assert [Block(brk, g, true)][1..] == [];
      assert Total(x[n..n + 1]) == g;
    }
  }

  lemma ExtendedSlices(bs: seq<Block>, b: Block)
    ensures var x := bs + [b]; x[..|bs|] == bs && x[|bs| + 1..] == [] && x[|bs|] == b
  {
  }

  lemma AppendBut(bs: seq<Block>, b: Block)
    requires NoAdjacentFree(bs) && b.free
    ensures NoAdjacentFreeBut(bs + [b], |bs|)
  {
    ExtendedSlices(bs, b);
  }

  /** Where the new free space begins once it is merged. */
  lemma GrownEnds(bs: seq<Block>, brk: int, g: int)
    requires NoAdjacentFree(bs)
    ensures var x, r := bs + [Block(brk, g, true)], Grown(bs, brk, g);
      r == Normalize(x) && r != [] && r[|r| - 1].bp == x[RunStart(x, |bs|)].bp
      && x[|bs|].bp == brk
  {
    var x := bs + [Block(brk, g, true)];
    assert x[..|bs|] == bs && x[|bs| + 1..] == [];
    CoalescedIsNormal(x, |bs|);
  }
}
