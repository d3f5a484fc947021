/** Memory-level facts behind place: carving an allocated block out of a free one. */
module Placement {
  import A = Arithmetic
  import opened Memory
  import opened FreeList
  import opened Layout
  import opened BoundaryTags
  import opened Coalescing

  /** The tag words of the pieces of `b` of which `n` bytes are used. */
  ghost function CarvedWords(m: Words, b: Block, n: int): Words {
    if b.size - n < 16
    then m[b.bp - 4 := b.size + 1][b.bp + b.size - 8 := b.size + 1]
    else m[b.bp - 4 := n + 1][b.bp + n - 8 := n + 1][b.bp + n - 4 := b.size - n][b.bp + b.size - 8 := b.size - n]
  }

  lemma CarvedWordsSteps(m: Words, b: Block, n: int)
    ensures b.size - n < 16 ==>
      CarvedWords(m, b, n) == m[b.bp - 4 := b.size + 1][b.bp + b.size - 8 := b.size + 1]
    ensures b.size - n >= 16 ==>
      CarvedWords(m, b, n) ==
      m[b.bp - 4 := n + 1][b.bp + n - 8 := n + 1][b.bp + n - 4 := b.size - n][b.bp + b.size - 8 := b.size - n]
  {
  }

  lemma CarvedTags(m: Words, b: Block, n: int)
    requires 16 <= n <= b.size
    ensures Tags(CarvedWords(m, b, n), CarvedPieces(b, n))
    ensures SameOutside(m, CarvedWords(m, b, n), b.bp - 4, b.bp + b.size - 4)
    ensures Tiles(CarvedPieces(b, n), b.bp, b.bp + b.size)
  {
  }

  lemma CarvedDoubleWords(b: Block, n: int)
    requires DoubleAligned(b.bp) && DoubleAligned(b.size) && DoubleAligned(n)
    ensures DoubleWords(CarvedPieces(b, n))
  {
    DoubleAlignedSum(b.bp, n);
    DoubleAlignedSum(b.size, n);
  }

  lemma AlignedBelow(a: int, brk: int)
    requires DoubleAligned(a) && 8 <= a <= brk <= MAX_HEAP
    ensures Aligned(a - 8) && Aligned(a - 4)
  {
    A.Rem4(a / 8);
  }

  /** The values place writes and where it reads them back. */
  lemma CarveFacts(m: Words, bs: seq<Block>, brk: int, k: int, n: int)
    requires HeapOk(m, bs, brk) && 0 <= k < |bs| && 16 <= n <= bs[k].size && DoubleAligned(n)
    ensures var b := bs[k];
      && Aligned(b.bp + n - 8) && Aligned(b.bp + n - 4)
      && SizeOf(b.size + 1) == b.size && SizeOf(n + 1) == n && SizeOf(b.size - n) == b.size - n
      && Pack(n, 1) == n + 1 && Pack(b.size - n, 0) == b.size - n
  {
    hide *;
    BlockFacts(m, bs, brk, k);
    var b := bs[k];
    DoubleAlignedSum(b.bp, n);
    DoubleAlignedSum(b.size, n);
    AlignedBelow(b.bp + n, brk);
    TagFields(n, 1);
    TagFields(b.size - n, 0);
    PackFree(n);
    PackFree(b.size);
    PackFree(b.size - n);
  }

  lemma CarveList(bs: seq<Block>, k: int, n: int)
    requires 0 <= k < |bs|
    ensures Carve(bs, k, n) == Replaced(bs, k, k + 1, CarvedPieces(bs[k], n))
    ensures bs[k].size - n < 16 ==> FreeAddrs(Carve(bs, k, n)) == Before(bs, k) + From(bs, k + 1)
    ensures bs[k].size - n >= 16 ==>
      && FreeAddrs(Carve(bs, k, n)) == PutAt(Before(bs, k) + From(bs, k + 1), |Before(bs, k)|, bs[k].bp + n)
      && IsFree(Carve(bs, k, n), bs[k].bp + n)
  {
    var mid := CarvedPieces(bs[k], n);
    ListReplaced(bs, k, k + 1, mid);
    if bs[k].size - n < 16 {
      assert mid[1..] == [] && FreeAddrs(mid) == [];
      assert Before(bs, k) + [] + From(bs, k + 1) == Before(bs, k) + From(bs, k + 1);
    } else {
      assert mid[1..][1..] == [] && FreeAddrs(mid[1..]) == [bs[k].bp + n] && FreeAddrs(mid) == [bs[k].bp + n];
      OmitMiddle(Before(bs, k), bs[k].bp + n, From(bs, k + 1));
      assert Carve(bs, k, n)[k + 1] == mid[1];
    }
  }

  lemma RestPlace(bs: seq<Block>, brk: int, k: int, n: int)
    requires Tiles(bs, 16, brk) && 0 <= k < |bs| && 16 <= n && bs[k].size - n >= 16
    ensures Slot(Before(bs, k) + From(bs, k + 1), |Before(bs, k)|, bs[k].bp + n)
  {
    TilesOrdered(bs, 16, brk);
    hide Tiles, Before, From;
    var p, s := Before(bs, k), From(bs, k + 1);
    if p != [] {
      BeforeBelow(bs, brk, k, p[|p| - 1]);
    }
    if s != [] {
      FromBeyond(bs, brk, k, s[0]);
    }
  }

  lemma FromBeyond(bs: seq<Block>, brk: int, k: int, a: int)
    requires Tiles(bs, 16, brk) && 0 <= k < |bs| && a in From(bs, k + 1)
    ensures bs[k].bp + bs[k].size <= a
  {
    TilesOrdered(bs, 16, brk);
    FreeAddrsMember(bs[k + 1..], a);
    var x :| 0 <= x < |bs| - k - 1 && bs[k + 1..][x].free && bs[k + 1..][x].bp == a;
    assert bs[k].End() <= bs[x + k + 1].bp;
  }

  lemma LiveAround(bs: seq<Block>, k: int)
    requires 0 <= k < |bs| && bs[k].free
    ensures Live(bs) == Live(bs[..k]) + Live(bs[k + 1..])
  {
    LiveReplaced(bs, k, k + 1, bs[k..k + 1]);
    assert Live(bs[k..k + 1]) == {};
  }

  /** Retagging the unlisted free block `k` as the pieces of a carved block. */
  lemma CarveMemory(m: Words, bs: seq<Block>, brk: int, k: int, n: int, fl: seq<int>)
    requires HeapOk(m, bs, brk) && LinkedList(m, fl)
    requires 0 <= k < |bs| && fl == Before(bs, k) + From(bs, k + 1)
    requires bs[k].free && 16 <= n <= bs[k].size && DoubleAligned(n)
    ensures var m' := CarvedWords(m, bs[k], n);
      && HeapOk(m', Carve(bs, k, n), brk) && LinkedList(m', fl) && Nodes(Carve(bs, k, n), fl)
      && Preserved(m, m', Live(bs))
    ensures bs[k].size - n < 16 ==> fl == FreeAddrs(Carve(bs, k, n))
    ensures bs[k].size - n >= 16 ==>
      && IsFree(Carve(bs, k, n), bs[k].bp + n) && Slot(fl, |Before(bs, k)|, bs[k].bp + n)
      && PutAt(fl, |Before(bs, k)|, bs[k].bp + n) == FreeAddrs(Carve(bs, k, n))
  {
    hide *;
    HeapTiles(m, bs, brk);
    BlockFacts(m, bs, brk, k);
    CarvedTags(m, bs[k], n);
    CarvedDoubleWords(bs[k], n);
    CarveList(bs, k, n);
    Retag(m, CarvedWords(m, bs[k], n), bs, brk, k, k + 1, CarvedPieces(bs[k], n), fl);
    ExtentPreserves(m, CarvedWords(m, bs[k], n), bs, brk, k, k + 1);
    LiveAround(bs, k);
    if bs[k].size - n >= 16 {
      RestPlace(bs, brk, k, n);
    }
  }

  /** Carving adds one live block and keeps the others. */
  lemma CarveKeepsLive(bs: seq<Block>, k: int, n: int)
    requires 0 <= k < |bs| && bs[k].free
    ensures Live(Carve(bs, k, n)) == Live(bs) + {CarvedPieces(bs[k], n)[0]}
    ensures Live(bs) <= Live(Carve(bs, k, n))
  {
    LiveReplaced(bs, k, k + 1, CarvedPieces(bs[k], n));
    LiveAround(bs, k);
  }

  lemma PreservedSubset(m: Words, m': Words, live: set<Block>, live': set<Block>)
    requires Preserved(m, m', live) && live' <= live
    ensures Preserved(m, m', live')
  {
  }
}
