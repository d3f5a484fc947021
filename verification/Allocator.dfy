/** mm.c: the allocator over the raw words of the simulated memory. */
module Allocator {
  import opened Memory
  import opened FreeList
  import opened Layout
  import opened BoundaryTags
  import opened Coalescing
  import opened Placement
  import opened Requests

  /** get_root_index: the segregated list for a size in bytes. */
  function RootIndex(size: int): (r: int)
    ensures 0 <= r < 5 && (size >= 16 ==> r == 4)
    ensures (r == 0 <==> size <= 2) && (r <= 1 <==> size <= 3) && (r <= 2 <==> size <= 4) && (r <= 3 <==> size <= 8)
  {
    if size <= 2 then 0
    else if size <= 3 then 1
    else if size <= 4 then 2
    else if size <= 8 then 3
    else 4
  }

  /** The bytes extend_heap asks for: an even number of words, at least a minimal block. */
  function ExtendSize(words: int): (n: int)
    requires words >= 0
    ensures n % 8 == 0 && 16 <= n && 4 * words <= n
    ensures forall m :: m % 8 == 0 && 16 <= m && 4 * words <= m ==> n <= m
  {
    var size := if words % 2 != 0 then (words + 1) * 4 else words * 4;
    if size < 16 then 16 else size
  }

  lemma ExtendSizeFacts(words: int)
    requires words >= 0
    ensures 16 <= ExtendSize(words) && DoubleAligned(ExtendSize(words))
  {
  }

  /** What mm_malloc computes from the tags before the break is the growth of the layout. */
  lemma BreakBlock(m: Words, bs: seq<Block>, brk: int, n: int)
    requires HeapOk(m, bs, brk) && FirstFit(bs, n) == |bs| && 16 <= n && DoubleAligned(n)
    ensures var footer := SizeOf(W(m, brk - 8));
      var header := W(m, brk - footer - 4);
      var extend := n - (if AllocOf(header) != 0 then 0 else SizeOf(header));
      && Aligned(brk - 8) && Aligned(brk - footer - 4)
      && 0 <= extend / 4 && ExtendSize(extend / 4) == Growth(bs, n)
  {
    hide HeapOk, DoubleAligned, ExtendSize, SizeOf, AllocOf, Aligned, FirstFit, Tiles, Pack, W;
    PrevFacts(m, bs, brk, |bs|);
    if bs != [] && bs[|bs| - 1].free {
      var b := bs[|bs| - 1];
      assert !Fits(b, n);
      BlockFacts(m, bs, brk, |bs| - 1);
      DoubleAlignedSum(n, b.size);
      ExtendSizeOf(n - b.size);
    } else {
      ExtendSizeOf(n);
    }
  }

  lemma ExtendSizeOf(x: int)
    requires 0 < x && DoubleAligned(x)
    ensures 0 <= x / 4 && ExtendSize(x / 4) == if x < 16 then 16 else x
  {
    assert x == 8 * (x / 8);
    assert x / 4 == 2 * (x / 8);
  }

  class Heap {
    const mem: Mem
    const roots: array<int>
    var heapListp: int
    ghost var blocks: seq<Block>
    ghost var fl: seq<int>

    /** The static objects of memlib.c and mm.c, with an empty memory. */
    constructor ()
      ensures roots.Length == 5 && mem.Valid() && mem.brk == 0
      ensures fresh(mem) && fresh(mem.store) && fresh(roots)
    {
      mem := new Mem();
      roots := new int[5];
      heapListp := 0;
      blocks, fl := [], [];
    }

    /** Roots 0..3 stay empty, root 4 heads the list. */
    ghost predicate RootsOk()
      reads `fl, roots
    {
      && roots.Length == 5
      && roots[0] == roots[1] == roots[2] == roots[3] == 0
      && roots[4] == Head(fl)
    }

    /** The raw memory holds the layout `blocks` and, among its free blocks, the list `fl`. */
    ghost predicate Consistent()
      reads this, mem, mem.store, roots
    {
      && mem.Valid() && RootsOk() && heapListp == 8
      && LinkedList(mem.words, fl)
      && HeapOk(mem.words, blocks, mem.brk)
      && Nodes(blocks, fl)
    }

    /** The heap invariant between requests: the list holds all free blocks, and no two are adjacent. */
    ghost predicate Valid()
      reads this, mem, mem.store, roots
    {
      Consistent() && fl == FreeAddrs(blocks) && NoAdjacentFree(blocks)
    }

    lemma Unfold()
      requires Consistent()
      ensures mem.Valid() && RootsOk() && LinkedList(mem.words, fl) && heapListp == 8
      ensures roots.Length == 5 && roots[4] == if fl == [] then 0 else fl[0]
      ensures HeapOk(mem.words, blocks, mem.brk) && Nodes(blocks, fl)
    {
    }

    lemma FoldRoots()
      requires roots.Length == 5 && roots[0] == roots[1] == roots[2] == roots[3] == 0
      requires roots[4] == Head(fl)
      ensures RootsOk()
    {
    }

    lemma UnfoldRoots()
      requires RootsOk()
      ensures roots.Length == 5 && roots[0] == roots[1] == roots[2] == roots[3] == 0
    {
    }

    lemma Fold()
      requires mem.Valid() && RootsOk() && LinkedList(mem.words, fl) && heapListp == 8
      requires HeapOk(mem.words, blocks, mem.brk) && Nodes(blocks, fl)
      ensures Consistent()
    {
    }

    lemma UnfoldValid()
      requires Valid()
      ensures Consistent() && fl == FreeAddrs(blocks) && NoAdjacentFree(blocks)
    {
    }

    lemma FoldValid()
      requires Consistent() && fl == FreeAddrs(blocks) && NoAdjacentFree(blocks)
      ensures Valid()
    {
    }

    /** Accounts for the tags of the blocks i..j having become those of one free block. */
    ghost method FuseBlocks(m: Words, i: int, j: int)
      requires HeapOk(m, blocks, mem.brk) && LinkedList(m, fl)
      requires 0 <= i < j <= |blocks| && fl == Before(blocks, i) + From(blocks, j)
      requires mem.Valid() && RootsOk() && heapListp == 8
      requires mem.words == FusedWords(m, blocks, i, j, Total(blocks[i..j]))
      modifies `blocks
      ensures Consistent() && blocks == Fuse(old(blocks), i, j)
      ensures IsFree(blocks, old(blocks)[i].bp) && Slot(fl, |Before(old(blocks), i)|, old(blocks)[i].bp)
      ensures PutAt(fl, |Before(old(blocks), i)|, old(blocks)[i].bp) == FreeAddrs(blocks)
      ensures Preserved(m, mem.words, Live(blocks))
      ensures (forall x :: i <= x < j ==> old(blocks)[x].free) ==> Live(blocks) == Live(old(blocks))
    {
      hide *;
      FuseMemory(m, blocks, mem.brk, i, j, fl);
      blocks := Fuse(blocks, i, j);
      Fold();
    }

    /** remove_block: takes node `k` off its segregated list. */
    method RemoveBlock(bp: int, ghost k: int)
      requires Consistent()
      requires 0 <= k < |fl| && fl[k] == bp
      modifies mem`words, mem.store, roots, `fl
      ensures Consistent() && fl == OmitAt(old(fl), k)
      ensures Preserved(old(mem.words), mem.words, Live(blocks))
    {
      hide *;
      ghost var m0, l := mem.words, fl;
      Unfold();
      UnfoldRoots();
      NodeFacts(m0, l, k);
      NodeFacts(m0, l, 0);
      NodesWithout(blocks, l, k);
      FreeHeader(m0, blocks, mem.brk, bp);
      Unlink(m0, l, k);
      UnlinkedSteps(m0, l, k);
      var header := mem.Get(bp - 4);
      var next := mem.Get(bp);
      var r := RootIndex(SizeOf(header));
      var p := roots[r];
      if bp == p {
        roots[r] := next;
        if next != 0 {
          NodeFacts(m0, l, k + 1);
          mem.Put(next + 4, 0);
        }
      } else {
        ghost var i := 0;
        var q := mem.Get(p);
        while q != bp
          invariant 0 <= i < k < |l| && p == l[i] && Aligned(p) && q == NextOf(l, i)
          modifies {}
          decreases k - i
        {
          NodeFacts(m0, l, i);
          i := i + 1;
          p := q;
          NodeFacts(m0, l, i);
          q := mem.Get(p);
        }
        NodeFacts(m0, l, i);
        mem.Put(p, next);
        if next != 0 {
          NodeFacts(m0, l, k + 1);
          mem.Put(next + 4, p);
        }
      }
      RelinkKeepsHeap(m0, mem.words, blocks, mem.brk, l);
      fl := OmitAt(fl, k);
      FoldRoots();
      Fold();
    }

    /** put_block: inserts a free block at its place in the address order. */
    method PutBlock(bp: int, ghost k: int)
      requires Consistent()
      requires IsFree(blocks, bp) && Slot(fl, k, bp)
      modifies mem`words, mem.store, roots, `fl
      ensures Consistent() && fl == PutAt(old(fl), k, bp)
      ensures Preserved(old(mem.words), mem.words, Live(blocks))
    {
      hide *;
      ghost var m0, l := mem.words, fl;
      Unfold();
      UnfoldRoots();
      FreeHeader(m0, blocks, mem.brk, bp);
      NewNodeFacts(fl, k, bp);
      NodesWith(blocks, l, k, bp);
      Link(m0, l, k, bp);
      var header := mem.Get(bp - 4);
      var r := RootIndex(SizeOf(header));
      var p := roots[r];
      if l != [] {
        NodeFacts(m0, l, 0);
        SlotOrders(l, k, bp, 0);
      }
      if p == 0 {
        roots[r] := bp;
        mem.Put(bp, 0);
        mem.Put(bp + 4, 0);
        assert mem.words == Linked(m0, l, k, bp) by {
          LinkedSteps(m0, l, k, bp);
        }
      } else if bp < p {
        mem.Put(bp, p);
        mem.Put(bp + 4, 0);
        mem.Put(p + 4, bp);
        roots[r] := bp;
        assert mem.words == Linked(m0, l, k, bp) by {
          LinkedSteps(m0, l, k, bp);
        }
      } else {
        ghost var i := 0;
        var q := mem.Get(p);
        while q != 0 && bp > q
          invariant 0 <= i < k <= |l| && p == l[i] && Aligned(p) && q == NextOf(l, i)
          modifies {}
          decreases k - i
        {
          NodeFacts(m0, l, i);
          SlotOrders(l, k, bp, i + 1);
          i := i + 1;
          p := q;
          NodeFacts(m0, l, i);
          q := mem.Get(p);
        }
        NodeFacts(m0, l, i);
        if i + 1 < |l| {
          SlotOrders(l, k, bp, i + 1);
          NodeFacts(m0, l, i + 1);
        }
        assert i == k - 1;
        mem.Put(bp, q);
        mem.Put(bp + 4, p);
        if q != 0 {
          mem.Put(q + 4, bp);
        }
        mem.Put(p, bp);
        assert mem.words == Linked(m0, l, k, bp) by {
          LinkedSteps(m0, l, k, bp);
        }
      }
      assert mem.words == Linked(m0, l, k, bp) && roots[4] == Head(PutAt(l, k, bp));
      fl := PutAt(fl, k, bp);
      RelinkKeepsHeap(m0, mem.words, blocks, mem.brk, fl);
      FoldRoots();
      Fold();
    }

    /** coalesce, case 2: the block after `bp` is free. */
    method MergeNext(bp: int, ghost k: int)
      requires Consistent() && fl == FreeAddrs(blocks)
      requires 0 <= k && k + 2 <= |blocks| && blocks[k].bp == bp && blocks[k].free && blocks[k + 1].free
      modifies mem`words, mem.store, roots, `fl, `blocks
      ensures Consistent() && fl == FreeAddrs(blocks) && blocks == Fuse(old(blocks), k, k + 2)
      ensures Live(blocks) == Live(old(blocks)) && Preserved(old(mem.words), mem.words, Live(blocks))
    {
      hide *;
      ghost var m0, bs := mem.words, blocks;
      Unfold();
      RunOfTwo(bs, k);
      BlockFacts(m0, bs, mem.brk, k);
      NextFacts(m0, bs, mem.brk, k);
      var header := mem.Get(bp - 4);
      var size := SizeOf(header);
      var next := bp + size;
      RemoveFirst(Before(bs, k), bp, [next] + From(bs, k + 2));
      RemoveFirst(Before(bs, k), next, From(bs, k + 2));
      RemoveBlock(bp, |Before(bs, k)|);
      ghost var m1 := mem.words;
      RemoveBlock(next, |Before(bs, k)|);
      ghost var m2 := mem.words;
      Unfold();
      NextFacts(m2, bs, mem.brk, k);
      FusedExtent(m2, bs, mem.brk, k, k + 2);
      var nextHeader := mem.Get(next - 4);
      size := size + SizeOf(nextHeader);
      mem.Put(bp - 4, Pack(size, 0));
      WUpdate(m2, bp - 4, size, bp - 4);
      header := mem.Get(bp - 4);
      mem.Put(bp + SizeOf(header) - 8, Pack(size, 0));
      FusedWordsSteps(m2, bs, k, k + 2, size);
      FuseBlocks(m2, k, k + 2);
      ghost var m3 := mem.words;
      PutBlock(bp, |Before(bs, k)|);
      PreservedSteps(m0, m1, m2, m3, mem.words, Live(bs));
    }

    /** coalesce, case 3: the block `prev` before `bp` is free. */
    method MergePrev(prev: int, bp: int, ghost k: int)
      requires Consistent() && fl == FreeAddrs(blocks)
      requires 0 <= k && k + 2 <= |blocks| && blocks[k].bp == prev && blocks[k + 1].bp == bp
      requires blocks[k].free && blocks[k + 1].free
      modifies mem`words, mem.store, roots, `fl, `blocks
      ensures Consistent() && fl == FreeAddrs(blocks) && blocks == Fuse(old(blocks), k, k + 2)
      ensures Live(blocks) == Live(old(blocks)) && Preserved(old(mem.words), mem.words, Live(blocks))
    {
      hide *;
      ghost var m0, bs := mem.words, blocks;
      Unfold();
      RunOfTwo(bs, k);
      BlockFacts(m0, bs, mem.brk, k);
      BlockFacts(m0, bs, mem.brk, k + 1);
      NextFacts(m0, bs, mem.brk, k);
      var header := mem.Get(bp - 4);
      var size := SizeOf(header);
      RemoveFirst(Before(bs, k), prev, [bp] + From(bs, k + 2));
      RemoveFirst(Before(bs, k), bp, From(bs, k + 2));
      RemoveBlock(prev, |Before(bs, k)|);
      ghost var m1 := mem.words;
      RemoveBlock(bp, |Before(bs, k)|);
      ghost var m2 := mem.words;
      Unfold();
      BlockFacts(m2, bs, mem.brk, k);
      BlockFacts(m2, bs, mem.brk, k + 1);
      FusedExtent(m2, bs, mem.brk, k, k + 2);
      var prevHeader := mem.Get(prev - 4);
      size := size + SizeOf(prevHeader);
      mem.Put(prev - 4, Pack(size, 0));
      WUpdate(m2, prev - 4, size, bp - 4);
      header := mem.Get(bp - 4);
      mem.Put(bp + SizeOf(header) - 8, Pack(size, 0));
      FusedWordsSteps(m2, bs, k, k + 2, size);
      FuseBlocks(m2, k, k + 2);
      ghost var m3 := mem.words;
      PutBlock(prev, |Before(bs, k)|);
      PreservedSteps(m0, m1, m2, m3, mem.words, Live(bs));
    }

    /** coalesce, case 4: both neighbours of `bp` are free. */
    method MergeBoth(prev: int, bp: int, ghost k: int)
      requires Consistent() && fl == FreeAddrs(blocks)
      requires 0 <= k && k + 3 <= |blocks| && blocks[k].bp == prev && blocks[k + 1].bp == bp
      requires blocks[k].free && blocks[k + 1].free && blocks[k + 2].free
      modifies mem`words, mem.store, roots, `fl, `blocks
      ensures Consistent() && fl == FreeAddrs(blocks) && blocks == Fuse(old(blocks), k, k + 3)
      ensures Live(blocks) == Live(old(blocks)) && Preserved(old(mem.words), mem.words, Live(blocks))
    {
      hide *;
      ghost var m0, bs := mem.words, blocks;
      Unfold();
      RunOfThree(bs, k);
      BlockFacts(m0, bs, mem.brk, k);
      BlockFacts(m0, bs, mem.brk, k + 1);
      NextFacts(m0, bs, mem.brk, k);
      NextFacts(m0, bs, mem.brk, k + 1);
      var header := mem.Get(bp - 4);
      var size := SizeOf(header);
      var next := bp + size;
      RemoveFirst(Before(bs, k), prev, [bp] + ([next] + From(bs, k + 3)));
      RemoveFirst(Before(bs, k), bp, [next] + From(bs, k + 3));
      RemoveFirst(Before(bs, k), next, From(bs, k + 3));
      RemoveBlock(prev, |Before(bs, k)|);
      ghost var m1 := mem.words;
      RemoveBlock(bp, |Before(bs, k)|);
      PreservedTrans(m0, m1, mem.words, Live(bs));
      m1 := mem.words;
      RemoveBlock(next, |Before(bs, k)|);
      ghost var m2 := mem.words;
      Unfold();
      BlockFacts(m2, bs, mem.brk, k);
      NextFacts(m2, bs, mem.brk, k + 1);
      BlockFacts(m2, bs, mem.brk, k + 2);
      FusedExtent(m2, bs, mem.brk, k, k + 3);
      var prevHeader := mem.Get(prev - 4);
      var nextHeader := mem.Get(next - 4);
      size := size + (SizeOf(prevHeader) + SizeOf(nextHeader));
      mem.Put(prev - 4, Pack(size, 0));
      WUpdate(m2, prev - 4, size, next - 4);
      nextHeader := mem.Get(next - 4);
      mem.Put(next + SizeOf(nextHeader) - 8, Pack(size, 0));
      FusedWordsSteps(m2, bs, k, k + 3, size);
      FuseBlocks(m2, k, k + 3);
      ghost var m3 := mem.words;
      PutBlock(prev, |Before(bs, k)|);
      PreservedSteps(m0, m1, m2, m3, mem.words, Live(bs));
    }

    /** coalesce: merges the free block `bp` (number `k`) with its free neighbours. */
    method Coalesce(bp: int, ghost k: int) returns (r: int)
      requires Consistent() && fl == FreeAddrs(blocks)
      requires 0 <= k < |blocks| && blocks[k].bp == bp && NoAdjacentFreeBut(blocks, k)
      modifies mem`words, mem.store, roots, `fl, `blocks
      ensures Valid() && blocks == Normalize(old(blocks))
      ensures r == old(blocks)[RunStart(old(blocks), k)].bp
      ensures Live(blocks) == Live(old(blocks)) && Preserved(old(mem.words), mem.words, Live(blocks))
    {
      hide *;
      ghost var m0, bs := mem.words, blocks;
      Unfold();
      UnfoldRoots();
      CoalescedCases(bs, k);
      BlockFacts(m0, bs, mem.brk, k);
      PrevFacts(m0, bs, mem.brk, k);
      NextFacts(m0, bs, mem.brk, k);
      var header := mem.Get(bp - 4);
      var size := SizeOf(header);
      var prevFooter := mem.Get(bp - 8);
      var prev := bp - SizeOf(prevFooter);
      var prevHeader := mem.Get(prev - 4);
      var next := bp + size;
      var nextHeader := mem.Get(next - 4);
      var prevAlloc, nextAlloc := AllocOf(prevHeader), AllocOf(nextHeader);
      if prevAlloc != 0 && nextAlloc != 0 {
        r := bp;
        PreservedRefl(m0, Live(bs));
      } else if prevAlloc != 0 {
        MergeNext(bp, k);
        r := bp;
      } else if nextAlloc != 0 {
        MergePrev(prev, bp, k - 1);
        r := prev;
      } else {
        MergeBoth(prev, bp, k - 1);
        r := prev;
      }
      FoldValid();
    }

    /** extend_heap: grows the heap by a free block, merged with a free one before the break; 0 is NULL. */
    method ExtendHeap(words: int) returns (r: int)
      requires Valid() && words >= 0
      modifies mem`words, mem`brk, mem.store, roots, `fl, `blocks
      ensures Valid() && Live(blocks) == Live(old(blocks)) && Preserved(old(mem.words), mem.words, Live(blocks))
      ensures old(mem.brk) + ExtendSize(words) > MAX_HEAP ==>
        r == 0 && blocks == old(blocks) && mem.brk == old(mem.brk)
      ensures old(mem.brk) + ExtendSize(words) <= MAX_HEAP ==>
        && blocks == Grown(old(blocks), old(mem.brk), ExtendSize(words))
        && mem.brk == old(mem.brk) + ExtendSize(words)
        && blocks != [] && r == blocks[|blocks| - 1].bp
    {
      hide *;
      ghost var m0, bs, brk, l := mem.words, blocks, mem.brk, fl;
      UnfoldValid();
      Unfold();
      ExtendSizeFacts(words);
      var size := ExtendSize(words);
      var s := mem.Sbrk(size);
      match s
      case NoMemory =>
        Fold();
        FoldValid();
        PreservedRefl(m0, Live(bs));
        r := 0;
      case Start(bp) =>
        BreakFacts(m0, bs, brk, size);
        mem.Put(bp - 4, Pack(size, 0));
        WUpdate(m0, bp - 4, size, bp - 4);
        var header := mem.Get(bp - 4);
        mem.Put(bp + SizeOf(header) - 8, Pack(size, 0));
        mem.Put(bp + SizeOf(header) - 4, Pack(0, 1));
        ExtendedWordsSteps(m0, brk, size);
        ExtendMemory(m0, bs, brk, size, l);
        blocks := blocks + [Block(bp, size, true)];
        Fold();
        ghost var m1 := mem.words;
        PutBlock(bp, |l|);
        ghost var m2 := mem.words;
        GrownEnds(bs, brk, size);
        r := Coalesce(bp, |bs|);
        PreservedTrans(m0, m1, m2, Live(bs));
        PreservedTrans(m0, m2, mem.words, Live(bs));
    }

    /** find_fit and get_block: the first listed block of at least `n` bytes; 0 is NULL. */
    method GetBlock(n: int) returns (r: int)
      requires Valid() && n >= 0
      ensures r == if FirstFit(blocks, n) < |blocks| then blocks[FirstFit(blocks, n)].bp else 0
    {
      hide *;
      UnfoldValid();
      Unfold();
      UnfoldRoots();
      ghost var m, bs, l := mem.words, blocks, fl;
      var root := RootIndex(n);
      r := 0;
      ghost var x := 0;
      while root < 5
        invariant 0 <= root <= 5 && 0 <= x <= |l|
        invariant root < 5 ==> x == 0
        invariant root == 5 ==> r == 0 && x == |l|
        invariant forall y :: 0 <= y < x ==> bs[NodeIndex(bs, y)].size < n
      {
        r := roots[root];
        while r != 0
          invariant 0 <= x <= |l| && (root < 4 ==> r == 0 && x == 0)
          invariant root == 4 ==> r == if x < |l| then l[x] else 0
          invariant forall y :: 0 <= y < x ==> bs[NodeIndex(bs, y)].size < n
          decreases |l| - x
        {
          NodeFacts(m, l, x);
          BlockFacts(m, bs, mem.brk, NodeIndex(bs, x));
          var header := mem.Get(r - 4);
          if SizeOf(header) >= n {
            ListFirstFit(bs, n, x);
            return;
          }
          r := mem.Get(r);
          x := x + 1;
        }
        if root == 4 && x < |l| {
          NodeFacts(m, l, x);
        }
        root := root + 1;
      }
      ListFirstFit(bs, n, x);
    }

    /** place: allocates `n` bytes at the start of the free block `bp` (number `k`), splitting it
        if the rest can stand alone. */
    method Place(bp: int, n: int, ghost k: int)
      requires Valid() && 0 <= k < |blocks| && blocks[k].bp == bp
      requires blocks[k].free && 16 <= n <= blocks[k].size && DoubleAligned(n)
      modifies mem`words, mem.store, roots, `fl, `blocks
      ensures Valid() && blocks == Carve(old(blocks), k, n)
      ensures Preserved(old(mem.words), mem.words, Live(old(blocks)))
    {
      hide *;
      ghost var m0, bs := mem.words, blocks;
      UnfoldValid();
      Unfold();
      BlockFacts(m0, bs, mem.brk, k);
      ListAt(bs, k);
      FromStep(bs, k);
      RemoveFirst(Before(bs, k), bp, From(bs, k + 1));
      CarveNoAdjacentFree(bs, k, n);
      var header := mem.Get(bp - 4);
      var bsize := SizeOf(header);
      RemoveBlock(bp, |Before(bs, k)|);
      ghost var m1 := mem.words;
      Unfold();
      BlockFacts(m1, bs, mem.brk, k);
      CarveFacts(m1, bs, mem.brk, k, n);
      CarvedWordsSteps(m1, bs[k], n);
      CarveMemory(m1, bs, mem.brk, k, n, fl);
      if bsize - n < 16 {
        mem.Put(bp - 4, Pack(bsize, 1));
        WUpdate(m1, bp - 4, bsize + 1, bp - 4);
        header := mem.Get(bp - 4);
        mem.Put(bp + SizeOf(header) - 8, Pack(bsize, 1));
        blocks := Carve(bs, k, n);
        Fold();
      } else {
        mem.Put(bp - 4, Pack(n, 1));
        WUpdate(m1, bp - 4, n + 1, bp - 4);
        header := mem.Get(bp - 4);
        mem.Put(bp + SizeOf(header) - 8, Pack(n, 1));
        var next := bp + SizeOf(header);
        ghost var m2 := mem.words;
        mem.Put(next - 4, Pack(bsize - n, 0));
        WUpdate(m2, next - 4, bsize - n, next - 4);
        header := mem.Get(next - 4);
        mem.Put(next + SizeOf(header) - 8, Pack(bsize - n, 0));
        blocks := Carve(bs, k, n);
        Fold();
        ghost var m3 := mem.words;
        PutBlock(next, |Before(bs, k)|);
        CarveKeepsLive(bs, k, n);
        PreservedSubset(m3, mem.words, Live(blocks), Live(bs));
        PreservedTrans(m1, m3, mem.words, Live(bs));
      }
      PreservedTrans(m0, m1, mem.words, Live(bs));
      FoldValid();
    }

    /** The heap as its client sees it. */
    ghost function View(): State
      reads this, mem
    {
      State(blocks, mem.brk)
    }

    lemma ViewFacts()
      ensures View().blocks == blocks && View().brk == mem.brk
    {
    }

    lemma FreeStateIs(s: State, ptr: int)
      ensures FreeState(s, ptr) == State(Normalize(Marked(s.blocks, {ptr})), s.brk)
    {
    }

    lemma ViewValid()
      requires Valid()
      ensures ValidState(View())
    {
    }

    /** What a valid heap means for its memory. */
    lemma Expose()
      requires Valid()
      ensures mem.Valid() && |mem.store[..]| == MAX_HEAP && Represents(mem.store[..], mem.words)
      ensures HeapOk(mem.words, blocks, mem.brk) && RootsOk() && heapListp == 8
      ensures LinkedList(mem.words, fl) && Nodes(blocks, fl) && fl == FreeAddrs(blocks) && NoAdjacentFree(blocks)
      ensures ValidState(View()) && roots.Length == 5
    {
    }

    /** The heap invariant, word by word: prologue, epilogue and tags around blocks that tile the
        heap, no two free ones adjacent, and the free ones linked both ways in address order from root 4. */
    lemma InvariantWords()
      requires Valid()
      ensures mem.brk % 8 == 0 && mem.brk <= 20971520
      ensures W(mem.words, 4) == 9 && W(mem.words, 8) == 9 && W(mem.words, mem.brk - 4) == 1
      ensures if blocks == [] then mem.brk == 16 else blocks[0].bp == 16
      ensures blocks != [] ==> blocks[|blocks| - 1].bp + blocks[|blocks| - 1].size == mem.brk
      ensures forall i, j :: 0 <= i && j == i + 1 && j < |blocks| ==>
        blocks[j].bp == blocks[i].bp + blocks[i].size && !(blocks[i].free && blocks[j].free)
      ensures forall i :: 0 <= i < |blocks| ==>
        (var b, tag := blocks[i], blocks[i].size + (if blocks[i].free then 0 else 1);
         && b.bp % 8 == 0 && b.size % 8 == 0 && b.size >= 16
         && W(mem.words, b.bp - 4) == tag && W(mem.words, b.bp + b.size - 8) == tag)
      ensures roots.Length == 5 && roots[0] == roots[1] == roots[2] == roots[3] == 0
      ensures roots[4] == if fl == [] then 0 else fl[0]
      ensures forall a :: a in fl <==> exists i :: 0 <= i < |blocks| && blocks[i].free && blocks[i].bp == a
      ensures forall x, y :: 0 <= x < y < |fl| ==> fl[x] < fl[y]
      ensures fl != [] ==> W(mem.words, fl[0] + 4) == 0 && W(mem.words, fl[|fl| - 1]) == 0
      ensures forall x, y :: 0 <= x && y == x + 1 && y < |fl| ==>
        W(mem.words, fl[x]) == fl[y] && W(mem.words, fl[y] + 4) == fl[x]
    {
      hide W;
      forall a
        ensures a in fl <==> exists i :: 0 <= i < |blocks| && blocks[i].free && blocks[i].bp == a
      {
        FreeAddrsMember(blocks, a);
      }
    }

    /** mm_malloc. Without room the source calls place on NULL, so room is required. */
    method Malloc(size: int) returns (bp: int)
      requires Valid() && 0 <= size
      requires size > 0 ==> HasRoom(View(), Adjusted(size))
      modifies mem`words, mem`brk, mem.store, roots, `fl, `blocks
      ensures Valid() && Preserved(old(mem.words), mem.words, Live(old(blocks)))
      ensures size == 0 ==> bp == 0 && View() == old(View())
      ensures size > 0 ==>
        && View() == MallocState(old(View()), Adjusted(size))
        && bp == MallocBlock(old(View()), Adjusted(size)).bp
    {
      hide *;
      ghost var m0, bs, s := mem.words, blocks, View();
      PreservedRefl(m0, Live(bs));
      ViewFacts();
      if size == 0 {
        return 0;
      }
      var n := Adjusted(size);
      UnfoldValid();
      Unfold();
      ViewValid();
      FitFacts(s, n);
      MallocSteps(s, n);
      bp := GetBlock(n);
      if bp == 0 {
        BreakBlock(m0, bs, mem.brk, n);
        var prevFooter := mem.Get(mem.brk - 8);
        var prev := mem.brk - SizeOf(prevFooter);
        var prevHeader := mem.Get(prev - 4);
        var extend := n - (if AllocOf(prevHeader) != 0 then 0 else SizeOf(prevHeader));
        bp := ExtendHeap(extend / 4);
      }
      ghost var m1 := mem.words;
      ghost var k := FitIndex(s, n);
      Place(bp, n, k);
      PreservedTrans(m0, m1, mem.words, Live(bs));
      ViewFacts();
    }

    /** mm_free, for the payload pointer of a live block. */
    method Free(ptr: int)
      requires Valid() && LivePointer(blocks, ptr)
      modifies mem`words, mem.store, roots, `fl, `blocks
      ensures Valid() && View() == FreeState(old(View()), ptr)
      ensures Preserved(old(mem.words), mem.words, Live(blocks))
    {
      hide *;
      ghost var m0, bs, s := mem.words, blocks, View();
      ViewFacts();
      UnfoldValid();
      Unfold();
      HeapTiles(m0, bs, mem.brk);
      ghost var k := IndexOfLive(bs, ptr);
      BlockFacts(m0, bs, mem.brk, k);
      ListAt(bs, k);
      FromStep(bs, k);
      TotalStep(bs, k, k);
      FusedExtent(m0, bs, mem.brk, k, k + 1);
      MarkedOne(bs, 16, mem.brk, k);
      FuseOne(bs, k);
      FusedWordsSteps(m0, bs, k, k + 1, bs[k].size);
      var header := mem.Get(ptr - 4);
      var size := SizeOf(header);
      mem.Put(ptr - 4, Pack(size, 0));
      WUpdate(m0, ptr - 4, size, ptr - 4);
      header := mem.Get(ptr - 4);
      mem.Put(ptr + SizeOf(header) - 8, Pack(SizeOf(header), 0));
      FuseBlocks(m0, k, k + 1);
      ghost var m1, live := mem.words, Live(blocks);
      PutBlock(ptr, |Before(bs, k)|);
      ghost var m2 := mem.words;
      var r := Coalesce(ptr, k);
      PreservedTrans(m0, m1, m2, live);
      PreservedTrans(m0, m2, mem.words, live);
      ViewFacts();
      FreeStateIs(s, ptr);
    }

    /** After a client wrote into the payload of the live block `b`, the heap is still valid. */
    lemma PayloadWritten(m: Words, b: Block, n: int)
      requires mem.Valid() && RootsOk() && heapListp == 8
      requires LinkedList(m, fl) && HeapOk(m, blocks, mem.brk) && Nodes(blocks, fl)
      requires fl == FreeAddrs(blocks) && NoAdjacentFree(blocks)
      requires b in Live(blocks) && n <= b.size - 8 && OnlyPayload(m, mem.words, b, n)
      ensures Valid() && Preserved(m, mem.words, Live(blocks) - {b})
    {
      hide *;
      HeapTiles(m, blocks, mem.brk);
      PayloadSparesHeap(m, mem.words, blocks, mem.brk, b, n);
      PayloadSparesLinks(m, mem.words, blocks, mem.brk, b, n, fl);
      Fold();
      FoldValid();
    }

    /** mm_realloc up to its memcpy: allocates and copies as much of the old payload as fits. */
    method MallocCopy(ptr: int, size: int) returns (r: int)
      requires Valid() && LivePointer(blocks, ptr) && 0 <= size
      requires size > 0 ==> HasRoom(View(), Adjusted(size))
      modifies mem`words, mem`brk, mem.store, roots, `fl, `blocks
      ensures Valid() && Live(old(blocks)) <= Live(blocks)
      ensures Preserved(old(mem.words), mem.words, Live(old(blocks)))
      ensures size == 0 ==> r == 0 && View() == old(View())
      ensures size > 0 ==>
        && View() == MallocState(old(View()), Adjusted(size))
        && r == MallocBlock(old(View()), Adjusted(size)).bp
        && CopiedBytes(old(mem.store[..]), mem.store[..], ptr, r, Copied(old(blocks), ptr, size))
    {
      hide *;
      ghost var s0, m0, bs, bytes0 := View(), mem.words, blocks, mem.store[..];
      ghost var a := BlockAt(bs, ptr);
      ViewFacts();
      ViewValid();
      UnfoldValid();
      Unfold();
      mem.Represented();
      r := Malloc(size);
      ghost var m1, bs1, bytes1 := mem.words, blocks, mem.store[..];
      ghost var b;
      UnfoldValid();
      Unfold();
      mem.Represented();
      ViewFacts();
      if size > 0 {
        b := MallocBlock(s0, Adjusted(size));
        MallocAddsBlock(s0, Adjusted(size));
        HeapTiles(m1, bs1, mem.brk);
        LiveApart(bs1, 16, mem.brk, a, b);
      }
      LiveFacts(m1, bs1, mem.brk, a);
      PreservedBytes(bytes0, bytes1, m0, m1, bs, s0.brk, Live(bs), a);
      var header := mem.Get(ptr - 4);
      var copySize := SizeOf(header) - 8;
      copySize := if size < copySize then size else copySize;
      CopiedFacts(bs, ptr, size);
      if copySize > 0 {
        mem.Copy(r, ptr, copySize);
        FoldOnlyPayload(m1, mem.words, b, copySize);
        PayloadWritten(m1, b, copySize);
        ViewFacts();
        PreservedBeside(m0, m1, mem.words, Live(bs), Live(bs1), b);
        SubSlice(bytes0, bytes1, ptr, ptr + copySize, ptr + a.size - 8);
        FoldCopied(bytes0, mem.store[..], ptr, r, copySize);
      }
    }

    /** mm_realloc: the new block starts with as much of the old payload as fits. */
    method Realloc(ptr: int, size: int) returns (r: int)
      requires Valid() && LivePointer(blocks, ptr) && 0 <= size
      requires size > 0 ==> HasRoom(View(), Adjusted(size))
      modifies mem`words, mem`brk, mem.store, roots, `fl, `blocks
      ensures Valid()
      ensures size == 0 ==> r == 0 && View() == FreeState(old(View()), ptr)
      ensures size > 0 ==>
        && View() == FreeState(MallocState(old(View()), Adjusted(size)), ptr)
        && r == MallocBlock(old(View()), Adjusted(size)).bp
        && CopiedBytes(old(mem.store[..]), mem.store[..], ptr, r, Copied(old(blocks), ptr, size))
      ensures forall x :: r <= x < r + size && x - r < BlockAt(old(blocks), ptr).size - 8 ==>
        && 0 <= ptr + (x - r) < |old(mem.store[..])| && 0 <= x < |mem.store[..]|
        && mem.store[..][x] == old(mem.store[..])[ptr + (x - r)]
      ensures Preserved(old(mem.words), mem.words, set c | c in Live(old(blocks)) && c.bp != ptr)
    {
      hide *;
      ghost var s0, m0, bs, bytes0 := View(), mem.words, blocks, mem.store[..];
      ghost var a := BlockAt(bs, ptr);
      ViewFacts();
      ViewValid();
      r := MallocCopy(ptr, size);
      ghost var s1, m1, bs1, bytes1 := View(), mem.words, blocks, mem.store[..];
      ViewFacts();
      ViewValid();
      UnfoldValid();
      Unfold();
      mem.Represented();
      LiveFacts(m1, bs1, mem.brk, a);
      Free(ptr);
      ViewFacts();
      FreeRemovesBlock(s1, ptr);
      PreservedButOne(m0, m1, mem.words, Live(bs), Live(bs1), Live(blocks), ptr);
      if size > 0 {
        ghost var b := MallocBlock(s0, Adjusted(size));
        MallocAddsBlock(s0, Adjusted(size));
        HeapTiles(m1, bs1, s1.brk);
        LiveApart(bs1, 16, s1.brk, a, b);
        CopiedFacts(bs, ptr, size);
        UnfoldValid();
        Unfold();
        mem.Represented();
        PreservedBytes(bytes1, mem.store[..], m1, mem.words, bs1, s1.brk, Live(blocks), b);
        CopiedFurther(bytes0, bytes1, mem.store[..], ptr, r, Copied(bs, ptr, size), b.size - 8);
        CopiedEach(bytes0, mem.store[..], bs, ptr, r, size);
      }
    }

    /** mm_init, on an empty heap as mem_reset_brk leaves it; 0 for success, -1 for failure. */
    method Init() returns (r: int)
      requires mem.Valid() && mem.brk == 0 && roots.Length == 5
      modifies this, mem`words, mem`brk, mem.store, roots
      ensures r == 0 && Valid() && View() == State([Block(16, 64, true)], 80)
    {
      hide *;
      ghost var m0 := mem.words;
      FenceAddresses();
      var s := mem.Sbrk(16);
      match s
      case NoMemory =>
        r := -1;
      case Start(start) =>
        mem.Put(start, 0);
        mem.Put(start + 4, Pack(8, 1));
        mem.Put(start + 8, Pack(8, 1));
        mem.Put(start + 12, Pack(0, 1));
        heapListp := start + 8;
        var i := 0;
        while i < 5
          invariant 0 <= i <= 5 && forall j :: 0 <= j < i ==> roots[j] == 0
          modifies roots
        {
          roots[i] := 0;
          i := i + 1;
        }
        blocks, fl := [], [];
        EmptyHeap(m0);
        FoldRoots();
        Fold();
        FoldValid();
        var bp := ExtendHeap(64 / 4);
        FirstBlock();
        ViewFacts();
        r := if bp == 0 then -1 else 0;
    }

    /** mm_check_no_contiguous_free: 1 exactly when coalescing left no two free neighbours. */
    method CheckNoContiguousFree() returns (r: int)
      requires Consistent()
      ensures r == if NoAdjacentFree(blocks) then 1 else 0
    {
      hide *;
      Unfold();
      ghost var k := 0;
      ghost var bs := blocks;
      HeapTiles(mem.words, bs, mem.brk);
      TilesStart(bs, mem.brk);
      PrefixStart(bs);
      var prevFree := false;
      var ptr := heapListp + 8;
      while ptr < mem.brk - 1
        invariant 0 <= k <= |bs| && ptr == StartAt(bs, k, mem.brk)
        invariant NoAdjacentFree(bs[..k]) && prevFree == (k > 0 && bs[k - 1].free)
        decreases |bs| - k
      {
        StartBefore(bs, mem.brk, k);
        BlockFacts(mem.words, bs, mem.brk, k);
        PrefixStep(bs, k);
        var header := mem.Get(ptr - 4);
        if AllocOf(header) == 0 {
          if prevFree {
            return 0;
          }
          prevFree := true;
        } else {
          prevFree := false;
        }
        ptr := ptr + SizeOf(header);
        k := k + 1;
      }
      StartBefore(bs, mem.brk, k);
      assert bs[..|bs|] == bs;
      r := 1;
    }
  }

  lemma FenceAddresses()
    ensures Aligned(0) && Aligned(4) && Aligned(8) && Aligned(12) && MAX_HEAP == 20971520
    ensures Pack(8, 1) == 9 && Pack(0, 1) == 1
  {
  }

  /** The words mm_init writes are the fences of an empty layout. */
  lemma EmptyHeap(m: Words)
    ensures HeapOk(m[0 := 0][4 := 9][8 := 9][12 := 1], [], 16)
    ensures LinkedList(m[0 := 0][4 := 9][8 := 9][12 := 1], []) && Nodes([], []) && Head([]) == 0
    ensures FreeAddrs([]) == [] && NoAdjacentFree([])
  {
  }

  lemma FirstBlock()
    ensures ExtendSize(16) == 64 && Grown([], 16, 64) == [Block(16, 64, true)]
  {
    NormalizeFixed([Block(16, 64, true)]);
    assert [] + [Block(16, 64, true)] == [Block(16, 64, true)];
  }

  lemma TilesStart(bs: seq<Block>, brk: int)
    requires Tiles(bs, 16, brk)
    ensures StartAt(bs, 0, brk) == 16
  {
  }

  /** Only the position past the last block starts at the break. */
  lemma StartBefore(bs: seq<Block>, brk: int, k: int)
    requires Tiles(bs, 16, brk) && 0 <= k <= |bs|
    ensures StartAt(bs, k, brk) < brk - 1 <==> k < |bs|
  {
    TilesOrdered(bs, 16, brk);
  }

  lemma PrefixStart(bs: seq<Block>)
    ensures NoAdjacentFree(bs[..0])
  {
  }

  lemma PrefixStep(bs: seq<Block>, k: int)
    requires 0 <= k < |bs| && NoAdjacentFree(bs[..k])
    ensures NoAdjacentFree(bs[..k + 1]) <==> !(k > 0 && bs[k - 1].free && bs[k].free)
    ensures NoAdjacentFree(bs) ==> !(k > 0 && bs[k - 1].free && bs[k].free)
  {
    assert bs[..k + 1] == bs[..k] + [bs[k]];
    if k > 0 {
      assert bs[..k + 1][k - 1] == bs[k - 1] && bs[..k + 1][k] == bs[k];
    }
    if !(k > 0 && bs[k - 1].free && bs[k].free) {
      NoAdjacentFreeJoin(bs[..k], [bs[k]]);
    }
  }
}
