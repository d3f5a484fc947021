/** Boundary tags: how a layout is written into memory, and which words may
    change without disturbing the tags and the live payloads. */
module BoundaryTags {
  import A = Arithmetic
  import opened Bytes
  import opened Memory
  import opened Layout
  import opened FreeList

  /** PACK(size, alloc), for a size that is a multiple of 8. */
  function Pack(size: int, alloc: int): int {
    size + alloc
  }

  /** GET_SIZE and GET_ALLOC of a header or footer word. */
  function SizeOf(w: int): int {
    w - w % 8
  }

  function AllocOf(w: int): int {
    w % 2
  }

  ghost function Tag(b: Block): int {
    Pack(b.size, if b.free then 0 else 1)
  }

  /** Header and footer of `b` are equal and hold its size and state. */
  ghost predicate Tagged(m: Words, b: Block) {
    W(m, b.bp - 4) == Tag(b) && W(m, b.End() - 8) == Tag(b)
  }

  ghost predicate Tags(m: Words, bs: seq<Block>) {
    forall i :: 0 <= i < |bs| ==> Tagged(m, bs[i])
  }

  /** The words of the interval [lo, hi) are the same. */
  ghost predicate Same(m: Words, m': Words, lo: int, hi: int) {
    forall p :: lo <= p < hi ==> W(m', p) == W(m, p)
  }

  /** The words outside the interval [lo, hi) are the same. */
  ghost predicate SameOutside(m: Words, m': Words, lo: int, hi: int) {
    forall p :: !(lo <= p < hi) ==> W(m', p) == W(m, p)
  }

  /** The allocated blocks of a layout. */
  ghost function Live(bs: seq<Block>): set<Block> {
    set b | b in bs && !b.free
  }

  /** No payload word of a block in `live` changed. */
  ghost predicate Preserved(m: Words, m': Words, live: set<Block>) {
    forall b :: b in live ==> Same(m, m', b.bp, b.End() - 8)
  }

  /** Each list node is a free block of the layout. */
  ghost predicate Nodes(bs: seq<Block>, fl: seq<int>) {
    forall a :: a in fl ==> IsFree(bs, a)
  }

  ghost predicate IsFree(bs: seq<Block>, a: int) {
    exists i :: 0 <= i < |bs| && bs[i].free && bs[i].bp == a
  }

  /** Prologue header and footer below the first block, epilogue header at the break. */
  ghost predicate Fenced(m: Words, lo: int, hi: int) {
    W(m, lo - 12) == 9 && W(m, lo - 8) == 9 && W(m, hi - 4) == 1
  }

  /** A list node is the start of a free block between the bounds. */
  lemma NodeBounds(bs: seq<Block>, fl: seq<int>, lo: int, hi: int, a: int)
    requires Tiles(bs, lo, hi) && Nodes(bs, fl) && a in fl
    ensures lo <= a && a + 16 <= hi
  {
    TilesOrdered(bs, lo, hi);
    var j :| 0 <= j < |bs| && bs[j].free && bs[j].bp == a;
  }

  /** No tag, and no word of a live payload, is a link word. */
  lemma NoLinkWord(bs: seq<Block>, fl: seq<int>, lo: int, hi: int, i: int, p: int)
    requires Tiles(bs, lo, hi) && Nodes(bs, fl) && 0 <= i < |bs|
    requires p == bs[i].bp - 4 || p == bs[i].End() - 8 || (!bs[i].free && bs[i].bp <= p < bs[i].End() - 8)
    ensures !LinkWord(fl, p)
  {
    TilesOrdered(bs, lo, hi);
    forall a | a in fl
      ensures p != a && p != a + 4
    {
      var j :| 0 <= j < |bs| && bs[j].free && bs[j].bp == a;
    }
  }

  /** Links live in free payloads only, so relinking spares tags, fences and live payloads. */
  lemma LinksSpareTags(bs: seq<Block>, fl: seq<int>, lo: int, hi: int, m: Words, m': Words)
    requires Tiles(bs, lo, hi) && Tags(m, bs) && Fenced(m, lo, hi)
    requires Nodes(bs, fl) && SameButLinks(m, m', fl)
    ensures Tags(m', bs) && Fenced(m', lo, hi)
    ensures Preserved(m, m', Live(bs))
  {
    hide Tiles, Nodes, W;
    forall i | 0 <= i < |bs|
      ensures Tagged(m', bs[i])
    {
      NoLinkWord(bs, fl, lo, hi, i, bs[i].bp - 4);
      NoLinkWord(bs, fl, lo, hi, i, bs[i].End() - 8);
    }
    forall b, p | b in Live(bs) && b.bp <= p < b.End() - 8
      ensures W(m', p) == W(m, p)
    {
      var i :| 0 <= i < |bs| && bs[i] == b;
      NoLinkWord(bs, fl, lo, hi, i, p);
    }
    forall a | a in fl
      ensures lo <= a && a + 16 <= hi
    {
      NodeBounds(bs, fl, lo, hi, a);
    }
  }

  /** Replacing the blocks i..j by freshly tagged blocks over the same extent. */
  lemma ReplaceTags(bs: seq<Block>, i: int, j: int, mid: seq<Block>, lo: int, hi: int, m: Words, m': Words)
    requires Tiles(bs, lo, hi) && Tags(m, bs) && Fenced(m, lo, hi)
    requires 0 <= i < j <= |bs| && Tags(m', mid)
    requires SameOutside(m, m', bs[i].bp - 4, StartAt(bs, j, hi) - 4)
    ensures Tags(m', bs[..i] + mid + bs[j..]) && Fenced(m', lo, hi)
  {
    TilesOrdered(bs, lo, hi);
    assert forall x :: 0 <= x < i || j <= x < |bs| ==> Tagged(m', bs[x]);
  }

  /** Links of nodes outside an interval survive writes inside it. */
  lemma LinksOutside(m: Words, m': Words, fl: seq<int>, lo: int, hi: int)
    requires Links(m, fl) && SameOutside(m, m', lo, hi)
    requires forall a :: a in fl ==> a + 8 <= lo || hi <= a
    ensures Links(m', fl)
  {
    assert forall i :: 0 <= i < |fl| ==> fl[i] in fl;
  }

  /** The words `m` below the break `brk` hold exactly the layout `bs`. */
  ghost predicate HeapOk(m: Words, bs: seq<Block>, brk: int) {
    && Tiles(bs, 16, brk) && DoubleWords(bs) && DoubleAligned(brk) && brk <= MAX_HEAP
    && Tags(m, bs) && Fenced(m, 16, brk)
  }

  lemma TagFields(size: int, alloc: int)
    requires DoubleAligned(size) && 0 <= alloc <= 1
    ensures SizeOf(Pack(size, alloc)) == size && AllocOf(Pack(size, alloc)) == alloc
  {
    hide *;
    MultipleOfEight(size);
    PackedRemainders(size / 8, alloc);
    PackedFields(size, alloc);
  }

  lemma MultipleOfEight(size: int)
    requires DoubleAligned(size)
    ensures size == 8 * (size / 8)
  {
  }

  lemma PackedRemainders(q: int, alloc: int)
    requires 0 <= alloc <= 1
    ensures (8 * q + alloc) % 8 == alloc && (8 * q + alloc) % 2 == alloc
  {
    hide *;
    A.Rem8(q, alloc);
    A.Rem2(q);
  }

  lemma PackedFields(size: int, alloc: int)
    ensures SizeOf(Pack(size, alloc)) == size + alloc - (size + alloc) % 8
    ensures AllocOf(Pack(size, alloc)) == (size + alloc) % 2
  {
  }

  lemma BlockPlace(bs: seq<Block>, brk: int, k: int)
    requires Tiles(bs, 16, brk) && 0 <= k < |bs|
    ensures 16 <= bs[k].bp && 16 <= bs[k].size && bs[k].bp + bs[k].size <= brk
    ensures StartAt(bs, k + 1, brk) == bs[k].bp + bs[k].size
  {
    TilesOrdered(bs, 16, brk);
  }

  /** What the header and footer of block `k` read as. */
  lemma BlockFacts(m: Words, bs: seq<Block>, brk: int, k: int)
    requires HeapOk(m, bs, brk) && 0 <= k < |bs|
    ensures var b := bs[k];
      && W(m, b.bp - 4) == W(m, b.bp + b.size - 8) == Pack(b.size, if b.free then 0 else 1)
      && SizeOf(Pack(b.size, 0)) == b.size == SizeOf(Pack(b.size, 1))
      && AllocOf(Pack(b.size, 0)) == 0 && AllocOf(Pack(b.size, 1)) == 1
      && 16 <= b.bp && 16 <= b.size && b.bp + b.size <= brk <= MAX_HEAP == 20971520
      && DoubleAligned(b.bp) && DoubleAligned(b.size)
      && Aligned(b.bp - 4) && Aligned(b.bp + b.size - 8)
      && Pack(b.size, 0) == b.size && Pack(b.size, 1) == b.size + 1
      && StartAt(bs, k + 1, brk) == b.bp + b.size && StartAt(bs, k, brk) == b.bp
  {
    hide Tiles, Fenced, SizeOf, AllocOf;
    BlockPlace(bs, brk, k);
    var b := bs[k];
    assert DoubleAligned(b.bp) && DoubleAligned(b.size);
    TagFields(b.size, 0);
    TagFields(b.size, 1);
    DoubleWordAligned(b.bp);
    DoubleAlignedSum(b.bp, b.size);
    DoubleWordAligned(b.bp + b.size - 8);
    assert Tagged(m, b);
  }

  lemma DoubleAlignedSum(a: int, b: int)
    requires DoubleAligned(a) && DoubleAligned(b)
    ensures DoubleAligned(a + b) && DoubleAligned(a - b) && DoubleAligned(a + b - 8)
  {
    A.Multiples(a, b);
  }

  /** Relinking free blocks keeps the heap and every live payload. */
  lemma RelinkKeepsHeap(m: Words, m': Words, bs: seq<Block>, brk: int, fl: seq<int>)
    requires HeapOk(m, bs, brk) && Nodes(bs, fl) && SameButLinks(m, m', fl)
    ensures HeapOk(m', bs, brk) && Preserved(m, m', Live(bs))
  {
    hide Tiles, DoubleWords, DoubleAligned, Tags, Fenced, Nodes, SameButLinks, Preserved, Live;
    LinksSpareTags(bs, fl, 16, brk, m, m');
  }

  lemma NodesWithout(bs: seq<Block>, fl: seq<int>, k: int)
    requires Nodes(bs, fl) && 0 <= k < |fl|
    ensures Nodes(bs, OmitAt(fl, k))
    ensures IsFree(bs, fl[k])
  {
    assert fl[k] in fl;
  }

  lemma NodesWith(bs: seq<Block>, fl: seq<int>, k: int, a: int)
    requires Nodes(bs, fl) && 0 <= k <= |fl| && IsFree(bs, a)
    ensures Nodes(bs, PutAt(fl, k, a))
  {
  }

  /** The header of a free block gives a size that selects the last segregated list. */
  lemma FreeHeader(m: Words, bs: seq<Block>, brk: int, a: int)
    requires HeapOk(m, bs, brk) && IsFree(bs, a)
    ensures SizeOf(W(m, a - 4)) >= 16
    ensures DoubleAligned(a) && Aligned(a - 4) && a + 8 <= MAX_HEAP
  {
    var i :| 0 <= i < |bs| && bs[i].free && bs[i].bp == a;
    BlockFacts(m, bs, brk, i);
  }

  /** `a` is the payload pointer of a live block. */
  ghost predicate LivePointer(bs: seq<Block>, a: int) {
    exists i :: 0 <= i < |bs| && !bs[i].free && bs[i].bp == a
  }

  ghost function IndexOfLive(bs: seq<Block>, a: int): (k: int)
    requires LivePointer(bs, a)
    ensures 0 <= k < |bs| && !bs[k].free && bs[k].bp == a
  {
    var i :| 0 <= i < |bs| && !bs[i].free && bs[i].bp == a;
    i
  }

  /** Only words inside the first `n` payload bytes of `b` may differ. */
  ghost predicate OnlyPayload(m: Words, m': Words, b: Block, n: int) {
    forall p :: p + 4 <= b.bp || b.bp + n <= p ==> W(m', p) == W(m, p)
  }

  /** A client writing into the payload of a live block disturbs neither heap nor list. */
  lemma PayloadSparesHeap(m: Words, m': Words, bs: seq<Block>, brk: int, b: Block, n: int)
    requires HeapOk(m, bs, brk) && b in Live(bs) && n <= b.size - 8 && OnlyPayload(m, m', b, n)
    ensures HeapOk(m', bs, brk) && Preserved(m, m', Live(bs) - {b})
  {
    hide DoubleWords, DoubleAligned;
    TilesOrdered(bs, 16, brk);
    var k :| 0 <= k < |bs| && bs[k] == b;
    forall i | 0 <= i < |bs|
      ensures Tagged(m', bs[i])
      ensures bs[i] != b ==> Same(m, m', bs[i].bp, bs[i].End() - 8)
    {
    }
  }

  lemma PayloadSparesLinks(m: Words, m': Words, bs: seq<Block>, brk: int, b: Block, n: int, fl: seq<int>)
    requires Tiles(bs, 16, brk) && b in Live(bs) && n <= b.size - 8 && OnlyPayload(m, m', b, n)
    requires LinkedList(m, fl) && Nodes(bs, fl)
    ensures LinkedList(m', fl)
  {
    hide Links, Spaced, InArena, SameOutside;
    TilesOrdered(bs, 16, brk);
    forall a | a in fl
      ensures a + 8 <= b.bp - 4 || b.bp + b.size - 8 <= a
    {
      var i :| 0 <= i < |bs| && bs[i].free && bs[i].bp == a;
      var k :| 0 <= k < |bs| && bs[k] == b;
    }
    PayloadOutside(m, m', b, n);
    LinksOutside(m, m', fl, b.bp - 4, b.bp + b.size - 8);
  }

  lemma PayloadOutside(m: Words, m': Words, b: Block, n: int)
    requires n <= b.size - 8 && OnlyPayload(m, m', b, n)
    ensures SameOutside(m, m', b.bp - 4, b.bp + b.size - 8)
  {
  }

  /** Where a live block lies and what its header reads as. */
  lemma LiveFacts(m: Words, bs: seq<Block>, brk: int, b: Block)
    requires HeapOk(m, bs, brk) && b in Live(bs)
    ensures LivePointer(bs, b.bp) && SizeOf(W(m, b.bp - 4)) == b.size && Aligned(b.bp - 4)
    ensures 16 <= b.bp && 16 <= b.size && b.bp + b.size <= brk <= MAX_HEAP == 20971520
    ensures DoubleAligned(b.bp) && DoubleAligned(b.bp + b.size - 8)
  {
    hide HeapOk, SizeOf, AllocOf, Pack, Aligned, DoubleAligned, W, StartAt;
    var k :| 0 <= k < |bs| && bs[k] == b;
    BlockFacts(m, bs, brk, k);
    DoubleAlignedSum(b.bp, b.size);
  }

  /** Distinct live blocks do not overlap, so a pointer names one block. */
  lemma LiveApart(bs: seq<Block>, lo: int, hi: int, b: Block, c: Block)
    requires Tiles(bs, lo, hi) && b in Live(bs) && c in Live(bs) && b != c
    ensures b.bp + b.size <= c.bp || c.bp + c.size <= b.bp
    ensures b.bp != c.bp
  {
    TilesOrdered(bs, lo, hi);
    var i :| 0 <= i < |bs| && bs[i] == b;
    var j :| 0 <= j < |bs| && bs[j] == c;
  }

  /** The live block at a pointer. */
  ghost function BlockAt(bs: seq<Block>, a: int): (b: Block)
    requires LivePointer(bs, a)
    ensures b in Live(bs) && b.bp == a
  {
    bs[IndexOfLive(bs, a)]
  }

  lemma FoldOnlyPayload(m: Words, m': Words, b: Block, n: int)
    requires forall p :: p + 4 <= b.bp || b.bp + n <= p ==> W(m', p) == W(m, p)
    ensures OnlyPayload(m, m', b, n)
  {
  }

  /** Preserved words are preserved payload bytes. */
  lemma PreservedBytes(s: seq<byte>, s': seq<byte>, m: Words, m': Words, bs: seq<Block>, brk: int,
                       live: set<Block>, b: Block)
    requires |s| == |s'| == MAX_HEAP && Represents(s, m) && Represents(s', m')
    requires HeapOk(m, bs, brk) && b in Live(bs) && b in live && Preserved(m, m', live)
    ensures 0 <= b.bp && b.bp + b.size - 8 <= MAX_HEAP
    ensures s'[b.bp..b.bp + b.size - 8] == s[b.bp..b.bp + b.size - 8]
  {
    LiveFacts(m, bs, brk, b);
    hide HeapOk, Live, DoubleAligned, Represents;
    BytesOfWords(s, s', m, m', b.bp, b.bp + b.size - 8);
  }

  lemma SubSlice(s: seq<byte>, s': seq<byte>, lo: int, mid: int, hi: int)
    requires 0 <= lo <= mid <= hi <= |s| == |s'| && s[lo..hi] == s'[lo..hi]
    ensures s[lo..mid] == s'[lo..mid]
  {
    assert s[lo..mid] == s[lo..hi][..mid - lo];
  }

  /** How many payload bytes mm_realloc carries over. */
  ghost function Copied(bs: seq<Block>, a: int, size: int): int
    requires LivePointer(bs, a)
  {
    var payload := BlockAt(bs, a).size - 8;
    if size < payload then size else payload
  }

  lemma CopiedFacts(bs: seq<Block>, a: int, size: int)
    requires LivePointer(bs, a)
    ensures var payload := BlockAt(bs, a).size - 8;
      Copied(bs, a, size) == if size < payload then size else payload
  {
  }

  /** Preservation over a step and over a write to a block that was not live before. */
  lemma PreservedBeside(m0: Words, m1: Words, m2: Words, live: set<Block>, live1: set<Block>, b: Block)
    requires Preserved(m0, m1, live) && live1 == live + {b} && b !in live && Preserved(m1, m2, live1 - {b})
    ensures Preserved(m0, m2, live)
  {
  }

  /** Preservation over a step and over a free. */
  lemma PreservedButOne(m0: Words, m1: Words, m2: Words, live: set<Block>, live1: set<Block>, live2: set<Block>, a: int)
    requires Preserved(m0, m1, live) && live <= live1
    requires live2 == (set c | c in live1 && c.bp != a) && Preserved(m1, m2, live2)
    ensures Preserved(m0, m2, set c | c in live && c.bp != a)
  {
  }

  /** The first `n` bytes at `r` are those that were at `a`. */
  ghost predicate CopiedBytes(s: seq<byte>, s': seq<byte>, a: int, r: int, n: int) {
    0 <= a && 0 <= r && 0 <= n && a + n <= |s| && r + n <= |s'| && s'[r..r + n] == s[a..a + n]
  }

  /** Byte by byte: as many as were asked for and as the old payload had. */
  lemma CopiedEach(s: seq<byte>, s': seq<byte>, bs: seq<Block>, a: int, r: int, size: int)
    requires LivePointer(bs, a) && CopiedBytes(s, s', a, r, Copied(bs, a, size))
    ensures 0 <= r <= |s'|
    ensures forall x :: r <= x < r + size && x - r < BlockAt(bs, a).size - 8 ==>
      x < |s'| && 0 <= a + (x - r) < |s| && s'[x] == s[a + (x - r)]
  {
    var n := Copied(bs, a, size);
    forall x | r <= x < r + n
      ensures s'[x] == s[a + (x - r)]
    {
      assert s'[r..r + n][x - r] == s[a..a + n][x - r];
    }
  }

  lemma FoldCopied(s: seq<byte>, s': seq<byte>, a: int, r: int, n: int)
    requires 0 <= a && 0 <= r && 0 <= n && a + n <= |s| && r + n <= |s'| && s'[r..r + n] == s[a..a + n]
    ensures CopiedBytes(s, s', a, r, n)
  {
  }

  lemma CopiedFurther(s: seq<byte>, s': seq<byte>, s'': seq<byte>, a: int, r: int, n: int, top: int)
    requires CopiedBytes(s, s', a, r, n) && n <= top && r + top <= |s'| == |s''|
    requires s'[r..r + top] == s''[r..r + top]
    ensures CopiedBytes(s, s'', a, r, n)
  {
    SubSlice(s', s'', r, r + n, r + top);
  }
}
