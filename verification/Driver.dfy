/** mdriver.c's eval_mm_valid: replays a trace on the allocator and checks every answer. */
module Driver {
  import opened Bytes
  import opened Memory
  import opened Layout
  import opened BoundaryTags
  import opened Requests
  import opened Traces
  import opened Ranges
  import opened Allocator

  /** A byte read through the driver's `char *`, which is signed. */
  function Signed(b: byte): int {
    if b < 128 then b else b - 256
  }

  /** The low byte of an id, which fills its payload. */
  function LowByte(index: nat): byte {
    index % 256
  }

  ghost predicate Filled(s: seq<byte>, lo: int, n: int, v: int) {
    0 <= lo && lo + n <= |s| && forall x :: lo <= x < lo + n ==> s[x] == v
  }

  /** Each id's live payload is filled with its low byte. */
  ghost predicate AllFilled(s: seq<byte>, live: map<int, Entry>) {
    forall i :: i in live && i >= 0 ==> Filled(s, live[i].block.bp, live[i].size, LowByte(i))
  }

  /** The driver's arrays hold pointer and size of each live id. */
  ghost predicate Tabled(ids: seq<int>, sizes: seq<int>, live: map<int, Entry>) {
    && |ids| == |sizes|
    && forall i :: i in live && i >= 0 ==> i < |ids| && ids[i] == live[i].block.bp && sizes[i] == live[i].size
  }

  /** Payloads in preserved blocks stay filled. */
  lemma FilledKept(s: seq<byte>, s': seq<byte>, m: Words, m': Words, bs: seq<Block>, brk: int,
                   keep: set<Block>, live: map<int, Entry>, live': map<int, Entry>)
    requires |s| == |s'| == MAX_HEAP && Represents(s, m) && Represents(s', m')
    requires HeapOk(m, bs, brk) && Preserved(m, m', keep) && keep <= Live(bs) && AllFilled(s, live)
    requires forall i :: i in live' ==>
      (i in live && live'[i] == live[i] && live[i].block in keep && live[i].size + 8 <= live[i].block.size)
    ensures AllFilled(s', live')
  {
    hide HeapOk, Represents, Preserved, Live;
    forall i | i in live' && i >= 0
      ensures Filled(s', live'[i].block.bp, live'[i].size, LowByte(i))
    {
      var e := live[i];
      assert Filled(s, e.block.bp, e.size, LowByte(i));
      PreservedBytes(s, s', m, m', bs, brk, keep, e.block);
      LiveFacts(m, bs, brk, e.block);
      SameFill(s, s', e.block.bp, e.size, e.block.bp + e.block.size - 8, LowByte(i));
    }
  }

  lemma SameFill(s: seq<byte>, s': seq<byte>, lo: int, n: int, hi: int, v: int)
    requires Filled(s, lo, n, v) && lo <= hi <= |s| == |s'| && lo + n <= hi && s'[lo..hi] == s[lo..hi]
    ensures Filled(s', lo, n, v)
  {
    forall x | lo <= x < lo + n
      ensures s'[x] == v
    {
      assert s'[x] == s'[lo..hi][x - lo] == s[lo..hi][x - lo] == s[x];
    }
  }

  lemma FilledAdd(s: seq<byte>, live: map<int, Entry>, i: int, e: Entry)
    requires i >= 0 && AllFilled(s, live - {i}) && Filled(s, e.block.bp, e.size, LowByte(i))
    ensures AllFilled(s, live[i := e])
  {
    assert forall j :: j in live && j != i ==> j in live - {i} && (live - {i})[j] == live[j];
  }

  lemma FoldFilled(s: seq<byte>, lo: int, n: int, v: int)
    requires 0 <= lo && lo + n <= |s| && forall x :: lo <= x < lo + n ==> s[x] == v
    ensures Filled(s, lo, n, v)
  {
  }

  lemma FilledAt(s: seq<byte>, live: map<int, Entry>, i: int)
    requires AllFilled(s, live) && i in live && i >= 0
    ensures Filled(s, live[i].block.bp, live[i].size, LowByte(i))
  {
  }

  /** What was copied from a filled payload is filled. */
  lemma CopiedFill(s: seq<byte>, s': seq<byte>, a: int, r: int, n: int, size: int, k: int, v: int)
    requires CopiedBytes(s, s', a, r, n) && Filled(s, a, size, v) && 0 <= k <= n && k <= size
    ensures 0 <= r && r + k <= |s'| && forall x :: r <= x < r + k ==> s'[x] == v
  {
    forall x | r <= x < r + k
      ensures s'[x] == v
    {
      assert s'[x] == s'[r..r + n][x - r] == s[a..a + n][x - r] == s[a + (x - r)];
    }
  }

  /** The driver's comparison of a copied byte with its id fails for low bytes from 128 on. */
  lemma SignedLowByte(i: nat)
    ensures LowByte(i) == i % 256
    ensures Signed(LowByte(i)) == LowByte(i) <==> i % 256 < 128
  {
  }

  /** A live block is the one found at its pointer. */
  lemma BlockOfPointer(s: State, b: Block)
    requires ValidState(s) && b in Live(s.blocks)
    ensures LivePointer(s.blocks, b.bp) && BlockAt(s.blocks, b.bp) == b
  {
    var k :| 0 <= k < |s.blocks| && s.blocks[k] == b;
    LivePointersUnique(s);
  }

  lemma TabledAdd(ids: seq<int>, sizes: seq<int>, live: map<int, Entry>, i: int, e: Entry)
    requires Tabled(ids, sizes, live) && 0 <= i < |ids|
    ensures |ids| == |sizes| && Tabled(ids[i := e.block.bp], sizes[i := e.size], live[i := e])
  {
  }

  lemma TabledAt(ids: seq<int>, sizes: seq<int>, live: map<int, Entry>, i: int)
    requires Tabled(ids, sizes, live) && i in live && i >= 0
    ensures i < |ids| == |sizes| && ids[i] == live[i].block.bp && sizes[i] == live[i].size
  {
  }

  lemma UniqueStarts(c: Client)
    requires ValidClient(c)
    ensures forall i, j :: i in c.live && j in c.live && i != j ==> c.live[i].block.bp != c.live[j].block.bp
  {
    LivePointersUnique(c.heap);
    Owners(c);
  }

  lemma TabledDrop(ids: seq<int>, sizes: seq<int>, live: map<int, Entry>, i: int)
    requires Tabled(ids, sizes, live)
    ensures Tabled(ids, sizes, live - {i})
  {
  }

  lemma RangeOfEntry(b: Block, size: int)
    ensures RangeOf(Entry(b, size)) == Range(b.bp, b.bp + size - 1)
  {
  }

  lemma AllocFacts(c: Client, i: nat, size: int)
    requires ValidClient(c) && Allowed(c, Op.Alloc(i, size))
    ensures var d := Lose(c, i);
      && i !in d.live && size > 0 && HasRoom(c.heap, Adjusted(size)) && ValidState(c.heap)
      && ValidClient(d) && d.heap == c.heap && d.live - {i} == d.live
    ensures var n, d := Adjusted(size), Lose(c, i);
      Step(c, Op.Alloc(i, size)) ==
      Client(MallocState(c.heap, n), d.live[i := Entry(MallocBlock(c.heap, n), size)], d.lost)
  {
    LoseValid(c, i);
  }

  /** Losing a payload changes nothing in memory, arrays or range list. */
  lemma LoseKeeps(c: Client, i: nat, rs: seq<Range>, ids: seq<int>, sizes: seq<int>, s: seq<byte>)
    requires ValidClient(c) && Recorded(rs, c.live) && Tabled(ids, sizes, c.live) && AllFilled(s, c.live)
    ensures var d := Lose(c, i); Recorded(rs, d.live) && Tabled(ids, sizes, d.live) && AllFilled(s, d.live)
  {
    hide Recorded;
    if i in c.live {
      RecordRenamed(rs, c.live, i, -1 - c.lost);
    }
  }

  lemma ReallocFacts(c: Client, i: nat, size: int)
    requires ValidClient(c) && Allowed(c, Op.Realloc(i, size))
    ensures i in c.live && size > 0 && HasRoom(c.heap, Adjusted(size)) && ValidState(c.heap)
    ensures var n := Adjusted(size);
      Step(c, Op.Realloc(i, size)) ==
      Client(FreeState(MallocState(c.heap, n), c.live[i].block.bp),
             c.live[i := Entry(MallocBlock(c.heap, n), size)], c.lost)
  {
  }

  lemma FreeFacts(c: Client, i: nat)
    requires ValidClient(c) && Allowed(c, Op.Free(i))
    ensures i in c.live && ValidState(c.heap)
    ensures Step(c, Op.Free(i)) == Client(FreeState(c.heap, c.live[i].block.bp), c.live - {i}, c.lost)
  {
  }

  class Replay {
    const heap: Heap
    const ids: array<int>
    const sizes: array<int>
    var ranges: seq<Range>
    ghost var client: Client

    ghost predicate Apart() {
      ids != sizes && ids != heap.roots && sizes != heap.roots && ids.Length == sizes.Length
    }

    ghost predicate Valid()
      reads this, heap, heap.mem, heap.mem.store, heap.roots, ids, sizes
    {
      && Apart() && heap.Valid()
      && ValidClient(client) && client.heap == heap.View()
      && Recorded(ranges, client.live)
      && Tabled(ids[..], sizes[..], client.live)
      && AllFilled(heap.mem.store[..], client.live)
    }

    /** The driver's statics with the arrays of a trace of `n` ids. */
    constructor (n: nat)
      ensures Apart() && ids.Length == n && fresh(heap) && fresh(heap.mem) && fresh(heap.mem.store)
      ensures fresh(heap.roots) && fresh(ids) && fresh(sizes)
      ensures heap.mem.Valid() && heap.mem.brk == 0 && heap.roots.Length == 5
    {
      heap := new Heap();
      ids := new int[n];
      sizes := new int[n];
      ranges := [];
      client := Initial();
    }

    lemma Unfold()
      requires Valid()
      ensures Apart() && ids != sizes && ids != heap.roots && sizes != heap.roots && ids.Length == sizes.Length
      ensures heap.Valid() && ValidClient(client) && client.heap == heap.View()
      ensures Recorded(ranges, client.live) && Tabled(ids[..], sizes[..], client.live)
      ensures AllFilled(heap.mem.store[..], client.live)
    {
    }

    lemma UnfoldApart()
      requires Apart()
      ensures ids != sizes && ids != heap.roots && sizes != heap.roots && ids.Length == sizes.Length
    {
    }

    lemma Fold()
      requires Apart() && heap.Valid() && ValidClient(client) && client.heap == heap.View()
      requires Recorded(ranges, client.live) && Tabled(ids[..], sizes[..], client.live)
      requires AllFilled(heap.mem.store[..], client.live)
      ensures Valid()
    {
    }

    /** add_range */
    method AddRange(lo: int, size: int) returns (ok: bool)
      requires size > 0
      modifies `ranges
      ensures ok == Acceptable(old(ranges), heap.mem.brk, lo, size)
      ensures ranges == if ok then [Range(lo, lo + size - 1)] + old(ranges) else old(ranges)
    {
      var hi := lo + size - 1;
      if lo % 8 != 0 {
        return false;
      }
      if lo < 0 || lo > heap.mem.brk - 1 || hi < 0 || hi > heap.mem.brk - 1 {
        return false;
      }
      for p := 0 to |ranges|
        invariant forall i :: 0 <= i < p ==> !Overlaps(lo, hi, ranges[i])
      {
        if Overlaps(lo, hi, ranges[p]) {
          assert ranges[p] in ranges;
          return false;
        }
      }
      ranges := [Range(lo, hi)] + ranges;
      return true;
    }

    /** remove_range */
    method RemoveRange(lo: int)
      modifies `ranges
      ensures ranges == Dropped(old(ranges), lo)
    {
      var p := 0;
      while p < |ranges|
        invariant 0 <= p <= |ranges| && ranges == old(ranges)
        invariant Dropped(ranges, lo) == ranges[..p] + Dropped(ranges[p..], lo)
      {
        if ranges[p].lo == lo {
          ranges := ranges[..p] + ranges[p + 1..];
          return;
        }
        p := p + 1;
      }
    }

    /** Fills the payload at `p` with the id's low byte and enters it into the arrays. */
    method Remember(i: nat, size: int, p: int, ghost b: Block,
                    ghost others: map<int, Entry>, ghost live: map<int, Entry>)
      requires Apart() && heap.Valid() && i < ids.Length
      requires p == b.bp && b in Live(heap.blocks) && 0 < size && size + 8 <= b.size
      requires AllFilled(heap.mem.store[..], others) && others == live - {i}
      requires forall j :: j in others ==>
        (others[j].block in Live(heap.blocks) && others[j].block != b && others[j].size + 8 <= others[j].block.size)
      requires Tabled(ids[..], sizes[..], live)
      modifies ids, sizes, heap.mem`words, heap.mem.store
      ensures heap.Valid() && heap.View() == old(heap.View())
      ensures AllFilled(heap.mem.store[..], live[i := Entry(b, size)])
      ensures Tabled(ids[..], sizes[..], live[i := Entry(b, size)])
    {
      hide *;
      heap.Expose();
      heap.ViewFacts();
      UnfoldApart();
      ghost var m, bytes := heap.mem.words, heap.mem.store[..];
      LiveFacts(m, heap.blocks, heap.mem.brk, b);
      heap.mem.Fill(p, LowByte(i), size);
      FoldOnlyPayload(m, heap.mem.words, b, size);
      heap.PayloadWritten(m, b, size);
      heap.ViewFacts();
      heap.Expose();
      FilledKept(bytes, heap.mem.store[..], m, heap.mem.words, heap.blocks, heap.mem.brk,
                 Live(heap.blocks) - {b}, others, others);
      FoldFilled(heap.mem.store[..], p, size, LowByte(i));
      FilledAdd(heap.mem.store[..], live, i, Entry(b, size));
      TabledAdd(ids[..], sizes[..], live, i, Entry(b, size));
      ids[i] := p;
      sizes[i] := size;
    }

    /** Compares the first `n` bytes at `p` with the id's low byte, as signed chars. */
    method CheckData(p: int, n: int, i: nat) returns (ok: bool)
      requires 0 < n && 0 <= p && p + n <= heap.mem.store.Length
      requires forall x :: p <= x < p + n ==> heap.mem.store[x] == i % 256
      ensures ok == (i % 256 < 128)
    {
      for j := 0 to n
        invariant j > 0 ==> i % 256 < 128
      {
        if Signed(heap.mem.store[p + j]) != LowByte(i) {
          return false;
        }
      }
      return true;
    }

    /** One ALLOC request; a payload that the id still has is lost. */
    method DoAlloc(i: nat, size: int) returns (ok: bool)
      requires Valid() && i < ids.Length
      requires Allowed(client, Op.Alloc(i, size))
      modifies this`ranges, this`client, ids, sizes
      modifies heap, heap.mem, heap.mem.store, heap.roots
      ensures ok && Valid() && client == Step(old(client), Op.Alloc(i, size))
    {
      hide *;
      ghost var m0, bytes0 := heap.mem.words, heap.mem.store[..];
      ghost var c := Lose(client, i);
      Unfold();
      AllocFacts(client, i, size);
      LoseKeeps(client, i, ranges, ids[..], sizes[..], bytes0);
      heap.ViewFacts();
      heap.Expose();
      ghost var n, s0, bs := Adjusted(size), heap.View(), heap.blocks;
      ghost var b := MallocBlock(s0, n);
      MallocAddsBlock(s0, n);
      var p := heap.Malloc(size);
      heap.ViewFacts();
      heap.Expose();
      if p == 0 {
        return false;
      }
      Owners(c);
      NewBlockAcceptable(ranges, c.live, b, size, heap.mem.brk);
      RangeOfEntry(b, size);
      RecordAdded(ranges, c.live, i, Entry(b, size));
      ok := AddRange(p, size);
      if !ok {
        return;
      }
      FilledKept(bytes0, heap.mem.store[..], m0, heap.mem.words, bs, s0.brk, Live(bs), c.live, c.live);
      Remember(i, size, p, b, c.live, c.live);
      StepValid(client, Op.Alloc(i, size));
      client := Step(client, Op.Alloc(i, size));
      Fold();
    }

    /** One FREE request. */
    method DoFree(i: nat)
      requires Valid() && i < ids.Length
      requires Allowed(client, Op.Free(i))
      modifies this`ranges, this`client
      modifies heap, heap.mem, heap.mem.store, heap.roots
      ensures Valid() && client == Step(old(client), Op.Free(i))
    {
      hide *;
      ghost var c, m0, bytes0 := client, heap.mem.words, heap.mem.store[..];
      Unfold();
      FreeFacts(c, i);
      heap.ViewFacts();
      heap.Expose();
      ghost var s0, bs, a := heap.View(), heap.blocks, c.live[i].block;
      TabledAt(ids[..], sizes[..], c.live, i);
      Owners(c);
      UniqueStarts(c);
      LiveFacts(m0, bs, heap.mem.brk, a);
      FreeRemovesBlock(s0, a.bp);
      RecordDropped(ranges, c.live, i);
      TabledDrop(ids[..], sizes[..], c.live, i);
      var p := ids[i];
      RemoveRange(p);
      heap.Free(p);
      heap.ViewFacts();
      heap.Expose();
      FilledKept(bytes0, heap.mem.store[..], m0, heap.mem.words, bs, s0.brk, Live(heap.blocks), c.live, c.live - {i});
      client := Step(c, Op.Free(i));
      StepValid(c, Op.Free(i));
      Fold();
    }

    /** One REALLOC request: fails exactly when the id's low byte is negative as a char. */
    method DoRealloc(i: nat, size: int) returns (ok: bool)
      requires Valid() && i < ids.Length
      requires Allowed(client, Op.Realloc(i, size))
      modifies this`ranges, this`client, ids, sizes
      modifies heap, heap.mem, heap.mem.store, heap.roots
      ensures ok == (i % 256 < 128)
      ensures ok ==> Valid() && client == Step(old(client), Op.Realloc(i, size))
    {
      hide *;
      ghost var c, m0, bytes0 := client, heap.mem.words, heap.mem.store[..];
      Unfold();
      ReallocFacts(c, i, size);
      heap.ViewFacts();
      heap.Expose();
      ghost var n, s0, bs, e := Adjusted(size), heap.View(), heap.blocks, c.live[i];
      ghost var s1, b, a := MallocState(s0, n), MallocBlock(s0, n), e.block;
      TabledAt(ids[..], sizes[..], c.live, i);
      Owners(c);
      UniqueStarts(c);
      LiveFacts(m0, bs, heap.mem.brk, a);
      MallocAddsBlock(s0, n);
      FreeRemovesBlock(s1, a.bp);
      var oldp := ids[i];
      BlockOfPointer(s0, a);
      CopiedFacts(bs, a.bp, size);
      var newp := heap.Realloc(oldp, size);
      heap.ViewFacts();
      heap.Expose();
      ghost var bytes1 := heap.mem.store[..];
      if newp == 0 {
        return false;
      }
      ghost var others := c.live - {i};
      RecordMoved(ranges, c.live, i, b, size, heap.mem.brk);
      RemoveRange(oldp);
      ok := AddRange(newp, size);
      if !ok {
        return;
      }
      var oldsize := sizes[i];
      if size < oldsize {
        oldsize := size;
      }
      FilledAt(bytes0, c.live, i);
      CopiedFill(bytes0, bytes1, a.bp, newp, Copied(bs, a.bp, size), e.size, oldsize, LowByte(i));
      SignedLowByte(i);
      ok := CheckData(newp, oldsize, i);
      if !ok {
        return;
      }
      ghost var keep := set x | x in Live(bs) && x.bp != a.bp;
      FilledKept(bytes0, bytes1, m0, heap.mem.words, bs, s0.brk, keep, c.live, others);
      Remember(i, size, newp, b, others, c.live);
      client := Step(c, Op.Realloc(i, size));
      StepValid(c, Op.Realloc(i, size));
      Fold();
    }

    /** eval_mm_valid: on every well-formed trace the allocator passes all checks,
        except that the signed comparison rejects a realloc of an id whose low byte is 128 or more. */
    method EvalMmValid(ops: seq<Op>) returns (r: int)
      requires Apart() && heap.mem.Valid() && heap.roots.Length == 5
      requires forall k :: 0 <= k < |ops| ==> ops[k].index < ids.Length
      requires WellFormed(Initial(), ops)
      modifies this`ranges, this`client, ids, sizes
      modifies heap, heap.mem, heap.mem.store, heap.roots
      ensures r == if forall k :: 0 <= k < |ops| && ops[k].Realloc? ==> ops[k].index % 256 < 128 then 1 else 0
      ensures r == 1 ==> Valid() && client == Run(Initial(), ops)
    {
      hide *;
      heap.mem.ResetBrk();
      ranges := [];
      var ok := heap.Init();
      if ok < 0 {
        return 0;
      }
      client := Initial();
      UnfoldApart();
      StartFacts(ids[..], sizes[..], heap.mem.store[..]);
      Fold();
      assert ops[0..] == ops;
      var k := 0;
      while k < |ops|
        invariant 0 <= k <= |ops| && Valid() && ValidClient(client)
        invariant WellFormed(client, ops[k..]) && Run(client, ops[k..]) == Run(Initial(), ops)
        invariant forall j :: 0 <= j < k && ops[j].Realloc? ==> ops[j].index % 256 < 128
      {
        NextOp(client, ops, k);
        StepValid(client, ops[k]);
        match ops[k] {
          case Alloc(index, size) =>
            var good := DoAlloc(index, size);
            if !good {
              return 0;
            }
          case Realloc(index, size) =>
            var good := DoRealloc(index, size);
            if !good {
              return 0;
            }
          case Free(index) =>
            DoFree(index);
        }
        k := k + 1;
      }
      RunDone(client, ops[k..]);
      return 1;
    }
  }

  lemma StartFacts(ids: seq<int>, sizes: seq<int>, s: seq<byte>)
    requires |ids| == |sizes|
    ensures Initial().heap == State([Block(16, 64, true)], 80) && Initial().live == map[]
    ensures Recorded([], Initial().live) && Tabled(ids, sizes, Initial().live) && AllFilled(s, Initial().live)
  {
    assert Extents(map[]) == {};
  }

  /** The next request is allowed, and the rest of the trace runs on from its result. */
  lemma NextOp(c: Client, ops: seq<Op>, k: nat)
    requires k < |ops| && ValidClient(c) && WellFormed(c, ops[k..])
    ensures Allowed(c, ops[k]) && ValidClient(Step(c, ops[k]))
    ensures WellFormed(Step(c, ops[k]), ops[k + 1..])
    ensures Run(c, ops[k..]) == Run(Step(c, ops[k]), ops[k + 1..])
  {
    StepValid(c, ops[k]);
    assert ops[k..][1..] == ops[k + 1..];
  }

  lemma RunDone(c: Client, ops: seq<Op>)
    requires ops == [] && ValidClient(c) && WellFormed(c, ops)
    ensures Run(c, ops) == c
  {
  }

  /** A well-formed trace of two requests that eval_mm_valid rejects although the allocator served it. */
  lemma RejectedTrace()
    ensures var ops := [Op.Alloc(128, 8), Op.Realloc(128, 16)];
      && WellFormed(Initial(), ops)
      && !(forall k :: 0 <= k < |ops| && ops[k].Realloc? ==> ops[k].index % 256 < 128)
  {
    var ops := [Op.Alloc(128, 8), Op.Realloc(128, 16)];
    assert ops[1].Realloc? && ops[1].index % 256 == 128;
    RejectedTraceRoom();
    var c1 := Step(Initial(), ops[0]);
    StepValid(Initial(), ops[0]);
    assert ops[1..] == [ops[1]];
    assert Allowed(c1, ops[1]);
    StepValid(c1, ops[1]);
    assert ops[1..][1..] == [];
    assert WellFormed(Step(c1, ops[1]), []);
    assert WellFormed(c1, [ops[1]]);
  }

  lemma RejectedTraceRoom()
    ensures Allowed(Initial(), Op.Alloc(128, 8))
    ensures Allowed(Step(Initial(), Op.Alloc(128, 8)), Op.Realloc(128, 16))
  {
    RoomBelow(Initial().heap, 16);
    AllocFacts(Initial(), 128, 8);
    StepValid(Initial(), Op.Alloc(128, 8));
    PreparedBelow(Initial().heap, 16);
    RoomBelow(Step(Initial(), Op.Alloc(128, 8)).heap, 24);
  }

  /** A small request never lacks room in a small heap. */
  lemma RoomBelow(s: State, n: int)
    requires ValidState(s) && s.brk <= 1000 && 16 <= n <= 1000
    ensures HasRoom(s, n)
  {
    TilesOrdered(s.blocks, 16, s.brk);
  }

  lemma PreparedBelow(s: State, n: int)
    requires ValidState(s) && s.brk <= 80 && 16 <= n <= 80 && DoubleAligned(n)
    ensures MallocState(s, n).brk <= 200
  {
    TilesOrdered(s.blocks, 16, s.brk);
  }
}
