/** Whole traces of allocator requests, as mdriver.c replays them. */
module Traces {
  import opened Layout
  import opened BoundaryTags
  import opened Requests

  datatype Op =
    | Alloc(index: nat, size: int)
    | Realloc(index: nat, size: int)
    | Free(index: nat)

  /** A live id: its block, and the bytes it asked for. */
  datatype Entry = Entry(block: Block, size: int)

  /** The heap together with the ids that are live. A payload whose id is allocated again
      while it is live is lost: it stays, under one of the keys -1, -2, ..., -lost. */
  datatype Client = Client(heap: State, live: map<int, Entry>, lost: nat)

  /** The live payload of id `i` becomes a lost one. */
  ghost function Lose(c: Client, i: int): Client {
    if i in c.live then c.(live := Renamed(c.live, i, -1 - c.lost), lost := c.lost + 1) else c
  }

  ghost function Renamed(live: map<int, Entry>, i: int, k: int): map<int, Entry>
    requires i in live
  {
    (live - {i})[k := live[i]]
  }

  ghost function Blocks(live: map<int, Entry>): set<Block> {
    set i | i in live :: live[i].block
  }

  /** The blocks of `live` are exactly the blocks `bs`, one for each id, all large enough. */
  ghost predicate Owned(live: map<int, Entry>, bs: set<Block>) {
    && Blocks(live) == bs
    && (forall i :: i in live ==> 0 < live[i].size && live[i].size + 8 <= live[i].block.size)
    && (forall i, j :: i in live && j in live && i != j ==> live[i].block != live[j].block)
  }

  ghost predicate ValidClient(c: Client) {
    && ValidState(c.heap) && 16 < c.heap.brk && Owned(c.live, Live(c.heap.blocks))
    && forall i :: i in c.live ==> 0 <= i + c.lost
  }

  /** What a well-formed trace guarantees about its next request. */
  ghost predicate Allowed(c: Client, op: Op) {
    match op
    case Alloc(i, size) => size > 0 && HasRoom(c.heap, Adjusted(size))
    case Realloc(i, size) => i in c.live && size > 0 && HasRoom(c.heap, Adjusted(size))
    case Free(i) => i in c.live
  }

  ghost function Step(c: Client, op: Op): Client
    requires ValidClient(c) && Allowed(c, op)
  {
    match op
    case Alloc(i, size) =>
      var n, d := Adjusted(size), Lose(c, i);
      Client(MallocState(c.heap, n), d.live[i := Entry(MallocBlock(c.heap, n), size)], d.lost)
    case Realloc(i, size) =>
      var n := Adjusted(size);
      Client(FreeState(MallocState(c.heap, n), c.live[i].block.bp),
             c.live[i := Entry(MallocBlock(c.heap, n), size)], c.lost)
    case Free(i) =>
      Client(FreeState(c.heap, c.live[i].block.bp), c.live - {i}, c.lost)
  }

  lemma RenamedOwner(live: map<int, Entry>, bs: set<Block>, i: int, k: int)
    requires Owned(live, bs) && i in live && k !in live
    ensures Owned(Renamed(live, i, k), bs)
  {
    var live' := Renamed(live, i, k);
    forall b | b in bs
      ensures b in Blocks(live')
    {
      var j :| j in live && live[j].block == b;
      assert live'[if j == i then k else j].block == b;
    }
    forall b | b in Blocks(live')
      ensures b in bs
    {
      var j :| j in live' && live'[j].block == b;
      assert live[if j == k then i else j].block in Blocks(live);
    }
  }

  lemma LoseValid(c: Client, i: int)
    requires ValidClient(c) && i >= 0
    ensures ValidClient(Lose(c, i)) && i !in Lose(c, i).live && Lose(c, i).heap == c.heap
  {
    hide ValidState, Owned, Live;
    if i in c.live {
      RenamedOwner(c.live, Live(c.heap.blocks), i, -1 - c.lost);
    }
  }

  lemma AddOwner(live: map<int, Entry>, bs: set<Block>, i: int, e: Entry)
    requires Owned(live, bs) && i !in live && e.block !in bs && 0 < e.size && e.size + 8 <= e.block.size
    ensures Owned(live[i := e], bs + {e.block})
  {
    var live' := live[i := e];
    assert forall j :: j in live ==> live[j].block in Blocks(live);
    assert forall b :: b in Blocks(live') ==> b in Blocks(live) || b == e.block;
    forall b | b in bs + {e.block}
      ensures b in Blocks(live')
    {
      if b in bs && b != e.block {
        var j :| j in live && live[j].block == b;
        assert live'[j].block == b;
      } else {
        assert live'[i].block == b;
      }
    }
  }

  lemma DropOwner(live: map<int, Entry>, bs: set<Block>, i: int)
    requires Owned(live, bs) && i in live
    requires forall b, c :: b in bs && c in bs && b.bp == c.bp ==> b == c
    ensures Owned(live - {i}, set b | b in bs && b.bp != live[i].block.bp)
  {
    var live', bs' := live - {i}, set b | b in bs && b.bp != live[i].block.bp;
    assert live[i].block in Blocks(live);
    forall b | b in bs'
      ensures b in Blocks(live')
    {
      var j :| j in live && live[j].block == b;
      assert j in live' && live'[j].block == b;
    }
    forall b | b in Blocks(live')
      ensures b in bs'
    {
      var j :| j in live' && live'[j].block == b;
      assert live[j].block in Blocks(live);
    }
  }

  lemma LivePointersUnique(s: State)
    requires ValidState(s)
    ensures forall b, c :: b in Live(s.blocks) && c in Live(s.blocks) && b.bp == c.bp ==> b == c
  {
    forall b, c | b in Live(s.blocks) && c in Live(s.blocks) && b.bp == c.bp
      ensures b == c
    {
      if b != c {
        LiveApart(s.blocks, 16, s.brk, b, c);
      }
    }
  }

  lemma OwnerOf(c: Client, i: int)
    requires ValidClient(c) && i in c.live
    ensures c.live[i].block in Live(c.heap.blocks)
    ensures 0 < c.live[i].size && c.live[i].size + 8 <= c.live[i].block.size
  {
    assert c.live[i].block in Blocks(c.live);
  }

  lemma Owners(c: Client)
    requires ValidClient(c)
    ensures forall i :: i in c.live ==>
      (c.live[i].block in Live(c.heap.blocks) && 0 < c.live[i].size && c.live[i].size + 8 <= c.live[i].block.size)
  {
    forall i | i in c.live
      ensures c.live[i].block in Live(c.heap.blocks)
    {
      OwnerOf(c, i);
    }
  }

  lemma FoldClient(c: Client)
    requires ValidState(c.heap) && 16 < c.heap.brk && Owned(c.live, Live(c.heap.blocks))
    requires forall i :: i in c.live ==> 0 <= i + c.lost
    ensures ValidClient(c)
  {
  }

  lemma UnfoldClient(c: Client)
    requires ValidClient(c)
    ensures ValidState(c.heap) && 16 < c.heap.brk && Owned(c.live, Live(c.heap.blocks))
    ensures forall i :: i in c.live ==> 0 <= i + c.lost
  {
  }

  lemma AllocValid(c: Client, i: int, size: int)
    requires ValidClient(c) && i !in c.live && i >= 0 && size > 0
    ensures var n := Adjusted(size);
      ValidClient(Client(MallocState(c.heap, n), c.live[i := Entry(MallocBlock(c.heap, n), size)], c.lost))
  {
    hide *;
    var n := Adjusted(size);
    UnfoldClient(c);
    MallocAddsBlock(c.heap, n);
    AddOwner(c.live, Live(c.heap.blocks), i, Entry(MallocBlock(c.heap, n), size));
    FoldClient(Client(MallocState(c.heap, n), c.live[i := Entry(MallocBlock(c.heap, n), size)], c.lost));
  }

  lemma FreeValid(c: Client, i: int)
    requires ValidClient(c) && i in c.live
    ensures ValidClient(Client(FreeState(c.heap, c.live[i].block.bp), c.live - {i}, c.lost))
  {
    hide *;
    UnfoldClient(c);
    LivePointersUnique(c.heap);
    FreeRemovesBlock(c.heap, c.live[i].block.bp);
    DropOwner(c.live, Live(c.heap.blocks), i);
    FoldClient(Client(FreeState(c.heap, c.live[i].block.bp), c.live - {i}, c.lost));
  }

  lemma ReallocValid(c: Client, i: int, size: int)
    requires ValidClient(c) && i in c.live && size > 0
    ensures var n := Adjusted(size);
      ValidClient(Client(FreeState(MallocState(c.heap, n), c.live[i].block.bp),
                         c.live[i := Entry(MallocBlock(c.heap, n), size)], c.lost))
  {
    hide *;
    var n := Adjusted(size);
    UnfoldClient(c);
    var s, b, p := MallocState(c.heap, n), MallocBlock(c.heap, n), c.live[i].block.bp;
    LivePointersUnique(c.heap);
    MallocAddsBlock(c.heap, n);
    FreeRemovesBlock(s, p);
    OwnerOf(c, i);
    LivePointersUnique(s);
    DropOwner(c.live, Live(c.heap.blocks), i);
    AddOwner(c.live - {i}, (set x | x in Live(c.heap.blocks) && x.bp != p), i, Entry(b, size));
    assert (c.live - {i})[i := Entry(b, size)] == c.live[i := Entry(b, size)];
    assert Live(FreeState(s, p).blocks) == (set x | x in Live(c.heap.blocks) && x.bp != p) + {b};
    FoldClient(Client(FreeState(s, p), c.live[i := Entry(b, size)], c.lost));
  }

  /** Every request of a well-formed trace leaves heap and ids in agreement. */
  lemma StepValid(c: Client, op: Op)
    requires ValidClient(c) && Allowed(c, op)
    ensures ValidClient(Step(c, op))
  {
    match op
    case Alloc(i, size) =>
      LoseValid(c, i);
      AllocValid(Lose(c, i), i, size);
    case Realloc(i, size) => ReallocValid(c, i, size);
    case Free(i) => FreeValid(c, i);
  }

  // ----- whole traces -----

  /** The heap after mm_init, with no id live. */
  ghost function Initial(): (c: Client)
    ensures ValidClient(c)
  {
    assert Live([Block(16, 64, true)]) == {};
    Client(State([Block(16, 64, true)], 80), map[], 0)
  }

  /** Every request of the trace is allowed when its turn comes. */
  ghost predicate WellFormed(c: Client, ops: seq<Op>)
    requires ValidClient(c)
    decreases |ops|
  {
    ops == [] || (Allowed(c, ops[0]) && (StepValid(c, ops[0]); WellFormed(Step(c, ops[0]), ops[1..])))
  }

  ghost function Run(c: Client, ops: seq<Op>): Client
    requires ValidClient(c) && WellFormed(c, ops)
    decreases |ops|
  {
    if ops == [] then c else
      StepValid(c, ops[0]);
      Run(Step(c, ops[0]), ops[1..])
  }

  lemma {:induction false} RunValid(c: Client, ops: seq<Op>)
    requires ValidClient(c) && WellFormed(c, ops)
    ensures ValidClient(Run(c, ops))
    decreases |ops|
  {
    if ops != [] {
      StepValid(c, ops[0]);
      RunValid(Step(c, ops[0]), ops[1..]);
    }
  }

  /** Whatever the trace did, if it ends with no payload live or lost then the heap has
      recovered: one free block of everything between prologue and epilogue. */
  lemma BalancedTraceRecovers(ops: seq<Op>)
    requires WellFormed(Initial(), ops)
    requires Run(Initial(), ops).live == map[]
    ensures var heap := Run(Initial(), ops).heap;
      heap.blocks == [Block(16, heap.brk - 16, true)]
  {
    RunValid(Initial(), ops);
    var c := Run(Initial(), ops);
    assert Blocks(c.live) == {};
    FullRecovery(c.heap, []);
    assert FreeAll(c.heap, []) == c.heap;
  }
}
