/** mdriver.c's range list: the payload extents of all live ids and lost payloads, newest first. */
module Ranges {
  import opened Memory
  import opened Layout
  import opened Traces

  /** The extent lo..hi of a payload, both ends included. */
  datatype Range = Range(lo: int, hi: int)

  function RangeOf(e: Entry): Range {
    Range(e.block.bp, e.block.bp + e.size - 1)
  }

  ghost function Extents(live: map<int, Entry>): set<Range> {
    set i | i in live :: RangeOf(live[i])
  }

  /** The list records the live ids' payloads, each once. */
  ghost predicate Recorded(rs: seq<Range>, live: map<int, Entry>) {
    && (set r | r in rs) == Extents(live)
    && DistinctStarts(rs)
  }

  /** The overlap test of add_range: an end of lo..hi lies inside `r`. */
  predicate Overlaps(lo: int, hi: int, r: Range) {
    (r.lo <= lo <= r.hi) || (r.lo <= hi <= r.hi)
  }

  /** Byte `x` lies in lo..hi and in `r`. */
  ghost predicate Shares(lo: int, hi: int, r: Range, x: int) {
    lo <= x <= hi && r.lo <= x <= r.hi
  }

  /** No byte of lo..hi lies in `r`, or lo..hi reaches beyond `r` at both ends. */
  ghost predicate ClearOf(lo: int, hi: int, r: Range) {
    (forall x :: !Shares(lo, hi, r, x)) || (lo < r.lo && r.hi < hi)
  }

  lemma OverlapsIff(lo: int, hi: int, r: Range)
    requires lo <= hi
    ensures Overlaps(lo, hi, r) <==> !ClearOf(lo, hi, r)
  {
    if r.lo <= lo <= r.hi {
      assert Shares(lo, hi, r, lo);
    }
    if r.lo <= hi <= r.hi {
      assert Shares(lo, hi, r, hi);
    }
  }

  /** What add_range accepts: aligned payloads inside the heap that share no byte with a
      recorded one, unless they reach beyond it at both ends. */
  lemma AcceptableIff(rs: seq<Range>, brk: int, lo: int, size: int)
    requires size > 0
    ensures Acceptable(rs, brk, lo, size) <==>
      (lo % 8 == 0 && 0 <= lo && lo + size <= brk && forall r :: r in rs ==> ClearOf(lo, lo + size - 1, r))
  {
    hide Overlaps, ClearOf;
    forall r | r in rs
      ensures Overlaps(lo, lo + size - 1, r) <==> !ClearOf(lo, lo + size - 1, r)
    {
      OverlapsIff(lo, lo + size - 1, r);
    }
  }

  /** So add_range accepts a payload around a recorded one, though they overlap. */
  lemma EnclosingAccepted()
    ensures Acceptable([Range(16, 23)], 80, 8, 32) && Shares(8, 39, Range(16, 23), 16)
  {
  }

  /** All checks of add_range on a payload. */
  ghost predicate Acceptable(rs: seq<Range>, brk: int, lo: int, size: int) {
    var hi := lo + size - 1;
    && DoubleAligned(lo)
    && 0 <= lo < brk && 0 <= hi < brk
    && forall r :: r in rs ==> !Overlaps(lo, hi, r)
  }

  /** The list without the first range that starts at `lo`. */
  ghost function Dropped(rs: seq<Range>, lo: int): seq<Range> {
    if rs == [] then [] else if rs[0].lo == lo then rs[1..] else [rs[0]] + Dropped(rs[1..], lo)
  }

  /** A payload inside a block that is apart from the recorded ones passes add_range,
      and no recorded payload overlaps it at all. */
  lemma NewBlockAcceptable(rs: seq<Range>, live: map<int, Entry>, b: Block, size: int, brk: int)
    requires Recorded(rs, live)
    requires 16 <= b.bp && b.bp + b.size <= brk && DoubleAligned(b.bp) && 0 < size && size + 8 <= b.size
    requires forall i :: i in live ==>
      (var x := live[i].block; x.bp + x.size <= b.bp || b.bp + b.size <= x.bp)
    requires forall i :: i in live ==> 0 < live[i].size && live[i].size + 8 <= live[i].block.size
    ensures Acceptable(rs, brk, b.bp, size)
    ensures forall r :: r in rs ==> r.lo <= r.hi && (r.hi < b.bp || b.bp + size - 1 < r.lo)
  {
    hide DoubleAligned;
    forall r | r in rs
      ensures r.lo <= r.hi && (r.hi < b.bp || b.bp + size - 1 < r.lo)
    {
      assert r in Extents(live);
      var i :| i in live && RangeOf(live[i]) == r;
    }
  }

  lemma RecordAdded(rs: seq<Range>, live: map<int, Entry>, i: int, e: Entry)
    requires Recorded(rs, live) && i !in live
    requires forall r :: r in rs ==> r.lo != e.block.bp
    ensures Recorded([RangeOf(e)] + rs, live[i := e])
  {
    var live' := live[i := e];
    forall r | r in Extents(live)
      ensures r in Extents(live')
    {
      var j :| j in live && RangeOf(live[j]) == r;
      assert live'[j] == live[j];
    }
    assert live'[i] == e;
    assert Extents(live') == Extents(live) + {RangeOf(e)};
    assert (set r | r in [RangeOf(e)] + rs) == (set r | r in rs) + {RangeOf(e)};
  }

  ghost predicate DistinctStarts(rs: seq<Range>) {
    forall i, j :: 0 <= i < j < |rs| ==> rs[i].lo != rs[j].lo
  }

  lemma {:induction false} DroppedMembers(rs: seq<Range>, lo: int)
    requires DistinctStarts(rs)
    ensures forall r :: r in Dropped(rs, lo) <==> r in rs && r.lo != lo
    ensures DistinctStarts(Dropped(rs, lo))
  {
    if rs != [] {
      var tail := rs[1..];
      assert forall i :: 0 <= i < |tail| ==> tail[i] == rs[i + 1];
      assert forall r :: r in tail ==> r.lo != rs[0].lo;
      assert forall r :: r in rs <==> r == rs[0] || r in tail;
      DroppedMembers(tail, lo);
    }
  }

  lemma RecordDropped(rs: seq<Range>, live: map<int, Entry>, i: int)
    requires Recorded(rs, live) && i in live
    requires forall j :: j in live && j != i ==> live[j].block.bp != live[i].block.bp
    ensures Recorded(Dropped(rs, live[i].block.bp), live - {i})
  {
    var lo, live' := live[i].block.bp, live - {i};
    DroppedMembers(rs, lo);
    forall r | r in rs && r.lo != lo
      ensures r in Extents(live')
    {
      assert r in Extents(live);
      var j :| j in live && RangeOf(live[j]) == r;
      assert live'[j] == live[j];
    }
    forall r | r in Extents(live')
      ensures r in rs && r.lo != lo
    {
      var j :| j in live' && RangeOf(live'[j]) == r;
      assert RangeOf(live[j]) in Extents(live);
    }
  }

  lemma RecordRenamed(rs: seq<Range>, live: map<int, Entry>, i: int, k: int)
    requires Recorded(rs, live) && i in live && k !in live
    ensures Recorded(rs, Renamed(live, i, k))
  {
    var live' := Renamed(live, i, k);
    forall r | r in Extents(live)
      ensures r in Extents(live')
    {
      var j :| j in live && RangeOf(live[j]) == r;
      assert RangeOf(live'[if j == i then k else j]) == r;
    }
    forall r | r in Extents(live')
      ensures r in Extents(live)
    {
      var j :| j in live' && RangeOf(live'[j]) == r;
      assert RangeOf(live[if j == k then i else j]) == r;
    }
  }

  /** Moving a live id to a new block apart from all live ones. */
  lemma RecordMoved(rs: seq<Range>, live: map<int, Entry>, i: nat, b: Block, size: int, brk: int)
    requires Recorded(rs, live) && i in live
    requires 16 <= b.bp && b.bp + b.size <= brk && DoubleAligned(b.bp) && 0 < size && size + 8 <= b.size
    requires forall j :: j in live ==>
      (var x := live[j].block; x.bp + x.size <= b.bp || b.bp + b.size <= x.bp)
    requires forall j :: j in live ==> 0 < live[j].size && live[j].size + 8 <= live[j].block.size
    requires forall j, k :: j in live && k in live && j != k ==> live[j].block.bp != live[k].block.bp
    ensures var rest := Dropped(rs, live[i].block.bp);
      && Acceptable(rest, brk, b.bp, size)
      && Recorded([Range(b.bp, b.bp + size - 1)] + rest, live[i := Entry(b, size)])
  {
    hide Recorded, Acceptable, Extents, DoubleAligned, Dropped;
    var rest, others := Dropped(rs, live[i].block.bp), live - {i};
    RecordDropped(rs, live, i);
    NewBlockAcceptable(rest, others, b, size, brk);
    RecordAdded(rest, others, i, Entry(b, size));
    assert others[i := Entry(b, size)] == live[i := Entry(b, size)];
  }
}
