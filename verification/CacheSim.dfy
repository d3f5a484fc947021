/** csim.c: the set-associative cache simulator over one flat array of lines. */
module CacheSim {
  import A = Arithmetic
  import opened Bits
  import opened Lru
  import opened CacheSet

  /** An access as the cache sees it. */
  datatype Ref = Ref(set_: nat, tag: nat)

  /** The tags used in set `x`, oldest first. */
  ghost function History(refs: seq<Ref>, x: nat): seq<nat> {
    if refs == [] then []
    else
      var h, r := History(refs[..|refs| - 1], x), refs[|refs| - 1];
      if r.set_ == x then h + [r.tag] else h
  }

  /** The tags that set `x` of a cache with `ways` lines a set holds after the accesses `refs`. */
  ghost function Content(refs: seq<Ref>, x: nat, ways: nat): seq<nat> {
    Kept(History(refs, x), ways)
  }

  lemma ContentStep(refs: seq<Ref>, r: Ref, x: nat, ways: nat)
    requires ways > 0
    ensures x == r.set_ ==> Content(refs + [r], x, ways) == Used(ways, Content(refs, x, ways), r.tag)
    ensures x != r.set_ ==> Content(refs + [r], x, ways) == Content(refs, x, ways)
  {
    assert (refs + [r])[..|refs|] == refs;
    KeptAppend(History(refs, r.set_), r.tag, ways);
  }

  ghost function CountValid(ls: seq<Line>): nat {
    if ls == [] then 0 else CountValid(ls[1..]) + (if ls[0].valid then 1 else 0)
  }

  lemma {:induction false} CountUpdate(ls: seq<Line>, i: int, l: Line)
    requires 0 <= i < |ls|
    ensures CountValid(ls[i := l]) ==
      CountValid(ls) + (if l.valid then 1 else 0) - (if ls[i].valid then 1 else 0)
  {
    if i > 0 {
      CountUpdate(ls[1..], i - 1, l);
      assert ls[i := l][1..] == ls[1..][i - 1 := l];
    } else {
      assert ls[i := l][1..] == ls[1..];
    }
  }

  lemma {:induction false} CountNone(ls: seq<Line>)
    requires forall i :: 0 <= i < |ls| ==> !ls[i].valid
    ensures CountValid(ls) == 0
  {
    if ls != [] {
      CountNone(ls[1..]);
    }
  }

  // ----- the array of lines -----

  /** The array holds `2^s` sets of `ways` lines. */
  ghost predicate Roomy(ls: seq<Line>, s: nat, ways: nat) {
    ways > 0 && Pow2(s) * ways <= |ls|
  }

  lemma SetWithin(ls: seq<Line>, s: nat, ways: nat, x: nat)
    requires Roomy(ls, s, ways) && x < Pow2(s)
    ensures 0 <= x * ways && x * ways + ways <= |ls|
  {
    A.SlotsApart(x, Pow2(s), ways);
  }

  /** The lines of set `x`. */
  ghost function SetOf(ls: seq<Line>, s: nat, ways: nat, x: nat): (ws: seq<Line>)
    requires Roomy(ls, s, ways) && x < Pow2(s)
    ensures |ws| == ways
  {
    SetWithin(ls, s, ways, x);
    ls[x * ways..x * ways + ways]
  }

  lemma SetLine(ls: seq<Line>, s: nat, ways: nat, x: nat, i: int)
    requires Roomy(ls, s, ways) && x < Pow2(s) && 0 <= i < ways
    ensures 0 <= x * ways + i < |ls| && SetOf(ls, s, ways, x)[i] == ls[x * ways + i]
  {
    SetWithin(ls, s, ways, x);
  }

  /** Every set holds its most recently used tags, with timestamps in order of use. */
  ghost predicate AllHold(ls: seq<Line>, refs: seq<Ref>, s: nat, ways: nat) {
    && Roomy(ls, s, ways)
    && forall x: nat :: x < Pow2(s) ==> Holds(SetOf(ls, s, ways, x), Content(refs, x, ways), |refs|)
  }

  lemma HoldsLater(ws: seq<Line>, v: seq<nat>, now: int, later: int)
    requires Holds(ws, v, now) && now <= later
    ensures Holds(ws, v, later)
  {
    var p :| Tracks(ws, p, now) && TagsAt(ws, p) == v;
    assert Tracks(ws, p, later);
  }

  lemma WriteInSet(ls: seq<Line>, s: nat, ways: nat, x: nat, w: int, l: Line, y: nat)
    requires Roomy(ls, s, ways) && x < Pow2(s) && y < Pow2(s) && 0 <= w < ways
    ensures 0 <= x * ways + w < |ls| && Roomy(ls[x * ways + w := l], s, ways)
    ensures SetOf(ls[x * ways + w := l], s, ways, y) ==
      if y == x then SetOf(ls, s, ways, x)[w := l] else SetOf(ls, s, ways, y)
  {
    SetWithin(ls, s, ways, x);
    SetWithin(ls, s, ways, y);
    if y < x {
      A.SlotsApart(y, x, ways);
    } else if x < y {
      A.SlotsApart(x, y, ways);
    }
  }

  /** A write that serves the accessed set correctly serves the whole cache. */
  lemma WriteHolds(ls: seq<Line>, refs: seq<Ref>, s: nat, ways: nat, r: Ref, w: int)
    requires AllHold(ls, refs, s, ways) && r.set_ < Pow2(s) && 0 <= w < ways
    requires Holds(Touched(SetOf(ls, s, ways, r.set_), w, r.tag, |refs|),
                   Used(ways, Content(refs, r.set_, ways), r.tag), |refs| + 1)
    ensures 0 <= r.set_ * ways + w < |ls|
    ensures AllHold(ls[r.set_ * ways + w := Line(true, r.tag, |refs|)], refs + [r], s, ways)
  {
    hide Holds, Content, SetOf, Used;
    WriteInSet(ls, s, ways, r.set_, w, Line(true, r.tag, |refs|), r.set_);
    var ls', refs' := ls[r.set_ * ways + w := Line(true, r.tag, |refs|)], refs + [r];
    forall x: nat | x < Pow2(s)
      ensures Holds(SetOf(ls', s, ways, x), Content(refs', x, ways), |refs'|)
    {
      WriteInSet(ls, s, ways, r.set_, w, Line(true, r.tag, |refs|), x);
      ContentStep(refs, r, x, ways);
      if x != r.set_ {
        HoldsLater(SetOf(ls, s, ways, x), Content(refs, x, ways), |refs|, |refs| + 1);
      }
    }
  }

  lemma HoldsOf(ls: seq<Line>, refs: seq<Ref>, s: nat, ways: nat, x: nat)
    requires AllHold(ls, refs, s, ways) && x < Pow2(s)
    ensures Roomy(ls, s, ways) && ways > 0
    ensures Holds(SetOf(ls, s, ways, x), Content(refs, x, ways), |refs|)
  {
  }

  // ----- the scan over a set -----

  /** What the loop of access_mem knows after `i` lines without a hit. */
  ghost predicate Scanned(ws: seq<Line>, i: int, tag: nat, firstEmpty: int, lruTime: int, lruPos: int) {
    && 0 <= i <= |ws|
    && (forall j :: 0 <= j < i ==> !(ws[j].valid && ws[j].tag == tag))
    && -1 <= firstEmpty < i && (firstEmpty >= 0 ==> !ws[firstEmpty].valid)
    && (firstEmpty == -1 ==> forall j :: 0 <= j < i ==> ws[j].valid)
    && (forall j :: 0 <= j < i && ws[j].valid ==> lruTime <= ws[j].time)
    && (lruPos == -1 ==> forall j :: 0 <= j < i ==> !ws[j].valid)
    && -1 <= lruPos < i && (lruPos >= 0 ==> ws[lruPos].valid && ws[lruPos].time == lruTime)
    && (lruPos == -1 ==> lruTime == 0x7fff_ffff)
  }

  lemma ScanStart(ws: seq<Line>, tag: nat)
    ensures Scanned(ws, 0, tag, -1, 0x7fff_ffff, -1)
  {
  }

  lemma ScanStep(ws: seq<Line>, i: int, tag: nat, firstEmpty: int, lruTime: int, lruPos: int)
    requires Scanned(ws, i, tag, firstEmpty, lruTime, lruPos) && i < |ws|
    requires !(ws[i].valid && ws[i].tag == tag) && (ws[i].valid ==> ws[i].time < 0x7fff_ffff)
    ensures !ws[i].valid ==> Scanned(ws, i + 1, tag, i, lruTime, lruPos)
    ensures ws[i].valid && ws[i].time < lruTime ==> Scanned(ws, i + 1, tag, firstEmpty, ws[i].time, i)
    ensures ws[i].valid && ws[i].time >= lruTime ==> Scanned(ws, i + 1, tag, firstEmpty, lruTime, lruPos)
  {
  }

  /** A timestamp found in the set is below the current time. */
  lemma TimeBelow(ws: seq<Line>, v: seq<nat>, now: int, i: int)
    requires Holds(ws, v, now) && 0 <= i < |ws| && ws[i].valid
    ensures 0 <= ws[i].time < now
  {
    var p :| Tracks(ws, p, now) && TagsAt(ws, p) == v;
    var k :| 0 <= k < |p| && p[k] == i;
  }

  lemma Absent(ws: seq<Line>, v: seq<nat>, now: int, tag: nat)
    requires Holds(ws, v, now) && forall j :: 0 <= j < |ws| ==> !(ws[j].valid && ws[j].tag == tag)
    ensures tag !in v
  {
    var p :| Tracks(ws, p, now) && TagsAt(ws, p) == v;
    assert forall k :: 0 <= k < |p| ==> v[k] == ws[p[k]].tag;
  }

  lemma ScanHit(ws: seq<Line>, v: seq<nat>, now: int, w: int, tag: nat)
    requires Holds(ws, v, now) && 0 <= now && 0 <= w < |ws| && ws[w].valid && ws[w].tag == tag
    ensures Outcome(|ws|, v, tag) == 0
    ensures Holds(Touched(ws, w, tag, now), Used(|ws|, v, tag), now + 1)
  {
    HitHolds(ws, v, now, w);
  }

  /** After a full scan: fill the remembered empty line, or evict the oldest line. */
  lemma ScanMiss(ws: seq<Line>, v: seq<nat>, now: int, tag: nat, firstEmpty: int, lruTime: int, lruPos: int)
    requires Holds(ws, v, now) && 0 <= now && ws != []
    requires Scanned(ws, |ws|, tag, firstEmpty, lruTime, lruPos)
    ensures firstEmpty == -1 || (0 <= firstEmpty < |ws| && !ws[firstEmpty].valid)
    ensures firstEmpty >= 0 ==>
      && Outcome(|ws|, v, tag) == 1
      && Holds(Touched(ws, firstEmpty, tag, now), Used(|ws|, v, tag), now + 1)
    ensures firstEmpty == -1 ==>
      && Outcome(|ws|, v, tag) == 2 && 0 <= lruPos < |ws| && ws[lruPos].valid
      && Holds(Touched(ws, lruPos, tag, now), Used(|ws|, v, tag), now + 1)
      && v != [] && v[|v| - 1] == ws[lruPos].tag
  {
    Absent(ws, v, now, tag);
    hide Holds;
    if firstEmpty >= 0 {
      FillHolds(ws, v, now, firstEmpty, tag);
    } else {
      assert ws[0].valid;
      EvictHolds(ws, v, now, lruPos, tag);
    }
  }

  // ----- traces -----

  /** A trace line: its type character (I, L, S or M) and address. */
  datatype TraceLine = TraceLine(kind: char, addr: nat)

  /** The data accesses of a trace; instruction fetches are ignored. */
  ghost function Refs(trace: seq<TraceLine>, s: nat, b: nat): seq<Ref>
    requires s + b < 64
  {
    if trace == [] then []
    else
      var rest, l := Refs(trace[..|trace| - 1], s, b), trace[|trace| - 1];
      if l.kind == 'I' then rest else rest + [Ref(GetSet(l.addr, s, b), GetTag(l.addr, s, b))]
  }

  /** The number of M lines, whose second access always hits. */
  ghost function Modifies(trace: seq<TraceLine>): nat {
    if trace == [] then 0
    else Modifies(trace[..|trace| - 1]) + (if trace[|trace| - 1].kind == 'M' then 1 else 0)
  }

  /** The lines of the given kind among the first `n`. */
  ghost function KindAt(trace: seq<TraceLine>, n: nat, kind: char): set<int> {
    set k | 0 <= k < n && k < |trace| && trace[k].kind == kind
  }

  /** The accesses are the lines that are no instruction fetches, one each. */
  lemma {:induction false} AccessCount(trace: seq<TraceLine>, s: nat, b: nat)
    requires s + b < 64
    ensures |Refs(trace, s, b)| + |KindAt(trace, |trace|, 'I')| == |trace|
  {
    hide Refs, KindAt, GetSet, GetTag;
    if trace == [] {
      NoLines(s, b);
    } else {
      AccessCount(trace[..|trace| - 1], s, b);
      KindStep(trace, 'I');
      RefsLast(trace, s, b);
    }
  }

  lemma NoLines(s: nat, b: nat)
    requires s + b < 64
    ensures Refs([], s, b) == [] && KindAt([], 0, 'I') == {}
  {
  }

  lemma RefsLast(trace: seq<TraceLine>, s: nat, b: nat)
    requires s + b < 64 && trace != []
    ensures var rest, l := Refs(trace[..|trace| - 1], s, b), trace[|trace| - 1];
      Refs(trace, s, b) == if l.kind == 'I' then rest else rest + [Ref(GetSet(l.addr, s, b), GetTag(l.addr, s, b))]
  {
  }

  lemma KindStep(trace: seq<TraceLine>, kind: char)
    requires trace != []
    ensures var n := |trace| - 1;
      |KindAt(trace, n + 1, kind)| == |KindAt(trace[..n], n, kind)| + (if trace[n].kind == kind then 1 else 0)
  {
    var n := |trace| - 1;
    assert KindAt(trace, n + 1, kind) == KindAt(trace[..n], n, kind) + (if trace[n].kind == kind then {n} else {});
  }

  lemma {:induction false} ModifyCount(trace: seq<TraceLine>)
    ensures Modifies(trace) == |KindAt(trace, |trace|, 'M')|
  {
    if trace != [] {
      ModifyCount(trace[..|trace| - 1]);
      KindStep(trace, 'M');
    }
  }

  /** In order: a line that is no instruction fetch is the access whose number is that of such lines before it. */
  lemma {:induction false} AccessAt(trace: seq<TraceLine>, s: nat, b: nat, k: nat)
    requires s + b < 64 && k < |trace| && trace[k].kind != 'I'
    ensures var refs, i := Refs(trace, s, b), k - |KindAt(trace, k, 'I')|;
      0 <= i < |refs| && refs[i] == Ref(GetSet(trace[k].addr, s, b), GetTag(trace[k].addr, s, b))
  {
    hide Refs, KindAt, GetSet, GetTag;
    var n := |trace| - 1;
    RefsLast(trace, s, b);
    KindPrefix(trace, k);
    if k < n {
      AccessAt(trace[..n], s, b, k);
    } else {
      AccessCount(trace[..n], s, b);
      KindBelow(trace[..n], n);
    }
  }

  lemma KindPrefix(trace: seq<TraceLine>, k: nat)
    requires k < |trace|
    ensures KindAt(trace, k, 'I') == KindAt(trace[..|trace| - 1], k, 'I')
  {
  }

  lemma {:induction false} KindBelow(trace: seq<TraceLine>, n: nat)
    requires n <= |trace|
    ensures |KindAt(trace, n, 'I')| <= n
  {
    if n > 0 {
      KindBelow(trace, n - 1);
      assert KindAt(trace, n, 'I') == KindAt(trace, n - 1, 'I') + (if trace[n - 1].kind == 'I' then {n - 1} else {});
    }
  }

  /** What LRU replacement answers to the last access of `refs`. */
  ghost function LastOutcome(refs: seq<Ref>, ways: nat): int
    requires refs != []
  {
    var r := refs[|refs| - 1];
    Outcome(ways, Content(refs[..|refs| - 1], r.set_, ways), r.tag)
  }

  ghost function Misses(refs: seq<Ref>, ways: nat): nat {
    if refs == [] then 0
    else Misses(refs[..|refs| - 1], ways) + (if LastOutcome(refs, ways) == 0 then 0 else 1)
  }

  ghost function Evictions(refs: seq<Ref>, ways: nat): nat {
    if refs == [] then 0
    else Evictions(refs[..|refs| - 1], ways) + (if LastOutcome(refs, ways) == 2 then 1 else 0)
  }

  lemma RefsStart(s: nat, b: nat, ways: nat)
    requires s + b < 64
    ensures Refs([], s, b) == [] && Modifies([]) == 0 && Misses([], ways) == 0 && Evictions([], ways) == 0
  {
  }

  lemma TraceStep(trace: seq<TraceLine>, k: nat, s: nat, b: nat)
    requires k < |trace| && s + b < 64
    ensures Modifies(trace[..k + 1]) == Modifies(trace[..k]) + (if trace[k].kind == 'M' then 1 else 0)
    ensures Refs(trace[..k + 1], s, b) ==
      if trace[k].kind == 'I' then Refs(trace[..k], s, b)
      else Refs(trace[..k], s, b) + [Ref(GetSet(trace[k].addr, s, b), GetTag(trace[k].addr, s, b))]
  {
    assert trace[..k + 1][..k] == trace[..k];
  }

  lemma CountStep(refs: seq<Ref>, r: Ref, ways: nat)
    ensures var o := Outcome(ways, Content(refs, r.set_, ways), r.tag);
      && 0 <= o <= 2
      && Misses(refs + [r], ways) == Misses(refs, ways) + (if o == 0 then 0 else 1)
      && Evictions(refs + [r], ways) == Evictions(refs, ways) + (if o == 2 then 1 else 0)
  {
    assert (refs + [r])[..|refs|] == refs;
  }

  /** Inclusion: every hit of a cache is a hit of one with at least as many lines a set. */
  lemma HitsIncluded(refs: seq<Ref>, few: nat, many: nat)
    requires refs != [] && few <= many
    ensures LastOutcome(refs, few) == 0 ==> LastOutcome(refs, many) == 0
    ensures forall x: nat :: Content(refs, x, few) <= Content(refs, x, many)
  {
    var r := refs[|refs| - 1];
    KeptMonotone(History(refs[..|refs| - 1], r.set_), few, many);
    forall x: nat
      ensures Content(refs, x, few) <= Content(refs, x, many)
    {
      KeptMonotone(History(refs, x), few, many);
    }
  }

  /** Misses never rise with associativity. */
  lemma {:induction false} MissesFallWithWays(refs: seq<Ref>, few: nat, many: nat)
    requires few <= many
    ensures Misses(refs, many) <= Misses(refs, few)
  {
    if refs != [] {
      MissesFallWithWays(refs[..|refs| - 1], few, many);
      HitsIncluded(refs, few, many);
    }
  }

  /** A set from which a line is evicted has only valid lines. */
  lemma EvictionMeansFull(ws: seq<Line>, v: seq<nat>, now: int, tag: nat)
    requires Holds(ws, v, now) && Outcome(|ws|, v, tag) == 2
    ensures forall w :: 0 <= w < |ws| ==> ws[w].valid
  {
    var p :| Tracks(ws, p, now) && TagsAt(ws, p) == v;
    TagsDistinct(ws, p, now);
    FullSet(ws, p, now);
  }

  /** The valid lines of a set hold exactly the tags of its stack, each tag once. */
  lemma HeldTags(ws: seq<Line>, v: seq<nat>, now: int)
    requires Holds(ws, v, now)
    ensures forall t :: t in v <==> exists w :: 0 <= w < |ws| && ws[w].valid && ws[w].tag == t
    ensures forall w, x :: 0 <= w < x < |ws| && ws[w].valid && ws[x].valid ==> ws[w].tag != ws[x].tag
  {
    var p :| Tracks(ws, p, now) && TagsAt(ws, p) == v;
    hide Tracks, TagsAt;
    forall t | t in v
      ensures exists w :: 0 <= w < |ws| && ws[w].valid && ws[w].tag == t
    {
      var w := LineOfTag(ws, p, now, t);
    }
    forall w | 0 <= w < |ws| && ws[w].valid
      ensures ws[w].tag in v
      ensures forall x :: 0 <= x < |ws| && x != w && ws[x].valid ==> ws[x].tag != ws[w].tag
    {
      TagOfLine(ws, p, now, w);
    }
  }

  lemma LineOfTag(ws: seq<Line>, p: seq<int>, now: int, t: nat) returns (w: int)
    requires Tracks(ws, p, now) && t in TagsAt(ws, p)
    ensures 0 <= w < |ws| && ws[w].valid && ws[w].tag == t
  {
    var k :| 0 <= k < |p| && TagsAt(ws, p)[k] == t;
    w := p[k];
  }

  lemma TagOfLine(ws: seq<Line>, p: seq<int>, now: int, w: int)
    requires Tracks(ws, p, now) && 0 <= w < |ws| && ws[w].valid
    ensures ws[w].tag in TagsAt(ws, p)
    ensures forall x :: 0 <= x < |ws| && x != w && ws[x].valid ==> ws[x].tag != ws[w].tag
  {
    var k := HeldAt(ws, p, now, w);
    assert TagsAt(ws, p)[k] in TagsAt(ws, p);
    forall x | 0 <= x < |ws| && x != w && ws[x].valid
      ensures ws[x].tag != ws[w].tag
    {
      var i :| 0 <= i < |p| && p[i] == x;
    }
  }

  class Cache {
    const s: nat
    const E: nat
    const b: nat
    const cache: array<Line>
    ghost var refs: seq<Ref>

    ghost predicate Valid()
      reads this, cache
    {
      s + b < 64 && AllHold(cache[..], refs, s, E)
    }

    lemma Unfold()
      requires Valid()
      ensures s + b < 64 && AllHold(cache[..], refs, s, E)
    {
    }

    lemma Fold()
      requires s + b < 64 && AllHold(cache[..], refs, s, E)
      ensures Valid()
    {
    }

    /** cache_init without the trace file */
    constructor (s: nat, E: nat, b: nat)
      requires 0 < s && 0 < E && 0 < b && s + b < 64
      ensures Valid() && refs == [] && CountValid(cache[..]) == 0
      ensures this.s == s && this.E == E && this.b == b && fresh(cache)
    {
      this.s, this.E, this.b := s, E, b;
      ArrayLength(s, E, b);
      cache := new Line[Pow2(s) * E * Pow2(b)](_ => Line(false, 0, 0));
      refs := [];
      new;
      CountNone(cache[..]);
      forall x: nat | x < Pow2(s)
        ensures Holds(SetOf(cache[..], s, E, x), Content(refs, x, E), |refs|)
      {
        SetWithin(cache[..], s, E, x);
        EmptyHolds(SetOf(cache[..], s, E, x));
      }
    }

    /** access_mem: 0 for a hit, 1 for a cold miss, 2 for a miss with eviction. */
    method AccessMem(addr: nat, time: int) returns (r: int)
      requires Valid() && addr <= ULONG_MAX
      requires time == |refs| < 0x7fff_ffff
      modifies `refs, cache
      ensures Valid()
      ensures refs == old(refs) + [Ref(GetSet(addr, s, b), GetTag(addr, s, b))]
      ensures r == Outcome(E, Content(old(refs), GetSet(addr, s, b), E), GetTag(addr, s, b))
      ensures CountValid(cache[..]) == CountValid(old(cache[..])) + if r == 1 then 1 else 0
    {
      hide *;
      Unfold();
      UlongMax();
      AddressParts(addr, s, b);
      var tag, set_ := GetTag(addr, s, b), GetSet(addr, s, b);
      var firstEmpty, lruTime, lruPos := -1, 0x7fff_ffff, -1;
      ghost var ls, ref := cache[..], Ref(set_, tag);
      HoldsOf(ls, refs, s, E, set_);
      ghost var ws, v := SetOf(ls, s, E, set_), Content(refs, set_, E);
      ScanStart(ws, tag);
      var i := 0;
      while i < E
        invariant 0 <= i <= E && Scanned(ws, i, tag, firstEmpty, lruTime, lruPos)
        invariant cache[..] == ls && refs == old(refs)
      {
        SetLine(ls, s, E, set_, i);
        var line := cache[set_ * E + i];
        if line.tag == tag && line.valid {
          ScanHit(ws, v, time, i, tag);
          WriteHolds(ls, refs, s, E, ref, i);
          CountUpdate(ls, set_ * E + i, Line(true, tag, time));
          cache[set_ * E + i] := line.(time := time);
          assert cache[..] == ls[set_ * E + i := Line(true, tag, time)];
          refs := refs + [ref];
          Fold();
          return 0;
        }
        if line.valid {
          TimeBelow(ws, v, time, i);
        }
        ScanStep(ws, i, tag, firstEmpty, lruTime, lruPos);
        if !line.valid {
          firstEmpty := i;
        } else if line.time < lruTime {
          lruTime := line.time;
          lruPos := i;
        }
        i := i + 1;
      }
      ScanMiss(ws, v, time, tag, firstEmpty, lruTime, lruPos);
      if firstEmpty != -1 {
        SetLine(ls, s, E, set_, firstEmpty);
        WriteHolds(ls, refs, s, E, ref, firstEmpty);
        CountUpdate(ls, set_ * E + firstEmpty, Line(true, tag, time));
        cache[set_ * E + firstEmpty] := Line(true, tag, time);
        assert cache[..] == ls[set_ * E + firstEmpty := Line(true, tag, time)];
        r := 1;
      } else {
        SetLine(ls, s, E, set_, lruPos);
        WriteHolds(ls, refs, s, E, ref, lruPos);
        CountUpdate(ls, set_ * E + lruPos, Line(true, tag, time));
        cache[set_ * E + lruPos] := cache[set_ * E + lruPos].(tag := tag, time := time);
        assert cache[..] == ls[set_ * E + lruPos := Line(true, tag, time)];
        r := 2;
      }
      refs := refs + [ref];
      Fold();
    }

    /** run: replays a trace and counts hits, misses and evictions in dest[0..3]. */
    method Run(trace: seq<TraceLine>, dest: array<int>)
      requires Valid() && refs == [] && dest.Length == 3 && dest[0] == dest[1] == dest[2] == 0
      requires CountValid(cache[..]) == 0
      requires |trace| <= 0x7fff_ffff && forall k :: 0 <= k < |trace| ==> trace[k].addr <= ULONG_MAX
      modifies `refs, cache, dest
      ensures Valid() && refs == Refs(trace, s, b)
      ensures dest[1] == Misses(refs, E) && dest[2] == Evictions(refs, E)
      ensures dest[0] + dest[1] == |refs| + Modifies(trace)
      ensures dest[0] + dest[1] == |trace| - |KindAt(trace, |trace|, 'I')| + |KindAt(trace, |trace|, 'M')|
      ensures dest[1] - dest[2] == CountValid(cache[..])
    {
      hide *;
      Unfold();
      UlongMax();
      var time := 0;
      var k := 0;
      assert trace[..0] == [];
      RefsStart(s, b, E);
      while k < |trace|
        invariant 0 <= k <= |trace| && Valid() && s + b < 64
        invariant refs == Refs(trace[..k], s, b) && 0 <= time == |refs| <= k
        invariant dest[1] == Misses(refs, E) && dest[2] == Evictions(refs, E)
        invariant dest[0] + dest[1] == |refs| + Modifies(trace[..k])
        invariant dest[1] - dest[2] == CountValid(cache[..])
      {
        var line := trace[k];
        TraceStep(trace, k, s, b);
        k := k + 1;
        if line.kind == 'I' {
          continue;
        }
        CountStep(refs, Ref(GetSet(line.addr, s, b), GetTag(line.addr, s, b)), E);
        var r := AccessMem(line.addr, time);
        time := time + 1;
        if r == 0 {
          dest[0] := dest[0] + 1;
        } else {
          if r == 2 {
            dest[2] := dest[2] + 1;
          }
          dest[1] := dest[1] + 1;
        }
        if line.kind == 'M' {
          dest[0] := dest[0] + 1;
        }
      }
      assert trace[..k] == trace;
      AccessCount(trace, s, b);
      ModifyCount(trace);
    }
  }

  /** Some valid line of set `x` holds tag `t`. */
  ghost predicate Cached(ls: seq<Line>, s: nat, ways: nat, x: nat, t: nat)
    requires Roomy(ls, s, ways) && x < Pow2(s)
  {
    exists w :: 0 <= w < ways && SetOf(ls, s, ways, x)[w].valid && SetOf(ls, s, ways, x)[w].tag == t
  }

  /** What the lines of one cache hold is held by those of a cache with more lines a set. */
  lemma LinesIncluded(few: seq<Line>, many: seq<Line>, refs: seq<Ref>, s: nat, e: nat, e': nat, x: nat, t: nat)
    requires AllHold(few, refs, s, e) && AllHold(many, refs, s, e') && e <= e' && x < Pow2(s)
    ensures Roomy(few, s, e) && Roomy(many, s, e')
    ensures Cached(few, s, e, x, t) ==> Cached(many, s, e', x, t)
  {
    hide AllHold, Cached, Kept;
    CachedIsContent(few, refs, s, e, x, t);
    CachedIsContent(many, refs, s, e', x, t);
    KeptMonotone(History(refs, x), e, e');
  }

  lemma CachedIsContent(ls: seq<Line>, refs: seq<Ref>, s: nat, ways: nat, x: nat, t: nat)
    requires AllHold(ls, refs, s, ways) && x < Pow2(s)
    ensures Roomy(ls, s, ways) && (Cached(ls, s, ways, x, t) <==> t in Content(refs, x, ways))
  {
    hide AllHold, Roomy, Holds, Content, SetOf, Pow2;
    HoldsOf(ls, refs, s, ways, x);
    HeldTags(SetOf(ls, s, ways, x), Content(refs, x, ways), |refs|);
  }

  /** Two caches that differ in the lines a set, on one trace: at the end the one with more
      holds all that the other holds, and it missed no more often. */
  method CompareWays(trace: seq<TraceLine>, few: Cache, many: Cache) returns (a: array<int>, b: array<int>)
    requires few != many && few.cache != many.cache && few.s == many.s && few.b == many.b && few.E <= many.E
    requires few.Valid() && few.refs == [] && CountValid(few.cache[..]) == 0
    requires many.Valid() && many.refs == [] && CountValid(many.cache[..]) == 0
    requires |trace| <= 0x7fff_ffff && forall k :: 0 <= k < |trace| ==> trace[k].addr <= ULONG_MAX
    modifies few`refs, few.cache, many`refs, many.cache
    ensures few.Valid() && many.Valid() && few.refs == many.refs == Refs(trace, few.s, few.b)
    ensures a.Length == b.Length == 3 && b[1] <= a[1]
    ensures forall x: nat, t: nat :: x < Pow2(few.s) && Cached(few.cache[..], few.s, few.E, x, t) ==>
      Cached(many.cache[..], many.s, many.E, x, t)
  {
    a, b := new int[3](_ => 0), new int[3](_ => 0);
    few.Run(trace, a);
    many.Run(trace, b);
    hide Misses, AllHold, Evictions;
    MissesFallWithWays(few.refs, few.E, many.E);
    forall x: nat, t: nat | x < Pow2(few.s)
      ensures Cached(few.cache[..], few.s, few.E, x, t) ==> Cached(many.cache[..], many.s, many.E, x, t)
    {
      LinesIncluded(few.cache[..], many.cache[..], few.refs, few.s, few.E, many.E, x, t);
    }
  }

  lemma UlongMax()
    ensures ULONG_MAX == 0xffff_ffff_ffff_ffff
  {
  }

  lemma ArrayLength(s: nat, ways: nat, b: nat)
    ensures 0 <= Pow2(s) * ways <= Pow2(s) * ways * Pow2(b)
  {
    PowPositive(s);
    PowPositive(b);
    assert Pow2(s) * ways * Pow2(b) >= Pow2(s) * ways * 1;
  }

  lemma EmptyHolds(ws: seq<Line>)
    requires forall i :: 0 <= i < |ws| ==> !ws[i].valid
    ensures Holds(ws, [], 0)
  {
    assert Tracks(ws, [], 0);
    assert TagsAt(ws, []) == [];
  }
}
