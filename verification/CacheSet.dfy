/** One set of csim.c's cache: timestamped lines that track an LRU stack. */
module CacheSet {
  import opened Sequences
  import opened Lru

  datatype Line = Line(valid: bool, tag: nat, time: int)

  /** The lines at the positions `p`, as tags. */
  ghost function TagsAt(ws: seq<Line>, p: seq<int>): seq<nat>
    requires forall i :: 0 <= i < |p| ==> 0 <= p[i] < |ws|
  {
    seq(|p|, i requires 0 <= i < |p| => ws[p[i]].tag)
  }

  /** `p` lists the valid lines by falling timestamp; all were used before `now`. */
  ghost predicate Tracks(ws: seq<Line>, p: seq<int>, now: int) {
    && (forall i :: 0 <= i < |p| ==> 0 <= p[i] < |ws| && ws[p[i]].valid && 0 <= ws[p[i]].time < now)
    && (forall i, j :: 0 <= i < j < |p| ==> ws[p[i]].time > ws[p[j]].time && ws[p[i]].tag != ws[p[j]].tag)
    && (forall w :: 0 <= w < |ws| && ws[w].valid ==> w in p)
  }

  /** The valid lines hold exactly the tags `v`, most recently used first. */
  ghost predicate Holds(ws: seq<Line>, v: seq<nat>, now: int) {
    exists p :: Tracks(ws, p, now) && TagsAt(ws, p) == v
  }

  /** An injective list of positions, as an unordered fact. */
  lemma TracksDistinct(ws: seq<Line>, p: seq<int>, now: int)
    requires Tracks(ws, p, now)
    ensures Distinct(p) && |p| <= |ws|
  {
    assert Distinct(p) by {
      forall i, j | 0 <= i < j < |p|
        ensures p[i] != p[j]
      {
        assert ws[p[i]].time > ws[p[j]].time;
      }
    }
    DistinctBelow(p, |ws|);
  }

  /** Distinct numbers below `n` are at most `n` many, and all of them when they are `n` many. */
  lemma {:induction false} DistinctBelow(p: seq<int>, n: nat)
    requires Distinct(p) && forall i :: 0 <= i < |p| ==> 0 <= p[i] < n
    ensures |p| <= n
    ensures |p| == n ==> forall w :: 0 <= w < n ==> w in p
    ensures (forall w :: 0 <= w < n ==> w in p) ==> |p| == n
    decreases n
  {
    if p == [] {
      assert n > 0 ==> 0 !in p;
    } else {
      assert 0 <= p[0] < n;
      var q := Without(p, n - 1);
      WithoutMembers(p, n - 1);
      forall i | 0 <= i < |q|
        ensures 0 <= q[i] < n - 1
      {
        assert q[i] in q;
        assert q[i] in p;
      }
      DistinctBelow(q, n - 1);
    }
  }

  /** All lines of the set are valid exactly when it holds as many tags as lines. */
  lemma FullSet(ws: seq<Line>, p: seq<int>, now: int)
    requires Tracks(ws, p, now)
    ensures |p| == |ws| <==> forall w :: 0 <= w < |ws| ==> ws[w].valid
  {
    TracksDistinct(ws, p, now);
    DistinctBelow(p, |ws|);
    if |p| == |ws| {
      forall w | 0 <= w < |ws|
        ensures ws[w].valid
      {
        assert w in p;
      }
    }
  }

  /** Position `k` of the list moved to the front. */
  ghost function Fronted(p: seq<int>, k: int): seq<int>
    requires 0 <= k < |p|
  {
    [p[k]] + (p[..k] + p[k + 1..])
  }

  function FrontedFrom(k: int, i: int): int {
    if i == 0 then k else if i <= k then i - 1 else i
  }

  lemma FrontedIndex(p: seq<int>, k: int, i: int)
    requires 0 <= k < |p| && 0 <= i < |p|
    ensures |Fronted(p, k)| == |p| && Fronted(p, k)[i] == p[FrontedFrom(k, i)]
  {
  }

  lemma FrontedMembers(p: seq<int>, k: int, w: int)
    requires 0 <= k < |p|
    ensures w in Fronted(p, k) <==> w in p
  {
    assert p == p[..k] + ([p[k]] + p[k + 1..]);
  }

  /** The set after tag `t` was written into line `w` with timestamp `now`. */
  ghost function Touched(ws: seq<Line>, w: int, t: nat, now: int): seq<Line>
    requires 0 <= w < |ws|
  {
    ws[w := Line(true, t, now)]
  }

  lemma TouchedLine(ws: seq<Line>, p: seq<int>, now: int, k: int, t: nat, i: int)
    requires Tracks(ws, p, now) && 0 <= k < |p| && 0 <= i < |p|
    ensures |Fronted(p, k)| == |p| && 0 <= Fronted(p, k)[i] < |ws|
    ensures Touched(ws, p[k], t, now)[Fronted(p, k)[i]] ==
      if i == 0 then Line(true, t, now) else ws[p[FrontedFrom(k, i)]]
  {
    TracksDistinct(ws, p, now);
    FrontedIndex(p, k, i);
    hide Fronted;
    assert i > 0 ==> FrontedFrom(k, i) != k && 0 <= FrontedFrom(k, i) < |p|;
  }

  /** Retagging the line at position `k`, with a tag not held elsewhere, makes it the most recent. */
  lemma TouchTracks(ws: seq<Line>, p: seq<int>, now: int, k: int, t: nat)
    requires Tracks(ws, p, now) && 0 <= k < |p| && 0 <= now
    requires forall i :: 0 <= i < |p| && i != k ==> ws[p[i]].tag != t
    ensures Tracks(Touched(ws, p[k], t, now), Fronted(p, k), now + 1)
  {
    var ws', q := Touched(ws, p[k], t, now), Fronted(p, k);
    FrontedIndex(p, k, 0);
    forall i | 0 <= i < |q|
      ensures 0 <= q[i] < |ws'| && ws'[q[i]].valid && 0 <= ws'[q[i]].time < now + 1
    {
      TouchedLine(ws, p, now, k, t, i);
    }
    forall i, j | 0 <= i < j < |q|
      ensures ws'[q[i]].time > ws'[q[j]].time && ws'[q[i]].tag != ws'[q[j]].tag
    {
      TouchedLine(ws, p, now, k, t, i);
      TouchedLine(ws, p, now, k, t, j);
    }
    forall w | 0 <= w < |ws'| && ws'[w].valid
      ensures w in q
    {
      FrontedMembers(p, k, w);
    }
  }

  lemma TouchTags(ws: seq<Line>, p: seq<int>, now: int, k: int, t: nat)
    requires Tracks(ws, p, now) && 0 <= k < |p| && 0 <= now
    requires Tracks(Touched(ws, p[k], t, now), Fronted(p, k), now + 1)
    ensures var v := TagsAt(ws, p);
      TagsAt(Touched(ws, p[k], t, now), Fronted(p, k)) == [t] + (v[..k] + v[k + 1..])
  {
    var ws', q, v := Touched(ws, p[k], t, now), Fronted(p, k), TagsAt(ws, p);
    hide Tracks, Fronted, Touched;
    FrontedIndex(p, k, 0);
    forall i | 0 <= i < |q|
      ensures ws'[q[i]].tag == ([t] + (v[..k] + v[k + 1..]))[i]
    {
      TouchedLine(ws, p, now, k, t, i);
    }
  }

  lemma FilledLine(ws: seq<Line>, p: seq<int>, now: int, w: int, t: nat, i: int)
    requires Tracks(ws, p, now) && 0 <= w < |ws| && !ws[w].valid && 0 <= i < |p| + 1
    ensures 0 <= ([w] + p)[i] < |ws|
    ensures Touched(ws, w, t, now)[([w] + p)[i]] == if i == 0 then Line(true, t, now) else ws[p[i - 1]]
    ensures i > 0 ==> ([w] + p)[i] == p[i - 1]
  {
  }

  /** Filling the empty line `w` adds its tag in front. */
  lemma FillTracks(ws: seq<Line>, p: seq<int>, now: int, w: int, t: nat)
    requires Tracks(ws, p, now) && 0 <= w < |ws| && !ws[w].valid && 0 <= now
    requires forall i :: 0 <= i < |p| ==> ws[p[i]].tag != t
    ensures Tracks(Touched(ws, w, t, now), [w] + p, now + 1)
  {
    var ws', q := Touched(ws, w, t, now), [w] + p;
    forall i | 0 <= i < |q|
      ensures 0 <= q[i] < |ws'| && ws'[q[i]].valid && 0 <= ws'[q[i]].time < now + 1
    {
      FilledLine(ws, p, now, w, t, i);
    }
    forall i, j | 0 <= i < j < |q|
      ensures ws'[q[i]].time > ws'[q[j]].time && ws'[q[i]].tag != ws'[q[j]].tag
    {
      FilledLine(ws, p, now, w, t, i);
      FilledLine(ws, p, now, w, t, j);
    }
  }

  lemma FillTags(ws: seq<Line>, p: seq<int>, now: int, w: int, t: nat)
    requires Tracks(ws, p, now) && 0 <= w < |ws| && !ws[w].valid
    requires Tracks(Touched(ws, w, t, now), [w] + p, now + 1)
    ensures TagsAt(Touched(ws, w, t, now), [w] + p) == [t] + TagsAt(ws, p)
  {
    var ws', q := Touched(ws, w, t, now), [w] + p;
    forall i | 0 <= i < |q|
      ensures TagsAt(ws', q)[i] == ([t] + TagsAt(ws, p))[i]
    {
      FilledLine(ws, p, now, w, t, i);
      hide Tracks, Touched;
    }
  }

  // ----- one access to a set -----

  /** 0 for a hit, 1 for a miss that fills an empty line, 2 for a miss with eviction. */
  function Outcome(ways: nat, v: seq<nat>, t: nat): int {
    if t in v then 0 else if |v| < ways then 1 else 2
  }

  /** The tags a set of `ways` lines holds after tag `t` was used. */
  function Used(ways: nat, v: seq<nat>, t: nat): seq<nat>
    requires ways > 0
  {
    [t] + Take(Without(v, t), ways - 1)
  }

  /** The positions of a tag in the set: at most one valid line holds it. */
  lemma HeldAt(ws: seq<Line>, p: seq<int>, now: int, w: int) returns (k: int)
    requires Tracks(ws, p, now) && 0 <= w < |ws| && ws[w].valid
    ensures 0 <= k < |p| && p[k] == w && TagsAt(ws, p)[k] == ws[w].tag
    ensures forall i :: 0 <= i < |p| && i != k ==> ws[p[i]].tag != ws[w].tag
  {
    k :| 0 <= k < |p| && p[k] == w;
  }

  lemma TagsDistinct(ws: seq<Line>, p: seq<int>, now: int)
    requires Tracks(ws, p, now)
    ensures Distinct(TagsAt(ws, p)) && |p| <= |ws|
  {
    TracksDistinct(ws, p, now);
  }

  lemma HitHolds(ws: seq<Line>, v: seq<nat>, now: int, w: int)
    requires Holds(ws, v, now) && 0 <= now && 0 <= w < |ws| && ws[w].valid
    ensures ws[w].tag in v
    ensures Holds(Touched(ws, w, ws[w].tag, now), Used(|ws|, v, ws[w].tag), now + 1)
  {
    var p :| Tracks(ws, p, now) && TagsAt(ws, p) == v;
    var k := HeldAt(ws, p, now, w);
    TouchTracks(ws, p, now, k, ws[w].tag);
    TouchTags(ws, p, now, k, ws[w].tag);
    TagsDistinct(ws, p, now);
    WithoutAt(v, k);
    hide Tracks, TagsAt, Touched, Distinct;
    assert Without(v, ws[w].tag) == v[..k] + v[k + 1..];
    assert |v| <= |ws|;
  }

  lemma FillHolds(ws: seq<Line>, v: seq<nat>, now: int, w: int, t: nat)
    requires Holds(ws, v, now) && 0 <= now && 0 <= w < |ws| && !ws[w].valid && t !in v
    ensures |v| < |ws|
    ensures Holds(Touched(ws, w, t, now), Used(|ws|, v, t), now + 1)
  {
    var p :| Tracks(ws, p, now) && TagsAt(ws, p) == v;
    TagsDistinct(ws, p, now);
    FullSet(ws, p, now);
    forall i | 0 <= i < |p|
      ensures ws[p[i]].tag != t
    {
      assert v[i] == ws[p[i]].tag;
    }
    FillTracks(ws, p, now, w, t);
    FillTags(ws, p, now, w, t);
    WithoutMembers(v, t);
  }

  /** The line with the oldest timestamp holds the last tag of the stack. */
  lemma OldestIsLast(ws: seq<Line>, p: seq<int>, now: int, w: int)
    requires Tracks(ws, p, now) && 0 <= w < |ws| && ws[w].valid
    requires forall x :: 0 <= x < |ws| && ws[x].valid ==> ws[w].time <= ws[x].time
    ensures p != [] && p[|p| - 1] == w
  {
    var k :| 0 <= k < |p| && p[k] == w;
    var l := p[|p| - 1];
    assert ws[l].valid;
  }

  lemma EvictHolds(ws: seq<Line>, v: seq<nat>, now: int, w: int, t: nat)
    requires Holds(ws, v, now) && 0 <= now && 0 <= w < |ws| && t !in v
    requires forall x :: 0 <= x < |ws| ==> ws[x].valid && ws[w].time <= ws[x].time
    ensures |v| == |ws| && v[|v| - 1] == ws[w].tag
    ensures Holds(Touched(ws, w, t, now), Used(|ws|, v, t), now + 1)
  {
    var p :| Tracks(ws, p, now) && TagsAt(ws, p) == v;
    FullSet(ws, p, now);
    TagsDistinct(ws, p, now);
    OldestIsLast(ws, p, now, w);
    var k := |p| - 1;
    forall i | 0 <= i < |p|
      ensures ws[p[i]].tag != t
    {
      assert v[i] == ws[p[i]].tag;
    }
    TouchTracks(ws, p, now, k, t);
    TouchTags(ws, p, now, k, t);
    WithoutMembers(v, t);
    assert v[..k] + v[k + 1..] == v[..k];
  }
}
