/** The doubly linked, address-ordered free list threaded through payload words:
    the word at a node is its successor, the next word its predecessor, 0 is NULL. */
module FreeList {
  import A = Arithmetic
  import opened Memory

  ghost function Head(fl: seq<int>): int {
    if fl == [] then 0 else fl[0]
  }

  /** Nodes in ascending address order, each with room for its two link words. */
  ghost predicate Spaced(fl: seq<int>) {
    && (forall i :: 0 <= i < |fl| ==> 16 <= fl[i])
    && (forall i, j :: 0 <= i < j < |fl| ==> fl[i] + 16 <= fl[j])
  }

  ghost predicate InArena(fl: seq<int>) {
    forall i :: 0 <= i < |fl| ==> DoubleAligned(fl[i]) && fl[i] + 8 <= MAX_HEAP
  }

  /** The memory holds the links of the list `fl`, in both directions. */
  ghost predicate Links(m: Words, fl: seq<int>) {
    && (fl != [] ==> W(m, fl[0] + 4) == 0 && W(m, fl[|fl| - 1]) == 0)
    && (forall i, j :: 0 <= i && j == i + 1 && j < |fl| ==> W(m, fl[i]) == fl[j] && W(m, fl[j] + 4) == fl[i])
  }

  ghost function NextOf(fl: seq<int>, k: int): int
    requires 0 <= k < |fl|
  {
    if k + 1 < |fl| then fl[k + 1] else 0
  }

  ghost function PrevOf(fl: seq<int>, k: int): int
    requires 0 <= k < |fl|
  {
    if k > 0 then fl[k - 1] else 0
  }

  /** A well-placed list whose links are in memory. */
  ghost predicate LinkedList(m: Words, fl: seq<int>) {
    Links(m, fl) && Spaced(fl) && InArena(fl)
  }

  lemma NodeFacts(m: Words, fl: seq<int>, k: int)
    requires LinkedList(m, fl) && 0 <= k < |fl|
    ensures W(m, fl[k]) == NextOf(fl, k) && W(m, fl[k] + 4) == PrevOf(fl, k)
    ensures fl[k] != 0 && NextOf(fl, k) == (if k + 1 < |fl| then fl[k + 1] else 0)
    ensures NextOf(fl, k) == 0 <==> k + 1 == |fl|
    ensures Aligned(fl[k] - 4) && Aligned(fl[k]) && Aligned(fl[k] + 4) && 0 < fl[k] < MAX_HEAP == 20971520
    ensures forall i :: 0 <= i < |fl| && fl[i] == fl[k] ==> i == k
  {
    hide Links, Spaced, InArena, Aligned, DoubleAligned, NextOf, PrevOf, W;
    NodeLinks(m, fl, k);
    NodeSpace(fl, k);
    NodeAligned(fl, k);
  }

  lemma NodeLinks(m: Words, fl: seq<int>, k: int)
    requires Links(m, fl) && 0 <= k < |fl|
    ensures W(m, fl[k]) == NextOf(fl, k) && W(m, fl[k] + 4) == PrevOf(fl, k)
    ensures NextOf(fl, k) == (if k + 1 < |fl| then fl[k + 1] else 0)
  {
    hide W;
    if k + 1 < |fl| {
      assert W(m, fl[k]) == fl[k + 1];
    }
    if k > 0 {
      assert W(m, fl[k] + 4) == fl[k - 1];
    }
  }

  lemma NodeSpace(fl: seq<int>, k: int)
    requires Spaced(fl) && 0 <= k < |fl|
    ensures 16 <= fl[k] && (k + 1 < |fl| ==> 16 <= fl[k + 1])
    ensures forall i :: 0 <= i < |fl| && fl[i] == fl[k] ==> i == k
  {
    forall i | 0 <= i < |fl| && i != k
      ensures fl[i] != fl[k]
    {
      assert i < k ==> fl[i] + 16 <= fl[k];
      assert k < i ==> fl[k] + 16 <= fl[i];
    }
  }

  lemma NodeAligned(fl: seq<int>, k: int)
    requires InArena(fl) && 0 <= k < |fl| && 16 <= fl[k]
    ensures Aligned(fl[k] - 4) && Aligned(fl[k]) && Aligned(fl[k] + 4) && fl[k] < MAX_HEAP == 20971520
  {
    DoubleWordAligned(fl[k]);
  }

  predicate LinkWord(fl: seq<int>, p: int) {
    p in fl || p - 4 in fl
  }

  /** Only link words of `fl` differ. */
  ghost predicate SameButLinks(m: Words, m': Words, fl: seq<int>) {
    forall p :: !LinkWord(fl, p) ==> W(m', p) == W(m, p)
  }

  ghost function OmitAt(fl: seq<int>, k: int): seq<int>
    requires 0 <= k < |fl|
  {
    fl[..k] + fl[k + 1..]
  }

  ghost function PutAt(fl: seq<int>, k: int, a: int): seq<int>
    requires 0 <= k <= |fl|
  {
    fl[..k] + [a] + fl[k..]
  }

  /** The memory with node `k` bypassed: its neighbours point past it. */
  ghost function Unlinked(m: Words, fl: seq<int>, k: int): Words
    requires 0 <= k < |fl|
  {
    var m1 := if k > 0 then m[fl[k - 1] := NextOf(fl, k)] else m;
    if k + 1 < |fl| then m1[fl[k + 1] + 4 := PrevOf(fl, k)] else m1
  }

  lemma UnlinkedSteps(m: Words, fl: seq<int>, k: int)
    requires 0 <= k < |fl|
    ensures k == 0 && |fl| == 1 ==> Unlinked(m, fl, k) == m
    ensures k == 0 && |fl| > 1 ==> Unlinked(m, fl, k) == m[fl[1] + 4 := 0]
    ensures k > 0 && k + 1 == |fl| ==> Unlinked(m, fl, k) == m[fl[k - 1] := 0]
    ensures k > 0 && k + 1 < |fl| ==> Unlinked(m, fl, k) == m[fl[k - 1] := fl[k + 1]][fl[k + 1] + 4 := fl[k - 1]]
  {
  }

  /** Only the two link words next to the removed node change. */
  lemma UnlinkedWords(m: Words, fl: seq<int>, k: int)
    requires 0 <= k < |fl| && LinkedList(m, fl)
    ensures var m' := Unlinked(m, fl, k);
      forall p :: W(m', p) ==
        if k > 0 && p == fl[k - 1] then NextOf(fl, k)
        else if k + 1 < |fl| && p == fl[k + 1] + 4 then PrevOf(fl, k)
        else W(m, p)
  {
  }

  lemma UnlinkKeeps(m: Words, fl: seq<int>, k: int, i: int)
    requires 0 <= k < |fl| && LinkedList(m, fl) && 0 <= i < |fl|
    ensures var m' := Unlinked(m, fl, k);
      && W(m', fl[i]) == (if i == k - 1 then NextOf(fl, k) else W(m, fl[i]))
      && W(m', fl[i] + 4) == (if i == k + 1 then PrevOf(fl, k) else W(m, fl[i] + 4))
  {
    UnlinkedWords(m, fl, k);
    hide Links, InArena, W, Unlinked;
    if i < k - 1 {
      assert fl[i] + 16 <= fl[k - 1];
    }
    if i > k + 1 {
      assert fl[k + 1] + 16 <= fl[i];
    }
  }

  lemma OmitSpaced(fl: seq<int>, k: int)
    requires 0 <= k < |fl| && Spaced(fl) && InArena(fl)
    ensures Spaced(OmitAt(fl, k)) && InArena(OmitAt(fl, k))
    ensures Head(OmitAt(fl, k)) == if k == 0 then NextOf(fl, 0) else Head(fl)
  {
  }

  lemma UnlinkPair(m: Words, fl: seq<int>, k: int, i: int)
    requires 0 <= k < |fl| && LinkedList(m, fl) && 0 <= i && i + 1 < |fl| - 1
    ensures var m', fl' := Unlinked(m, fl, k), OmitAt(fl, k);
      W(m', fl'[i]) == fl'[i + 1] && W(m', fl'[i + 1] + 4) == fl'[i]
  {
    var j := i + 1;
    var i', j' := if i < k then i else i + 1, if j < k then j else j + 1;
    UnlinkKeeps(m, fl, k, i');
    UnlinkKeeps(m, fl, k, j');
    hide Unlinked, Spaced, W, InArena;
    assert OmitAt(fl, k)[i] == fl[i'] && OmitAt(fl, k)[j] == fl[j'];
  }

  lemma UnlinkEnds(m: Words, fl: seq<int>, k: int)
    requires 0 <= k < |fl| && LinkedList(m, fl) && 1 < |fl|
    ensures var m', fl' := Unlinked(m, fl, k), OmitAt(fl, k);
      W(m', fl'[0] + 4) == 0 && W(m', fl'[|fl'| - 1]) == 0
  {
    var fl' := OmitAt(fl, k);
    var i', j' := if k == 0 then 1 else 0, if k == |fl'| then k - 1 else |fl'|;
    UnlinkKeeps(m, fl, k, i');
    UnlinkKeeps(m, fl, k, j');
    hide Unlinked, Spaced, W, InArena;
    assert fl'[0] == fl[i'] && fl'[|fl'| - 1] == fl[j'];
  }

  lemma Unlink(m: Words, fl: seq<int>, k: int)
    requires 0 <= k < |fl| && LinkedList(m, fl)
    ensures LinkedList(Unlinked(m, fl, k), OmitAt(fl, k))
    ensures SameButLinks(m, Unlinked(m, fl, k), fl)
    ensures Head(OmitAt(fl, k)) == if k == 0 then NextOf(fl, 0) else fl[0]
  {
    UnlinkFrame(m, fl, k);
    OmitSpaced(fl, k);
    UnlinkLinks(m, fl, k);
    hide Spaced, InArena, Links, SameButLinks, Unlinked, OmitAt;
  }

  lemma UnlinkFrame(m: Words, fl: seq<int>, k: int)
    requires 0 <= k < |fl| && LinkedList(m, fl)
    ensures SameButLinks(m, Unlinked(m, fl, k), fl)
  {
    UnlinkedWords(m, fl, k);
  }

  lemma UnlinkLinks(m: Words, fl: seq<int>, k: int)
    requires 0 <= k < |fl| && LinkedList(m, fl)
    ensures Links(Unlinked(m, fl, k), OmitAt(fl, k))
  {
    hide Unlinked, Spaced, W, InArena;
    forall i | 0 <= i < |fl| - 2
      ensures W(Unlinked(m, fl, k), OmitAt(fl, k)[i]) == OmitAt(fl, k)[i + 1]
      ensures W(Unlinked(m, fl, k), OmitAt(fl, k)[i + 1] + 4) == OmitAt(fl, k)[i]
    {
      UnlinkPair(m, fl, k, i);
    }
    if |fl| > 1 {
      UnlinkEnds(m, fl, k);
    }
  }

  /** Position `k` is where the address order puts `a`. */
  ghost predicate Slot(fl: seq<int>, k: int, a: int) {
    && 0 <= k <= |fl| && 16 <= a
    && (k > 0 ==> fl[k - 1] + 16 <= a) && (k < |fl| ==> a + 16 <= fl[k])
  }

  lemma NewNodeFacts(fl: seq<int>, k: int, a: int)
    requires Slot(fl, k, a) && DoubleAligned(a) && a + 8 <= MAX_HEAP
    ensures 0 <= k <= |fl|
    ensures Aligned(a - 4) && Aligned(a) && Aligned(a + 4) && 0 < a < MAX_HEAP == 20971520
  {
    DoubleWordAligned(a);
  }

  lemma DoubleWordAligned(a: int)
    requires DoubleAligned(a)
    ensures a % 4 == 0 && (a - 4) % 4 == 0 && (a + 4) % 4 == 0
  {
    A.Rem4(a / 8);
  }

  lemma SlotOrders(fl: seq<int>, k: int, a: int, i: int)
    requires Spaced(fl) && Slot(fl, k, a) && 0 <= i < |fl|
    ensures i < k ==> fl[i] + 16 <= a
    ensures k <= i ==> a + 16 <= fl[i]
  {
    if i < k - 1 {
      assert fl[i] + 16 <= fl[k - 1];
    }
    if k < i {
      assert fl[k] + 16 <= fl[i];
    }
  }

  /** The memory with `a` linked in at position `k`. */
  ghost function Linked(m: Words, fl: seq<int>, k: int, a: int): Words
    requires 0 <= k <= |fl|
  {
    var m1 := m[a := if k < |fl| then fl[k] else 0][a + 4 := if k > 0 then fl[k - 1] else 0];
    var m2 := if k < |fl| then m1[fl[k] + 4 := a] else m1;
    if k > 0 then m2[fl[k - 1] := a] else m2
  }

  lemma LinkedSteps(m: Words, fl: seq<int>, k: int, a: int)
    requires 0 <= k <= |fl|
    ensures fl == [] ==> Linked(m, fl, k, a) == m[a := 0][a + 4 := 0]
    ensures k == 0 < |fl| ==> Linked(m, fl, k, a) == m[a := fl[0]][a + 4 := 0][fl[0] + 4 := a]
    ensures k > 0 && k == |fl| ==> Linked(m, fl, k, a) == m[a := 0][a + 4 := fl[k - 1]][fl[k - 1] := a]
    ensures 0 < k < |fl| ==>
      Linked(m, fl, k, a) == m[a := fl[k]][a + 4 := fl[k - 1]][fl[k] + 4 := a][fl[k - 1] := a]
  {
  }

  /** The words of the new node, and what changes at an old one. */
  lemma LinkKeeps(m: Words, fl: seq<int>, k: int, a: int, i: int)
    requires LinkedList(m, fl) && Slot(fl, k, a) && 0 <= i < |fl|
    ensures var m' := Linked(m, fl, k, a);
      && W(m', fl[i]) == (if i == k - 1 then a else W(m, fl[i]))
      && W(m', fl[i] + 4) == (if i == k then a else W(m, fl[i] + 4))
  {
    SlotOrders(fl, k, a, i);
    if 0 < k < |fl| {
      assert fl[k - 1] + 16 <= fl[k];
    }
    hide Links, InArena;
  }

  lemma LinkNew(m: Words, fl: seq<int>, k: int, a: int)
    requires LinkedList(m, fl) && Slot(fl, k, a)
    ensures var m' := Linked(m, fl, k, a);
      && W(m', a) == (if k < |fl| then fl[k] else 0)
      && W(m', a + 4) == (if k > 0 then fl[k - 1] else 0)
  {
    hide Links, InArena, Spaced;
  }

  lemma LinkPair(m: Words, fl: seq<int>, k: int, a: int, i: int)
    requires LinkedList(m, fl) && Slot(fl, k, a) && 0 <= i < |fl|
    ensures var m', fl' := Linked(m, fl, k, a), PutAt(fl, k, a);
      W(m', fl'[i]) == fl'[i + 1] && W(m', fl'[i + 1] + 4) == fl'[i]
  {
    LinkNew(m, fl, k, a);
    PutIndex(fl, k, a, i);
    PutIndex(fl, k, a, i + 1);
    if i < k {
      LinkKeeps(m, fl, k, a, i);
    } else if i > k {
      LinkKeeps(m, fl, k, a, i - 1);
    }
    if i + 1 < k {
      LinkKeeps(m, fl, k, a, i + 1);
    } else if i + 1 > k {
      LinkKeeps(m, fl, k, a, i);
    }
    hide Linked, W, InArena, Spaced, Slot, PutAt;
  }

  lemma PutIndex(fl: seq<int>, k: int, a: int, i: int)
    requires 0 <= k <= |fl| && 0 <= i <= |fl|
    ensures PutAt(fl, k, a)[i] == if i < k then fl[i] else if i == k then a else fl[i - 1]
  {
  }

  lemma LinkEnds(m: Words, fl: seq<int>, k: int, a: int)
    requires LinkedList(m, fl) && Slot(fl, k, a)
    ensures var m', fl' := Linked(m, fl, k, a), PutAt(fl, k, a);
      W(m', fl'[0] + 4) == 0 && W(m', fl'[|fl'| - 1]) == 0
  {
    LinkNew(m, fl, k, a);
    if k > 0 {
      LinkKeeps(m, fl, k, a, 0);
    }
    if k < |fl| {
      LinkKeeps(m, fl, k, a, |fl| - 1);
    }
    hide Linked, W, InArena, Spaced, Slot;
  }

  lemma LinkLinks(m: Words, fl: seq<int>, k: int, a: int)
    requires LinkedList(m, fl) && Slot(fl, k, a)
    ensures Links(Linked(m, fl, k, a), PutAt(fl, k, a))
  {
    LinkEnds(m, fl, k, a);
    hide Linked, W, InArena, Spaced, Slot;
    forall i | 0 <= i < |fl|
      ensures W(Linked(m, fl, k, a), PutAt(fl, k, a)[i]) == PutAt(fl, k, a)[i + 1]
      ensures W(Linked(m, fl, k, a), PutAt(fl, k, a)[i + 1] + 4) == PutAt(fl, k, a)[i]
    {
      LinkPair(m, fl, k, a, i);
    }
  }

  lemma PutElement(fl: seq<int>, k: int, a: int, i: int)
    requires Spaced(fl) && InArena(fl) && Slot(fl, k, a) && 0 <= i < |PutAt(fl, k, a)|
    ensures |PutAt(fl, k, a)| == |fl| + 1
    ensures PutAt(fl, k, a)[i] == if i < k then fl[i] else if i == k then a else fl[i - 1]
    ensures i < k ==> 16 <= fl[i] && fl[i] + 16 <= a && DoubleAligned(fl[i]) && fl[i] + 8 <= MAX_HEAP
    ensures k < i ==> 16 <= fl[i - 1] && a + 16 <= fl[i - 1] && DoubleAligned(fl[i - 1]) && fl[i - 1] + 8 <= MAX_HEAP
  {
    hide DoubleAligned;
    if i < k {
      SlotOrders(fl, k, a, i);
    } else if k < i {
      SlotOrders(fl, k, a, i - 1);
    }
  }

  lemma PutSpaced(fl: seq<int>, k: int, a: int)
    requires Spaced(fl) && InArena(fl) && Slot(fl, k, a) && DoubleAligned(a) && a + 8 <= MAX_HEAP
    ensures Spaced(PutAt(fl, k, a)) && InArena(PutAt(fl, k, a))
  {
    hide DoubleAligned, PutAt;
    var fl' := PutAt(fl, k, a);
    forall i | 0 <= i < |fl'|
      ensures 16 <= fl'[i] && DoubleAligned(fl'[i]) && fl'[i] + 8 <= MAX_HEAP
    {
      PutElement(fl, k, a, i);
    }
    forall i, j | 0 <= i < j < |fl'|
      ensures fl'[i] + 16 <= fl'[j]
    {
      PutPair(fl, k, a, i, j);
    }
  }

  lemma PutPair(fl: seq<int>, k: int, a: int, i: int, j: int)
    requires Spaced(fl) && InArena(fl) && Slot(fl, k, a) && 0 <= i < j < |PutAt(fl, k, a)|
    ensures PutAt(fl, k, a)[i] + 16 <= PutAt(fl, k, a)[j]
  {
    hide DoubleAligned, PutAt, InArena;
    PutElement(fl, k, a, i);
    PutElement(fl, k, a, j);
    if j < k {
      assert fl[i] + 16 <= fl[j];
    } else if k < i {
      assert fl[i - 1] + 16 <= fl[j - 1];
    }
  }

  lemma LinkFrame(m: Words, fl: seq<int>, k: int, a: int)
    requires 0 <= k <= |fl|
    ensures SameButLinks(m, Linked(m, fl, k, a), PutAt(fl, k, a))
  {
    assert a in PutAt(fl, k, a);
    assert forall i :: 0 <= i < |fl| ==> fl[i] == PutAt(fl, k, a)[if i < k then i else i + 1];
  }

  lemma Link(m: Words, fl: seq<int>, k: int, a: int)
    requires LinkedList(m, fl) && Slot(fl, k, a) && DoubleAligned(a) && a + 8 <= MAX_HEAP
    ensures LinkedList(Linked(m, fl, k, a), PutAt(fl, k, a))
    ensures SameButLinks(m, Linked(m, fl, k, a), PutAt(fl, k, a))
    ensures Head(PutAt(fl, k, a)) == if k == 0 then a else fl[0]
  {
    LinkFrame(m, fl, k, a);
    LinkLinks(m, fl, k, a);
    PutSpaced(fl, k, a);
    hide Spaced, InArena, Links, SameButLinks, Linked;
  }
}
