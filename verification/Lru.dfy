/** Least-recently-used replacement as a stack of tags, most recent first. */
module Lru {
  import opened Sequences

  /** `r` without its first occurrence of `t`. */
  function Without<T(==)>(r: seq<T>, t: T): seq<T> {
    if r == [] then [] else if r[0] == t then r[1..] else [r[0]] + Without(r[1..], t)
  }

  /** The distinct members of a history, most recently used first. */
  function Recent<T(==)>(h: seq<T>): seq<T> {
    if h == [] then [] else [h[|h| - 1]] + Without(Recent(h[..|h| - 1]), h[|h| - 1])
  }

  /** The first `n` members, all of them when there are fewer. */
  function Take<T>(r: seq<T>, n: nat): seq<T> {
    if n < |r| then r[..n] else r
  }

  lemma {:induction false} WithoutMembers<T(!new)>(r: seq<T>, t: T)
    requires Distinct(r)
    ensures forall x :: x in Without(r, t) <==> x in r && x != t
    ensures Distinct(Without(r, t))
    ensures |Without(r, t)| == if t in r then |r| - 1 else |r|
    ensures t !in r ==> Without(r, t) == r
  {
    if r != [] {
      var tail := r[1..];
      assert forall i :: 0 <= i < |tail| ==> tail[i] == r[i + 1];
      assert forall x :: x in r <==> x == r[0] || x in tail;
      assert r[0] !in tail;
      WithoutMembers(tail, t);
    }
  }

  /** The stack lists exactly the members of the history, each once. */
  lemma {:induction false} RecentMembers<T(!new)>(h: seq<T>)
    ensures Distinct(Recent(h))
    ensures forall x :: x in Recent(h) <==> x in h
  {
    if h != [] {
      var init, t := h[..|h| - 1], h[|h| - 1];
      RecentMembers(init);
      WithoutMembers(Recent(init), t);
      assert h == init + [t];
    }
  }

  lemma RecentAppend<T>(h: seq<T>, t: T)
    ensures Recent(h + [t]) == [t] + Without(Recent(h), t)
  {
    assert (h + [t])[..|h|] == h;
  }

  lemma TakeFirst<T>(r: seq<T>, n: nat)
    ensures r != [] && n > 0 ==> Take(r, n) == [r[0]] + Take(r[1..], n - 1)
    ensures r == [] || n == 0 ==> Take(r, n) == []
  {
  }

  lemma WithoutFirst<T>(x: T, s: seq<T>, t: T)
    ensures Without([x] + s, t) == if x == t then s else [x] + Without(s, t)
    ensures Without([], t) == []
  {
    assert ([x] + s)[1..] == s;
  }

  lemma DistinctTail<T(!new)>(r: seq<T>)
    requires Distinct(r) && r != []
    ensures Distinct(r[1..]) && r[0] !in r[1..]
  {
    assert forall i :: 0 <= i < |r[1..]| ==> r[1..][i] == r[i + 1];
  }

  /** Removing an element among the first `n` commutes with taking them. */
  lemma {:induction false} TakeWithout<T(!new)>(r: seq<T>, t: T, n: nat)
    requires Distinct(r) && n > 0
    ensures t in Take(r, n) ==> Take(Without(r, t), n - 1) == Without(Take(r, n), t)
    ensures t !in Take(r, n) ==> Take(Without(r, t), n - 1) == Take(r, n - 1)
  {
    hide Take, Without, Distinct;
    TakeFirst(r, n);
    TakeFirst(r, n - 1);
    TakeFirst(Without(r, t), n - 1);
    if r == [] {
      WithoutFirst(t, [], t);
    } else {
      var x, tail := r[0], r[1..];
      assert r == [x] + tail;
      DistinctTail(r);
      WithoutFirst(x, tail, t);
      WithoutFirst(x, Take(tail, n - 1), t);
      if x != t && n > 1 {
        TakeWithout(tail, t, n - 1);
        assert Without(r, t)[1..] == Without(tail, t);
      } else if x != t {
        TakeFirst(tail, 0);
      }
    }
  }

  /** Where `x` occurs last in the history, -1 if it does not. */
  function LastUse<T(==)>(h: seq<T>, x: T): (k: int)
    ensures -1 <= k < |h|
    ensures k >= 0 ==> h[k] == x
    ensures forall i :: k < i < |h| ==> h[i] != x
  {
    if h == [] then -1 else if h[|h| - 1] == x then |h| - 1 else LastUse(h[..|h| - 1], x)
  }

  /** The stack is ordered by last use: an earlier member was used after a later one. */
  lemma {:induction false} RecentOrder<T(!new)>(h: seq<T>, i: int, j: int)
    requires 0 <= i < j < |Recent(h)|
    ensures LastUse(h, Recent(h)[i]) > LastUse(h, Recent(h)[j])
  {
    hide *;
    RecentStep(h);
    var init, t := h[..|h| - 1], h[|h| - 1];
    var r := Without(Recent(init), t);
    RecentMembers(init);
    WithoutMembers(Recent(init), t);
    assert r[j - 1] in r;
    LastUseStep(h, t);
    LastUseStep(h, r[j - 1]);
    if i > 0 {
      assert r[i - 1] in r;
      LastUseStep(h, r[i - 1]);
      var i', j' := WithoutOrder(Recent(init), t, i - 1, j - 1);
      RecentOrder(init, i', j');
    }
  }

  lemma RecentStep<T>(h: seq<T>)
    requires Recent(h) != []
    ensures h != [] && Recent(h) == [h[|h| - 1]] + Without(Recent(h[..|h| - 1]), h[|h| - 1])
  {
  }

  lemma LastUseStep<T>(h: seq<T>, x: T)
    requires h != []
    ensures x == h[|h| - 1] ==> LastUse(h, x) == |h| - 1
    ensures x != h[|h| - 1] ==> LastUse(h, x) == LastUse(h[..|h| - 1], x) < |h| - 1
  {
  }

  /** Members keep their order when another one is removed. */
  lemma {:induction false} WithoutOrder<T(!new)>(r: seq<T>, t: T, i: int, j: int) returns (i': int, j': int)
    requires 0 <= i < j < |Without(r, t)|
    ensures 0 <= i' < j' < |r| && r[i'] == Without(r, t)[i] && r[j'] == Without(r, t)[j]
  {
    if r[0] == t {
      i', j' := i + 1, j + 1;
    } else if i == 0 {
      var k := WithoutIndex(r[1..], t, j - 1);
      i', j' := 0, k + 1;
    } else {
      i', j' := WithoutOrder(r[1..], t, i - 1, j - 1);
      i', j' := i' + 1, j' + 1;
    }
  }

  lemma {:induction false} WithoutIndex<T(!new)>(r: seq<T>, t: T, j: int) returns (k: int)
    requires 0 <= j < |Without(r, t)|
    ensures 0 <= k < |r| && r[k] == Without(r, t)[j]
  {
    if r[0] == t {
      k := j + 1;
    } else if j == 0 {
      k := 0;
    } else {
      k := WithoutIndex(r[1..], t, j - 1);
      k := k + 1;
    }
  }

  lemma {:induction false} WithoutAt<T(!new)>(r: seq<T>, k: int)
    requires Distinct(r) && 0 <= k < |r|
    ensures Without(r, r[k]) == r[..k] + r[k + 1..]
  {
    hide Without, Distinct;
    var x, tail := r[0], r[1..];
    assert r == [x] + tail;
    WithoutFirst(x, tail, r[k]);
    if k > 0 {
      DistinctTail(r);
      WithoutAt(tail, k - 1);
      assert tail[k - 1] == r[k];
      assert r[..k] == [x] + tail[..k - 1];
    }
  }

  // ----- a stack cut to n members -----

  /** What a cache of `n` lines holds after a history: its n most recently used members. */
  function Kept<T(==)>(h: seq<T>, n: nat): seq<T> {
    Take(Recent(h), n)
  }

  /** A cut stack can be updated without the members that were cut off. */
  lemma KeptAppend<T(!new)>(h: seq<T>, t: T, n: nat)
    requires n > 0
    ensures Kept(h + [t], n) == [t] + Take(Without(Kept(h, n), t), n - 1)
  {
    var r := Recent(h);
    RecentAppend(h, t);
    RecentMembers(h);
    TakeWithout(r, t, n);
    TakeTake(r, n);
    WithoutMembers(Take(r, n), t);
  }

  lemma TakeTake<T(!new)>(r: seq<T>, n: nat)
    requires n > 0
    ensures Take(Take(r, n), n - 1) == Take(r, n - 1)
    ensures Distinct(r) ==> Distinct(Take(r, n))
  {
  }

  /** The inclusion property of LRU: a larger cut holds all that a smaller one holds. */
  lemma KeptMonotone<T(!new)>(h: seq<T>, n: nat, m: nat)
    requires n <= m
    ensures Kept(h, n) <= Kept(h, m)
    ensures forall x :: x in Kept(h, n) ==> x in Kept(h, m)
  {
  }

  lemma EarlyIsKept<T>(r: seq<T>, n: nat, j: int)
    requires 0 <= j < |r|
    ensures j < n ==> r[j] in Take(r, n)
  {
    assert j < n ==> Take(r, n)[j] == r[j];
  }

  /** The number of members kept is the number of distinct members used, at most n. */
  lemma KeptExactly<T(!new)>(h: seq<T>, n: nat)
    ensures Distinct(Kept(h, n))
    ensures forall x :: x in Kept(h, n) ==> x in h
    ensures |Kept(h, n)| == if |Recent(h)| < n then |Recent(h)| else n
    ensures forall x, y :: x in Kept(h, n) && y in h && y !in Kept(h, n) ==> LastUse(h, x) > LastUse(h, y)
  {
    RecentMembers(h);
    var r := Recent(h);
    forall x, y | x in Kept(h, n) && y in h && y !in Kept(h, n)
      ensures LastUse(h, x) > LastUse(h, y)
    {
      var i :| 0 <= i < |Kept(h, n)| && Kept(h, n)[i] == x;
      assert y in r;
      var j :| 0 <= j < |r| && r[j] == y;
      EarlyIsKept(r, n, j);
      RecentOrder(h, i, j);
    }
  }
}
