/** fcyc.c: the K-best sampling scheme, over real-valued measurements. */
module Sampler {

  ghost predicate Sorted(s: seq<real>) {
    forall i, j :: 0 <= i < j < |s| ==> s[i] <= s[j]
  }

  /** `x` placed behind everything that is not larger. */
  function Insert(s: seq<real>, x: real): seq<real> {
    if s == [] then [x] else if s[0] <= x then [s[0]] + Insert(s[1..], x) else [x] + s
  }

  function Sort(s: seq<real>): seq<real> {
    if s == [] then [] else Insert(Sort(s[..|s| - 1]), s[|s| - 1])
  }

  /** The k smallest samples, sorted; all of them when there are fewer. */
  function Best(samples: seq<real>, k: nat): seq<real> {
    var s := Sort(samples);
    if |s| <= k then s else s[..k]
  }

  lemma {:induction false} InsertAdds(s: seq<real>, x: real)
    ensures multiset(Insert(s, x)) == multiset(s) + multiset{x} && |Insert(s, x)| == |s| + 1
  {
    if s != [] && s[0] <= x {
      InsertAdds(s[1..], x);
      assert s == [s[0]] + s[1..];
    }
  }

  lemma InsertMembers(s: seq<real>, x: real, y: real)
    ensures y in Insert(s, x) <==> y in s || y == x
  {
    InsertAdds(s, x);
    assert y in Insert(s, x) <==> y in multiset(Insert(s, x));
  }

  lemma SortedTail(s: seq<real>)
    requires Sorted(s) && s != []
    ensures Sorted(s[1..]) && forall y :: y in s[1..] ==> s[0] <= y
  {
  }

  lemma SortedCons(x: real, s: seq<real>)
    requires Sorted(s) && forall y :: y in s ==> x <= y
    ensures Sorted([x] + s)
  {
    forall i, j | 0 <= i < j < |s| + 1
      ensures ([x] + s)[i] <= ([x] + s)[j]
    {
      assert ([x] + s)[j] == s[j - 1] && s[j - 1] in s;
    }
  }

  lemma {:induction false} InsertSorted(s: seq<real>, x: real)
    requires Sorted(s)
    ensures Sorted(Insert(s, x)) && |Insert(s, x)| == |s| + 1
  {
    hide Sorted;
    InsertAdds(s, x);
    if s == [] {
      SortedSingle(x);
    } else {
      SortedTail(s);
      if s[0] <= x {
        InsertSorted(s[1..], x);
        forall y | y in Insert(s[1..], x)
          ensures s[0] <= y
        {
          InsertMembers(s[1..], x, y);
        }
        SortedCons(s[0], Insert(s[1..], x));
      } else {
        assert s == [s[0]] + s[1..];
        SortedCons(x, s);
      }
    }
  }

  lemma SortedSingle(x: real)
    ensures Sorted([x])
  {
  }

  /** Sort is a sorting function. */
  lemma {:induction false} SortSorts(s: seq<real>)
    ensures Sorted(Sort(s)) && multiset(Sort(s)) == multiset(s) && |Sort(s)| == |s|
  {
    hide Sorted, Insert;
    if s == [] {
      SortedEmpty();
    } else {
      var init := s[..|s| - 1];
      SortSorts(init);
      InsertSorted(Sort(init), s[|s| - 1]);
      InsertAdds(Sort(init), s[|s| - 1]);
      assert s == init + [s[|s| - 1]];
    }
  }

  lemma SortedEmpty()
    ensures Sorted([])
  {
  }

  /** Where a value belongs in a sorted sequence. */
  lemma {:induction false} InsertAt(s: seq<real>, p: int, x: real)
    requires 0 <= p <= |s| && (forall i :: 0 <= i < p ==> s[i] <= x) && (forall i :: p <= i < |s| ==> x < s[i])
    ensures Insert(s, x) == s[..p] + [x] + s[p..]
  {
    if p > 0 {
      var tail := s[1..];
      assert forall i :: 0 <= i < |tail| ==> tail[i] == s[i + 1];
      InsertAt(tail, p - 1, x);
      assert s[..p] == [s[0]] + tail[..p - 1];
    }
  }

  /** Only the k smallest matter for the k smallest of a longer sequence. */
  lemma {:induction false} InsertCut(s: seq<real>, k: nat, x: real)
    requires Sorted(s) && k < |s|
    ensures |Insert(s, x)| > k && |Insert(s[..k], x)| == k + 1
    ensures Insert(s, x)[..k] == Insert(s[..k], x)[..k]
    decreases k
  {
    hide Sorted;
    InsertAdds(s, x);
    InsertAdds(s[..k], x);
    if k > 0 {
      var tail := s[1..];
      assert s[..k][1..] == tail[..k - 1];
      if s[0] <= x {
        SortedTail(s);
        InsertAdds(tail, x);
        InsertAdds(tail[..k - 1], x);
        InsertCut(tail, k - 1, x);
        assert Insert(s, x)[..k] == [s[0]] + Insert(tail, x)[..k - 1];
        assert Insert(s[..k], x)[..k] == [s[0]] + Insert(tail[..k - 1], x)[..k - 1];
      } else {
        assert Insert(s, x)[..k] == Insert(s[..k], x)[..k];
      }
    }
  }

  lemma BestStep(samples: seq<real>, x: real, k: nat)
    ensures |samples| < k ==> Best(samples + [x], k) == Insert(Best(samples, k), x)
    ensures |samples| >= k ==> |Best(samples, k)| == k && |Insert(Best(samples, k), x)| == k + 1
    ensures |samples| >= k ==> Best(samples + [x], k) == Insert(Best(samples, k), x)[..k]
  {
    hide Sorted, Insert;
    var s := Sort(samples);
    SortSorts(samples);
    assert (samples + [x])[..|samples|] == samples;
    InsertAdds(s, x);
    if |s| > k {
      InsertCut(s, k, x);
    }
  }

  /** What being the k best means: sorted, min(k, n) many, drawn from the samples, and no other sample is smaller. */
  lemma BestIsSmallest(samples: seq<real>, k: nat)
    ensures var b := Best(samples, k);
      && Sorted(b) && |b| == (if |samples| < k then |samples| else k)
      && multiset(b) <= multiset(samples)
      && forall x, y :: x in b && y in multiset(samples) - multiset(b) ==> x <= y
  {
    hide Insert, Sort;
    SortSorts(samples);
    CutSorted(Sort(samples), k);
  }

  lemma CutSorted(s: seq<real>, k: nat)
    requires Sorted(s)
    ensures var b := if |s| <= k then s else s[..k];
      && Sorted(b) && multiset(b) <= multiset(s)
      && forall x, y :: x in b && y in multiset(s) - multiset(b) ==> x <= y
  {
    if |s| > k {
      var b, rest := s[..k], s[k..];
      assert s == b + rest;
      assert multiset(s) - multiset(b) == multiset(rest);
      forall x, y | x in b && y in multiset(rest)
        ensures x <= y
      {
        SortedApart(s, k, x, y);
      }
    }
  }

  lemma SortedBelow(s: seq<real>, p: nat, x: real)
    requires Sorted(s) && p <= |s| && (p > 0 ==> s[p - 1] <= x)
    ensures forall i :: 0 <= i < p ==> s[i] <= x
  {
  }

  lemma SortedApart(s: seq<real>, k: nat, x: real, y: real)
    requires Sorted(s) && k <= |s| && x in s[..k] && y in s[k..]
    ensures x <= y
  {
    var i :| 0 <= i < k && s[..k][i] == x;
    var j :| 0 <= j < |s| - k && s[k..][j] == y;
    assert s[i] == x && s[k + j] == y;
  }

  /** How the k best change with one more sample `x`. */
  lemma NextBest(samples: seq<real>, x: real, k: nat)
    requires k >= 1
    ensures var b, c, n := Best(samples, k), Best(samples + [x], k), |samples|;
      && |b| == (if n < k then n else k) && |c| == (if n + 1 < k then n + 1 else k) && Sorted(b)
      && (n < k ==> c == Insert(b, x))
      && (n >= k && x < b[k - 1] ==> Sorted(b[..k - 1]) && c == Insert(b[..k - 1], x))
      && (n >= k && x >= b[k - 1] ==> c == b)
  {
    hide Insert, Sort, Best, Sorted;
    BestIsSmallest(samples, k);
    BestIsSmallest(samples + [x], k);
    BestStep(samples, x, k);
    var b := Best(samples, k);
    if |samples| >= k {
      if x < b[k - 1] {
        CutLarger(b, x);
      } else {
        KeepSmaller(b, x);
      }
    }
  }

  /** There are k samples, and the largest of the k best is within epsilon of the smallest. */
  ghost predicate Converged(samples: seq<real>, k: nat, epsilon: real) {
    var best := Best(samples, k);
    k >= 1 && |best| == k && best[k - 1] <= (1.0 + epsilon) * best[0]
  }

  /** In terms of the k best as a collection: the smallest and the largest of them satisfy
      the source's comparison. */
  lemma ConvergedIff(samples: seq<real>, k: nat, epsilon: real)
    ensures Converged(samples, k, epsilon) <==>
      && 1 <= k <= |samples|
      && forall lo, hi :: Extremes(Best(samples, k), lo, hi) ==> hi <= (1.0 + epsilon) * lo
  {
    hide Best, Sorted;
    BestIsSmallest(samples, k);
    var b := Best(samples, k);
    if 1 <= k <= |samples| {
      SortedExtremes(b);
      forall lo, hi | Extremes(b, lo, hi)
        ensures lo == b[0] && hi == b[k - 1]
      {
        assert b[0] in b && b[k - 1] in b;
      }
    }
  }

  /** `lo` is the smallest and `hi` the largest member of `b`. */
  ghost predicate Extremes(b: seq<real>, lo: real, hi: real) {
    lo in b && hi in b && forall x :: x in b ==> lo <= x <= hi
  }

  /** So, for an epsilon from -1 on, the k best have converged exactly when any two of them
      are within the factor 1 + epsilon of each other. */
  lemma ConvergedPairs(samples: seq<real>, k: nat, epsilon: real)
    requires epsilon >= -1.0
    ensures Converged(samples, k, epsilon) <==>
      && 1 <= k <= |samples|
      && forall x, y :: x in Best(samples, k) && y in Best(samples, k) ==> x <= (1.0 + epsilon) * y
  {
    hide Best, Sorted;
    BestIsSmallest(samples, k);
    var b := Best(samples, k);
    if 1 <= k <= |samples| {
      SortedExtremes(b);
      PairsWithin(b, 1.0 + epsilon, b[0], b[k - 1]);
    }
  }

  lemma SortedExtremes(b: seq<real>)
    requires Sorted(b) && b != []
    ensures Extremes(b, b[0], b[|b| - 1])
  {
    forall x | x in b
      ensures b[0] <= x <= b[|b| - 1]
    {
      var i :| 0 <= i < |b| && b[i] == x;
    }
  }

  lemma PairsWithin(b: seq<real>, f: real, lo: real, hi: real)
    requires Extremes(b, lo, hi) && f >= 0.0
    ensures hi <= f * lo <==> forall x, y :: x in b && y in b ==> x <= f * y
  {
    if hi <= f * lo {
      forall x, y | x in b && y in b
        ensures x <= f * y
      {
        Scaled(f, lo, y);
      }
    }
  }

  lemma Scaled(f: real, x: real, y: real)
    requires f >= 0.0 && x <= y
    ensures f * x <= f * y
  {
  }

  /** `kbest`, `maxsamples` and `epsilon` are fcyc.c's parameters; `samples` is what was measured so far. */
  class Sampler {
    const kbest: nat
    const maxsamples: int
    const epsilon: real
    var values: array<real>
    var samplecount: int
    ghost var samples: seq<real>

    ghost predicate Valid()
      reads this, values
    {
      && kbest >= 1 && values.Length == kbest && samplecount == |samples|
      && |Best(samples, kbest)| == (if samplecount < kbest then samplecount else kbest)
      && values[..|Best(samples, kbest)|] == Best(samples, kbest)
    }

    constructor (kbest: nat, maxsamples: int, epsilon: real)
      ensures this.kbest == kbest && this.maxsamples == maxsamples && this.epsilon == epsilon
    {
      this.kbest, this.maxsamples, this.epsilon := kbest, maxsamples, epsilon;
      values := new real[0];
    }

    /** init_sampler, for k >= 1 */
    method InitSampler()
      requires kbest >= 1
      modifies this
      ensures Valid() && samples == [] && fresh(values)
    {
      values := new real[kbest](_ => 0.0);
      samplecount := 0;
      samples := [];
    }

    /** The insertion loop of add_sample: moves the value at `pos` down to its place. */
    method SiftDown(last: int)
      requires 0 <= last < values.Length && Sorted(values[..last])
      modifies values
      ensures values[..last + 1] == Insert(old(values[..last]), old(values[last]))
      ensures values[last + 1..] == old(values[last + 1..])
    {
      hide Sorted, Insert;
      var pos := last;
      ghost var s, x := values[..last], values[last];
      while pos > 0 && values[pos - 1] > values[pos]
        invariant 0 <= pos <= last && values[pos] == x
        invariant forall i :: 0 <= i < pos ==> values[i] == s[i]
        invariant forall i :: pos <= i < last ==> x < s[i]
        invariant forall i :: pos <= i < last ==> values[i + 1] == s[i]
        invariant values[last + 1..] == old(values[last + 1..])
      {
        var temp := values[pos - 1];
        assert temp == s[pos - 1];
        values[pos - 1] := values[pos];
        values[pos] := temp;
        pos := pos - 1;
        assert values[pos + 1] == s[pos] && x < s[pos];
      }
      SortedBelow(s, pos, x);
      InsertAt(s, pos, x);
      Assembled(values[..last + 1], s, pos, x);
    }

    /** add_sample */
    method AddSample(val: real)
      requires Valid()
      modifies `samplecount, `samples, values
      ensures Valid() && values == old(values) && samples == old(samples) + [val]
    {
      hide Best, Sorted, Insert;
      NextBest(samples, val, kbest);
      ghost var b := Best(samples, kbest);
      if samplecount < kbest {
        values[samplecount] := val;
        assert values[..samplecount] == b;
        SiftDown(samplecount);
      } else if val < values[kbest - 1] {
        assert values[kbest - 1] == values[..kbest][kbest - 1];
        values[kbest - 1] := val;
        assert values[..kbest - 1] == b[..kbest - 1];
        SiftDown(kbest - 1);
      } else {
        assert values[kbest - 1] == values[..kbest][kbest - 1];
      }
      samplecount := samplecount + 1;
      samples := samples + [val];
    }

    /** has_converged */
    method HasConverged() returns (r: bool)
      requires Valid()
      ensures r <==> Converged(samples, kbest, epsilon)
    {
      ghost var v := values[..kbest];
      assert samplecount >= kbest ==> v[0] == values[0] && v[kbest - 1] == values[kbest - 1];
      r := samplecount >= kbest && (1.0 + epsilon) * values[0] >= values[kbest - 1];
    }

    /** The sampling loop of fcyc, on the measurements `cycles`: the minimum of all
        samples taken, at least one and at most max(1, maxsamples) of them. */
    method Fcyc(cycles: nat -> real) returns (result: real)
      requires kbest >= 1
      modifies this
      ensures 1 <= |samples| && (|samples| == 1 || |samples| <= maxsamples)
      ensures forall i :: 0 <= i < |samples| ==> samples[i] == cycles(i)
      ensures result in samples && forall x :: x in samples ==> result <= x
      ensures |samples| < maxsamples ==> Converged(samples, kbest, epsilon)
      ensures forall n :: 1 <= n < |samples| ==> !Converged(samples[..n], kbest, epsilon)
    {
      hide Best, Sorted, Insert, Converged;
      InitSampler();
      AddSample(cycles(0));
      var done := HasConverged();
      while !done && samplecount < maxsamples
        invariant Valid() && fresh(values) && 1 <= samplecount && (samplecount == 1 || samplecount <= maxsamples)
        invariant forall i :: 0 <= i < |samples| ==> samples[i] == cycles(i)
        invariant done <==> Converged(samples, kbest, epsilon)
        invariant forall n :: 1 <= n < |samples| ==> !Converged(samples[..n], kbest, epsilon)
        decreases maxsamples - samplecount
      {
        ghost var before := samples;
        AddSample(cycles(samplecount));
        assert samples[..|before|] == before;
        assert forall n :: 1 <= n < |before| ==> samples[..n] == before[..n];
        done := HasConverged();
      }
      LeastIsFirst(samples, kbest);
      assert values[..|Best(samples, kbest)|][0] == values[0];
      result := values[0];
    }
  }

  lemma Assembled(v: seq<real>, s: seq<real>, p: nat, x: real)
    requires |v| == |s| + 1 && p <= |s| && v[p] == x
    requires (forall i :: 0 <= i < p ==> v[i] == s[i]) && (forall i :: p <= i < |s| ==> v[i + 1] == s[i])
    ensures v == s[..p] + [x] + s[p..]
  {
    forall j | p < j < |v|
      ensures v[j] == s[j - 1]
    {
      assert v[(j - 1) + 1] == s[j - 1];
    }
  }

  /** A new value below the largest of the k best pushes that one out. */
  lemma CutLarger(best: seq<real>, x: real)
    requires best != [] && Sorted(best) && x < best[|best| - 1]
    ensures |Insert(best, x)| == |best| + 1
    ensures Insert(best, x)[..|best|] == Insert(best[..|best| - 1], x)
    ensures Sorted(best[..|best| - 1])
  {
    LastStays(best, x);
    InsertAdds(best, x);
  }

  lemma {:induction false} LastStays(s: seq<real>, x: real)
    requires s != [] && x < s[|s| - 1]
    ensures Insert(s, x) == Insert(s[..|s| - 1], x) + [s[|s| - 1]]
  {
    var n := |s| - 1;
    if s[0] <= x {
      var tail := s[1..];
      assert tail[n - 1] == s[n];
      LastStays(tail, x);
      assert s[..n][1..] == tail[..n - 1];
    } else {
      assert s == s[..n] + [s[n]];
    }
  }

  lemma KeepSmaller(best: seq<real>, x: real)
    requires best != [] && Sorted(best) && best[|best| - 1] <= x
    ensures Insert(best, x) == best + [x]
  {
    InsertAt(best, |best|, x);
  }

  lemma LeastIsFirst(samples: seq<real>, k: nat)
    requires samples != [] && k >= 1
    ensures Best(samples, k) != [] && Best(samples, k)[0] in samples
    ensures forall x :: x in samples ==> Best(samples, k)[0] <= x
  {
    hide Insert, Sort;
    var s := Sort(samples);
    SortSorts(samples);
    assert s[0] in multiset(s);
    forall x | x in samples
      ensures s[0] <= x
    {
      assert x in multiset(s);
      var i :| 0 <= i < |s| && s[i] == x;
    }
  }
}
