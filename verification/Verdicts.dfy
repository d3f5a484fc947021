/** What checktrace.pl answers, in terms of the lines of its input. */
module Verdicts {
  import opened Balancer

  /** The script dies while reading exactly when some line is refused by those before it,
      with -s as without. */
  lemma DiesIff(t: Trace, summary: bool, out: Outcome)
    requires Checked(t, summary, out)
    ensures out == Died <==> exists i :: 0 <= i < |t.requests| && Refused(t.requests[..i], t.requests[i])
  {
    hide Tally, Refused;
    AcceptedIff(t.requests);
  }

  /** The -s verdict on a trace that is read to its end: balanced exactly when every id is idle. */
  lemma SummaryIff(t: Trace, out: Outcome)
    requires Checked(t, true, out) && out != Died
    ensures out.Brief? && (out.balanced <==> forall id :: Idle(t.requests, id))
  {
    hide Tally, Idle;
    var h := Tally(t.requests).value;
    forall id
      ensures id in h <==> !Idle(t.requests, id)
    {
      NotIdle(t.requests, id);
    }
    if out.balanced {
      assert forall id :: id !in h;
    } else {
      var id :| id in h;
      assert !Idle(t.requests, id);
    }
  }

  /** It is "balanced" exactly when the full output adds no free. */
  lemma SummaryAgrees(t: Trace, brief: Outcome, full: Outcome)
    requires Checked(t, true, brief) && Checked(t, false, full) && full.Balanced?
    ensures brief == Brief(full.trace.requests == Saved(t.requests))
  {
    hide Tally, Saved;
    var h := Tally(t.requests).value;
    var keys := OutputKeys(t, full);
    assert |keys| == |h| && |full.trace.requests| == |Saved(t.requests)| + |keys|;
    if h == map[] {
      assert keys == [];
    }
  }

  lemma {:induction false} LastAllocate(qs: seq<Request>, id: string) returns (i: nat)
    requires LastCommand(qs, id) == Some("a")
    ensures i < |qs| && qs[i].cmd == "a" && qs[i].id == id && NoFree(qs, i, |qs|, id)
  {
    var n := |qs| - 1;
    var q := qs[n];
    if !Blank(q) && q.cmd != "r" && q.id == id {
      i := n;
    } else {
      i := LastAllocate(qs[..n], id);
      assert qs[..n][i] == qs[i];
      assert "f"[0] == 'f' && "r"[0] == 'r' && "0"[0] == '0';
      forall m | i < m < |qs|
        ensures !(qs[m].id == id && qs[m].cmd == "f")
      {
        if m < n {
          assert qs[..n][m] == qs[m];
        }
      }
    }
  }

  /** On allocates, reallocs and frees alone: exactly when each allocate already has its one matching free. */
  lemma SummaryMatched(t: Trace, out: Outcome)
    requires Checked(t, true, out) && out != Died && OnlyKnown(t.requests)
    ensures out == Brief(EachMatchedOnce(Saved(t.requests)))
  {
    hide EachMatchedOnce, OnlyKnown, Saved;
    var qs := Saved(t.requests);
    SavedTally(t.requests);
    if out.balanced {
      KnownSaved(t.requests);
      KnownNoneTwice(qs);
      MatchedIff(qs);
    } else if EachMatchedOnce(qs) {
      UnmatchedAllocate(t.requests);
    }
  }

  lemma KnownSaved(qs: seq<Request>)
    requires OnlyKnown(qs)
    ensures OnlyKnown(Saved(qs))
  {
    forall q | q in Saved(qs)
      ensures q in qs
    {
      SavedNotBlank(qs, q);
    }
  }

  lemma UnmatchedAllocate(qs: seq<Request>)
    requires OnlyKnown(qs) && Tally(qs).Some? && Tally(qs).value != map[]
    ensures !EachMatchedOnce(Saved(qs))
  {
    hide Tally, OnlyKnown, Saved, LastCommand, Blank;
    var s := Saved(qs);
    SavedTally(qs);
    KnownSaved(qs);
    KnownValues(s);
    var id :| id in Tally(s).value;
    NotIdle(s, id);
    var i := LastAllocate(s, id);
    assert forall j: nat :: !Matches(s, i, j);
  }

  /** What is printed without -s: the header with the operation count adjusted, the saved
      lines, and frees of the ids that are not idle, in ascending order; all of them, or
      those before the first id whose last command is not an allocate. */
  lemma OutputShape(t: Trace, out: Outcome) returns (keys: seq<string>, n: nat)
    requires Checked(t, false, out) && out != Died
    ensures Ascending(keys) && (forall id :: id in keys <==> !Idle(t.requests, id))
    ensures n <= |keys| && (forall i :: 0 <= i < n ==> LastCommand(t.requests, keys[i]) == Some("a"))
    ensures if n == |keys| then out.Balanced? else out.CutShort? && LastCommand(t.requests, keys[n]) != Some("a")
    ensures var u := out.trace;
      && u.heapSize == t.heapSize && u.numBlocks == t.numBlocks && u.weight == t.weight
      && u.numOps == t.numOps + |keys|
      && |u.requests| == |Saved(t.requests)| + n && Saved(t.requests) <= u.requests
      && forall i :: 0 <= i < n ==> u.requests[|Saved(t.requests)| + i] == Request("f", keys[i], "")
  {
    hide Tally, Saved, LastCommand, Idle, FirstBad, Frees, Ascending, Checked, Lists, Residue, Freeable;
    var h: map<string, string>;
    h, keys := ResidueOf(t, out);
    n := FirstBad(h, keys);
    ResidueShape(t, h, keys);
    forall id
      ensures id in keys <==> !Idle(t.requests, id)
    {
      NotIdle(t.requests, id);
    }
    forall i | 0 <= i < |keys|
      ensures Freeable(h, keys[i]) <==> LastCommand(t.requests, keys[i]) == Some("a")
    {
      FreeableIff(t.requests, keys[i]);
    }
  }

  lemma ResidueOf(t: Trace, out: Outcome) returns (h: map<string, string>, keys: seq<string>)
    requires Checked(t, false, out) && out != Died
    ensures Tally(t.requests) == Some(h) && out == Residue(t, h, keys)
    ensures Ascending(keys) && |keys| == |h| && forall id :: id in keys <==> id in h
  {
    hide Tally, Residue, Ascending;
    h := Tally(t.requests).value;
    keys :| Lists(keys, h.Keys) && out == Residue(t, h, keys);
    assert |h| == |h.Keys|;
  }

  lemma FreeableIff(qs: seq<Request>, id: string)
    requires Tally(qs).Some?
    ensures var h := Tally(qs).value; id in h ==> (Freeable(h, id) <==> LastCommand(qs, id) == Some("a"))
  {
    hide Tally, LastCommand, Idle;
    NotIdle(qs, id);
  }

  lemma ResidueShape(t: Trace, h: map<string, string>, keys: seq<string>)
    requires |keys| == |h|
    ensures var out, n, saved := Residue(t, h, keys), FirstBad(h, keys), Saved(t.requests);
      && (if n == |keys| then out.Balanced? else out.CutShort?)
      && var u := out.trace;
      && u.heapSize == t.heapSize && u.numBlocks == t.numBlocks && u.weight == t.weight
      && u.numOps == t.numOps + |keys|
      && |u.requests| == |saved| + n && saved <= u.requests
      && forall i :: 0 <= i < n ==> u.requests[|saved| + i] == Request("f", keys[i], "")
  {
    hide Saved, FirstBad, Frees;
    PrintedLines(Saved(t.requests), keys, FirstBad(h, keys));
  }

  lemma PrintedLines(saved: seq<Request>, keys: seq<string>, n: nat)
    requires n <= |keys|
    ensures var u := saved + Frees(keys[..n]);
      && |u| == |saved| + n && saved <= u
      && forall i :: 0 <= i < n ==> u[|saved| + i] == Request("f", keys[i], "")
  {
  }

  // ---------- the saved lines ----------

  /** The saved lines are the lines whose command is neither missing nor "0", in order: one
      by one, and piece by piece. */
  lemma SavedLine(q: Request)
    ensures Saved([q]) == if |q.cmd| == 0 || (|q.cmd| == 1 && q.cmd[0] == '0') then [] else [q]
  {
    assert [q][..0] == [];
  }

  lemma {:induction false} SavedPieces(a: seq<Request>, b: seq<Request>)
    ensures Saved(a + b) == Saved(a) + Saved(b)
  {
    if b == [] {
      assert a + b == a;
    } else {
      var n := |b| - 1;
      assert (a + b)[..|a| + n] == a + b[..n];
      SavedPieces(a, b[..n]);
    }
  }

  /** The order of the freed ids: a prefix first, otherwise by the first character that differs. */
  lemma {:induction false} LeIff(a: string, b: string)
    ensures Le(a, b) <==> a <= b || Before(a, b)
  {
    if a == [] || b == [] {
      return;
    }
    hide Before;
    BeforeFirst(a, b);
    if a[0] == b[0] {
      LeIff(a[1..], b[1..]);
      assert a == [a[0]] + a[1..] && b == [b[0]] + b[1..];
    }
  }

  ghost predicate DifferAt(a: string, b: string, k: int) {
    0 <= k < |a| && k < |b| && a[..k] == b[..k] && a[k] != b[k]
  }

  /** At the first difference `a` has the smaller character. */
  ghost predicate Before(a: string, b: string) {
    exists k :: DifferAt(a, b, k) && a[k] < b[k]
  }

  lemma BeforeFirst(a: string, b: string)
    requires a != [] && b != []
    ensures Before(a, b) <==> if a[0] == b[0] then Before(a[1..], b[1..]) else a[0] < b[0]
  {
    if a[0] == b[0] {
      if k :| DifferAt(a, b, k) && a[k] < b[k] {
        DifferTail(a, b, k - 1);
      }
      if k :| DifferAt(a[1..], b[1..], k) && a[1..][k] < b[1..][k] {
        DifferTail(a, b, k);
      }
    } else {
      assert DifferAt(a, b, 0);
      forall k | 0 < k < |a| && k < |b|
        ensures a[..k] != b[..k]
      {
        assert a[..k][0] == a[0] && b[..k][0] == b[0];
      }
    }
  }

  lemma DifferTail(a: string, b: string, k: int)
    requires a != [] && b != [] && a[0] == b[0] && 0 <= k
    ensures DifferAt(a, b, k + 1) <==> DifferAt(a[1..], b[1..], k)
    ensures k + 1 < |a| && k + 1 < |b| ==> a[k + 1] == a[1..][k] && b[k + 1] == b[1..][k]
  {
    if k + 1 <= |a| && k + 1 <= |b| {
      assert a[..k + 1] == [a[0]] + a[1..][..k] && b[..k + 1] == [b[0]] + b[1..][..k];
      assert a[..k + 1][1..] == a[1..][..k] && b[..k + 1][1..] == b[1..][..k];
    }
  }

  /** An allocate alone is reported as unbalanced. */
  lemma UnbalancedTrace(t: Trace, out: Outcome)
    requires t.requests == [Request("a", "0", "8")] && Checked(t, true, out)
    ensures out == Brief(false)
  {
    hide Tally, Saved;
    var q := Request("a", "0", "8");
    var qs := t.requests;
    assert qs[..0] == [] && qs[..1] == qs;
    TallyNone();
    TallyNext(qs, 0);
    assert "a"[0] == 'a' && "f"[0] == 'f' && "r"[0] == 'r' && "0"[0] == '0';
    assert Next(map[], q) == Some(map["0" := "a"]) && "0" in map["0" := "a"];
  }
}
