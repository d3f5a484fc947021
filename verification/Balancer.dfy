/** checktrace.pl: the trace consistency checker and balancer. */
module Balancer {

  datatype Option<T> = None | Some(value: T)

  /** A line of a trace, split at its white space; a missing field is empty. */
  datatype Request = Request(cmd: string, id: string, size: string)

  /** A trace file: its header values and its request lines. */
  datatype Trace = Trace(heapSize: int, numBlocks: int, numOps: int, weight: int, requests: seq<Request>)

  /** What the script does: it dies while reading, prints the -s verdict, prints the balanced
      trace, or dies after it has printed a part of that. */
  datatype Outcome = Died | Brief(balanced: bool) | Balanced(trace: Trace) | CutShort(trace: Trace)

  /** Perl's false: the empty string and "0". */
  predicate False(s: string) {
    s == "" || s == "0"
  }

  /** Perl's `!`, which binds closer than `eq`. */
  function Not(s: string): string {
    if False(s) then "1" else ""
  }

  predicate Blank(q: Request) {
    False(q.cmd)
  }

  function Saved(qs: seq<Request>): seq<Request> {
    if qs == [] then []
    else if Blank(qs[|qs| - 1]) then Saved(qs[..|qs| - 1])
    else Saved(qs[..|qs| - 1]) + [qs[|qs| - 1]]
  }

  /** The outstanding requests `h` after one more line; None when the script dies on it. */
  function Next(h: map<string, string>, q: Request): Option<map<string, string>> {
    if Blank(q) then Some(h)
    else if q.cmd == "r" then (if q.id !in h || False(h[q.id]) then None else Some(h))
    else if q.cmd == "a" then (if q.id in h && (h[q.id] == "a" || h[q.id] == "f") then None else Some(h[q.id := "a"]))
    else if q.cmd == "f" then (if q.id !in h || Not(h[q.id]) == "f" then None else Some(h - {q.id}))
    else Some(h[q.id := q.cmd])
  }

  function Tally(qs: seq<Request>): Option<map<string, string>> {
    if qs == [] then Some(map[])
    else match Tally(qs[..|qs| - 1])
      case None => None
      case Some(h) => Next(h, qs[|qs| - 1])
  }

  /** String order, character by character. */
  predicate Le(a: string, b: string) {
    a == [] || (b != [] && (a[0] < b[0] || (a[0] == b[0] && Le(a[1..], b[1..]))))
  }

  ghost predicate Ascending(keys: seq<string>) {
    forall i, j :: 0 <= i < j < |keys| ==> Le(keys[i], keys[j]) && keys[i] != keys[j]
  }

  ghost predicate Lists(keys: seq<string>, s: set<string>) {
    Ascending(keys) && |keys| == |s| && forall k :: k in keys <==> k in s
  }

  function InsertKey(keys: seq<string>, k: string): seq<string> {
    if keys == [] || Le(k, keys[0]) then [k] + keys else [keys[0]] + InsertKey(keys[1..], k)
  }

  function Frees(keys: seq<string>): (qs: seq<Request>)
    ensures |qs| == |keys| && forall i :: 0 <= i < |keys| ==> qs[i] == Request("f", keys[i], "")
  {
    seq(|keys|, i requires 0 <= i < |keys| => Request("f", keys[i], ""))
  }

  predicate Freeable(h: map<string, string>, k: string) {
    k in h && (h[k] == "a" || h[k] == "r")
  }

  /** The first key that the residue loop dies on, the number of keys when there is none. */
  function FirstBad(h: map<string, string>, keys: seq<string>): (n: nat)
    ensures n <= |keys| && (n < |keys| ==> !Freeable(h, keys[n]))
    ensures forall i :: 0 <= i < n ==> Freeable(h, keys[i])
  {
    if keys == [] || !Freeable(h, keys[0]) then 0
    else
      var n := FirstBad(h, keys[1..]);
      assert forall i :: 1 <= i < n + 1 ==> keys[i] == keys[1..][i - 1];
      n + 1
  }

  /** The trace with a free for each of the first `n` keys. */
  function Extended(t: Trace, h: map<string, string>, keys: seq<string>, n: nat): Trace
    requires n <= |keys|
  {
    t.(numOps := t.numOps + |h|, requests := Saved(t.requests) + Frees(keys[..n]))
  }

  /** What the script is to do: nothing is said about how the residue is sorted but that it is. */
  ghost predicate Checked(t: Trace, summary: bool, out: Outcome) {
    match Tally(t.requests)
    case None => out == Died
    case Some(h) =>
      if summary then out == Brief(h == map[])
      else exists keys :: Lists(keys, h.Keys) && out == Residue(t, h, keys)
  }

  function Residue(t: Trace, h: map<string, string>, keys: seq<string>): Outcome {
    var n := FirstBad(h, keys);
    if n == |keys| then Balanced(Extended(t, h, keys, n)) else CutShort(Extended(t, h, keys, n))
  }

  // ---------- the string order ----------

  lemma {:induction false} LeTotal(a: string, b: string)
    ensures Le(a, b) || Le(b, a)
    ensures Le(a, b) && Le(b, a) ==> a == b
  {
    if a != [] && b != [] && a[0] == b[0] {
      LeTotal(a[1..], b[1..]);
      assert a == [a[0]] + a[1..] && b == [b[0]] + b[1..];
    }
  }

  lemma {:induction false} LeTrans(a: string, b: string, c: string)
    requires Le(a, b) && Le(b, c)
    ensures Le(a, c)
  {
    if a != [] && a[0] == b[0] && b[0] == c[0] {
      LeTrans(a[1..], b[1..], c[1..]);
    }
  }

  lemma {:induction false} InsertKeyMembers(keys: seq<string>, k: string, x: string)
    ensures |InsertKey(keys, k)| == |keys| + 1
    ensures x in InsertKey(keys, k) <==> x in keys || x == k
  {
    if keys != [] && !Le(k, keys[0]) {
      InsertKeyMembers(keys[1..], k, x);
      assert keys == [keys[0]] + keys[1..];
    }
  }

  lemma AscendingCons(k: string, keys: seq<string>)
    requires Ascending(keys) && forall x :: x in keys ==> Le(k, x) && k != x
    ensures Ascending([k] + keys)
  {
    var r := [k] + keys;
    forall i, j | 0 <= i < j < |r|
      ensures Le(r[i], r[j]) && r[i] != r[j]
    {
      assert r[j] == keys[j - 1] && keys[j - 1] in keys;
    }
  }

  lemma AscendingTail(keys: seq<string>)
    requires Ascending(keys) && keys != []
    ensures Ascending(keys[1..]) && forall x :: x in keys[1..] ==> Le(keys[0], x) && keys[0] != x
  {
  }

  lemma {:induction false} InsertKeyAscending(keys: seq<string>, k: string)
    requires Ascending(keys) && k !in keys
    ensures Ascending(InsertKey(keys, k))
  {
    hide Ascending;
    if keys == [] || Le(k, keys[0]) {
      forall x | x in keys
        ensures Le(k, x) && k != x
      {
        if x != keys[0] {
          AscendingTail(keys);
          assert keys == [keys[0]] + keys[1..];
          LeTrans(k, keys[0], x);
        }
      }
      AscendingCons(k, keys);
    } else {
      AscendingTail(keys);
      LeTotal(k, keys[0]);
      InsertKeyAscending(keys[1..], k);
      forall x | x in InsertKey(keys[1..], k)
        ensures Le(keys[0], x) && keys[0] != x
      {
        InsertKeyMembers(keys[1..], k, x);
      }
      AscendingCons(keys[0], InsertKey(keys[1..], k));
    }
  }

  /** The sorted list of a set of keys is the only one. */
  lemma {:induction false} ListsUnique(a: seq<string>, b: seq<string>, s: set<string>)
    requires Lists(a, s) && Lists(b, s)
    ensures a == b
  {
    hide Ascending, Le;
    if s == {} {
      assert a == [] && b == [];
    } else {
      FirstIsLeast(a, s, b[0]);
      FirstIsLeast(b, s, a[0]);
      LeTotal(a[0], b[0]);
      ListsTail(a, s);
      ListsTail(b, s);
      ListsUnique(a[1..], b[1..], s - {a[0]});
      assert a == [a[0]] + a[1..] && b == [b[0]] + b[1..];
    }
  }

  lemma FirstIsLeast(a: seq<string>, s: set<string>, x: string)
    requires Lists(a, s) && a != []
    ensures x in s ==> Le(a[0], x)
    ensures a[0] in s
  {
    if x in s {
      var i :| 0 <= i < |a| && a[i] == x;
      LeTotal(x, x);
    }
  }

  lemma ListsTail(a: seq<string>, s: set<string>)
    requires Lists(a, s) && a != []
    ensures Lists(a[1..], s - {a[0]})
  {
    AscendingTail(a);
    assert a == [a[0]] + a[1..];
  }

  // ---------- the script ----------

  /** The reading loop: the saved lines and the outstanding requests, unless it dies. */
  method ReadRequests(requests: seq<Request>) returns (died: bool, lines: seq<Request>, tally: map<string, string>)
    ensures died <==> Tally(requests).None?
    ensures !died ==> lines == Saved(requests) && Tally(requests) == Some(tally)
  {
    hide Not, False;
    died, lines, tally := false, [], map[];
    var n := 0;
    while n < |requests|
      invariant 0 <= n <= |requests|
      invariant lines == Saved(requests[..n]) && Tally(requests[..n]) == Some(tally)
    {
      var q := requests[n];
      TallyNext(requests, n);
      n := n + 1;
      if Blank(q) {
        continue;
      }
      lines := lines + [q];
      if q.cmd == "r" {
        if q.id !in tally || False(tally[q.id]) {
          DeadAfter(requests, n);
          died := true;
          return;
        }
        continue;
      }
      if q.cmd == "a" && q.id in tally && tally[q.id] == "a" {
        DeadAfter(requests, n);
        died := true;
        return;
      }
      if q.cmd == "a" && q.id in tally && tally[q.id] == "f" {
        DeadAfter(requests, n);
        died := true;
        return;
      }
      if q.cmd == "f" && q.id !in tally {
        DeadAfter(requests, n);
        died := true;
        return;
      }
      if q.cmd == "f" && Not(tally[q.id]) == "f" {
        DeadAfter(requests, n);
        died := true;
        return;
      }
      if q.cmd == "f" {
        tally := tally - {q.id};
      } else {
        tally := tally[q.id := q.cmd];
      }
    }
    assert requests[..n] == requests;
  }

  /** sort keys %HASH */
  method SortedKeys(h: map<string, string>) returns (keys: seq<string>)
    ensures Lists(keys, h.Keys)
  {
    hide InsertKey, Ascending;
    keys := [];
    var rest := h.Keys;
    NoKeys();
    assert h.Keys - rest == {};
    while rest != {}
      invariant rest <= h.Keys && Lists(keys, h.Keys - rest)
      decreases |rest|
    {
      var k :| k in rest;
      InsertKeyLists(keys, h.Keys - rest, k);
      assert h.Keys - rest + {k} == h.Keys - (rest - {k});
      keys := InsertKey(keys, k);
      rest := rest - {k};
    }
    assert h.Keys - rest == h.Keys;
  }

  lemma NoKeys()
    ensures Lists([], {})
  {
  }

  lemma InsertKeyLists(keys: seq<string>, s: set<string>, k: string)
    requires Lists(keys, s) && k !in s
    ensures Lists(InsertKey(keys, k), s + {k})
  {
    InsertKeyAscending(keys, k);
    forall x
      ensures x in InsertKey(keys, k) <==> x in s + {k}
    {
      InsertKeyMembers(keys, k, x);
    }
    InsertKeyMembers(keys, k, k);
  }

  /** The whole script; `summary` is its -s option. */
  method CheckTrace(t: Trace, summary: bool) returns (out: Outcome)
    ensures Checked(t, summary, out)
  {
    hide Lists, Tally, Saved, Next, FirstBad;
    var died, lines, tally := ReadRequests(t.requests);
    if died {
      return Died;
    }
    if summary {
      return Brief(tally == map[]);
    }
    var keys := SortedKeys(tally);
    KeysListed(keys, tally);
    var output := t.(numOps := t.numOps + |tally|, requests := lines);
    var n := 0;
    while n < |keys|
      invariant 0 <= n <= FirstBad(tally, keys)
      invariant output == Extended(t, tally, keys, n)
    {
      if tally[keys[n]] != "a" && tally[keys[n]] != "r" {
        return CutShort(output);
      }
      assert Frees(keys[..n + 1]) == Frees(keys[..n]) + [Request("f", keys[n], "")];
      output := output.(requests := output.requests + [Request("f", keys[n], "")]);
      n := n + 1;
    }
    return Balanced(output);
  }

  lemma KeysListed(keys: seq<string>, h: map<string, string>)
    requires Lists(keys, h.Keys)
    ensures forall i :: 0 <= i < |keys| ==> keys[i] in h
  {
  }

  lemma TallyNext(qs: seq<Request>, n: nat)
    requires n < |qs|
    ensures Saved(qs[..n + 1]) == if Blank(qs[n]) then Saved(qs[..n]) else Saved(qs[..n]) + [qs[n]]
    ensures Tally(qs[..n + 1]) == if Tally(qs[..n]).None? then None else Next(Tally(qs[..n]).value, qs[n])
  {
    assert qs[..n + 1][..n] == qs[..n];
  }

  /** Once dead, dead for good. */
  lemma {:induction false} DeadAfter(qs: seq<Request>, n: nat)
    requires n <= |qs| && Tally(qs[..n]).None?
    ensures Tally(qs).None?
  {
    if n == |qs| {
      assert qs[..n] == qs;
    } else {
      assert qs[..|qs| - 1][..n] == qs[..n];
      DeadAfter(qs[..|qs| - 1], n);
    }
  }

  // ---------- the output balances ----------

  lemma {:induction false} SavedTally(qs: seq<Request>)
    ensures Tally(Saved(qs)) == Tally(qs)
  {
    if qs != [] {
      SavedTally(qs[..|qs| - 1]);
      var s, q := Saved(qs[..|qs| - 1]), qs[|qs| - 1];
      if !Blank(q) {
        assert (s + [q])[..|s|] == s;
      }
    }
  }

  lemma {:induction false} SavedIsPlain(qs: seq<Request>)
    requires forall q :: q in qs ==> !Blank(q)
    ensures Saved(qs) == qs
  {
    if qs != [] {
      var init := qs[..|qs| - 1];
      SavedIsPlain(init);
      assert qs == init + [qs[|qs| - 1]];
    }
  }

  lemma {:induction false} SavedNotBlank(qs: seq<Request>, q: Request)
    requires q in Saved(qs)
    ensures !Blank(q) && q in qs
  {
    var init, last := qs[..|qs| - 1], qs[|qs| - 1];
    assert qs == init + [last];
    if q in Saved(init) {
      SavedNotBlank(init, q);
    }
  }

  function Remaining(h: map<string, string>, keys: seq<string>): map<string, string> {
    map k | k in h && k !in keys :: h[k]
  }

  /** Freeing listed keys takes exactly those out of the tally. */
  lemma {:induction false} FreesTally(qs: seq<Request>, h: map<string, string>, keys: seq<string>)
    requires Tally(qs) == Some(h) && Ascending(keys) && forall k :: k in keys ==> k in h
    ensures Tally(qs + Frees(keys)) == Some(Remaining(h, keys))
  {
    hide Remaining, Saved;
    if keys == [] {
      assert qs + Frees(keys) == qs;
      RemainingNone(h);
    } else {
      var init, last := keys[..|keys| - 1], keys[|keys| - 1];
      AscendingInit(keys);
      FreesTally(qs, h, init);
      RemainingOne(h, init, last);
      FreesLast(qs, keys);
    }
  }

  lemma RemainingNone(h: map<string, string>)
    ensures Remaining(h, []) == h
  {
  }

  lemma RemainingOne(h: map<string, string>, init: seq<string>, last: string)
    requires last in h && last !in init
    ensures last in Remaining(h, init) && Remaining(h, init + [last]) == Remaining(h, init) - {last}
  {
  }

  lemma AscendingInit(keys: seq<string>)
    requires Ascending(keys) && keys != []
    ensures var init, last := keys[..|keys| - 1], keys[|keys| - 1];
      && keys == init + [last] && Ascending(init) && last !in init
  {
  }

  lemma FreesLast(qs: seq<Request>, keys: seq<string>)
    requires keys != []
    ensures var all := qs + Frees(keys);
      && all[..|all| - 1] == qs + Frees(keys[..|keys| - 1])
      && all[|all| - 1] == Request("f", keys[|keys| - 1], "")
  {
  }

  /** The ids that a balanced output frees. */
  lemma OutputKeys(t: Trace, out: Outcome) returns (keys: seq<string>)
    requires Checked(t, false, out) && out.Balanced?
    ensures var h := Tally(t.requests).value;
      && Lists(keys, h.Keys)
      && out.trace == t.(numOps := t.numOps + |h|, requests := Saved(t.requests) + Frees(keys))
  {
    hide Tally, Saved, Lists;
    var h := Tally(t.requests).value;
    keys :| Lists(keys, h.Keys) && out == Residue(t, h, keys);
    assert keys[..|keys|] == keys;
  }

  /** The output of an accepted trace is accepted with nothing outstanding. */
  lemma OutputBalances(t: Trace, out: Outcome)
    requires Checked(t, false, out) && out.Balanced?
    ensures Tally(out.trace.requests) == Some(map[])
    ensures Checked(out.trace, true, Brief(true))
    ensures out.trace.numOps - |out.trace.requests| == t.numOps - |Saved(t.requests)|
  {
    var h := Tally(t.requests).value;
    var keys := OutputKeys(t, out);
    SavedTally(t.requests);
    FreesTally(Saved(t.requests), h, keys);
    assert Remaining(h, keys) == map[];
    assert |keys| == |h.Keys| == |h|;
  }

  /** No line of the output is blank. */
  lemma OutputSaved(qs: seq<Request>, keys: seq<string>)
    ensures Saved(Saved(qs) + Frees(keys)) == Saved(qs) + Frees(keys)
  {
    var all := Saved(qs) + Frees(keys);
    forall q | q in all
      ensures !Blank(q)
    {
      if q in Saved(qs) {
        SavedNotBlank(qs, q);
      }
    }
    SavedIsPlain(all);
  }

  /** Balancing a balanced trace changes nothing, not even its header. */
  lemma BalancingIsIdempotent(t: Trace, out: Outcome, again: Outcome)
    requires Checked(t, false, out) && out.Balanced?
    requires Checked(out.trace, false, again)
    ensures again == out
  {
    hide Saved, Tally, Next;
    OutputBalances(t, out);
    var u := out.trace;
    var keys := OutputKeys(t, out);
    OutputSaved(t.requests, keys);
    var empty: map<string, string> := map[];
    var none :| Lists(none, empty.Keys) && again == Residue(u, empty, none);
    assert none == [] && u.requests + Frees([]) == u.requests;
  }

  /** The script's answer is determined by its input. */
  lemma AnswerIsUnique(t: Trace, summary: bool, a: Outcome, b: Outcome)
    requires Checked(t, summary, a) && Checked(t, summary, b)
    ensures a == b
  {
    if Tally(t.requests).Some? && !summary {
      var h := Tally(t.requests).value;
      var ka :| Lists(ka, h.Keys) && a == Residue(t, h, ka);
      var kb :| Lists(kb, h.Keys) && b == Residue(t, h, kb);
      ListsUnique(ka, kb, h.Keys);
    }
  }

  // ---------- what is refused ----------

  /** The command of the last line about `id` that is not a realloc. */
  function LastCommand(qs: seq<Request>, id: string): Option<string> {
    if qs == [] then None
    else
      var q := qs[|qs| - 1];
      if !Blank(q) && q.cmd != "r" && q.id == id then Some(q.cmd) else LastCommand(qs[..|qs| - 1], id)
  }

  /** No line about `id`, or a free was the last one. */
  predicate Idle(qs: seq<Request>, id: string) {
    LastCommand(qs, id) == None || LastCommand(qs, id) == Some("f")
  }

  /** Lines that the script refuses, by the lines read so far alone. */
  predicate Refused(qs: seq<Request>, q: Request) {
    match q.cmd
    case "a" => LastCommand(qs, q.id) == Some("a")
    case "r" => Idle(qs, q.id)
    case "f" => Idle(qs, q.id)
    case _ => false
  }

  /** The tally holds each id that is not idle, with its last command. */
  lemma {:induction false} TallyIsLast(qs: seq<Request>, id: string)
    requires Tally(qs).Some?
    ensures var h, c := Tally(qs).value, LastCommand(qs, id);
      && (id in h <==> !Idle(qs, id)) && (id in h ==> c == Some(h[id]) && !False(h[id]) && h[id] != "r" && h[id] != "f")
  {
    if qs != [] {
      TallyIsLast(qs[..|qs| - 1], id);
    }
  }

  /** So two tests of the script find nothing: no entry is a free, and the negation in
      the second one is compared in place of the entry. */
  lemma DeadTests(qs: seq<Request>, id: string)
    requires Tally(qs).Some? && id in Tally(qs).value
    ensures Tally(qs).value[id] != "f" && Not(Tally(qs).value[id]) != "f"
  {
    TallyIsLast(qs, id);
  }

  /** A line is refused exactly when the lines before it say so: an allocate when the
      last command on its id was an allocate, not when that was a free. */
  lemma RefusedIff(qs: seq<Request>, q: Request)
    requires Tally(qs).Some?
    ensures Tally(qs + [q]).None? <==> Refused(qs, q)
  {
    assert (qs + [q])[..|qs|] == qs;
    TallyIsLast(qs, q.id);
  }

  /** A trace is read to its end exactly when no line of it is refused. */
  lemma {:induction false} AcceptedIff(qs: seq<Request>)
    ensures Tally(qs).Some? <==> forall i :: 0 <= i < |qs| ==> !Refused(qs[..i], qs[i])
  {
    hide Tally, Refused;
    if qs == [] {
      TallyNone();
    } else {
      var n := |qs| - 1;
      var init := qs[..n];
      AcceptedIff(init);
      forall i | 0 <= i < n
        ensures Refused(init[..i], init[i]) == Refused(qs[..i], qs[i])
      {
        assert init[..i] == qs[..i];
      }
      assert qs == init + [qs[n]];
      if Tally(init).Some? {
        RefusedIff(init, qs[n]);
      } else {
        DeadAfter(qs, n);
      }
    }
  }

  /** A reused id is not reported: any allocate after a free of its id is accepted. */
  lemma ReuseIsAccepted(qs: seq<Request>, q: Request)
    requires Tally(qs).Some? && q.cmd == "a" && LastCommand(qs, q.id) == Some("f")
    ensures Tally(qs + [q]) == Some(Tally(qs).value[q.id := "a"])
  {
    RefusedIff(qs, q);
    assert (qs + [q])[..|qs|] == qs;
  }

  /** An input with a reused id that is accepted. */
  lemma ReusedId()
    ensures var qs := [Request("a", "0", "8"), Request("f", "0", ""), Request("a", "0", "8")];
      Tally(qs) == Some(map["0" := "a"])
  {
    hide Tally, Saved;
    var a, f := Request("a", "0", "8"), Request("f", "0", "");
    var qs := [a, f, a];
    TallyNone();
    assert qs[..3] == qs && qs[..0] == [] && qs[..1] == [a] && qs[..2] == [a, f];
    TallyNext(qs, 0);
    assert Next(map[], a) == Some(map["0" := "a"]);
    TallyNext(qs, 1);
    assert "a"[0] == 'a' && "f"[0] == 'f' && "r"[0] == 'r' && "0"[0] == '0' && "1"[0] == '1';
    assert map["0" := "a"] - {"0"} == map[];
    assert Next(map["0" := "a"], f) == Some(map[]);
    TallyNext(qs, 2);
  }

  /** The balanced trace is printed exactly when every id that is not idle was last allocated;
      otherwise the script dies in the residue. */
  lemma PrintedIff(t: Trace, out: Outcome)
    requires Checked(t, false, out) && Tally(t.requests).Some?
    ensures out.Balanced? <==> forall id :: Idle(t.requests, id) || LastCommand(t.requests, id) == Some("a")
    ensures !out.Balanced? ==> out.CutShort?
  {
    var h := Tally(t.requests).value;
    var keys :| Lists(keys, h.Keys) && out == Residue(t, h, keys);
    var n := FirstBad(h, keys);
    hide Tally, Saved, LastCommand, Idle;
    if n < |keys| {
      NotIdle(t.requests, keys[n]);
    } else {
      forall id
        ensures Idle(t.requests, id) || LastCommand(t.requests, id) == Some("a")
      {
        NotIdle(t.requests, id);
        if id in h {
          var i :| 0 <= i < |keys| && keys[i] == id;
        }
      }
    }
  }

  lemma NotIdle(qs: seq<Request>, id: string)
    requires Tally(qs).Some?
    ensures var h := Tally(qs).value;
      && (id in h <==> !Idle(qs, id)) && (id in h ==> LastCommand(qs, id) == Some(h[id]) && h[id] != "r")
  {
    TallyIsLast(qs, id);
  }

  // ---------- matching frees ----------

  ghost predicate NoFree(qs: seq<Request>, i: int, j: int, id: string) {
    forall m :: 0 <= i < m < j && m < |qs| ==> !(qs[m].id == id && qs[m].cmd == "f")
  }

  /** Request `j` frees what request `i` allocated. */
  ghost predicate Matches(qs: seq<Request>, i: nat, j: nat) {
    && i < j < |qs| && qs[i].cmd == "a" && qs[j].cmd == "f" && qs[j].id == qs[i].id
    && forall m :: i < m < j && qs[m].id == qs[i].id ==> qs[m].cmd != "a" && qs[m].cmd != "f"
  }

  /** Two allocates of one id with no free of it between them. */
  ghost predicate AllocatedTwice(qs: seq<Request>, i: nat, k: nat) {
    && i < k < |qs| && qs[i].cmd == "a" && qs[k].cmd == "a" && qs[k].id == qs[i].id
    && NoFree(qs, i, k, qs[i].id)
  }

  ghost predicate EachMatchedOnce(qs: seq<Request>) {
    forall i: nat :: i < |qs| && qs[i].cmd == "a" ==>
      exists j: nat :: Matches(qs, i, j) && forall k: nat :: Matches(qs, i, k) ==> k == j
  }

  ghost predicate NoneTwice(qs: seq<Request>) {
    forall i: nat, k: nat :: !AllocatedTwice(qs, i, k)
  }

  lemma {:induction false} PrefixAccepted(qs: seq<Request>, n: nat)
    requires Tally(qs).Some? && n <= |qs|
    ensures Tally(qs[..n]).Some?
  {
    if Tally(qs[..n]).None? {
      DeadAfter(qs, n);
    }
  }

  /** An outstanding id stays outstanding until it is freed. */
  lemma {:induction false} StaysOutstanding(qs: seq<Request>, i: nat, n: nat)
    requires Tally(qs).Some? && i < n <= |qs| && qs[i].cmd == "a"
    requires NoFree(qs, i, n, qs[i].id)
    ensures Tally(qs[..n]).Some? && qs[i].id in Tally(qs[..n]).value
  {
    hide Tally, Saved;
    PrefixAccepted(qs, n);
    PrefixAccepted(qs, n - 1);
    TallyNext(qs, n - 1);
    if n > i + 1 {
      StaysOutstanding(qs, i, n - 1);
      assert !(qs[n - 1].id == qs[i].id && qs[n - 1].cmd == "f");
    }
  }

  /** With nothing outstanding, an allocate has a first later free. */
  lemma FirstFree(qs: seq<Request>, i: nat) returns (j: nat)
    requires Tally(qs) == Some(map[]) && i < |qs| && qs[i].cmd == "a"
    ensures i < j < |qs| && qs[j].cmd == "f" && qs[j].id == qs[i].id && NoFree(qs, i, j, qs[i].id)
  {
    assert qs[..|qs|] == qs;
    if NoFree(qs, i, |qs|, qs[i].id) {
      StaysOutstanding(qs, i, |qs|);
    }
    var m :| i < m < |qs| && qs[m].id == qs[i].id && qs[m].cmd == "f";
    j := EarliestFree(qs, i, m);
  }

  lemma {:induction false} EarliestFree(qs: seq<Request>, i: nat, m: nat) returns (j: nat)
    requires i < m < |qs| && qs[m].id == qs[i].id && qs[m].cmd == "f"
    ensures i < j < |qs| && qs[j].cmd == "f" && qs[j].id == qs[i].id && NoFree(qs, i, j, qs[i].id)
    decreases m
  {
    j := m;
    if !NoFree(qs, i, m, qs[i].id) {
      var l :| i < l < m && qs[l].id == qs[i].id && qs[l].cmd == "f";
      j := EarliestFree(qs, i, l);
    }
  }

  /** Every allocate of a balanced trace has exactly one later matching free if and
      only if no id is allocated twice without a free between. */
  lemma MatchedIff(qs: seq<Request>)
    requires Tally(qs) == Some(map[])
    ensures EachMatchedOnce(qs) <==> NoneTwice(qs)
  {
    if EachMatchedOnce(qs) {
      forall i: nat, k: nat
        ensures !AllocatedTwice(qs, i, k)
      {
        if AllocatedTwice(qs, i, k) {
          var j: nat :| Matches(qs, i, j);
        }
      }
    }
    if NoneTwice(qs) {
      forall i: nat | i < |qs| && qs[i].cmd == "a"
        ensures exists j: nat :: Matches(qs, i, j) && forall k: nat :: Matches(qs, i, k) ==> k == j
      {
        var j := FirstFree(qs, i);
        NextMatches(qs, i, j);
        forall k: nat | Matches(qs, i, k)
          ensures k == j
        {
          assert !(j < k) && !(k < j);
        }
      }
    }
  }

  lemma NextMatches(qs: seq<Request>, i: nat, j: nat)
    requires i < j < |qs| && qs[i].cmd == "a" && qs[j].cmd == "f" && qs[j].id == qs[i].id
    requires NoFree(qs, i, j, qs[i].id) && NoneTwice(qs)
    ensures Matches(qs, i, j)
  {
    forall m | i < m < j && qs[m].id == qs[i].id
      ensures qs[m].cmd != "a" && qs[m].cmd != "f"
    {
      assert !AllocatedTwice(qs, i, m);
    }
  }

  /** So the output matches every allocate exactly when the input's saved lines never
      allocate an id twice without a free between. */
  lemma OutputMatchedIff(t: Trace, out: Outcome)
    requires Checked(t, false, out) && out.Balanced?
    ensures EachMatchedOnce(out.trace.requests) <==> NoneTwice(Saved(t.requests))
  {
    OutputBalances(t, out);
    MatchedIff(out.trace.requests);
    var h := Tally(t.requests).value;
    var keys := OutputKeys(t, out);
    TwicePrefix(Saved(t.requests), Frees(keys));
  }

  lemma TwicePrefix(qs: seq<Request>, frees: seq<Request>)
    requires forall q :: q in frees ==> q.cmd == "f"
    ensures NoneTwice(qs + frees) <==> NoneTwice(qs)
  {
    var all := qs + frees;
    forall i: nat, k: nat
      ensures AllocatedTwice(all, i, k) <==> AllocatedTwice(qs, i, k)
    {
      if |qs| <= k < |all| {
        assert all[k] in frees;
      } else if i < k < |qs| {
        NoFreePrefix(qs, frees, i, k, qs[i].id);
      }
    }
  }

  lemma NoFreePrefix(qs: seq<Request>, frees: seq<Request>, i: nat, k: nat, id: string)
    requires i < k < |qs|
    ensures NoFree(qs + frees, i, k, id) <==> NoFree(qs, i, k, id)
  {
    assert forall m :: 0 <= m < |qs| ==> (qs + frees)[m] == qs[m];
  }

  ghost predicate OnlyKnown(qs: seq<Request>) {
    forall q :: q in qs ==> Blank(q) || q.cmd == "a" || q.cmd == "r" || q.cmd == "f"
  }

  lemma {:induction false} KnownValues(qs: seq<Request>)
    requires OnlyKnown(qs) && Tally(qs).Some?
    ensures forall k :: k in Tally(qs).value ==> Tally(qs).value[k] == "a"
  {
    if qs != [] {
      var init, last := qs[..|qs| - 1], qs[|qs| - 1];
      assert last in qs;
      KnownValues(init);
    }
  }

  /** Without foreign commands the script does reject every second allocate. */
  lemma KnownNoneTwice(qs: seq<Request>)
    requires OnlyKnown(qs) && Tally(qs).Some?
    ensures NoneTwice(qs)
  {
    forall i: nat, k: nat
      ensures !AllocatedTwice(qs, i, k)
    {
      if AllocatedTwice(qs, i, k) {
        StaysOutstanding(qs, i, k);
        KnownValues(qs[..k]);
        TallyNext(qs, k);
        PrefixAccepted(qs, k + 1);
      }
    }
  }

  /** Every accepted trace of allocates, reallocs and frees comes out with each
      allocate matched exactly once. */
  lemma KnownAreMatched(t: Trace, out: Outcome)
    requires Checked(t, false, out) && OnlyKnown(t.requests) && Tally(t.requests).Some?
    ensures out.Balanced? && EachMatchedOnce(out.trace.requests)
  {
    KnownValues(t.requests);
    var h := Tally(t.requests).value;
    var keys :| Lists(keys, h.Keys) && out == Residue(t, h, keys);
    forall q | q in Saved(t.requests)
      ensures q in t.requests
    {
      SavedNotBlank(t.requests, q);
    }
    SavedTally(t.requests);
    KnownNoneTwice(Saved(t.requests));
    OutputMatchedIff(t, out);
  }

  /** A foreign command overwrites the id's entry, and the next allocate of it passes. */
  lemma ForeignCommandHidesAllocate(t: Trace, out: Outcome)
    requires t.requests == [Request("a", "0", "8"), Request("x", "0", ""), Request("a", "0", "8")]
    requires Checked(t, false, out)
    ensures out.Balanced? && !EachMatchedOnce(out.trace.requests)
  {
    hide Tally, Saved, EachMatchedOnce, Next;
    var qs := t.requests;
    ForeignTally(qs);
    var h := Tally(qs).value;
    var keys :| Lists(keys, h.Keys) && out == Residue(t, h, keys);
    assert AllocatedTwice(qs, 0, 2);
    OutputMatchedIff(t, out);
  }

  lemma TallyNone()
    ensures Tally([]) == Some(map[]) && Saved([]) == []
  {
  }

  lemma ForeignTally(qs: seq<Request>)
    requires qs == [Request("a", "0", "8"), Request("x", "0", ""), Request("a", "0", "8")]
    ensures Tally(qs) == Some(map["0" := "a"]) && Saved(qs) == qs
  {
    hide Tally, Saved;
    TallyNone();
    assert qs[..3] == qs && qs[..0] == [] && qs[..1] == [qs[0]] && qs[..2] == [qs[0], qs[1]];
    TallyNext(qs, 0);
    assert Next(map[], qs[0]) == Some(map["0" := "a"]);
    TallyNext(qs, 1);
    assert "x"[0] == 'x' && "a"[0] == 'a' && "f"[0] == 'f' && "r"[0] == 'r' && "0"[0] == '0';
    assert map["0" := "a"]["0" := "x"] == map["0" := "x"] && map["0" := "x"]["0" := "a"] == map["0" := "a"];
    assert Next(map["0" := "a"], qs[1]) == Some(map["0" := "x"]);
    TallyNext(qs, 2);
    assert Next(map["0" := "x"], qs[2]) == Some(map["0" := "a"]);
  }

  function Count(qs: seq<Request>, cmd: string): nat {
    if qs == [] then 0
    else Count(qs[..|qs| - 1], cmd) + if qs[|qs| - 1].cmd == cmd then 1 else 0
  }

  /** What is outstanding is what was allocated and not freed. */
  lemma {:induction false} OutstandingCount(qs: seq<Request>)
    requires OnlyKnown(qs) && Tally(qs).Some?
    ensures |Tally(qs).value| == Count(qs, "a") - Count(qs, "f")
  {
    if qs != [] {
      var init, last := qs[..|qs| - 1], qs[|qs| - 1];
      assert last in qs;
      KnownValues(init);
      OutstandingCount(init);
      EntrySizes(Tally(init).value, last.id);
    }
  }

  lemma EntrySizes(h: map<string, string>, k: string)
    ensures k in h ==> |h - {k}| == |h| - 1
    ensures k !in h ==> |h[k := "a"]| == |h| + 1
  {
    assert h.Keys - {k} == (h - {k}).Keys && h.Keys + {k} == h[k := "a"].Keys;
    assert |h| == |h.Keys| && |h - {k}| == |(h - {k}).Keys| && |h[k := "a"]| == |h[k := "a"].Keys|;
  }
}
