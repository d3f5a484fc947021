/** tsh.c: the job table and its helper routines. */
module Jobs {

  const MAXJOBS := 16

  datatype State = UNDEF | FG | BG | ST

  datatype Job = Job(pid: int, jid: int, state: State)

  const Empty := Job(0, 0, UNDEF)

  /** The job list and the next job ID. */
  datatype Table = Table(jobs: seq<Job>, nextjid: int)

  /** Free slots are clear; used slots have a process, an ID and a state. */
  predicate ValidJob(j: Job) {
    if j.pid == 0 then j == Empty else j.pid > 0 && j.jid > 0 && j.state != UNDEF
  }

  ghost predicate ValidTable(t: Table) {
    |t.jobs| == MAXJOBS && t.nextjid >= 1 && forall i :: 0 <= i < |t.jobs| ==> ValidJob(t.jobs[i])
  }

  // ----- what the routines compute -----

  /** The first slot that holds process `pid`, the number of slots when none does. */
  function FindPid(js: seq<Job>, pid: int): (k: int)
    ensures 0 <= k <= |js|
    ensures k < |js| ==> js[k].pid == pid
    ensures forall i :: 0 <= i < k ==> js[i].pid != pid
  {
    if js == [] || js[0].pid == pid then 0
    else
      var k := FindPid(js[1..], pid);
      assert forall i :: 1 <= i < k + 1 ==> js[i] == js[1..][i - 1];
      1 + k
  }

  function FindJid(js: seq<Job>, jid: int): (k: int)
    ensures 0 <= k <= |js|
    ensures k < |js| ==> js[k].jid == jid
    ensures forall i :: 0 <= i < k ==> js[i].jid != jid
  {
    if js == [] || js[0].jid == jid then 0
    else
      var k := FindJid(js[1..], jid);
      assert forall i :: 1 <= i < k + 1 ==> js[i] == js[1..][i - 1];
      1 + k
  }

  /** The first foreground slot, the number of slots when there is none. */
  function FindFg(js: seq<Job>): (k: int)
    ensures 0 <= k <= |js|
    ensures k < |js| ==> js[k].state == FG
    ensures forall i :: 0 <= i < k ==> js[i].state != FG
  {
    if js == [] || js[0].state == FG then 0
    else
      var k := FindFg(js[1..]);
      assert forall i :: 1 <= i < k + 1 ==> js[i] == js[1..][i - 1];
      1 + k
  }

  /** fgpid */
  function FgPidOf(js: seq<Job>): int {
    var k := FindFg(js);
    if k < |js| then js[k].pid else 0
  }

  /** The largest job ID, 0 when no job has one. */
  function MaxJidOf(js: seq<Job>): (m: int)
    ensures m >= 0
    ensures forall i :: 0 <= i < |js| ==> js[i].jid <= m
    ensures m == 0 || exists i :: 0 <= i < |js| && js[i].jid == m
  {
    if js == [] then 0
    else
      var n, last := |js| - 1, js[|js| - 1].jid;
      var m := MaxJidOf(js[..n]);
      assert forall i :: 0 <= i < n ==> js[i] == js[..n][i];
      if last > m then last else m
  }

  /** addjob: takes the first free slot; an invalid pid or a full list changes nothing. */
  function Added(t: Table, pid: int, state: State): Table {
    var k := FindPid(t.jobs, 0);
    if pid < 1 || k == |t.jobs| then t
    else Table(t.jobs[k := Job(pid, t.nextjid, state)], if t.nextjid + 1 > MAXJOBS then 1 else t.nextjid + 1)
  }

  /** deletejob: clears the first slot of the process. */
  function Deleted(t: Table, pid: int): Table {
    var k := FindPid(t.jobs, pid);
    if pid < 1 || k == |t.jobs| then t
    else
      var js := t.jobs[k := Empty];
      Table(js, MaxJidOf(js) + 1)
  }

  /** The state of slot `k` changed. */
  function Moved(t: Table, k: int, state: State): Table
    requires 0 <= k < |t.jobs|
  {
    t.(jobs := t.jobs[k := t.jobs[k].(state := state)])
  }

  /** Slot `k` is the first one that holds process `pid`. */
  ghost predicate FirstOf(js: seq<Job>, pid: int, k: int) {
    0 <= k < |js| && js[k].pid == pid && forall i :: 0 <= i < k ==> js[i].pid != pid
  }

  /** `u` has the jobs of `t` but for `j` in slot `k`. */
  ghost predicate OnlySlot(t: Table, u: Table, k: int, j: Job) {
    && |u.jobs| == |t.jobs| && 0 <= k < |t.jobs| && u.jobs[k] == j
    && forall i :: 0 <= i < |t.jobs| && i != k ==> u.jobs[i] == t.jobs[i]
  }

  ghost predicate Listed(js: seq<Job>, pid: int) {
    exists i :: 0 <= i < |js| && js[i].pid == pid
  }

  /** `u` is `t` with a job entered: the first empty slot has the process and the next ID.
      IDs count from 1 to 16 and start again, also from above 16. */
  ghost predicate Entered(t: Table, u: Table, pid: int, state: State) {
    && (forall k :: pid >= 1 && FirstOf(t.jobs, 0, k) ==>
          && OnlySlot(t, u, k, Job(pid, t.nextjid, state))
          && u.nextjid == if t.nextjid <= 16 then t.nextjid % 16 + 1 else 1)
    && (pid < 1 || !Listed(t.jobs, 0) ==> u == t)
  }

  lemma AddedEntry(t: Table, pid: int, state: State)
    requires t.nextjid >= 1
    ensures Entered(t, Added(t, pid, state), pid, state)
  {
    hide FindPid, Listed;
    FirstExists(t.jobs, 0);
  }

  /** The search for a slot finds the first one, exactly when there is one. */
  lemma FirstExists(js: seq<Job>, pid: int)
    ensures Listed(js, pid) <==> FirstOf(js, pid, FindPid(js, pid))
    ensures Listed(js, pid) <==> FindPid(js, pid) < |js|
    ensures forall k :: FirstOf(js, pid, k) ==> k == FindPid(js, pid)
  {
  }

  /** The next ID after a deletion is the least one above all IDs that are left. */
  ghost predicate LeastAbove(t: Table) {
    && t.nextjid >= 1 && (forall i :: 0 <= i < |t.jobs| ==> t.jobs[i].jid < t.nextjid)
    && (t.nextjid == 1 || exists i :: 0 <= i < |t.jobs| && t.jobs[i].jid == t.nextjid - 1)
  }

  /** `u` is `t` with the first slot of the process cleared; the next ID is taken after that. */
  ghost predicate Cleared(t: Table, u: Table, pid: int) {
    && (forall k :: pid >= 1 && FirstOf(t.jobs, pid, k) ==> OnlySlot(t, u, k, Job(0, 0, UNDEF)) && LeastAbove(u))
    && (pid < 1 || !Listed(t.jobs, pid) ==> u == t)
  }

  lemma DeletedEntry(t: Table, pid: int)
    ensures Cleared(t, Deleted(t, pid), pid)
  {
    hide FindPid, Listed;
    FirstExists(t.jobs, pid);
  }

  /** Which process fgpid names: that of the first foreground job, 0 without one. */
  lemma FgPidNames(js: seq<Job>)
    ensures forall k :: 0 <= k < |js| && js[k].state == FG && (forall i :: 0 <= i < k ==> js[i].state != FG) ==>
      FgPidOf(js) == js[k].pid
    ensures (forall i :: 0 <= i < |js| ==> js[i].state != FG) ==> FgPidOf(js) == 0
  {
  }

  lemma AddedValid(t: Table, pid: int, state: State)
    requires ValidTable(t) && state != UNDEF
    ensures ValidTable(Added(t, pid, state))
  {
  }

  lemma DeletedValid(t: Table, pid: int)
    requires ValidTable(t)
    ensures ValidTable(Deleted(t, pid))
  {
  }

  // ----- the routines -----

  class JobList {
    const jobs: array<Job>
    var nextjid: int

    ghost predicate Valid()
      reads this, jobs
    {
      jobs.Length == MAXJOBS && ValidTable(View())
    }

    ghost function View(): Table
      reads this, jobs
    {
      Table(jobs[..], nextjid)
    }

    /** initjobs */
    constructor ()
      ensures Valid() && View() == Table(seq(MAXJOBS, _ => Empty), 1) && fresh(jobs)
    {
      jobs := new Job[MAXJOBS](_ => Empty);
      nextjid := 1;
      new;
      assert jobs[..] == seq(MAXJOBS, _ => Empty);
    }

    /** clearjob */
    method ClearJob(k: int)
      requires 0 <= k < jobs.Length
      modifies jobs
      ensures jobs[..] == old(jobs[..])[k := Empty]
    {
      jobs[k] := Job(0, 0, UNDEF);
    }

    /** maxjid */
    method MaxJid() returns (max: int)
      ensures max == MaxJidOf(jobs[..])
    {
      max := 0;
      for i := 0 to jobs.Length
        invariant max == MaxJidOf(jobs[..i])
      {
        assert jobs[..i + 1][..i] == jobs[..i];
        if jobs[i].jid > max {
          max := jobs[i].jid;
        }
      }
      assert jobs[..jobs.Length] == jobs[..];
    }

    /** addjob */
    method AddJob(pid: int, state: State) returns (ok: bool)
      requires Valid() && state != UNDEF
      modifies this, jobs
      ensures Valid() && View() == Added(old(View()), pid, state)
      ensures Entered(old(View()), View(), pid, state)
      ensures ok == (pid >= 1 && Listed(old(jobs[..]), 0))
    {
      AddedValid(View(), pid, state);
      AddedEntry(View(), pid, state);
      FirstExists(jobs[..], 0);
      hide Entered, Listed, FindPid;
      if pid < 1 {
        return false;
      }
      for i := 0 to jobs.Length
        invariant forall j :: 0 <= j < i ==> jobs[j].pid != 0
        invariant View() == old(View())
      {
        if jobs[i].pid == 0 {
          FirstPid(jobs[..], 0, i);
          jobs[i] := Job(pid, nextjid, state);
          nextjid := nextjid + 1;
          if nextjid > MAXJOBS {
            nextjid := 1;
          }
          return true;
        }
      }
      return false;
    }

    /** deletejob */
    method DeleteJob(pid: int) returns (ok: bool)
      requires Valid()
      modifies this, jobs
      ensures Valid() && View() == Deleted(old(View()), pid)
      ensures Cleared(old(View()), View(), pid)
      ensures ok == (pid >= 1 && Listed(old(jobs[..]), pid))
    {
      DeletedValid(View(), pid);
      DeletedEntry(View(), pid);
      FirstExists(jobs[..], pid);
      hide Cleared, Listed, FindPid;
      if pid < 1 {
        return false;
      }
      for i := 0 to jobs.Length
        invariant forall j :: 0 <= j < i ==> jobs[j].pid != pid
        invariant View() == old(View())
      {
        if jobs[i].pid == pid {
          FirstPid(jobs[..], pid, i);
          ClearJob(i);
          var m := MaxJid();
          nextjid := m + 1;
          return true;
        }
      }
      return false;
    }

    /** fgpid */
    method FgPid() returns (pid: int)
      ensures pid == FgPidOf(jobs[..])
    {
      for i := 0 to jobs.Length
        invariant forall j :: 0 <= j < i ==> jobs[j].state != FG
      {
        if jobs[i].state == FG {
          FirstFg(jobs[..], i);
          return jobs[i].pid;
        }
      }
      return 0;
    }

    /** getjobpid: the slot of the process, -1 for NULL. */
    method GetJobPid(pid: int) returns (k: int)
      ensures k == if pid >= 1 && FindPid(jobs[..], pid) < jobs.Length then FindPid(jobs[..], pid) else -1
    {
      if pid < 1 {
        return -1;
      }
      for i := 0 to jobs.Length
        invariant forall j :: 0 <= j < i ==> jobs[j].pid != pid
      {
        if jobs[i].pid == pid {
          FirstPid(jobs[..], pid, i);
          return i;
        }
      }
      return -1;
    }

    /** getjobjid: the slot of the job ID, -1 for NULL. */
    method GetJobJid(jid: int) returns (k: int)
      ensures k == if jid >= 1 && FindJid(jobs[..], jid) < jobs.Length then FindJid(jobs[..], jid) else -1
    {
      if jid < 1 {
        return -1;
      }
      for i := 0 to jobs.Length
        invariant forall j :: 0 <= j < i ==> jobs[j].jid != jid
      {
        if jobs[i].jid == jid {
          assert jobs[..][i].jid == jid;
          return i;
        }
      }
      return -1;
    }
  }

  lemma FirstPid(js: seq<Job>, pid: int, i: int)
    requires 0 <= i < |js| && js[i].pid == pid && forall j :: 0 <= j < i ==> js[j].pid != pid
    ensures FindPid(js, pid) == i
  {
  }

  lemma FirstFg(js: seq<Job>, i: int)
    requires 0 <= i < |js| && js[i].state == FG && forall j :: 0 <= j < i ==> js[j].state != FG
    ensures FindFg(js) == i
  {
  }
}
