/** tsh.c as a transition system: the steps of the shell's main loop interleaved
    with the steps of its SIGCHLD handler, which run one table update at a time. */
module Shell {
  import opened Jobs

  /** Where the main loop is. */
  datatype Pc =
    | Prompt                          // reading or about to read a command line
    | Forked(pid: int, bg: bool)      // eval: fork returned, addjob not yet called
    | Resumed(slot: int)              // do_bgfg: the job is FG and signals are unblocked again
    | Waiting(pid: int)               // waitfg(pid)
    | Crashed                         // the handler followed a NULL job pointer
    | Exited

  /** `children` are the forked processes that waitpid has not reported as ended. */
  datatype Shell = Shell(table: Table, pc: Pc, children: set<int>)

  ghost predicate Init(s: Shell) {
    s == Shell(Table(seq(MAXJOBS, _ => Empty), 1), Prompt, {})
  }

  predicate Running(s: Shell) {
    !s.pc.Crashed? && !s.pc.Exited?
  }

  /** What can happen next. */
  datatype Event =
    | Skip                            // an empty line, jobs, or a refused bg or fg
    | Quit                            // quit, or a failing system call
    | Fork(pid: int, bg: bool)        // a new child, or -1
    | AddJob                          // the parent enters the job
    | Bg(slot: int)
    | Fg(slot: int)
    | Reread                          // do_bgfg reads job->pid for waitfg
    | Poll                            // one test of waitfg's loop
    | Reap(pid: int)                  // the handler learns that a child ended
    | Stop(pid: int)                  // the handler learns that a child stopped

  /** A slot that getjobpid or getjobjid can return. */
  predicate Found(t: Table, slot: int) {
    0 <= slot < |t.jobs| && t.jobs[slot].pid != 0
  }

  ghost predicate Enabled(s: Shell, e: Event) {
    Running(s) &&
    match e
    case Skip => s.pc.Prompt?
    case Quit => true
    case Fork(pid, _) => s.pc.Prompt? && (pid == -1 || (pid > 0 && pid !in s.children))
    case AddJob => s.pc.Forked?
    case Bg(slot) => s.pc.Prompt? && Found(s.table, slot)
    case Fg(slot) => s.pc.Prompt? && Found(s.table, slot)
    case Reread => s.pc.Resumed? && 0 <= s.pc.slot < |s.table.jobs|
    case Poll => s.pc.Waiting?
    case Reap(pid) => pid in s.children
    case Stop(pid) => pid in s.children
  }

  function Step(s: Shell, e: Event): Shell
    requires Enabled(s, e)
  {
    match e
    case Skip => s
    case Quit => s.(pc := Exited)
    case Fork(pid, bg) => s.(pc := Forked(pid, bg), children := if pid > 0 then s.children + {pid} else s.children)
    case AddJob =>
      if s.pc.bg then s.(table := Added(s.table, s.pc.pid, BG), pc := Prompt)
      else s.(table := Added(s.table, s.pc.pid, FG), pc := Waiting(s.pc.pid))
    case Bg(slot) => s.(table := Moved(s.table, slot, BG))
    case Fg(slot) => s.(table := Moved(s.table, slot, FG), pc := Resumed(slot))
    case Reread => s.(pc := Waiting(s.table.jobs[s.pc.slot].pid))
    case Poll => if FgPidOf(s.table.jobs) == s.pc.pid then s else s.(pc := Prompt)
    case Reap(pid) => s.(table := Deleted(s.table, pid), children := s.children - {pid})
    case Stop(pid) =>
      var k := FindPid(s.table.jobs, pid);
      if k < |s.table.jobs| then s.(table := Moved(s.table, k, ST)) else s.(pc := Crashed)
  }

  // ----- safety -----

  ghost predicate AtMostOneFg(js: seq<Job>) {
    forall i, j :: 0 <= i < |js| && 0 <= j < |js| && js[i].state == FG && js[j].state == FG ==> i == j
  }

  ghost predicate NoFg(js: seq<Job>) {
    forall i :: 0 <= i < |js| ==> js[i].state != FG
  }

  /** At most one foreground job, and none while the shell takes commands. */
  ghost predicate Safe(s: Shell) {
    AtMostOneFg(s.table.jobs) && (s.pc.Prompt? ==> NoFg(s.table.jobs))
  }

  /** Who the foreground job can be at each point of the main loop. */
  ghost predicate Inv(s: Shell) {
    var js := s.table.jobs;
    && ValidTable(s.table) && AtMostOneFg(js) && (forall c :: c in s.children ==> c > 0)
    && match s.pc
       case Prompt => NoFg(js)
       case Forked(_, _) => NoFg(js)
       case Resumed(slot) => 0 <= slot < |js| && forall i :: 0 <= i < |js| && js[i].state == FG ==> i == slot
       case Waiting(pid) => forall i :: 0 <= i < |js| && js[i].state == FG ==> js[i].pid == pid
       case Crashed => true
       case Exited => true
  }

  lemma InitInv(s: Shell)
    requires Init(s)
    ensures Inv(s)
  {
  }

  /** A foreground job after addjob, deletejob or a state change is an old one or the one just made. */
  lemma AddedFg(t: Table, pid: int, state: State, i: int)
    requires ValidTable(t) && state != UNDEF && 0 <= i < |t.jobs|
    ensures ValidTable(Added(t, pid, state)) && |Added(t, pid, state).jobs| == |t.jobs|
    ensures Added(t, pid, state).jobs[i].state == FG ==>
      (t.jobs[i].state == FG && Added(t, pid, state).jobs[i] == t.jobs[i])
      || (state == FG && i == FindPid(t.jobs, 0) && Added(t, pid, state).jobs[i].pid == pid)
  {
    AddedValid(t, pid, state);
  }

  lemma DeletedFg(t: Table, pid: int, i: int)
    requires ValidTable(t) && 0 <= i < |t.jobs|
    ensures ValidTable(Deleted(t, pid)) && |Deleted(t, pid).jobs| == |t.jobs|
    ensures Deleted(t, pid).jobs[i].state == FG ==> Deleted(t, pid).jobs[i] == t.jobs[i]
  {
    DeletedValid(t, pid);
  }

  lemma AddJobInv(s: Shell)
    requires Inv(s) && Enabled(s, Event.AddJob)
    ensures Inv(Step(s, Event.AddJob))
  {
    var state := if s.pc.bg then BG else FG;
    var t' := Added(s.table, s.pc.pid, state);
    AddedValid(s.table, s.pc.pid, state);
    forall i | 0 <= i < |s.table.jobs|
      ensures |t'.jobs| == |s.table.jobs|
      ensures t'.jobs[i].state == FG ==> state == FG && i == FindPid(s.table.jobs, 0) && t'.jobs[i].pid == s.pc.pid
    {
      AddedFg(s.table, s.pc.pid, state, i);
    }
  }

  lemma ReapInv(s: Shell, pid: int)
    requires Inv(s) && Enabled(s, Reap(pid))
    ensures Inv(Step(s, Reap(pid)))
  {
    var t' := Deleted(s.table, pid);
    DeletedValid(s.table, pid);
    forall i | 0 <= i < |s.table.jobs|
      ensures |t'.jobs| == |s.table.jobs|
      ensures t'.jobs[i].state == FG ==> t'.jobs[i] == s.table.jobs[i]
    {
      DeletedFg(s.table, pid, i);
    }
    hide Deleted, ValidTable;
  }

  lemma PollInv(s: Shell)
    requires Inv(s) && Enabled(s, Poll)
    ensures Inv(Step(s, Poll))
  {
  }

  lemma BgInv(s: Shell, slot: int)
    requires Inv(s) && Enabled(s, Bg(slot))
    ensures Inv(Step(s, Bg(slot)))
  {
  }

  lemma FgInv(s: Shell, slot: int)
    requires Inv(s) && Enabled(s, Fg(slot))
    ensures Inv(Step(s, Fg(slot)))
  {
  }

  lemma StopInv(s: Shell, pid: int)
    requires Inv(s) && Enabled(s, Stop(pid))
    ensures Inv(Step(s, Stop(pid)))
  {
  }

  /** The lookups of do_bgfg only yield slots in use. */
  lemma LookupFinds(t: Table, id: int)
    requires ValidTable(t) && id >= 1
    ensures FindPid(t.jobs, id) < |t.jobs| ==> Found(t, FindPid(t.jobs, id))
    ensures FindJid(t.jobs, id) < |t.jobs| ==> Found(t, FindJid(t.jobs, id))
  {
    var k := FindJid(t.jobs, id);
    assert k < |t.jobs| ==> ValidJob(t.jobs[k]);
  }

  lemma StepInv(s: Shell, e: Event)
    requires Inv(s) && Enabled(s, e)
    ensures Inv(Step(s, e))
  {
    match e
    case AddJob => AddJobInv(s);
    case Reap(pid) => ReapInv(s, pid);
    case Poll => PollInv(s);
    case Bg(slot) => BgInv(s, slot);
    case Fg(slot) => FgInv(s, slot);
    case Stop(pid) => StopInv(s, pid);
    case Skip =>
    case Quit =>
    case Fork(_, _) =>
    case Reread =>
  }

  ghost predicate IsRun(states: seq<Shell>, events: seq<Event>) {
    && |states| == |events| + 1
    && forall i :: 0 <= i < |events| ==> Enabled(states[i], events[i]) && states[i + 1] == Step(states[i], events[i])
  }

  lemma {:induction false} RunInv(states: seq<Shell>, events: seq<Event>, i: nat)
    requires IsRun(states, events) && Inv(states[0]) && i < |states|
    ensures Inv(states[i])
  {
    if i > 0 {
      RunInv(states, events, i - 1);
      StepInv(states[i - 1], events[i - 1]);
    }
  }

  /** In every interleaving of shell and handler steps at most one job is in the
      foreground, and none is whenever the shell is back at the prompt. */
  lemma AlwaysSafe(states: seq<Shell>, events: seq<Event>)
    requires IsRun(states, events) && Init(states[0])
    ensures forall i :: 0 <= i < |states| ==> Safe(states[i])
  {
    InitInv(states[0]);
    forall i | 0 <= i < |states|
      ensures Safe(states[i])
    {
      RunInv(states, events, i);
    }
  }

  ghost predicate OnlyFg(js: seq<Job>, k: int) {
    0 <= k < |js| && js[k].state == FG && forall i :: 0 <= i < |js| && i != k ==> js[i].state != FG
  }

  /** What ctrl-c and ctrl-z act on: the one foreground job if there is one, nothing otherwise. */
  lemma SignalTarget(s: Shell)
    requires Inv(s)
    ensures var js, target := s.table.jobs, FgPidOf(s.table.jobs);
      && (target > 0 <==> !NoFg(js))
      && (target > 0 ==> exists k :: OnlyFg(js, k) && js[k].pid == target)
  {
    var js := s.table.jobs;
    var k := FindFg(js);
    if k < |js| {
      assert ValidJob(js[k]);
      assert OnlyFg(js, k);
    }
  }

  // ----- when waitfg can return -----

  /** Some continuation leads back to the prompt. */
  ghost predicate CanReturn(s: Shell) {
    exists states: seq<Shell>, events: seq<Event> ::
      IsRun(states, events) && states[0] == s && states[|states| - 1].pc.Prompt?
  }

  /** What the return from waitfg hangs on: its process is not the foreground job, or
      it is a child still to be reaped, and reaping it deletes the foreground job. */
  ghost predicate Returnable(s: Shell)
    requires s.pc.Waiting?
  {
    var js := s.table.jobs;
    FgPidOf(js) != s.pc.pid || (s.pc.pid in s.children && FindPid(js, s.pc.pid) == FindFg(js))
  }

  ghost predicate Stuck(s: Shell) {
    s.pc.Waiting? && !Returnable(s)
  }

  /** Deleting another process than the one that is waited for, or another slot of it,
      leaves the foreground job and the first slot of that process alone. */
  lemma DeletedElsewhere(t: Table, pid: int, q: int)
    requires ValidTable(t) && q > 0 && FgPidOf(t.jobs) == pid
    requires q != pid || FindPid(t.jobs, pid) != FindFg(t.jobs)
    ensures var js := Deleted(t, q).jobs;
      && |js| == |t.jobs| && FgPidOf(js) == pid && FindFg(js) == FindFg(t.jobs)
      && (q != pid && pid > 0 ==> FindPid(js, pid) == FindPid(t.jobs, pid))
  {
    var js, f := Deleted(t, q).jobs, FindFg(t.jobs);
    if f < |js| {
      FirstFg(js, f);
      if q != pid && pid > 0 {
        FirstPid(js, pid, FindPid(t.jobs, pid));
      }
    }
  }

  lemma StoppedElsewhere(t: Table, pid: int, k: int)
    requires ValidTable(t) && 0 <= k < |t.jobs| && FgPidOf(t.jobs) == pid && k != FindFg(t.jobs)
    requires AtMostOneFg(t.jobs)
    ensures var js := Moved(t, k, ST).jobs;
      FgPidOf(js) == pid && FindFg(js) == FindFg(t.jobs) && FindPid(js, pid) == FindPid(t.jobs, pid)
  {
    var js, f, p := Moved(t, k, ST).jobs, FindFg(t.jobs), FindPid(t.jobs, pid);
    assert forall i :: 0 <= i < |js| ==> js[i].pid == t.jobs[i].pid;
    if f < |js| {
      FirstFg(js, f);
    }
    if p < |js| {
      FirstPid(js, pid, p);
    }
  }

  /** Nothing that can happen frees a stuck shell. */
  lemma StuckStep(s: Shell, e: Event)
    requires Inv(s) && Stuck(s) && Enabled(s, e)
    ensures var s' := Step(s, e); (s'.pc == s.pc && Stuck(s')) || s'.pc.Crashed? || s'.pc.Exited?
  {
    var t, pid := s.table, s.pc.pid;
    match e
    case Reap(q) =>
      DeletedElsewhere(t, pid, q);
    case Stop(q) =>
      var k := FindPid(t.jobs, q);
      if k < |t.jobs| {
        assert ValidJob(t.jobs[k]);
        StoppedElsewhere(t, pid, k);
      }
    case _ =>
  }

  lemma {:induction false} StuckRun(states: seq<Shell>, events: seq<Event>, i: nat)
    requires IsRun(states, events) && Inv(states[0]) && Stuck(states[0]) && i < |states|
    ensures Stuck(states[i]) || states[i].pc.Crashed? || states[i].pc.Exited?
  {
    if i > 0 {
      StuckRun(states, events, i - 1);
      RunInv(states, events, i - 1);
      if Stuck(states[i - 1]) {
        StuckStep(states[i - 1], events[i - 1]);
      }
    }
  }

  lemma StuckForever(s: Shell)
    requires Inv(s) && Stuck(s)
    ensures !CanReturn(s)
  {
    forall states: seq<Shell>, events: seq<Event> | IsRun(states, events) && states[0] == s
      ensures !states[|states| - 1].pc.Prompt?
    {
      StuckRun(states, events, |states| - 1);
    }
  }

  /** Otherwise one poll ends the wait, if need be after the child was reaped. */
  lemma ReturnRun(s: Shell) returns (states: seq<Shell>, events: seq<Event>)
    requires Inv(s) && s.pc.Waiting? && Returnable(s)
    ensures IsRun(states, events) && states[0] == s && states[|states| - 1].pc.Prompt?
  {
    var pid := s.pc.pid;
    if FgPidOf(s.table.jobs) != pid {
      states, events := [s, Step(s, Poll)], [Poll];
    } else {
      var s' := Step(s, Reap(pid));
      DeletedFgGone(s.table, pid);
      states, events := [s, s', Step(s', Poll)], [Reap(pid), Poll];
    }
  }

  lemma DeletedFgGone(t: Table, pid: int)
    requires ValidTable(t) && AtMostOneFg(t.jobs) && pid > 0
    requires FgPidOf(t.jobs) == pid && FindPid(t.jobs, pid) == FindFg(t.jobs)
    ensures FgPidOf(Deleted(t, pid).jobs) == 0
  {
    var js := Deleted(t, pid).jobs;
    assert NoFg(js);
  }

  /** When a waiting shell can come back to the prompt. */
  lemma ReturnsIff(s: Shell)
    requires Inv(s) && s.pc.Waiting?
    ensures CanReturn(s) <==> Returnable(s)
  {
    if Returnable(s) {
      var states, events := ReturnRun(s);
    } else {
      StuckForever(s);
    }
  }

  /** A first way into a wait without end: the job of an fg command is reaped before
      do_bgfg reads its pid again, which then is 0. */
  lemma StuckOnZero() returns (states: seq<Shell>, events: seq<Event>)
    ensures IsRun(states, events) && Init(states[0]) && MaskedFork(states, events)
    ensures states[|states| - 1].pc == Waiting(0) && !CanReturn(states[|states| - 1])
  {
    var s0 := Shell(Table(seq(MAXJOBS, _ => Empty), 1), Prompt, {});
    events := [Fork(5, true), Event.AddJob, Fg(0), Reap(5), Reread];
    var s1 := Step(s0, events[0]);
    assert s1.table.jobs[0].pid == 0;
    assert FindPid(s1.table.jobs, 0) == 0;
    var s2 := Step(s1, events[1]);
    assert s2.table.jobs[0] == Job(5, 1, BG);
    var s3 := Step(s2, events[2]);
    assert FindPid(s3.table.jobs, 5) == 0;
    var s4 := Step(s3, events[3]);
    assert s4.table.jobs[0] == Empty;
    var s5 := Step(s4, events[4]);
    states := [s0, s1, s2, s3, s4, s5];
    InitInv(s0);
    RunInv(states, events, 5);
    SignalTarget(s5);
    StuckForever(s5);
  }

  /** A second one: a child that ends before addjob is entered after it was reaped, and
      its foreground job is never deleted. */
  lemma StuckOnReaped(pid: int) returns (states: seq<Shell>, events: seq<Event>)
    requires pid > 0
    ensures IsRun(states, events) && Init(states[0])
    ensures states[|states| - 1].pc == Waiting(pid) && !CanReturn(states[|states| - 1])
  {
    var s0 := Shell(Table(seq(MAXJOBS, _ => Empty), 1), Prompt, {});
    events := [Fork(pid, false), Reap(pid), Event.AddJob];
    var s1 := Step(s0, events[0]);
    var s2 := Step(s1, events[1]);
    assert FindPid(s1.table.jobs, pid) == |s1.table.jobs|;
    assert s2.table.jobs[0].pid == 0;
    var s3 := Step(s2, events[2]);
    assert s3.table.jobs[0] == Job(pid, 1, FG);
    FirstFg(s3.table.jobs, 0);
    states := [s0, s1, s2, s3];
    InitInv(s0);
    RunInv(states, events, 3);
    StuckForever(s3);
  }

  /** The entry left by such a child also gets in the way of a later one with the same
      process ID: reaping that one deletes the old entry and leaves its foreground job. */
  lemma StuckOnReuse(pid: int) returns (states: seq<Shell>, events: seq<Event>)
    requires pid > 0
    ensures IsRun(states, events) && Init(states[0])
    ensures states[|states| - 1].pc == Waiting(pid) && !CanReturn(states[|states| - 1])
  {
    var none := seq(MAXJOBS, _ => Empty);
    var s0 := Shell(Table(none, 1), Prompt, {});
    events := [Fork(pid, true), Reap(pid), Event.AddJob, Fork(pid, false), Event.AddJob, Reap(pid)];
    var s1, s2 := Shell(Table(none, 1), Forked(pid, true), {pid}), Shell(Table(none, 1), Forked(pid, true), {});
    assert FindPid(none, pid) == |none|;
    var one := none[0 := Job(pid, 1, BG)];
    AddedAt(s2.table, pid, 0);
    var s3, s4 := Shell(Table(one, 2), Prompt, {}), Shell(Table(one, 2), Forked(pid, false), {pid});
    var two := one[1 := Job(pid, 2, FG)];
    FirstPid(one, 0, 1);
    var s5 := Shell(Table(two, 3), Waiting(pid), {pid});
    FirstPid(two, pid, 0);
    var s6 := Step(s5, Reap(pid));
    FirstFg(s6.table.jobs, 1);
    states := [s0, s1, s2, s3, s4, s5, s6];
    InitInv(s0);
    RunInv(states, events, 6);
    StuckForever(s6);
  }

  // ----- with SIGCHLD blocked from fork to addjob -----

  /** The handler does not act between fork and addjob, as blocking SIGCHLD would ensure. */
  ghost predicate MaskedFork(states: seq<Shell>, events: seq<Event>) {
    |states| == |events| + 1
    && forall i :: 0 <= i < |events| && states[i].pc.Forked? ==> !events[i].Reap? && !events[i].Stop?
  }

  /** Every job is a child still to be reaped, in one slot only. */
  ghost predicate Registered(s: Shell) {
    var js := s.table.jobs;
    && (forall i :: 0 <= i < |js| && js[i].pid != 0 ==> js[i].pid in s.children)
    && (forall i, j :: 0 <= i < j < |js| && js[i].pid != 0 ==> js[i].pid != js[j].pid)
    && (s.pc.Forked? && s.pc.pid > 0 ==>
          s.pc.pid in s.children && forall i :: 0 <= i < |js| ==> js[i].pid != s.pc.pid)
  }

  lemma RegisteredStep(s: Shell, e: Event)
    requires Inv(s) && Registered(s) && Enabled(s, e)
    requires s.pc.Forked? ==> !e.Reap? && !e.Stop?
    ensures Registered(Step(s, e))
  {
    match e
    case AddJob => RegisteredAdd(s);
    case Reap(pid) => RegisteredReap(s, pid);
    case Fork(_, _) =>
    case Bg(_) =>
    case Fg(_) =>
    case Stop(_) =>
    case Skip =>
    case Quit =>
    case Reread =>
    case Poll =>
  }

  lemma RegisteredAdd(s: Shell)
    requires Inv(s) && Registered(s) && Enabled(s, Event.AddJob)
    ensures Registered(Step(s, Event.AddJob))
  {
  }

  lemma RegisteredReap(s: Shell, pid: int)
    requires Inv(s) && Registered(s) && Enabled(s, Reap(pid)) && !s.pc.Forked?
    ensures Registered(Step(s, Reap(pid)))
  {
  }

  lemma {:induction false} MaskedRegistered(states: seq<Shell>, events: seq<Event>, i: nat)
    requires IsRun(states, events) && Init(states[0]) && MaskedFork(states, events) && i < |states|
    ensures Inv(states[i]) && Registered(states[i])
  {
    InitInv(states[0]);
    RunInv(states, events, i);
    if i > 0 {
      MaskedRegistered(states, events, i - 1);
      RegisteredStep(states[i - 1], events[i - 1]);
    }
  }

  /** With SIGCHLD blocked there, only the wait for process 0 has no end. */
  lemma MaskedReturnsIff(states: seq<Shell>, events: seq<Event>)
    requires IsRun(states, events) && Init(states[0]) && MaskedFork(states, events)
    requires states[|states| - 1].pc.Waiting?
    ensures CanReturn(states[|states| - 1]) <==> states[|states| - 1].pc.pid != 0
  {
    var s := states[|states| - 1];
    MaskedRegistered(states, events, |states| - 1);
    ReturnsIff(s);
    var js, f := s.table.jobs, FindFg(s.table.jobs);
    if f < |js| {
      assert ValidJob(js[f]);
      FirstPid(js, js[f].pid, f);
    }
  }

  /** The handler follows a NULL pointer exactly when the stopped child is not in the table ... */
  lemma CrashesIff(s: Shell, pid: int)
    requires Inv(s) && Enabled(s, Stop(pid))
    ensures Step(s, Stop(pid)).pc == Crashed <==> forall i :: 0 <= i < |s.table.jobs| ==> s.table.jobs[i].pid != pid
  {
  }

  /** ... which the gap between fork and addjob makes possible. */
  lemma CrashIsReachable() returns (states: seq<Shell>, events: seq<Event>)
    ensures IsRun(states, events) && Init(states[0]) && states[|states| - 1].pc == Crashed
  {
    var s0 := Shell(Table(seq(MAXJOBS, _ => Empty), 1), Prompt, {});
    events := [Fork(5, false), Stop(5)];
    var s1 := Step(s0, events[0]);
    var s2 := Step(s1, events[1]);
    states := [s0, s1, s2];
  }

  // ----- job IDs -----

  /** Job IDs name jobs. */
  ghost predicate DistinctJids(js: seq<Job>) {
    forall i, j :: 0 <= i < j < |js| && js[i].jid == js[j].jid ==> js[i].jid == 0
  }

  /** addjob keeps job IDs distinct exactly when the next ID is not in use. */
  lemma AddedDistinctIff(t: Table, pid: int, state: State)
    requires ValidTable(t) && DistinctJids(t.jobs) && state != UNDEF
    requires pid >= 1 && FindPid(t.jobs, 0) < |t.jobs|
    ensures DistinctJids(Added(t, pid, state).jobs) <==> forall i :: 0 <= i < |t.jobs| ==> t.jobs[i].jid != t.nextjid
  {
    var k, js := FindPid(t.jobs, 0), Added(t, pid, state).jobs;
    assert ValidJob(t.jobs[k]);
    if i :| 0 <= i < |t.jobs| && t.jobs[i].jid == t.nextjid {
      assert js[i].jid == js[k].jid && i != k;
      assert !DistinctJids(js) by {
        if i < k {
          assert js[i].jid == js[k].jid;
        } else {
          assert js[k].jid == js[i].jid;
        }
      }
    } else {
      forall i, j | 0 <= i < j < |js| && js[i].jid == js[j].jid
        ensures js[i].jid == 0
      {
      }
    }
  }

  /** After a deletion the next job ID is larger than every ID in use. */
  lemma DeletedNextIsFresh(t: Table, pid: int)
    requires ValidTable(t) && pid >= 1 && FindPid(t.jobs, pid) < |t.jobs|
    ensures forall i :: 0 <= i < |t.jobs| ==> Deleted(t, pid).jobs[i].jid < Deleted(t, pid).nextjid
  {
  }

  /** The table after adding the processes 1..n to an empty one. */
  ghost function Filled(n: nat): Table {
    if n == 0 then Table(seq(MAXJOBS, _ => Empty), 1) else Added(Filled(n - 1), n, BG)
  }

  lemma {:induction false} FilledJobs(n: nat)
    requires n <= MAXJOBS
    ensures |Filled(n).jobs| == MAXJOBS && Filled(n).nextjid == (if n == MAXJOBS then 1 else n + 1)
    ensures forall i :: 0 <= i < n ==> Filled(n).jobs[i] == Job(i + 1, i + 1, BG)
    ensures forall i :: n <= i < MAXJOBS ==> Filled(n).jobs[i] == Empty
  {
    hide Added, Filled;
    FilledStep(n);
    if n > 0 {
      FilledJobs(n - 1);
      AddedAt(Filled(n - 1), n, n - 1);
    }
  }

  lemma FilledStep(n: nat)
    ensures Filled(n) == if n == 0 then Table(seq(MAXJOBS, _ => Empty), 1) else Added(Filled(n - 1), n, BG)
  {
  }

  lemma AddedAt(t: Table, pid: int, k: int)
    requires 0 <= k < |t.jobs| && pid >= 1
    requires t.jobs[k].pid == 0 && forall j :: 0 <= j < k ==> t.jobs[j].pid != 0
    ensures Added(t, pid, BG) ==
      Table(t.jobs[k := Job(pid, t.nextjid, BG)], if t.nextjid + 1 > 16 then 1 else t.nextjid + 1)
  {
    FirstPid(t.jobs, 0, k);
  }

  lemma DeletedAt(t: Table, pid: int, k: int, top: int)
    requires 0 <= k < |t.jobs| && pid >= 1
    requires t.jobs[k].pid == pid && forall j :: 0 <= j < k ==> t.jobs[j].pid != pid
    requires 0 <= top < |t.jobs| && top != k && forall j :: 0 <= j < |t.jobs| ==> t.jobs[j].jid <= t.jobs[top].jid
    requires t.jobs[top].jid > 0
    ensures Deleted(t, pid) == Table(t.jobs[k := Empty], t.jobs[top].jid + 1)
  {
    FirstPid(t.jobs, pid, k);
    var js := t.jobs[k := Empty];
    assert js[top].jid == t.jobs[top].jid;
  }

  lemma TwoDeleted(t: Table)
    requires |t.jobs| == 16 && forall i :: 0 <= i < 16 ==> t.jobs[i] == Job(i + 1, i + 1, BG)
    ensures Deleted(Deleted(t, 2), 3) == Table(t.jobs[1 := Empty][2 := Empty], 17)
  {
    hide Deleted;
    DeletedAt(t, 2, 1, 15);
    DeletedAt(Table(t.jobs[1 := Empty], 17), 3, 2, 15);
  }

  lemma TwoAdded(t: Table)
    requires |t.jobs| == 16 && t.nextjid == 17
    requires t.jobs[0].pid != 0 && t.jobs[1].pid == 0 && t.jobs[2].pid == 0
    ensures Added(Added(t, 20, BG), 21, BG).jobs == t.jobs[1 := Job(20, 17, BG)][2 := Job(21, 1, BG)]
  {
    hide Added;
    AddedAt(t, 20, 1);
    AddedAt(Table(t.jobs[1 := Job(20, 17, BG)], 1), 21, 2);
  }

  /** Job IDs do collide: fill the table, end two jobs, start two. */
  lemma JidsCollide()
    ensures var u := Added(Added(Deleted(Deleted(Filled(16), 2), 3), 20, BG), 21, BG);
      |u.jobs| == 16 && u.jobs[0] == Job(1, 1, BG) && u.jobs[2] == Job(21, 1, BG)
  {
    hide Filled, Added, Deleted;
    FilledJobs(16);
    TwoDeleted(Filled(16));
    TwoAdded(Table(Filled(16).jobs[1 := Empty][2 := Empty], 17));
  }
}
