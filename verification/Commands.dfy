/** What each step of the shell does: when it can happen, and what it changes in the
    job table, the position of the main loop and the children. */
module Commands {
  import opened Jobs
  import opened Shell

  /** At most the state of slot `k` differs, which is `state` in `u`. */
  ghost predicate StateSet(t: Table, u: Table, k: int, state: State) {
    && 0 <= k < |t.jobs| && OnlySlot(t, u, k, Job(t.jobs[k].pid, t.jobs[k].jid, state))
    && u.nextjid == t.nextjid
  }

  /** fork at the prompt: a new child, or a failure that leaves the children alone. */
  lemma ForkEffect(s: Shell, pid: int, bg: bool)
    requires s.pc == Prompt && (pid == -1 || (pid > 0 && pid !in s.children))
    ensures Enabled(s, Fork(pid, bg))
    ensures var u := Step(s, Fork(pid, bg));
      && u.table == s.table && u.pc == Forked(pid, bg)
      && forall c :: c in u.children <==> c in s.children || (c == pid && pid != -1)
  {
  }

  /** addjob in eval: a background job and back to the prompt, or a foreground job and into waitfg. */
  lemma AddJobEffect(s: Shell, pid: int, bg: bool)
    requires Inv(s) && s.pc == Forked(pid, bg)
    ensures Enabled(s, Event.AddJob)
    ensures var u := Step(s, Event.AddJob);
      && Entered(s.table, u.table, pid, if bg then BG else FG)
      && u.pc == (if bg then Prompt else Waiting(pid)) && u.children == s.children
  {
    AddedEntry(s.table, pid, if bg then BG else FG);
  }

  /** A foreground child with a slot is what ctrl-c reaches and what waitfg waits for. */
  lemma ForegroundChild(s: Shell, pid: int, k: int)
    requires Inv(s) && s.pc == Forked(pid, false) && pid >= 1 && FirstOf(s.table.jobs, 0, k)
    ensures var u := Step(s, Event.AddJob);
      FgPidOf(u.table.jobs) == pid && Enabled(u, Poll) && Step(u, Poll) == u
  {
    AddJobEffect(s, pid, false);
    var u := Step(s, Event.AddJob);
    forall i | 0 <= i < k
      ensures u.table.jobs[i].state != FG
    {
      assert u.table.jobs[i] == s.table.jobs[i];
    }
    FgPidNames(u.table.jobs);
  }

  /** fg: the chosen job is the foreground job, ctrl-c reaches it, and unless a handler
      comes between, waitfg waits for it and does not return at its first poll. */
  lemma FgEffect(s: Shell, slot: int)
    requires Inv(s) && s.pc == Prompt && Found(s.table, slot)
    ensures Enabled(s, Fg(slot))
    ensures var u, pid := Step(s, Fg(slot)), s.table.jobs[slot].pid;
      && StateSet(s.table, u.table, slot, FG) && u.pc == Resumed(slot) && u.children == s.children
      && FgPidOf(u.table.jobs) == pid && Enabled(u, Reread)
      && var w := Step(u, Reread);
      && w.table == u.table && w.pc == Waiting(pid) && w.children == s.children
      && Enabled(w, Poll) && Step(w, Poll) == w
  {
    FgPidNames(Step(s, Fg(slot)).table.jobs);
  }

  /** bg: the chosen job goes on in the background, and the shell is at the prompt again. */
  lemma BgEffect(s: Shell, slot: int)
    requires s.pc == Prompt && Found(s.table, slot)
    ensures Enabled(s, Bg(slot))
    ensures var u := Step(s, Bg(slot));
      StateSet(s.table, u.table, slot, BG) && u.pc == Prompt && u.children == s.children
  {
  }

  /** do_bgfg waits for whatever process the slot names when it is read again. */
  lemma RereadEffect(s: Shell, slot: int)
    requires Inv(s) && s.pc == Resumed(slot)
    ensures Enabled(s, Reread) && Step(s, Reread) == Shell(s.table, Waiting(s.table.jobs[slot].pid), s.children)
  {
  }

  /** waitfg returns exactly when no foreground job has its process, or, for process 0,
      when there is a foreground job. */
  lemma PollEffect(s: Shell, pid: int)
    requires Inv(s) && s.pc == Waiting(pid)
    ensures Enabled(s, Poll)
    ensures var u, js := Step(s, Poll), s.table.jobs;
      && u.table == s.table && u.children == s.children
      && (u.pc == Waiting(pid) <==>
            if pid == 0 then NoFg(js) else exists k :: 0 <= k < |js| && js[k].state == FG && js[k].pid == pid)
      && (u.pc == Waiting(pid) || u.pc == Prompt)
  {
    var js := s.table.jobs;
    FgPidNames(js);
    SignalTarget(s);
    forall k | 0 <= k < |js| && js[k].state == FG
      ensures FgPidOf(js) == js[k].pid
    {
      assert forall i :: 0 <= i < k ==> js[i].state != FG;
    }
  }

  /** A child that ended: wherever the shell is, the first slot of the process is cleared. */
  lemma ReapEffect(s: Shell, pid: int)
    requires Inv(s) && Running(s) && pid in s.children
    ensures Enabled(s, Reap(pid))
    ensures var u := Step(s, Reap(pid));
      && u.pc == s.pc && u.children == s.children - {pid}
      && Cleared(s.table, u.table, pid)
  {
    DeletedEntry(s.table, pid);
  }

  /** A child that stopped: wherever the shell is, the first slot of the process is marked. */
  lemma StopEffect(s: Shell, pid: int)
    requires Running(s) && pid in s.children
    ensures Enabled(s, Stop(pid))
    ensures var u := Step(s, Stop(pid));
      && u.children == s.children
      && (forall k :: FirstOf(s.table.jobs, pid, k) ==> StateSet(s.table, u.table, k, ST) && u.pc == s.pc)
      && (!Listed(s.table.jobs, pid) ==> u.table == s.table && u.pc == Crashed)
  {
    FirstExists(s.table.jobs, pid);
  }

  /** The other steps change nothing but the position. */
  lemma IdleEffect(s: Shell)
    requires Running(s)
    ensures Enabled(s, Quit) && Step(s, Quit) == Shell(s.table, Exited, s.children)
    ensures s.pc == Prompt ==> Enabled(s, Skip) && Step(s, Skip) == s
  {
  }

  /** An ended or crashed shell does nothing any more. */
  lemma EndedStays(s: Shell, e: Event)
    requires s.pc == Exited || s.pc == Crashed
    ensures !Enabled(s, e)
  {
  }
}
