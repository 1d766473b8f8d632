/** Thread lifecycles over whole runs: finished threads stay finished, live threads have a process. */
module Lifecycles {
  import opened Threads
  import opened SchedulerSafety
  import opened MutexSafety

  // ---- finished threads ----

  /** Thread id x has run its course: wherever it still is in the table, it is finished or reaped. */
  ghost predicate Retired(k: Kernel, x: nat)
    requires Shaped(k)
  {
    && 0 < x < k.nextThread
    && forall i | 0 <= i < MAX_THREADS && k.threads[i].id == x ::
         (k.threads[i].state == Finished || k.threads[i].state == Empty) && (i == k.current ==> k.halted)
  }

  /** What a call may do to a slot other than the current one. */
  ghost predicate SlotStep(k: Kernel, k': Kernel, i: nat)
    requires Shaped(k) && Shaped(k') && i < MAX_THREADS
  {
    var t, t' := k.threads[i], k'.threads[i];
    && (t'.id == t.id || t'.id >= k.nextThread)
    && (i != k.current && t'.id == t.id ==>
          && (t.state == Finished ==> t'.state == Finished || t'.state == Empty)
          && (t.state == Empty ==> t'.state == Empty))
  }

  lemma StepEffect(k: Kernel, c: Call)
    requires Invariant(k)
    ensures var k' := Step(k, c);
            && k'.nextThread >= k.nextThread
            && (k'.current != k.current ==> Current(k').state == Running)
            && (k.halted ==> k' == k)
            && forall i | 0 <= i < MAX_THREADS :: SlotStep(k, k', i)
  {
    hide OneRunning, NoOrphan, MutexTable, OneQueuePerAddress;
    if Switches(c) {
      hide Step, Ids;
      SwitchingStep(k, c);
    } else {
      NonSwitchingEffect(k, c);
    }
  }

  lemma NonSwitchingEffect(k: Kernel, c: Call)
    requires Invariant(k) && !Switches(c)
    ensures var k' := Step(k, c);
            && k'.nextThread >= k.nextThread && k'.current == k.current && (k.halted ==> k' == k)
            && forall i | 0 <= i < MAX_THREADS :: SlotStep(k, k', i)
  {
    hide FindThread, FindMutex, FindProcess, FindProcessSlot, FindThreadSlot, FindMutexSlot, NextOwner, FutexWake;
    hide OneRunning, NoOrphan, MutexTable, OneQueuePerAddress;
    match c
    case FutexWakeCall(address, count) => FutexWakeEffect(k, address, count);
    case _ =>
  }

  lemma FutexWakeEffect(k: Kernel, address: nat, count: nat)
    requires Shaped(k)
    ensures var k' := FutexWake(k, address, count);
            && k'.nextThread == k.nextThread && k'.current == k.current && k'.halted == k.halted
            && forall i | 0 <= i < MAX_THREADS ::
                 k'.threads[i] == k.threads[i] || (k.threads[i].state == Blocked && k'.threads[i] == k.threads[i].(state := Ready))
  {
    hide FindQueue;
    var q := FindQueue(k.futexes, address);
    if q < MAX_FUTEXES {
      WakeOnlyReadies(k.threads, k.futexes[q].waiters, count);
    }
  }

  /** A finished thread is never dispatched again, however the run goes on. */
  lemma {:induction false} FinishedNeverRunsAgain(k: Kernel, i: nat, calls: seq<Call>)
    requires Invariant(k) && i < MAX_THREADS && k.threads[i].state == Finished
    ensures var x, k' := k.threads[i].id, Run(k, calls);
            && Invariant(k') && Retired(k', x)
            && forall j | 0 <= j < MAX_THREADS && k'.threads[j].id == x :: k'.threads[j].state != Running
  {
    hide Step, SlotStep, Ids, OneRunning, NoOrphan, MutexTable, OneQueuePerAddress;
    if calls == [] {
      IdsAreDistinct(k, i);
    } else {
      var before := Run(k, calls[..|calls| - 1]);
      FinishedNeverRunsAgain(k, i, calls[..|calls| - 1]);
      StepKeepsInvariant(before, calls[|calls| - 1]);
      RetiredStaysRetired(before, k.threads[i].id, calls[|calls| - 1]);
    }
  }

  lemma IdsAreDistinct(k: Kernel, i: nat)
    requires Invariant(k) && i < MAX_THREADS && k.threads[i].state == Finished
    ensures Retired(k, k.threads[i].id)
  {
  }

  lemma RetiredStaysRetired(k: Kernel, x: nat, c: Call)
    requires Invariant(k) && Retired(k, x)
    ensures Retired(Step(k, c), x)
  {
    hide Step;
    StepEffect(k, c);
    hide Ids, OneRunning, NoOrphan, MutexTable, OneQueuePerAddress;
    var k' := Step(k, c);
    forall i | 0 <= i < MAX_THREADS && k'.threads[i].id == x
      ensures (k'.threads[i].state == Finished || k'.threads[i].state == Empty) && (i == k'.current ==> k'.halted)
    {
      assert SlotStep(k, k', i);
    }
  }

  // ---- processes ----

  ghost predicate ActiveProcess(ps: seq<Process>, id: nat) {
    exists p :: 0 <= p < |ps| && ps[p].active && ps[p].id == id
  }

  /** Every live thread belongs to an active process. */
  ghost predicate LiveHoused(k: Kernel)
    requires Shaped(k)
  {
    forall i | 0 <= i < MAX_THREADS && k.threads[i].state != Empty :: ActiveProcess(k.processes, k.threads[i].process)
  }

  /** The thread that has the processor still has its slot. */
  predicate CallerLives(k: Kernel)
    requires Shaped(k)
  {
    Current(k).state != Empty
  }

  ghost predicate Housed(k: Kernel)
    requires Shaped(k)
  {
    LiveHoused(k) && CallerLives(k)
  }

  /** The call does not terminate the process of the thread that makes it. */
  predicate SparesCaller(k: Kernel, c: Call)
    requires Shaped(k)
  {
    c.TerminateCall? ==> c.process == KERNEL_PROCESS || c.process != Current(k).process
  }

  /** Whichever process is terminated, no live thread is left without one: its threads lose their slots. */
  lemma TerminateKeepsLiveHoused(k: Kernel, process: nat)
    requires Shaped(k) && LiveHoused(k)
    ensures LiveHoused(TerminateProcess(k, process))
  {
    hide FindProcess;
    var p := FindProcess(k.processes, process);
    var k' := TerminateProcess(k, process);
    if p < MAX_PROCESSES && process != KERNEL_PROCESS {
      forall i | 0 <= i < MAX_THREADS && k'.threads[i].state != Empty
        ensures ActiveProcess(k'.processes, k'.threads[i].process)
      {
        var q :| 0 <= q < MAX_PROCESSES && k.processes[q].active && k.processes[q].id == k.threads[i].process;
        assert k'.processes[q] == k.processes[q];
      }
    }
  }

  /** The caller's own slot is emptied under it exactly when it terminates its own process. */
  lemma TerminateExact(k: Kernel, process: nat)
    requires Shaped(k) && Housed(k)
    ensures CallerLives(TerminateProcess(k, process)) <==> SparesCaller(k, TerminateCall(process))
  {
    hide FindProcess;
    if FindProcess(k.processes, process) == MAX_PROCESSES {
      assert process != Current(k).process;
    }
  }

  /**
   A caller whose slot is empty gets a live thread again as soon as it sleeps, under whatever
   process number the slot holds: harmless exactly if that number is an active process.
   */
  lemma EmptyCallerComesBack(k: Kernel, ticks: nat)
    requires Shaped(k) && LiveHoused(k) && !CallerLives(k) && ticks > 0
    ensures LiveHoused(Sleep(k, ticks)) <==> ActiveProcess(k.processes, Current(k).process)
  {
    hide Yield, ActiveProcess;
    var w := WithCurrent(k, Current(k).(wakeTick := k.tick + ticks, state := Sleeping));
    YieldIsCalm(w);
    var k' := Yield(w);
    assert Calm(w.threads[k.current], k'.threads[k.current]);
    forall i | 0 <= i < MAX_THREADS && i != k.current && k'.threads[i].state != Empty ensures ActiveProcess(k.processes, k'.threads[i].process) {
      assert Calm(w.threads[i], k'.threads[i]);
    }
  }

  lemma SlotUpdateKeepsActive(ps: seq<Process>, p: nat, new': Process)
    requires p < |ps| && !ps[p].active
    ensures forall id :: ActiveProcess(ps, id) ==> ActiveProcess(ps[p := new'], id)
  {
    forall id | ActiveProcess(ps, id) ensures ActiveProcess(ps[p := new'], id) {
      var q :| 0 <= q < |ps| && ps[q].active && ps[q].id == id;
      assert ps[p := new'][q] == ps[q];
    }
  }

  lemma SwitchingKeepsHoused(k: Kernel, c: Call)
    requires Invariant(k) && Housed(k) && Switches(c)
    ensures Housed(Step(k, c))
  {
    hide OneRunning, NoOrphan, MutexTable, OneQueuePerAddress, ActiveProcess, Step;
    SwitchingStep(k, c);
  }

  lemma StepKeepsHoused(k: Kernel, c: Call)
    requires Invariant(k) && Housed(k) && SparesCaller(k, c)
    ensures Housed(Step(k, c))
  {
    hide OneRunning, NoOrphan, MutexTable, OneQueuePerAddress, ActiveProcess;
    if Switches(c) {
      SwitchingKeepsHoused(k, c);
    } else if !k.halted {
      hide Switches, FindThread, FindMutex, FindProcessSlot, FindThreadSlot, FindMutexSlot, NextOwner, FutexWake, TerminateProcess;
      match c
      case FutexWakeCall(address, count) => FutexWakeKeepsProcesses(k, address, count);
      case TerminateCall(process) =>
        TerminateKeepsLiveHoused(k, process);
        TerminateExact(k, process);
      case CreateProcessCall =>
        var p := FindProcessSlot(k.processes);
        if p < MAX_PROCESSES { SlotUpdateKeepsActive(k.processes, p, Process(k.nextProcess, true)); }
      case CreateThreadCall(process, possible) =>
        var p := FindProcess(k.processes, process);
        if p < MAX_PROCESSES { ActiveWitness(k.processes, p); }
      case _ =>
    }
  }

  lemma ActiveWitness(ps: seq<Process>, p: nat)
    requires p < |ps| && ps[p].active
    ensures ActiveProcess(ps, ps[p].id)
  {
  }

  lemma FutexWakeKeepsProcesses(k: Kernel, address: nat, count: nat)
    requires Shaped(k) && Housed(k)
    ensures Housed(FutexWake(k, address, count))
  {
    hide ActiveProcess, FindQueue, WakeWaiters;
    FutexWakeEffect(k, address, count);
    assert FutexWake(k, address, count).processes == k.processes;
  }

  ghost predicate SparingRun(k: Kernel, calls: seq<Call>)
    requires Shaped(k)
  {
    calls == [] || (SparingRun(k, calls[..|calls| - 1]) && SparesCaller(Run(k, calls[..|calls| - 1]), calls[|calls| - 1]))
  }

  /** In every run in which no thread terminates its own process, live threads have active processes. */
  lemma {:induction false} HousedHolds(calls: seq<Call>)
    requires Shaped(Boot()) && SparingRun(Boot(), calls)
    ensures Housed(Run(Boot(), calls))
  {
    hide Step, SparesCaller, Housed, Invariant, Boot;
    if calls == [] {
      BootIsHoused();
    } else {
      var before := calls[..|calls| - 1];
      HousedHolds(before);
      InvariantHolds(before);
      StepKeepsHoused(Run(Boot(), before), calls[|calls| - 1]);
    }
  }

  lemma BootIsHoused()
    ensures Shaped(Boot()) && Housed(Boot())
  {
    var b := Boot();
    assert b.processes[0] == Process(KERNEL_PROCESS, true);
    ActiveWitness(b.processes, 0);
  }
}
