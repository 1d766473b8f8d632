/** What has ended stays ended: terminated processes, exited threads, reaped slots. */
module Endings {
  import opened Threads
  import Dispatching
  import opened SchedulerSafety
  import opened MutexSafety
  import opened Lifecycles

  // ---- processes ----

  /** Process ids are never shared nor reused, and a caller without a slot has no process. */
  ghost predicate ProcessIds(k: Kernel)
    requires Shaped(k)
  {
    && k.nextProcess > 0 && (forall p | 0 <= p < MAX_PROCESSES && k.processes[p].active :: 0 < k.processes[p].id < k.nextProcess)
    && (forall p, q | 0 <= p < q < MAX_PROCESSES && k.processes[p].active && k.processes[q].active :: k.processes[p].id != k.processes[q].id)
    && (Current(k).state == Empty ==> Current(k).process == 0)
  }

  /** No active process p, and no thread of it that lives or has the processor. */
  ghost predicate Gone(k: Kernel, p: nat)
    requires Shaped(k)
  {
    && 0 < p < k.nextProcess && !ActiveProcess(k.processes, p)
    && forall i | 0 <= i < MAX_THREADS && (k.threads[i].state != Empty || i == k.current) :: k.threads[i].process != p
  }

  /** Which process a slot's thread belongs to changes only with a new thread, or to none. */
  ghost predicate ProcessStep(k: Kernel, k': Kernel, i: nat)
    requires Shaped(k) && Shaped(k') && i < MAX_THREADS
  {
    var t, t' := k.threads[i], k'.threads[i];
    && (i == k'.current && k'.current != k.current ==> t'.state != Empty)
    && (t'.state != Empty || i == k'.current ==>
          || t'.process == 0
          || (t'.process == t.process && (t.state != Empty || i == k.current))
          || ActiveProcess(k.processes, t'.process))
  }

  lemma PlainOnProcess(k: Kernel, c: Call, i: nat)
    requires Shaped(k) && i < MAX_THREADS && !Switches(c) && !k.halted
    ensures ProcessStep(k, Step(k, c), i)
  {
    hide ActiveProcess, FindThread, FindMutex, FindProcess, FindProcessSlot, FindThreadSlot, FindMutexSlot, NextOwner, FutexWake;
    match c
    case FutexWakeCall(address, count) => FutexWakeEffect(k, address, count);
    case CreateThreadCall(process, possible) =>
      var p := FindProcess(k.processes, process);
      if p < MAX_PROCESSES { ActiveWitness(k.processes, p); }
    case _ =>
  }

  lemma SwitchingOnProcess(k: Kernel, c: Call, i: nat)
    requires Shaped(k) && i < MAX_THREADS && Switches(c) && !k.halted
    ensures ProcessStep(k, Step(k, c), i)
  {
    hide Step, ActiveProcess, Switches;
    SwitchingStep(k, c);
  }

  lemma StepOnProcess(k: Kernel, c: Call, i: nat)
    requires Shaped(k) && i < MAX_THREADS
    ensures ProcessStep(k, Step(k, c), i)
  {
    hide Step, ProcessStep;
    if k.halted {
      HaltedOnProcess(k, c, i);
    } else if Switches(c) {
      SwitchingOnProcess(k, c, i);
    } else {
      PlainOnProcess(k, c, i);
    }
  }

  lemma HaltedOnProcess(k: Kernel, c: Call, i: nat)
    requires Shaped(k) && i < MAX_THREADS && k.halted
    ensures ProcessStep(k, Step(k, c), i)
  {
  }

  lemma StepOnTable(k: Kernel, c: Call)
    requires Shaped(k) && ProcessIds(k)
    ensures var k' := Step(k, c);
            && k'.nextProcess >= k.nextProcess
            && (forall p | 0 <= p < MAX_PROCESSES && k'.processes[p].active :: k'.processes[p] == k.processes[p] || k.nextProcess <= k'.processes[p].id < k'.nextProcess)
            && (forall p, q | 0 <= p < q < MAX_PROCESSES && k'.processes[p].active && k'.processes[q].active :: k'.processes[p].id != k'.processes[q].id)
  {
    TablesKept(k, c);
    hide FindProcess, FindProcessSlot;
    match c
    case CreateProcessCall =>
    case TerminateCall(process) =>
    case _ => hide Step;
  }

  lemma StepKeepsProcessIds(k: Kernel, c: Call)
    requires Shaped(k) && ProcessIds(k)
    ensures ProcessIds(Step(k, c))
  {
    hide Step, ActiveProcess;
    StepOnTable(k, c);
    var k' := Step(k, c);
    StepOnProcess(k, c, k'.current);
    if Current(k').state == Empty { EmptyCallerHasNoProcess(k, c); }
  }

  lemma EmptyCallerHasNoProcess(k: Kernel, c: Call)
    requires Shaped(k) && ProcessIds(k) && Current(Step(k, c)).state == Empty
    ensures Current(Step(k, c)).process == 0
  {
    hide ActiveProcess;
    if k.halted {
    } else if Switches(c) {
      hide Step;
      SwitchingStep(k, c);
    } else {
      hide FindThread, FindMutex, FindProcess, FindProcessSlot, FindThreadSlot, FindMutexSlot, NextOwner, FutexWake;
      match c
      case FutexWakeCall(address, count) => FutexWakeEffect(k, address, count);
      case _ =>
    }
  }

  lemma GoneStaysGone(k: Kernel, c: Call, p: nat)
    requires Shaped(k) && ProcessIds(k) && Gone(k, p)
    ensures Gone(Step(k, c), p)
  {
    hide Step;
    StepOnTable(k, c);
    var k' := Step(k, c);
    forall q | 0 <= q < MAX_PROCESSES && k'.processes[q].active ensures k'.processes[q].id != p {
    }
    forall i | 0 <= i < MAX_THREADS && (k'.threads[i].state != Empty || i == k'.current) ensures k'.threads[i].process != p {
      StepOnProcess(k, c, i);
    }
  }

  /** Terminating a process that is active, and not the kernel's, ends it and every thread of it at once. */
  lemma TerminationEnds(k: Kernel, p: nat)
    requires Shaped(k) && ProcessIds(k) && !k.halted && ActiveProcess(k.processes, p) && p != KERNEL_PROCESS
    ensures Gone(Step(k, TerminateCall(p)), p)
    ensures forall i | 0 <= i < MAX_THREADS && k.threads[i].process != p :: Step(k, TerminateCall(p)).threads[i] == k.threads[i]
    ensures forall q | 0 <= q < MAX_PROCESSES && k.processes[q].id != p :: Step(k, TerminateCall(p)).processes[q] == k.processes[q]
  {
    var q :| 0 <= q < MAX_PROCESSES && k.processes[q].active && k.processes[q].id == p;
    hide FindProcess;
  }

  /** The kernel's process, and one that is not active, are not terminated. */
  lemma TerminationRefused(k: Kernel, p: nat)
    requires Shaped(k) && (p == KERNEL_PROCESS || !ActiveProcess(k.processes, p))
    ensures TerminateProcess(k, p) == k
  {
    var q := FindProcess(k.processes, p);
    hide FindProcess;
    if q < MAX_PROCESSES { ActiveWitness(k.processes, q); }
  }

  lemma {:induction false} ProcessIdsHold(calls: seq<Call>)
    ensures Shaped(Boot()) && ProcessIds(Run(Boot(), calls))
  {
    if calls == [] {
    } else {
      hide Step, Boot, ProcessIds;
      ProcessIdsHold(calls[..|calls| - 1]);
      StepKeepsProcessIds(Run(Boot(), calls[..|calls| - 1]), calls[|calls| - 1]);
    }
  }

  /** However a run goes on after the termination of a process, that process stays inactive and no thread of it lives. */
  lemma {:induction false} TerminatedStaysGone(k: Kernel, p: nat, calls: seq<Call>)
    requires Shaped(k) && ProcessIds(k) && !k.halted && ActiveProcess(k.processes, p) && p != KERNEL_PROCESS
    ensures var k' := Run(Step(k, TerminateCall(p)), calls); ProcessIds(k') && Gone(k', p)
  {
    hide Step, ProcessIds, Gone, ActiveProcess;
    var k1 := Step(k, TerminateCall(p));
    if calls == [] {
      TerminationEnds(k, p);
      StepKeepsProcessIds(k, TerminateCall(p));
    } else {
      TerminatedStaysGone(k, p, calls[..|calls| - 1]);
      StepKeepsProcessIds(Run(k1, calls[..|calls| - 1]), calls[|calls| - 1]);
      GoneStaysGone(Run(k1, calls[..|calls| - 1]), calls[|calls| - 1], p);
    }
  }

  // ---- threads ----

  /** A thread that exits is finished, so it is never dispatched again; with nothing else to run the kernel stops. */
  lemma ExitedNeverRunsAgain(k: Kernel, calls: seq<Call>)
    requires Invariant(k) && !k.halted
    ensures var x, i, k1 := Current(k).id, k.current, Step(k, ExitCall);
            && k1.threads[i].id == x && k1.threads[i].state == Finished && (k1.halted <==> k1.current == i)
            && var k' := Run(k1, calls);
               forall j | 0 <= j < MAX_THREADS && k'.threads[j].id == x :: k'.threads[j].state != Running && (j == k'.current ==> k'.halted)
  {
    var i, k1 := k.current, Step(k, ExitCall);
    ExitFinishes(k);
    StepKeepsInvariant(k, ExitCall);
    hide Step, Run, Invariant;
    FinishedNeverRunsAgain(k1, i, calls);
  }

  lemma ExitFinishes(k: Kernel)
    requires Shaped(k)
    ensures var k' := Exit(k);
            k'.threads[k.current].id == Current(k).id && k'.threads[k.current].state == Finished && (k'.halted <==> k'.current == k.current)
  {
    hide Select, Slot;
    SelectionIsCalm(WithCurrent(k, Current(k).(state := Finished)));
    Dispatching.SelectCoversTable(BeforeSelection(WithCurrent(k, Current(k).(state := Finished))).threads, k.current);
  }

  /** Joining a finished thread empties its slot and does nothing else. */
  lemma JoinReaps(k: Kernel, i: nat)
    requires Shaped(k) && !k.halted && i < MAX_THREADS && i != k.current && k.threads[i].state == Finished
    ensures Step(k, JoinCall(i)) == k.(threads := k.threads[i := k.threads[i].(state := Empty)])
  {
  }

  lemma FinishedStays(k: Kernel, c: Call, i: nat)
    requires Invariant(k) && i < MAX_THREADS && k.threads[i].state == Finished
    requires c != JoinCall(i) && c != TerminateCall(k.threads[i].process)
    ensures var t' := Step(k, c).threads[i]; t'.state == Finished && t'.id == k.threads[i].id && t'.process == k.threads[i].process
  {
    assert Shaped(k) && (i == k.current ==> k.halted);
    hide Invariant;
    if k.halted {
    } else if Switches(c) {
      hide Step;
      SwitchingStep(k, c);
    } else {
      hide FindThread, FindMutex, FindProcess, FindProcessSlot, FindThreadSlot, FindMutexSlot, NextOwner, FutexWake;
      match c
      case FutexWakeCall(address, count) => FutexWakeEffect(k, address, count);
      case _ =>
    }
  }

  /** Over every run a finished thread keeps its slot until it is joined or its process is terminated. */
  lemma {:induction false} FinishedKeepsSlot(k: Kernel, i: nat, calls: seq<Call>)
    requires Invariant(k) && i < MAX_THREADS && k.threads[i].state == Finished
    requires forall c | c in calls :: c != JoinCall(i) && c != TerminateCall(k.threads[i].process)
    ensures var t' := Run(k, calls).threads[i]; t'.state == Finished && t'.id == k.threads[i].id && t'.process == k.threads[i].process
    ensures Invariant(Run(k, calls))
  {
    assert Shaped(k);
    hide Step, Invariant;
    if calls != [] {
      var before, c := calls[..|calls| - 1], calls[|calls| - 1];
      assert c in calls && forall d | d in before :: d in calls;
      FinishedKeepsSlot(k, i, before);
      FinishedStays(Run(k, before), c, i);
      StepKeepsInvariant(Run(k, before), c);
    }
  }
}
