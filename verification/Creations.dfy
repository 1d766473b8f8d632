/** What creating a process, a thread or a mutex makes, and exactly when it fails. */
module Creations {
  import opened Threads
  import opened SchedulerSafety
  import opened Lifecycles
  import opened Endings

  /** Slot i is the first that is free. */
  predicate FirstFree(taken: seq<bool>, i: nat) {
    i < |taken| && !taken[i] && forall j | 0 <= j < i :: taken[j]
  }

  function Taken(ts: seq<Thread>): (r: seq<bool>)
    ensures |r| == |ts| && forall i | 0 <= i < |ts| :: r[i] == (ts[i].state != Empty)
  {
    seq(|ts|, i requires 0 <= i < |ts| => ts[i].state != Empty)
  }

  /**
   A thread is created exactly if its process is active, a stack can be had and a slot is free. It is
   ready, with an id that no slot ever had and nothing of the slot's past; all else is as before.
   */
  lemma NewThread(k: Kernel, process: nat, possible: bool)
    requires Invariant(k)
    ensures var k' := CreateThread(k, process, possible);
            if possible && ActiveProcess(k.processes, process) && exists i :: 0 <= i < MAX_THREADS && k.threads[i].state == Empty then
              && (forall i | 0 <= i < MAX_THREADS :: k.threads[i].id < k.nextThread)
              && exists i: nat :: (
                   && FirstFree(Taken(k.threads), i)
                   && k' == k.(threads := k.threads[i := Thread(k.nextThread, process, Ready, 0, 0, {}, {}, DEFAULT_PRIORITY, 0)], nextThread := k.nextThread + 1))
            else k' == k
  {
    hide FindThreadSlot, FindProcess, OneRunning, NoOrphan, MutexTable, OneQueuePerAddress;
    var p, i := FindProcess(k.processes, process), FindThreadSlot(k.threads);
    if p < MAX_PROCESSES { ActiveWitness(k.processes, p); }
    if i < MAX_THREADS { assert FirstFree(Taken(k.threads), i); }
  }

  /** A process is created exactly if a slot is free; it is active, under an id no process ever had. */
  lemma NewProcess(k: Kernel)
    requires Shaped(k) && ProcessIds(k)
    ensures var k' := CreateProcess(k);
            if exists p :: 0 <= p < MAX_PROCESSES && !k.processes[p].active then
              && !ActiveProcess(k.processes, k.nextProcess) && ActiveProcess(k'.processes, k.nextProcess) && k'.nextProcess == k.nextProcess + 1
              && (forall id :: ActiveProcess(k'.processes, id) <==> ActiveProcess(k.processes, id) || id == k.nextProcess)
              && k' == k.(processes := k'.processes, nextProcess := k'.nextProcess)
            else k' == k
  {
    hide FindProcessSlot;
    var p := FindProcessSlot(k.processes);
    if p < MAX_PROCESSES {
      var new' := Process(k.nextProcess, true);
      SlotUpdateKeepsActive(k.processes, p, new');
      ActiveWitness(k.processes[p := new'], p);
      forall id | ActiveProcess(k.processes[p := new'], id) ensures ActiveProcess(k.processes, id) || id == k.nextProcess {
        var q :| 0 <= q < MAX_PROCESSES && k.processes[p := new'][q].active && k.processes[p := new'][q].id == id;
        if q != p { assert k.processes[q] == k.processes[p := new'][q]; }
      }
    }
  }

  ghost predicate HasMutex(ms: seq<Mutex>, id: nat, locked: bool, owner: nat) {
    exists m :: 0 <= m < |ms| && ms[m] == Mutex(id, true, locked, owner)
  }

  /** A mutex is created exactly if a slot is free; it is unlocked, under an id no mutex ever had, and every other mutex stays. */
  lemma NewMutex(k: Kernel)
    requires Invariant(k)
    ensures var k' := CreateMutex(k);
            if exists m :: 0 <= m < MAX_MUTEXES && !k.mutexes[m].active then
              && (forall m | 0 <= m < MAX_MUTEXES && k.mutexes[m].active :: k.mutexes[m].id < k.nextMutex && k'.mutexes[m] == k.mutexes[m])
              && HasMutex(k'.mutexes, k.nextMutex, false, 0) && k'.nextMutex == k.nextMutex + 1
              && k' == k.(mutexes := k'.mutexes, nextMutex := k'.nextMutex)
            else k' == k
  {
    hide FindMutexSlot, Ids, OneRunning, NoOrphan, OneQueuePerAddress;
    var m := FindMutexSlot(k.mutexes);
    if m < MAX_MUTEXES { assert CreateMutex(k).mutexes[m] == Mutex(k.nextMutex, true, false, 0); }
  }
}
