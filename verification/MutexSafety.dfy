/** Mutexes over whole runs: no waiter is forgotten, and ownership moves only by the owner's unlock. */
module MutexSafety {
  import opened Threads
  import opened SchedulerSafety

  ghost predicate HeldByAnother(ms: seq<Mutex>, id: nat, thread: nat) {
    exists j :: 0 <= j < |ms| && ms[j].active && ms[j].id == id && ms[j].locked && ms[j].owner != thread
  }

  /** A thread blocked on a mutex waits for one that a different thread holds. */
  ghost predicate NoLostWakeup(ts: seq<Thread>, ms: seq<Mutex>) {
    forall i | 0 <= i < |ts| :: ts[i].state == Blocked && ts[i].waitingMutex != 0 ==> HeldByAnother(ms, ts[i].waitingMutex, ts[i].id)
  }

  lemma CalmKeepsNoLostWakeup(ts: seq<Thread>, ts': seq<Thread>, ms: seq<Mutex>)
    requires NoLostWakeup(ts, ms) && CalmTable(ts, ts')
    ensures NoLostWakeup(ts', ms)
  {
    hide HeldByAnother;
  }

  lemma BlockKeepsNoLostWakeup(k: Kernel, t: Thread)
    requires Shaped(k) && NoLostWakeup(k.threads, k.mutexes) && t.id == Current(k).id
    requires t.state == Blocked && t.waitingMutex != 0 ==> HeldByAnother(k.mutexes, t.waitingMutex, t.id)
    ensures NoLostWakeup(Yield(WithCurrent(k, t)).threads, Yield(WithCurrent(k, t)).mutexes)
  {
    hide HeldByAnother, Yield;
    YieldIsCalm(WithCurrent(k, t));
    CalmKeepsNoLostWakeup(WithCurrent(k, t).threads, Yield(WithCurrent(k, t)).threads, k.mutexes);
  }

  /** Locking a free mutex, or making a new one, leaves every held mutex held. */
  lemma HeldStaysHeld(ms: seq<Mutex>, m: nat, new': Mutex, id: nat, thread: nat)
    requires m < |ms| && HeldByAnother(ms, id, thread) && (!ms[m].active || !ms[m].locked)
    ensures HeldByAnother(ms[m := new'], id, thread)
  {
    var j :| 0 <= j < |ms| && ms[j].active && ms[j].id == id && ms[j].locked && ms[j].owner != thread;
    assert ms[m := new'][j] == ms[j];
  }

  lemma UpdateKeepsNoLostWakeup(ts: seq<Thread>, ms: seq<Mutex>, m: nat, new': Mutex)
    requires m < |ms| && NoLostWakeup(ts, ms) && (!ms[m].active || !ms[m].locked)
    ensures NoLostWakeup(ts, ms[m := new'])
  {
    forall i | 0 <= i < |ts| && ts[i].state == Blocked && ts[i].waitingMutex != 0
      ensures HeldByAnother(ms[m := new'], ts[i].waitingMutex, ts[i].id)
    {
      HeldStaysHeld(ms, m, new', ts[i].waitingMutex, ts[i].id);
    }
  }

  lemma LockKeepsNoLostWakeup(k: Kernel, id: nat)
    requires Invariant(k) && NoLostWakeup(k.threads, k.mutexes)
    ensures NoLostWakeup(Lock(k, id).threads, Lock(k, id).mutexes)
  {
    hide Yield, FindMutex, NoLostWakeup, HeldByAnother;
    var m := FindMutex(k.mutexes, id);
    if m < MAX_MUTEXES {
      var mutex := k.mutexes[m];
      if !mutex.locked {
        UpdateKeepsNoLostWakeup(k.threads, k.mutexes, m, mutex.(locked := true, owner := Current(k).id));
      } else if mutex.owner != Current(k).id {
        HeldWitness(k.mutexes, m, Current(k).id);
        BlockKeepsNoLostWakeup(k, Current(k).(state := Blocked, waitingMutex := id));
      }
    }
  }

  lemma HeldWitness(ms: seq<Mutex>, m: nat, thread: nat)
    requires m < |ms| && ms[m].active && ms[m].locked && ms[m].owner != thread
    ensures HeldByAnother(ms, ms[m].id, thread)
  {
  }

  lemma UnlockKeepsNoLostWakeup(k: Kernel, id: nat)
    requires Invariant(k) && NoLostWakeup(k.threads, k.mutexes)
    ensures NoLostWakeup(Unlock(k, id).threads, Unlock(k, id).mutexes)
  {
    hide FindMutex, NextOwner;
    var k' := Unlock(k, id);
    var m := FindMutex(k.mutexes, id);
    if m < MAX_MUTEXES && k.mutexes[m].owner == Current(k).id {
      forall i | 0 <= i < MAX_THREADS && k'.threads[i].state == Blocked && k'.threads[i].waitingMutex != 0
        ensures HeldByAnother(k'.mutexes, k'.threads[i].waitingMutex, k'.threads[i].id)
      {
        var t := k.threads[i];
        assert k'.threads[i] == t;
        var j :| 0 <= j < MAX_MUTEXES && k.mutexes[j].active && k.mutexes[j].id == t.waitingMutex && k.mutexes[j].locked && k.mutexes[j].owner != t.id;
        var next := NextOwner(k.threads, id, MAX_THREADS);
        if j == m {
          assert WaitsFor(t, id);
          assert next >= 0 && next != i && k.threads[next].id != t.id;
        }
        HeldWitness(k'.mutexes, j, t.id);
      }
    }
  }

  lemma WakeKeepsNoLostWakeup(k: Kernel, address: nat, count: nat)
    requires Invariant(k) && NoLostWakeup(k.threads, k.mutexes)
    ensures NoLostWakeup(FutexWake(k, address, count).threads, FutexWake(k, address, count).mutexes)
  {
    hide FindQueue, WakeWaiters, HeldByAnother, Queued;
    var q := FindQueue(k.futexes, address);
    if address != 0 && count != 0 && q < MAX_FUTEXES {
      WakeOnlyReadies(k.threads, k.futexes[q].waiters, count);
    }
  }

  /** The mutex the current thread last waited for is either cleared or held by another thread. */
  ghost predicate WaitIsCurrent(k: Kernel)
    requires Shaped(k)
  {
    Current(k).waitingMutex == 0 || HeldByAnother(k.mutexes, Current(k).waitingMutex, Current(k).id)
  }

  /**
   A futex wait blocks without touching `waitingMutex`. It keeps the guarantee exactly when that
   field does not name a mutex the thread is no longer waiting for.
   */
  lemma FutexWaitExact(k: Kernel, address: nat, matches: bool)
    requires Invariant(k) && NoLostWakeup(k.threads, k.mutexes)
    ensures var k' := FutexWait(k, address, matches);
            NoLostWakeup(k'.threads, k'.mutexes) <==> !Joins(k, address, matches) || WaitIsCurrent(k)
  {
    hide Yield, QueueToJoin, HeldByAnother;
    if Joins(k, address, matches) {
      var q := QueueToJoin(k.futexes, address, MAX_FUTEXES);
      var queue := if k.futexes[q].active then k.futexes[q] else Futex(address, [], true);
      var k1 := k.(futexes := k.futexes[q := queue.(waiters := queue.waiters + [Current(k).id])]);
      var t := Current(k).(state := Blocked);
      var w := WithCurrent(k1, t);
      YieldIsCalm(w);
      assert w.threads[k.current] == t;
      if WaitIsCurrent(k) { BlockKeepsNoLostWakeup(k1, t); }
    }
  }

  ghost predicate Fair(k: Kernel, c: Call)
    requires Shaped(k)
  {
    c.FutexWaitCall? && !k.halted && Joins(k, c.address, c.matches) ==> WaitIsCurrent(k)
  }

  lemma StepKeepsNoLostWakeup(k: Kernel, c: Call)
    requires Invariant(k) && NoLostWakeup(k.threads, k.mutexes) && Fair(k, c)
    ensures NoLostWakeup(Step(k, c).threads, Step(k, c).mutexes)
  {
    hide Yield, FutexWait, FutexWake, Lock, Unlock, HeldByAnother, NoOrphan, FindThread, FindProcess, FindProcessSlot, FindThreadSlot;
    if !k.halted {
      match c
      case LockCall(id) => LockKeepsNoLostWakeup(k, id);
      case UnlockCall(id) => UnlockKeepsNoLostWakeup(k, id);
      case FutexWaitCall(address, matches) => FutexWaitExact(k, address, matches);
      case FutexWakeCall(address, count) => WakeKeepsNoLostWakeup(k, address, count);
      case YieldCall => YieldKeepsNoLostWakeup(k);
      case JoinCall(slot) => YieldKeepsNoLostWakeup(k);
      case ExitCall => BlockKeepsNoLostWakeup(k, Current(k).(state := Finished));
      case SleepCall(ticks) => BlockKeepsNoLostWakeup(k, Current(k).(wakeTick := k.tick + ticks, state := Sleeping));
      case CreateMutexCall =>
        var m := FindMutexSlot(k.mutexes);
        if m < MAX_MUTEXES { UpdateKeepsNoLostWakeup(k.threads, k.mutexes, m, Mutex(k.nextMutex, true, false, 0)); }
      case _ =>
    }
  }

  lemma YieldKeepsNoLostWakeup(k: Kernel)
    requires Shaped(k) && NoLostWakeup(k.threads, k.mutexes)
    ensures NoLostWakeup(Yield(k).threads, Yield(k).mutexes)
  {
    hide Yield, HeldByAnother;
    YieldIsCalm(k);
    CalmKeepsNoLostWakeup(k.threads, Yield(k).threads, k.mutexes);
  }

  /** Every futex wait of the run that joins a queue is made by a thread whose mutex wait is current. */
  ghost predicate FairRun(k: Kernel, calls: seq<Call>)
    requires Shaped(k)
  {
    calls == [] || (FairRun(k, calls[..|calls| - 1]) && Fair(Run(k, calls[..|calls| - 1]), calls[|calls| - 1]))
  }

  lemma {:induction false} NoLostWakeupHolds(calls: seq<Call>)
    requires Shaped(Boot()) && FairRun(Boot(), calls)
    ensures var k := Run(Boot(), calls); NoLostWakeup(k.threads, k.mutexes)
  {
    hide Step, Fair, NoLostWakeup, Invariant, Boot;
    if calls == [] {
      BootIsFree();
    } else {
      var before := calls[..|calls| - 1];
      NoLostWakeupHolds(before);
      InvariantHolds(before);
      StepKeepsNoLostWakeup(Run(Boot(), before), calls[|calls| - 1]);
    }
  }

  lemma BootIsFree()
    ensures NoLostWakeup(Boot().threads, Boot().mutexes) && Shaped(Boot())
    ensures forall q | 0 <= q < MAX_FUTEXES :: !Boot().futexes[q].active
  {
  }

  /** Without futex waits every blocked thread waits for a mutex held by another thread. */
  lemma {:induction false} BlockedOnHeldMutexWithoutFutexes(calls: seq<Call>)
    requires forall c | c in calls :: !c.FutexWaitCall?
    ensures Shaped(Boot())
    ensures var k := Run(Boot(), calls);
            forall i | 0 <= i < MAX_THREADS && k.threads[i].state == Blocked ::
              HeldByAnother(k.mutexes, k.threads[i].waitingMutex, k.threads[i].id)
  {
    hide Step, NoLostWakeup, Boot, HeldByAnother;
    InvariantHolds(calls);
    NoFutexRunIsFair(calls);
    NoLostWakeupHolds(calls);
    var k := Run(Boot(), calls);
    forall i | 0 <= i < MAX_THREADS && k.threads[i].state == Blocked
      ensures HeldByAnother(k.mutexes, k.threads[i].waitingMutex, k.threads[i].id)
    {
      BlockedIsHeld(k, i);
    }
  }

  lemma BlockedIsHeld(k: Kernel, i: nat)
    requires Invariant(k) && NoLostWakeup(k.threads, k.mutexes)
    requires forall q | 0 <= q < MAX_FUTEXES :: !k.futexes[q].active
    requires i < MAX_THREADS && k.threads[i].state == Blocked
    ensures HeldByAnother(k.mutexes, k.threads[i].waitingMutex, k.threads[i].id)
  {
  }

  lemma {:induction false} NoFutexRunIsFair(calls: seq<Call>)
    requires forall c | c in calls :: !c.FutexWaitCall?
    requires Shaped(Boot())
    ensures FairRun(Boot(), calls)
    ensures forall q | 0 <= q < MAX_FUTEXES :: !Run(Boot(), calls).futexes[q].active
  {
    hide Step, Boot;
    if calls == [] {
      BootIsFree();
    } else {
      NoFutexRunIsFair(calls[..|calls| - 1]);
      QueuesStayClosed(Run(Boot(), calls[..|calls| - 1]), calls[|calls| - 1]);
    }
  }

  lemma QueuesStayClosed(k: Kernel, c: Call)
    requires Shaped(k) && !c.FutexWaitCall? && forall q | 0 <= q < MAX_FUTEXES :: !k.futexes[q].active
    ensures forall q | 0 <= q < MAX_FUTEXES :: !Step(k, c).futexes[q].active
  {
    TablesKept(k, c);
  }

  /** Only futex calls touch the queues, only mutex calls the mutexes, and only two calls the processes. */
  lemma TablesKept(k: Kernel, c: Call)
    requires Shaped(k)
    ensures !c.FutexWaitCall? && !c.FutexWakeCall? ==> Step(k, c).futexes == k.futexes
    ensures !c.LockCall? && !c.UnlockCall? && !c.CreateMutexCall? ==> Step(k, c).mutexes == k.mutexes
    ensures !c.CreateProcessCall? && !c.TerminateCall? ==> Step(k, c).processes == k.processes && Step(k, c).nextProcess == k.nextProcess
  {
    hide Yield, FindThread, FindMutex, FindProcess, FindProcessSlot, FindThreadSlot, FindMutexSlot, NextOwner, FutexWait, FindQueue, WakeWaiters, Woken;
    match c
    case YieldCall => YieldIsCalm(k);
    case JoinCall(slot) => YieldIsCalm(k);
    case ExitCall => YieldIsCalm(WithCurrent(k, Current(k).(state := Finished)));
    case SleepCall(ticks) => YieldIsCalm(WithCurrent(k, Current(k).(wakeTick := k.tick + ticks, state := Sleeping)));
    case LockCall(id) => YieldIsCalm(WithCurrent(k, Current(k).(state := Blocked, waitingMutex := id)));
    case FutexWaitCall(address, matches) => FutexWaitSwitches(k, address, matches);
    case _ =>
  }

  // ---- ownership ----

  /**
   A held mutex changes only by its owner's unlock. That unlock hands it to a waiter of the highest
   priority, lowest slot first among equals, and readies it; or, if nobody waits, frees it.
   */
  lemma OwnershipChangesOnlyByUnlock(k: Kernel, c: Call, m: nat)
    requires Invariant(k) && m < MAX_MUTEXES && k.mutexes[m].active && k.mutexes[m].locked
    ensures var k' := Step(k, c);
            k'.mutexes[m] != k.mutexes[m] ==>
              && c == UnlockCall(k.mutexes[m].id) && k.mutexes[m].owner == Current(k).id
              && k'.mutexes[m].active && k'.mutexes[m].id == k.mutexes[m].id
              && if k'.mutexes[m].locked then
                   exists w :: HandedTo(k, k', m, w)
                 else
                   forall i | 0 <= i < MAX_THREADS :: !WaitsFor(k.threads[i], k.mutexes[m].id)
  {
    hide Yield, FindMutex, FindMutexSlot, NextOwner, NoOrphan;
    TablesKept(k, c);
    if !k.halted {
      match c
      case LockCall(id) => YieldIsCalm(WithCurrent(k, Current(k).(state := Blocked, waitingMutex := id)));
      case UnlockCall(id) =>
        var next := NextOwner(k.threads, id, MAX_THREADS);
        if next >= 0 && Unlock(k, id).mutexes[m] != k.mutexes[m] {
          assert HandedTo(k, Unlock(k, id), m, next);
        }
      case _ =>
    }
  }

  /** The owner's unlock always does so: it never keeps the mutex for want of anything. */
  lemma UnlockHandsOrFrees(k: Kernel, m: nat)
    requires Invariant(k) && !k.halted && m < MAX_MUTEXES && k.mutexes[m].active && k.mutexes[m].locked && k.mutexes[m].owner == Current(k).id
    ensures var k' := Step(k, UnlockCall(k.mutexes[m].id));
            if exists i :: 0 <= i < MAX_THREADS && WaitsFor(k.threads[i], k.mutexes[m].id)
            then k'.mutexes[m].locked && exists w :: HandedTo(k, k', m, w)
            else k' == k.(mutexes := k.mutexes[m := k.mutexes[m].(locked := false, owner := 0)])
  {
    hide FindMutex, NextOwner, Ids, OneRunning, OneQueuePerAddress, NoOrphan;
    FindMutexFinds(k.mutexes, k.nextMutex, m);
    var id := k.mutexes[m].id;
    var next := NextOwner(k.threads, id, MAX_THREADS);
    if next >= 0 { assert HandedTo(k, Unlock(k, id), m, next); }
  }

  /** Anyone else's unlock, and one of a mutex that does not exist, changes nothing. */
  lemma OthersUnlockNothing(k: Kernel, id: nat)
    requires Invariant(k) && forall m | 0 <= m < MAX_MUTEXES && k.mutexes[m].active && k.mutexes[m].id == id :: k.mutexes[m].owner != Current(k).id
    ensures Unlock(k, id) == k
  {
    hide FindMutex, NextOwner;
  }

  ghost predicate HandedTo(k: Kernel, k': Kernel, m: nat, w: nat)
    requires Shaped(k) && Shaped(k') && m < MAX_MUTEXES
  {
    && w < MAX_THREADS && WaitsFor(k.threads[w], k.mutexes[m].id)
    && k'.mutexes[m].owner == k.threads[w].id
    && k'.threads == k.threads[w := k.threads[w].(state := Ready, waitingMutex := 0)]
    && forall j | 0 <= j < MAX_THREADS && WaitsFor(k.threads[j], k.mutexes[m].id) ::
         k.threads[j].priority < k.threads[w].priority || (k.threads[j].priority == k.threads[w].priority && w <= j)
  }

  /**
   While the owner of a mutex makes no call itself, nobody takes the mutex from it; so the thread a
   mutex was handed to still owns it when it runs on, and its pending lock call returns true.
   */
  lemma {:induction false} OwnershipSurvivesOthers(k: Kernel, calls: seq<Call>, m: nat)
    requires Invariant(k) && m < MAX_MUTEXES && k.mutexes[m].active && k.mutexes[m].locked
    requires forall n | 0 <= n < |calls| :: Current(Run(k, calls[..n])).id != k.mutexes[m].owner
    ensures var k' := Run(k, calls);
            && Invariant(k') && k'.mutexes[m] == k.mutexes[m]
            && (Current(k').id == k.mutexes[m].owner ==> LockReturns(k', k.mutexes[m].id))
  {
    hide Step, Current, Ids, OneRunning, OneQueuePerAddress, NoOrphan, FindMutex;
    if calls != [] {
      var last := |calls| - 1;
      forall n | 0 <= n < last ensures Current(Run(k, calls[..last][..n])).id != k.mutexes[m].owner {
        assert calls[..last][..n] == calls[..n];
      }
      OwnershipSurvivesOthers(k, calls[..last], m);
      OwnershipChangesOnlyByUnlock(Run(k, calls[..last]), calls[last], m);
      StepKeepsInvariant(Run(k, calls[..last]), calls[last]);
    }
  }

  lemma FindMutexFinds(ms: seq<Mutex>, next: nat, m: nat)
    requires MutexTable(ms, next) && m < |ms| && ms[m].active
    ensures FindMutex(ms, ms[m].id) == m
  {
  }

  /**
   A lock call on an existing mutex that no other thread holds takes it at once, without a switch,
   and returns true; on a missing mutex it changes nothing and returns false.
   */
  lemma LockGrants(k: Kernel, id: nat)
    requires Invariant(k) && !k.halted && !HeldByAnother(k.mutexes, id, Current(k).id)
    ensures var m, k' := FindMutex(k.mutexes, id), Lock(k, id);
            && k'.threads == k.threads && k'.current == k.current
            && LockReturns(k', id) == (m < MAX_MUTEXES)
            && if m == MAX_MUTEXES then k' == k else k'.mutexes[m].locked && k'.mutexes[m].owner == Current(k).id
  {
    hide Yield, NoOrphan, OneQueuePerAddress;
    var m := FindMutex(k.mutexes, id);
    if m < MAX_MUTEXES {
      LockKeepsInvariant(k, id);
      hide FindMutex;
      FindMutexFinds(Lock(k, id).mutexes, k.nextMutex, m);
    }
  }

  lemma FreeQueueToJoin(qs: seq<Futex>, address: nat, n: nat)
    requires 0 < n <= |qs| && forall q | 0 <= q < n :: !qs[q].active
    ensures QueueToJoin(qs, address, n) >= 0
  {
  }
}
