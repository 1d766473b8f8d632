/**
 Runs from start-up in which the scheduler breaks a promise: a thread left waiting for a free mutex,
 a lock call that returns without it, an arrival overtaken, a sleep cut short, and a live thread
 without a process. None needs more than two threads.
 */
module FailingRuns {
  import opened Threads
  import opened Dispatching
  import opened SchedulerSafety
  import opened MutexSafety
  import opened Lifecycles
  import opened FutexOrder
  import opened Sleeping

  // ---- two threads ----

  /** Threads 1 and 2 in the first two slots, the processor with one of them, and no other thread. */
  ghost predicate Duo(k: Kernel) {
    && Shaped(k) && !k.halted && k.current < 2 && k.threads[0].id == 1 && k.threads[1].id == 2
    && forall i | 2 <= i < MAX_THREADS :: k.threads[i].state == Empty
  }

  /** The thread that keeps its slot but not the processor. */
  predicate GivesWay(t: Thread, tick: nat) {
    t.state == Running || t.state == Blocked || (t.state == Sleeping && t.wakeTick > tick)
  }

  /** With one other thread, and that one ready, a yield by a thread that is not ready goes to it. */
  lemma YieldToTheOther(k: Kernel)
    requires Duo(k) && k.threads[1 - k.current].state == Ready && GivesWay(Current(k), k.tick + 1)
    ensures var me, other, k' := k.current, 1 - k.current, Yield(k);
            && Duo(k') && k'.current == other && SameTables(k, k') && k'.tick == k.tick + 1
            && k'.threads[other].state == Running
            && k'.threads[me].state == (if Current(k).state == Running then Ready else Current(k).state)
            && forall i | 0 <= i < 2 :: k'.threads[i].waitingMutex == k.threads[i].waitingMutex && k'.threads[i].process == k.threads[i].process
  {
    hide Select, Slot;
    SelectCoversTable(BeforeSelection(k).threads, k.current);
  }

  lemma OneMoreCall(k: Kernel, calls: seq<Call>, c: Call)
    requires Shaped(k)
    ensures Run(k, calls + [c]) == Step(Run(k, calls), c)
  {
    hide Step;
    assert (calls + [c])[..|calls + [c]| - 1] == calls;
  }

  // ---- a wake-up lost ----

  /** The first thread in state `s` with wait field `w`, the second in state `s'`. */
  ghost predicate Stage(k: Kernel, current: nat, s: ThreadState, w: nat, s': ThreadState) {
    && Duo(k) && k.current == current
    && k.threads[0].state == s && k.threads[0].waitingMutex == w && k.threads[1].state == s'
  }

  /** Mutex 1 is the only one. */
  ghost predicate OneMutex(k: Kernel, locked: bool, owner: nat) {
    |k.mutexes| == MAX_MUTEXES && k.mutexes[0] == Mutex(1, true, locked, owner) && forall i | 0 < i < MAX_MUTEXES :: !k.mutexes[i].active
  }

  ghost predicate NoQueue(qs: seq<Futex>) {
    |qs| == MAX_FUTEXES && forall q | 0 <= q < MAX_FUTEXES :: !qs[q].active && qs[q].waiters == []
  }

  /** The only queue is at this address, and thread 1 is alone in it. */
  ghost predicate OneQueue(qs: seq<Futex>, address: nat) {
    exists q :: 0 <= q < |qs| && |qs| == MAX_FUTEXES && qs[q] == Futex(address, [1], true)
                && forall j | 0 <= j < MAX_FUTEXES && j != q :: !qs[j].active && qs[j].waiters == []
  }

  lemma MutexOneIsFirst(k: Kernel, locked: bool, owner: nat)
    requires OneMutex(k, locked, owner)
    ensures FindMutex(k.mutexes, 1) == 0
  {
  }

  lemma TwoThreadsOneMutex()
    ensures Shaped(Boot())
    ensures var k := Run(Boot(), [CreateThreadCall(1, true), CreateMutexCall]);
            Stage(k, 0, Running, 0, Ready) && OneMutex(k, false, 0) && NoQueue(k.futexes)
  {
    var b := Boot();
    assert b.threads[0].state == Running && b.threads[1].state == Empty && b.processes[0] == Process(KERNEL_PROCESS, true);
    hide FindThreadSlot, FindProcess, FindMutexSlot, Boot, Run;
    assert FindThreadSlot(b.threads) == 1 && FindProcess(b.processes, 1) == 0;
    assert Run(b, []) == b by { RunNothing(b); }
    var k := Step(b, CreateThreadCall(1, true));
    OneMoreCall(b, [], CreateThreadCall(1, true));
    OneMoreCall(b, [CreateThreadCall(1, true)], CreateMutexCall);
    assert [] + [CreateThreadCall(1, true)] == [CreateThreadCall(1, true)];
    assert [CreateThreadCall(1, true)] + [CreateMutexCall] == [CreateThreadCall(1, true), CreateMutexCall];
    BootTables();
  }

  lemma RunNothing(k: Kernel)
    requires Shaped(k)
    ensures Run(k, []) == k
  {
  }

  lemma BootTables()
    ensures var b := Boot();
            && Shaped(b) && NoQueue(b.futexes) && (forall i | 0 <= i < MAX_MUTEXES :: !b.mutexes[i].active)
            && (forall i | 0 < i < MAX_THREADS :: b.threads[i] == NoThread) && b.nextThread == 2 && b.nextMutex == 1 && b.current == 0
            && b.threads[0] == NoThread.(id := 1, process := KERNEL_PROCESS, state := Running, priority := DEFAULT_PRIORITY)
            && !b.halted && b.tick == 0
  {
  }

  /** A futex wait by the first thread, whatever its wait field. */
  lemma FirstWaits(k: Kernel, address: nat, w: nat)
    requires Stage(k, 0, Running, w, Ready) && NoQueue(k.futexes) && address != 0
    ensures var k' := Step(k, FutexWaitCall(address, true));
            Stage(k', 1, Blocked, w, Running) && k'.mutexes == k.mutexes && OneQueue(k'.futexes, address)
  {
    hide Yield, QueueToJoin;
    FreeQueueToJoin(k.futexes, address, MAX_FUTEXES);
    var q := QueueToJoin(k.futexes, address, MAX_FUTEXES);
    var k1 := WithCurrent(k.(futexes := k.futexes[q := Futex(address, [1], true)]), Current(k).(state := Blocked));
    assert [] + [Current(k).id] == [1] && k1.futexes[q] == Futex(address, [1], true);
    assert Step(k, FutexWaitCall(address, true)) == Yield(k1);
    YieldToTheOther(k1);
  }

  lemma SecondLocks(k: Kernel, w: nat)
    requires Stage(k, 1, Blocked, w, Running) && OneMutex(k, false, 0)
    ensures var k' := Step(k, LockCall(1)); Stage(k', 1, Blocked, w, Running) && OneMutex(k', true, 2) && k'.futexes == k.futexes
  {
    hide FindMutex;
    MutexOneIsFirst(k, false, 0);
  }

  lemma SecondSignalsFirst(k: Kernel, w: nat)
    requires Stage(k, 1, Blocked, w, Running)
    ensures var k' := Step(k, SignalCall(1, 0)); Stage(k', 1, Ready, 0, Running) && k'.mutexes == k.mutexes && k'.futexes == k.futexes
  {
    hide FindThread;
    assert FindThread(k.threads, 1) == 0;
  }

  lemma SecondYields(k: Kernel, w: nat)
    requires Stage(k, 1, Ready, w, Running)
    ensures var k' := Step(k, YieldCall); Stage(k', 0, Running, w, Ready) && k'.mutexes == k.mutexes && k'.futexes == k.futexes
  {
    hide Yield;
    YieldToTheOther(k);
  }

  lemma FirstBlocksOnMutex(k: Kernel, w: nat)
    requires Stage(k, 0, Running, w, Ready) && OneMutex(k, true, 2)
    ensures var k' := Step(k, LockCall(1)); Stage(k', 1, Blocked, 1, Running) && k'.mutexes == k.mutexes && k'.futexes == k.futexes
  {
    hide Yield, FindMutex;
    MutexOneIsFirst(k, true, 2);
    YieldToTheOther(WithCurrent(k, Current(k).(state := Blocked, waitingMutex := 1)));
  }

  /** The old queue entry wakes the thread although it now waits for the mutex, and leaves its wait field. */
  lemma SecondWakesFirst(k: Kernel, address: nat, w: nat)
    requires Stage(k, 1, Blocked, w, Running) && OneQueue(k.futexes, address) && address != 0
    ensures var k' := Step(k, FutexWakeCall(address, 1)); Stage(k', 1, Ready, w, Running) && k'.mutexes == k.mutexes && NoQueue(k'.futexes)
  {
    hide FindThread, FindQueue;
    var q :| 0 <= q < |k.futexes| && k.futexes[q] == Futex(address, [1], true)
             && forall j | 0 <= j < MAX_FUTEXES && j != q :: !k.futexes[j].active && k.futexes[j].waiters == [];
    assert FindQueue(k.futexes, address) == q && FindThread(k.threads, 1) == 0;
    var r := WakeWaiters(k.threads, [1], 1);
    assert r == WakeResult(Readied(k.threads, 1), [], 1);
  }

  lemma SecondUnlocks(k: Kernel, w: nat)
    requires Stage(k, 1, Ready, w, Running) && OneMutex(k, true, 2)
    ensures var k' := Step(k, UnlockCall(1)); Stage(k', 1, Ready, w, Running) && OneMutex(k', false, 0) && k'.futexes == k.futexes
  {
    hide FindMutex, NextOwner;
    MutexOneIsFirst(k, true, 2);
    assert NextOwner(k.threads, 1, MAX_THREADS) < 0;
  }

  const ToTheLock: seq<Call> := [CreateThreadCall(1, true), CreateMutexCall, FutexWaitCall(4096, true), LockCall(1), SignalCall(1, 0), YieldCall, LockCall(1)]

  const ToTheStaleWait: seq<Call> := ToTheLock + [FutexWakeCall(4096, 1), UnlockCall(1), YieldCall, FutexWaitCall(8192, true)]

  lemma AfterTheLock()
    ensures Shaped(Boot())
    ensures var k := Run(Boot(), ToTheLock); Stage(k, 1, Blocked, 1, Running) && OneMutex(k, true, 2) && OneQueue(k.futexes, 4096)
  {
    TwoThreadsOneMutex();
    hide Run, Boot, Step, Stage, OneMutex, NoQueue, OneQueue;
    var c := ToTheLock;
    assert c[..2] == [CreateThreadCall(1, true), CreateMutexCall];
    RunStep(c, 2);
    FirstWaits(Run(Boot(), c[..2]), 4096, 0);
    RunStep(c, 3);
    assert OneMutex(Run(Boot(), c[..3]), false, 0) by { SameMutexes(Run(Boot(), c[..2]), Run(Boot(), c[..3]), false, 0); }
    SecondLocks(Run(Boot(), c[..3]), 0);
    RunStep(c, 4);
    SecondSignalsFirst(Run(Boot(), c[..4]), 0);
    RunStep(c, 5);
    SecondYields(Run(Boot(), c[..5]), 0);
    RunStep(c, 6);
    SameMutexes(Run(Boot(), c[..4]), Run(Boot(), c[..6]), true, 2);
    FirstBlocksOnMutex(Run(Boot(), c[..6]), 0);
    SameMutexes(Run(Boot(), c[..6]), Run(Boot(), c[..7]), true, 2);
    assert c[..7] == c;
  }

  lemma RunStep(calls: seq<Call>, n: nat)
    requires n < |calls|
    ensures Shaped(Boot()) && Run(Boot(), calls[..n + 1]) == Step(Run(Boot(), calls[..n]), calls[n])
  {
    hide Step, Run;
    assert Shaped(Boot());
    hide Boot;
    assert calls[..n + 1] == calls[..n] + [calls[n]];
    OneMoreCall(Boot(), calls[..n], calls[n]);
  }

  lemma SameMutexes(k: Kernel, k': Kernel, locked: bool, owner: nat)
    requires OneMutex(k, locked, owner) && k'.mutexes == k.mutexes
    ensures OneMutex(k', locked, owner)
  {
  }

  /**
   The failing case is reached from start-up: a wake through an old queue entry leaves the wait field
   stale, and the next futex wait then blocks the thread on a mutex that nobody holds.
   */
  lemma StaleWaitLosesWakeup()
    ensures Shaped(Boot())
    ensures var k := Run(Boot(), ToTheStaleWait);
            var m := FindMutex(k.mutexes, 1);
            !NoLostWakeup(k.threads, k.mutexes) && WaitsFor(k.threads[0], 1) && m < MAX_MUTEXES && !k.mutexes[m].locked
  {
    AfterTheLock();
    hide Run, Boot, Step, Stage, OneMutex, NoQueue, OneQueue;
    var c := ToTheStaleWait;
    assert c[..7] == ToTheLock;
    RunStep(c, 7);
    SecondWakesFirst(Run(Boot(), c[..7]), 4096, 1);
    RunStep(c, 8);
    SameMutexes(Run(Boot(), c[..7]), Run(Boot(), c[..8]), true, 2);
    SecondUnlocks(Run(Boot(), c[..8]), 1);
    RunStep(c, 9);
    SecondYields(Run(Boot(), c[..9]), 1);
    RunStep(c, 10);
    FirstWaits(Run(Boot(), c[..10]), 8192, 1);
    SameMutexes(Run(Boot(), c[..9]), Run(Boot(), c[..11]), false, 0);
    assert c[..11] == c;
    WaitForFreeMutex(Run(Boot(), c));
  }

  lemma WaitForFreeMutex(k: Kernel)
    requires Stage(k, 1, Blocked, 1, Running) && OneMutex(k, false, 0)
    ensures !NoLostWakeup(k.threads, k.mutexes) && WaitsFor(k.threads[0], 1) && FindMutex(k.mutexes, 1) == 0 && !k.mutexes[0].locked
  {
    MutexOneIsFirst(k, false, 0);
    assert !HeldByAnother(k.mutexes, 1, 1);
  }

  // ---- a lock call that fails ----

  const ToTheInterruption: seq<Call> := ToTheLock + [FutexWakeCall(4096, 1), YieldCall]

  /** The wait of the first thread's lock call is ended by the old queue entry: it runs on, and does not own the mutex. */
  lemma InterruptedLockFails()
    ensures Shaped(Boot())
    ensures var k := Run(Boot(), ToTheInterruption);
            Current(k).id == 1 && Current(k).state == Running && FindMutex(k.mutexes, 1) < MAX_MUTEXES && !LockReturns(k, 1)
  {
    AfterTheLock();
    hide Run, Boot, Step, Stage, OneMutex, NoQueue, OneQueue;
    var c := ToTheInterruption;
    assert c[..7] == ToTheLock;
    RunStep(c, 7);
    SecondWakesFirst(Run(Boot(), c[..7]), 4096, 1);
    RunStep(c, 8);
    SecondYields(Run(Boot(), c[..8]), 1);
    assert c[..9] == c;
    SameMutexes(Run(Boot(), c[..7]), Run(Boot(), c), true, 2);
    OwnedByTheOther(Run(Boot(), c), 1);
  }

  lemma OwnedByTheOther(k: Kernel, w: nat)
    requires Stage(k, 0, Running, w, Ready) && OneMutex(k, true, 2)
    ensures Current(k).id == 1 && Current(k).state == Running && FindMutex(k.mutexes, 1) < MAX_MUTEXES && !LockReturns(k, 1)
  {
    MutexOneIsFirst(k, true, 2);
  }

  // ---- an arrival overtaken ----

  /** The only queue is at this address, with these ids. */
  ghost predicate QueueOf(qs: seq<Futex>, address: nat, ids: seq<nat>) {
    exists q :: 0 <= q < |qs| && |qs| == MAX_FUTEXES && qs[q] == Futex(address, ids, true)
                && forall j | 0 <= j < MAX_FUTEXES && j != q :: !qs[j].active
  }

  lemma JoinsOnlyQueue(k: Kernel, address: nat, ids: seq<nat>)
    requires Duo(k) && QueueOf(k.futexes, address, ids) && |ids| < MAX_THREADS && address != 0
    ensures Joins(k, address, true) && 0 <= QueueToJoin(k.futexes, address, MAX_FUTEXES) < |k.futexes|
    ensures var q := QueueToJoin(k.futexes, address, MAX_FUTEXES);
            k.futexes[q] == Futex(address, ids, true) && QueueOf(k.futexes[q := Futex(address, ids + [Current(k).id], true)], address, ids + [Current(k).id])
    ensures FutexWait(k, address, true) ==
              var q := QueueToJoin(k.futexes, address, MAX_FUTEXES);
              Yield(WithCurrent(k.(futexes := k.futexes[q := Futex(address, ids + [Current(k).id], true)]), Current(k).(state := Blocked)))
  {
    hide Yield, QueueToJoin;
    var q :| 0 <= q < |k.futexes| && k.futexes[q] == Futex(address, ids, true) && forall j | 0 <= j < MAX_FUTEXES && j != q :: !k.futexes[j].active;
    FoundQueue(k.futexes, address, MAX_FUTEXES);
    assert QueueToJoin(k.futexes, address, MAX_FUTEXES) == q;
    var after := k.futexes[q := Futex(address, ids + [Current(k).id], true)];
    assert after[q] == Futex(address, ids + [Current(k).id], true);
  }

  /** The second thread waits where the first once did, and the first runs. */
  lemma SecondJoins(k: Kernel, address: nat, w: nat)
    requires Stage(k, 1, Ready, w, Running) && QueueOf(k.futexes, address, [1]) && address != 0
    ensures var k' := Step(k, FutexWaitCall(address, true)); Stage(k', 0, Running, w, Blocked) && QueueOf(k'.futexes, address, [1, 2])
  {
    hide Yield, Joins, QueueOf, QueueToJoin;
    JoinsOnlyQueue(k, address, [1]);
    assert [1] + [Current(k).id] == [1, 2];
    var q := QueueToJoin(k.futexes, address, MAX_FUTEXES);
    YieldToTheOther(WithCurrent(k.(futexes := k.futexes[q := Futex(address, [1, 2], true)]), Current(k).(state := Blocked)));
  }

  /** With no other thread ready, a blocked thread that yields just goes on. */
  lemma YieldToNobody(k: Kernel)
    requires Duo(k) && Current(k).state == Blocked && k.threads[1 - k.current].state == Blocked
    ensures Duo(Yield(k)) && Yield(k).current == k.current && SameTables(k, Yield(k))
    ensures forall i | 0 <= i < 2 :: Yield(k).threads[i].state == Blocked && Yield(k).threads[i].waitingMutex == k.threads[i].waitingMutex
  {
    hide Select, Slot;
    SelectCoversTable(BeforeSelection(k).threads, k.current);
  }

  lemma FirstJoinsAgain(k: Kernel, address: nat, w: nat)
    requires Stage(k, 0, Running, w, Blocked) && QueueOf(k.futexes, address, [1, 2]) && address != 0
    ensures var k' := Step(k, FutexWaitCall(address, true)); Stage(k', 0, Blocked, w, Blocked) && QueueOf(k'.futexes, address, [1, 2, 1])
  {
    hide Yield, Joins, QueueOf, QueueToJoin;
    JoinsOnlyQueue(k, address, [1, 2]);
    assert [1, 2] + [Current(k).id] == [1, 2, 1];
    var q := QueueToJoin(k.futexes, address, MAX_FUTEXES);
    YieldToNobody(WithCurrent(k.(futexes := k.futexes[q := Futex(address, [1, 2, 1], true)]), Current(k).(state := Blocked)));
  }

  lemma FirstIsWoken(k: Kernel, address: nat, w: nat)
    requires Stage(k, 0, Blocked, w, Blocked) && QueueOf(k.futexes, address, [1, 2, 1]) && address != 0
    ensures Stage(Step(k, FutexWakeCall(address, 1)), 0, Ready, w, Blocked)
  {
    hide FindThread, FindQueue;
    var ids := [1, 2, 1];
    var q :| 0 <= q < |k.futexes| && k.futexes[q] == Futex(address, ids, true) && forall j | 0 <= j < MAX_FUTEXES && j != q :: !k.futexes[j].active;
    assert FindQueue(k.futexes, address) == q && FindThread(k.threads, 1) == 0;
    assert WakeWaiters(Readied(k.threads, 1), ids[1..], 0) == WakeResult(Readied(k.threads, 1), ids[1..], 0);
    assert WakeWaiters(k.threads, ids, 1) == WakeResult(Readied(k.threads, 1), ids[1..], 1);
  }

  const ToTheOvertaking: seq<Call> :=
    [CreateThreadCall(1, true), CreateMutexCall, FutexWaitCall(4096, true), SignalCall(1, 0), FutexWaitCall(4096, true), FutexWaitCall(4096, true)]

  /**
   An old entry lets a thread overtake: the first thread's wait was ended by a signal, the second
   then joined the queue, and the first joined again after it; but one wake readies the first.
   */
  lemma OldEntryOvertakes()
    ensures Shaped(Boot())
    ensures var k := Run(Boot(), ToTheOvertaking);
            var k' := Step(k, FutexWakeCall(4096, 1));
            && QueueOf(k.futexes, 4096, [1, 2, 1]) && k.threads[0].id == 1 && k.threads[1].id == 2
            && k.threads[0].state == k.threads[1].state == Blocked
            && k'.threads[0].state == Ready && k'.threads[1].state == Blocked
  {
    TwoThreadsOneMutex();
    hide Run, Boot, Step, Stage, OneMutex, NoQueue, OneQueue, QueueOf;
    var c := ToTheOvertaking;
    assert c[..2] == [CreateThreadCall(1, true), CreateMutexCall];
    RunStep(c, 2);
    FirstWaits(Run(Boot(), c[..2]), 4096, 0);
    RunStep(c, 3);
    SecondSignalsFirst(Run(Boot(), c[..3]), 0);
    OneIsQueueOf(Run(Boot(), c[..4]).futexes, 4096);
    RunStep(c, 4);
    SecondJoins(Run(Boot(), c[..4]), 4096, 0);
    RunStep(c, 5);
    FirstJoinsAgain(Run(Boot(), c[..5]), 4096, 0);
    assert c[..6] == c;
    FirstIsWoken(Run(Boot(), c), 4096, 0);
    StageStates(Run(Boot(), c), Blocked, Blocked);
    StageStates(Step(Run(Boot(), c), FutexWakeCall(4096, 1)), Ready, Blocked);
  }

  lemma OneIsQueueOf(qs: seq<Futex>, address: nat)
    requires OneQueue(qs, address)
    ensures QueueOf(qs, address, [1])
  {
  }

  lemma StageStates(k: Kernel, s: ThreadState, s': ThreadState)
    requires Stage(k, 0, s, 0, s')
    ensures Shaped(k) && k.threads[0].id == 1 && k.threads[1].id == 2 && k.threads[0].state == s && k.threads[1].state == s'
  {
  }

  // ---- a sleep cut short ----

  /** The only thread sleeps for five ticks, and goes on, ready, after one. */
  lemma LoneSleeperGoesOn()
    ensures Shaped(Boot())
    ensures var k := Run(Boot(), [SleepCall(5)]); k.current == 0 && k.threads[0].state == Ready && k.tick == 1
  {
    BootTables();
    var b := Boot();
    hide Boot, Run, Sleep;
    RunNothing(b);
    assert [] + [SleepCall(5)] == [SleepCall(5)];
    OneMoreCall(b, [], SleepCall(5));
    SleepReturnsAtOnce(b, 5);
  }

  // ---- a thread without a process ----

  /** Thread 2 belongs to process 2, which it is about to terminate. */
  ghost predicate Tenant(k: Kernel, current: nat, s: ThreadState, s': ThreadState) {
    && Duo(k) && k.current == current && k.threads[0].state == s && k.threads[1].state == s'
    && k.threads[0].process == KERNEL_PROCESS && k.threads[1].process == 2
    && |k.processes| == MAX_PROCESSES && k.processes[0] == Process(KERNEL_PROCESS, true) && k.processes[1] == Process(2, true)
    && forall p | 2 <= p < MAX_PROCESSES :: k.processes[p] == Process(0, false)
  }

  const ToOwnEnd: seq<Call> := [CreateProcessCall, CreateThreadCall(2, true), YieldCall, TerminateCall(2), SleepCall(5)]

  lemma ThreadInNewProcess()
    ensures Shaped(Boot()) && Tenant(Run(Boot(), ToOwnEnd[..2]), 0, Running, Ready)
  {
    BootTables();
    var b := Boot();
    assert b.processes[0] == Process(KERNEL_PROCESS, true) && (forall p | 0 < p < MAX_PROCESSES :: b.processes[p] == Process(0, false)) && b.nextProcess == 2;
    hide FindThreadSlot, FindProcess, FindProcessSlot, Boot, Run;
    RunNothing(b);
    assert ToOwnEnd[..0] == [];
    RunStep(ToOwnEnd, 0);
    RunStep(ToOwnEnd, 1);
    var k := CreateProcess(b);
    assert FindProcessSlot(b.processes) == 1 && FindProcess(k.processes, 2) == 1 && FindThreadSlot(k.threads) == 1;
  }

  lemma TenantYields(k: Kernel)
    requires Tenant(k, 0, Running, Ready)
    ensures Tenant(Step(k, YieldCall), 1, Ready, Running)
  {
    hide Yield;
    YieldToTheOther(k);
  }

  /** The thread's slot is emptied under it, and keeps no process. */
  lemma TenantEndsItself(k: Kernel)
    requires Tenant(k, 1, Ready, Running)
    ensures var k' := Step(k, TerminateCall(2));
            && Shaped(k') && !k'.halted && k'.current == 1 && LiveHoused(k') && !CallerLives(k') && Current(k').process == 0
            && !ActiveProcess(k'.processes, 0)
  {
    hide FindProcess;
    assert FindProcess(k.processes, 2) == 1;
    ActiveWitness(k.processes, 0);
    ActiveWitness(k.processes, 1);
    assert LiveHoused(k);
    TerminateKeepsLiveHoused(k, 2);
  }

  /** The failing case is reached from start-up: a thread ends its own process, sleeps, and lives on without one. */
  lemma OwnEndLeavesHomelessThread()
    ensures Shaped(Boot()) && !LiveHoused(Run(Boot(), ToOwnEnd))
  {
    ThreadInNewProcess();
    hide Run, Boot, Tenant, LiveHoused, ActiveProcess, Sleep;
    var c := ToOwnEnd;
    RunStep(c, 2);
    TenantYields(Run(Boot(), c[..2]));
    RunStep(c, 3);
    TenantEndsItself(Run(Boot(), c[..3]));
    RunStep(c, 4);
    EmptyCallerComesBack(Run(Boot(), c[..4]), 5);
    assert c[..5] == c;
  }
}
