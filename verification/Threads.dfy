/**
 The scheduler's state and its kernel calls as transitions, one call (up to the next context
 switch) per transition. A call that blocks is its effect followed by `Yield`; the code after the
 switch runs when the thread is current again.
 */
module Threads {

  const MAX_PROCESSES := 64
  const MAX_THREADS := 128
  const MAX_MUTEXES := 8
  const MAX_FUTEXES := 8
  const KERNEL_PROCESS := 1
  const DEFAULT_PRIORITY := 8
  const MAX_PRIORITY := 31

  datatype ThreadState = Empty | Ready | Running | Sleeping | Blocked | Finished

  datatype Thread = Thread(
    id: nat, process: nat, state: ThreadState, runCount: nat, wakeTick: nat,
    pending: set<nat>, handled: set<nat>, priority: nat, waitingMutex: nat)

  datatype Process = Process(id: nat, active: bool)

  datatype Mutex = Mutex(id: nat, active: bool, locked: bool, owner: nat)

  datatype Futex = Futex(address: nat, waiters: seq<nat>, active: bool)

  datatype Kernel = Kernel(
    threads: seq<Thread>, processes: seq<Process>, mutexes: seq<Mutex>, futexes: seq<Futex>,
    current: nat, nextProcess: nat, nextThread: nat, nextMutex: nat, tick: nat, delivered: nat, halted: bool)

  predicate Shaped(k: Kernel) {
    && |k.threads| == MAX_THREADS && |k.processes| == MAX_PROCESSES
    && |k.mutexes| == MAX_MUTEXES && |k.futexes| == MAX_FUTEXES
    && k.current < MAX_THREADS
  }

  const NoThread := Thread(0, 0, Empty, 0, 0, {}, {}, 0, 0)

  /** Right after initialisation: the bootstrap thread of the kernel process is running. */
  function Boot(): Kernel {
    var bootstrap := NoThread.(id := 1, process := KERNEL_PROCESS, state := Running, priority := DEFAULT_PRIORITY);
    Kernel([bootstrap] + seq(MAX_THREADS - 1, _ => NoThread),
           [Process(KERNEL_PROCESS, true)] + seq(MAX_PROCESSES - 1, _ => Process(0, false)),
           seq(MAX_MUTEXES, _ => Mutex(0, false, false, 0)),
           seq(MAX_FUTEXES, _ => Futex(0, [], false)),
           0, 2, 2, 1, 0, 0, false)
  }

  // ---- searches ----

  /** The least index from `from` on of a live thread with this id, or the table size. */
  function FindThread(ts: seq<Thread>, id: nat, from: nat := 0): (r: nat)
    requires from <= |ts|
    ensures from <= r <= |ts|
    ensures r < |ts| ==> ts[r].state != Empty && ts[r].id == id
    ensures forall j | from <= j < r :: ts[j].state == Empty || ts[j].id != id
    decreases |ts| - from
  {
    if from == |ts| || (ts[from].state != Empty && ts[from].id == id) then from else FindThread(ts, id, from + 1)
  }

  function FindThreadSlot(ts: seq<Thread>, from: nat := 0): (r: nat)
    requires from <= |ts|
    ensures from <= r <= |ts|
    ensures r < |ts| ==> ts[r].state == Empty
    ensures forall j | from <= j < r :: ts[j].state != Empty
    decreases |ts| - from
  {
    if from == |ts| || ts[from].state == Empty then from else FindThreadSlot(ts, from + 1)
  }

  function FindProcess(ps: seq<Process>, id: nat, from: nat := 0): (r: nat)
    requires from <= |ps|
    ensures from <= r <= |ps|
    ensures r < |ps| ==> ps[r].active && ps[r].id == id
    ensures forall j | from <= j < r :: !ps[j].active || ps[j].id != id
    decreases |ps| - from
  {
    if from == |ps| || (ps[from].active && ps[from].id == id) then from else FindProcess(ps, id, from + 1)
  }

  function FindProcessSlot(ps: seq<Process>, from: nat := 0): (r: nat)
    requires from <= |ps|
    ensures from <= r <= |ps|
    ensures r < |ps| ==> !ps[r].active
    ensures forall j | from <= j < r :: ps[j].active
    decreases |ps| - from
  {
    if from == |ps| || !ps[from].active then from else FindProcessSlot(ps, from + 1)
  }

  function FindMutex(ms: seq<Mutex>, id: nat, from: nat := 0): (r: nat)
    requires from <= |ms|
    ensures from <= r <= |ms|
    ensures r < |ms| ==> ms[r].active && ms[r].id == id
    ensures forall j | from <= j < r :: !ms[j].active || ms[j].id != id
    decreases |ms| - from
  {
    if from == |ms| || (ms[from].active && ms[from].id == id) then from else FindMutex(ms, id, from + 1)
  }

  function FindMutexSlot(ms: seq<Mutex>, from: nat := 0): (r: nat)
    requires from <= |ms|
    ensures from <= r <= |ms|
    ensures r < |ms| ==> !ms[r].active
    ensures forall j | from <= j < r :: ms[j].active
    decreases |ms| - from
  {
    if from == |ms| || !ms[from].active then from else FindMutexSlot(ms, from + 1)
  }

  // ---- dispatching ----

  predicate Due(t: Thread, tick: nat) {
    t.state == Sleeping && t.wakeTick <= tick
  }

  /** Sleepers whose tick has come are ready again. */
  function Woken(ts: seq<Thread>, tick: nat): (r: seq<Thread>)
    ensures |r| == |ts|
    ensures forall i | 0 <= i < |ts| :: r[i] == if Due(ts[i], tick) then ts[i].(state := Ready, wakeTick := 0) else ts[i]
  {
    seq(|ts|, i requires 0 <= i < |ts| => if Due(ts[i], tick) then ts[i].(state := Ready, wakeTick := 0) else ts[i])
  }

  /** The slot `offset` places after `start`, going round the table. */
  function Slot(start: nat, offset: nat): (r: nat)
    requires start < MAX_THREADS && 1 <= offset <= MAX_THREADS
    ensures r < MAX_THREADS
  {
    (start + offset) % MAX_THREADS
  }

  /** How far slot i is after `start`: 1 for the next slot, 128 for `start` itself. */
  function Offset(start: nat, i: nat): (r: nat)
    requires start < MAX_THREADS && i < MAX_THREADS
    ensures 1 <= r <= MAX_THREADS && Slot(start, r) == i
  {
    if i > start then i - start else i + MAX_THREADS - start
  }

  /** The scan of the first n slots after `start`: the first ready thread of the highest priority, or -1. */
  function Select(ts: seq<Thread>, start: nat, n: nat): (r: int)
    requires |ts| == MAX_THREADS && start < MAX_THREADS && n <= MAX_THREADS
    ensures -1 <= r < MAX_THREADS
  {
    if n == 0 then -1
    else
      var best := Select(ts, start, n - 1);
      var c := Slot(start, n);
      if ts[c].state == Ready && (best < 0 || ts[c].priority > ts[best].priority) then c else best
  }

  function Deliver(t: Thread): Thread {
    if t.pending == {} then t else t.(handled := t.handled + t.pending, pending := {})
  }

  function DeliverTo(k: Kernel, i: nat): (r: Kernel)
    requires Shaped(k) && i < MAX_THREADS
    ensures Shaped(r)
  {
    k.(threads := k.threads[i := Deliver(k.threads[i])],
       delivered := if k.threads[i].pending == {} then k.delivered else k.delivered + 1)
  }

  /** The state in which the next thread is picked. */
  function BeforeSelection(k: Kernel): (r: Kernel)
    requires Shaped(k)
    ensures Shaped(r)
  {
    var k1 := DeliverTo(k.(tick := k.tick + 1), k.current);
    k1.(threads := Woken(k1.threads, k1.tick))
  }

  function Dispatch(k: Kernel, next: nat): (r: Kernel)
    requires Shaped(k) && next < MAX_THREADS
    ensures Shaped(r)
  {
    var previous := k.threads[k.current];
    var ts := if previous.state == Running then k.threads[k.current := previous.(state := Ready)] else k.threads;
    DeliverTo(k.(threads := ts[next := ts[next].(state := Running, runCount := ts[next].runCount + 1)], current := next), next)
  }

  function Yield(k: Kernel): (r: Kernel)
    requires Shaped(k)
    ensures Shaped(r)
  {
    var k1 := BeforeSelection(k);
    var next := Select(k1.threads, k1.current, MAX_THREADS);
    if next < 0 || next == k1.current then
      var t := k1.threads[k1.current];
      if t.state == Sleeping then k1.(threads := k1.threads[k1.current := t.(state := Ready, wakeTick := 0)]) else k1
    else Dispatch(k1, next)
  }

  function Tick(k: Kernel): (r: Kernel)
    requires Shaped(k)
    ensures Shaped(r)
  {
    k.(tick := k.tick + 1, threads := Woken(k.threads, k.tick + 1))
  }

  /** Set the current thread's state to `s` and give up the processor. */
  function Current(k: Kernel): Thread
    requires Shaped(k)
  {
    k.threads[k.current]
  }

  function WithCurrent(k: Kernel, t: Thread): (r: Kernel)
    requires Shaped(k)
    ensures Shaped(r)
  {
    k.(threads := k.threads[k.current := t])
  }

  // ---- processes and threads ----

  function CreateProcess(k: Kernel): (r: Kernel)
    requires Shaped(k)
    ensures Shaped(r)
  {
    var p := FindProcessSlot(k.processes);
    if p == MAX_PROCESSES then k
    else k.(processes := k.processes[p := Process(k.nextProcess, true)], nextProcess := k.nextProcess + 1)
  }

  /** `possible` is false when no entry point is given or no stack can be allocated. */
  function CreateThread(k: Kernel, process: nat, possible: bool): (r: Kernel)
    requires Shaped(k)
    ensures Shaped(r)
  {
    var i := FindThreadSlot(k.threads);
    if FindProcess(k.processes, process) == MAX_PROCESSES || !possible || i == MAX_THREADS then k
    else k.(threads := k.threads[i := Thread(k.nextThread, process, Ready, 0, 0, {}, {}, DEFAULT_PRIORITY, 0)],
            nextThread := k.nextThread + 1)
  }

  function Purged(ts: seq<Thread>, process: nat): (r: seq<Thread>)
    ensures |r| == |ts|
    ensures forall i | 0 <= i < |ts| ::
              r[i] == if ts[i].state != Empty && ts[i].process == process then ts[i].(state := Empty, process := 0) else ts[i]
  {
    seq(|ts|, i requires 0 <= i < |ts| =>
      if ts[i].state != Empty && ts[i].process == process then ts[i].(state := Empty, process := 0) else ts[i])
  }

  function TerminateProcess(k: Kernel, process: nat): (r: Kernel)
    requires Shaped(k)
    ensures Shaped(r)
  {
    var p := FindProcess(k.processes, process);
    if p == MAX_PROCESSES || process == KERNEL_PROCESS then k
    else k.(processes := k.processes[p := k.processes[p].(active := false)], threads := Purged(k.threads, process))
  }

  /** One round of a join on the thread in a slot: reap it if it is finished, else give way. */
  function JoinPoll(k: Kernel, i: nat): (r: Kernel)
    requires Shaped(k)
    ensures Shaped(r)
  {
    if i >= MAX_THREADS || i == k.current then k
    else if k.threads[i].state == Finished then k.(threads := k.threads[i := k.threads[i].(state := Empty)])
    else Yield(k)
  }

  /** The end of a thread's entry function; if no other thread can run, the kernel panics. */
  function Exit(k: Kernel): (r: Kernel)
    requires Shaped(k)
    ensures Shaped(r)
  {
    var k' := Yield(WithCurrent(k, Current(k).(state := Finished)));
    k'.(halted := k'.current == k.current)
  }

  function SetPriority(k: Kernel, id: nat, priority: nat): (r: Kernel)
    requires Shaped(k)
    ensures Shaped(r)
  {
    var i := FindThread(k.threads, id);
    if i == MAX_THREADS || priority > MAX_PRIORITY then k
    else k.(threads := k.threads[i := k.threads[i].(priority := priority)])
  }

  function Sleep(k: Kernel, ticks: nat): (r: Kernel)
    requires Shaped(k)
    ensures Shaped(r)
  {
    if ticks == 0 then k
    else Yield(WithCurrent(k, Current(k).(wakeTick := k.tick + ticks, state := Sleeping)))
  }

  function Signal(k: Kernel, id: nat, signal: nat): (r: Kernel)
    requires Shaped(k)
    ensures Shaped(r)
  {
    var i := FindThread(k.threads, id);
    if signal >= 32 || i == MAX_THREADS then k
    else
      var t := k.threads[i].(pending := k.threads[i].pending + {signal});
      k.(threads := k.threads[i :=
        if t.state == Sleeping || t.state == Blocked then t.(state := Ready, wakeTick := 0, waitingMutex := 0) else t])
  }

  // ---- mutexes ----

  function CreateMutex(k: Kernel): (r: Kernel)
    requires Shaped(k)
    ensures Shaped(r)
  {
    var m := FindMutexSlot(k.mutexes);
    if m == MAX_MUTEXES then k
    else k.(mutexes := k.mutexes[m := Mutex(k.nextMutex, true, false, 0)], nextMutex := k.nextMutex + 1)
  }

  function Lock(k: Kernel, id: nat): (r: Kernel)
    requires Shaped(k)
    ensures Shaped(r)
  {
    var m := FindMutex(k.mutexes, id);
    if m == MAX_MUTEXES then k
    else if !k.mutexes[m].locked then
      k.(mutexes := k.mutexes[m := k.mutexes[m].(locked := true, owner := Current(k).id)])
    else if k.mutexes[m].owner == Current(k).id then k
    else Yield(WithCurrent(k, Current(k).(state := Blocked, waitingMutex := id)))
  }

  /** Whether a lock call returns true when its thread runs on in state k. */
  predicate LockReturns(k: Kernel, id: nat)
    requires Shaped(k)
  {
    var m := FindMutex(k.mutexes, id);
    m < MAX_MUTEXES && k.mutexes[m].owner == Current(k).id
  }

  predicate WaitsFor(t: Thread, id: nat) {
    t.state == Blocked && t.waitingMutex == id
  }

  /** The first waiter of the highest priority among the first n threads, or -1. */
  function NextOwner(ts: seq<Thread>, id: nat, n: nat): (r: int)
    requires n <= |ts|
    ensures -1 <= r < n
    ensures r >= 0 ==> WaitsFor(ts[r], id)
    ensures forall j | 0 <= j < n && WaitsFor(ts[j], id) :: r >= 0 && (ts[j].priority < ts[r].priority || (ts[j].priority == ts[r].priority && r <= j))
  {
    if n == 0 then -1
    else
      var best := NextOwner(ts, id, n - 1);
      if WaitsFor(ts[n - 1], id) && (best < 0 || ts[n - 1].priority > ts[best].priority) then n - 1 else best
  }

  function Unlock(k: Kernel, id: nat): (r: Kernel)
    requires Shaped(k)
    ensures Shaped(r)
  {
    var m := FindMutex(k.mutexes, id);
    if m == MAX_MUTEXES || k.mutexes[m].owner != Current(k).id then k
    else
      var next := NextOwner(k.threads, id, MAX_THREADS);
      if next >= 0 then
        k.(threads := k.threads[next := k.threads[next].(state := Ready, waitingMutex := 0)],
           mutexes := k.mutexes[m := k.mutexes[m].(owner := k.threads[next].id)])
      else k.(mutexes := k.mutexes[m := k.mutexes[m].(locked := false, owner := 0)])
  }

  // ---- futexes ----

  /** The queue a waiter joins: the active one for the address, else the first inactive one, else -1. */
  function QueueToJoin(qs: seq<Futex>, address: nat, n: nat): (r: int)
    requires n <= |qs|
    ensures -1 <= r < n
  {
    if n == 0 then -1
    else
      var q := QueueToJoin(qs, address, n - 1);
      if qs[n - 1].active && qs[n - 1].address == address then n - 1
      else if q < 0 && !qs[n - 1].active then n - 1
      else q
  }

  /** The call puts its thread into a queue; `matches` tells whether the word at the address holds the expected value. */
  predicate Joins(k: Kernel, address: nat, matches: bool)
    requires Shaped(k)
  {
    var q := QueueToJoin(k.futexes, address, MAX_FUTEXES);
    address != 0 && matches && q >= 0 && |k.futexes[q].waiters| < MAX_THREADS
  }

  function FutexWait(k: Kernel, address: nat, matches: bool): (r: Kernel)
    requires Shaped(k)
    ensures Shaped(r)
  {
    var q := QueueToJoin(k.futexes, address, MAX_FUTEXES);
    if !Joins(k, address, matches) then k
    else
      var queue := if k.futexes[q].active then k.futexes[q] else Futex(address, [], true);
      var joined := queue.(waiters := queue.waiters + [Current(k).id]);
      Yield(WithCurrent(k.(futexes := k.futexes[q := joined]), Current(k).(state := Blocked)))
  }

  function FindQueue(qs: seq<Futex>, address: nat, from: nat := 0): (r: nat)
    requires from <= |qs|
    ensures from <= r <= |qs|
    ensures r < |qs| ==> qs[r].active && qs[r].address == address
    ensures forall j | from <= j < r :: !qs[j].active || qs[j].address != address
    decreases |qs| - from
  {
    if from == |qs| || (qs[from].active && qs[from].address == address) then from else FindQueue(qs, address, from + 1)
  }

  datatype WakeResult = WakeResult(threads: seq<Thread>, rest: seq<nat>, woken: nat)

  /** Ready the thread with this id if it is still blocked. */
  function Readied(ts: seq<Thread>, id: nat): (r: seq<Thread>)
    ensures |r| == |ts|
  {
    var i := FindThread(ts, id);
    if i < |ts| && ts[i].state == Blocked then ts[i := ts[i].(state := Ready)] else ts
  }

  predicate StillBlocked(ts: seq<Thread>, id: nat) {
    var i := FindThread(ts, id);
    i < |ts| && ts[i].state == Blocked
  }

  /** Pop waiters until `count` of them were still blocked and have been readied, or none is left. */
  function WakeWaiters(ts: seq<Thread>, waiters: seq<nat>, count: nat): (r: WakeResult)
    ensures |r.threads| == |ts| && r.woken <= count && |r.rest| <= |waiters|
    decreases |waiters|
  {
    if count == 0 || waiters == [] then WakeResult(ts, waiters, 0)
    else if StillBlocked(ts, waiters[0]) then
      var r := WakeWaiters(Readied(ts, waiters[0]), waiters[1..], count - 1);
      r.(woken := r.woken + 1)
    else WakeWaiters(ts, waiters[1..], count)
  }

  function FutexWake(k: Kernel, address: nat, count: nat): (r: Kernel)
    requires Shaped(k)
    ensures Shaped(r)
  {
    var q := FindQueue(k.futexes, address);
    if address == 0 || count == 0 || q == MAX_FUTEXES then k
    else
      var r := WakeWaiters(k.threads, k.futexes[q].waiters, count);
      k.(threads := r.threads,
         futexes := k.futexes[q := k.futexes[q].(waiters := r.rest, active := r.rest != [])])
  }

  // ---- runs ----

  datatype Call =
    | TickCall
    | YieldCall
    | CreateProcessCall
    | CreateThreadCall(process: nat, possible: bool)
    | TerminateCall(process: nat)
    | JoinCall(slot: nat)
    | ExitCall
    | PriorityCall(id: nat, priority: nat)
    | SleepCall(ticks: nat)
    | SignalCall(id: nat, signal: nat)
    | CreateMutexCall
    | LockCall(id: nat)
    | UnlockCall(id: nat)
    | FutexWaitCall(address: nat, matches: bool)
    | FutexWakeCall(address: nat, count: nat)

  function Step(k: Kernel, c: Call): (r: Kernel)
    requires Shaped(k)
    ensures Shaped(r)
  {
    if k.halted then k
    else
      match c
      case TickCall => Tick(k)
      case YieldCall => Yield(k)
      case CreateProcessCall => CreateProcess(k)
      case CreateThreadCall(process, possible) => CreateThread(k, process, possible)
      case TerminateCall(process) => TerminateProcess(k, process)
      case JoinCall(slot) => JoinPoll(k, slot)
      case ExitCall => Exit(k)
      case PriorityCall(id, priority) => SetPriority(k, id, priority)
      case SleepCall(ticks) => Sleep(k, ticks)
      case SignalCall(id, signal) => Signal(k, id, signal)
      case CreateMutexCall => CreateMutex(k)
      case LockCall(id) => Lock(k, id)
      case UnlockCall(id) => Unlock(k, id)
      case FutexWaitCall(address, matches) => FutexWait(k, address, matches)
      case FutexWakeCall(address, count) => FutexWake(k, address, count)
  }

  function Run(k: Kernel, calls: seq<Call>): (r: Kernel)
    requires Shaped(k)
    ensures Shaped(r)
  {
    if calls == [] then k else Step(Run(k, calls[..|calls| - 1]), calls[|calls| - 1])
  }
}
