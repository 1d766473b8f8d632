/** Futex queues serve waiters in order of arrival. */
module FutexOrder {
  import opened Threads
  import opened SchedulerSafety
  import opened MutexSafety
  import opened Futexes

  // ---- the queue of an address ----

  /** Who waits at an address, first come first. */
  function Waiting(qs: seq<Futex>, address: nat): seq<nat> {
    if qs == [] then []
    else
      var n := |qs| - 1;
      if qs[n].active && qs[n].address == address then qs[n].waiters else Waiting(qs[..n], address)
  }

  lemma {:induction false} WaitingIs(qs: seq<Futex>, address: nat, q: nat)
    requires OneQueuePerAddress(qs) && q < |qs| && qs[q].active && qs[q].address == address
    ensures Waiting(qs, address) == qs[q].waiters
  {
    var n := |qs| - 1;
    if q < n {
      assert !(qs[n].active && qs[n].address == address);
      assert forall j | 0 <= j < n :: qs[..n][j] == qs[j];
      WaitingIs(qs[..n], address, q);
    }
  }

  lemma {:induction false} NobodyWaits(qs: seq<Futex>, address: nat)
    requires forall j | 0 <= j < |qs| :: !qs[j].active || qs[j].address != address
    ensures Waiting(qs, address) == []
  {
    if qs != [] {
      var n := |qs| - 1;
      assert forall j | 0 <= j < n :: qs[..n][j] == qs[j];
      NobodyWaits(qs[..n], address);
    }
  }

  /** Another queue replaced, whose address is not this one before or after. */
  lemma {:induction false} WaitingElsewhere(qs: seq<Futex>, q: nat, new': Futex, address: nat)
    requires q < |qs| && (qs[q].active ==> qs[q].address != address) && (new'.active ==> new'.address != address)
    ensures Waiting(qs[q := new'], address) == Waiting(qs, address)
  {
    var n := |qs| - 1;
    if q < n {
      assert qs[q := new'][..n] == qs[..n][q := new'];
      WaitingElsewhere(qs[..n], q, new', address);
    } else {
      assert qs[q := new'][..n] == qs[..n];
    }
  }

  // ---- joining ----

  /** There is a queue for the address with room in it, or none and a slot for one. */
  predicate HasRoom(qs: seq<Futex>, address: nat) {
    || (exists q :: 0 <= q < |qs| && qs[q].active && qs[q].address == address && |qs[q].waiters| < MAX_THREADS)
    || ((forall q | 0 <= q < |qs| :: !qs[q].active || qs[q].address != address) && exists q :: 0 <= q < |qs| && !qs[q].active)
  }

  lemma FoundQueue(qs: seq<Futex>, address: nat, n: nat)
    requires n <= |qs|
    ensures (exists q :: 0 <= q < n && qs[q].active && qs[q].address == address) ==>
              QueueToJoin(qs, address, n) >= 0 && qs[QueueToJoin(qs, address, n)].active && qs[QueueToJoin(qs, address, n)].address == address
    ensures (exists q :: 0 <= q < n && !qs[q].active) ==> QueueToJoin(qs, address, n) >= 0
  {
  }

  /** Closed queues are empty, in every run from start-up. */
  ghost predicate ClosedEmpty(qs: seq<Futex>) {
    forall q | 0 <= q < |qs| :: !qs[q].active ==> qs[q].waiters == []
  }

  lemma StepKeepsClosedEmpty(k: Kernel, c: Call)
    requires Shaped(k) && ClosedEmpty(k.futexes)
    ensures ClosedEmpty(Step(k, c).futexes)
  {
    TablesKept(k, c);
    if !k.halted {
      hide Yield, QueueToJoin, FindQueue, WakeWaiters;
      match c
      case FutexWaitCall(address, matches) => WaitQueues(k, address, matches);
      case FutexWakeCall(address, count) =>
      case _ =>
    }
  }

  /** What a wait does to the queues: the caller joins one, or nothing changes. */
  lemma WaitQueues(k: Kernel, address: nat, matches: bool)
    requires Shaped(k)
    ensures var q, k' := QueueToJoin(k.futexes, address, MAX_FUTEXES), FutexWait(k, address, matches);
            k'.futexes == if !Joins(k, address, matches) then k.futexes
                          else k.futexes[q := if k.futexes[q].active then k.futexes[q].(waiters := k.futexes[q].waiters + [Current(k).id])
                                              else Futex(address, [] + [Current(k).id], true)]
    ensures Joins(k, address, matches) ==> FutexWait(k, address, matches).threads[k.current].id == Current(k).id
                                           && FutexWait(k, address, matches).threads[k.current].state == Blocked
  {
    hide Yield, QueueToJoin;
    if Joins(k, address, matches) {
      var q := QueueToJoin(k.futexes, address, MAX_FUTEXES);
      var queue := if k.futexes[q].active then k.futexes[q] else Futex(address, [], true);
      var joined := queue.(waiters := queue.waiters + [Current(k).id]);
      YieldIsCalm(WithCurrent(k.(futexes := k.futexes[q := joined]), Current(k).(state := Blocked)));
    }
  }

  lemma {:induction false} ClosedQueuesAreEmpty(calls: seq<Call>)
    ensures Shaped(Boot()) && ClosedEmpty(Run(Boot(), calls).futexes)
  {
    BootIsFree();
    assert ClosedEmpty(Boot().futexes);
    hide Step, Boot, ClosedEmpty;
    if calls != [] {
      ClosedQueuesAreEmpty(calls[..|calls| - 1]);
      StepKeepsClosedEmpty(Run(Boot(), calls[..|calls| - 1]), calls[|calls| - 1]);
    }
  }

  /** A wait joins exactly if an address is given, the word there is as expected, and there is room. */
  lemma JoinsExactly(k: Kernel, address: nat, matches: bool)
    requires Invariant(k) && ClosedEmpty(k.futexes)
    ensures Joins(k, address, matches) <==> address != 0 && matches && HasRoom(k.futexes, address)
  {
    hide QueueToJoin, Ids, OneRunning, MutexTable, NoOrphan;
    FreeSlotInQueues(k.futexes, address, MAX_FUTEXES);
    FoundQueue(k.futexes, address, MAX_FUTEXES);
  }

  /** A thread that joins is blocked, and last in the queue of its address; no other queue changes. */
  lemma WaitJoinsLast(k: Kernel, address: nat, matches: bool, other: nat)
    requires Invariant(k) && Joins(k, address, matches)
    ensures var k' := FutexWait(k, address, matches);
            && Waiting(k'.futexes, address) == Waiting(k.futexes, address) + [Current(k).id]
            && (other != address ==> Waiting(k'.futexes, other) == Waiting(k.futexes, other))
            && k'.threads[k.current].id == Current(k).id && k'.threads[k.current].state == Blocked
  {
    assert OneQueuePerAddress(k.futexes);
    FutexWaitKeepsQueues(k, address, matches);
    hide QueueToJoin, Invariant, FutexWait, Waiting;
    WaitQueues(k, address, matches);
    FreeSlotInQueues(k.futexes, address, MAX_FUTEXES);
    var q := QueueToJoin(k.futexes, address, MAX_FUTEXES);
    var k' := FutexWait(k, address, matches);
    WaitingIs(k'.futexes, address, q);
    if k.futexes[q].active { WaitingIs(k.futexes, address, q); } else { NobodyWaits(k.futexes, address); }
    if other != address { WaitingElsewhere(k.futexes, q, k'.futexes[q], other); }
  }

  lemma FutexWaitKeepsQueues(k: Kernel, address: nat, matches: bool)
    requires Invariant(k) && Joins(k, address, matches)
    ensures OneQueuePerAddress(FutexWait(k, address, matches).futexes)
  {
    hide QueueToJoin, Ids, OneRunning, MutexTable, NoOrphan, FutexWait;
    WaitQueues(k, address, matches);
    FreeSlotInQueues(k.futexes, address, MAX_FUTEXES);
  }

  // ---- waking ----

  /** Of the threads that were blocked, a wake readies exactly those it pops. */
  lemma {:induction false} WakeUnblocksPopped(ts: seq<Thread>, waiters: seq<nat>, count: nat)
    requires DistinctIds(ts)
    ensures var r := WakeWaiters(ts, waiters, count);
            forall id :: StillBlocked(r.threads, id) <==> StillBlocked(ts, id) && id !in Popped(waiters, r)
    decreases |waiters|
  {
    hide StillBlocked, Readied, FindThread;
    if count > 0 && waiters != [] {
      var head, blocked := waiters[0], StillBlocked(ts, waiters[0]);
      var ts1, count1 := if blocked then Readied(ts, head) else ts, if blocked then count - 1 else count;
      if blocked { ReadiedUnblocks(ts, ts, {}, head); }
      WakeUnblocksPopped(ts1, waiters[1..], count1);
      PoppedOneMore(waiters, WakeWaiters(ts, waiters, count), WakeWaiters(ts1, waiters[1..], count1));
    }
  }

  /** What a wake of an address leaves of the queues, and whom it readies: those it takes from the front. */
  lemma WakePops(k: Kernel, address: nat, count: nat, other: nat) returns (popped: seq<nat>)
    requires Invariant(k)
    ensures var k' := FutexWake(k, address, count);
            && Waiting(k.futexes, address) == popped + Waiting(k'.futexes, address)
            && (other != address ==> Waiting(k'.futexes, other) == Waiting(k.futexes, other))
            && forall id :: StillBlocked(k'.threads, id) <==> StillBlocked(k.threads, id) && id !in popped
  {
    assert OneQueuePerAddress(k.futexes) && DistinctIds(k.threads);
    hide Invariant, FindQueue, WakeWaiters, StillBlocked, Waiting;
    var q := FindQueue(k.futexes, address);
    if address == 0 || count == 0 || q == MAX_FUTEXES {
      popped := [];
    } else {
      var waiters := k.futexes[q].waiters;
      var r, k' := WakeWaiters(k.threads, waiters, count), FutexWake(k, address, count);
      WakeUnblocksPopped(k.threads, waiters, count);
      WakeKeepsOrder(k.threads, waiters, count);
      popped := Popped(waiters, r);
      WaitingIs(k.futexes, address, q);
      if r.rest != [] { WaitingIs(k'.futexes, address, q); } else { NobodyWaits(k'.futexes, address); }
      if other != address { WaitingElsewhere(k.futexes, q, k'.futexes[q], other); }
    }
  }

  // ---- first come, first served ----

  /** In this queue x has an entry and y has none before it. */
  ghost predicate Ahead(ids: seq<nat>, x: nat, y: nat) {
    exists a :: 0 <= a < |ids| && ids[a] == x && y !in ids[..a]
  }

  lemma IndexIn(front: seq<nat>, rest: seq<nat>, a: nat)
    requires a < |front + rest|
    ensures if a < |front| then (front + rest)[a] in front else (front + rest)[a] == rest[a - |front|]
  {
  }

  lemma AheadInRest(popped: seq<nat>, rest: seq<nat>, x: nat, y: nat)
    requires Ahead(popped + rest, x, y) && x !in popped
    ensures y !in popped && Ahead(rest, x, y)
  {
    var all := popped + rest;
    var a :| 0 <= a < |all| && all[a] == x && y !in all[..a];
    var n := |popped|;
    IndexIn(popped, rest, a);
    assert a >= n;
    forall i | 0 <= i < n ensures popped[i] != y { assert all[..a][i] == popped[i]; }
    forall i | 0 <= i < a - n ensures rest[i] != y { assert all[..a][n + i] == rest[i]; }
    assert rest[a - n] == x;
  }

  lemma AheadOfMore(ids: seq<nat>, more: seq<nat>, x: nat, y: nat)
    requires Ahead(ids, x, y)
    ensures Ahead(ids + more, x, y)
  {
    var a :| 0 <= a < |ids| && ids[a] == x && y !in ids[..a];
    assert (ids + more)[..a] == ids[..a] && (ids + more)[a] == x;
  }

  /** As long as x stays blocked it stays ahead of y, and no wake of the address readies y. */
  lemma StepKeepsAhead(k: Kernel, c: Call, address: nat, x: nat, y: nat)
    requires Invariant(k) && Ahead(Waiting(k.futexes, address), x, y) && StillBlocked(k.threads, x) && StillBlocked(Step(k, c).threads, x)
    ensures Ahead(Waiting(Step(k, c).futexes, address), x, y)
    ensures c.FutexWakeCall? && c.address == address && StillBlocked(k.threads, y) ==> StillBlocked(Step(k, c).threads, y)
  {
    TablesKept(k, c);
    if !k.halted {
      hide Yield, Invariant, Ahead, Waiting, StillBlocked, FutexWait, FutexWake, Joins, TerminateProcess, CreateThread, CreateProcess, Signal, JoinPoll, Exit, Sleep, Lock, Unlock, SetPriority, Tick;
      match c
      case FutexWaitCall(a, matches) =>
        if Joins(k, a, matches) {
          WaitJoinsLast(k, a, matches, address);
          AheadOfMore(Waiting(k.futexes, address), [Current(k).id], x, y);
        } else {
          WaitQueues(k, a, matches);
        }
      case FutexWakeCall(a, count) =>
        var popped := WakePops(k, a, count, address);
        if a == address { AheadInRest(popped, Waiting(Step(k, c).futexes, address), x, y); }
      case _ =>
    }
  }

  /** Of two ids in a queue one is ahead of the other. */
  lemma {:induction false} OneIsAhead(ids: seq<nat>, x: nat, y: nat)
    requires x in ids && y in ids && x != y
    ensures Ahead(ids, x, y) || Ahead(ids, y, x)
  {
    if ids[0] == x || ids[0] == y {
      assert ids[0] == x ==> Ahead(ids, x, y) by { assert y !in ids[..0]; }
      assert ids[0] == y ==> Ahead(ids, y, x) by { assert x !in ids[..0]; }
    } else {
      var rest := ids[1..];
      OneIsAhead(rest, x, y);
      if Ahead(rest, x, y) { AheadInLonger(ids, x, y); } else { AheadInLonger(ids, y, x); }
    }
  }

  lemma AheadInLonger(ids: seq<nat>, x: nat, y: nat)
    requires ids != [] && ids[0] != y && Ahead(ids[1..], x, y)
    ensures Ahead(ids, x, y)
  {
    var a :| 0 <= a < |ids| - 1 && ids[1..][a] == x && y !in ids[1..][..a];
    assert ids[..a + 1] == [ids[0]] + ids[1..][..a];
    assert ids[a + 1] == x;
  }

  lemma AheadInShorter(ids: seq<nat>, x: nat, y: nat)
    requires ids != [] && ids[0] != x && Ahead(ids, x, y)
    ensures ids[0] != y && Ahead(ids[1..], x, y)
  {
    var a :| 0 <= a < |ids| && ids[a] == x && y !in ids[..a];
    assert ids[..a] == [ids[0]] + ids[1..][..a - 1];
    assert ids[1..][a - 1] == x;
  }

  /** Some wake readies the one ahead and not the other. */
  lemma {:induction false} SomeWakeDivides(ts: seq<Thread>, waiters: seq<nat>, x: nat, y: nat) returns (count: nat)
    requires DistinctIds(ts) && StillBlocked(ts, x) && StillBlocked(ts, y) && x != y && Ahead(waiters, x, y)
    ensures var r := WakeWaiters(ts, waiters, count); !StillBlocked(r.threads, x) && StillBlocked(r.threads, y)
    decreases |waiters|
  {
    hide StillBlocked, Readied, FindThread, Ahead;
    assert waiters != [] by { AheadIsIn(waiters, x, y); }
    var head := waiters[0];
    if head == x {
      count := 1;
      ReadiedUnblocks(ts, ts, {}, x);
      assert WakeWaiters(ts, waiters, 1).threads == Readied(ts, x);
    } else {
      AheadInShorter(waiters, x, y);
      if StillBlocked(ts, head) {
        ReadiedUnblocks(ts, ts, {}, head);
        var rest := SomeWakeDivides(Readied(ts, head), waiters[1..], x, y);
        count := rest + 1;
      } else {
        var rest := SomeWakeDivides(ts, waiters[1..], x, y);
        count := rest;
      }
    }
  }

  lemma AheadIsIn(ids: seq<nat>, x: nat, y: nat)
    requires Ahead(ids, x, y)
    ensures ids != []
  {
  }

  lemma AheadIsReadied(k: Kernel, address: nat, x: nat, y: nat) returns (count: nat)
    requires Invariant(k) && address != 0 && x != y && StillBlocked(k.threads, x) && StillBlocked(k.threads, y)
    requires Ahead(Waiting(k.futexes, address), y, x)
    ensures Divides(k, address, count, y, x)
  {
    assert DistinctIds(k.threads) && OneQueuePerAddress(k.futexes);
    var queue, q := Waiting(k.futexes, address), FindQueue(k.futexes, address);
    hide Invariant, FindQueue, WakeWaiters, StillBlocked, Waiting, Ahead, FutexWake;
    AheadIsIn(queue, y, x);
    if q == MAX_FUTEXES { NobodyWaits(k.futexes, address); } else { WaitingIs(k.futexes, address, q); }
    count := SomeWakeDivides(k.threads, queue, y, x);
    WakesWith(k, address, count);
  }

  lemma DividedIsAhead(k: Kernel, address: nat, count: nat, x: nat, y: nat)
    requires Invariant(k) && !k.halted && x != y && StillBlocked(k.threads, x) && StillBlocked(k.threads, y)
    requires x in Waiting(k.futexes, address) && y in Waiting(k.futexes, address) && Divides(k, address, count, y, x)
    ensures Ahead(Waiting(k.futexes, address), y, x)
  {
    assert Step(k, FutexWakeCall(address, count)) == FutexWake(k, address, count);
    hide Invariant, StillBlocked, Waiting, Ahead, FutexWake, Step;
    OneIsAhead(Waiting(k.futexes, address), x, y);
    if Ahead(Waiting(k.futexes, address), x, y) { StepKeepsAhead(k, FutexWakeCall(address, count), address, x, y); }
  }

  /** Of two blocked threads in one queue, a wake can ready y and leave x exactly if an entry of y is ahead of all of x's. */
  lemma OvertakesExactly(k: Kernel, address: nat, x: nat, y: nat)
    requires Invariant(k) && !k.halted && address != 0 && x != y && StillBlocked(k.threads, x) && StillBlocked(k.threads, y)
    requires x in Waiting(k.futexes, address) && y in Waiting(k.futexes, address)
    ensures (exists count: nat :: Divides(k, address, count, y, x)) <==> Ahead(Waiting(k.futexes, address), y, x)
  {
    hide Divides, Ahead, Waiting, StillBlocked;
    if Ahead(Waiting(k.futexes, address), y, x) {
      var count := AheadIsReadied(k, address, x, y);
    } else if count: nat :| Divides(k, address, count, y, x) {
      DividedIsAhead(k, address, count, x, y);
    }
  }

  /** The wake readies thread y and not thread x. */
  predicate Divides(k: Kernel, address: nat, count: nat, y: nat, x: nat)
    requires Shaped(k)
  {
    var ts' := FutexWake(k, address, count).threads;
    !StillBlocked(ts', y) && StillBlocked(ts', x)
  }

  lemma WakesWith(k: Kernel, address: nat, count: nat)
    requires Shaped(k) && address != 0 && FindQueue(k.futexes, address) < MAX_FUTEXES
    ensures FutexWake(k, address, count).threads == WakeWaiters(k.threads, k.futexes[FindQueue(k.futexes, address)].waiters, count).threads
  {
  }

  /** The thread is blocked all through the run. */
  predicate StaysBlocked(k: Kernel, x: nat, calls: seq<Call>)
    requires Shaped(k)
  {
    StillBlocked(Run(k, calls).threads, x) && (calls == [] || StaysBlocked(k, x, calls[..|calls| - 1]))
  }

  /** No wake of the address in the run readies the thread. */
  predicate NeverWoken(k: Kernel, address: nat, y: nat, calls: seq<Call>)
    requires Shaped(k)
  {
    calls == [] ||
      (var before, c := calls[..|calls| - 1], calls[|calls| - 1];
       && NeverWoken(k, address, y, before)
       && (c.FutexWakeCall? && c.address == address && StillBlocked(Run(k, before).threads, y) ==> StillBlocked(Run(k, calls).threads, y)))
  }

  /**
   First come, first served. If x waits at an address and y has no entry in the queue before it,
   then over every run in which x is never readied, no wake of the address readies y.
   */
  lemma {:induction false} FirstComeFirstServed(k: Kernel, address: nat, x: nat, y: nat, calls: seq<Call>)
    requires Invariant(k) && Ahead(Waiting(k.futexes, address), x, y) && StaysBlocked(k, x, calls)
    ensures Invariant(Run(k, calls)) && Ahead(Waiting(Run(k, calls).futexes, address), x, y)
    ensures NeverWoken(k, address, y, calls)
  {
    assert Shaped(k);
    hide Step, Invariant, Ahead, Waiting, StillBlocked;
    if calls != [] {
      var before, c := calls[..|calls| - 1], calls[|calls| - 1];
      FirstComeFirstServed(k, address, x, y, before);
      assert StillBlocked(Run(k, before).threads, x) by { BlockedAtEnd(k, x, before); }
      StepKeepsInvariant(Run(k, before), c);
      StepKeepsAhead(Run(k, before), c, address, x, y);
    }
  }

  lemma BlockedAtEnd(k: Kernel, x: nat, calls: seq<Call>)
    requires Shaped(k) && StaysBlocked(k, x, calls)
    ensures StillBlocked(Run(k, calls).threads, x)
  {
    hide Step, StillBlocked;
  }

  /** In particular for a thread that joins the queue when x is in it, unless an old entry of its own is ahead. */
  lemma LaterArrivalWaits(k: Kernel, address: nat, matches: bool, x: nat, calls: seq<Call>)
    requires Invariant(k) && !k.halted && Joins(k, address, matches)
    requires x in Waiting(k.futexes, address) && Current(k).id !in Waiting(k.futexes, address)
    requires StaysBlocked(Step(k, FutexWaitCall(address, matches)), x, calls)
    ensures NeverWoken(Step(k, FutexWaitCall(address, matches)), address, Current(k).id, calls)
  {
    var queue, y, c := Waiting(k.futexes, address), Current(k).id, FutexWaitCall(address, matches);
    var a :| 0 <= a < |queue| && queue[a] == x;
    assert Ahead(queue, x, y);
    assert Step(k, c) == FutexWait(k, address, matches);
    StepKeepsInvariant(k, c);
    hide Step, Invariant, Ahead, Waiting, StaysBlocked, NeverWoken, FutexWait, Joins;
    WaitJoinsLast(k, address, matches, 0);
    AheadOfMore(queue, [y], x, y);
    FirstComeFirstServed(Step(k, c), address, x, y, calls);
  }
}
