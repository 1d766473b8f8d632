/** What a thread's record says of its past: the signals it was sent, its last priority, how often it ran. */
module ThreadRecords {
  import opened Threads
  import opened Dispatching
  import opened SchedulerSafety
  import opened Lifecycles

  /** Everything the thread was ever signalled, whether it has handled it or not. */
  function Received(t: Thread): set<nat> {
    t.pending + t.handled
  }

  /** The call sends the live thread in this record a signal that is accepted. */
  predicate Sends(k: Kernel, c: Call, t: Thread) {
    !k.halted && c.SignalCall? && c.id == t.id && c.signal < 32 && t.state != Empty
  }

  /** The call sets the priority of the live thread in this record. */
  predicate Sets(k: Kernel, c: Call, t: Thread) {
    !k.halted && c.PriorityCall? && c.id == t.id && c.priority <= MAX_PRIORITY && t.state != Empty
  }

  /** A yield moves signals from pending to handled, counts the dispatch, and leaves the rest of every record. */
  lemma YieldOnRecord(k: Kernel, i: nat)
    requires Shaped(k) && i < MAX_THREADS
    ensures var t, t', next := k.threads[i], Yield(k).threads[i], Yield(k).current;
            && t'.id == t.id && t'.process == t.process && t'.priority == t.priority && Received(t') == Received(t)
            && t'.runCount == t.runCount + (if i == next != k.current then 1 else 0)
            && (i == k.current || i == next ==> t'.pending == {})
            && (i != k.current && i != next ==> t'.pending == t.pending)
  {
    hide Select, Slot;
  }

  lemma SwitchingOnRecord(k: Kernel, c: Call, i: nat)
    requires Shaped(k) && Switches(c) && i < MAX_THREADS && !k.halted
    ensures var t, t', next := k.threads[i], Step(k, c).threads[i], Step(k, c).current;
            && t'.id == t.id && t'.priority == t.priority && Received(t') == Received(t)
            && t'.runCount == t.runCount + (if i == next != k.current then 1 else 0)
            && (i == next != k.current ==> t'.pending == {})
  {
    hide Step, Yield;
    var w := SwitchingIsYield(k, c);
    YieldOnRecord(w, i);
  }

  lemma NamedOnRecord(k: Kernel, c: Call, i: nat)
    requires Invariant(k) && (c.SignalCall? || c.PriorityCall?) && i < MAX_THREADS
    ensures Step(k, c).current == k.current
    ensures var t, t' := k.threads[i], Step(k, c).threads[i];
            && t'.runCount == t.runCount && t'.handled == t.handled
            && t'.priority == (if Sets(k, c, t) then c.priority else t.priority)
            && t'.pending == t.pending + (if Sends(k, c, t) then {c.signal} else {})
  {
    if k.threads[i].state != Empty { NamedIsFound(k, i); }
    assert Shaped(k);
    hide Invariant, FindThread;
  }

  /** The other calls leave the record alone, but for a signal or a priority meant for it. */
  lemma PlainOnRecord(k: Kernel, c: Call, i: nat)
    requires Invariant(k) && !Switches(c) && i < MAX_THREADS && k.threads[i].id != 0 && Step(k, c).threads[i].id == k.threads[i].id
    ensures Step(k, c).current == k.current
    ensures var t, t' := k.threads[i], Step(k, c).threads[i];
            && t'.runCount == t.runCount && t'.handled == t.handled
            && t'.priority == (if Sets(k, c, t) then c.priority else t.priority)
            && t'.pending == t.pending + (if Sends(k, c, t) then {c.signal} else {})
  {
    NewIdsDiffer(k, i);
    assert Shaped(k);
    if c.SignalCall? || c.PriorityCall? {
      hide Step, Invariant;
      NamedOnRecord(k, c, i);
    } else if !k.halted {
      hide Invariant, Yield, FindThread, FindMutex, FindProcess, FindProcessSlot, FindThreadSlot, FindMutexSlot, NextOwner, FutexWake;
      match c
      case FutexWakeCall(address, count) => FutexWakeEffect(k, address, count);
      case _ =>
    }
  }

  /** What one call does to the record of a thread that keeps its slot. */
  lemma StepOnRecord(k: Kernel, c: Call, i: nat)
    requires Invariant(k) && i < MAX_THREADS && k.threads[i].id != 0 && Step(k, c).threads[i].id == k.threads[i].id
    ensures var t, t', next := k.threads[i], Step(k, c).threads[i], Step(k, c).current;
            && t'.priority == (if Sets(k, c, t) then c.priority else t.priority)
            && Received(t') == Received(t) + (if Sends(k, c, t) then {c.signal} else {})
            && t'.runCount == t.runCount + (if i == next != k.current then 1 else 0)
            && (i == next != k.current ==> t'.pending == {})
  {
    assert Shaped(k);
    hide Step, Invariant;
    if !Switches(c) {
      PlainOnRecord(k, c, i);
    } else if !k.halted {
      SwitchingOnRecord(k, c, i);
    } else {
      HaltedStays(k, c);
    }
  }

  lemma NamedIsFound(k: Kernel, i: nat)
    requires Invariant(k) && i < MAX_THREADS && k.threads[i].state != Empty
    ensures FindThread(k.threads, k.threads[i].id) == i
  {
    hide FindThread;
    FindThreadFinds(k.threads, i);
  }

  // ---- over runs ----

  /** The signals accepted for the thread in slot i. */
  function Sent(k: Kernel, i: nat, calls: seq<Call>): set<nat>
    requires Shaped(k) && i < MAX_THREADS
  {
    if calls == [] then {}
    else
      var before, c := calls[..|calls| - 1], calls[|calls| - 1];
      Sent(k, i, before) + if Sends(Run(k, before), c, Run(k, before).threads[i]) then {c.signal} else {}
  }

  /** The priority last set for the thread in slot i, or the one it had. */
  function LastPriority(k: Kernel, i: nat, calls: seq<Call>): nat
    requires Shaped(k) && i < MAX_THREADS
  {
    if calls == [] then k.threads[i].priority
    else
      var before, c := calls[..|calls| - 1], calls[|calls| - 1];
      if Sets(Run(k, before), c, Run(k, before).threads[i]) then c.priority else LastPriority(k, i, before)
  }

  /** The number of times the processor was switched to slot i. */
  function Dispatches(k: Kernel, i: nat, calls: seq<Call>): nat
    requires Shaped(k)
  {
    if calls == [] then 0
    else
      var before := calls[..|calls| - 1];
      Dispatches(k, i, before) + if Run(k, before).current != i == Run(k, calls).current then 1 else 0
  }

  /** The last call of the run switched to slot i. */
  predicate JustDispatched(k: Kernel, i: nat, calls: seq<Call>)
    requires Shaped(k)
  {
    calls != [] && Run(k, calls[..|calls| - 1]).current != i == Run(k, calls).current
  }

  /**
   Over every run a thread that keeps its slot has received exactly the signals sent to it, has the
   priority last set, and has been counted once for each dispatch; when dispatched it has handled
   every signal.
   */
  lemma {:induction false} RecordTellsHistory(k: Kernel, i: nat, calls: seq<Call>)
    requires Invariant(k) && i < MAX_THREADS && 0 < k.threads[i].id < k.nextThread
    ensures var k' := Run(k, calls);
            && Invariant(k') && k.threads[i].id < k'.nextThread
            && (k'.threads[i].id == k.threads[i].id ==>
                  var t, t' := k.threads[i], k'.threads[i];
                  && Received(t') == Received(t) + Sent(k, i, calls)
                  && t'.priority == LastPriority(k, i, calls)
                  && t'.runCount == t.runCount + Dispatches(k, i, calls)
                  && (JustDispatched(k, i, calls) ==> t'.handled == Received(t')))
  {
    assert Shaped(k);
    hide Step, Invariant, Received, Sends, Sets;
    if calls == [] {
      assert Received(k.threads[i]) + {} == Received(k.threads[i]);
    } else {
      var before, c, x := calls[..|calls| - 1], calls[|calls| - 1], k.threads[i].id;
      var b := Run(k, before);
      RecordTellsHistory(k, i, before);
      StepKeepsInvariant(b, c);
      StepEffect(b, c);
      assert SlotStep(b, Step(b, c), i);
      if Step(b, c).threads[i].id == x {
        StepOnRecord(b, c, i);
        if Step(b, c).threads[i].pending == {} { AllHandled(Step(b, c).threads[i]); }
      }
    }
  }

  lemma AllHandled(t: Thread)
    requires t.pending == {}
    ensures t.handled == Received(t)
  {
  }

  /** A signal makes a sleeping or blocked thread ready, and calls off what it waited for; no other thread is touched. */
  lemma SignalWakes(k: Kernel, i: nat, signal: nat)
    requires Invariant(k) && !k.halted && i < MAX_THREADS && k.threads[i].state != Empty && signal < 32
    ensures var t, k' := k.threads[i], Step(k, SignalCall(k.threads[i].id, signal));
            && k'.threads[i].state == (if t.state == Sleeping || t.state == Blocked then Ready else t.state)
            && (k'.threads[i].state == t.state || (k'.threads[i].wakeTick == 0 && k'.threads[i].waitingMutex == 0))
            && forall j | 0 <= j < MAX_THREADS && j != i :: k'.threads[j] == k.threads[j]
  {
    NamedIsFound(k, i);
    hide FindThread, Ids, OneRunning, NoOrphan, MutexTable, OneQueuePerAddress;
  }

  // ---- deliveries ----

  /** The threads with signals pending before and none after. */
  function Emptied(ts: seq<Thread>, ts': seq<Thread>): set<nat>
    requires |ts'| == |ts|
  {
    set i: nat | i < |ts| && ts[i].pending != {} && ts'[i].pending == {}
  }

  /** A yield counts one delivery for each thread whose pending signals it has handed over: the caller and the one dispatched. */
  lemma YieldCountsDeliveries(k: Kernel)
    requires Shaped(k)
    ensures var k' := Yield(k);
            && k'.delivered == k.delivered + |Emptied(k.threads, k'.threads)|
            && Emptied(k.threads, k'.threads) == set i: nat | i in {k.current, k'.current} && i < MAX_THREADS && k.threads[i].pending != {}
  {
    var k' := Yield(k);
    var to := set i: nat | i in {k.current, k'.current} && i < MAX_THREADS && k.threads[i].pending != {};
    DeliveredBy(k);
    forall i: nat | i < MAX_THREADS ensures i in Emptied(k.threads, k'.threads) <==> i in to { YieldOnRecord(k, i); }
    hide Yield;
    assert Emptied(k.threads, k'.threads) == to;
    var me := if k.threads[k.current].pending != {} then {k.current} else {};
    var next := if k.threads[k'.current].pending != {} then {k'.current} else {};
    assert to == me + next;
  }

  lemma DeliveredBy(k: Kernel)
    requires Shaped(k)
    ensures var k' := Yield(k);
            k'.delivered == k.delivered + (if Current(k).pending != {} then 1 else 0)
                            + (if k'.current != k.current && k.threads[k'.current].pending != {} then 1 else 0)
  {
    hide Select, Slot;
  }
}
