/** What one dispatch does: selection is exact, nobody is bypassed for ever, sleepers wake on time. */
module Dispatching {
  import opened Threads

  lemma OffsetOfSlot(start: nat, o: nat)
    requires start < MAX_THREADS && 1 <= o <= MAX_THREADS
    ensures Offset(start, Slot(start, o)) == o
  {
  }

  /** Thread i beats thread j: higher priority, or equal priority and first going round from `start`. */
  predicate Beats(ts: seq<Thread>, start: nat, i: nat, j: nat)
    requires |ts| == MAX_THREADS && start < MAX_THREADS && i < MAX_THREADS && j < MAX_THREADS
  {
    ts[i].priority > ts[j].priority || (ts[i].priority == ts[j].priority && Offset(start, i) <= Offset(start, j))
  }

  /**
   The scan picks a ready thread that beats every other ready thread it has seen, and returns -1
   only if it has seen none: priority first, round robin among equals.
   */
  lemma {:induction false} SelectIsFirstOfHighestPriority(ts: seq<Thread>, start: nat, n: nat)
    requires |ts| == MAX_THREADS && start < MAX_THREADS && n <= MAX_THREADS
    ensures var r := Select(ts, start, n);
            && (r >= 0 ==> ts[r].state == Ready && Offset(start, r) <= n)
            && forall j | 0 <= j < MAX_THREADS && ts[j].state == Ready && Offset(start, j) <= n :: r >= 0 && Beats(ts, start, r, j)
  {
    hide Slot;
    if n > 0 {
      SelectIsFirstOfHighestPriority(ts, start, n - 1);
      OffsetOfSlot(start, n);
      forall j | 0 <= j < MAX_THREADS && Offset(start, j) == n ensures j == Slot(start, n) {
      }
    }
  }

  /** Once the scan has gone all the way round, every thread has been seen. */
  lemma SelectCoversTable(ts: seq<Thread>, start: nat)
    requires |ts| == MAX_THREADS && start < MAX_THREADS
    ensures var r := Select(ts, start, MAX_THREADS);
            && (r >= 0 ==> ts[r].state == Ready)
            && forall j | 0 <= j < MAX_THREADS && ts[j].state == Ready :: r >= 0 && Beats(ts, start, r, j)
  {
    hide Select;
    SelectIsFirstOfHighestPriority(ts, start, MAX_THREADS);
  }

  // ---- bounded bypass ----

  /** When the yield makes its selection, thread t is ready and no ready thread has a higher priority. */
  ghost predicate ReadyAndMaximal(k: Kernel, t: nat)
    requires Shaped(k)
  {
    var ts := BeforeSelection(k).threads;
    && t < MAX_THREADS && t != k.current
    && ts[t].state == Ready
    && forall j | 0 <= j < MAX_THREADS && ts[j].state == Ready :: ts[j].priority <= ts[t].priority
  }

  /** A yield either dispatches such a thread or moves the current slot closer to it. */
  lemma YieldApproaches(k: Kernel, t: nat)
    requires Shaped(k) && ReadyAndMaximal(k, t)
    ensures var next := Yield(k).current; next == t || Offset(next, t) < Offset(k.current, t)
    ensures var next := Yield(k).current; next != k.current && Yield(k).threads[next].state == Running
  {
    hide Select, Slot;
    SelectCoversTable(BeforeSelection(k).threads, k.current);
  }

  /**
   Bounded bypass. `ks` lists the states in which successive yields happen; between them anything
   may change (threads may wake, be created, change priority) as long as the processor stays with
   the thread just dispatched and t remains ready and of maximal priority. If none of these yields
   dispatches t, there are fewer of them than slots from the current one to t.
   */
  lemma {:induction false} BoundedBypass(ks: seq<Kernel>, t: nat)
    requires ks != [] && Shaped(ks[0]) && t < MAX_THREADS
    requires forall i | 0 <= i < |ks| :: Shaped(ks[i]) && ReadyAndMaximal(ks[i], t)
    requires forall i | 0 <= i < |ks| - 1 :: ks[i + 1].current == Yield(ks[i]).current
    requires forall i | 0 <= i < |ks| :: Yield(ks[i]).current != t
    ensures |ks| < Offset(ks[0].current, t) <= MAX_THREADS - 1
  {
    hide Yield, ReadyAndMaximal;
    YieldApproaches(ks[0], t);
    assert t != ks[0].current by { NotCurrent(ks[0], t); }
    if |ks| > 1 {
      assert ks[1].current == Yield(ks[0]).current;
      BoundedBypass(ks[1..], t);
    }
  }

  lemma NotCurrent(k: Kernel, t: nat)
    requires Shaped(k) && ReadyAndMaximal(k, t)
    ensures t != k.current
  {
  }

  // ---- waking ----

  /** After a yield or a tick no sleeper has overslept, and ticks advance by one. */
  lemma NobodyOversleeps(k: Kernel)
    requires Shaped(k)
    ensures forall i | 0 <= i < MAX_THREADS :: !Due(Yield(k).threads[i], Yield(k).tick)
    ensures forall i | 0 <= i < MAX_THREADS :: !Due(Tick(k).threads[i], Tick(k).tick)
    ensures Yield(k).tick == Tick(k).tick == k.tick + 1
  {
    hide Select;
  }

  /**
   A yield returns to its caller without a dispatch exactly when, after waking, every other ready
   thread has a lower priority than the caller and the caller is itself ready, in particular when
   no other thread is ready at all. The caller may then go on Ready, Blocked or Finished, but never
   Sleeping.
   */
  lemma YieldReturnsToCaller(k: Kernel)
    requires Shaped(k)
    ensures var ts, me := BeforeSelection(k).threads, k.current;
            Yield(k).current == me <==>
              forall j | 0 <= j < MAX_THREADS && j != me && ts[j].state == Ready ::
                ts[me].state == Ready && ts[me].priority > ts[j].priority
    ensures Yield(k).current == k.current ==> Current(Yield(k)).state != Sleeping
  {
    hide Select, Slot;
    SelectCoversTable(BeforeSelection(k).threads, k.current);
  }
}
