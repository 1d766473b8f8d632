/** Exactly whom a futex wake readies. */
module Futexes {
  import opened Threads
  import opened SchedulerSafety

  /** The distinct ids in the queue, in queue order, whose threads are still blocked and not in `seen`. */
  function BlockedWaiters(ts: seq<Thread>, waiters: seq<nat>, seen: set<nat>): seq<nat>
    decreases |waiters|
  {
    if waiters == [] then []
    else if StillBlocked(ts, waiters[0]) && waiters[0] !in seen then
      [waiters[0]] + BlockedWaiters(ts, waiters[1..], seen + {waiters[0]})
    else BlockedWaiters(ts, waiters[1..], seen)
  }

  /** The table `now` is `before` with the threads in `seen` no longer blocked. */
  ghost predicate Unblocked(before: seq<Thread>, now: seq<Thread>, seen: set<nat>) {
    forall id :: StillBlocked(now, id) <==> StillBlocked(before, id) && id !in seen
  }

  lemma ReadiedUnblocks(before: seq<Thread>, now: seq<Thread>, seen: set<nat>, id: nat)
    requires DistinctIds(now) && Unblocked(before, now, seen) && StillBlocked(now, id)
    ensures Unblocked(before, Readied(now, id), seen + {id}) && DistinctIds(Readied(now, id))
  {
    var i := FindThread(now, id);
    forall other ensures StillBlocked(Readied(now, id), other) <==> StillBlocked(now, other) && other != id {
      BlockedAfterReadying(now, id, other);
    }
  }

  lemma BlockedAfterReadying(now: seq<Thread>, id: nat, other: nat)
    requires DistinctIds(now) && StillBlocked(now, id)
    ensures StillBlocked(Readied(now, id), other) <==> StillBlocked(now, other) && other != id
  {
    hide FindThread;
    var next, i, j, j' := Readied(now, id), FindThread(now, id), FindThread(now, other), FindThread(Readied(now, id), other);
    assert DistinctIds(next);
    FindThreadFinds(next, i);
    if j < |now| { FindThreadFinds(next, j); }
    if j' < |next| { FindThreadFinds(now, j'); }
  }

  function Least(a: nat, b: nat): nat {
    if a < b then a else b
  }

  function Members(ids: seq<nat>): set<nat> {
    set id | id in ids
  }

  /** The part of the queue a wake popped. */
  function Popped(waiters: seq<nat>, r: WakeResult): seq<nat>
    requires |r.rest| <= |waiters|
  {
    waiters[..|waiters| - |r.rest|]
  }

  lemma SameBlocked(before: seq<Thread>, now: seq<Thread>, seen: set<nat>, id: nat)
    requires Unblocked(before, now, seen)
    ensures StillBlocked(now, id) <==> StillBlocked(before, id) && id !in seen
  {
  }

  lemma NothingSeen(all: seq<nat>, seen: set<nat>)
    ensures seen + Members(all[..0]) == seen
  {
  }

  lemma PoppedOneMore(waiters: seq<nat>, r: WakeResult, r1: WakeResult)
    requires waiters != [] && r.rest == r1.rest && |r.rest| < |waiters|
    ensures Popped(waiters, r) == [waiters[0]] + Popped(waiters[1..], r1)
  {
  }

  /** What a wake leaves of the queue is its end, in order. */
  lemma {:induction false} WakeKeepsOrder(now: seq<Thread>, waiters: seq<nat>, count: nat)
    ensures var r := WakeWaiters(now, waiters, count); waiters == Popped(waiters, r) + r.rest
    decreases |waiters|
  {
    hide StillBlocked, Readied;
    if count > 0 && waiters != [] {
      var blocked := StillBlocked(now, waiters[0]);
      var now1, count1 := if blocked then Readied(now, waiters[0]) else now, if blocked then count - 1 else count;
      WakeKeepsOrder(now1, waiters[1..], count1);
      PoppedOneMore(waiters, WakeWaiters(now, waiters, count), WakeWaiters(now1, waiters[1..], count1));
    }
  }

  lemma HeadSeen(head: nat, tail: seq<nat>, n: nat, seen: set<nat>)
    requires n <= |tail|
    ensures seen + Members(([head] + tail)[..n + 1]) == seen + {head} + Members(tail[..n])
  {
    assert ([head] + tail)[..n + 1] == [head] + tail[..n];
  }

  /**
   A wake readies exactly the first `count` distinct, still blocked waiters, reports how many there
   were, and empties the queue if there were fewer.
   */
  lemma {:induction false} WakeExact(before: seq<Thread>, now: seq<Thread>, seen: set<nat>, waiters: seq<nat>, count: nat)
    requires DistinctIds(now) && Unblocked(before, now, seen)
    ensures var r, all := WakeWaiters(now, waiters, count), BlockedWaiters(before, waiters, seen);
            && r.woken == Least(count, |all|)
            && Unblocked(before, r.threads, seen + Members(all[..r.woken]))
            && (r.woken < count ==> r.rest == [])
    decreases |waiters|
  {
    hide StillBlocked, Readied, FindThread, DistinctIds, Unblocked, Members;
    if waiters != [] { SameBlocked(before, now, seen, waiters[0]); }
    var all := BlockedWaiters(before, waiters, seen);
    if count == 0 || waiters == [] {
      NothingSeen(all, seen);
    } else if StillBlocked(now, waiters[0]) {
      var head := waiters[0];
      ReadiedUnblocks(before, now, seen, head);
      WakeExact(before, Readied(now, head), seen + {head}, waiters[1..], count - 1);
      var tail := BlockedWaiters(before, waiters[1..], seen + {head});
      assert all == [head] + tail;
      HeadSeen(head, tail, Least(count - 1, |tail|), seen);
    } else {
      WakeExact(before, now, seen, waiters[1..], count);
    }
  }

  /** No waiter is popped in vain: all but the last popped id held one fewer of the waiters readied. */
  lemma {:induction false} WakePopsShortestPrefix(before: seq<Thread>, now: seq<Thread>, seen: set<nat>, waiters: seq<nat>, count: nat)
    requires DistinctIds(now) && Unblocked(before, now, seen)
    requires 0 < WakeWaiters(now, waiters, count).woken == count
    ensures var popped := Popped(waiters, WakeWaiters(now, waiters, count));
            && popped != []
            && |BlockedWaiters(before, popped, seen)| == count
            && |BlockedWaiters(before, popped[..|popped| - 1], seen)| == count - 1
    decreases |waiters|
  {
    hide StillBlocked, Readied, FindThread;
    var head := waiters[0];
    var blocked := StillBlocked(now, head);
    var now1 := if blocked then Readied(now, head) else now;
    var seen1 := if blocked then seen + {head} else seen;
    var count1 := if blocked then count - 1 else count;
    if blocked { ReadiedUnblocks(before, now, seen, head); }
    var r1 := WakeWaiters(now1, waiters[1..], count1);
    var popped, popped1 := Popped(waiters, WakeWaiters(now, waiters, count)), Popped(waiters[1..], r1);
    PoppedOneMore(waiters, WakeWaiters(now, waiters, count), r1);
    assert popped[1..] == popped1;
    if count1 > 0 {
      WakePopsShortestPrefix(before, now1, seen1, waiters[1..], count1);
      assert popped[..|popped| - 1] == [head] + popped1[..|popped1| - 1];
      assert popped[..|popped| - 1][1..] == popped1[..|popped1| - 1];
    }
  }

  /** The same, for the kernel call: who is blocked afterwards, and what is left of the queue. */
  lemma FutexWakeExact(k: Kernel, address: nat, count: nat)
    requires Invariant(k) && address != 0 && count != 0 && FindQueue(k.futexes, address) < MAX_FUTEXES
    ensures var q := FindQueue(k.futexes, address);
            var waiters, k' := k.futexes[q].waiters, FutexWake(k, address, count);
            var all := BlockedWaiters(k.threads, waiters, {});
            var woken := WakeWaiters(k.threads, waiters, count).woken;
            && woken == Least(count, |all|)
            && OnlyReadies(k.threads, k'.threads)
            && (forall id :: StillBlocked(k'.threads, id) <==> StillBlocked(k.threads, id) && id !in all[..woken])
            && |k'.futexes[q].waiters| <= |waiters|
            && k'.futexes[q].waiters == waiters[|waiters| - |k'.futexes[q].waiters|..]
            && (woken < count ==> k'.futexes[q].waiters == [])
            && (k'.futexes[q].active <==> k'.futexes[q].waiters != [])
  {
    hide FindQueue, StillBlocked, WakeWaiters, BlockedWaiters, NoOrphan, OneRunning, MutexTable;
    var waiters := k.futexes[FindQueue(k.futexes, address)].waiters;
    WakeExact(k.threads, k.threads, {}, waiters, count);
    WakeKeepsOrder(k.threads, waiters, count);
    WakeOnlyReadies(k.threads, waiters, count);
  }
}
