/** Several owners of pages sharing one allocator: a partition of the pages that are not free. */
module Ownership {
  import opened Frames
  import opened Memory

  /** No page has two owners, and no owned page is free. */
  ghost predicate Partitioned(m: Memory, owners: seq<set<nat>>) {
    && (forall i | 0 <= i < |owners| :: Apart(m, owners[i]))
    && forall i, j | 0 <= i < j < |owners| :: owners[i] !! owners[j]
  }

  /** All pages that are free or owned. */
  function Pool(m: Memory, owners: seq<set<nat>>): set<nat> {
    m.free + AllOwned(owners)
  }

  function AllOwned(owners: seq<set<nat>>): set<nat> {
    set i, p | 0 <= i < |owners| && p in owners[i] :: p
  }

  /** A call that moves pages between one owner and the free set leaves the other owners' pages and contents alone. */
  lemma OthersUndisturbed(m: Memory, owners: seq<set<nat>>, k: nat, m': Memory, own': set<nat>)
    requires Partitioned(m, owners) && k < |owners| && Moves(m, owners[k], m', own')
    ensures forall i | 0 <= i < |owners| && i != k ::
              owners[i] !! own' && Apart(m', owners[i]) && forall p | p in owners[i] && p < PAGE_COUNT :: m'.ram[p] == m.ram[p]
  {
    forall i | 0 <= i < |owners| && i != k
      ensures owners[i] !! own' && Apart(m', owners[i]) && forall p | p in owners[i] && p < PAGE_COUNT :: m'.ram[p] == m.ram[p]
    {
      assert owners[i] !! owners[k] && Apart(m, owners[i]);
      forall p | p in owners[i] ensures p !in own' && p !in m'.free { assert p !in owners[k] + m.free; }
    }
  }

  /** So the partition is kept, and no page is lost or made. */
  lemma PartitionKept(m: Memory, owners: seq<set<nat>>, k: nat, m': Memory, own': set<nat>)
    requires Partitioned(m, owners) && k < |owners| && Moves(m, owners[k], m', own')
    ensures Partitioned(m', owners[k := own']) && Pool(m', owners[k := own']) == Pool(m, owners)
  {
    OthersUndisturbed(m, owners, k, m', own');
    var after := owners[k := own'];
    forall i, j | 0 <= i < j < |after| ensures after[i] !! after[j] {
    }
    AllOwnedSplit(owners, k);
    AllOwnedSplit(after, k);
    OthersSame(owners, k, after);
  }

  lemma OthersSame(owners: seq<set<nat>>, k: nat, after: seq<set<nat>>)
    requires |after| == |owners| && forall i | 0 <= i < |owners| && i != k :: after[i] == owners[i]
    ensures Others(after, k) == Others(owners, k)
  {
    forall p | p in Others(owners, k) ensures p in Others(after, k) {
      var i :| 0 <= i < |owners| && i != k && p in owners[i];
      assert p in after[i];
    }
    forall p | p in Others(after, k) ensures p in Others(owners, k) {
      var i :| 0 <= i < |after| && i != k && p in after[i];
      assert p in owners[i];
    }
  }

  function Others(owners: seq<set<nat>>, k: nat): set<nat> {
    set i, p | 0 <= i < |owners| && i != k && p in owners[i] :: p
  }

  lemma AllOwnedSplit(owners: seq<set<nat>>, k: nat)
    requires k < |owners|
    ensures AllOwned(owners) == owners[k] + Others(owners, k)
  {
  }

  /** The numbers of pages owned, added up. */
  function Sizes(owners: seq<set<nat>>): nat {
    if owners == [] then 0 else Sizes(owners[..|owners| - 1]) + |owners[|owners| - 1]|
  }

  lemma {:induction false} OwnedSize(owners: seq<set<nat>>)
    requires forall i, j | 0 <= i < j < |owners| :: owners[i] !! owners[j]
    ensures |AllOwned(owners)| == Sizes(owners)
  {
    if owners == [] {
      assert AllOwned(owners) == {};
    } else {
      var n := |owners| - 1;
      var front := owners[..n];
      OwnedSize(front);
      AllOwnedFront(owners);
      assert AllOwned(front) !! owners[n];
    }
  }

  lemma AllOwnedFront(owners: seq<set<nat>>)
    requires owners != []
    ensures AllOwned(owners) == AllOwned(owners[..|owners| - 1]) + owners[|owners| - 1]
  {
    var n := |owners| - 1;
    var front := owners[..n];
    forall p | p in AllOwned(front) ensures p in AllOwned(owners) {
      var i :| 0 <= i < n && p in front[i];
      assert p in owners[i];
    }
    forall p | p in AllOwned(owners) ensures p in AllOwned(front) + owners[n] {
      var i :| 0 <= i < |owners| && p in owners[i];
      if i < n { assert p in front[i]; }
    }
  }

  lemma PoolSize(m: Memory, owners: seq<set<nat>>)
    requires Partitioned(m, owners)
    ensures |Pool(m, owners)| == |m.free| + Sizes(owners)
  {
    OwnedSize(owners);
    assert m.free !! AllOwned(owners);
  }

  // ---- runs of pages ----

  const HEAP_PAGES := 128
  const HUGE_PAGES := 512

  /** The address of a huge page: not 0, and a multiple of 2 MiB. */
  predicate WholeHugePage(address: nat) {
    address != 0 && address % (HUGE_PAGES * PAGE_SIZE) == 0
  }

  /** Take the lowest free aligned run of pages. */
  function TakeRun(m: Memory, count: nat, alignment: nat): (Memory, nat)
    requires alignment > 0
  {
    var s := FirstFit(m.free, count, alignment);
    if s == PAGE_COUNT then (m, 0) else (m.(free := m.free - Run(s, count)), s * PAGE_SIZE)
  }

  lemma TakeRunMoves(m: Memory, own: set<nat>, count: nat, alignment: nat)
    requires Apart(m, own) && count > 0 && alignment > 0
    ensures var (m', a) := TakeRun(m, count, alignment);
            && (a == 0 ==> m' == m)
            && (a == 0 <==> forall c | 0 <= c < PAGE_COUNT :: !Candidate(m.free, count, alignment, c))
            && (a != 0 ==> IsPage(a) && PageOf(a) % alignment == 0 && Run(PageOf(a), count) <= m.free
                           && Moves(m, own, m', own + Run(PageOf(a), count)))
  {
    var s := FirstFit(m.free, count, alignment);
    if s < PAGE_COUNT {
      assert Candidate(m.free, count, alignment, s);
      assert s in m.free && s > 0;
    }
  }

  function GiveRun(m: Memory, pages: set<nat>): Memory {
    m.(free := m.free + pages)
  }

  lemma GiveRunMoves(m: Memory, own: set<nat>, pages: set<nat>)
    requires Apart(m, own) && pages <= own && forall p | p in pages :: 0 < p < PAGE_COUNT
    ensures Moves(m, own, GiveRun(m, pages), own - pages)
  {
  }
}
