/** What slab objects hold, over runs of every manager's calls: a live object's bytes are its holder's alone. */
module SlabObjects {
  import opened Bytes
  import opened Frames
  import opened Memory
  import opened Ownership
  import opened Slab
  import opened SlabSafety
  import Systems = MemorySystem

  /** Address b is a live object of cache i. */
  predicate LiveObject(t: Slab, i: nat, b: nat) {
    i < CACHES <= |t.caches| && IsObject(t.caches[i], b) && b in t.live
  }

  /** The object is still live, in the same cache, and holds the same bytes. */
  ghost predicate KeptObject(t: Slab, t': Slab, i: nat, b: nat) {
    && LiveObject(t, i, b) && LiveObject(t', i, b)
    && t'.caches[i].objectSize == t.caches[i].objectSize && Offset(b) + t.caches[i].objectSize <= PAGE_SIZE
    && BytesAt(t'.memory, b, t.caches[i].objectSize) == BytesAt(t.memory, b, t.caches[i].objectSize)
  }

  /** The call gives the object back or writes it. */
  predicate Uses(c: Systems.SlabCall, b: nat) {
    (c.SlabFree? && c.item == b) || (c.SlabWrite? && c.item == b)
  }

  lemma LiveObjectFits(t: Slab, i: nat, b: nat)
    requires Invariant(t) && LiveObject(t, i, b)
    ensures Offset(b) + t.caches[i].objectSize <= PAGE_SIZE && PageOf(b) < PAGE_COUNT && |t.memory.ram| == PAGE_COUNT
    ensures PageOf(b) in Held(Pages(t.caches)) && PageOf(b) !in t.memory.free && PageOf(b) == PageOf(t.caches[i].page)
    ensures t.caches[i].page != 0 && IsPage(t.caches[i].page)
  {
    LiveIsHeld(t, b);
    PageIsHeld(t.memory, t.caches, i);
    ObjectsDoNotOverlap(t.caches[i], b, b);
  }

  // ---- the slab's own calls ----

  lemma {:induction false} PrimeKeepsPages(t: Slab, k: nat)
    requires Invariant(t) && k <= CACHES
    ensures InvariantHas(t)
    ensures var t' := Prime(t, k).0;
            && |t'.caches| == CACHES && t'.live == t.live && |t'.memory.ram| == |t.memory.ram| == PAGE_COUNT
            && (forall i | 0 <= i < CACHES && t.caches[i].page != 0 :: t'.caches[i] == t.caches[i])
            && t'.memory.free <= t.memory.free
            && forall p | 0 <= p < PAGE_COUNT && p !in t.memory.free :: t'.memory.ram[p] == t.memory.ram[p]
    decreases CACHES - k
  {
    assert Sound(t.memory);
    PrimeStep(t, k);
    hide Grow, Held, Moves, Invariant, Countable, Prime, Take;
    if k < CACHES {
      GrowsOnlyOnce(t.memory, t.caches[k]);
      var (m, c, ok) := Grow(t.memory, t.caches[k]);
      if ok {
        GrownCache(t.memory, t.caches[k], Take(t.memory).1);
        TakeIsExact(t.memory);
        PrimeKeepsPages(Slab(m, t.caches[k := c], t.live), k + 1);
      }
    }
  }

  lemma AllocateKeepsCache(t: Slab, size: nat, i: nat, b: nat)
    requires Invariant(t) && LiveObject(t, i, b)
    ensures LiveObject(Allocate(t, size).0, i, b) && Allocate(t, size).0.caches[i].objectSize == t.caches[i].objectSize
  {
    AllocateSteps(t, size);
    AllocateKeepsInvariant(t, size);
    assert forall j | 0 <= j < CACHES :: Countable(t.caches[j]);
    hide Allocate, Load, ListInvariant, Owns, Moves, FindCache;
  }

  lemma WriteKeepsObject(t: Slab, j: nat, item: nat, a: nat, bytes: seq<byte>, i: nat, b: nat)
    requires Invariant(t) && LiveObject(t, i, b) && LiveObject(t, j, item) && item != b
    requires bytes != [] && item <= a && a + |bytes| <= item + t.caches[j].objectSize && Offset(a) + |bytes| <= PAGE_SIZE
    ensures KeptObject(t, Write(t, a, bytes), i, b)
  {
    LiveObjectFits(t, i, b);
    LiveObjectFits(t, j, item);
    var ci, cj := t.caches[i], t.caches[j];
    WithinPage(cj, item, a, |bytes|);
    ObjectsDoNotOverlap(ci, b, b);
    ObjectsDoNotOverlap(cj, item, item);
    if i == j {
      ObjectsDoNotOverlap(ci, b, item);
    } else {
      PageIsHeld(t.memory, t.caches, i);
      assert cj.page + PAGE_SIZE <= ci.page || ci.page + PAGE_SIZE <= cj.page;
    }
    hide Invariant, Held, IsObject, Spliced;
    BytesElsewhere(t.memory, a, bytes, b, ci.objectSize);
  }

  lemma FreeKeepsLive(t: Slab, item: nat, size: nat, i: nat, b: nat)
    requires Invariant(t) && LiveObject(t, i, b) && item != b
    ensures LiveObject(Free(t, item, size), i, b) && Free(t, item, size).caches[i].objectSize == t.caches[i].objectSize
  {
    hide FindCache, Store, Invariant;
  }

  /** Whatever call the slab allocator serves, every other live object keeps its bytes. */
  lemma SlabCallKeepsObject(t: Slab, c: Systems.SlabCall, i: nat, b: nat)
    requires Invariant(t) && Systems.SlabLegal(t, c) && LiveObject(t, i, b) && !Uses(c, b)
    ensures InvariantHas(t) && KeptObject(t, Systems.SlabStep(t, c), i, b)
  {
    InvariantCounts(t);
    LiveObjectFits(t, i, b);
    hide Invariant, IsObject, Prime, Allocate, Free, Write, BytesAt, Matched, Accepts;
    match c {
      case SlabPrime => PrimeKeepsPages(t, 0); PageBytes(t.memory, Systems.SlabStep(t, c).memory, b, t.caches[i].objectSize);
      case SlabAllocate(size) => AllocateKeepsCache(t, size, i, b); AllocateKeepsObject(t, size, i, b);
      case SlabFree(item, size) =>
        if Accepts(t, item, size) {
          FreeKeepsLive(t, item, size, i, b);
          FreeKeepsObject(t, item, size, i, b);
        } else {
          FreeRefused(t, item, size);
        }
      case SlabWrite(j, item, a, bytes) => WriteKeepsObject(t, j, item, a, bytes, i, b);
    }
  }

  lemma FreeRefused(t: Slab, item: nat, size: nat)
    requires !Accepts(t, item, size)
    ensures Free(t, item, size) == t
  {
  }

  lemma PageBytes(m: Memory, m': Memory, b: nat, n: nat)
    requires |m.ram| == |m'.ram| == PAGE_COUNT && PageOf(b) < PAGE_COUNT && Offset(b) + n <= PAGE_SIZE && m'.ram[PageOf(b)] == m.ram[PageOf(b)]
    ensures BytesAt(m', b, n) == BytesAt(m, b, n)
  {
  }

  // ---- every manager's calls ----

  /** Only slab calls change the slab allocator's tables. */
  lemma OthersKeepTables(s: Systems.System, c: Systems.Call)
    requires Systems.Invariant(s) && Systems.Legal(s, c)
    ensures !c.SlabDo? ==> Systems.Step(s, c).caches == s.caches && Systems.Step(s, c).live == s.live
    ensures c.SlabDo? ==> InvariantHas(Systems.SlabPart(s)) && Systems.SlabPart(Systems.Step(s, c)) == Systems.SlabStep(Systems.SlabPart(s), c.slab)
    ensures Systems.SlabPart(s).memory == s.memory && Systems.Owned(s, Systems.SLAB) == Held(Pages(s.caches))
  {
    Systems.GoodParts(s);
    hide Systems.Invariant, Held, Systems.SlabStep, InvariantHas;
  }

  /** Whole pages that callers write, or swap into, are never the slab allocator's. */
  lemma LegalWritesMissSlab(s: Systems.System, c: Systems.Call, p: nat)
    requires Systems.Invariant(s) && Systems.Legal(s, c) && !c.SlabDo? && p in Systems.Owned(s, Systems.SLAB)
    ensures !Systems.Disturbs(c, Systems.SLAB, p)
  {
    assert Partitioned(s.memory, Systems.Owners(s)) by { Systems.InvariantPartitions(s); }
    hide Systems.Invariant, Systems.Owned, Held, Systems.Good;
    match c {
      case SwapIn(slot, destination, owner) => if destination != 0 { OwnersDiffer(s, owner, Systems.SLAB, destination); }
      case PageWrite(address, contents, owner) => OwnersDiffer(s, owner, Systems.SLAB, address);
      case _ =>
    }
  }

  lemma OwnersDiffer(s: Systems.System, j: nat, k: nat, address: nat)
    requires Partitioned(s.memory, Systems.Owners(s)) && j < Systems.OWNERS && k < Systems.OWNERS && j != k
    ensures PageOf(address) in Systems.Owned(s, j) ==> PageOf(address) !in Systems.Owned(s, k)
  {
    hide Systems.Owned;
    var owners := Systems.Owners(s);
    assert owners[j] !! owners[k];
  }

  lemma StepKeepsObject(s: Systems.System, c: Systems.Call, i: nat, b: nat)
    requires Systems.Invariant(s) && Systems.Legal(s, c) && LiveObject(Systems.SlabPart(s), i, b)
    requires c.SlabDo? ==> !Uses(c.slab, b)
    ensures KeptObject(Systems.SlabPart(s), Systems.SlabPart(Systems.Step(s, c)), i, b)
  {
    var t := Systems.SlabPart(s);
    assert Invariant(t) by { Systems.Facts(s, Systems.SLAB); }
    OthersKeepTables(s, c);
    LiveObjectFits(t, i, b);
    hide Invariant, Systems.Invariant, Systems.Step, Systems.SlabStep, Systems.Owned, Held, IsObject, BytesAt;
    if c.SlabDo? {
      SlabCallKeepsObject(t, c.slab, i, b);
    } else {
      LegalWritesMissSlab(s, c, PageOf(b));
      Systems.StepKeepsPage(s, c, Systems.SLAB, PageOf(b));
      PageBytes(s.memory, Systems.Step(s, c).memory, b, t.caches[i].objectSize);
    }
  }

  /**
   A live object keeps its bytes over every run of the managers' calls that neither gives it back
   nor writes it: allocations, frees and writes of other objects included.
   */
  lemma {:induction false} ObjectIsSafe(s: Systems.System, calls: seq<Systems.Call>, i: nat, b: nat)
    requires Systems.Invariant(s) && Systems.LegalRun(s, calls) && LiveObject(Systems.SlabPart(s), i, b)
    requires forall c | c in calls :: c.SlabDo? ==> !Uses(c.slab, b)
    ensures KeptObject(Systems.SlabPart(s), Systems.SlabPart(Systems.RunOf(s, calls)), i, b)
    decreases |calls|
  {
    LiveObjectFits(Systems.SlabPart(s), i, b) by { Systems.Facts(s, Systems.SLAB); }
    hide Systems.Invariant, Systems.Step, Systems.Legal, IsObject, BytesAt, Uses;
    if calls != [] {
      assert calls[0] in calls;
      Systems.StepKeepsInvariant(s, calls[0]);
      StepKeepsObject(s, calls[0], i, b);
      ObjectIsSafe(Systems.Step(s, calls[0]), calls[1..], i, b);
    }
  }
}
