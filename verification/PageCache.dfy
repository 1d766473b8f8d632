/** The page cache as the program keeps it. */
module PageCache {
  import opened Frames
  import opened PhysicalMemory
  import opened Memory
  import opened CachedPages

  class PageCache {
    const pmm: PhysicalMemoryManager
    const ram: Ram
    const entries: array<Entry>

    ghost predicate Valid()
      reads pmm, pmm.bitmap, ram.pages, entries
    {
      Separate() && Running(pmm, ram) && CacheConsistent(View(pmm, ram), entries[..])
    }

    /** The entries share no storage with the bitmap or the pages. */
    ghost predicate Separate() {
      entries.Length == ENTRIES && (entries as object) != pmm.bitmap && (entries as object) != ram.pages
    }

    constructor (pmm: PhysicalMemoryManager, ram: Ram)
      requires Running(pmm, ram)
      ensures Valid() && this.pmm == pmm && this.ram == ram && fresh(entries)
      ensures forall k | 0 <= k < ENTRIES :: entries[k] == NoEntry
    {
      this.pmm, this.ram := pmm, ram;
      entries := new Entry[ENTRIES](_ => NoEntry);
      new;
      HeldNothing(Physicals(entries[..]));
    }

    method AcquirePage(file: nat, offset: nat) returns (physical: nat)
      requires Valid()
      modifies entries, pmm, pmm.bitmap, ram.pages
      ensures Valid()
      ensures Acquired(View(pmm, ram), entries[..], physical) == old(Acquire(View(pmm, ram), entries[..], file, offset))
    {
      hide FindEntry, FindInactive, Take, CacheConsistent, Running, View, Moves, Filled, SameIdentity, CachedAs;
      ghost var m, es := View(pmm, ram), entries[..];
      AcquireMoves(m, es, file, offset);
      FreshForCache(m, es) by { assert CacheConsistent(m, es); }
      for k := 0 to ENTRIES
        invariant Valid() && View(pmm, ram) == m && entries[..] == es
        invariant FindEntry(es, file, offset) == FindEntry(es, file, offset, k)
      {
        FindEntryStep(es, file, offset, k);
        if Caches(entries[k], file, offset) {
          entries[k] := Referenced(entries[k]);
          assert entries[..] == es[k := entries[k]];
          return entries[k].physical;
        }
      }
      FindEntryEnd(es, file, offset);
      physical := CachePage(file, offset, m, es);
    }

    /** The second half of an acquisition: a page for a file page that is not cached. */
    method CachePage(file: nat, offset: nat, ghost m: Memory, ghost es: seq<Entry>) returns (physical: nat)
      requires Valid() && View(pmm, ram) == m && entries[..] == es
      modifies entries, pmm, pmm.bitmap, ram.pages
      ensures Running(pmm, ram)
      ensures var i, (m', a) := FindInactive(es), Take(m);
              Acquired(View(pmm, ram), entries[..], physical) ==
                if i == ENTRIES || a == 0 then Acquired(m, es, 0)
                else Acquired(Filled(m', a, Zeros(PAGE_SIZE)), es[i := Entry(file, offset, a, 1, false, true)], a)
    {
      hide FindInactive, Take, CacheConsistent, Running, View, Filled;
      FreshForCache(m, es);
      for k := 0 to ENTRIES
        invariant Valid() && View(pmm, ram) == m && entries[..] == es
        invariant FindInactive(es) == FindInactive(es, k)
      {
        FindInactiveStep(es, k);
        if !entries[k].active {
          physical := TakePage(pmm, ram);
          if physical == 0 {
            return 0;
          }
          ClearPage(pmm, ram, physical);
          entries[k] := Entry(file, offset, physical, 1, false, true);
          assert entries[..] == es[k := entries[k]];
          return physical;
        }
      }
      FindInactiveEnd(es);
      physical := 0;
    }

    method MarkPageDirty(physical: nat)
      requires Valid()
      modifies entries
      ensures Valid() && entries[..] == MarkDirty(old(entries[..]), physical)
    {
      hide Running, View;
      ghost var es := entries[..];
      MarkDirtyKeepsTable(es, physical);
      for k := 0 to ENTRIES
        invariant forall j | 0 <= j < ENTRIES :: entries[j] == if j < k then MarkDirty(es, physical)[j] else es[j]
      {
        if entries[k].active && entries[k].physical == physical {
          entries[k] := entries[k].(dirty := true);
        }
      }
      assert entries[..] == MarkDirty(es, physical);
    }

    method ReleasePage(physical: nat) returns (released: bool)
      requires Valid()
      modifies entries
      ensures Valid() && entries[..] == Release(old(entries[..]), physical)
      ensures released == (FindReferenced(old(entries[..]), physical) < ENTRIES)
    {
      hide FindReferenced, CacheConsistent, Running, View, SameIdentity;
      ghost var es := entries[..];
      ReleaseKeeps(View(pmm, ram), es, physical);
      for k := 0 to ENTRIES
        invariant Valid() && entries[..] == es
        invariant FindReferenced(es, physical) == FindReferenced(es, physical, k)
      {
        FindReferencedStep(es, physical, k);
        if Releasable(entries[k], physical) {
          entries[k] := entries[k].(references := entries[k].references - 1);
          assert entries[..] == es[k := entries[k]];
          return true;
        }
      }
      FindReferencedEnd(es, physical);
      released := false;
    }

    method EvictPage(file: nat, offset: nat) returns (evicted: bool)
      requires Valid()
      modifies entries, pmm, pmm.bitmap
      ensures Valid() && (View(pmm, ram), entries[..]) == old(Evict(View(pmm, ram), entries[..], file, offset))
      ensures evicted == (FindEvictable(old(entries[..]), file, offset) < ENTRIES)
    {
      hide FindEvictable, CacheConsistent, Running, View, Moves, Give;
      ghost var m, es := View(pmm, ram), entries[..];
      EvictMoves(m, es, file, offset);
      for k := 0 to ENTRIES
        invariant Valid() && View(pmm, ram) == m && entries[..] == es
        invariant FindEvictable(es, file, offset) == FindEvictable(es, file, offset, k)
      {
        FindEvictableStep(es, file, offset, k);
        if Evictable(entries[k], file, offset) {
          ActiveIsPage(m, es, k);
          GivePage(pmm, ram, entries[k].physical);
          entries[k] := NoEntry;
          assert entries[..] == es[k := NoEntry];
          return true;
        }
      }
      FindEvictableEnd(es, file, offset);
      evicted := false;
    }
  }

  lemma ActiveIsPage(m: Memory, entries: seq<Entry>, k: nat)
    requires CacheConsistent(m, entries) && k < ENTRIES && k < |entries| && entries[k].active
    ensures IsPage(entries[k].physical)
  {
    EntryIsHeld(entries, k);
  }

  // One step of each scan, and its end.

  lemma FindEntryStep(entries: seq<Entry>, file: nat, offset: nat, k: nat)
    requires k < |entries|
    ensures FindEntry(entries, file, offset, k) == if Caches(entries[k], file, offset) then k else FindEntry(entries, file, offset, k + 1)
  {
  }

  lemma FindEntryEnd(entries: seq<Entry>, file: nat, offset: nat)
    ensures FindEntry(entries, file, offset, |entries|) == |entries|
  {
  }

  lemma FindInactiveStep(entries: seq<Entry>, k: nat)
    requires k < |entries|
    ensures FindInactive(entries, k) == if !entries[k].active then k else FindInactive(entries, k + 1)
  {
  }

  lemma FindInactiveEnd(entries: seq<Entry>)
    ensures FindInactive(entries, |entries|) == |entries|
  {
  }

  lemma FindReferencedStep(entries: seq<Entry>, physical: nat, k: nat)
    requires k < |entries|
    ensures FindReferenced(entries, physical, k) == if Releasable(entries[k], physical) then k else FindReferenced(entries, physical, k + 1)
  {
  }

  lemma FindReferencedEnd(entries: seq<Entry>, physical: nat)
    ensures FindReferenced(entries, physical, |entries|) == |entries|
  {
  }

  lemma FindEvictableStep(entries: seq<Entry>, file: nat, offset: nat, k: nat)
    requires k < |entries|
    ensures FindEvictable(entries, file, offset, k) == if Evictable(entries[k], file, offset) then k else FindEvictable(entries, file, offset, k + 1)
  {
  }

  lemma FindEvictableEnd(entries: seq<Entry>, file: nat, offset: nat)
    ensures FindEvictable(entries, file, offset, |entries|) == |entries|
  {
  }
}
