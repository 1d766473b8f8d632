/** The memory mapping manager as the program keeps it, sharing the allocator and the page cache. */
module MemoryMappings {
  import opened Bytes
  import opened Frames
  import opened PhysicalMemory
  import opened Memory
  import opened CachedPages
  import opened PageCache
  import opened Mappings
  import opened MappingSafety
  import opened MappingCalls
  import MappingRuns

  class MemoryMappingManager {
    const pmm: PhysicalMemoryManager
    const ram: Ram
    const cache: PageCache
    const mappings: array<Mapping>
    var nextAddress: nat

    ghost predicate Valid()
      reads this, pmm, pmm.bitmap, ram.pages, cache.entries, mappings
    {
      Separate() && Running(pmm, ram) && Consistent(State())
    }

    /** One allocator and memory for all, and no storage shared between the tables. */
    ghost predicate Separate() {
      && cache.pmm == pmm && cache.ram == ram && cache.Separate() && mappings.Length == MAPPINGS
      && (mappings as object) != pmm.bitmap && (mappings as object) != ram.pages && (mappings as object) != cache.entries
    }

    ghost function State(): Maps
      reads this, pmm, ram.pages, cache.entries, mappings
    {
      Maps(View(pmm, ram), cache.entries[..], mappings[..], nextAddress)
    }

    constructor (pmm: PhysicalMemoryManager, ram: Ram, cache: PageCache)
      requires cache.pmm == pmm && cache.ram == ram && cache.Valid()
      requires forall k | 0 <= k < ENTRIES :: cache.entries[k] == NoEntry
      ensures Valid() && this.pmm == pmm && this.ram == ram && this.cache == cache && fresh(mappings)
    {
      this.pmm, this.ram, this.cache, nextAddress := pmm, ram, cache, FIRST_ADDRESS;
      mappings := new Mapping[MAPPINGS](_ => NoMapping);
      new;
      MappingRuns.InitiallyConsistent(View(pmm, ram), cache.entries[..], mappings[..]);
    }

    method FindMappingIndex(address: nat) returns (found: nat)
      requires mappings.Length == MAPPINGS
      ensures found == FindMapping(mappings[..], address)
    {
      found := 0;
      while found < MAPPINGS
        invariant found <= MAPPINGS && FindMapping(mappings[..], address) == FindMapping(mappings[..], address, found)
      {
        if Contains(mappings[found], address) {
          return;
        }
        found := found + 1;
      }
    }

    method FindUnmappedIndex() returns (found: nat)
      requires mappings.Length == MAPPINGS
      ensures found == FindUnmapped(mappings[..])
    {
      found := 0;
      while found < MAPPINGS
        invariant found <= MAPPINGS && FindUnmapped(mappings[..]) == FindUnmapped(mappings[..], found)
      {
        if !mappings[found].active {
          return;
        }
        found := found + 1;
      }
    }

    /** A page for page j of a file, or of a private mapping. */
    method MaterializePage(file: nat, j: nat) returns (physical: nat)
      requires Valid()
      modifies cache.entries, pmm, pmm.bitmap, ram.pages
      ensures Running(pmm, ram)
      ensures Acquired(View(pmm, ram), cache.entries[..], physical) == old(Materialize(View(pmm, ram), cache.entries[..], file, j))
    {
      hide Take, Acquire, Consistent, Running, View, Filled, CacheConsistent;
      CacheIsConsistent(State());
      if file != 0 {
        physical := cache.AcquirePage(file, j);
        return;
      }
      FreshForCache(View(pmm, ram), cache.entries[..]);
      physical := TakePage(pmm, ram);
      if physical != 0 {
        ClearPage(pmm, ram, physical);
      }
    }

    method MaterializeInto(i: nat, j: nat)
      requires Valid() && Missing(State(), i, j)
      modifies mappings, cache.entries, pmm, pmm.bitmap, ram.pages
      ensures Valid() && State() == MaterializeAt(old(State()), i, j)
      ensures Grows(old(State()), State())
    {
      hide Materialize, Consistent, Running, View, Moves, SameIdentity, Own;
      ghost var s := State();
      MaterializeKeeps(s, i, j);
      var physical := MaterializePage(mappings[i].file, j);
      mappings[i] := WithPage(mappings[i], j, physical);
      assert mappings[..] == s.mappings[i := mappings[i]];
    }

    /** Materialise the first n pages of a new mapping, stopping at the first failure. */
    method PopulatePages(i: nat, n: nat) returns (complete: bool)
      requires Valid() && i < MAPPINGS && mappings[i].active && n <= mappings[i].pageCount && |mappings[i].pages| == MAPPING_PAGES
      requires mappings[i].pageCount <= MAPPING_PAGES && mappings[i].pages == NoPages
      modifies mappings, cache.entries, pmm, pmm.bitmap, ram.pages
      ensures Valid() && (State(), complete) == Populate(old(State()), i, 0, n)
    {
      hide Consistent, Running, View, MaterializeAt, Grows;
      ghost var s := State();
      for j := 0 to n
        invariant Valid() && mappings[i] == old(mappings[i]).(pages := mappings[i].pages) && |mappings[i].pages| == MAPPING_PAGES
        invariant forall k | j <= k < MAPPING_PAGES :: mappings[i].pages[k] == 0
        invariant Populate(State(), i, j, n) == Populate(s, i, 0, n)
      {
        ghost var before := State();
        MaterializeRest(before, i, j);
        MaterializeInto(i, j);
        assert mappings[i] == State().mappings[i];
        if mappings[i].pages[j] == 0 {
          return false;
        }
      }
      complete := true;
    }

    /** Give up the pages of mapping i: a reference for each file page, the page itself for a private one. */
    method DropAllPages(i: nat)
      requires Valid() && i < MAPPINGS && mappings[i].active
      modifies cache.entries, pmm, pmm.bitmap
      ensures Running(pmm, ram) && |mappings[i].pages| == MAPPING_PAGES && mappings[i].pageCount <= MAPPING_PAGES
      ensures (View(pmm, ram), cache.entries[..]) == old(DropPages(View(pmm, ram), cache.entries[..], mappings[i], mappings[i].pageCount))
    {
      hide Consistent, Running, View, DropPages, CacheConsistent, SameIdentity, Release;
      ghost var s := State();
      var g := mappings[i];
      NothingLeft(s, i);
      AfterNone(s, i);
      for j := 0 to g.pageCount
        invariant Running(pmm, ram) && Consistent(AfterDrops(s, i, j))
        invariant (View(pmm, ram), cache.entries[..]) == DropPages(s.memory, s.entries, g, j)
      {
        DropNext(s, i, j);
        ghost var before := AfterDrops(s, i, j);
        CacheIsConsistent(before);
        assert cache.Valid();
        if g.pages[j] != 0 {
          if g.file != 0 {
            var released := cache.ReleasePage(g.pages[j]);
          } else {
            GivePage(pmm, ram, g.pages[j]);
          }
        }
      }
    }

    method UnmapRange(address: nat) returns (unmapped: bool)
      requires Valid()
      modifies mappings, cache.entries, pmm, pmm.bitmap
      ensures Valid() && MapCounted(old(State())) && State() == Unmap(old(State()), address)
      ensures unmapped == Starts(old(mappings[..]), address)
    {
      hide Consistent, Running, View, DropPages, FindMapping, Shrinks;
      ghost var s := State();
      UnmapKeeps(s, address);
      ShrinksTo(s, Unmap(s, address));
      var i := FindMappingIndex(address);
      if i == MAPPINGS || mappings[i].address != address {
        return false;
      }
      DropAllPages(i);
      mappings[i] := mappings[i].(active := false);
      assert mappings[..] == s.mappings[i := mappings[i]];
      unmapped := true;
    }

    /** The next address is assumed not to reach 2^64. */
    method MapRange(file: nat, length: uint64, writable: bool, demandPaged: bool) returns (address: nat)
      requires Valid() && nextAddress + MAPPING_PAGES * PAGE_SIZE < WORD_LIMIT
      modifies this, mappings, cache.entries, pmm, pmm.bitmap, ram.pages
      ensures Valid() && MapCounted(old(State())) && (State(), address) == Map(old(State()), file, length, writable, demandPaged)
    {
      hide Consistent, Running, View, FindUnmapped, Populate, Unmap, Reserved, Serves, PagesFor;
      ghost var s := State();
      MapKeepsConsistent(s, file, length, writable, demandPaged);
      var pages := PagesFor(length);
      if pages == 0 || pages > MAPPING_PAGES {
        return 0;
      }
      var i := FindUnmappedIndex();
      if i == MAPPINGS {
        return 0;
      }
      address := nextAddress;
      mappings[i] := Mapping(address, pages, file, writable, demandPaged, true, NoPages);
      nextAddress := nextAddress + pages * PAGE_SIZE;
      assert mappings[..] == s.mappings[i := mappings[i]];
      ReservedKeeps(s, i, file, pages, writable, demandPaged);
      assert State() == Reserved(s, i, file, pages, writable, demandPaged) by { ReservedEquals(s, i, file, pages, writable, demandPaged); }
      EagerFacts(s, file, length, writable);
      MapUnfolds(s, file, length, writable, demandPaged);
      if !demandPaged {
        var complete := PopulatePages(i, pages);
        if !complete {
          var unmapped := UnmapRange(address);
          return 0;
        }
      }
    }

    method PageFault(address: nat, write: bool) returns (physical: nat)
      requires Valid()
      modifies mappings, cache.entries, pmm, pmm.bitmap, ram.pages
      ensures Valid() && MapCounted(old(State())) && (State(), physical) == HandlePageFault(old(State()), address, write)
    {
      hide Consistent, Running, View, FindMapping, Serves, PageIndex, MaterializeAt, CacheConsistent;
      ghost var s := State();
      FaultKeeps(s, address, write);
      assert Consistent(HandlePageFault(s, address, write).0) by { MappingRuns.ServesTo(s, HandlePageFault(s, address, write).0); }
      var i := FindMappingIndex(address);
      if i == MAPPINGS || (write && !mappings[i].writable) {
        return 0;
      }
      var file, j := mappings[i].file, PageIndex(mappings[i], address);
      if mappings[i].pages[j] == 0 {
        MaterializeInto(i, j);
        MaterializeRest(s, i, j);
      }
      physical := mappings[i].pages[j];
      if write && file != 0 {
        CacheIsConsistent(State());
        cache.MarkPageDirty(physical);
      }
    }
  }

  lemma MapKeepsConsistent(s: Maps, file: nat, length: uint64, writable: bool, demandPaged: bool)
    requires Consistent(s)
    ensures MapCounted(s) && Consistent(Map(s, file, length, writable, demandPaged).0)
  {
    hide Consistent, Map, FindUnmapped, PagesFor;
    MapKeeps(s, file, length, writable, demandPaged);
  }

  lemma ReservedEquals(s: Maps, i: nat, file: nat, pages: nat, writable: bool, demandPaged: bool)
    requires i < |s.mappings|
    ensures Reserved(s, i, file, pages, writable, demandPaged)
         == Maps(s.memory, s.entries, s.mappings[i := Mapping(s.nextAddress, pages, file, writable, demandPaged, true, NoPages)], s.nextAddress + pages * PAGE_SIZE)
  {
  }

  lemma EagerFacts(s: Maps, file: nat, length: uint64, writable: bool)
    requires Consistent(s) && Mappable(s, length)
    ensures var i, n := FindUnmapped(s.mappings), PagesFor(length);
            i < |s.mappings| && MapCounted(Populate(Reserved(s, i, file, n, writable, false), i, 0, n).0)
  {
    hide Consistent, FindUnmapped, PagesFor, Populate, Reserved, Mapped;
    MapCount(s);
    EagerMapped(s, FindUnmapped(s.mappings), file, PagesFor(length), writable);
  }

  /** The next page of a mapping to drop, and the state after it. */
  lemma DropNext(s: Maps, i: nat, j: nat)
    requires Consistent(s) && i < MAPPINGS == |s.mappings| && s.mappings[i].active && j < s.mappings[i].pageCount <= |s.mappings[i].pages|
    ensures var (m, entries) := DropPages(s.memory, s.entries, s.mappings[i], j);
            && DropPages(s.memory, s.entries, s.mappings[i], j + 1) == DropPage(m, entries, s.mappings[i].file, s.mappings[i].pages[j])
            && Consistent(AfterDrops(s, i, j + 1))
            && (s.mappings[i].pages[j] != 0 && s.mappings[i].file == 0 ==> IsPage(s.mappings[i].pages[j]))
  {
    hide Consistent, DropPages, DropPage, AfterDrops, Shrinks;
    DropPagesKeeps(s, i, j + 1);
    ShrinksTo(s, AfterDrops(s, i, j + 1));
    DropPagesNext(s.memory, s.entries, s.mappings[i], j);
    if s.mappings[i].pages[j] != 0 && s.mappings[i].file == 0 { PrivateIsPage(s, i, j); }
  }

  lemma DropPagesNext(m: Memory, entries: seq<Entry>, g: Mapping, j: nat)
    requires j < |g.pages|
    ensures var (m1, entries1) := DropPages(m, entries, g, j);
            DropPages(m, entries, g, j + 1) == DropPage(m1, entries1, g.file, g.pages[j])
  {
  }

  lemma PrivateIsPage(s: Maps, i: nat, j: nat)
    requires Consistent(s) && Present(s, i, j) && s.mappings[i].file == 0
    ensures IsPage(s.mappings[i].pages[j])
  {
    MapCount(s);
    RowIsProper(s, i);
  }

  lemma CacheIsConsistent(s: Maps)
    requires Consistent(s)
    ensures CacheConsistent(s.memory, s.entries)
  {
  }
}
