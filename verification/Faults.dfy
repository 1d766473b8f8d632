/**
 Mappings from the side of the program that uses them: which physical page an address gets, what it
 reads there first, and when two addresses get the same page.
 */
module Faults {
  import opened Bytes
  import opened Frames
  import opened Memory
  import opened CachedPages
  import opened Mappings
  import opened MappingSafety
  import opened MappingCalls
  import opened MappingRuns

  // ---- lengths ----

  /** The pages of a mapping hold its length, and one page fewer would not; a length near 2^64 gets none. */
  lemma PagesHoldLength(length: uint64)
    ensures var n := PagesFor(length);
            if length + PAGE_SIZE - 1 < 0x1_0000_0000_0000_0000 then length <= n * PAGE_SIZE < length + PAGE_SIZE else n == 0
  {
  }

  /** A mapping may be made exactly if it has between one byte and sixteen pages, and a slot is left. */
  lemma MappableExactly(s: Maps, length: uint64)
    ensures Mappable(s, length) <==>
              0 < length <= MAPPING_PAGES * PAGE_SIZE && exists i :: 0 <= i < |s.mappings| && !s.mappings[i].active
  {
    hide PagesFor;
    PagesHoldLength(length);
  }

  // ---- addresses ----

  /** Address is in page j of the mapping. */
  predicate InPage(g: Mapping, j: nat, address: nat) {
    g.active && j < g.pageCount && g.address + j * PAGE_SIZE <= address < g.address + (j + 1) * PAGE_SIZE
  }

  /** The mapping that has the address, and no other. */
  lemma FoundAt(s: Maps, i: nat, j: nat, address: nat)
    requires Consistent(s) && i < MAPPINGS
    ensures |s.mappings| == MAPPINGS
    ensures InPage(s.mappings[i], j, address) ==> FindMapping(s.mappings, address) == i && Contains(s.mappings[i], address) && PageIndex(s.mappings[i], address) == j
  {
    MapCount(s);
    assert Shaped(s.mappings, s.nextAddress);
    hide Consistent, FindMapping;
    if InPage(s.mappings[i], j, address) {
      InPageContained(s.mappings[i], j, address);
    }
  }

  lemma InPageContained(g: Mapping, j: nat, address: nat)
    requires InPage(g, j, address)
    ensures Contains(g, address) && PageIndex(g, address) == j
  {
  }

  /** Every byte of the length asked for lies in some page of the new mapping. */
  lemma MappedBytesHavePages(s: Maps, file: nat, length: uint64, writable: bool, demandPaged: bool, address: nat)
    requires Consistent(s)
    ensures MapCounted(s)
    ensures var (s', a) := Map(s, file, length, writable, demandPaged);
            a != 0 && a <= address < a + length ==>
              exists i :: 0 <= i < |s'.mappings| && InPage(s'.mappings[i], (address - a) / PAGE_SIZE, address)
                          && s'.mappings[i].address == a && s'.mappings[i].file == file && s'.mappings[i].writable == writable
  {
    var (s', a) := (MapCount(s); Map(s, file, length, writable, demandPaged));
    hide Consistent, Map, FindUnmapped, PagesFor, Serves;
    MapKeeps(s, file, length, writable, demandPaged);
    PagesHoldLength(length);
    if a != 0 && a <= address < a + length {
      var i := FindUnmapped(s.mappings);
      MapSucceedsOnlyIfMappable(s, file, length, writable, demandPaged);
      MappableExactly(s, length);
      assert s'.mappings[i].address == a;
      assert InPage(s'.mappings[i], (address - a) / PAGE_SIZE, address);
    }
  }

  lemma MapSucceedsOnlyIfMappable(s: Maps, file: nat, length: uint64, writable: bool, demandPaged: bool)
    requires MapCounted(s) && Map(s, file, length, writable, demandPaged).1 != 0
    ensures Mappable(s, length)
  {
  }

  // ---- one fault ----

  /** A fault on an address of page j answers with page j and materialises no other. */
  lemma FaultServesItsPage(s: Maps, address: nat, write: bool, i: nat, j: nat)
    requires Consistent(s) && i < MAPPINGS
    ensures MapCounted(s)
    ensures InPage(s.mappings[i], j, address) && (write ==> s.mappings[i].writable) ==>
              var (s', physical) := HandlePageFault(s, address, write);
              var g := s.mappings[i];
              && s'.mappings == s.mappings[i := g.(pages := g.pages[j := physical])]
              && (g.pages[j] != 0 ==> physical == g.pages[j])
              && (physical == 0 <==> g.pages[j] == 0 && Exhausted(s, g.file, j))
  {
    MapCount(s);
    FoundAt(s, i, j, address);
    hide Consistent, FindMapping, PageIndex, HandlePageFault, Serves, Exhausted;
    if InPage(s.mappings[i], j, address) && (write ==> s.mappings[i].writable) {
      FaultKeeps(s, address, write);
      FaultFailsExactly(s, address, write);
    }
  }

  /** An address in no mapping, or a write to a mapping that is read-only, gets nothing and changes nothing. */
  lemma FaultRefusedExactly(s: Maps, address: nat, write: bool)
    requires Consistent(s)
    ensures MapCounted(s)
    ensures (forall i | 0 <= i < MAPPINGS :: !s.mappings[i].active || !(s.mappings[i].address <= address < s.mappings[i].address + s.mappings[i].pageCount * PAGE_SIZE)
                                             || (write && !s.mappings[i].writable))
            ==> HandlePageFault(s, address, write) == (s, 0)
  {
    MapCount(s);
    var i := FindMapping(s.mappings, address);
    hide Consistent, FindMapping, MaterializeAt;
    if i < MAPPINGS { assert Contains(s.mappings[i], address); }
  }

  /** What a materialised page holds: a page already cached is left as it is, and any other reads as zeros. */
  lemma FirstContents(s: Maps, i: nat, j: nat)
    requires Consistent(s) && Missing(s, i, j)
    ensures i < |MaterializeAt(s, i, j).mappings| && j < |MaterializeAt(s, i, j).mappings[i].pages|
    ensures var s', g := MaterializeAt(s, i, j), s.mappings[i];
            var physical, k := s'.mappings[i].pages[j], FindEntry(s.entries, g.file, j);
            physical != 0 ==>
              if g.file != 0 && k < |s.entries| then physical == s.entries[k].physical && s'.memory == s.memory
              else PageOf(physical) in s.memory.free && Contents(s'.memory, physical) == Zeros(PAGE_SIZE)
  {
    MapCount(s);
    MaterializeRest(s, i, j);
    TakeIsExact(s.memory) by { OwnIsApart(s); }
    assert |s.memory.ram| == PAGE_COUNT by { OwnIsApart(s); }
    hide Consistent, Take, FindEntry, FindInactive;
  }

  /** So a fault that brings its page in: the cached page as it is, or a page of zeros. */
  lemma FirstFaultContents(s: Maps, address: nat, write: bool, i: nat, j: nat)
    requires Consistent(s) && i < MAPPINGS
    ensures MapCounted(s)
    ensures InPage(s.mappings[i], j, address) && s.mappings[i].pages[j] == 0 && HandlePageFault(s, address, write).1 != 0 ==>
              var (s', physical) := HandlePageFault(s, address, write);
              var g := s.mappings[i];
              var k := FindEntry(s.entries, g.file, j);
              if g.file != 0 && k < ENTRIES then physical == s.entries[k].physical && s'.memory == s.memory
              else PageOf(physical) in s.memory.free && Contents(s'.memory, physical) == Zeros(PAGE_SIZE)
  {
    MapCount(s);
    FoundAt(s, i, j, address);
    hide Consistent, FindMapping, PageIndex, MaterializeAt, FindEntry, Contents;
    if InPage(s.mappings[i], j, address) && s.mappings[i].pages[j] == 0 {
      FirstContents(s, i, j);
    }
  }

  // ---- several faults ----

  lemma FaultPresent(s: Maps, address: nat, write: bool, i: nat, j: nat)
    requires Consistent(s) && i < MAPPINGS && InPage(s.mappings[i], j, address)
    ensures MapCounted(s)
    ensures var (s', physical) := HandlePageFault(s, address, write);
            && Consistent(s') && (physical != 0 ==> Present(s', i, j) && s'.mappings[i].(pages := []) == s.mappings[i].(pages := []) && s'.mappings[i].pages[j] == physical)
  {
    MapCount(s);
    FoundAt(s, i, j, address);
    FaultKeeps(s, address, write);
    ServesTo(s, HandlePageFault(s, address, write).0);
    hide Consistent, FindMapping, PageIndex, HandlePageFault, Serves;
    FaultServesItsPage(s, address, write, i, j);
  }

  lemma MaterializeMarksNothing(s: Maps, i: nat, j: nat)
    requires Consistent(s) && Missing(s, i, j)
    ensures var entries := MaterializeAt(s, i, j).entries;
            |entries| == |s.entries| && forall k | 0 <= k < |entries| && entries[k].active :: entries[k].dirty <==> s.entries[k].active && s.entries[k].dirty
  {
    hide Consistent, Take, FindEntry, FindInactive;
  }

  /** Where a file page is: of all active entries exactly the one with its key has its physical page. */
  lemma OneEntryPerPage(s: Maps, i: nat, j: nat, k: nat)
    requires Consistent(s) && Present(s, i, j) && s.mappings[i].file != 0 && k < |s.entries| && s.entries[k].active
    ensures s.entries[k].physical == s.mappings[i].pages[j] <==> Caches(s.entries[k], s.mappings[i].file, j)
  {
    hide Consistent, FindEntry;
    FilePageIsCached(s, i, j);
    var e := FindEntry(s.entries, s.mappings[i].file, j);
    SameEntrySameKey(s, k, e);
    if Caches(s.entries[k], s.mappings[i].file, j) {
      assert Table(s.entries) by { TableOf(s); }
      EntryIsUnique(s.entries, k);
    }
  }

  lemma TableOf(s: Maps)
    requires Consistent(s)
    ensures Table(s.entries) && |s.entries| == ENTRIES
  {
  }

  lemma FaultUnfolds(s: Maps, address: nat, write: bool, i: nat, j: nat)
    requires Consistent(s) && i < MAPPINGS
    ensures MapCounted(s)
    ensures InPage(s.mappings[i], j, address) && (write ==> s.mappings[i].writable) ==>
              var s1 := if s.mappings[i].pages[j] == 0 then MaterializeAt(s, i, j) else s;
              && i < |s1.mappings| && j < |s1.mappings[i].pages|
              && HandlePageFault(s, address, write).1 == s1.mappings[i].pages[j]
              && HandlePageFault(s, address, write).0.entries ==
                   if write && s.mappings[i].file != 0 then MarkDirty(s1.entries, s1.mappings[i].pages[j]) else s1.entries
  {
    MapCount(s);
    FoundAt(s, i, j, address);
    hide Consistent, FindMapping, PageIndex, Materialize, MarkDirty;
  }

  /** A write fault marks the page's cache entry dirty; it marks no other, and a read marks none. */
  lemma OnlyWritesDirty(s: Maps, address: nat, write: bool, i: nat, j: nat)
    requires Consistent(s) && MapCounted(s) && i < MAPPINGS && InPage(s.mappings[i], j, address) && (write ==> s.mappings[i].writable)
    requires HandlePageFault(s, address, write).1 != 0
    ensures var entries', file := HandlePageFault(s, address, write).0.entries, s.mappings[i].file;
            && |entries'| == ENTRIES
            && forall k | 0 <= k < ENTRIES && entries'[k].active ::
                 entries'[k].dirty <==> (write && file != 0 && Caches(entries'[k], file, j)) || (s.entries[k].active && s.entries[k].dirty)
  {
    hide Consistent, MaterializeAt, HandlePageFault, Caches;
    FaultUnfolds(s, address, write, i, j);
    FaultPresent(s, address, write, i, j);
    var (s', physical) := HandlePageFault(s, address, write);
    var s1 := if s.mappings[i].pages[j] == 0 then MaterializeAt(s, i, j) else s;
    TableOf(s');
    if s.mappings[i].pages[j] == 0 { MaterializeMarks(s, i, j, address); }
    forall k | 0 <= k < ENTRIES && s'.entries[k].active
      ensures s'.entries[k].dirty <==> (write && s.mappings[i].file != 0 && Caches(s'.entries[k], s.mappings[i].file, j)) || (s.entries[k].active && s.entries[k].dirty)
    {
      if s.mappings[i].file != 0 { OneEntryPerPage(s', i, j, k); }
    }
  }

  lemma MaterializeMarks(s: Maps, i: nat, j: nat, address: nat)
    requires Consistent(s) && i < MAPPINGS && InPage(s.mappings[i], j, address) && j < |s.mappings[i].pages| && s.mappings[i].pages[j] == 0
    ensures var entries := MaterializeAt(s, i, j).entries;
            |entries| == |s.entries| && forall k | 0 <= k < |entries| && entries[k].active :: entries[k].dirty <==> s.entries[k].active && s.entries[k].dirty
  {
    hide Consistent, MaterializeAt;
    MapCount(s);
    MaterializeMarksNothing(s, i, j);
  }

  /**
   Two faults with any calls in between that do not end the first mapping: they answer with one
   physical page exactly if their addresses are in the same page of the same mapping, or in the same
   page of two mappings of one file. In one mapping that is: exactly if they are in the same page.
   */
  lemma FaultsShareExactly(s: Maps, a: nat, write: bool, i: nat, j: nat, calls: seq<Call>, b: nat, write': bool, i': nat, j': nat)
    requires Consistent(s) && i < MAPPINGS && InPage(s.mappings[i], j, a) && MapCounted(s)
    requires var (s1, first) := HandlePageFault(s, a, write); first != 0 && Consistent(s1)
    requires forall c | c in calls :: !Ends(c, s.mappings[i].address)
    ensures var (s1, first) := HandlePageFault(s, a, write);
            var s2 := MappingRuns.Run(s1, calls);
            && MapCounted(s2)
            && var (s3, second) := HandlePageFault(s2, b, write');
               i' < MAPPINGS && InPage(s2.mappings[i'], j', b) && second != 0 ==>
                 (first == second <==> j == j' && (i == i' || s.mappings[i].file == s2.mappings[i'].file != 0))
  {
    hide Consistent, HandlePageFault, MappingRuns.Run, Contents, InPage;
    var (s1, first) := HandlePageFault(s, a, write);
    var s2 := MappingRuns.Run(s1, calls);
    FaultPresent(s, a, write, i, j);
    MappedPageStays(s1, calls, i, j);
    MapCount(s2);
    if i' < MAPPINGS && InPage(s2.mappings[i'], j', b) && HandlePageFault(s2, b, write').1 != 0 {
      FaultPresent(s2, b, write', i', j');
      FaultKeepsRecord(s2, b, write', i, j);
      SharedExactly(HandlePageFault(s2, b, write').0, i, j, i', j');
    }
  }

  // ---- unmapping ----

  /** Unmapping takes the address a mapping starts at: that mapping ends, and its private pages, and no others, become free. */
  lemma UnmapEndsExactly(s: Maps, address: nat)
    requires Consistent(s)
    ensures MapCounted(s)
    ensures forall i | 0 <= i < MAPPINGS && s.mappings[i].active && s.mappings[i].address == address ::
              var s', g := Unmap(s, address), s.mappings[i];
              s'.mappings == s.mappings[i := g.(active := false)] && s'.memory == Dropped(s.memory, g)
    ensures (forall i | 0 <= i < MAPPINGS :: !s.mappings[i].active || s.mappings[i].address != address) ==> Unmap(s, address) == s
  {
    MapCount(s);
    hide Consistent, FindMapping, Unmap, Shrinks, Dropped;
    UnmapKeeps(s, address);
    var f := FindMapping(s.mappings, address);
    forall i | 0 <= i < MAPPINGS && s.mappings[i].active && s.mappings[i].address == address
      ensures var s', g := Unmap(s, address), s.mappings[i];
              s'.mappings == s.mappings[i := g.(active := false)] && s'.memory == Dropped(s.memory, g)
    {
      ActiveHasPages(s, i);
      FoundAt(s, i, 0, address);
      UnmapDrops(s, i);
    }
  }

  /** Memory without the private pages of a mapping. */
  function Dropped(m: Memory, g: Mapping): Memory {
    if g.file == 0 then m.(free := m.free + Held(g.pages)) else m
  }

  lemma ActiveHasPages(s: Maps, i: nat)
    requires Consistent(s) && i < MAPPINGS == |s.mappings| && s.mappings[i].active
    ensures 0 < s.mappings[i].pageCount <= |s.mappings[i].pages| == MAPPING_PAGES
    ensures forall j | s.mappings[i].pageCount <= j < MAPPING_PAGES :: s.mappings[i].pages[j] == 0
    ensures s.mappings[i].file == 0 ==> forall j | 0 <= j < MAPPING_PAGES && s.mappings[i].pages[j] != 0 :: IsPage(s.mappings[i].pages[j])
  {
    assert GoodShape(s.mappings[i], s.nextAddress);
    RowIsProper(s, i);
  }

  lemma {:induction false} DropPagesFrees(m: Memory, entries: seq<Entry>, g: Mapping, n: nat)
    requires n <= |g.pages| && (g.file == 0 ==> forall j | 0 <= j < n && g.pages[j] != 0 :: IsPage(g.pages[j]))
    ensures DropPages(m, entries, g, n).0 == if g.file == 0 then m.(free := m.free + Held(g.pages[..n])) else m
  {
    hide Held, Release;
    if n == 0 {
      HeldNothing(g.pages[..0]);
    } else {
      DropPagesFrees(m, entries, g, n - 1);
      HeldPrefix(g.pages, n - 1);
    }
  }

  lemma UnmapDrops(s: Maps, i: nat)
    requires Consistent(s) && MapCounted(s) && i < MAPPINGS && s.mappings[i].active && FindMapping(s.mappings, s.mappings[i].address) == i
    ensures Unmap(s, s.mappings[i].address).memory == Dropped(s.memory, s.mappings[i])
  {
    hide Consistent, FindMapping, DropPages, Held;
    var g := s.mappings[i];
    ActiveHasPages(s, i);
    DropPagesFrees(s.memory, s.entries, g, g.pageCount);
    RestIsEmpty(g.pages, g.pageCount);
  }

  lemma RestIsEmpty(table: seq<nat>, n: nat)
    requires n <= |table| && forall j | n <= j < |table| :: table[j] == 0
    ensures Held(table[..n]) == Held(table)
  {
    forall p | p in Held(table) ensures p in Held(table[..n]) {
      var j :| 0 <= j < |table| && table[j] != 0 && PageOf(table[j]) == p;
      assert table[..n][j] == table[j];
    }
    forall p | p in Held(table[..n]) ensures p in Held(table) {
      var j :| 0 <= j < n && table[..n][j] != 0 && PageOf(table[..n][j]) == p;
      assert table[..n][j] == table[j];
    }
  }
}
