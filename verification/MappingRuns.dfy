/** What holds of mappings and the page cache over every run of calls. */
module MappingRuns {
  import opened Bytes
  import opened Frames
  import opened Memory
  import opened CachedPages
  import opened Mappings
  import opened MappingSafety
  import opened MappingCalls

  // ---- who shares a page ----

  lemma FilePageIsCached(s: Maps, i: nat, j: nat)
    requires Consistent(s) && Present(s, i, j) && s.mappings[i].file != 0
    ensures var k := FindEntry(s.entries, s.mappings[i].file, j);
            && k < ENTRIES == |s.entries| && s.entries[k].physical == s.mappings[i].pages[j]
            && PageOf(s.mappings[i].pages[j]) in Held(Physicals(s.entries))
  {
    MapCount(s);
    assert Table(s.entries);
    UseIsBacked(s, i, j);
    EntryIsHeld(s.entries, FindEntry(s.entries, s.mappings[i].file, j));
  }

  lemma PrivatePageIsHeld(s: Maps, i: nat, j: nat)
    requires Consistent(s) && Present(s, i, j) && s.mappings[i].file == 0
    ensures IsPage(s.mappings[i].pages[j]) && PageOf(s.mappings[i].pages[j]) in Held(s.mappings[i].pages)
    ensures PageOf(s.mappings[i].pages[j]) in HeldIn(AnonymousRows(s.mappings))
  {
    MapCount(s);
    RowIsProper(s, i);
  }

  /**
   Two materialised pages are one physical page exactly when they are the same page of the same file:
   file pages are shared by all their mappings, anonymous pages by none.
   */
  lemma SharedExactly(s: Maps, i: nat, j: nat, i': nat, j': nat)
    requires Consistent(s) && Present(s, i, j) && Present(s, i', j')
    ensures s.mappings[i].pages[j] == s.mappings[i'].pages[j'] <==>
              (i == i' && j == j') || (s.mappings[i].file == s.mappings[i'].file != 0 && j == j')
  {
    var g, h := s.mappings[i], s.mappings[i'];
    hide Consistent, FindEntry, Held, HeldIn;
    if g.file != 0 && h.file != 0 {
      FilePageIsCached(s, i, j);
      FilePageIsCached(s, i', j');
      SameEntrySameKey(s, FindEntry(s.entries, g.file, j), FindEntry(s.entries, h.file, j'));
    } else if g.file == 0 && h.file == 0 {
      PrivatePageIsHeld(s, i, j);
      PrivatePageIsHeld(s, i', j');
      PrivatePagesDiffer(s, i, j, i', j');
    } else {
      Separate(s);
      if g.file == 0 {
        PrivatePageIsHeld(s, i, j);
        FilePageIsCached(s, i', j');
      } else {
        FilePageIsCached(s, i, j);
        PrivatePageIsHeld(s, i', j');
      }
    }
  }

  lemma Separate(s: Maps)
    requires Consistent(s)
    ensures Held(Physicals(s.entries)) !! HeldIn(AnonymousRows(s.mappings))
  {
  }

  lemma SameEntrySameKey(s: Maps, k: nat, k': nat)
    requires Consistent(s) && k < |s.entries| && k' < |s.entries| && s.entries[k].active && s.entries[k'].active
    ensures s.entries[k].physical == s.entries[k'].physical <==> k == k'
  {
    var table := Physicals(s.entries);
    assert Proper(table);
    assert table[k] == s.entries[k].physical && table[k'] == s.entries[k'].physical;
  }

  lemma PrivatePagesDiffer(s: Maps, i: nat, j: nat, i': nat, j': nat)
    requires Consistent(s) && Present(s, i, j) && Present(s, i', j') && s.mappings[i].file == 0 == s.mappings[i'].file
    ensures s.mappings[i].pages[j] == s.mappings[i'].pages[j'] <==> i == i' && j == j'
  {
    MapCount(s);
    RowIsProper(s, i);
    PrivatePageIsHeld(s, i, j);
    PrivatePageIsHeld(s, i', j');
    var rows := AnonymousRows(s.mappings);
    assert ProperRows(rows);
    hide Consistent, Held;
    assert rows[i] == s.mappings[i].pages && rows[i'] == s.mappings[i'].pages;
    if i != i' { assert Held(rows[i]) !! Held(rows[i']); }
  }

  /** A count is the number of mappings, so at most 16: one more reference never wraps around. */
  lemma ReferencesNeverWrap(s: Maps, k: nat)
    requires Consistent(s) && k < |s.entries| && s.entries[k].active
    ensures s.entries[k].references == Users(s.mappings, s.entries[k].file, s.entries[k].offset) <= MAPPINGS
    ensures Referenced(s.entries[k]).references == s.entries[k].references + 1
  {
    MapCount(s);
    UsersOf(s, k);
  }

  // ---- runs ----

  datatype Call =
    | MapCall(file: nat, length: uint64, writable: bool, demandPaged: bool)
    | FaultCall(address: nat, write: bool)
    | UnmapCall(address: nat)
    | EvictCall(file: nat, offset: nat)

  ghost function Step(s: Maps, c: Call): (s': Maps)
    requires Consistent(s)
    ensures Serves(s, s')
  {
    hide Consistent, Map, HandlePageFault, Unmap, EvictPage, Own, Moves, FindMapping, FindEntry, FindUnmapped;
    match c
    case MapCall(file, length, writable, demandPaged) => MapKeeps(s, file, length, writable, demandPaged); ServesNot(s); Map(s, file, length, writable, demandPaged).0
    case FaultCall(address, write) => FaultKeeps(s, address, write); HandlePageFault(s, address, write).0
    case UnmapCall(address) => UnmapKeeps(s, address); Unmap(s, address)
    case EvictCall(file, offset) => EvictKeeps(s, file, offset); EvictPage(s, file, offset)
  }

  lemma ServesNot(s: Maps)
    requires Consistent(s)
    ensures Serves(s, s)
  {
    OwnIsApart(s);
    NothingMoves(s.memory, Own(s.entries, s.mappings));
  }

  ghost function Run(s: Maps, calls: seq<Call>): (s': Maps)
    requires Consistent(s)
    ensures Consistent(s')
    decreases |calls|
  {
    if calls == [] then s else Run(Step(s, calls[0]), calls[1..])
  }

  lemma InitiallyConsistent(m: Memory, entries: seq<Entry>, mappings: seq<Mapping>)
    requires Sound(m) && |entries| == ENTRIES && |mappings| == MAPPINGS
    requires (forall k | 0 <= k < ENTRIES :: entries[k] == NoEntry) && (forall i | 0 <= i < MAPPINGS :: mappings[i] == NoMapping)
    ensures Consistent(Maps(m, entries, mappings, FIRST_ADDRESS)) && Own(entries, mappings) == {}
  {
    HeldNothing(NoPages);
    HeldNothing(Physicals(entries));
    assert HeldIn(AnonymousRows(mappings)) == {};
  }

  /** Page j of mapping i is the same physical page with the same contents as before. */
  predicate PageKept(s: Maps, s': Maps, i: nat, j: nat) {
    && Present(s, i, j) && Present(s', i, j)
    && s'.mappings[i].(pages := []) == s.mappings[i].(pages := []) && s'.mappings[i].pages[j] == s.mappings[i].pages[j]
    && Contents(s'.memory, s.mappings[i].pages[j]) == Contents(s.memory, s.mappings[i].pages[j])
  }

  lemma PresentIsUsed(s: Maps, i: nat, j: nat)
    requires Consistent(s) && Present(s, i, j)
    ensures |s.memory.ram| == PAGE_COUNT && PageOf(s.mappings[i].pages[j]) < PAGE_COUNT && PageOf(s.mappings[i].pages[j]) !in s.memory.free
  {
    OwnIsApart(s);
    if s.mappings[i].file == 0 {
      PrivatePageIsHeld(s, i, j);
    } else {
      FilePageIsCached(s, i, j);
      assert Table(s.entries);
      EntryIsHeld(s.entries, FindEntry(s.entries, s.mappings[i].file, j));
    }
  }

  lemma ContentsKept(s: Maps, s': Maps, i: nat, j: nat)
    requires Consistent(s) && Present(s, i, j) && Serves(s, s')
    requires Present(s', i, j) && s'.mappings[i].(pages := []) == s.mappings[i].(pages := []) && s'.mappings[i].pages[j] == s.mappings[i].pages[j]
    ensures PageKept(s, s', i, j)
  {
    PresentIsUsed(s, i, j);
    assert |s'.memory.ram| == PAGE_COUNT;
    hide Consistent, Own;
  }

  predicate Ends(c: Call, address: nat) {
    c.UnmapCall? && c.address == address
  }

  /** The record of page j in mapping i is as before. */
  predicate RecordKept(s: Maps, s': Maps, i: nat, j: nat) {
    && Present(s, i, j) && Present(s', i, j)
    && s'.mappings[i].(pages := []) == s.mappings[i].(pages := []) && s'.mappings[i].pages[j] == s.mappings[i].pages[j]
  }

  lemma MapKeepsRecord(s: Maps, file: nat, length: uint64, writable: bool, demandPaged: bool, i: nat, j: nat)
    requires Consistent(s) && Present(s, i, j)
    ensures MapCounted(s) && RecordKept(s, Map(s, file, length, writable, demandPaged).0, i, j)
  {
    hide Consistent, Map, FindUnmapped, PagesFor, Mapped, RolledBack, RecordKept;
    MapKeeps(s, file, length, writable, demandPaged);
    var (s', a) := Map(s, file, length, writable, demandPaged);
    if a != 0 {
      MappedElsewhere(s, s', FindUnmapped(s.mappings), file, PagesFor(length), writable, demandPaged);
      OthersRecorded(s, s', FindUnmapped(s.mappings), i, j);
    } else if Mappable(s, length) {
      RolledBackElsewhere(s, s', FindUnmapped(s.mappings), file);
      OthersRecorded(s, s', FindUnmapped(s.mappings), i, j);
    } else {
      OthersRecorded(s, s', MAPPINGS, i, j);
    }
  }

  lemma OthersRecorded(s: Maps, s': Maps, k: nat, i: nat, j: nat)
    requires Present(s, i, j) && k != i && |s'.mappings| == |s.mappings|
    requires forall m | 0 <= m < |s.mappings| && m != k :: s'.mappings[m] == s.mappings[m]
    ensures RecordKept(s, s', i, j)
  {
  }

  lemma MappedElsewhere(s: Maps, s': Maps, k: nat, file: nat, pages: nat, writable: bool, demandPaged: bool)
    requires Mapped(s, s', k, file, pages, writable, demandPaged)
    ensures |s'.mappings| == |s.mappings| && forall m | 0 <= m < |s.mappings| && m != k :: s'.mappings[m] == s.mappings[m]
  {
  }

  lemma RolledBackElsewhere(s: Maps, s': Maps, k: nat, file: nat)
    requires RolledBack(s, s', k, file)
    ensures |s'.mappings| == |s.mappings| && forall m | 0 <= m < |s.mappings| && m != k :: s'.mappings[m] == s.mappings[m]
  {
  }

  lemma FaultKeepsRecord(s: Maps, address: nat, write: bool, i: nat, j: nat)
    requires Consistent(s) && Present(s, i, j)
    ensures MapCounted(s) && RecordKept(s, HandlePageFault(s, address, write).0, i, j)
  {
    hide Consistent, HandlePageFault, Serves, FindMapping, PageIndex;
    FaultKeeps(s, address, write);
  }

  lemma UnmapKeepsRecord(s: Maps, address: nat, i: nat, j: nat)
    requires Consistent(s) && Present(s, i, j) && address != s.mappings[i].address
    ensures MapCounted(s) && RecordKept(s, Unmap(s, address), i, j)
  {
    hide Consistent, Unmap, Shrinks, FindMapping;
    UnmapKeeps(s, address);
  }

  /** Only its own unmapping takes a page from a mapping. */
  lemma StepKeepsPage(s: Maps, c: Call, i: nat, j: nat)
    requires Consistent(s) && Present(s, i, j) && !Ends(c, s.mappings[i].address)
    ensures PageKept(s, Step(s, c), i, j)
  {
    hide Consistent, Map, HandlePageFault, Unmap, EvictPage, Serves, PageKept, Present;
    match c {
      case MapCall(file, length, writable, demandPaged) => MapKeepsRecord(s, file, length, writable, demandPaged, i, j);
      case FaultCall(address, write) => FaultKeepsRecord(s, address, write, i, j);
      case UnmapCall(address) => UnmapKeepsRecord(s, address, i, j);
      case EvictCall(file, offset) => EvictKeepsRecord(s, file, offset, i, j);
    }
    ContentsKept(s, Step(s, c), i, j);
  }

  lemma EvictKeepsRecord(s: Maps, file: nat, offset: nat, i: nat, j: nat)
    requires Consistent(s) && Present(s, i, j)
    ensures RecordKept(s, EvictPage(s, file, offset), i, j)
  {
  }

  /**
   Over every run without the mapping's own unmapping, a materialised page stays where it is and
   keeps its contents: it is never evicted, freed or handed to another owner.
   */
  lemma {:induction false} MappedPageStays(s: Maps, calls: seq<Call>, i: nat, j: nat)
    requires Consistent(s) && Present(s, i, j) && forall c | c in calls :: !Ends(c, s.mappings[i].address)
    ensures PageKept(s, Run(s, calls), i, j)
    decreases |calls|
  {
    hide Consistent, Step;
    if calls != [] {
      assert calls[0] in calls;
      StepKeepsPage(s, calls[0], i, j);
      assert Consistent(Step(s, calls[0])) by { ServesTo(s, Step(s, calls[0])); }
      MappedPageStays(Step(s, calls[0]), calls[1..], i, j);
    }
  }

  lemma ServesTo(s: Maps, s': Maps)
    requires Serves(s, s')
    ensures Consistent(s')
  {
  }

  // ---- when an eager file mapping succeeds ----

  /** The number of blank entries. */
  function Blanks(entries: seq<Entry>): nat {
    if entries == [] then 0 else Blanks(entries[..|entries| - 1]) + (if entries[|entries| - 1].active then 0 else 1)
  }

  /** The number of pages j to n of a file that are not cached. */
  function Uncached(entries: seq<Entry>, file: nat, j: nat, n: nat): nat
    decreases n - j
  {
    if j >= n then 0 else (if FindEntry(entries, file, j) < |entries| then 0 else 1) + Uncached(entries, file, j + 1, n)
  }

  lemma {:induction false} BlanksOfUpdate(entries: seq<Entry>, k: nat, e: Entry)
    requires k < |entries|
    ensures Blanks(entries[k := e]) == Blanks(entries) - (if entries[k].active then 0 else 1) + (if e.active then 0 else 1)
  {
    var n := |entries| - 1;
    if k < n {
      BlanksOfUpdate(entries[..n], k, e);
      assert entries[k := e][..n] == entries[..n][k := e];
    } else {
      assert entries[k := e][..n] == entries[..n];
    }
  }

  lemma {:induction false} NoBlanks(entries: seq<Entry>)
    ensures Blanks(entries) == 0 <==> forall k | 0 <= k < |entries| :: entries[k].active
  {
    if entries != [] {
      var n := |entries| - 1;
      var front := entries[..n];
      NoBlanks(front);
      assert forall k | 0 <= k < n :: front[k] == entries[k];
    }
  }

  lemma {:induction false} UncachedSame(entries: seq<Entry>, entries': seq<Entry>, file: nat, j: nat, n: nat)
    requires |entries| == |entries'|
    requires forall o: nat | j <= o < n :: FindEntry(entries', file, o) < |entries| <==> FindEntry(entries, file, o) < |entries|
    ensures Uncached(entries', file, j, n) == Uncached(entries, file, j, n)
    decreases n - j
  {
    hide FindEntry;
    if j < n { UncachedSame(entries, entries', file, j + 1, n); }
  }

  /** An entry for page j says nothing about other pages of the file. */
  lemma OtherKeys(entries: seq<Entry>, k: nat, e: Entry, file: nat, j: nat, o: nat)
    requires k < |entries| && e.active && e.file == file && e.offset == j != o
    requires entries[k].active ==> entries[k].file == file && entries[k].offset == j
    ensures FindEntry(entries[k := e], file, o) < |entries| <==> FindEntry(entries, file, o) < |entries|
  {
    hide FindEntry;
    var after := entries[k := e];
    var a, b := FindEntry(entries, file, o), FindEntry(after, file, o);
    if a < |entries| { assert Caches(after[a], file, o); }
    if b < |entries| { assert Caches(entries[b], file, o); }
  }

  /** Materialising a file page puts an active entry for it in place of a blank one, or of itself. */
  lemma FileEntryAfter(s: Maps, i: nat, j: nat) returns (k: nat)
    requires Consistent(s) && Missing(s, i, j) && s.mappings[i].file != 0 && !Exhausted(s, s.mappings[i].file, j)
    ensures |s.entries| == ENTRIES && k < ENTRIES
    ensures var s', file := MaterializeAt(s, i, j), s.mappings[i].file;
            && |s'.entries| == ENTRIES && s'.entries == s.entries[k := s'.entries[k]] && Caches(s'.entries[k], file, j)
            && (FindEntry(s.entries, file, j) < ENTRIES ==> Caches(s.entries[k], file, j) && s'.memory == s.memory)
            && (FindEntry(s.entries, file, j) == ENTRIES ==> !s.entries[k].active && |s'.memory.free| == |s.memory.free| - 1)
  {
    MapCount(s);
    OwnIsApart(s);
    TakeIsExact(s.memory);
    hide Consistent, FindEntry, FindInactive, Take, Apart, Shaped;
    var f := FindEntry(s.entries, s.mappings[i].file, j);
    k := if f < ENTRIES then f else FindInactive(s.entries);
  }

  /** One page materialised: a cached one costs nothing, another costs a page and a blank entry. */
  lemma FileStepCosts(s: Maps, i: nat, j: nat, n: nat)
    requires Consistent(s) && Missing(s, i, j) && s.mappings[i].file != 0 && !Exhausted(s, s.mappings[i].file, j) && j < n
    ensures var s', file := MaterializeAt(s, i, j), s.mappings[i].file;
            var cost := if FindEntry(s.entries, file, j) < |s.entries| then 0 else 1;
            && Uncached(s.entries, file, j, n) == cost + Uncached(s'.entries, file, j + 1, n)
            && Blanks(s.entries) == cost + Blanks(s'.entries)
            && |s.memory.free| == cost + |s'.memory.free|
  {
    hide MaterializeAt, Consistent, FindEntry, Blanks, Exhausted;
    var file, s1 := s.mappings[i].file, MaterializeAt(s, i, j);
    var k := FileEntryAfter(s, i, j);
    BlanksOfUpdate(s.entries, k, s1.entries[k]);
    forall o: nat | j + 1 <= o < n ensures FindEntry(s1.entries, file, o) < |s.entries| <==> FindEntry(s.entries, file, o) < |s.entries| {
      OtherKeys(s.entries, k, s1.entries[k], file, j, o);
    }
    UncachedSame(s.entries, s1.entries, file, j + 1, n);
  }

  /** An eager file mapping gets all its pages exactly when the uncached ones find pages and entries. */
  lemma {:induction false} FilePopulateSucceedsExactly(s: Maps, i: nat, j: nat, n: nat)
    requires Consistent(s) && i < MAPPINGS && s.mappings[i].active && s.mappings[i].file != 0 && j <= n <= s.mappings[i].pageCount <= |s.mappings[i].pages|
    requires forall k | j <= k < n :: s.mappings[i].pages[k] == 0
    ensures i < |s.mappings|
    ensures var missing := Uncached(s.entries, s.mappings[i].file, j, n);
            Populate(s, i, j, n).1 <==> missing <= |s.memory.free| && missing <= Blanks(s.entries)
    decreases n - j
  {
    hide Grows, MaterializeAt, Consistent, FindEntry, Blanks;
    MapCount(s);
    if j < n {
      MaterializeKeeps(s, i, j);
      MaterializeFailsExactly(s, i, j);
      MaterializeOnly(s, i, j);
      NoBlanks(s.entries);
      if !Exhausted(s, s.mappings[i].file, j) {
        var s1 := MaterializeAt(s, i, j);
        FileStepCosts(s, i, j, n);
        assert Consistent(s1) by { GrowsTo(s, s1); }
        FilePopulateSucceedsExactly(s1, i, j + 1, n);
      }
    }
  }

  /** When a file mapping succeeds. */
  lemma FileMapSucceedsExactly(s: Maps, file: nat, length: uint64, writable: bool, demandPaged: bool)
    requires Consistent(s) && file != 0
    ensures MapCounted(s)
    ensures var missing := Uncached(s.entries, file, 0, PagesFor(length));
            Map(s, file, length, writable, demandPaged).1 != 0 <==>
            Mappable(s, length) && (demandPaged || (missing <= |s.memory.free| && missing <= Blanks(s.entries)))
  {
    MapCount(s);
    AddressesAreNotZero(s);
    var i, n := FindUnmapped(s.mappings), PagesFor(length);
    hide Consistent, Populate, FindUnmapped, PagesFor, Reserved, Unmap, Map, Uncached, Blanks;
    if Mappable(s, length) {
      EagerMapped(s, i, file, n, writable);
      ReservedKeeps(s, i, file, n, writable, false);
      ReservedIs(s, i, file, n, writable, false);
      FilePopulateSucceedsExactly(Reserved(s, i, file, n, writable, false), i, 0, n);
    }
    MapUnfolds(s, file, length, writable, demandPaged);
  }
}
