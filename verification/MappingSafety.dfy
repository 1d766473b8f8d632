/**
 Mappings and the page cache together, when only mappings use the cache: each entry's reference
 count is the number of mappings that have its page, and every page has one owner.
 */
module MappingSafety {
  import opened Bytes
  import opened Frames
  import opened Memory
  import opened CachedPages
  import opened Mappings

  // ---- who uses a file page ----

  predicate UsesPage(g: Mapping, j: nat) {
    g.active && g.file != 0 && j < |g.pages| && g.pages[j] != 0
  }

  function Use(g: Mapping, file: nat, offset: nat): nat {
    if g.file == file && UsesPage(g, offset) then 1 else 0
  }

  /** The number of active mappings that have a page of a file materialised. */
  function Users(mappings: seq<Mapping>, file: nat, offset: nat): (n: nat)
    ensures n <= |mappings|
  {
    if mappings == [] then 0
    else Users(mappings[..|mappings| - 1], file, offset) + Use(mappings[|mappings| - 1], file, offset)
  }

  lemma {:induction false} UsersOfUpdate(mappings: seq<Mapping>, i: nat, g: Mapping, file: nat, offset: nat)
    requires i < |mappings|
    ensures Users(mappings[i := g], file, offset) == Users(mappings, file, offset) - Use(mappings[i], file, offset) + Use(g, file, offset)
  {
    hide Use;
    var n := |mappings| - 1;
    if i < n {
      UsersOfUpdate(mappings[..n], i, g, file, offset);
      assert mappings[i := g][..n] == mappings[..n][i := g];
    } else {
      assert mappings[i := g][..n] == mappings[..n];
    }
  }

  lemma {:induction false} UsersExist(mappings: seq<Mapping>, file: nat, offset: nat)
    ensures Users(mappings, file, offset) > 0 <==> exists i :: 0 <= i < |mappings| && Use(mappings[i], file, offset) == 1
  {
    hide Use;
    if mappings != [] {
      var n := |mappings| - 1;
      var front := mappings[..n];
      UsersExist(front, file, offset);
      if i :| 0 <= i < n && Use(mappings[i], file, offset) == 1 {
        assert front[i] == mappings[i];
      }
      if i :| 0 <= i < n && Use(front[i], file, offset) == 1 {
        assert front[i] == mappings[i];
      }
      assert Use(mappings[n], file, offset) <= 1 by { UseIsBit(mappings[n], file, offset); }
    }
  }

  lemma UseIsBit(g: Mapping, file: nat, offset: nat)
    ensures Use(g, file, offset) <= 1
  {
  }

  lemma UseWithPage(g: Mapping, j: nat, physical: nat, file: nat, offset: nat)
    requires j < |g.pages|
    ensures Use(WithPage(g, j, physical), file, offset) ==
              if g.active && g.file != 0 && file == g.file && offset == j then (if physical != 0 then 1 else 0) else Use(g, file, offset)
  {
  }

  // ---- the invariant ----

  function AnonymousRow(g: Mapping): seq<nat> {
    if g.active && g.file == 0 then g.pages else NoPages
  }

  /** The private pages of each mapping. */
  function AnonymousRows(mappings: seq<Mapping>): (r: seq<seq<nat>>)
    ensures |r| == |mappings| && forall i | 0 <= i < |mappings| :: r[i] == AnonymousRow(mappings[i])
  {
    seq(|mappings|, i requires 0 <= i < |mappings| => AnonymousRow(mappings[i]))
  }

  function Own(entries: seq<Entry>, mappings: seq<Mapping>): set<nat> {
    Held(Physicals(entries)) + HeldIn(AnonymousRows(mappings))
  }

  predicate GoodShape(g: Mapping, nextAddress: nat) {
    && |g.pages| == MAPPING_PAGES && g.pageCount <= MAPPING_PAGES
    && (g.active ==> g.pageCount > 0 && g.address + g.pageCount * PAGE_SIZE <= nextAddress)
    && (g.active ==> forall j | g.pageCount <= j < MAPPING_PAGES :: g.pages[j] == 0)
  }

  predicate Disjoint(g: Mapping, h: Mapping) {
    g.address + g.pageCount * PAGE_SIZE <= h.address || h.address + h.pageCount * PAGE_SIZE <= g.address
  }

  ghost predicate Shaped(mappings: seq<Mapping>, nextAddress: nat) {
    && |mappings| == MAPPINGS && nextAddress >= FIRST_ADDRESS
    && (forall i | 0 <= i < MAPPINGS :: GoodShape(mappings[i], nextAddress))
    && forall i, j | 0 <= i < j < MAPPINGS && mappings[i].active && mappings[j].active :: Disjoint(mappings[i], mappings[j])
  }

  /** Cached pages and private pages are all different, and none is free. */
  ghost predicate Owned(m: Memory, entries: seq<Entry>, mappings: seq<Mapping>) {
    && ProperRows(AnonymousRows(mappings))
    && Held(Physicals(entries)) !! HeldIn(AnonymousRows(mappings))
    && Apart(m, Own(entries, mappings))
  }

  /** Every materialised file page is the cache's page for that file and offset. */
  ghost predicate Backed(entries: seq<Entry>, mappings: seq<Mapping>) {
    forall i, j: nat | 0 <= i < |mappings| && UsesPage(mappings[i], j) :: CachedAs(entries, mappings[i].file, j, mappings[i].pages[j])
  }

  predicate CountedRight(e: Entry, mappings: seq<Mapping>) {
    e.active ==> e.references == Users(mappings, e.file, e.offset)
  }

  ghost predicate Counted(entries: seq<Entry>, mappings: seq<Mapping>) {
    forall k | 0 <= k < |entries| :: CountedRight(entries[k], mappings)
  }

  ghost predicate Consistent(s: Maps) {
    && Shaped(s.mappings, s.nextAddress) && Table(s.entries) && Owned(s.memory, s.entries, s.mappings)
    && Backed(s.entries, s.mappings) && Counted(s.entries, s.mappings)
  }

  // ---- frames ----

  lemma ShapedUpdate(mappings: seq<Mapping>, nextAddress: nat, i: nat, g: Mapping)
    requires Shaped(mappings, nextAddress) && i < MAPPINGS && GoodShape(g, nextAddress)
    requires g.active ==> mappings[i].active && g.address == mappings[i].address && g.pageCount == mappings[i].pageCount
    ensures Shaped(mappings[i := g], nextAddress)
  {
  }

  lemma RowsOfUpdate(mappings: seq<Mapping>, i: nat, g: Mapping)
    requires i < |mappings|
    ensures AnonymousRows(mappings[i := g]) == AnonymousRows(mappings)[i := AnonymousRow(g)]
    ensures AnonymousRow(g) == AnonymousRow(mappings[i]) ==> AnonymousRows(mappings[i := g]) == AnonymousRows(mappings)
  {
    hide AnonymousRow;
  }

  lemma BackedUpdate(entries: seq<Entry>, entries': seq<Entry>, mappings: seq<Mapping>, i: nat, g: Mapping)
    requires Backed(entries, mappings) && SameIdentity(entries, entries') && i < |mappings|
    requires forall j: nat | UsesPage(g, j) :: CachedAs(entries', g.file, j, g.pages[j])
    ensures Backed(entries', mappings[i := g])
  {
    hide CachedAs, SameIdentity, UsesPage;
    var after := mappings[i := g];
    forall k, j: nat | 0 <= k < |after| && UsesPage(after[k], j) ensures j < |after[k].pages| && CachedAs(entries', after[k].file, j, after[k].pages[j]) {
      UsesIsIndex(after[k], j);
      if k != i { StillCached(entries, entries', mappings[k].file, j, mappings[k].pages[j]); }
    }
  }

  lemma UsesIsIndex(g: Mapping, j: nat)
    ensures UsesPage(g, j) ==> j < |g.pages|
  {
  }

  /** The page a mapping has for a file page is that of the entry for its key. */
  lemma UseIsBacked(s: Maps, i: nat, j: nat)
    requires Consistent(s) && i < MAPPINGS && UsesPage(s.mappings[i], j)
    ensures var k := FindEntry(s.entries, s.mappings[i].file, j);
            k < ENTRIES && s.entries[k].physical == s.mappings[i].pages[j] && s.entries[k].references > 0
  {
    hide FindEntry;
    var g := s.mappings[i];
    var k :| 0 <= k < |s.entries| && Caches(s.entries[k], g.file, j) && s.entries[k].physical == g.pages[j];
    EntryIsUnique(s.entries, k);
    assert CountedRight(s.entries[k], s.mappings);
    assert Use(g, g.file, j) == 1;
    UsersExist(s.mappings, g.file, j);
  }

  lemma NoEntryNoUsers(s: Maps, file: nat, offset: nat)
    requires Consistent(s) && FindEntry(s.entries, file, offset) == ENTRIES
    ensures Users(s.mappings, file, offset) == 0
  {
    hide Consistent, FindEntry;
    UsersExist(s.mappings, file, offset);
    if i :| 0 <= i < |s.mappings| && Use(s.mappings[i], file, offset) == 1 {
      assert i < MAPPINGS by { MapCount(s); }
      UseIsBacked(s, i, offset);
    }
  }

  lemma MapCount(s: Maps)
    requires Consistent(s)
    ensures |s.mappings| == MAPPINGS && |s.entries| == ENTRIES
    ensures forall i | 0 <= i < MAPPINGS :: |s.mappings[i].pages| == MAPPING_PAGES && s.mappings[i].pageCount <= MAPPING_PAGES
  {
    forall i | 0 <= i < MAPPINGS ensures |s.mappings[i].pages| == MAPPING_PAGES && s.mappings[i].pageCount <= MAPPING_PAGES {
      assert GoodShape(s.mappings[i], s.nextAddress);
    }
  }

  // ---- materialising one page ----

  /** What a materialisation may do to the rest: take a page, and add references. */
  ghost predicate Grows(s: Maps, s': Maps) {
    && Consistent(s') && Moves(s.memory, Own(s.entries, s.mappings), s'.memory, Own(s'.entries, s'.mappings))
    && s'.memory.free <= s.memory.free && SameIdentity(s.entries, s'.entries)
    && forall p | 0 <= p < PAGE_COUNT && p !in s.memory.free :: s'.memory.ram[p] == s.memory.ram[p]
  }

  /** Page j of mapping i is missing and may be materialised. */
  predicate Missing(s: Maps, i: nat, j: nat) {
    i < |s.mappings| && s.mappings[i].active && j < s.mappings[i].pageCount <= |s.mappings[i].pages| && s.mappings[i].pages[j] == 0
  }

  lemma OwnIsApart(s: Maps)
    requires Consistent(s)
    ensures Apart(s.memory, Own(s.entries, s.mappings)) && Shaped(s.mappings, s.nextAddress)
  {
  }

  lemma WithPageKeepsShape(s: Maps, i: nat, j: nat, physical: nat)
    requires Consistent(s) && i < MAPPINGS && j < s.mappings[i].pageCount
    ensures |s.mappings| == MAPPINGS && |s.mappings[i].pages| == MAPPING_PAGES
    ensures Shaped(s.mappings[i := WithPage(s.mappings[i], j, physical)], s.nextAddress)
  {
    var g := s.mappings[i];
    assert GoodShape(g, s.nextAddress);
    assert GoodShape(WithPage(g, j, physical), s.nextAddress);
    ShapedUpdate(s.mappings, s.nextAddress, i, WithPage(g, j, physical));
  }

  lemma WithPageKeepsBacked(s: Maps, entries': seq<Entry>, i: nat, j: nat, physical: nat)
    requires Consistent(s) && i < MAPPINGS && j < s.mappings[i].pageCount && SameIdentity(s.entries, entries')
    requires s.mappings[i].file != 0 && physical != 0 ==> CachedAs(entries', s.mappings[i].file, j, physical)
    ensures |s.mappings| == MAPPINGS && |s.mappings[i].pages| == MAPPING_PAGES
    ensures Backed(entries', s.mappings[i := WithPage(s.mappings[i], j, physical)])
  {
    var g := s.mappings[i];
    assert GoodShape(g, s.nextAddress);
    hide CachedAs, SameIdentity;
    var g' := WithPage(g, j, physical);
    forall k: nat | UsesPage(g', k) ensures CachedAs(entries', g'.file, k, g'.pages[k]) {
      if k != j {
        assert UsesPage(s.mappings[i], k);
        StillCached(s.entries, entries', g.file, k, g.pages[k]);
      }
    }
    BackedUpdate(s.entries, entries', s.mappings, i, g');
  }

  /** The counts stay right when page j of mapping i and the count of its entry change together. */
  lemma CountsFollow(s: Maps, entries': seq<Entry>, i: nat, j: nat, physical: nat, k: nat)
    requires Consistent(s) && i < MAPPINGS && s.mappings[i].active && s.mappings[i].file != 0 && j < s.mappings[i].pageCount
    requires k < |entries'| == ENTRIES && Table(entries') && Caches(entries'[k], s.mappings[i].file, j)
    requires forall e | 0 <= e < ENTRIES && e != k :: entries'[e] == s.entries[e]
    requires entries'[k].references == Users(s.mappings, s.mappings[i].file, j)
               - Use(s.mappings[i], s.mappings[i].file, j) + (if physical != 0 then 1 else 0)
    ensures |s.mappings| == MAPPINGS && |s.mappings[i].pages| == MAPPING_PAGES
    ensures Counted(entries', s.mappings[i := WithPage(s.mappings[i], j, physical)])
  {
    var g := s.mappings[i];
    assert GoodShape(g, s.nextAddress) && |s.entries| == ENTRIES;
    var after := s.mappings[i := WithPage(g, j, physical)];
    forall e | 0 <= e < ENTRIES ensures CountedRight(entries'[e], after) {
      var file, offset := entries'[e].file, entries'[e].offset;
      UsersOfUpdate(s.mappings, i, WithPage(g, j, physical), file, offset);
      UseWithPage(g, j, physical, file, offset);
      if e != k {
        assert CountedRight(s.entries[e], s.mappings);
        assert entries'[e].active ==> file != g.file || offset != j;
      }
    }
  }

  /** A file page already cached: one more reference, to the same physical page. */
  lemma HitKeeps(s: Maps, i: nat, j: nat)
    requires Consistent(s) && Missing(s, i, j) && s.mappings[i].file != 0 && FindEntry(s.entries, s.mappings[i].file, j) < ENTRIES
    ensures var s' := MaterializeAt(s, i, j);
            Grows(s, s') && s'.memory == s.memory && s'.mappings[i].pages[j] != 0
  {
    MapCount(s);
    OwnIsApart(s);
    var g := s.mappings[i];
    var k := FindEntry(s.entries, g.file, j);
    var a, e := s.entries[k].physical, Referenced(s.entries[k]);
    assert Table(s.entries) && Owned(s.memory, s.entries, s.mappings) && CountedRight(s.entries[k], s.mappings);
    UsersOfUpdate(s.mappings, i, WithPage(g, j, a), g.file, j);
    UseWithPage(g, j, a, g.file, j);
    assert e.references == s.entries[k].references + 1;
    hide FindEntry, Consistent, Table, Owned, Backed, Counted, Shaped, Moves, Apart, SameIdentity, Users;
    RecountKeepsTable(s.entries, k, e.references);
    var entries' := s.entries[k := e];
    EntryIsHeld(s.entries, k);
    WithPageKeepsShape(s, i, j, a);
    assert CachedAs(entries', g.file, j, a) by { assert Caches(entries'[k], g.file, j); }
    WithPageKeepsBacked(s, entries', i, j, a);
    CountsFollow(s, entries', i, j, a, k);
    RowsOfUpdate(s.mappings, i, WithPage(g, j, a));
    NothingMoves(s.memory, Own(s.entries, s.mappings));
    SameOwners(s, entries', s.mappings[i := WithPage(g, j, a)]);
    Assembled(s, MaterializeAt(s, i, j));
  }

  lemma SameOwners(s: Maps, entries': seq<Entry>, mappings': seq<Mapping>)
    requires Owned(s.memory, s.entries, s.mappings)
    requires Physicals(entries') == Physicals(s.entries) && AnonymousRows(mappings') == AnonymousRows(s.mappings)
    ensures Owned(s.memory, entries', mappings') && Own(entries', mappings') == Own(s.entries, s.mappings)
  {
  }

  lemma Assembled(s: Maps, s': Maps)
    requires Shaped(s'.mappings, s'.nextAddress) && Table(s'.entries) && Owned(s'.memory, s'.entries, s'.mappings)
    requires Backed(s'.entries, s'.mappings) && Counted(s'.entries, s'.mappings)
    ensures Consistent(s')
  {
  }

  lemma NothingGrows(s: Maps, i: nat, j: nat)
    requires Consistent(s) && Missing(s, i, j)
    ensures s.mappings[i := WithPage(s.mappings[i], j, 0)] == s.mappings && Grows(s, s)
  {
    NothingMoves(s.memory, Own(s.entries, s.mappings));
    assert s.mappings[i].pages[j := 0] == s.mappings[i].pages;
  }

  /** A fresh page, zeroed, for the cache. */
  lemma CacheTakes(s: Maps, k: nat, file: nat, offset: nat)
    requires Consistent(s) && k < ENTRIES && !s.entries[k].active && FindEntry(s.entries, file, offset) == ENTRIES && Take(s.memory).1 != 0
    ensures var (m, a) := Take(s.memory);
            var entries' := s.entries[k := Entry(file, offset, a, 1, false, true)];
            && Table(entries') && SameIdentity(s.entries, entries') && Owned(Filled(m, a, Zeros(PAGE_SIZE)), entries', s.mappings)
            && Moves(s.memory, Own(s.entries, s.mappings), Filled(m, a, Zeros(PAGE_SIZE)), Own(entries', s.mappings))
  {
    var own := Own(s.entries, s.mappings);
    assert Table(s.entries) && Owned(s.memory, s.entries, s.mappings) && Apart(s.memory, own);
    hide Consistent, Table, FindEntry, Take, ProperRows, HeldIn, Held, SameIdentity;
    var a := Take(s.memory).1;
    TakeIsExact(s.memory);
    InsertKeepsTable(s.entries, k, file, offset, a);
    TakeMoves(s.memory, own, Zeros(PAGE_SIZE));
    var entries' := s.entries[k := Entry(file, offset, a, 1, false, true)];
    assert Own(entries', s.mappings) == own + {PageOf(a)};
  }

  lemma TakenMemory(m: Memory)
    requires Sound(m)
    ensures var (m', a) := Take(m);
            && (a == 0 ==> m' == m)
            && (a != 0 ==> IsPage(a) && PageOf(a) in m.free && m'.free <= m.free
                           && forall p | 0 <= p < PAGE_COUNT && p !in m.free :: Filled(m', a, Zeros(PAGE_SIZE)).ram[p] == m.ram[p])
  {
    TakeIsExact(m);
    hide Take;
  }

  /** A file page not cached: a fresh zeroed page for it, or no change. */
  lemma MissKeeps(s: Maps, i: nat, j: nat)
    requires Consistent(s) && Missing(s, i, j) && s.mappings[i].file != 0 && FindEntry(s.entries, s.mappings[i].file, j) == ENTRIES
    ensures var s' := MaterializeAt(s, i, j);
            && Grows(s, s') && (s'.mappings[i].pages[j] == 0 ==> s' == s)
            && (s'.mappings[i].pages[j] == 0 <==> s.memory.free == {} || forall k | 0 <= k < ENTRIES :: s.entries[k].active)
  {
    MapCount(s);
    OwnIsApart(s);
    NothingGrows(s, i, j);
    NoEntryNoUsers(s, s.mappings[i].file, j);
    assert Sound(s.memory) && |s.entries| == ENTRIES;
    TakenMemory(s.memory);
    TakeIsExact(s.memory);
    hide FindEntry, FindInactive, Take, Filled, Consistent, Table, Owned, Backed, Counted, Shaped, Moves, Apart, SameIdentity, Users;
    var g, k, a := s.mappings[i], FindInactive(s.entries), Take(s.memory).1;
    if k < ENTRIES && a != 0 {
      var entries' := s.entries[k := Entry(g.file, j, a, 1, false, true)];
      CacheTakes(s, k, g.file, j);
      WithPageKeepsShape(s, i, j, a);
      assert CachedAs(entries', g.file, j, a) by { assert Caches(entries'[k], g.file, j); }
      WithPageKeepsBacked(s, entries', i, j, a);
      UsersOfUpdate(s.mappings, i, WithPage(g, j, a), g.file, j);
      CountsFollow(s, entries', i, j, a, k);
      RowsOfUpdate(s.mappings, i, WithPage(g, j, a));
      var s' := MaterializeAt(s, i, j);
      SameOwners(Maps(s'.memory, entries', s.mappings, 0), entries', s'.mappings);
      Assembled(s, s');
    }
  }

  lemma RowIsProper(s: Maps, i: nat)
    requires Consistent(s) && i < MAPPINGS
    ensures var row := AnonymousRow(s.mappings[i]);
            Proper(row) && AnonymousRows(s.mappings)[i] == row && Held(row) <= HeldIn(AnonymousRows(s.mappings)) && Held(row) !! s.memory.free
  {
  }

  /** A mapping's private row replaced by one with other pages. */
  lemma RowReplaced(s: Maps, i: nat, g: Mapping, m: Memory)
    requires Consistent(s) && i < MAPPINGS
    requires Proper(AnonymousRow(g)) && Held(AnonymousRow(g)) !! Own(s.entries, s.mappings) - Held(AnonymousRow(s.mappings[i]))
    requires Apart(m, Own(s.entries, s.mappings) - Held(AnonymousRow(s.mappings[i])) + Held(AnonymousRow(g)))
    ensures Owned(m, s.entries, s.mappings[i := g])
    ensures Own(s.entries, s.mappings[i := g]) == Own(s.entries, s.mappings) - Held(AnonymousRow(s.mappings[i])) + Held(AnonymousRow(g))
  {
    RowIsProper(s, i);
    RowsOfUpdate(s.mappings, i, g);
    hide AnonymousRow, Held, Proper, HeldIn, Apart;
    HeldAfterRow(AnonymousRows(s.mappings), i, AnonymousRow(g));
    var own, own' := Own(s.entries, s.mappings), Own(s.entries, s.mappings[i := g]);
    var old', new' := Held(AnonymousRow(s.mappings[i])), Held(AnonymousRow(g));
    assert own' == own - old' + new';
  }

  lemma CountedWithoutUses(s: Maps, i: nat, g: Mapping)
    requires Consistent(s) && i < MAPPINGS
    requires forall file: nat, offset: nat :: Use(g, file, offset) == Use(s.mappings[i], file, offset)
    ensures Counted(s.entries, s.mappings[i := g])
  {
    hide Use;
    var after := s.mappings[i := g];
    forall k | 0 <= k < |s.entries| ensures CountedRight(s.entries[k], after) {
      assert CountedRight(s.entries[k], s.mappings);
      UsersOfUpdate(s.mappings, i, g, s.entries[k].file, s.entries[k].offset);
    }
  }

  lemma PrivateTakes(s: Maps, i: nat, j: nat)
    requires Consistent(s) && Missing(s, i, j) && s.mappings[i].file == 0 && Take(s.memory).1 != 0
    ensures var (m', a) := Take(s.memory);
            var m, mappings' := Filled(m', a, Zeros(PAGE_SIZE)), s.mappings[i := WithPage(s.mappings[i], j, a)];
            && Owned(m, s.entries, mappings')
            && Moves(s.memory, Own(s.entries, s.mappings), m, Own(s.entries, mappings'))
  {
    MapCount(s);
    OwnIsApart(s);
    RowIsProper(s, i);
    RowInOwn(s, i);
    assert Sound(s.memory);
    TakeIsExact(s.memory);
    hide Take, Filled, Consistent, Owned, Moves, Held, Proper, Own;
    var own, g, a := Own(s.entries, s.mappings), s.mappings[i], Take(s.memory).1;
    var m := Filled(Take(s.memory).0, a, Zeros(PAGE_SIZE));
    TakeMoves(s.memory, own, Zeros(PAGE_SIZE));
    HeldAfterInsert(g.pages, j, a);
    assert own - Held(g.pages) + Held(g.pages[j := a]) == own + {PageOf(a)};
    MovesKeepsApart(s.memory, own, m, own + {PageOf(a)});
    RowReplaced(s, i, WithPage(g, j, a), m);
  }

  /** An anonymous page: a fresh zeroed page, or no change if none is free. */
  lemma AnonymousKeeps(s: Maps, i: nat, j: nat)
    requires Consistent(s) && Missing(s, i, j) && s.mappings[i].file == 0
    ensures var s' := MaterializeAt(s, i, j);
            && Grows(s, s') && s'.entries == s.entries
            && (s'.mappings[i].pages[j] == 0 <==> s.memory.free == {}) && (s'.mappings[i].pages[j] == 0 ==> s' == s)
            && (s'.mappings[i].pages[j] != 0 ==> |s'.memory.free| == |s.memory.free| - 1)
  {
    MapCount(s);
    NothingGrows(s, i, j);
    assert Sound(s.memory) && Table(s.entries) && SameIdentity(s.entries, s.entries);
    hide Take, Filled, Consistent, Table, Owned, Backed, Counted, Shaped, Moves, SameIdentity, Users, Use, Own;
    var g, a := s.mappings[i], Take(s.memory).1;
    TakenMemory(s.memory);
    TakeIsExact(s.memory);
    if a != 0 {
      var s' := MaterializeAt(s, i, j);
      PrivateTakes(s, i, j);
      WithPageKeepsShape(s, i, j, a);
      WithPageKeepsBacked(s, s.entries, i, j, a);
      forall file: nat, offset: nat ensures Use(WithPage(g, j, a), file, offset) == Use(g, file, offset) {
        UseWithPage(g, j, a, file, offset);
      }
      CountedWithoutUses(s, i, WithPage(g, j, a));
      Assembled(s, s');
    }
  }

  lemma RowInOwn(s: Maps, i: nat)
    requires Consistent(s) && i < MAPPINGS
    ensures Held(AnonymousRow(s.mappings[i])) <= Own(s.entries, s.mappings)
  {
    RowIsProper(s, i);
  }

  lemma MaterializeKeeps(s: Maps, i: nat, j: nat)
    requires Consistent(s) && Missing(s, i, j)
    ensures var s' := MaterializeAt(s, i, j);
            && Grows(s, s') && (s'.mappings[i].pages[j] == 0 ==> s' == s)
            && (s.mappings[i].file == 0 ==> s'.entries == s.entries)
  {
    hide Grows, FindEntry, MaterializeAt;
    MapCount(s);
    if s.mappings[i].file == 0 {
      AnonymousKeeps(s, i, j);
    } else if FindEntry(s.entries, s.mappings[i].file, j) < ENTRIES {
      HitKeeps(s, i, j);
    } else {
      MissKeeps(s, i, j);
    }
  }

  // ---- several pages ----

  lemma GrowsTrans(s: Maps, s1: Maps, s2: Maps)
    requires Consistent(s) && Grows(s, s1) && Grows(s1, s2)
    ensures Grows(s, s2)
  {
    OwnIsApart(s);
    IdentityTrans(s.entries, s1.entries, s2.entries);
    hide Own, Consistent, SameIdentity;
    MovesTrans(s.memory, Own(s.entries, s.mappings), s1.memory, Own(s1.entries, s1.mappings), s2.memory, Own(s2.entries, s2.mappings));
  }

  lemma IdentityTrans(a: seq<Entry>, b: seq<Entry>, c: seq<Entry>)
    requires SameIdentity(a, b) && SameIdentity(b, c)
    ensures SameIdentity(a, c)
  {
  }

  /** Filling in pages j to n of a mapping keeps everything; a private mapping leaves the cache alone. */
  lemma {:induction false} PopulateKeeps(s: Maps, i: nat, j: nat, n: nat)
    requires Consistent(s) && i < MAPPINGS && s.mappings[i].active && n <= s.mappings[i].pageCount <= |s.mappings[i].pages|
    requires Grows(s, s) && forall k | j <= k < n :: s.mappings[i].pages[k] == 0
    ensures var (s', complete) := Populate(s, i, j, n);
            && Grows(s, s') && (s.mappings[i].file == 0 ==> s'.entries == s.entries)
            && (complete ==> i < |s'.mappings| && |s'.mappings[i].pages| == |s.mappings[i].pages| && forall k | j <= k < n :: s'.mappings[i].pages[k] != 0)
    decreases n - j
  {
    hide Grows, MaterializeAt, Consistent;
    MapCount(s);
    if j < n {
      MaterializeKeeps(s, i, j);
      MaterializeOnly(s, i, j);
      var s1 := MaterializeAt(s, i, j);
      if s1.mappings[i].pages[j] != 0 {
        assert Consistent(s1) && Grows(s1, s1) by { GrowsTo(s, s1); }
        PopulateKeeps(s1, i, j + 1, n);
        PopulateLater(s1, i, j + 1, n);
        GrowsTrans(s, s1, Populate(s1, i, j + 1, n).0);
      }
    }
  }

  lemma GrowsTo(s: Maps, s': Maps)
    requires Grows(s, s')
    ensures Consistent(s') && Grows(s', s')
  {
    OwnIsApart(s');
    NothingMoves(s'.memory, Own(s'.entries, s'.mappings));
    hide Own, Consistent;
  }

  lemma MaterializeOnly(s: Maps, i: nat, j: nat)
    requires i < |s.mappings| && j < |s.mappings[i].pages|
    ensures var s' := MaterializeAt(s, i, j);
            |s'.mappings| == |s.mappings| && s'.mappings[i] == WithPage(s.mappings[i], j, s'.mappings[i].pages[j])
  {
    hide Materialize;
  }

  /** Filling in later pages leaves an earlier one as it is. */
  lemma {:induction false} PopulateLater(s: Maps, i: nat, j: nat, n: nat)
    requires i < |s.mappings| && n <= |s.mappings[i].pages|
    ensures var s' := Populate(s, i, j, n).0;
            |s'.mappings| == |s.mappings| && |s'.mappings[i].pages| == |s.mappings[i].pages|
            && forall k | 0 <= k < j && k < |s.mappings[i].pages| :: s'.mappings[i].pages[k] == s.mappings[i].pages[k]
    decreases n - j
  {
    if j < n {
      MaterializeOnly(s, i, j);
      hide MaterializeAt;
      var s1 := MaterializeAt(s, i, j);
      if s1.mappings[i].pages[j] != 0 { PopulateLater(s1, i, j + 1, n); }
    }
  }

  /** An eager private mapping gets all its pages exactly when that many are free. */
  lemma {:induction false} PopulateSucceedsExactly(s: Maps, i: nat, j: nat, n: nat)
    requires Consistent(s) && i < MAPPINGS && s.mappings[i].active && s.mappings[i].file == 0 && j <= n <= s.mappings[i].pageCount <= |s.mappings[i].pages|
    requires forall k | j <= k < n :: s.mappings[i].pages[k] == 0
    ensures i < |s.mappings| && (Populate(s, i, j, n).1 <==> n - j <= |s.memory.free|)
    decreases n - j
  {
    hide Grows, MaterializeAt, Consistent;
    MapCount(s);
    if j < n {
      AnonymousKeeps(s, i, j);
      MaterializeOnly(s, i, j);
      var s1 := MaterializeAt(s, i, j);
      if s1.mappings[i].pages[j] != 0 {
        assert Consistent(s1) by { GrowsTo(s, s1); }
        PopulateSucceedsExactly(s1, i, j + 1, n);
      }
    }
  }
}
