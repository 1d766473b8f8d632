/** What each mapping call does: exact rollback, sharing and protection of mapped pages, over every run. */
module MappingCalls {
  import opened Bytes
  import opened Frames
  import opened Memory
  import opened CachedPages
  import opened Mappings
  import opened MappingSafety

  // ---- dropping pages ----

  /** What dropping pages may do: give pages back and lower counts; no page's contents change. */
  ghost predicate Shrinks(s: Maps, s': Maps) {
    && Consistent(s') && Moves(s.memory, Own(s.entries, s.mappings), s'.memory, Own(s'.entries, s'.mappings))
    && s'.memory.ram == s.memory.ram && SameIdentity(s.entries, s'.entries)
    && s'.nextAddress == s.nextAddress && s.memory.free <= s'.memory.free
  }

  lemma ShrinksNot(s: Maps)
    requires Consistent(s)
    ensures Shrinks(s, s)
  {
    OwnIsApart(s);
    NothingMoves(s.memory, Own(s.entries, s.mappings));
  }

  lemma ShrinksTrans(s: Maps, s1: Maps, s2: Maps)
    requires Consistent(s) && Shrinks(s, s1) && Shrinks(s1, s2)
    ensures Shrinks(s, s2)
  {
    OwnIsApart(s);
    IdentityTrans(s.entries, s1.entries, s2.entries);
    hide Own, Consistent, SameIdentity;
    MovesTrans(s.memory, Own(s.entries, s.mappings), s1.memory, Own(s1.entries, s1.mappings), s2.memory, Own(s2.entries, s2.mappings));
  }

  /** Page j of mapping i dropped and forgotten. */
  function DropAt(s: Maps, i: nat, j: nat): Maps
    requires i < |s.mappings| && j < |s.mappings[i].pages|
  {
    var g := s.mappings[i];
    var (m, entries) := DropPage(s.memory, s.entries, g.file, g.pages[j]);
    Maps(m, entries, s.mappings[i := WithPage(g, j, 0)], s.nextAddress)
  }

  predicate Present(s: Maps, i: nat, j: nat) {
    i < |s.mappings| && s.mappings[i].active && j < s.mappings[i].pageCount <= |s.mappings[i].pages| && s.mappings[i].pages[j] != 0
  }

  /** Dropping a file page gives up one reference, and one only. */
  lemma DropFilePage(s: Maps, i: nat, j: nat)
    requires Consistent(s) && Present(s, i, j) && s.mappings[i].file != 0
    ensures Shrinks(s, DropAt(s, i, j)) && DropAt(s, i, j).memory == s.memory
  {
    MapCount(s);
    OwnIsApart(s);
    var g := s.mappings[i];
    UseIsBacked(s, i, j);
    var k := FindEntry(s.entries, g.file, j);
    assert Table(s.entries) && Owned(s.memory, s.entries, s.mappings) && CountedRight(s.entries[k], s.mappings);
    EntryIsUnique(s.entries, k);
    var references: nat := s.entries[k].references - 1;
    var entries' := s.entries[k := s.entries[k].(references := references)];
    assert Release(s.entries, g.pages[j]) == entries';
    assert Use(g, g.file, j) == 1;
    hide FindEntry, FindReferenced, Consistent, Table, Owned, Backed, Counted, Shaped, Moves, Apart, SameIdentity, Users, Release, Own, Use;
    RecountKeepsTable(s.entries, k, references);
    WithPageKeepsShape(s, i, j, 0);
    WithPageKeepsBacked(s, entries', i, j, 0);
    CountsFollow(s, entries', i, j, 0, k);
    RowsOfUpdate(s.mappings, i, WithPage(g, j, 0));
    NothingMoves(s.memory, Own(s.entries, s.mappings));
    SameOwners(s, entries', s.mappings[i := WithPage(g, j, 0)]);
    Assembled(s, DropAt(s, i, j));
  }

  lemma PrivateGives(s: Maps, i: nat, j: nat)
    requires Consistent(s) && Present(s, i, j) && s.mappings[i].file == 0
    ensures var g := s.mappings[i];
            var m, mappings' := Give(s.memory, g.pages[j]), s.mappings[i := WithPage(g, j, 0)];
            && Owned(m, s.entries, mappings') && s.memory.free <= m.free
            && Moves(s.memory, Own(s.entries, s.mappings), m, Own(s.entries, mappings'))
  {
    MapCount(s);
    OwnIsApart(s);
    RowIsProper(s, i);
    RowInOwn(s, i);
    var own, g := Own(s.entries, s.mappings), s.mappings[i];
    var m := Give(s.memory, g.pages[j]);
    assert IsPage(g.pages[j]) && PageOf(g.pages[j]) in Held(g.pages);
    HeldAfterRemove(g.pages, j);
    hide Consistent, Owned, Held, Proper, Own;
    GiveMoves(s.memory, own, g.pages[j]);
    assert own - Held(g.pages) + Held(g.pages[j := 0]) == own - {PageOf(g.pages[j])};
    RowReplaced(s, i, WithPage(g, j, 0), m);
  }

  /** Dropping a private page frees it. */
  lemma DropPrivatePage(s: Maps, i: nat, j: nat)
    requires Consistent(s) && Present(s, i, j) && s.mappings[i].file == 0
    ensures Shrinks(s, DropAt(s, i, j)) && DropAt(s, i, j).entries == s.entries
  {
    MapCount(s);
    assert Table(s.entries) && SameIdentity(s.entries, s.entries);
    hide Consistent, Table, Owned, Backed, Counted, Shaped, Moves, SameIdentity, Users, Use, Own;
    var g, s' := s.mappings[i], DropAt(s, i, j);
    PrivateGives(s, i, j);
    WithPageKeepsShape(s, i, j, 0);
    WithPageKeepsBacked(s, s.entries, i, j, 0);
    forall file: nat, offset: nat ensures Use(WithPage(g, j, 0), file, offset) == Use(g, file, offset) {
      UseWithPage(g, j, 0, file, offset);
    }
    CountedWithoutUses(s, i, WithPage(g, j, 0));
    Assembled(s, s');
  }

  lemma DropAtKeeps(s: Maps, i: nat, j: nat)
    requires Consistent(s) && i < |s.mappings| && s.mappings[i].active && j < s.mappings[i].pageCount <= |s.mappings[i].pages|
    ensures Shrinks(s, DropAt(s, i, j)) && (s.mappings[i].file == 0 ==> DropAt(s, i, j).entries == s.entries)
  {
    if s.mappings[i].pages[j] == 0 {
      NothingGrows(s, i, j);
      ShrinksNot(s);
    } else if s.mappings[i].file == 0 {
      DropPrivatePage(s, i, j);
    } else {
      DropFilePage(s, i, j);
    }
  }

  /** The mapping with its first n pages forgotten. */
  function Cleared(g: Mapping, n: nat): (r: Mapping)
    requires n <= |g.pages|
    ensures |r.pages| == |g.pages|
    ensures forall k | 0 <= k < |g.pages| :: r.pages[k] == if k < n then 0 else g.pages[k]
  {
    g.(pages := Padding(n) + g.pages[n..])
  }

  function AfterDrops(s: Maps, i: nat, n: nat): Maps
    requires i < |s.mappings| && n <= |s.mappings[i].pages|
  {
    var (m, entries) := DropPages(s.memory, s.entries, s.mappings[i], n);
    Maps(m, entries, s.mappings[i := Cleared(s.mappings[i], n)], s.nextAddress)
  }

  lemma AfterNone(s: Maps, i: nat)
    requires i < |s.mappings|
    ensures AfterDrops(s, i, 0) == s
  {
    assert Cleared(s.mappings[i], 0).pages == s.mappings[i].pages;
  }

  lemma AfterOneMore(s: Maps, i: nat, n: nat)
    requires i < |s.mappings| && n < |s.mappings[i].pages|
    ensures |AfterDrops(s, i, n).mappings| == |s.mappings| && AfterDrops(s, i, n).mappings[i] == Cleared(s.mappings[i], n)
    ensures AfterDrops(s, i, n + 1) == DropAt(AfterDrops(s, i, n), i, n)
  {
    hide DropPage;
    var g := s.mappings[i];
    assert WithPage(Cleared(g, n), n, 0).pages == Cleared(g, n + 1).pages;
    assert s.mappings[i := Cleared(g, n)][i := Cleared(g, n + 1)] == s.mappings[i := Cleared(g, n + 1)];
  }

  lemma {:induction false} DropPagesKeeps(s: Maps, i: nat, n: nat)
    requires Consistent(s) && i < |s.mappings| && s.mappings[i].active && n <= s.mappings[i].pageCount <= |s.mappings[i].pages|
    ensures Shrinks(s, AfterDrops(s, i, n)) && (s.mappings[i].file == 0 ==> AfterDrops(s, i, n).entries == s.entries)
  {
    hide Consistent, Shrinks, DropAt, AfterDrops;
    if n == 0 {
      AfterNone(s, i);
      ShrinksNot(s);
    } else {
      DropPagesKeeps(s, i, n - 1);
      AfterOneMore(s, i, n - 1);
      var s1 := AfterDrops(s, i, n - 1);
      assert Consistent(s1) by { ShrinksTo(s, s1); }
      DropAtKeeps(s1, i, n - 1);
      ShrinksTrans(s, s1, DropAt(s1, i, n - 1));
    }
  }

  lemma ShrinksTo(s: Maps, s': Maps)
    requires Shrinks(s, s')
    ensures Consistent(s')
  {
  }

  /** A mapping without pages changes nothing when it starts or ends. */
  lemma Retagged(s: Maps, i: nat, g: Mapping, nextAddress: nat)
    requires Consistent(s) && i < MAPPINGS && nextAddress >= s.nextAddress
    requires Held(AnonymousRow(s.mappings[i])) == {} && (forall j: nat :: !UsesPage(s.mappings[i], j))
    requires |g.pages| == MAPPING_PAGES && g.pageCount <= MAPPING_PAGES && AnonymousRow(g) == NoPages && (forall j: nat :: !UsesPage(g, j))
    requires g.active ==> g.pages == NoPages && g.pageCount > 0 && s.nextAddress <= g.address && g.address + g.pageCount * PAGE_SIZE <= nextAddress
    ensures var s' := s.(mappings := s.mappings[i := g], nextAddress := nextAddress);
            Consistent(s') && Own(s'.entries, s'.mappings) == Own(s.entries, s.mappings)
  {
    var s' := s.(mappings := s.mappings[i := g], nextAddress := nextAddress);
    ShapedRetagged(s, i, g, nextAddress);
    HeldNothing(NoPages);
    OwnIsApart(s);
    assert |s.mappings| == MAPPINGS && Table(s.entries) && SameIdentity(s.entries, s.entries) && Backed(s.entries, s.mappings);
    var own := Own(s.entries, s.mappings);
    hide Consistent, Held, Own, Shaped, Backed, Counted, Owned, SameIdentity, Table, UsesPage;
    assert own - {} + {} == own;
    RowReplaced(s, i, g, s.memory);
    BackedUpdate(s.entries, s.entries, s.mappings, i, g);
    forall file: nat, offset: nat ensures Use(g, file, offset) == Use(s.mappings[i], file, offset) {
      assert !UsesPage(g, offset) && !UsesPage(s.mappings[i], offset);
    }
    CountedWithoutUses(s, i, g);
    Assembled(s, s');
  }

  lemma ShapedRetagged(s: Maps, i: nat, g: Mapping, nextAddress: nat)
    requires Consistent(s) && i < MAPPINGS && nextAddress >= s.nextAddress
    requires |g.pages| == MAPPING_PAGES && g.pageCount <= MAPPING_PAGES
    requires g.active ==> g.pages == NoPages && g.pageCount > 0 && s.nextAddress <= g.address && g.address + g.pageCount * PAGE_SIZE <= nextAddress
    ensures |s.mappings| == MAPPINGS && Shaped(s.mappings[i := g], nextAddress)
  {
    var after := s.mappings[i := g];
    forall k | 0 <= k < MAPPINGS ensures GoodShape(after[k], nextAddress) {
      assert GoodShape(s.mappings[k], s.nextAddress);
    }
    forall k | 0 <= k < MAPPINGS && k != i && s.mappings[k].active && g.active ensures Disjoint(s.mappings[k], g) && Disjoint(g, s.mappings[k]) {
      assert GoodShape(s.mappings[k], s.nextAddress);
    }
  }

  // ---- the calls ----

  lemma NoUse(g: Mapping)
    requires !g.active || forall j | 0 <= j < |g.pages| :: g.pages[j] == 0
    ensures forall j: nat :: !UsesPage(g, j)
    ensures Held(AnonymousRow(g)) == {} && (!g.active ==> AnonymousRow(g) == NoPages)
  {
    HeldNothing(AnonymousRow(g));
  }

  /** A new mapping without pages. */
  lemma ReservedKeeps(s: Maps, i: nat, file: nat, pages: nat, writable: bool, demandPaged: bool)
    requires Consistent(s) && i < MAPPINGS == |s.mappings| && !s.mappings[i].active && 0 < pages <= MAPPING_PAGES
    ensures var s' := Reserved(s, i, file, pages, writable, demandPaged);
            Consistent(s') && Own(s'.entries, s'.mappings) == Own(s.entries, s.mappings)
  {
    var g := Mapping(s.nextAddress, pages, file, writable, demandPaged, true, NoPages);
    NoUse(s.mappings[i]);
    NoUse(g);
    hide Consistent, UsesPage, Held;
    Retagged(s, i, g, s.nextAddress + pages * PAGE_SIZE);
  }

  /** A mapping whose pages are all dropped is ended; the addresses left in its record mean nothing. */
  lemma EndedKeeps(s: Maps, i: nat, g: Mapping)
    requires Consistent(s) && i < MAPPINGS == |s.mappings| && forall j | 0 <= j < |s.mappings[i].pages| :: s.mappings[i].pages[j] == 0
    requires !g.active && |g.pages| == MAPPING_PAGES && g.pageCount <= MAPPING_PAGES
    ensures var s' := s.(mappings := s.mappings[i := g]);
            Consistent(s') && Own(s'.entries, s'.mappings) == Own(s.entries, s.mappings)
  {
    NoUse(s.mappings[i]);
    NoUse(g);
    hide Consistent, UsesPage, Held;
    Retagged(s, i, g, s.nextAddress);
  }

  lemma NothingLeft(s: Maps, i: nat)
    requires Consistent(s) && i < MAPPINGS == |s.mappings| && s.mappings[i].active
    ensures |s.mappings[i].pages| == MAPPING_PAGES && 0 < s.mappings[i].pageCount <= MAPPING_PAGES
    ensures forall j | 0 <= j < MAPPING_PAGES :: Cleared(s.mappings[i], s.mappings[i].pageCount).pages[j] == 0
  {
    assert GoodShape(s.mappings[i], s.nextAddress);
  }

  /** Unmapping gives up exactly the mapping's pages; every other mapping keeps its pages and their contents. */
  lemma UnmapKeeps(s: Maps, address: nat)
    requires Consistent(s)
    ensures MapCounted(s)
    ensures var s' := Unmap(s, address);
            && Shrinks(s, s')
            && (Starts(s.mappings, address) ==>
                  var i := FindMapping(s.mappings, address);
                  && s'.mappings == s.mappings[i := s.mappings[i].(active := false)]
                  && (s.mappings[i].file == 0 ==> s'.entries == s.entries))
            && (!Starts(s.mappings, address) ==> s' == s)
  {
    MapCount(s);
    ShrinksNot(s);
    var i := FindMapping(s.mappings, address);
    hide Consistent, FindMapping, DropPages, Shrinks;
    if Starts(s.mappings, address) {
      var g := s.mappings[i];
      NothingLeft(s, i);
      DropPagesKeeps(s, i, g.pageCount);
      UnmapEnds(s, i);
    }
  }

  lemma UnmapEnds(s: Maps, i: nat)
    requires Consistent(s) && i < MAPPINGS == |s.mappings| && s.mappings[i].active && s.mappings[i].pageCount <= |s.mappings[i].pages|
    requires Shrinks(s, AfterDrops(s, i, s.mappings[i].pageCount))
    ensures var (m, entries) := DropPages(s.memory, s.entries, s.mappings[i], s.mappings[i].pageCount);
            Shrinks(s, Maps(m, entries, s.mappings[i := s.mappings[i].(active := false)], s.nextAddress))
  {
    var g := s.mappings[i];
    NothingLeft(s, i);
    var s1 := AfterDrops(s, i, g.pageCount);
    hide DropPages, Consistent, Moves, SameIdentity, Own;
    assert s1.mappings[i] == Cleared(g, g.pageCount);
    assert s1.mappings[i := g.(active := false)] == s.mappings[i := g.(active := false)];
    EndedKeeps(s1, i, g.(active := false));
  }

  predicate MapCounted(s: Maps) {
    && |s.mappings| == MAPPINGS && |s.entries| == ENTRIES
    && forall i | 0 <= i < |s.mappings| :: |s.mappings[i].pages| == MAPPING_PAGES && s.mappings[i].pageCount <= MAPPING_PAGES
  }

  /** What every call keeps: ownership, the counts, and the contents of every page in use. */
  ghost predicate Serves(s: Maps, s': Maps) {
    && Consistent(s') && Moves(s.memory, Own(s.entries, s.mappings), s'.memory, Own(s'.entries, s'.mappings))
    && forall p | 0 <= p < PAGE_COUNT && p !in s.memory.free :: s'.memory.ram[p] == s.memory.ram[p]
  }

  /** The new mapping's address is in no other mapping. */
  lemma {:induction false} NewMappingFound(s: Maps, i: nat, mappings: seq<Mapping>)
    requires Consistent(s) && i < MAPPINGS && |mappings| == |s.mappings|
    requires forall k | 0 <= k < MAPPINGS && k != i && k < |s.mappings| :: mappings[k] == s.mappings[k]
    requires |mappings| == MAPPINGS && mappings[i].active && mappings[i].address == s.nextAddress && mappings[i].pageCount > 0
    ensures FindMapping(mappings, s.nextAddress) == i && Starts(mappings, s.nextAddress)
  {
    assert Contains(mappings[i], s.nextAddress);
    forall k | 0 <= k < MAPPINGS && k != i ensures !Contains(mappings[k], s.nextAddress) {
      assert GoodShape(s.mappings[k], s.nextAddress);
    }
  }

  lemma ReservedIs(s: Maps, i: nat, file: nat, pages: nat, writable: bool, demandPaged: bool)
    requires i < |s.mappings|
    ensures var s1 := Reserved(s, i, file, pages, writable, demandPaged);
            && s1.memory == s.memory && s1.entries == s.entries && |s1.mappings| == |s.mappings|
            && s1.mappings[i] == Mapping(s.nextAddress, pages, file, writable, demandPaged, true, NoPages)
            && forall k | 0 <= k < |s.mappings| && k != i :: s1.mappings[k] == s.mappings[k]
  {
  }

  /** The state an eager mapping reaches before it is known whether all its pages were there. */
  lemma EagerGrows(s: Maps, i: nat, file: nat, n: nat, writable: bool)
    requires Consistent(s) && i < MAPPINGS == |s.mappings| && !s.mappings[i].active && 0 < n <= MAPPING_PAGES
    ensures var s1 := Reserved(s, i, file, n, writable, false);
            var (s2, complete) := Populate(s1, i, 0, n);
            && Consistent(s1) && Grows(s1, s2) && (file == 0 ==> s2.entries == s.entries)
            && FindMapping(s2.mappings, s.nextAddress) == i && Starts(s2.mappings, s.nextAddress)
            && (complete ==> |s2.mappings[i].pages| == MAPPING_PAGES && forall k | 0 <= k < n :: s2.mappings[i].pages[k] != 0)
            && (file == 0 ==> (complete <==> n <= |s.memory.free|))
  {
    hide Consistent, Populate, Grows, FindMapping, Reserved;
    ReservedKeeps(s, i, file, n, writable, false);
    ReservedIs(s, i, file, n, writable, false);
    var s1 := Reserved(s, i, file, n, writable, false);
    GrowsNot(s1);
    PopulateKeeps(s1, i, 0, n);
    PopulateKeepsShape(s1, i, 0, n);
    NewMappingFound(s, i, Populate(s1, i, 0, n).0.mappings);
    if file == 0 { PopulateSucceedsExactly(s1, i, 0, n); }
  }

  lemma GrowsNot(s: Maps)
    requires Consistent(s)
    ensures Grows(s, s)
  {
    OwnIsApart(s);
    NothingMoves(s.memory, Own(s.entries, s.mappings));
  }

  /** A mapping of the same table with one slot still inactive: every count is what it was. */
  lemma InactiveSlotsCountNothing(s: Maps, s': Maps, i: nat, h: Mapping)
    requires Consistent(s) && Consistent(s') && i < MAPPINGS == |s.mappings| && !s.mappings[i].active && !h.active
    requires s'.mappings == s.mappings[i := h] && SameIdentity(s.entries, s'.entries)
    ensures |s.entries| == ENTRIES == |s'.entries| && AnonymousRows(s'.mappings) == AnonymousRows(s.mappings)
    ensures forall k | 0 <= k < ENTRIES && s'.entries[k].active ::
              s'.entries[k].references == if s.entries[k].active then s.entries[k].references else 0
  {
    RowsOfUpdate(s.mappings, i, h);
    forall k | 0 <= k < ENTRIES && s'.entries[k].active
      ensures s'.entries[k].references == if s.entries[k].active then s.entries[k].references else 0
    {
      var file, offset := s'.entries[k].file, s'.entries[k].offset;
      UsersOfUpdate(s.mappings, i, h, file, offset);
      assert CountedRight(s'.entries[k], s'.mappings) && CountedRight(s.entries[k], s.mappings);
      if !s.entries[k].active { NewEntryUnused(s, s', k); }
    }
  }

  lemma NewEntryUnused(s: Maps, s': Maps, k: nat)
    requires Consistent(s) && Consistent(s') && SameIdentity(s.entries, s'.entries)
    requires k < ENTRIES == |s.entries| == |s'.entries| && !s.entries[k].active && s'.entries[k].active
    ensures Users(s.mappings, s'.entries[k].file, s'.entries[k].offset) == 0
  {
    var file, offset := s'.entries[k].file, s'.entries[k].offset;
    var j := FindEntry(s.entries, file, offset);
    if j == ENTRIES {
      NoEntryNoUsers(s, file, offset);
    }
  }

  lemma SameOwnSameFree(m: Memory, own: set<nat>, m': Memory)
    requires Apart(m, own) && Moves(m, own, m', own)
    ensures m'.free == m.free
  {
    forall p | p in m.free ensures p in m'.free { assert p in own + m'.free; }
    forall p | p in m'.free ensures p in m.free { assert p in own + m.free; }
  }

  /** What a failed eager mapping leaves behind. */
  ghost predicate RolledBack(s: Maps, s': Maps, i: nat, file: nat) {
    && Serves(s, s') && |s.entries| == |s'.entries| && SameIdentity(s.entries, s'.entries)
    && (forall k | 0 <= k < |s.entries| && s'.entries[k].active ::
          s'.entries[k].references == if s.entries[k].active then s.entries[k].references else 0)
    && (file == 0 ==> s'.memory.free == s.memory.free && s'.entries == s.entries)
    && i < |s.mappings| && i < |s'.mappings| && !s'.mappings[i].active && s'.mappings == s.mappings[i := s'.mappings[i]]
  }

  /** A failed eager mapping: the free set and every reference count are as before. */
  lemma FailedMapRollsBack(s: Maps, i: nat, file: nat, n: nat, writable: bool)
    requires Consistent(s) && i < MAPPINGS == |s.mappings| && !s.mappings[i].active && 0 < n <= MAPPING_PAGES
    requires MapCounted(Populate(Reserved(s, i, file, n, writable, false), i, 0, n).0)
    ensures var s2 := Populate(Reserved(s, i, file, n, writable, false), i, 0, n).0;
            RolledBack(s, Unmap(s2, s.nextAddress), i, file)
  {
    hide Consistent, Populate, FindMapping, Reserved, Unmap, SameIdentity, Own, Moves, RolledBack;
    EagerGrows(s, i, file, n, writable);
    ReservedIs(s, i, file, n, writable, false);
    ReservedKeeps(s, i, file, n, writable, false);
    var s1 := Reserved(s, i, file, n, writable, false);
    var s2 := Populate(s1, i, 0, n).0;
    PopulateKeepsShape(s1, i, 0, n);
    UnmapKeeps(s2, s.nextAddress);
    var s3 := Unmap(s2, s.nextAddress);
    var h := s2.mappings[i].(active := false);
    assert s3.mappings == s.mappings[i := h];
    FailedMapUndone(s, s1, s2, s3, i, h, file);
  }

  lemma FailedMapUndone(s: Maps, s1: Maps, s2: Maps, s3: Maps, i: nat, h: Mapping, file: nat)
    requires Consistent(s) && Consistent(s1) && Grows(s1, s2) && Shrinks(s2, s3)
    requires s1.memory == s.memory && s1.entries == s.entries && Own(s1.entries, s1.mappings) == Own(s.entries, s.mappings)
    requires i < MAPPINGS == |s.mappings| && !s.mappings[i].active && !h.active && s3.mappings == s.mappings[i := h]
    requires file == 0 ==> s3.entries == s.entries
    ensures RolledBack(s, s3, i, file)
  {
    OwnIsApart(s);
    OwnIsApart(s1);
    var own, own3 := Own(s.entries, s.mappings), Own(s3.entries, s3.mappings);
    IdentityTrans(s1.entries, s2.entries, s3.entries);
    hide Consistent, SameIdentity;
    InactiveSlotsCountNothing(s, s3, i, h);
    assert file == 0 ==> own3 == own;
    hide Own;
    MovesTrans(s.memory, own, s2.memory, Own(s2.entries, s2.mappings), s3.memory, own3);
    if file == 0 { SameOwnSameFree(s.memory, own, s3.memory); }
  }

  lemma GrowsServes(s: Maps, s1: Maps, s2: Maps)
    requires Consistent(s) && s1.memory == s.memory && Own(s1.entries, s1.mappings) == Own(s.entries, s.mappings) && Grows(s1, s2)
    ensures Serves(s, s2)
  {
  }

  /** What a successful call to map makes: a mapping at the returned address, and no other change to the table. */
  ghost predicate Mapped(s: Maps, s': Maps, i: nat, file: nat, pages: nat, writable: bool, demandPaged: bool) {
    && Serves(s, s') && |s.mappings| == |s'.mappings| == MAPPINGS && i < MAPPINGS && |s'.mappings[i].pages| == MAPPING_PAGES
    && s'.mappings[i] == Mapping(s.nextAddress, pages, file, writable, demandPaged, true, s'.mappings[i].pages)
    && (forall k | 0 <= k < MAPPINGS && k != i :: s'.mappings[k] == s.mappings[k])
    && (!demandPaged ==> pages <= MAPPING_PAGES && forall j | 0 <= j < pages :: s'.mappings[i].pages[j] != 0)
    && s'.nextAddress == s.nextAddress + pages * PAGE_SIZE
  }

  lemma DemandMapped(s: Maps, i: nat, file: nat, n: nat, writable: bool)
    requires Consistent(s) && i < MAPPINGS == |s.mappings| && !s.mappings[i].active && 0 < n <= MAPPING_PAGES
    ensures Mapped(s, Reserved(s, i, file, n, writable, true), i, file, n, writable, true)
  {
    OwnIsApart(s);
    NothingMoves(s.memory, Own(s.entries, s.mappings));
    hide Consistent, Own, Moves, Apart, Shaped, Reserved;
    ReservedKeeps(s, i, file, n, writable, true);
    ReservedIs(s, i, file, n, writable, true);
    ReservedNext(s, i, file, n, writable, true);
  }

  lemma EagerMapped(s: Maps, i: nat, file: nat, n: nat, writable: bool)
    requires Consistent(s) && i < MAPPINGS == |s.mappings| && !s.mappings[i].active && 0 < n <= MAPPING_PAGES
    ensures var (s2, complete) := Populate(Reserved(s, i, file, n, writable, false), i, 0, n);
            && MapCounted(s2) && (complete ==> Mapped(s, s2, i, file, n, writable, false))
            && (file == 0 ==> (complete <==> n <= |s.memory.free|))
  {
    hide Consistent, Own, Moves, Reserved, Populate, Grows, FindMapping, Starts, Serves;
    ReservedKeeps(s, i, file, n, writable, false);
    ReservedIs(s, i, file, n, writable, false);
    ReservedNext(s, i, file, n, writable, false);
    var s1 := Reserved(s, i, file, n, writable, false);
    EagerGrows(s, i, file, n, writable);
    PopulateKeepsShape(s1, i, 0, n);
    GrowsServes(s, s1, Populate(s1, i, 0, n).0);
    assert Consistent(Populate(s1, i, 0, n).0) by { GrowsTo(s1, Populate(s1, i, 0, n).0); }
    MapCount(Populate(s1, i, 0, n).0);
  }

  lemma MapUnfolds(s: Maps, file: nat, length: uint64, writable: bool, demandPaged: bool)
    requires MapCounted(s)
    requires Mappable(s, length) ==>
               MapCounted(Populate(Reserved(s, FindUnmapped(s.mappings), file, PagesFor(length), writable, false), FindUnmapped(s.mappings), 0, PagesFor(length)).0)
    ensures Map(s, file, length, writable, demandPaged) ==
              var i, n := FindUnmapped(s.mappings), PagesFor(length);
              if !Mappable(s, length) then (s, 0)
              else if demandPaged then (Reserved(s, i, file, n, writable, true), s.nextAddress)
              else
                var (s2, complete) := Populate(Reserved(s, i, file, n, writable, false), i, 0, n);
                if complete then (s2, s.nextAddress) else (Unmap(s2, s.nextAddress), 0)
  {
    hide FindUnmapped, PagesFor, Populate, Unmap;
  }

  /**
   Mapping succeeds with a fresh address range and, if eager, all its pages; or it fails and rolls
   back exactly. A private mapping fails only for want of a slot or of pages.
   */
  lemma MapKeeps(s: Maps, file: nat, length: uint64, writable: bool, demandPaged: bool)
    requires Consistent(s)
    ensures MapCounted(s)
    ensures var (s', a) := Map(s, file, length, writable, demandPaged);
            var i, n := FindUnmapped(s.mappings), PagesFor(length);
            && (a != 0 ==> a == s.nextAddress && Mapped(s, s', i, file, n, writable, demandPaged))
            && (a == 0 ==> if Mappable(s, length) then RolledBack(s, s', i, file) else s' == s)
            && (file == 0 ==> (a != 0 <==> Mappable(s, length) && (demandPaged || n <= |s.memory.free|)))
  {
    MapCount(s);
    AddressesAreNotZero(s);
    var i, n := FindUnmapped(s.mappings), PagesFor(length);
    hide Consistent, Populate, FindUnmapped, PagesFor, Reserved, Unmap, RolledBack, Mapped, Map;
    if Mappable(s, length) {
      EagerMapped(s, i, file, n, writable);
      if demandPaged { DemandMapped(s, i, file, n, writable); } else { FailedMapRollsBack(s, i, file, n, writable); }
    }
    MapUnfolds(s, file, length, writable, demandPaged);
  }

  lemma AddressesAreNotZero(s: Maps)
    requires Consistent(s)
    ensures s.nextAddress > 0
  {
  }

  lemma ReservedNext(s: Maps, i: nat, file: nat, pages: nat, writable: bool, demandPaged: bool)
    requires i < |s.mappings|
    ensures Reserved(s, i, file, pages, writable, demandPaged).nextAddress == s.nextAddress + pages * PAGE_SIZE
  {
  }

  lemma DirtyKeeps(s: Maps, physical: nat)
    requires Consistent(s)
    ensures var s' := s.(entries := MarkDirty(s.entries, physical));
            Consistent(s') && Own(s'.entries, s'.mappings) == Own(s.entries, s.mappings)
  {
    var entries' := MarkDirty(s.entries, physical);
    assert Table(s.entries) && Backed(s.entries, s.mappings) && Counted(s.entries, s.mappings) && Owned(s.memory, s.entries, s.mappings);
    assert Shaped(s.mappings, s.nextAddress);
    MarkDirtyKeepsTable(s.entries, physical);
    forall i, j: nat | 0 <= i < |s.mappings| && UsesPage(s.mappings[i], j)
      ensures j < |s.mappings[i].pages| && CachedAs(entries', s.mappings[i].file, j, s.mappings[i].pages[j])
    {
      UsesIsIndex(s.mappings[i], j);
      StillCached(s.entries, entries', s.mappings[i].file, j, s.mappings[i].pages[j]);
    }
    forall k | 0 <= k < |entries'| ensures CountedRight(entries'[k], s.mappings) {
      assert CountedRight(s.entries[k], s.mappings);
    }
    SameOwners(s, entries', s.mappings);
    Assembled(s, s.(entries := entries'));
  }

  /** A fault returns the page that the mapping then has, and never changes a page in use. */
  lemma FaultKeeps(s: Maps, address: nat, write: bool)
    requires Consistent(s)
    ensures MapCounted(s)
    ensures var (s', physical) := HandlePageFault(s, address, write);
            && Serves(s, s') && s'.nextAddress == s.nextAddress
            && (!Faultable(s.mappings, address, write) ==> s' == s && physical == 0)
            && (Faultable(s.mappings, address, write) ==>
                  var i := FindMapping(s.mappings, address);
                  var j := PageIndex(s.mappings[i], address);
                  && |s'.mappings| == MAPPINGS && |s.mappings[i].pages| == MAPPING_PAGES
                  && s'.mappings == s.mappings[i := WithPage(s.mappings[i], j, physical)]
                  && (s.mappings[i].pages[j] != 0 ==> physical == s.mappings[i].pages[j]))
  {
    MapCount(s);
    GrowsNot(s);
    var i := FindMapping(s.mappings, address);
    hide Consistent, FindMapping, SameIdentity, Own, Moves, MaterializeAt;
    if Faultable(s.mappings, address, write) {
      var j := PageIndex(s.mappings[i], address);
      if s.mappings[i].pages[j] == 0 {
        MaterializeKeeps(s, i, j);
        MaterializeOnly(s, i, j);
        MaterializeRest(s, i, j);
      } else {
        assert s.mappings[i].pages[j := s.mappings[i].pages[j]] == s.mappings[i].pages;
      }
      var s1 := if s.mappings[i].pages[j] == 0 then MaterializeAt(s, i, j) else s;
      DirtyKeeps(s1, s1.mappings[i].pages[j]);
    }
  }

  lemma MaterializeRest(s: Maps, i: nat, j: nat)
    requires i < |s.mappings| && j < |s.mappings[i].pages|
    ensures var s' := MaterializeAt(s, i, j);
            i < |s'.mappings| && j < |s'.mappings[i].pages| && s'.nextAddress == s.nextAddress
            && s'.mappings == s.mappings[i := WithPage(s.mappings[i], j, s'.mappings[i].pages[j])]
  {
    hide Materialize;
  }

  /** There is no page for page j of a file, or of a private mapping. */
  predicate Exhausted(s: Maps, file: nat, j: nat) {
    if file == 0 then s.memory.free == {}
    else FindEntry(s.entries, file, j) == |s.entries| && (s.memory.free == {} || forall k | 0 <= k < |s.entries| :: s.entries[k].active)
  }

  lemma MaterializeFailsExactly(s: Maps, i: nat, j: nat)
    requires Consistent(s) && Missing(s, i, j)
    ensures i < |MaterializeAt(s, i, j).mappings| && j < |MaterializeAt(s, i, j).mappings[i].pages|
    ensures MaterializeAt(s, i, j).mappings[i].pages[j] == 0 <==> Exhausted(s, s.mappings[i].file, j)
  {
    MapCount(s);
    MaterializeRest(s, i, j);
    hide Consistent, Grows, MaterializeAt, FindEntry;
    if s.mappings[i].file == 0 {
      AnonymousKeeps(s, i, j);
    } else if FindEntry(s.entries, s.mappings[i].file, j) < ENTRIES {
      HitKeeps(s, i, j);
    } else {
      MissKeeps(s, i, j);
    }
  }

  /** A permitted fault fails only if its page is missing and there is no page, or no cache entry, for it. */
  lemma FaultFailsExactly(s: Maps, address: nat, write: bool)
    requires Consistent(s) && Faultable(s.mappings, address, write)
    ensures MapCounted(s)
    ensures var i := FindMapping(s.mappings, address);
            var j := PageIndex(s.mappings[i], address);
            HandlePageFault(s, address, write).1 == 0 <==> s.mappings[i].pages[j] == 0 && Exhausted(s, s.mappings[i].file, j)
  {
    MapCount(s);
    var i := FindMapping(s.mappings, address);
    var j := PageIndex(s.mappings[i], address);
    hide Consistent, FindMapping, PageIndex, Exhausted, MaterializeAt;
    if s.mappings[i].pages[j] == 0 {
      MaterializeFailsExactly(s, i, j);
    }
  }

  // ---- eviction ----

  function EvictPage(s: Maps, file: nat, offset: nat): Maps {
    var (m, entries) := Evict(s.memory, s.entries, file, offset);
    s.(memory := m, entries := entries)
  }

  lemma UsersOf(s: Maps, k: nat)
    requires Consistent(s) && k < ENTRIES
    ensures |s.entries| == ENTRIES && (s.entries[k].active ==> s.entries[k].references == Users(s.mappings, s.entries[k].file, s.entries[k].offset))
  {
    assert Table(s.entries) && CountedRight(s.entries[k], s.mappings);
  }

  lemma EvictedOwned(s: Maps, k: nat)
    requires Consistent(s) && k < ENTRIES == |s.entries| && s.entries[k].active
    ensures var m, entries' := Give(s.memory, s.entries[k].physical), s.entries[k := NoEntry];
            && Table(entries') && Owned(m, entries', s.mappings) && m.ram == s.memory.ram
            && Moves(s.memory, Own(s.entries, s.mappings), m, Own(entries', s.mappings))
            && m.free == s.memory.free + {PageOf(s.entries[k].physical)}
  {
    OwnIsApart(s);
    var own := Own(s.entries, s.mappings);
    assert Table(s.entries) && Owned(s.memory, s.entries, s.mappings);
    EntryIsHeld(s.entries, k);
    hide Consistent, Table, Held, ProperRows, HeldIn;
    RemoveKeepsTable(s.entries, k);
    GiveMoves(s.memory, own, s.entries[k].physical);
    var entries' := s.entries[k := NoEntry];
    assert Own(entries', s.mappings) == own - {PageOf(s.entries[k].physical)};
  }

  lemma EvictedBacked(s: Maps, k: nat)
    requires Consistent(s) && k < ENTRIES == |s.entries| && s.entries[k].active && s.entries[k].references == 0
    ensures Backed(s.entries[k := NoEntry], s.mappings) && Counted(s.entries[k := NoEntry], s.mappings)
  {
    var entries' := s.entries[k := NoEntry];
    MapCount(s);
    assert Backed(s.entries, s.mappings) && Counted(s.entries, s.mappings) && Table(s.entries);
    forall i, j: nat | 0 <= i < |s.mappings| && UsesPage(s.mappings[i], j)
      ensures j < |s.mappings[i].pages| && CachedAs(entries', s.mappings[i].file, j, s.mappings[i].pages[j])
    {
      UsesIsIndex(s.mappings[i], j);
      UseIsBacked(s, i, j);
      var e := FindEntry(s.entries, s.mappings[i].file, j);
      assert e != k && entries'[e] == s.entries[e];
    }
    forall e | 0 <= e < |entries'| ensures CountedRight(entries'[e], s.mappings) {
      assert CountedRight(s.entries[e], s.mappings);
    }
  }

  /** A cached page is evicted exactly when no mapping has it: mapped pages are never taken away. */
  lemma EvictKeeps(s: Maps, file: nat, offset: nat)
    requires Consistent(s)
    ensures var s' := EvictPage(s, file, offset);
            && Serves(s, s') && s'.memory.ram == s.memory.ram && |s.entries| == ENTRIES && s'.mappings == s.mappings
            && var k := FindEntry(s.entries, file, offset);
               if k < ENTRIES && Users(s.mappings, file, offset) == 0
               then s'.entries == s.entries[k := NoEntry] && s'.memory.free == s.memory.free + {PageOf(s.entries[k].physical)}
               else s' == s
  {
    OwnIsApart(s);
    NothingMoves(s.memory, Own(s.entries, s.mappings));
    assert Table(s.entries);
    var k, e := FindEntry(s.entries, file, offset), FindEvictable(s.entries, file, offset);
    if k < ENTRIES {
      UsersOf(s, k);
      EntryIsUnique(s.entries, k);
      if s.entries[k].references == 0 {
        EvictedOwned(s, k);
        EvictedBacked(s, k);
        hide Shaped, Table, Owned, Backed, Counted, Users, FindEntry, Own;
        Assembled(s, EvictPage(s, file, offset));
      }
    }
  }
}
