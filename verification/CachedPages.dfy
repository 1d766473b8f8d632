/** The page cache: one physical page for each cached page of a file, kept while it is referenced. */
module CachedPages {
  import opened Bytes
  import opened Frames
  import opened Memory

  const ENTRIES := 16
  const REFERENCE_LIMIT := 0x1_0000

  datatype Entry = Entry(file: nat, offset: nat, physical: nat, references: nat, dirty: bool, active: bool)

  const NoEntry := Entry(0, 0, 0, 0, false, false)

  predicate Caches(e: Entry, file: nat, offset: nat) {
    e.active && e.file == file && e.offset == offset
  }

  function FindEntry(entries: seq<Entry>, file: nat, offset: nat, from: nat := 0): (r: nat)
    requires from <= |entries|
    ensures from <= r <= |entries|
    ensures r < |entries| ==> Caches(entries[r], file, offset)
    ensures forall k | from <= k < r :: !Caches(entries[k], file, offset)
    decreases |entries| - from
  {
    if from == |entries| || Caches(entries[from], file, offset) then from else FindEntry(entries, file, offset, from + 1)
  }

  function FindInactive(entries: seq<Entry>, from: nat := 0): (r: nat)
    requires from <= |entries|
    ensures from <= r <= |entries|
    ensures r < |entries| ==> !entries[r].active
    ensures forall k | from <= k < r :: entries[k].active
    decreases |entries| - from
  {
    if from == |entries| || !entries[from].active then from else FindInactive(entries, from + 1)
  }

  predicate Releasable(e: Entry, physical: nat) {
    e.active && e.physical == physical && e.references != 0
  }

  function FindReferenced(entries: seq<Entry>, physical: nat, from: nat := 0): (r: nat)
    requires from <= |entries|
    ensures from <= r <= |entries|
    ensures r < |entries| ==> Releasable(entries[r], physical)
    ensures forall k | from <= k < r :: !Releasable(entries[k], physical)
    decreases |entries| - from
  {
    if from == |entries| || Releasable(entries[from], physical) then from else FindReferenced(entries, physical, from + 1)
  }

  predicate Evictable(e: Entry, file: nat, offset: nat) {
    Caches(e, file, offset) && e.references == 0
  }

  function FindEvictable(entries: seq<Entry>, file: nat, offset: nat, from: nat := 0): (r: nat)
    requires from <= |entries|
    ensures from <= r <= |entries|
    ensures r < |entries| ==> Evictable(entries[r], file, offset)
    ensures forall k | from <= k < r :: !Evictable(entries[k], file, offset)
    decreases |entries| - from
  {
    if from == |entries| || Evictable(entries[from], file, offset) then from else FindEvictable(entries, file, offset, from + 1)
  }

  datatype Acquired = Acquired(memory: Memory, entries: seq<Entry>, physical: nat)

  /** One more reference to an entry. The counter has 16 bits and wraps. */
  function Referenced(e: Entry): Entry {
    e.(references := (e.references + 1) % REFERENCE_LIMIT)
  }

  function Acquire(m: Memory, entries: seq<Entry>, file: nat, offset: nat): Acquired {
    var k := FindEntry(entries, file, offset);
    if k < |entries| then Acquired(m, entries[k := Referenced(entries[k])], entries[k].physical)
    else
      var i, (m', a) := FindInactive(entries), Take(m);
      if i == |entries| || a == 0 then Acquired(m, entries, 0)
      else Acquired(Filled(m', a, Zeros(PAGE_SIZE)), entries[i := Entry(file, offset, a, 1, false, true)], a)
  }

  function MarkDirty(entries: seq<Entry>, physical: nat): (r: seq<Entry>)
    ensures |r| == |entries|
    ensures forall k | 0 <= k < |r| :: r[k] == if entries[k].active && entries[k].physical == physical then entries[k].(dirty := true) else entries[k]
  {
    seq(|entries|, k requires 0 <= k < |entries| =>
      if entries[k].active && entries[k].physical == physical then entries[k].(dirty := true) else entries[k])
  }

  function Release(entries: seq<Entry>, physical: nat): (r: seq<Entry>)
    ensures |r| == |entries|
  {
    var k := FindReferenced(entries, physical);
    if k == |entries| then entries else entries[k := entries[k].(references := entries[k].references - 1)]
  }

  function Evict(m: Memory, entries: seq<Entry>, file: nat, offset: nat): (Memory, seq<Entry>) {
    var k := FindEvictable(entries, file, offset);
    if k == |entries| then (m, entries) else (Give(m, entries[k].physical), entries[k := NoEntry])
  }

  // ---- the table ----

  function Physicals(entries: seq<Entry>): (r: seq<nat>)
    ensures |r| == |entries| && forall k | 0 <= k < |entries| :: r[k] == entries[k].physical
  {
    seq(|entries|, k requires 0 <= k < |entries| => entries[k].physical)
  }

  /** Active entries have a page of their own and a key of their own; inactive entries are blank. */
  ghost predicate Table(entries: seq<Entry>) {
    && |entries| == ENTRIES
    && Proper(Physicals(entries))
    && (forall k | 0 <= k < ENTRIES :: if entries[k].active then entries[k].physical != 0 else entries[k] == NoEntry)
    && (forall j, k | 0 <= j < k < ENTRIES && entries[j].active && entries[k].active ::
          entries[j].file != entries[k].file || entries[j].offset != entries[k].offset)
  }

  /** Some active entry gives this page of a file this physical page. */
  ghost predicate CachedAs(entries: seq<Entry>, file: nat, offset: nat, physical: nat) {
    exists k :: 0 <= k < |entries| && Caches(entries[k], file, offset) && entries[k].physical == physical
  }

  /** Every active entry is still there, though perhaps referenced or dirtied differently. */
  ghost predicate SameIdentity(entries: seq<Entry>, entries': seq<Entry>) {
    && |entries'| == |entries|
    && forall k | 0 <= k < |entries| && entries[k].active ::
         Caches(entries'[k], entries[k].file, entries[k].offset) && entries'[k].physical == entries[k].physical
  }

  lemma StillCached(entries: seq<Entry>, entries': seq<Entry>, file: nat, offset: nat, physical: nat)
    requires SameIdentity(entries, entries') && CachedAs(entries, file, offset, physical)
    ensures CachedAs(entries', file, offset, physical)
  {
    var k :| 0 <= k < |entries| && Caches(entries[k], file, offset) && entries[k].physical == physical;
    assert Caches(entries'[k], file, offset);
  }

  lemma PhysicalsOfUpdate(entries: seq<Entry>, k: nat, e: Entry)
    requires k < |entries|
    ensures Physicals(entries[k := e]) == Physicals(entries)[k := e.physical]
  {
  }

  /** The only entry for a key, and the only entry for a page. */
  lemma EntryIsUnique(entries: seq<Entry>, k: nat)
    requires Table(entries) && k < ENTRIES && entries[k].active
    ensures FindEntry(entries, entries[k].file, entries[k].offset) == k
    ensures FindReferenced(entries, entries[k].physical) == if entries[k].references != 0 then k else ENTRIES
    ensures FindEvictable(entries, entries[k].file, entries[k].offset) == if entries[k].references == 0 then k else ENTRIES
  {
    hide FindEntry, FindReferenced, FindEvictable;
    var table, e := Physicals(entries), entries[k];
    assert table[k] == e.physical;
    forall j | 0 <= j < ENTRIES && j != k && entries[j].active ensures entries[j].physical != e.physical && !Caches(entries[j], e.file, e.offset) {
      assert table[j] == entries[j].physical;
    }
    var f, r, v := FindEntry(entries, e.file, e.offset), FindReferenced(entries, e.physical), FindEvictable(entries, e.file, e.offset);
    assert Caches(entries[k], e.file, e.offset);
    assert e.references != 0 ==> Releasable(entries[k], e.physical);
    assert e.references == 0 ==> Evictable(entries[k], e.file, e.offset);
  }

  lemma EntryIsHeld(entries: seq<Entry>, k: nat)
    requires Table(entries) && k < ENTRIES && entries[k].active
    ensures IsPage(entries[k].physical) && PageOf(entries[k].physical) in Held(Physicals(entries))
  {
    assert Physicals(entries)[k] == entries[k].physical;
  }

  /** A recount changes nothing but the count. */
  lemma RecountKeepsTable(entries: seq<Entry>, k: nat, references: nat)
    requires Table(entries) && k < ENTRIES && entries[k].active
    ensures var entries' := entries[k := entries[k].(references := references)];
            Table(entries') && SameIdentity(entries, entries') && Physicals(entries') == Physicals(entries)
  {
    hide Proper;
    PhysicalsOfUpdate(entries, k, entries[k].(references := references));
    assert Physicals(entries)[k := entries[k].physical] == Physicals(entries);
  }

  lemma MarkDirtyKeepsTable(entries: seq<Entry>, physical: nat)
    requires Table(entries)
    ensures var entries' := MarkDirty(entries, physical);
            && Table(entries') && SameIdentity(entries, entries') && Physicals(entries') == Physicals(entries)
            && forall k | 0 <= k < ENTRIES :: entries'[k].references == entries[k].references
  {
    hide Proper;
    assert Physicals(MarkDirty(entries, physical)) == Physicals(entries);
  }

  /** A page newly cached in a blank entry. */
  lemma InsertKeepsTable(entries: seq<Entry>, k: nat, file: nat, offset: nat, a: nat)
    requires Table(entries) && k < ENTRIES && !entries[k].active && IsPage(a) && PageOf(a) !in Held(Physicals(entries))
    requires FindEntry(entries, file, offset) == ENTRIES
    ensures var entries' := entries[k := Entry(file, offset, a, 1, false, true)];
            && Table(entries') && SameIdentity(entries, entries')
            && Held(Physicals(entries')) == Held(Physicals(entries)) + {PageOf(a)}
  {
    hide Proper, Held, FindEntry;
    PhysicalsOfUpdate(entries, k, Entry(file, offset, a, 1, false, true));
    HeldAfterInsert(Physicals(entries), k, a);
  }

  lemma RemoveKeepsTable(entries: seq<Entry>, k: nat)
    requires Table(entries) && k < ENTRIES && entries[k].active
    ensures var entries' := entries[k := NoEntry];
            Table(entries') && Held(Physicals(entries')) == Held(Physicals(entries)) - {PageOf(entries[k].physical)}
  {
    hide Proper, Held;
    PhysicalsOfUpdate(entries, k, NoEntry);
    HeldAfterRemove(Physicals(entries), k);
  }

  // ---- the cache on its own ----

  ghost predicate CacheConsistent(m: Memory, entries: seq<Entry>) {
    Table(entries) && Apart(m, Held(Physicals(entries)))
  }

  /** Acquiring caches the page or finds it cached; failing changes nothing. */
  lemma AcquireMoves(m: Memory, entries: seq<Entry>, file: nat, offset: nat)
    requires CacheConsistent(m, entries)
    ensures var r := Acquire(m, entries, file, offset);
            && CacheConsistent(r.memory, r.entries) && Moves(m, Held(Physicals(entries)), r.memory, Held(Physicals(r.entries)))
            && SameIdentity(entries, r.entries)
            && (r.physical == 0 ==> r.memory == m && r.entries == entries)
            && (r.physical != 0 ==> CachedAs(r.entries, file, offset, r.physical))
  {
    hide FindEntry, FindInactive, Take, Held, Proper, Moves, Apart;
    var own, k, i := Held(Physicals(entries)), FindEntry(entries, file, offset), FindInactive(entries);
    NothingMoves(m, own);
    if k < ENTRIES {
      RecountKeepsTable(entries, k, Referenced(entries[k]).references);
      assert Caches(entries[k := Referenced(entries[k])][k], file, offset);
    } else {
      FreshForCache(m, entries);
      if i < ENTRIES && Take(m).1 != 0 {
        var a := Take(m).1;
        TakeMoves(m, own, Zeros(PAGE_SIZE));
        InsertKeepsTable(entries, i, file, offset, a);
        MovesKeepsApart(m, own, Filled(Take(m).0, a, Zeros(PAGE_SIZE)), own + {PageOf(a)});
        assert Caches(entries[i := Entry(file, offset, a, 1, false, true)][i], file, offset);
      }
    }
  }

  /** It succeeds exactly if the page is cached, or a page is free and an entry blank. */
  lemma AcquireSucceedsExactly(m: Memory, entries: seq<Entry>, file: nat, offset: nat)
    requires CacheConsistent(m, entries)
    ensures Acquire(m, entries, file, offset).physical != 0 <==>
              || (exists k :: 0 <= k < ENTRIES && Caches(entries[k], file, offset))
              || (m.free != {} && exists k :: 0 <= k < ENTRIES && !entries[k].active)
  {
    hide FindEntry, FindInactive, Take, Proper, Held;
    TakeIsExact(m);
  }

  lemma FreshForCache(m: Memory, entries: seq<Entry>)
    requires CacheConsistent(m, entries)
    ensures Take(m).1 == 0 ==> Take(m).0 == m
    ensures Take(m).1 != 0 ==> IsPage(Take(m).1) && PageOf(Take(m).1) !in Held(Physicals(entries))
  {
    TakeIsExact(m);
  }

  lemma ReleaseKeeps(m: Memory, entries: seq<Entry>, physical: nat)
    requires CacheConsistent(m, entries)
    ensures CacheConsistent(m, Release(entries, physical)) && SameIdentity(entries, Release(entries, physical))
    ensures Physicals(Release(entries, physical)) == Physicals(entries)
  {
    hide FindReferenced, Held, Proper, Apart;
    var k := FindReferenced(entries, physical);
    if k < ENTRIES { RecountKeepsTable(entries, k, entries[k].references - 1); }
  }

  lemma EvictMoves(m: Memory, entries: seq<Entry>, file: nat, offset: nat)
    requires CacheConsistent(m, entries)
    ensures var (m', entries') := Evict(m, entries, file, offset);
            CacheConsistent(m', entries') && Moves(m, Held(Physicals(entries)), m', Held(Physicals(entries')))
  {
    var k := FindEvictable(entries, file, offset);
    if k < ENTRIES { EntryIsHeld(entries, k); }
    hide FindEvictable, Held, Proper;
    NothingMoves(m, Held(Physicals(entries)));
    if k < ENTRIES {
      RemoveKeepsTable(entries, k);
      GiveMoves(m, Held(Physicals(entries)), entries[k].physical);
    }
  }

  /** On its own the 16-bit count is exact except at its limit, where one more acquisition forgets every holder. */
  lemma AcquireCountsExactly(m: Memory, entries: seq<Entry>, file: nat, offset: nat)
    requires CacheConsistent(m, entries) && FindEntry(entries, file, offset) < ENTRIES
    requires entries[FindEntry(entries, file, offset)].references < REFERENCE_LIMIT
    ensures var k := FindEntry(entries, file, offset);
            var entries' := Acquire(m, entries, file, offset).entries;
            && (entries'[k].references == entries[k].references + 1 <==> entries[k].references < REFERENCE_LIMIT - 1)
            && (entries[k].references == REFERENCE_LIMIT - 1 ==> FindEvictable(entries', file, offset) == k)
  {
    hide FindEntry, FindEvictable;
    var k := FindEntry(entries, file, offset);
    var e := Referenced(entries[k]);
    RecountKeepsTable(entries, k, e.references);
    var entries' := entries[k := e];
    EntryIsUnique(entries', k);
  }

  /** The same page acquired n times. */
  function AcquireTimes(m: Memory, entries: seq<Entry>, file: nat, offset: nat, n: nat): (Memory, seq<Entry>) {
    if n == 0 then (m, entries)
    else
      var (m1, entries1) := AcquireTimes(m, entries, file, offset, n - 1);
      var r := Acquire(m1, entries1, file, offset);
      (r.memory, r.entries)
  }

  const Blank: seq<Entry> := seq(ENTRIES, _ => NoEntry)

  /** From the blank table: one page is taken, and its count is the number of acquisitions modulo 2^16. */
  lemma {:induction false} AcquiredFromBlank(m: Memory, file: nat, offset: nat, n: nat)
    requires Take(m).1 != 0 && n > 0
    ensures var (m', a) := Take(m);
            AcquireTimes(m, Blank, file, offset, n)
              == (Filled(m', a, Zeros(PAGE_SIZE)), Blank[0 := Entry(file, offset, a, n % REFERENCE_LIMIT, false, true)])
  {
    hide Take;
    if n == 1 {
      assert FindEntry(Blank, file, offset) == |Blank| && FindInactive(Blank) == 0;
      assert AcquireTimes(m, Blank, file, offset, 0) == (m, Blank);
    } else {
      AcquiredFromBlank(m, file, offset, n - 1);
      var entries := AcquireTimes(m, Blank, file, offset, n - 1).1;
      assert Caches(entries[0], file, offset) && FindEntry(entries, file, offset) == 0;
      assert ((n - 1) % REFERENCE_LIMIT + 1) % REFERENCE_LIMIT == n % REFERENCE_LIMIT;
      assert entries[0 := Referenced(entries[0])] == Blank[0 := Referenced(entries[0])];
    }
  }

  /** The failing case: a page acquired from the blank table is evicted from under all its holders exactly when their number is a multiple of 2^16. */
  lemma WrappedCountEvicts(m: Memory, file: nat, offset: nat, n: nat)
    requires Sound(m) && m.free != {} && n > 0
    ensures var (m', entries) := AcquireTimes(m, Blank, file, offset, n);
            && m'.free == m.free - {PageOf(Take(m).1)}
            && Evict(m', entries, file, offset).0.free == if n % REFERENCE_LIMIT == 0 then m.free else m'.free
  {
    TakeIsExact(m);
    hide Take, Filled;
    AcquiredFromBlank(m, file, offset, n);
    var entries := AcquireTimes(m, Blank, file, offset, n).1;
    assert forall k | 1 <= k < ENTRIES :: !entries[k].active;
  }
}
