/** The slab allocator over matched calls: free lists stay exact, and failure means exhaustion. */
module SlabSafety {
  import opened Bytes
  import opened Frames
  import opened Memory
  import opened Slab

  lemma PageIsHeld(m: Memory, caches: seq<Cache>, i: nat)
    requires Owns(m, Pages(caches)) && i < |caches| && caches[i].page != 0
    ensures IsPage(caches[i].page) && PageOf(caches[i].page) in Held(Pages(caches)) && PageOf(caches[i].page) !in m.free
    ensures forall j | 0 <= j < |caches| && j != i && caches[j].page != 0 :: PageOf(caches[j].page) != PageOf(caches[i].page)
  {
    var table := Pages(caches);
    assert table[i] == caches[i].page;
    forall j | 0 <= j < |caches| && j != i && caches[j].page != 0 ensures PageOf(caches[j].page) != PageOf(caches[i].page) {
      assert table[j] == caches[j].page;
    }
  }

  /** No address is an object of two caches. */
  lemma OneCachePerObject(m: Memory, caches: seq<Cache>, i: nat, j: nat, a: nat)
    requires Owns(m, Pages(caches)) && i < |caches| && j < |caches| && IsObject(caches[i], a) && IsObject(caches[j], a)
    ensures i == j
  {
    hide Owns;
    PageIsHeld(m, caches, i);
    PageIsHeld(m, caches, j);
    ObjectsDoNotOverlap(caches[i], a, a);
    ObjectsDoNotOverlap(caches[j], a, a);
  }

  lemma LiveIsHeld(s: Slab, a: nat)
    requires Invariant(s) && a in s.live
    ensures PageOf(a) in Held(Pages(s.caches)) && PageOf(a) !in s.memory.free
  {
    var i :| 0 <= i < CACHES && IsObject(s.caches[i], a);
    PageIsHeld(s.memory, s.caches, i);
    ObjectsDoNotOverlap(s.caches[i], a, a);
  }

  lemma PagesOfUpdate(caches: seq<Cache>, i: nat, c: Cache)
    requires i < |caches|
    ensures Pages(caches[i := c]) == Pages(caches)[i := c.page]
  {
  }

  /** One cache's list replaced; only its page written and only its objects changed hands. */
  lemma Reassemble(s: Slab, i: nat, m: Memory, c: Cache, cs: seq<Cache>, live: set<nat>)
    requires Invariant(s) && i < CACHES && c.objectSize == s.caches[i].objectSize && ListInvariant(m, c, live)
    requires s.caches[i].page == 0 || c.page == s.caches[i].page
    requires cs == s.caches[i := c] && Owns(m, Pages(cs))
    requires forall p | p in Held(Pages(s.caches)) && p != PageOf(c.page) :: p < PAGE_COUNT ==> m.ram[p] == s.memory.ram[p]
    requires forall a | !IsObject(c, a) :: a in live <==> a in s.live
    ensures Invariant(Slab(m, cs, live))
  {
    NodesAreObjects(m, c, live);
    forall j | 0 <= j < CACHES && j != i ensures ListInvariant(m, cs[j], live) {
      OtherList(s, i, m, c, cs, live, j);
    }
    forall a | a in live ensures exists j :: 0 <= j < CACHES && IsObject(cs[j], a) {
      if IsObject(c, a) {
        assert IsObject(cs[i], a);
      } else {
        var j :| 0 <= j < CACHES && IsObject(s.caches[j], a);
        assert IsObject(cs[j], a);
      }
    }
  }

  lemma OtherList(s: Slab, i: nat, m: Memory, c: Cache, cs: seq<Cache>, live: set<nat>, j: nat)
    requires Invariant(s) && i < CACHES && j < CACHES && i != j
    requires cs == s.caches[i := c] && Owns(m, Pages(cs))
    requires forall p | p in Held(Pages(s.caches)) && p != PageOf(c.page) :: p < PAGE_COUNT ==> m.ram[p] == s.memory.ram[p]
    requires forall a | !IsObject(c, a) :: a in live <==> a in s.live
    ensures ListInvariant(m, cs[j], live)
  {
    var memory, caches, cj := s.memory, s.caches, s.caches[j];
    assert ListInvariant(memory, cj, s.live) && Owns(memory, Pages(caches));
    hide ListInvariant, Invariant, Owns, Held;
    assert |m.ram| == |memory.ram| == PAGE_COUNT by { assert Apart(m, Held(Pages(cs))) && Apart(memory, Held(Pages(caches))) by { OwnsApart(m, Pages(cs)); OwnsApart(memory, Pages(caches)); } }
    if cj.page != 0 {
      PageIsHeld(memory, caches, j);
      PageIsHeld(m, cs, j);
      assert cs[i] == c && cs[j] == cj;
    }
    ListFrame(memory, m, cj, s.live);
    forall a | IsObject(cj, a) ensures a in s.live <==> a in live {
      if IsObject(c, a) { OneCachePerObject(m, cs, i, j, a); }
    }
    ListIgnores(m, cj, s.live, live);
  }

  lemma OwnsApart(m: Memory, table: seq<nat>)
    requires Owns(m, table)
    ensures Apart(m, Held(table))
  {
  }

  // ---- growing ----

  lemma SameCount(n: nat, size: nat)
    requires SizeClass(size) && n * size == PAGE_SIZE
    ensures n == PAGE_SIZE / size
  {
    if size == 32 {
    } else if size == 64 {
    } else if size == 128 {
    } else {
    }
  }

  lemma GrownCache(m: Memory, c: Cache, a: nat)
    requires Sound(m) && Countable(c) && c.page == 0 && Take(m).1 == a != 0
    ensures var (m', c', ok) := Grow(m, c);
            && ok && c'.page == a && c'.objectSize == c.objectSize && c'.totalObjects == PAGE_SIZE / c.objectSize
            && var nodes := Nodes(a, c.objectSize, PAGE_SIZE);
               && Follow(m', c'.freeList, c'.freeObjects) == nodes && End(m', c'.freeList, c'.freeObjects) == 0
               && forall p | 0 <= p < PAGE_COUNT && p != PageOf(a) :: m'.ram[p] == m.ram[p]
  {
    hide Take, Linked, Nodes, Follow, End, Store;
    TakeIsExact(m);
    var size := c.objectSize;
    PageIsCut(size);
    LinkedIsList(Take(m).0, a, size, PAGE_SIZE);
    NodesAre(a, size, PAGE_SIZE);
    SameCount(|Nodes(a, size, PAGE_SIZE)|, size);
  }

  /** The list of a page just cut up: every object, and none of them live. */
  lemma NewList(m: Memory, c: Cache, a: nat, live: set<nat>)
    requires Sound(m) && Countable(c) && c.page == 0 && Take(m).1 == a != 0
    requires forall x | x in live :: PageOf(x) != PageOf(a)
    ensures var (m', c', ok) := Grow(m, c); ListInvariant(m', c', live)
  {
    hide Take, Linked, Nodes, Grow, Follow, End;
    GrownCache(m, c, a);
    TakeIsExact(m);
    PageIsCut(c.objectSize);
    NodesAre(a, c.objectSize, PAGE_SIZE);
    var c' := Grow(m, c).1;
    forall x | IsObject(c', x) ensures x !in live {
      ObjectsDoNotOverlap(c', x, x);
    }
  }

  /** A page cut up for a cache that had none: all its objects are free. */
  lemma GrowKeepsInvariant(s: Slab, i: nat, cs: seq<Cache>)
    requires Invariant(s) && i < CACHES && s.caches[i].page == 0 && Take(s.memory).1 != 0
    requires cs == s.caches[i := Grow(s.memory, s.caches[i]).1]
    ensures var (m, c, ok) := Grow(s.memory, s.caches[i]);
            ok && Invariant(Slab(m, cs, s.live)) && Moves(s.memory, Held(Pages(s.caches)), m, Held(Pages(cs)))
  {
    var memory, caches, live := s.memory, s.caches, s.live;
    assert Owns(memory, Pages(caches)) && |caches| == CACHES;
    var c0, a := caches[i], Take(memory).1;
    forall x | x in live ensures PageOf(x) in Held(Pages(caches)) { LiveIsHeld(s, x); }
    hide Take, Linked, Grow, Held, Proper, Moves, ListInvariant, Invariant;
    GrownCache(memory, c0, a);
    var (m, c, ok) := Grow(memory, c0);
    TakeIsExact(memory);
    assert m.free == Take(memory).0.free && |m.ram| == PAGE_COUNT;
    TakeInto(memory, Pages(caches), i, m.ram[PageOf(a)]);
    GrownMemory(memory, m, a);
    PagesOfUpdate(caches, i, c);
    NewList(memory, c0, a, live);
    forall x | x in live ensures !IsObject(c, x) {
      if IsObject(c, x) { ObjectsDoNotOverlap(c, x, x); }
    }
    Reassemble(s, i, m, c, cs, live);
  }

  lemma GrownMemory(m: Memory, m': Memory, a: nat)
    requires Sound(m) && Take(m).1 == a != 0 && PageOf(a) < PAGE_COUNT
    requires m'.free == Take(m).0.free && |m'.ram| == PAGE_COUNT
    requires forall p | 0 <= p < PAGE_COUNT && p != PageOf(a) :: m'.ram[p] == m.ram[p]
    ensures m' == Filled(Take(m).0, a, m'.ram[PageOf(a)])
  {
    hide Take;
    TakeIsExact(m);
  }

  // ---- handing out ----

  /** The cache's next object handed out. */
  function Pop(s: Slab, i: nat): Slab
    requires i < |s.caches| && s.caches[i].freeObjects > 0
  {
    var c := s.caches[i];
    Slab(s.memory, s.caches[i := c.(freeList := Load(s.memory, c.freeList), freeObjects := c.freeObjects - 1)], s.live + {c.freeList})
  }

  lemma PopKeepsInvariant(s: Slab, i: nat, cs: seq<Cache>)
    requires Invariant(s) && i < CACHES && s.caches[i].freeObjects > 0 && cs == Pop(s, i).caches
    ensures Invariant(Pop(s, i)) && Pages(cs) == Pages(s.caches)
    ensures IsObject(s.caches[i], s.caches[i].freeList) && s.caches[i].freeList !in s.live
  {
    var memory, caches, live, c := s.memory, s.caches, s.live, s.caches[i];
    assert ListInvariant(memory, c, live) && Owns(memory, Pages(caches)) && |caches| == CACHES;
    var c' := c.(freeList := Load(memory, c.freeList), freeObjects := c.freeObjects - 1);
    hide ListInvariant, Invariant, Owns, Load;
    NodesAreObjects(memory, c, live);
    ListPop(memory, c, live);
    PagesOfUpdate(caches, i, c');
    assert Pages(caches)[i := c'.page] == Pages(caches);
    assert IsObject(c', c.freeList);
    Reassemble(s, i, memory, c', cs, live + {c.freeList});
  }

  /** Allocation is growing, if the list is empty, and popping. */
  lemma AllocateSteps(s: Slab, size: nat)
    requires Invariant(s)
    ensures var i := FindCache(s.caches, size);
            if i == CACHES then Allocate(s, size) == (s, 0)
            else if s.caches[i].freeList != 0 then Allocate(s, size) == (Pop(s, i), s.caches[i].freeList)
            else var (m, c, ok) := Grow(s.memory, s.caches[i]);
                 if !ok then Allocate(s, size) == (s, 0)
                 else var s1 := Slab(m, s.caches[i := c], s.live); Allocate(s, size) == (Pop(s1, i), c.freeList)
  {
    hide FindCache, Grow, Load, ListInvariant, Owns;
    var i := FindCache(s.caches, size);
    if i < CACHES && s.caches[i].freeList == 0 {
      var (m, c, ok) := Grow(s.memory, s.caches[i]);
      if ok {
        var c' := c.(freeList := Load(m, c.freeList), freeObjects := c.freeObjects - 1);
        assert s.caches[i := c][i := c'] == s.caches[i := c'];
      }
    }
  }

  /**
   An allocation hands out one object, big enough and not live before, or changes nothing. No page
   but those it moves from the free set changes, and no live object's bytes.
   */
  lemma AllocateKeepsInvariant(s: Slab, size: nat)
    requires Invariant(s)
    ensures var (s', a) := Allocate(s, size);
            && Invariant(s') && Moves(s.memory, Held(Pages(s.caches)), s'.memory, Held(Pages(s'.caches)))
            && (a == 0 ==> s' == s)
            && (a != 0 ==> var i := FindCache(s.caches, size);
                  && i < CACHES && size <= s'.caches[i].objectSize && IsObject(s'.caches[i], a)
                  && a !in s.live && s'.live == s.live + {a})
            && forall p | 0 <= p < PAGE_COUNT && p !in s.memory.free :: s'.memory.ram[p] == s.memory.ram[p]
  {
    AllocateSteps(s, size);
    var memory, caches, live := s.memory, s.caches, s.live;
    assert Apart(memory, Held(Pages(caches))) && |caches| == CACHES;
    forall j | 0 <= j < CACHES ensures caches[j].freeList != 0 ==> caches[j].freeObjects > 0 {
      NodesAreObjects(memory, caches[j], live);
    }
    NothingMoves(memory, Held(Pages(caches)));
    var i := FindCache(caches, size);
    if i < CACHES {
      hide FindCache, Allocate, Grow, Load, ListInvariant, Invariant, Owns, Take, Held, Moves;
      if caches[i].freeList != 0 {
        PopKeepsInvariant(s, i, Pop(s, i).caches);
      } else {
        AllocateFromNewPage(s, i);
      }
    }
  }

  lemma AllocateFromNewPage(s: Slab, i: nat)
    requires Invariant(s) && i < CACHES
    ensures var (m, c, ok) := Grow(s.memory, s.caches[i]);
            ok ==> var s1 := Slab(m, s.caches[i := c], s.live);
              && c.freeObjects > 0 && c.freeList != 0 && c.objectSize == s.caches[i].objectSize
              && IsObject(c, c.freeList) && c.freeList !in s.live
              && Invariant(Pop(s1, i)) && Moves(s.memory, Held(Pages(s.caches)), m, Held(Pages(Pop(s1, i).caches)))
              && forall p | 0 <= p < PAGE_COUNT && p !in s.memory.free :: m.ram[p] == s.memory.ram[p]
  {
    assert Sound(s.memory);
    GrowsOnlyOnce(s.memory, s.caches[i]);
    hide Grow, Load, ListInvariant, Invariant, Owns, Take, Held, Moves;
    var (m, c, ok) := Grow(s.memory, s.caches[i]);
    if ok {
      GrownCache(s.memory, s.caches[i], Take(s.memory).1);
      TakeIsExact(s.memory);
      var s1 := Slab(m, s.caches[i := c], s.live);
      GrowKeepsInvariant(s, i, s1.caches);
      PopKeepsInvariant(s1, i, Pop(s1, i).caches);
    }
  }

  lemma GrowsOnlyOnce(m: Memory, c: Cache)
    requires Countable(c)
    ensures Grow(m, c).2 <==> c.page == 0 && Take(m).1 != 0
  {
    hide Take, Linked;
  }

  /** Allocation fails only if no cache fits, there is no page for the cache, or its objects are all live. */
  lemma AllocateFailsExactly(s: Slab, size: nat)
    requires Invariant(s)
    ensures var i := FindCache(s.caches, size);
            Allocate(s, size).1 == 0 <==>
            || i == CACHES
            || (s.caches[i].page == 0 && s.memory.free == {})
            || (s.caches[i].page != 0 && forall a | IsObject(s.caches[i], a) :: a in s.live)
  {
    AllocateSteps(s, size);
    var i := FindCache(s.caches, size);
    if i < CACHES {
      NodesAreObjects(s.memory, s.caches[i], s.live);
      assert Sound(s.memory);
      hide FindCache, Allocate, Load, ListInvariant, Invariant, Owns, Take, Held, Grow;
      GrowsOnlyOnce(s.memory, s.caches[i]);
      TakeIsExact(s.memory);
      if s.caches[i].page == 0 && Take(s.memory).1 != 0 { AllocateFromNewPage(s, i); }
    }
  }

  // ---- taking back ----

  lemma PageOfCache(s: Slab, i: nat, item: nat)
    requires Invariant(s) && i < CACHES
    ensures |s.caches| == CACHES
    ensures s.caches[i].page != 0 ==> (s.caches[i].page <= item < s.caches[i].page + PAGE_SIZE <==> PageOf(item) == PageOf(s.caches[i].page))
  {
    if s.caches[i].page != 0 { PageIsHeld(s.memory, s.caches, i); }
  }

  /** A free is accepted exactly if the address lies in the page of the least cache that fits the size. */
  lemma AcceptsExactly(s: Slab, item: nat, size: nat, i: nat)
    requires Invariant(s) && i <= CACHES && (forall j | 0 <= j < i :: SIZES[j] < size) && (i < CACHES ==> size <= SIZES[i])
    ensures |s.caches| == CACHES
    ensures Accepts(s, item, size) <==> i < CACHES && s.caches[i].page != 0 && PageOf(item) == PageOf(s.caches[i].page)
  {
    assert |s.caches| == CACHES && forall j | 0 <= j < CACHES :: s.caches[j].objectSize == SIZES[j];
    assert FindCache(s.caches, size) == i;
    if i < CACHES {
      PageOfCache(s, i, item);
      if s.caches[i].page != 0 { PageIsHeld(s.memory, s.caches, i); }
    }
    hide Invariant;
  }


  predicate Matched(s: Slab, item: nat, size: nat) {
    var i := FindCache(s.caches, size);
    i < |s.caches| && IsObject(s.caches[i], item) && item in s.live
  }

  lemma FreeSteps(s: Slab, item: nat, size: nat)
    requires Invariant(s) && Matched(s, item, size)
    ensures var i := FindCache(s.caches, size);
            && Accepts(s, item, size)
            && IsPage(s.caches[i].page) && PageOf(s.caches[i].page) in Held(Pages(s.caches))
            && var c' := s.caches[i].(freeList := item, freeObjects := s.caches[i].freeObjects + 1);
               Free(s, item, size) == Slab(Store(s.memory, item, s.caches[i].freeList), s.caches[i := c'], s.live - {item})
  {
    hide FindCache, Store, ListInvariant, Held;
    var i := FindCache(s.caches, size);
    PageIsHeld(s.memory, s.caches, i);
    ObjectsDoNotOverlap(s.caches[i], item, item);
  }

  /** A matched free makes exactly that object free again and writes nothing outside its page. */
  lemma FreeKeepsInvariant(s: Slab, item: nat, size: nat)
    requires Invariant(s) && Matched(s, item, size)
    ensures var s' := Free(s, item, size);
            && Invariant(s') && s'.live == s.live - {item} && Pages(s'.caches) == Pages(s.caches)
            && Moves(s.memory, Held(Pages(s.caches)), s'.memory, Held(Pages(s'.caches)))
  {
    hide FindCache, Free, Store, Proper, Held, ListInvariant;
    FreeSteps(s, item, size);
    var i, s' := FindCache(s.caches, size), Free(s, item, size);
    var memory, caches, live, c := s.memory, s.caches, s.live, s.caches[FindCache(s.caches, size)];
    var m, c' := Store(memory, item, c.freeList), c.(freeList := item, freeObjects := c.freeObjects + 1);
    assert Owns(memory, Pages(caches)) && ListInvariant(memory, c, live) && Apart(memory, Held(Pages(caches)));
    hide Invariant;
    ObjectsDoNotOverlap(c, item, item);
    StoreWrites(memory, item, c.freeList);
    ListPush(memory, c, live, item);
    PagesOfUpdate(caches, i, c');
    assert Pages(caches)[i := c'.page] == Pages(caches);
    assert IsObject(c', item);
    Reassemble(s, i, m, c', s'.caches, live - {item});
  }

  lemma StoreWrites(m: Memory, a: nat, value: nat)
    requires |m.ram| == PAGE_COUNT
    ensures var m' := Store(m, a, value);
            m'.free == m.free && |m'.ram| == PAGE_COUNT && forall p | 0 <= p < PAGE_COUNT && p != PageOf(a) :: m'.ram[p] == m.ram[p]
  {
  }

  /** A free in the cache's page of anything but a live object breaks the list. */
  lemma FreeIsSafeExactly(s: Slab, item: nat, size: nat)
    requires Invariant(s) && Accepts(s, item, size)
    ensures Invariant(Free(s, item, size)) <==> Matched(s, item, size)
  {
    if Matched(s, item, size) {
      FreeKeepsInvariant(s, item, size);
    } else if Invariant(Free(s, item, size)) {
      UnmatchedFree(s, item, size);
    }
  }

  lemma UnmatchedFree(s: Slab, item: nat, size: nat)
    requires Invariant(s) && Accepts(s, item, size) && Invariant(Free(s, item, size))
    ensures Matched(s, item, size)
  {
    var i, s' := FindCache(s.caches, size), Free(s, item, size);
    var c, c' := s.caches[i], s'.caches[i];
    assert ListInvariant(s.memory, c, s.live) && ListInvariant(s'.memory, c', s'.live);
    hide FindCache, Store, Load, Follow, End, Owns;
    NodesAreObjects(s'.memory, c', s'.live);
    if item !in s.live {
      assert s'.live == s.live;
      var old', new' := Follow(s.memory, c.freeList, c.freeObjects), Follow(s'.memory, c'.freeList, c'.freeObjects);
      SameNodes(old', new');
    }
  }

  lemma SameNodes(a: seq<nat>, b: seq<nat>)
    requires Distinct(a) && Distinct(b) && forall x :: x in a <==> x in b
    ensures |a| == |b|
  {
    DistinctSize(a);
    DistinctSize(b);
    assert Elements(a) == Elements(b);
  }

  function Elements(a: seq<nat>): set<nat> {
    set x | x in a
  }

  lemma {:induction false} DistinctSize(a: seq<nat>)
    requires Distinct(a)
    ensures |Elements(a)| == |a|
  {
    if a != [] {
      var rest := a[1..];
      assert forall i | 0 <= i < |rest| :: rest[i] == a[i + 1];
      DistinctSize(rest);
      assert a[0] !in Elements(rest);
      assert a == [a[0]] + rest;
      assert Elements(a) == {a[0]} + Elements(rest);
    }
  }

  /** Freeing an object twice is accepted, and breaks its cache's list. */
  lemma DoubleFreeBreaksList(s: Slab, item: nat, size: nat)
    requires Invariant(s) && Matched(s, item, size)
    ensures var s' := Free(s, item, size);
            Invariant(s') && Accepts(s', item, size) && !Invariant(Free(s', item, size))
  {
    FreeKeepsInvariant(s, item, size);
    FreeSteps(s, item, size);
    var s' := Free(s, item, size);
    SameSizes(s.caches, s'.caches, size, 0);
    hide FindCache, Free, Store, Invariant;
    FreeIsSafeExactly(s', item, size);
  }

  // ---- what the objects hold ----

  /** The first `n` bytes at an address, within its page. */
  function BytesAt(m: Memory, a: nat, n: nat): seq<byte>
    requires Offset(a) + n <= PAGE_SIZE
  {
    Contents(m, a)[Offset(a)..Offset(a) + n]
  }

  /** Handing out another object leaves a live object's bytes alone. */
  lemma AllocateKeepsObject(s: Slab, size: nat, i: nat, b: nat)
    requires Invariant(s) && i < CACHES && IsObject(s.caches[i], b) && b in s.live
    ensures Offset(b) + s.caches[i].objectSize <= PAGE_SIZE
    ensures BytesAt(Allocate(s, size).0.memory, b, s.caches[i].objectSize) == BytesAt(s.memory, b, s.caches[i].objectSize)
  {
    LiveIsHeld(s, b);
    PageIsHeld(s.memory, s.caches, i);
    ObjectsDoNotOverlap(s.caches[i], b, b);
    assert |s.memory.ram| == PAGE_COUNT;
    AllocateKeepsInvariant(s, size);
    hide Allocate, Invariant, Held, FindCache;
  }

  /** Bytes spliced into a page leave the bytes outside their range alone. */
  lemma BytesElsewhere(m: Memory, from: nat, bytes: seq<byte>, b: nat, n: nat)
    requires |m.ram| == PAGE_COUNT && PageOf(from) < PAGE_COUNT && Offset(from) + |bytes| <= PAGE_SIZE && Offset(b) + n <= PAGE_SIZE
    requires b + n <= from || from + |bytes| <= b
    ensures BytesAt(Filled(m, from, Spliced(Contents(m, from), Offset(from), bytes)), b, n) == BytesAt(m, b, n)
  {
    if PageOf(b) == PageOf(from) {
      var old', new' := Contents(m, from), Spliced(Contents(m, from), Offset(from), bytes);
      assert new'[Offset(b)..Offset(b) + n] == old'[Offset(b)..Offset(b) + n];
    }
  }

  /** Taking one object back leaves every other live object's bytes alone. */
  lemma FreeKeepsObject(s: Slab, item: nat, size: nat, i: nat, b: nat)
    requires Invariant(s) && Matched(s, item, size) && i < CACHES && IsObject(s.caches[i], b) && b in s.live && b != item
    ensures Offset(b) + s.caches[i].objectSize <= PAGE_SIZE
    ensures BytesAt(Free(s, item, size).memory, b, s.caches[i].objectSize) == BytesAt(s.memory, b, s.caches[i].objectSize)
  {
    FreeSteps(s, item, size);
    var k := FindCache(s.caches, size);
    var ck, ci := s.caches[k], s.caches[i];
    assert |s.memory.ram| == PAGE_COUNT;
    PageIsHeld(s.memory, s.caches, i);
    PageIsHeld(s.memory, s.caches, k);
    ObjectsDoNotOverlap(ci, b, b);
    ObjectsDoNotOverlap(ck, item, item);
    hide Invariant, FindCache, Free, Encode;
    if i == k {
      ObjectsDoNotOverlap(ci, b, item);
    } else {
      assert ck.page + PAGE_SIZE <= ci.page || ci.page + PAGE_SIZE <= ck.page;
    }
    BytesElsewhere(s.memory, item, Encode(ck.freeList, LINK_SIZE), b, ci.objectSize);
  }

  /** A holder's writes inside its live object. */
  function Write(s: Slab, a: nat, bytes: seq<byte>): Slab
    requires Offset(a) + |bytes| <= PAGE_SIZE
  {
    s.(memory := Filled(s.memory, a, Spliced(Contents(s.memory, a), Offset(a), bytes)))
  }

  /** Whatever a holder writes inside its live object, no free list notices. */
  lemma WriteKeepsInvariant(s: Slab, i: nat, item: nat, a: nat, bytes: seq<byte>)
    requires Invariant(s) && i < CACHES && IsObject(s.caches[i], item) && item in s.live
    requires bytes != [] && item <= a && a + |bytes| <= item + s.caches[i].objectSize
    ensures Offset(a) + |bytes| <= PAGE_SIZE
    ensures var s' := Write(s, a, bytes);
            && Invariant(s') && Moves(s.memory, Held(Pages(s.caches)), s'.memory, Held(Pages(s'.caches)))
            && forall p | 0 <= p < PAGE_COUNT && p != PageOf(item) :: s'.memory.ram[p] == s.memory.ram[p]
  {
    assert Owns(s.memory, Pages(s.caches)) && ListInvariant(s.memory, s.caches[i], s.live) && Apart(s.memory, Held(Pages(s.caches)));
    LiveIsHeld(s, item);
    PageIsHeld(s.memory, s.caches, i);
    ObjectsDoNotOverlap(s.caches[i], item, item);
    WithinPage(s.caches[i], item, a, |bytes|);
    ListOverlooks(s.memory, s.caches[i], s.live, item, a, bytes);
    assert s.caches[i := s.caches[i]] == s.caches;
    assert PageOf(item) == PageOf(s.caches[i].page);
    hide Invariant, ListInvariant, Proper, Held, Spliced;
    Reassemble(s, i, Write(s, a, bytes).memory, s.caches[i], s.caches, s.live);
  }

  lemma WithinPage(c: Cache, item: nat, a: nat, n: nat)
    requires IsObject(c, item) && IsPage(c.page) && item <= a && 0 < n && a + n <= item + c.objectSize
    ensures Offset(a) + n <= PAGE_SIZE && PageOf(a) == PageOf(item)
  {
    ObjectsDoNotOverlap(c, item, item);
  }

  lemma ListOverlooks(m: Memory, c: Cache, live: set<nat>, item: nat, a: nat, bytes: seq<byte>)
    requires |m.ram| == PAGE_COUNT && ListInvariant(m, c, live) && IsPage(c.page) && IsObject(c, item) && item in live
    requires item <= a && a + |bytes| <= item + c.objectSize && Offset(a) + |bytes| <= PAGE_SIZE && PageOf(a) < PAGE_COUNT
    ensures ListInvariant(Filled(m, a, Spliced(Contents(m, a), Offset(a), bytes)), c, live)
  {
    var m' := Filled(m, a, Spliced(Contents(m, a), Offset(a), bytes));
    forall x | x in Follow(m, c.freeList, c.freeObjects) ensures Load(m', x) == Load(m, x) {
      ObjectsDoNotOverlap(c, item, x);
      LoadElsewhere(m, a, bytes, x);
    }
    FollowSame(m, m', c.freeList, c.freeObjects);
  }

  /** The object last taken back is the next handed out. */
  lemma FreeThenAllocate(s: Slab, item: nat, size: nat)
    requires Invariant(s) && Matched(s, item, size)
    ensures Invariant(Free(s, item, size))
    ensures Allocate(Free(s, item, size), size).1 == item && Allocate(Free(s, item, size), size).0.live == s.live
  {
    FreeKeepsInvariant(s, item, size);
    FreeSteps(s, item, size);
    var s' := Free(s, item, size);
    SameSizes(s.caches, s'.caches, size, 0);
    AllocateSteps(s', size);
    hide Free, Allocate, FindCache, Invariant, Store;
    var i := FindCache(s.caches, size);
    assert s'.caches[i].freeList == item != 0;
    assert s'.live + {item} == s.live;
  }

  lemma {:induction false} SameSizes(a: seq<Cache>, b: seq<Cache>, size: nat, from: nat)
    requires |a| == |b| && from <= |a| && forall j | 0 <= j < |a| :: a[j].objectSize == b[j].objectSize
    ensures FindCache(a, size, from) == FindCache(b, size, from)
    decreases |a| - from
  {
    if from < |a| { SameSizes(a, b, size, from + 1); }
  }

  // ---- start-up ----

  /** One page for each cache from the k-th on, stopping at the first failure. */
  function Prime(s: Slab, k: nat := 0): (Slab, bool)
    requires k <= |s.caches| && forall i | 0 <= i < |s.caches| :: Countable(s.caches[i])
    decreases |s.caches| - k
  {
    if k == |s.caches| then (s, true)
    else
      var (m, c, ok) := Grow(s.memory, s.caches[k]);
      if !ok then (s, false) else Prime(Slab(m, s.caches[k := c], s.live), k + 1)
  }

  lemma NewSlabInvariant(m: Memory, caches: seq<Cache>)
    requires Sound(m) && |caches| == CACHES && forall i | 0 <= i < CACHES :: caches[i] == Cache(SIZES[i], 0, 0, 0, 0)
    ensures Invariant(Slab(m, caches, {}))
  {
    HeldNothing(Pages(caches));
    forall i | 0 <= i < CACHES ensures ListInvariant(m, caches[i], {}) {
      EmptyList(m);
    }
  }

  lemma InvariantCounts(s: Slab)
    requires Invariant(s)
    ensures |s.caches| == CACHES && forall i | 0 <= i < |s.caches| :: Countable(s.caches[i])
  {
  }

  lemma GrowOutcome(s: Slab, k: nat)
    requires Invariant(s) && k < CACHES && s.caches[k].page == 0
    ensures var (m, c, ok) := Grow(s.memory, s.caches[k]);
            && Apart(s.memory, Held(Pages(s.caches)))
            && (ok <==> s.memory.free != {})
            && (ok ==> var s1 := Slab(m, s.caches[k := c], s.live);
                       && Invariant(s1) && Moves(s.memory, Held(Pages(s.caches)), m, Held(Pages(s1.caches)))
                       && c.page != 0 && |m.free| == |s.memory.free| - 1)
  {
    assert Apart(s.memory, Held(Pages(s.caches)));
    GrowsOnlyOnce(s.memory, s.caches[k]);
    TakeIsExact(s.memory);
    var (m, c, ok) := Grow(s.memory, s.caches[k]);
    hide Grow, Take, Invariant, Held, Moves;
    if ok {
      GrowKeepsInvariant(s, k, s.caches[k := c]);
      GrownCache(s.memory, s.caches[k], Take(s.memory).1);
    }
  }

  lemma PrimeStep(s: Slab, k: nat)
    requires Invariant(s) && k <= CACHES
    ensures InvariantHas(s)
    ensures k == CACHES ==> Prime(s, k) == (s, true)
    ensures k < CACHES ==>
            var (m, c, ok) := Grow(s.memory, s.caches[k]);
            if ok then var s1 := Slab(m, s.caches[k := c], s.live); Invariant(s1) && InvariantHas(s1) && Prime(s, k) == Prime(s1, k + 1)
            else Prime(s, k) == (s, false)
  {
    InvariantCounts(s);
    hide Grow, Invariant, Countable;
    if k < CACHES {
      GrowsOnlyOnce(s.memory, s.caches[k]);
      var (m, c, ok) := Grow(s.memory, s.caches[k]);
      if ok { GrowOutcome(s, k); }
      if ok { InvariantCounts(Slab(m, s.caches[k := c], s.live)); }
    }
  }

  predicate InvariantHas(s: Slab) {
    |s.caches| == CACHES && forall i | 0 <= i < |s.caches| :: Countable(s.caches[i])
  }

  lemma {:induction false} PrimeKeepsInvariant(s: Slab, k: nat)
    requires Invariant(s) && k <= CACHES
    ensures InvariantHas(s)
    ensures var (s', ok) := Prime(s, k);
            Invariant(s') && s'.live == s.live && Moves(s.memory, Held(Pages(s.caches)), s'.memory, Held(Pages(s'.caches)))
    decreases CACHES - k
  {
    var memory, own := s.memory, Held(Pages(s.caches));
    assert Apart(memory, own);
    hide Grow, Held, Moves, Invariant, Countable, Prime;
    NothingMoves(memory, own);
    PrimeStep(s, k);
    if k < CACHES {
      GrowsOnlyOnce(memory, s.caches[k]);
      var (m, c, ok) := Grow(memory, s.caches[k]);
      if ok {
        GrowOutcome(s, k);
        var s1 := Slab(m, s.caches[k := c], s.live);
        PrimeKeepsInvariant(s1, k + 1);
        var s2 := Prime(s1, k + 1).0;
        MovesTrans(memory, own, m, Held(Pages(s1.caches)), s2.memory, Held(Pages(s2.caches)));
      }
    }
  }

  /** Priming succeeds exactly when there are pages enough. */
  lemma {:induction false} PrimeSucceedsExactly(s: Slab, k: nat)
    requires Invariant(s) && k <= CACHES && (forall i | k <= i < CACHES :: s.caches[i].page == 0)
    ensures InvariantHas(s) && (Prime(s, k).1 <==> CACHES - k <= |s.memory.free|)
    decreases CACHES - k
  {
    hide Grow, Moves, Held, Invariant, Countable, Prime;
    PrimeStep(s, k);
    if k < CACHES {
      GrowOutcome(s, k);
      var (m, c, ok) := Grow(s.memory, s.caches[k]);
      if ok {
        PrimeSucceedsExactly(Slab(m, s.caches[k := c], s.live), k + 1);
      }
    }
  }

  /** Once primed, every fresh cache has its page. */
  lemma {:induction false} PrimeFillsCaches(s: Slab, k: nat)
    requires Invariant(s) && k <= CACHES && (forall i | k <= i < CACHES :: s.caches[i].page == 0)
    ensures InvariantHas(s)
    ensures var (s', ok) := Prime(s, k);
            && |s'.caches| == CACHES && (forall i | 0 <= i < k :: s'.caches[i] == s.caches[i])
            && (ok ==> forall i | k <= i < CACHES :: s'.caches[i].page != 0)
    decreases CACHES - k
  {
    hide Grow, Moves, Held, Invariant, Countable, Prime;
    PrimeStep(s, k);
    if k < CACHES {
      GrowOutcome(s, k);
      var (m, c, ok) := Grow(s.memory, s.caches[k]);
      if ok {
        var s1 := Slab(m, s.caches[k := c], s.live);
        PrimeFillsCaches(s1, k + 1);
        assert s1.caches[k] == c;
      }
    }
  }

  /** The failing case is reached from start-up: prime, allocate, free and free again, in any memory with the pages for it. */
  lemma DoubleFreeAfterStart(m: Memory, caches: seq<Cache>, size: nat)
    requires Sound(m) && |m.free| >= CACHES && |caches| == CACHES && (forall i | 0 <= i < CACHES :: caches[i] == Cache(SIZES[i], 0, 0, 0, 0))
    requires size <= 256
    ensures InvariantHas(Slab(m, caches, {}))
    ensures var s := Prime(Slab(m, caches, {})).0;
            && InvariantHas(s)
            && var (s1, item) := Allocate(s, size);
               var s2 := Free(s1, item, size);
               item != 0 && Accepts(s2, item, size) && !Invariant(Free(s2, item, size))
  {
    NewSlabInvariant(m, caches);
    var s0 := Slab(m, caches, {});
    var s := Prime(s0).0;
    PrimeSucceedsExactly(s0, 0);
    PrimeFillsCaches(s0, 0);
    PrimeKeepsInvariant(s0, 0);
    InvariantCounts(s);
    assert s.caches[3].objectSize == 256;
    hide Prime, Allocate, Free, Invariant, Moves;
    NothingLiveYet(s, FindCache(s.caches, size));
    AllocateFailsExactly(s, size);
    AllocateKeepsInvariant(s, size);
    var (s1, item) := Allocate(s, size);
    AllocatedSizes(s, size);
    SameSizes(s.caches, s1.caches, size, 0);
    DoubleFreeBreaksList(s1, item, size);
  }

  lemma NothingLiveYet(s: Slab, i: nat)
    requires Invariant(s) && s.live == {} && i <= CACHES && (i < CACHES ==> s.caches[i].page != 0)
    ensures i < CACHES ==> IsObject(s.caches[i], s.caches[i].page) && s.caches[i].page !in s.live
  {
    if i < CACHES { PageIsCut(s.caches[i].objectSize); }
  }

  lemma AllocatedSizes(s: Slab, size: nat)
    requires Invariant(s)
    ensures |Allocate(s, size).0.caches| == |s.caches| && forall j | 0 <= j < |s.caches| :: Allocate(s, size).0.caches[j].objectSize == s.caches[j].objectSize
  {
    AllocateKeepsInvariant(s, size);
    hide Allocate, ListInvariant, Moves;
  }
}
