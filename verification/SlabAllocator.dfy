/** The slab allocator as the program keeps it. */
module SlabAllocator {
  import opened Bytes
  import opened Frames
  import opened PhysicalMemory
  import opened Memory
  import opened Slab
  import opened SlabSafety

  class SlabAllocator {
    const pmm: PhysicalMemoryManager
    const ram: Ram
    const caches: array<Cache>
    ghost var live: set<nat>

    ghost predicate Valid()
      reads this, pmm, pmm.bitmap, ram.pages, caches
    {
      Separate() && Running(pmm, ram) && Invariant(State())
    }

    /** The cache table shares no storage with the bitmap or the pages. */
    ghost predicate Separate() {
      caches.Length == CACHES && (caches as object) != pmm.bitmap && (caches as object) != ram.pages
    }

    ghost function State(): Slab
      reads this, pmm, ram.pages, caches
    {
      Slab(View(pmm, ram), caches[..], live)
    }

    constructor (pmm: PhysicalMemoryManager, ram: Ram)
      requires Running(pmm, ram)
      ensures Valid() && this.pmm == pmm && this.ram == ram && fresh(caches)
      ensures live == {} && forall i | 0 <= i < CACHES :: caches[i] == Cache(SIZES[i], 0, 0, 0, 0)
    {
      this.pmm, this.ram, live := pmm, ram, {};
      caches := new Cache[CACHES](i requires 0 <= i < CACHES => Cache(SIZES[i], 0, 0, 0, 0));
      new;
      NewSlabInvariant(View(pmm, ram), caches[..]);
    }

    /** Store a link in a free object. */
    method SetNext(node: nat, next: nat)
      requires Running(pmm, ram) && HoldsLink(node)
      modifies ram.pages
      ensures Running(pmm, ram) && View(pmm, ram) == Store(old(View(pmm, ram)), node, next)
    {
      hide Encode;
      var p := PageOf(node);
      ram.pages[p] := Spliced(ram.pages[p], Offset(node), Encode(next, LINK_SIZE));
      assert ram.pages[..] == old(ram.pages[..])[p := ram.pages[p]];
    }

    method GetNext(node: nat) returns (next: nat)
      requires Running(pmm, ram) && HoldsLink(node)
      ensures next == Load(View(pmm, ram), node)
    {
      next := Decode(ram.pages[PageOf(node)][Offset(node)..Offset(node) + LINK_SIZE]);
    }

    method FindCacheIndex(size: nat) returns (found: nat)
      requires caches.Length == CACHES
      ensures found == FindCache(caches[..], size)
    {
      found := 0;
      while found < CACHES
        invariant found <= CACHES && FindCache(caches[..], size) == FindCache(caches[..], size, found)
      {
        if size <= caches[found].objectSize {
          return;
        }
        found := found + 1;
      }
    }

    method GrowCache(k: nat) returns (grown: bool)
      requires Valid() && k < CACHES
      modifies caches, pmm, pmm.bitmap, ram.pages
      ensures Valid()
      ensures var (m, c, ok) := Grow(old(View(pmm, ram)), old(caches[k]));
              View(pmm, ram) == m && caches[..] == old(caches[..])[k := c] && grown == ok
    {
      hide Take, Running, View, Invariant, Linked, Store, Moves, Held;
      ghost var s := State();
      CacheFacts(s, k);
      if caches[k].page != 0 {
        return false;
      }
      var page := TakePage(pmm, ram);
      caches[k] := caches[k].(page := page);
      if page == 0 {
        assert caches[..] == s.caches;
        return false;
      }
      ghost var m := Take(s.memory).0;
      var size := caches[k].objectSize;
      var total := PAGE_SIZE / size;
      caches[k] := caches[k].(totalObjects := total, freeObjects := total, freeList := 0);
      PageIsCut(size);
      LinkAll(k, page, size, total, m);
      grown := true;
      GrowKeepsInvariant(s, k, caches[..]);
    }

    /** Link the first `total` objects of the page of a cache. */
    method LinkAll(k: nat, page: nat, size: nat, total: nat, ghost m: Memory)
      requires Separate() && Running(pmm, ram) && k < CACHES && IsPage(page) && SizeClass(size) && total * size == PAGE_SIZE
      requires View(pmm, ram) == m && caches[k].freeList == 0
      modifies caches, ram.pages
      ensures Running(pmm, ram) && View(pmm, ram) == Linked(m, page, size, total * size)
      ensures caches[..] == old(caches[..])[k := old(caches[k]).(freeList := page + (total - 1) * size)]
    {
      hide Running, View, Linked, Store;
      LinkedNothing(m, page, size);
      for i := 0 to total
        invariant Running(pmm, ram) && View(pmm, ram) == Linked(m, page, size, i * size)
        invariant forall j | 0 <= j < CACHES && j != k :: caches[j] == old(caches[j])
        invariant caches[k] == old(caches[k]).(freeList := if i == 0 then 0 else page + (i - 1) * size)
      {
        var node := page + i * size;
        NodeFits(page, size, i, total);
        LinkedNext(m, page, size, i);
        SetNext(node, caches[k].freeList);
        caches[k] := caches[k].(freeList := node);
      }
    }

    method PrimeCaches() returns (primed: bool)
      requires Valid()
      modifies caches, pmm, pmm.bitmap, ram.pages
      ensures Valid() && (State(), primed) == Prime(old(State()))
    {
      hide Grow, Running, View, Invariant;
      ghost var s := State();
      InvariantCounts(s);
      for k := 0 to CACHES
        invariant Valid() && live == old(live)
        invariant forall i | 0 <= i < CACHES :: Countable(caches[..][i])
        invariant Prime(State(), k) == Prime(s)
      {
        ghost var before := State();
        var grown := GrowCache(k);
        InvariantCounts(State());
        if !grown {
          assert State() == before by {
            GrowFails(before.memory, before.caches[k]);
            assert caches[..] == before.caches;
          }
          return false;
        }
      }
      primed := true;
    }

    method PopFrom(i: nat) returns (item: nat)
      requires Separate() && Running(pmm, ram) && i < CACHES && HoldsLink(caches[i].freeList) && caches[i].freeObjects > 0
      modifies this, caches
      ensures Running(pmm, ram) && State() == Pop(old(State()), i) && item == old(caches[i].freeList)
    {
      hide Running, View, Load;
      item := caches[i].freeList;
      var next := GetNext(item);
      caches[i] := caches[i].(freeList := next, freeObjects := caches[i].freeObjects - 1);
      live := live + {item};
      assert caches[..] == old(caches[..])[i := caches[i]];
    }

    method AllocateObject(size: nat) returns (item: nat)
      requires Valid()
      modifies this, caches, pmm, pmm.bitmap, ram.pages
      ensures Valid() && (State(), item) == old(Allocate(State(), size))
    {
      hide Grow, Running, View, Invariant, FindCache, Load, Moves, Held, Pop, Allocate;
      ghost var s := State();
      InvariantCounts(s);
      AllocateKeepsInvariant(s, size);
      AllocateSteps(s, size);
      var i := FindCacheIndex(size);
      if i == CACHES {
        return 0;
      }
      if caches[i].freeList == 0 {
        var grown := GrowCache(i);
        if !grown {
          assert caches[..] == s.caches && View(pmm, ram) == s.memory by { GrowFails(s.memory, s.caches[i]); }
          return 0;
        }
      }
      CacheFacts(State(), i);
      item := PopFrom(i);
    }

    /**
     Any free whose link fits its page; the lists stay sound exactly if the object was live in that
     cache, or the free was refused.
     */
    method FreeObject(item: nat, size: nat) returns (freed: bool)
      requires Valid() && (Accepts(State(), item, size) ==> HoldsLink(item))
      modifies this, caches, ram.pages
      ensures Separate() && Running(pmm, ram) && State() == old(Free(State(), item, size))
      ensures freed == old(Accepts(State(), item, size))
      ensures Valid() <==> old(Accepts(State(), item, size) ==> Matched(State(), item, size))
    {
      hide Running, View, Invariant, FindCache, Store, Moves, Held;
      ghost var s := State();
      if item == 0 {
        return false;
      }
      var i := FindCacheIndex(size);
      if i == CACHES {
        return false;
      }
      PageOfCache(s, i, item);
      var inside := Contains(i, item);
      if !inside {
        return false;
      }
      FreeIsSafeExactly(s, item, size);
      SetNext(item, caches[i].freeList);
      caches[i] := caches[i].(freeList := item, freeObjects := caches[i].freeObjects + 1);
      live := live - {item};
      assert caches[..] == s.caches[i := caches[i]];
      freed := true;
    }

    /** Whether an address lies in the cache's page. */
    method Contains(i: nat, item: nat) returns (inside: bool)
      requires Valid() && i < CACHES
      ensures inside <==> caches[i].page != 0 && PageOf(item) == PageOf(caches[i].page)
    {
      hide Running, View, Invariant;
      PageOfCache(State(), i, item);
      inside := caches[i].page != 0 && caches[i].page <= item && item < caches[i].page + PAGE_SIZE;
    }
  }

  lemma CacheFacts(s: Slab, i: nat)
    requires Invariant(s) && i < CACHES
    ensures |s.caches| == CACHES && Countable(s.caches[i]) && Sound(s.memory)
    ensures s.caches[i].freeList != 0 ==> HoldsLink(s.caches[i].freeList) && s.caches[i].freeObjects > 0
    ensures s.caches[i].page == 0 ==> s.caches[i].freeList == 0
    ensures Take(s.memory).1 != 0 ==> IsPage(Take(s.memory).1)
    ensures Take(s.memory).1 == 0 ==> Take(s.memory).0 == s.memory
  {
    hide Take;
    TakeIsExact(s.memory);
    NodesAreObjects(s.memory, s.caches[i], s.live);
    if s.caches[i].freeList != 0 {
      PageIsHeld(s.memory, s.caches, i);
      ObjectsDoNotOverlap(s.caches[i], s.caches[i].freeList, s.caches[i].freeList);
    }
  }

  lemma GrowFails(m: Memory, c: Cache)
    requires Countable(c) && !Grow(m, c).2
    ensures Grow(m, c).0 == m && Grow(m, c).1 == c
  {
    hide Take, Linked;
  }

  lemma LinkedNothing(m: Memory, page: nat, size: nat)
    requires size > 0
    ensures Linked(m, page, size, 0 * size) == m
  {
  }

  lemma LinkedNext(m: Memory, page: nat, size: nat, i: nat)
    requires SizeClass(size)
    ensures Linked(m, page, size, (i + 1) * size)
         == Store(Linked(m, page, size, i * size), page + i * size, if i == 0 then 0 else page + (i - 1) * size)
  {
    hide Store;
  }

  lemma NodeFits(page: nat, size: nat, i: nat, total: nat)
    requires IsPage(page) && SizeClass(size) && i < total && total * size == PAGE_SIZE
    ensures HoldsLink(page + i * size)
  {
    if size == 32 {
    } else if size == 64 {
    } else if size == 128 {
    } else {
    }
  }
}
