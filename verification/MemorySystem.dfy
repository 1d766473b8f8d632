/**
 All memory managers on one allocator. Over every run of their calls the pages are partitioned among
 the free set and the managers, no page is lost, and no manager disturbs another's pages.
 */
module MemorySystem {
  import opened Bytes
  import opened Frames
  import opened Memory
  import opened Ownership
  import Cow = CopyOnWrite
  import Shm = SharedMemory
  import Slabs = Slab
  import SlabSafety
  import Swaps = Swap
  import Cache = CachedPages
  import Maps = Mappings
  import MappingSafety
  import MappingCalls
  import MappingRuns

  /** The tables of all managers, the pages held directly by callers, and the kernel heap's pages. */
  datatype System = System(
    memory: Memory,
    cow: seq<Cow.CowPage>,
    segments: seq<Shm.Segment>, nextId: nat,
    caches: seq<Slabs.Cache>, live: set<nat>,
    swapped: seq<Swaps.Slot>,
    entries: seq<Cache.Entry>, mappings: seq<Maps.Mapping>, nextAddress: nat,
    raw: set<nat>,
    heap: set<nat>)

  // The owners, in this order.
  const COW: nat := 0
  const SHARED: nat := 1
  const SLAB: nat := 2
  const SWAP: nat := 3
  const MAPS: nat := 4
  const RAW: nat := 5
  const HEAP: nat := 6
  const OWNERS: nat := 7

  function SharedPart(s: System): Shm.Shared { Shm.Shared(s.memory, s.segments, s.nextId) }

  function SlabPart(s: System): Slabs.Slab { Slabs.Slab(s.memory, s.caches, s.live) }

  function SwapPart(s: System): Swaps.Swap { Swaps.Swap(s.memory, s.swapped) }

  function MapsPart(s: System): Maps.Maps { Maps.Maps(s.memory, s.entries, s.mappings, s.nextAddress) }

  /** The pages of one owner. */
  function Owned(s: System, k: nat): set<nat> {
    if k == COW then Held(Cow.Addresses(s.cow))
    else if k == SHARED then Shm.Own(SharedPart(s))
    else if k == SLAB then Held(Slabs.Pages(s.caches))
    else if k == SWAP then Swaps.Own(SwapPart(s))
    else if k == MAPS then MappingSafety.Own(s.entries, s.mappings)
    else if k == RAW then s.raw
    else if k == HEAP then s.heap
    else {}
  }

  function Owners(s: System): (r: seq<set<nat>>)
    ensures |r| == OWNERS && forall k | 0 <= k < OWNERS :: r[k] == Owned(s, k)
  {
    seq(OWNERS, k requires 0 <= k < OWNERS => Owned(s, k))
  }

  /** One manager's own invariant. */
  ghost predicate Good(s: System, k: nat) {
    if k == COW then Cow.Consistent(s.memory, s.cow)
    else if k == SHARED then Shm.Consistent(SharedPart(s))
    else if k == SLAB then Slabs.Invariant(SlabPart(s))
    else if k == SWAP then Swaps.Consistent(SwapPart(s))
    else if k == MAPS then MappingSafety.Consistent(MapsPart(s))
    else if k == RAW then InRange(s.raw)
    else true
  }

  ghost predicate Invariant(s: System) {
    Partitioned(s.memory, Owners(s)) && forall k | 0 <= k < OWNERS :: Good(s, k)
  }

  // ---- frames ----

  /** The tables of manager k are as they were. */
  predicate SameTables(s: System, s': System, k: nat) {
    if k == COW then s'.cow == s.cow
    else if k == SHARED then s'.segments == s.segments && s'.nextId == s.nextId
    else if k == SLAB then s'.caches == s.caches && s'.live == s.live
    else if k == SWAP then s'.swapped == s.swapped
    else if k == MAPS then s'.entries == s.entries && s'.mappings == s.mappings && s'.nextAddress == s.nextAddress
    else if k == RAW then s'.raw == s.raw
    else s'.heap == s.heap
  }

  lemma SameTablesSamePages(s: System, s': System, k: nat)
    requires k < OWNERS && SameTables(s, s', k)
    ensures Owned(s', k) == Owned(s, k)
  {
  }

  lemma CowFrame(m: Memory, slots: seq<Cow.CowPage>, m': Memory)
    requires Cow.Consistent(m, slots) && Apart(m', Held(Cow.Addresses(slots)))
    ensures Cow.Consistent(m', slots)
  {
  }

  lemma SharedFrame(s: Shm.Shared, m': Memory)
    requires Shm.Consistent(s) && Apart(m', Shm.Own(s))
    ensures Shm.Consistent(s.(memory := m'))
  {
  }

  lemma SwapFrame(s: Swaps.Swap, m': Memory)
    requires Swaps.Consistent(s) && Apart(m', Swaps.Own(s))
    ensures Swaps.Consistent(s.(memory := m'))
  {
  }

  lemma MapsFrame(s: Maps.Maps, m': Memory)
    requires MappingSafety.Consistent(s) && Apart(m', MappingSafety.Own(s.entries, s.mappings))
    ensures MappingSafety.Consistent(s.(memory := m'))
  {
    hide Held, HeldIn, MappingSafety.Shaped, Cache.Table, MappingSafety.Backed, MappingSafety.Counted;
  }

  lemma SlabFrame(s: Slabs.Slab, m': Memory)
    requires Slabs.Invariant(s) && Apart(m', Held(Slabs.Pages(s.caches)))
    requires forall p | p in Held(Slabs.Pages(s.caches)) && p < PAGE_COUNT :: m'.ram[p] == s.memory.ram[p]
    ensures Slabs.Invariant(s.(memory := m'))
  {
    forall i | 0 <= i < Slabs.CACHES ensures Slabs.ListInvariant(m', s.caches[i], s.live) {
      if s.caches[i].page != 0 { SlabSafety.PageIsHeld(s.memory, s.caches, i); }
      Slabs.ListFrame(s.memory, m', s.caches[i], s.live);
    }
  }

  /** A manager stays good when its tables stay, its pages stay used, and no page of its changes. */
  lemma Frame(s: System, s': System, k: nat)
    requires k < OWNERS && Good(s, k) && SameTables(s, s', k) && Apart(s'.memory, Owned(s, k))
    requires forall p | p in Owned(s, k) && p < PAGE_COUNT :: |s.memory.ram| == PAGE_COUNT && s'.memory.ram[p] == s.memory.ram[p]
    ensures Good(s', k)
  {
    hide Cow.Consistent, Shm.Consistent, Slabs.Invariant, Swaps.Consistent, MappingSafety.Consistent, Held, Shm.Own, Swaps.Own, MappingSafety.Own, Apart;
    if k == COW {
      CowFrame(s.memory, s.cow, s'.memory);
    } else if k == SHARED {
      SharedFrame(SharedPart(s), s'.memory);
    } else if k == SLAB {
      SlabFrame(SlabPart(s), s'.memory);
    } else if k == SWAP {
      SwapFrame(SwapPart(s), s'.memory);
    } else if k == MAPS {
      MapsFrame(MapsPart(s), s'.memory);
    }
  }

  /** What one manager's call does to the whole: only its own tables change, and only its own pages move. */
  ghost predicate Acts(s: System, s': System, k: nat) {
    && k < OWNERS && Good(s', k) && Moves(s.memory, Owned(s, k), s'.memory, Owned(s', k))
    && forall j | 0 <= j < OWNERS && j != k :: SameTables(s, s', j)
  }

  /** Such a call keeps the partition, every manager's invariant, the set of all pages, and every other owner's contents. */
  lemma ActsKeeps(s: System, s': System, k: nat)
    requires Invariant(s) && Acts(s, s', k)
    ensures Invariant(s') && Pool(s'.memory, Owners(s')) == Pool(s.memory, Owners(s))
    ensures forall j, p | 0 <= j < OWNERS && j != k && p in Owned(s, j) && p < PAGE_COUNT :: p in Owned(s', j) && s'.memory.ram[p] == s.memory.ram[p]
  {
    hide Owned, Good, SameTables, Pool;
    var owners, own' := Owners(s), Owned(s', k);
    OthersUndisturbed(s.memory, owners, k, s'.memory, own');
    PartitionKept(s.memory, owners, k, s'.memory, own');
    forall j | 0 <= j < OWNERS && j != k ensures Owned(s', j) == Owned(s, j) && Good(s', j) {
      SameTablesSamePages(s, s', j);
      Frame(s, s', j);
    }
    assert Owners(s') == owners[k := own'];
  }

  // ---- each manager's calls ----

  datatype CowCall = CowAllocate | CowClone(physical: nat) | CowResolve(physical: nat) | CowRelease(physical: nat)

  function CowStep(m: Memory, slots: seq<Cow.CowPage>, c: CowCall): (Memory, seq<Cow.CowPage>) {
    match c
    case CowAllocate => var r := Cow.Allocate(m, slots); (r.memory, r.slots)
    case CowClone(physical) => (m, Cow.Clone(slots, physical))
    case CowResolve(physical) => var r := Cow.ResolveWrite(m, slots, physical); (r.memory, r.slots)
    case CowRelease(physical) => Cow.Release(m, slots, physical)
  }

  lemma CowMoves(m: Memory, slots: seq<Cow.CowPage>, c: CowCall)
    requires Cow.Consistent(m, slots)
    ensures var (m', slots') := CowStep(m, slots, c);
            Cow.Consistent(m', slots') && Moves(m, Held(Cow.Addresses(slots)), m', Held(Cow.Addresses(slots')))
  {
    assert Apart(m, Held(Cow.Addresses(slots)));
    hide Cow.Consistent, Moves, Apart, Held, Cow.Allocate, Cow.Clone, Cow.ResolveWrite, Cow.Release;
    match c {
      case CowAllocate => Cow.AllocateMoves(m, slots);
      case CowClone(physical) => Cow.CloneKeeps(m, slots, physical); NothingMoves(m, Held(Cow.Addresses(slots)));
      case CowResolve(physical) => Cow.ResolveWriteMoves(m, slots, physical);
      case CowRelease(physical) => Cow.ReleaseMoves(m, slots, physical);
    }
  }

  datatype SharedCall = SharedCreate(pages: nat) | SharedAttach(id: nat) | SharedRelease(id: nat)

  function SharedStep(t: Shm.Shared, c: SharedCall): Shm.Shared {
    match c
    case SharedCreate(pages) => Shm.Create(t, pages).0
    case SharedAttach(id) => Shm.Attach(t, id)
    case SharedRelease(id) => Shm.Release(t, id)
  }

  lemma SharedMoves(t: Shm.Shared, c: SharedCall)
    requires Shm.Consistent(t)
    ensures var t' := SharedStep(t, c); Shm.Consistent(t') && Moves(t.memory, Shm.Own(t), t'.memory, Shm.Own(t'))
  {
    assert Apart(t.memory, Shm.Own(t));
    hide Shm.Consistent, Moves, Apart, Shm.Own, Shm.Create, Shm.Attach, Shm.Release;
    match c {
      case SharedCreate(pages) => Shm.CreateMoves(t, pages);
      case SharedAttach(id) => Shm.AttachKeeps(t, id); NothingMoves(t.memory, Shm.Own(t));
      case SharedRelease(id) => Shm.ReleaseMoves(t, id);
    }
  }

  datatype SlabCall =
    | SlabPrime | SlabAllocate(size: nat) | SlabFree(item: nat, size: nat)
    | SlabWrite(cache: nat, item: nat, address: nat, bytes: seq<byte>)

  /** Frees are matched, and writes stay inside a live object. */
  predicate SlabLegal(t: Slabs.Slab, c: SlabCall) {
    match c
    case SlabFree(item, size) => Slabs.Accepts(t, item, size) ==> SlabSafety.Matched(t, item, size)
    case SlabWrite(i, item, a, bytes) =>
      && i < Slabs.CACHES <= |t.caches| && Slabs.IsObject(t.caches[i], item) && item in t.live && Slabs.Offset(a) + |bytes| <= PAGE_SIZE
      && bytes != [] && item <= a && a + |bytes| <= item + t.caches[i].objectSize
    case _ => true
  }

  function SlabStep(t: Slabs.Slab, c: SlabCall): Slabs.Slab
    requires SlabSafety.InvariantHas(t) && SlabLegal(t, c)
  {
    match c
    case SlabPrime => SlabSafety.Prime(t).0
    case SlabAllocate(size) => Slabs.Allocate(t, size).0
    case SlabFree(item, size) => Slabs.Free(t, item, size)
    case SlabWrite(i, item, a, bytes) => SlabSafety.Write(t, a, bytes)
  }

  lemma SlabMoves(t: Slabs.Slab, c: SlabCall)
    requires Slabs.Invariant(t) && SlabLegal(t, c)
    ensures SlabSafety.InvariantHas(t)
    ensures var t' := SlabStep(t, c);
            Slabs.Invariant(t') && Moves(t.memory, Held(Slabs.Pages(t.caches)), t'.memory, Held(Slabs.Pages(t'.caches)))
  {
    SlabSafety.InvariantCounts(t);
    assert Apart(t.memory, Held(Slabs.Pages(t.caches)));
    hide Slabs.Invariant, Moves, Apart, Held, SlabSafety.Prime, Slabs.Allocate, SlabSafety.Write, Slabs.FindCache;
    match c {
      case SlabPrime => SlabSafety.PrimeKeepsInvariant(t, 0);
      case SlabAllocate(size) => SlabSafety.AllocateKeepsInvariant(t, size);
      case SlabFree(item, size) =>
        if Slabs.Accepts(t, item, size) {
          SlabSafety.FreeKeepsInvariant(t, item, size);
        } else {
          NothingMoves(t.memory, Held(Slabs.Pages(t.caches)));
        }
      case SlabWrite(i, item, a, bytes) => SlabSafety.WriteKeepsInvariant(t, i, item, a, bytes);
    }
  }

  /** Pages that callers take from the allocator and give back themselves, singly or as huge pages. */
  datatype PageCall = PageAllocate | PageFree(address: nat) | HugeAllocate | HugeFree(address: nat)

  predicate PageLegal(raw: set<nat>, c: PageCall) {
    match c
    case PageFree(address) => IsPage(address) && PageOf(address) in raw
    case HugeFree(address) => WholeHugePage(address) ==> Run(PageOf(address), HUGE_PAGES) <= raw
    case _ => true
  }

  function PageStep(m: Memory, raw: set<nat>, c: PageCall): (Memory, set<nat>) {
    match c
    case PageAllocate => var (m', a) := Take(m); (m', if a == 0 then raw else raw + {PageOf(a)})
    case PageFree(address) => (Give(m, address), raw - {PageOf(address)})
    case HugeAllocate =>
      var (m', a) := TakeRun(m, HUGE_PAGES, HUGE_PAGES);
      (m', if a == 0 then raw else raw + Run(PageOf(a), HUGE_PAGES))
    case HugeFree(address) =>
      if !WholeHugePage(address) then (m, raw)
      else (GiveRun(m, Run(PageOf(address), HUGE_PAGES)), raw - Run(PageOf(address), HUGE_PAGES))
  }

  predicate InRange(pages: set<nat>) {
    forall p | p in pages :: 0 < p < PAGE_COUNT
  }

  lemma PageMoves(m: Memory, raw: set<nat>, c: PageCall)
    requires Apart(m, raw) && InRange(raw) && PageLegal(raw, c)
    ensures var (m', raw') := PageStep(m, raw, c); InRange(raw') && Moves(m, raw, m', raw')
  {
    assert Sound(m);
    hide Moves, Apart, Take, TakeRun, Give, GiveRun;
    NothingMoves(m, raw);
    match c {
      case PageAllocate => TakePlain(m, raw);
      case PageFree(address) => GiveMoves(m, raw, address);
      case HugeAllocate => TakeRunMoves(m, raw, HUGE_PAGES, HUGE_PAGES);
      case HugeFree(address) => if WholeHugePage(address) { GiveRunMoves(m, raw, Run(PageOf(address), HUGE_PAGES)); }
    }
  }

  /** What a page call gains or gives up: one page, or 512, exactly if they are to be had. */
  lemma PageCallsExactly(m: Memory, raw: set<nat>, c: PageCall)
    requires Apart(m, raw) && InRange(raw) && PageLegal(raw, c)
    ensures var (m', raw') := PageStep(m, raw, c);
            match c
            case PageAllocate => if m.free == {} then (m', raw') == (m, raw) else exists p :: p in m.free && raw' == raw + {p} && m'.free == m.free - {p}
            case PageFree(address) => raw' == raw - {PageOf(address)} && m'.free == m.free + {PageOf(address)}
            case HugeAllocate =>
              if forall p | 0 <= p < PAGE_COUNT :: !Candidate(m.free, HUGE_PAGES, HUGE_PAGES, p) then (m', raw') == (m, raw)
              else exists p: nat :: Run(p, HUGE_PAGES) <= m.free && p % HUGE_PAGES == 0 && raw' == raw + Run(p, HUGE_PAGES) && m'.free == m.free - Run(p, HUGE_PAGES)
            case HugeFree(address) =>
              if !WholeHugePage(address) then (m', raw') == (m, raw)
              else raw' == raw - Run(PageOf(address), HUGE_PAGES) && m'.free == m.free + Run(PageOf(address), HUGE_PAGES)
  {
    hide Run, FirstFit, Take, Candidate;
    match c {
      case PageAllocate => TakeIsExact(m);
      case PageFree(address) =>
      case HugeAllocate => HugeTaken(m);
      case HugeFree(address) =>
    }
  }

  lemma HugeTaken(m: Memory)
    requires Sound(m)
    ensures var (m', a) := TakeRun(m, HUGE_PAGES, HUGE_PAGES);
            && (a == 0 <==> forall c | 0 <= c < PAGE_COUNT :: !Candidate(m.free, HUGE_PAGES, HUGE_PAGES, c))
            && (a == 0 ==> m' == m)
            && (a != 0 ==> Run(PageOf(a), HUGE_PAGES) <= m.free && PageOf(a) % HUGE_PAGES == 0 && m'.free == m.free - Run(PageOf(a), HUGE_PAGES))
  {
    hide Candidate, Run, TakeRun;
    assert Apart(m, {});
    TakeRunMoves(m, {}, HUGE_PAGES, HUGE_PAGES);
  }

  lemma TakePlain(m: Memory, own: set<nat>)
    requires Apart(m, own)
    ensures var (m', a) := Take(m); if a == 0 then m' == m else 0 < PageOf(a) < PAGE_COUNT && Moves(m, own, m', own + {PageOf(a)})
  {
    TakeIsExact(m);
    hide Take;
  }

  /** The heap's run of pages, taken once. */
  function HeapStep(m: Memory): (Memory, set<nat>) {
    var (m', a) := TakeRun(m, HEAP_PAGES, 1);
    (m', if a == 0 then {} else Run(PageOf(a), HEAP_PAGES))
  }

  lemma HeapMoves(m: Memory)
    requires Apart(m, {})
    ensures var (m', heap) := HeapStep(m); Moves(m, {}, m', heap)
  {
    hide Moves, TakeRun;
    NothingMoves(m, {});
    TakeRunMoves(m, {}, HEAP_PAGES, 1);
    var pages := Run(PageOf(TakeRun(m, HEAP_PAGES, 1).1), HEAP_PAGES);
    assert {} + pages == pages;
  }

  // ---- the calls of the system ----

  datatype Call =
    | CowDo(cow: CowCall)
    | SharedDo(shared: SharedCall)
    | SlabDo(slab: SlabCall)
    | SwapOut(physical: nat)
    | SwapIn(slot: nat, destination: nat, owner: nat)
    | MapsDo(maps: MappingRuns.Call)
    | PageDo(page: PageCall)
    | HeapInit
    | PageWrite(address: nat, contents: Page, owner: nat)

  /** The owner whose manager makes the call, or whose page is written. */
  function Caller(c: Call): nat {
    match c
    case CowDo(_) => COW
    case SharedDo(_) => SHARED
    case SlabDo(_) => SLAB
    case SwapOut(_) => SWAP
    case SwapIn(_, _, _) => SWAP
    case MapsDo(_) => MAPS
    case PageDo(_) => RAW
    case HeapInit => HEAP
    case PageWrite(_, _, owner) => owner
  }

  /** Holders may write whole pages everywhere but in slab and swap pages, which are never handed out whole. */
  predicate Writable(s: System, address: nat, owner: nat) {
    owner < OWNERS && owner != SLAB && owner != SWAP && IsPage(address) && PageOf(address) in Owned(s, owner)
  }

  /** What callers owe: they free, write and swap into only what they hold. */
  predicate Legal(s: System, c: Call) {
    match c
    case SlabDo(call) => SlabLegal(SlabPart(s), call)
    case SwapIn(_, destination, owner) => destination != 0 ==> Writable(s, destination, owner)
    case PageDo(call) => PageLegal(s.raw, call)
    case HeapInit => s.heap == {}
    case PageWrite(address, _, owner) => Writable(s, address, owner)
    case _ => true
  }

  function DoCow(s: System, call: CowCall): System {
    var (m, slots) := CowStep(s.memory, s.cow, call);
    s.(memory := m, cow := slots)
  }

  function DoShared(s: System, call: SharedCall): System {
    var t := SharedStep(SharedPart(s), call);
    s.(memory := t.memory, segments := t.segments, nextId := t.nextId)
  }

  function DoSlab(s: System, call: SlabCall): System
    requires SlabSafety.InvariantHas(SlabPart(s)) && SlabLegal(SlabPart(s), call)
  {
    var t := SlabStep(SlabPart(s), call);
    s.(memory := t.memory, caches := t.caches, live := t.live)
  }

  ghost function DoMaps(s: System, call: MappingRuns.Call): System
    requires MappingSafety.Consistent(MapsPart(s))
  {
    var t := MappingRuns.Step(MapsPart(s), call);
    s.(memory := t.memory, entries := t.entries, mappings := t.mappings, nextAddress := t.nextAddress)
  }

  function DoPages(s: System, call: PageCall): System {
    var (m, raw) := PageStep(s.memory, s.raw, call);
    s.(memory := m, raw := raw)
  }

  function InitHeap(s: System): System {
    var (m, heap) := HeapStep(s.memory);
    s.(memory := m, heap := heap)
  }

  function WithSwap(s: System, t: Swaps.Swap): System {
    s.(memory := t.memory, swapped := t.slots)
  }

  function WritePage(s: System, address: nat, contents: Page): System {
    s.(memory := Filled(s.memory, address, contents))
  }

  lemma GoodParts(s: System)
    requires Invariant(s)
    ensures SlabSafety.InvariantHas(SlabPart(s)) && MappingSafety.Consistent(MapsPart(s))
  {
    assert Good(s, SLAB) && Good(s, MAPS);
    SlabSafety.InvariantCounts(SlabPart(s));
  }

  ghost function Step(s: System, c: Call): System
    requires Invariant(s) && Legal(s, c)
  {
    hide Owned, Good, Partitioned, MappingSafety.Consistent;
    GoodParts(s);
    match c
    case CowDo(call) => DoCow(s, call)
    case SharedDo(call) => DoShared(s, call)
    case SlabDo(call) => DoSlab(s, call)
    case SwapOut(physical) => WithSwap(s, Swaps.SwapOut(SwapPart(s), physical).0)
    case SwapIn(slot, destination, _) => WithSwap(s, Swaps.SwapIn(SwapPart(s), slot, destination))
    case MapsDo(call) => DoMaps(s, call)
    case PageDo(call) => DoPages(s, call)
    case HeapInit => InitHeap(s)
    case PageWrite(address, contents, _) => WritePage(s, address, contents)
  }

  // ---- every call is an act of its caller ----

  lemma Facts(s: System, k: nat)
    requires Invariant(s) && k < OWNERS
    ensures Good(s, k) && Apart(s.memory, Owned(s, k))
  {
    hide Good, Owned;
    assert Owners(s)[k] == Owned(s, k);
  }

  lemma CowActs(s: System, call: CowCall)
    requires Invariant(s)
    ensures Acts(s, DoCow(s, call), COW)
  {
    hide Invariant, Cow.Consistent, Shm.Consistent, Slabs.Invariant, Swaps.Consistent, MappingSafety.Consistent, Moves, Apart, Held, Shm.Own, Swaps.Own, MappingSafety.Own, CowStep;
    Facts(s, COW);
    CowMoves(s.memory, s.cow, call);
  }

  lemma SharedActs(s: System, call: SharedCall)
    requires Invariant(s)
    ensures Acts(s, DoShared(s, call), SHARED)
  {
    hide Invariant, Cow.Consistent, Shm.Consistent, Slabs.Invariant, Swaps.Consistent, MappingSafety.Consistent, Moves, Apart, Held, Shm.Own, Swaps.Own, MappingSafety.Own, SharedStep;
    Facts(s, SHARED);
    SharedMoves(SharedPart(s), call);
  }

  lemma SlabActs(s: System, call: SlabCall)
    requires Invariant(s) && SlabLegal(SlabPart(s), call)
    ensures SlabSafety.InvariantHas(SlabPart(s)) && Acts(s, DoSlab(s, call), SLAB)
  {
    hide Invariant, Cow.Consistent, Shm.Consistent, Slabs.Invariant, Swaps.Consistent, MappingSafety.Consistent, Moves, Apart, Held, Shm.Own, Swaps.Own, MappingSafety.Own, SlabStep, SlabLegal, SlabSafety.InvariantHas;
    Facts(s, SLAB);
    SlabMoves(SlabPart(s), call);
  }

  lemma SwapOutActs(s: System, physical: nat)
    requires Invariant(s)
    ensures Acts(s, WithSwap(s, Swaps.SwapOut(SwapPart(s), physical).0), SWAP)
  {
    hide Invariant, Cow.Consistent, Shm.Consistent, Slabs.Invariant, Swaps.Consistent, MappingSafety.Consistent, Moves, Apart, Held, Shm.Own, Swaps.Own, MappingSafety.Own, Swaps.SwapOut;
    Facts(s, SWAP);
    Swaps.SwapOutMoves(SwapPart(s), physical);
  }

  lemma MapsActs(s: System, call: MappingRuns.Call)
    requires Invariant(s)
    ensures MappingSafety.Consistent(MapsPart(s)) && Acts(s, DoMaps(s, call), MAPS)
  {
    hide Invariant, Cow.Consistent, Shm.Consistent, Slabs.Invariant, Swaps.Consistent, MappingSafety.Consistent, Moves, Apart, Held, Shm.Own, Swaps.Own, MappingSafety.Own, MappingRuns.Step;
    Facts(s, MAPS);
  }

  lemma PageActs(s: System, call: PageCall)
    requires Invariant(s) && PageLegal(s.raw, call)
    ensures Acts(s, DoPages(s, call), RAW)
  {
    hide Invariant, Cow.Consistent, Shm.Consistent, Slabs.Invariant, Swaps.Consistent, MappingSafety.Consistent, Moves, Apart, Held, Shm.Own, Swaps.Own, MappingSafety.Own, PageStep, InRange;
    Facts(s, RAW);
    PageMoves(s.memory, s.raw, call);
  }

  lemma HeapActs(s: System)
    requires Invariant(s) && s.heap == {}
    ensures Acts(s, InitHeap(s), HEAP)
  {
    hide Invariant, Cow.Consistent, Shm.Consistent, Slabs.Invariant, Swaps.Consistent, MappingSafety.Consistent, Moves, Apart, Held, Shm.Own, Swaps.Own, MappingSafety.Own, HeapStep;
    Facts(s, HEAP);
    HeapMoves(s.memory);
  }

  /** A holder's write to its own page. */
  lemma WriteActs(s: System, address: nat, contents: Page, owner: nat)
    requires Invariant(s) && Writable(s, address, owner)
    ensures Acts(s, WritePage(s, address, contents), owner)
  {
    Facts(s, owner);
    var s' := WritePage(s, address, contents);
    assert Moves(s.memory, Owned(s, owner), s'.memory, Owned(s', owner)) && Apart(s'.memory, Owned(s, owner)) by {
      hide Owned;
      SameTablesSamePages(s, s', owner);
    }
    hide Invariant, Moves, Apart, Held, Shm.Own, MappingSafety.Own, Cow.Consistent, Shm.Consistent, MappingSafety.Consistent;
    if owner == COW {
      CowFrame(s.memory, s.cow, s'.memory);
    } else if owner == SHARED {
      SharedFrame(SharedPart(s), s'.memory);
    } else if owner == MAPS {
      MapsFrame(MapsPart(s), s'.memory);
    }
  }

  /** A swap slot given up, once its contents are at the destination. */
  lemma DropActs(s: System, slot: nat)
    requires Invariant(s) && slot < Swaps.SWAP_SLOTS && slot < |s.swapped| && s.swapped[slot].used
    ensures Acts(s, WithSwap(s, Swaps.Swap(Give(s.memory, s.swapped[slot].backing), s.swapped[slot := Swaps.NoSlot])), SWAP)
  {
    Facts(s, SWAP);
    hide Invariant, Moves, Swaps.Consistent, Held, Give;
    Swaps.DropMoves(SwapPart(s), slot);
  }

  /** Swapping in is a write by the destination's holder, then giving up the slot. */
  lemma SwapInSteps(s: System, slot: nat, destination: nat, owner: nat)
    requires Invariant(s) && Legal(s, SwapIn(slot, destination, owner))
    ensures var s' := Step(s, SwapIn(slot, destination, owner));
            if !Swaps.Restorable(s.swapped, slot, destination) then s' == s
            else
              && |s.swapped| == Swaps.SWAP_SLOTS && Writable(s, destination, owner)
              && var s1 := WritePage(s, destination, Contents(s.memory, s.swapped[slot].backing));
                 s' == WithSwap(s1, Swaps.Swap(Give(s1.memory, s.swapped[slot].backing), s1.swapped[slot := Swaps.NoSlot]))
  {
    Facts(s, SWAP);
    hide Invariant, Give, Filled, Contents, Owned, Held;
  }

  /** Every call keeps every manager's invariant, the partition of pages, and the set of all pages. */
  lemma StepKeepsInvariant(s: System, c: Call)
    requires Invariant(s) && Legal(s, c)
    ensures Invariant(Step(s, c)) && Pool(Step(s, c).memory, Owners(Step(s, c))) == Pool(s.memory, Owners(s))
  {
    hide Invariant, Acts, Step, Pool, Owners, Legal, Owned, Writable;
    match c {
      case SwapIn(slot, destination, owner) =>
        SwapInSteps(s, slot, destination, owner);
        if Swaps.Restorable(s.swapped, slot, destination) {
          var page := Contents(s.memory, s.swapped[slot].backing);
          var s1 := WritePage(s, destination, page);
          WriteActs(s, destination, page, owner);
          ActsKeeps(s, s1, owner);
          DropActs(s1, slot);
          ActsKeeps(s1, Step(s, c), SWAP);
        }
      case _ =>
        CallActs(s, c);
        ActsKeeps(s, Step(s, c), Caller(c));
    }
  }

  lemma CallActs(s: System, c: Call)
    requires Invariant(s) && Legal(s, c) && !c.SwapIn?
    ensures Acts(s, Step(s, c), Caller(c))
  {
    hide Invariant, Acts, DoCow, DoShared, DoSlab, DoMaps, DoPages, InitHeap, WithSwap, WritePage, SlabLegal, PageLegal, Writable, MappingSafety.Consistent;
    match c {
      case CowDo(call) => CowActs(s, call);
      case SharedDo(call) => SharedActs(s, call);
      case SlabDo(call) => SlabActs(s, call);
      case SwapOut(physical) => SwapOutActs(s, physical);
      case MapsDo(call) => MapsActs(s, call);
      case PageDo(call) => PageActs(s, call);
      case HeapInit => HeapActs(s);
      case PageWrite(address, contents, owner) => WriteActs(s, address, contents, owner);
    }
  }

  // ---- runs ----

  ghost predicate LegalRun(s: System, calls: seq<Call>)
    requires Invariant(s)
    decreases |calls|
  {
    calls != [] ==> Legal(s, calls[0]) && (StepKeepsInvariant(s, calls[0]); LegalRun(Step(s, calls[0]), calls[1..]))
  }

  ghost function RunOf(s: System, calls: seq<Call>): System
    requires Invariant(s) && LegalRun(s, calls)
    decreases |calls|
  {
    if calls == [] then s
    else
      StepKeepsInvariant(s, calls[0]);
      RunOf(Step(s, calls[0]), calls[1..])
  }

  /** After start-up: every table blank, and nothing owned. */
  ghost predicate Fresh(s: System) {
    && Sound(s.memory) && s.raw == {} && s.heap == {} && s.live == {} && s.nextId > 0 && s.nextAddress == Maps.FIRST_ADDRESS
    && |s.cow| == Cow.SLOTS && (forall i | 0 <= i < |s.cow| :: s.cow[i] == Cow.NoPage)
    && |s.segments| == Shm.SEGMENTS && (forall i | 0 <= i < |s.segments| :: s.segments[i] == Shm.NoSegment)
    && |s.caches| == Slabs.CACHES && (forall i | 0 <= i < |s.caches| :: s.caches[i] == Slabs.Cache(Slabs.SIZES[i], 0, 0, 0, 0))
    && |s.swapped| == Swaps.SWAP_SLOTS && (forall i | 0 <= i < |s.swapped| :: s.swapped[i] == Swaps.NoSlot)
    && |s.entries| == Cache.ENTRIES && (forall i | 0 <= i < |s.entries| :: s.entries[i] == Cache.NoEntry)
    && |s.mappings| == Maps.MAPPINGS && (forall i | 0 <= i < |s.mappings| :: s.mappings[i] == Maps.NoMapping)
  }

  lemma FreshCow(s: System)
    requires Fresh(s)
    ensures Good(s, COW) && Owned(s, COW) == {}
  {
    HeldNothing(Cow.Addresses(s.cow));
  }

  lemma FreshShared(s: System)
    requires Fresh(s)
    ensures Good(s, SHARED) && Owned(s, SHARED) == {}
  {
    HeldNothing(Shm.NoSegment.pages);
    assert HeldIn(Shm.Rows(s.segments)) == {};
  }

  lemma FreshSlab(s: System)
    requires Fresh(s)
    ensures Good(s, SLAB) && Owned(s, SLAB) == {}
  {
    SlabSafety.NewSlabInvariant(s.memory, s.caches);
    HeldNothing(Slabs.Pages(s.caches));
  }

  lemma FreshSwap(s: System)
    requires Fresh(s)
    ensures Good(s, SWAP) && Owned(s, SWAP) == {}
  {
    HeldNothing(Swaps.Backings(s.swapped));
  }

  lemma FreshMaps(s: System)
    requires Fresh(s)
    ensures Good(s, MAPS) && Owned(s, MAPS) == {}
  {
    MappingRuns.InitiallyConsistent(s.memory, s.entries, s.mappings);
  }

  /** Initially all pages are free. */
  lemma FreshInvariant(s: System)
    requires Fresh(s)
    ensures Invariant(s) && Pool(s.memory, Owners(s)) == s.memory.free
  {
    FreshCow(s);
    FreshShared(s);
    FreshSlab(s);
    FreshSwap(s);
    FreshMaps(s);
    assert Good(s, RAW) && Good(s, HEAP) && Owned(s, RAW) == {} && Owned(s, HEAP) == {};
    assert Sound(s.memory);
    hide Good, Owned, Fresh;
    forall k | 0 <= k < OWNERS ensures Owners(s)[k] == {} && Good(s, k) {
      assert k == COW || k == SHARED || k == SLAB || k == SWAP || k == MAPS || k == RAW || k == HEAP;
    }
    assert AllOwned(Owners(s)) == {};
  }

  /** Over every run the pages are partitioned among the free set and the owners, and none is lost or made. */
  lemma {:induction false} PartitionHolds(s: System, calls: seq<Call>)
    requires Invariant(s) && LegalRun(s, calls)
    ensures var s' := RunOf(s, calls); Invariant(s') && Pool(s'.memory, Owners(s')) == Pool(s.memory, Owners(s))
    decreases |calls|
  {
    hide Invariant, Step, Pool, Owners, Legal;
    if calls != [] {
      StepKeepsInvariant(s, calls[0]);
      PartitionHolds(Step(s, calls[0]), calls[1..]);
    }
  }

  /** Counted in pages: the free pages and those of every owner always add up to the pages there were at the start. */
  lemma PagesAddUp(s: System, calls: seq<Call>)
    requires Fresh(s)
    ensures Invariant(s)
    ensures LegalRun(s, calls) ==> var s' := RunOf(s, calls); |s'.memory.free| + Sizes(Owners(s')) == |s.memory.free|
  {
    FreshInvariant(s);
    hide Invariant, LegalRun, RunOf, Owners, Pool, Sizes, Fresh;
    if LegalRun(s, calls) {
      PartitionHolds(s, calls);
      var s' := RunOf(s, calls);
      assert Partitioned(s'.memory, Owners(s')) by { InvariantPartitions(s'); }
      PoolSize(s'.memory, Owners(s'));
    }
  }

  lemma InvariantPartitions(s: System)
    requires Invariant(s)
    ensures Partitioned(s.memory, Owners(s))
  {
  }

  // ---- isolation ----

  /** The call may change what page p holds, or whose it is, on behalf of owner j. */
  predicate Disturbs(c: Call, j: nat, p: nat) {
    match c
    case SwapIn(_, destination, owner) => j == SWAP || (destination != 0 && PageOf(destination) == p)
    case PageWrite(address, _, owner) => PageOf(address) == p
    case PageDo(PageFree(address)) => j == RAW && PageOf(address) == p
    case PageDo(HugeFree(address)) => j == RAW && p in Run(PageOf(address), HUGE_PAGES)
    case PageDo(_) => false
    case _ => Caller(c) == j
  }

  ghost predicate KeptPage(s: System, s': System, j: nat, p: nat) {
    && |s.memory.ram| == |s'.memory.ram| == PAGE_COUNT && p < PAGE_COUNT
    && p in Owned(s', j) && s'.memory.ram[p] == s.memory.ram[p]
  }

  /** A call by one manager leaves the pages of every other as they are. */
  lemma OtherCallsKeepPage(s: System, s': System, k: nat, j: nat, p: nat)
    requires Invariant(s) && Acts(s, s', k) && j < OWNERS && j != k && p in Owned(s, j) && p < PAGE_COUNT
    ensures KeptPage(s, s', j, p)
  {
    Facts(s, j);
    ActsKeeps(s, s', k);
    hide Owned, Good, SameTables, Invariant;
  }

  lemma OwnWritesKeepPage(s: System, address: nat, contents: Page, owner: nat, j: nat, p: nat)
    requires Invariant(s) && Writable(s, address, owner) && j < OWNERS && p in Owned(s, j) && p < PAGE_COUNT && PageOf(address) != p
    ensures KeptPage(s, WritePage(s, address, contents), j, p)
  {
    Facts(s, j);
    hide Invariant;
    SameTablesSamePages(s, WritePage(s, address, contents), j);
    hide Owned;
  }

  /** Taking pages, and freeing others, leaves a caller's page alone. */
  lemma PageCallsKeepPage(s: System, call: PageCall, p: nat)
    requires Invariant(s) && PageLegal(s.raw, call) && p in s.raw && p < PAGE_COUNT && !Disturbs(PageDo(call), RAW, p)
    ensures KeptPage(s, DoPages(s, call), RAW, p)
  {
    Facts(s, RAW);
    TakeIsExact(s.memory);
    hide Invariant, Take, FirstFit;
  }

  lemma SwapInKeepsPage(s: System, slot: nat, destination: nat, owner: nat, j: nat, p: nat)
    requires Invariant(s) && Legal(s, SwapIn(slot, destination, owner)) && j < OWNERS && j != SWAP
    requires p in Owned(s, j) && p < PAGE_COUNT && (destination != 0 ==> PageOf(destination) != p)
    ensures KeptPage(s, Step(s, SwapIn(slot, destination, owner)), j, p)
  {
    Facts(s, j);
    SwapInSteps(s, slot, destination, owner);
    hide Invariant, Acts, Step, Owned, Writable;
    if Swaps.Restorable(s.swapped, slot, destination) {
      var contents := Contents(s.memory, s.swapped[slot].backing);
      var s1 := WritePage(s, destination, contents);
      WriteActs(s, destination, contents, owner);
      ActsKeeps(s, s1, owner);
      OwnWritesKeepPage(s, destination, contents, owner, j, p);
      DropActs(s1, slot);
      OtherCallsKeepPage(s1, Step(s, SwapIn(slot, destination, owner)), SWAP, j, p);
    }
  }

  lemma PlainSteps(s: System, c: Call)
    requires Invariant(s) && Legal(s, c)
    ensures c.PageWrite? ==> Step(s, c) == WritePage(s, c.address, c.contents)
    ensures c.PageDo? ==> Step(s, c) == DoPages(s, c.page) && PageLegal(s.raw, c.page)
    ensures Owned(s, RAW) == s.raw
  {
    hide Invariant;
  }

  /** A page in use keeps its owner and its contents through every call that is not its owner's business. */
  lemma StepKeepsPage(s: System, c: Call, j: nat, p: nat)
    requires Invariant(s) && Legal(s, c) && j < OWNERS && p in Owned(s, j) && p < PAGE_COUNT && !Disturbs(c, j, p)
    ensures KeptPage(s, Step(s, c), j, p)
  {
    PlainSteps(s, c);
    hide Invariant, Acts, Step, Owned, Writable, WritePage;
    match c {
      case SwapIn(slot, destination, owner) => SwapInKeepsPage(s, slot, destination, owner, j, p);
      case PageWrite(address, contents, owner) => OwnWritesKeepPage(s, address, contents, owner, j, p);
      case PageDo(call) =>
        CallActs(s, c);
        if j == RAW { PageCallsKeepPage(s, call, p); } else { OtherCallsKeepPage(s, Step(s, c), RAW, j, p); }
      case _ =>
        CallActs(s, c);
        OtherCallsKeepPage(s, Step(s, c), Caller(c), j, p);
    }
  }

  /** A run of calls none of which is the business of owner j where page p is concerned. */
  predicate Undisturbed(calls: seq<Call>, j: nat, p: nat) {
    forall c | c in calls :: !Disturbs(c, j, p)
  }

  /** Isolation over every run: no sequence of other managers' calls moves, frees or overwrites an owner's page. */
  lemma {:induction false} PageIsSafe(s: System, calls: seq<Call>, j: nat, p: nat)
    requires Invariant(s) && LegalRun(s, calls) && j < OWNERS && p in Owned(s, j) && p < PAGE_COUNT && Undisturbed(calls, j, p)
    ensures KeptPage(s, RunOf(s, calls), j, p)
    decreases |calls|
  {
    Facts(s, j);
    hide Invariant, Step, Legal, Owned, Disturbs;
    if calls != [] {
      assert calls[0] in calls;
      StepKeepsInvariant(s, calls[0]);
      StepKeepsPage(s, calls[0], j, p);
      PageIsSafe(Step(s, calls[0]), calls[1..], j, p);
    }
  }

  /** What any owner gains, it gains from the free set: no page is handed out while someone has it. */
  lemma StepHandsOutFreePages(s: System, c: Call, k: nat, p: nat)
    requires Invariant(s) && Legal(s, c) && k < OWNERS
    ensures Invariant(Step(s, c))
    ensures p in Owned(Step(s, c), k) && p !in Owned(s, k) ==> p in s.memory.free && forall j | 0 <= j < OWNERS :: p !in Owned(s, j)
  {
    StepKeepsInvariant(s, c);
    forall j | 0 <= j < OWNERS ensures Apart(s.memory, Owned(s, j)) { Facts(s, j); }
    if !c.SwapIn? { CallActs(s, c); }
    hide Invariant, Step, Legal, Good, SameTables;
    if p in Owned(Step(s, c), k) && p !in Owned(s, k) {
      if c.SwapIn? {
        SwapInGainsNothing(s, c.slot, c.destination, c.owner, k, p);
      } else {
        if k != Caller(c) {
          SameTablesSamePages(s, Step(s, c), k);
        } else {
          hide Owned;
          assert p in Owned(s, k) + s.memory.free;
        }
      }
    }
  }

  lemma SwapInGainsNothing(s: System, slot: nat, destination: nat, owner: nat, k: nat, p: nat)
    requires Invariant(s) && Legal(s, SwapIn(slot, destination, owner)) && k < OWNERS
    requires p in Owned(Step(s, SwapIn(slot, destination, owner)), k)
    ensures p in Owned(s, k)
  {
    SwapInSteps(s, slot, destination, owner);
    var s' := Step(s, SwapIn(slot, destination, owner));
    hide Invariant, Step, Legal, Writable;
    if k != SWAP {
      SameTablesSamePages(s, s', k);
    }
  }
}
