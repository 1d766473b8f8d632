/** The page allocator: one bit per page, set when the page is in use, with two counters. */
module PhysicalMemory {
  import opened Bytes
  import opened Frames

  const BITMAP_BYTES := PAGE_COUNT / 8

  /** 1 << k in a byte. */
  function Mask(k: nat): bv8
    requires k < 8
  {
    if k == 0 then 1 else if k == 1 then 2 else if k == 2 then 4 else if k == 3 then 8
    else if k == 4 then 16 else if k == 5 then 32 else if k == 6 then 64 else 128
  }

  predicate Clear(b: bv8, k: nat)
    requires k < 8
  {
    b & Mask(k) == 0
  }

  /** Setting or clearing one bit of a byte leaves the others alone. */
  lemma OneBit(b: bv8, k: nat, j: nat)
    requires k < 8 && j < 8
    ensures Clear(b | Mask(k), j) <==> j != k && Clear(b, j)
    ensures Clear(b & !Mask(k), j) <==> j == k || Clear(b, j)
  {
    MaskIsMask(k);
    MaskIsMask(j);
    MasksEqual(k, j);
    hide Mask, IsMask;
    MasksDiffer(b, Mask(k), Mask(j));
  }

  lemma MaskIsMask(k: nat)
    requires k < 8
    ensures IsMask(Mask(k))
  {
  }

  lemma MasksEqual(k: nat, j: nat)
    requires k < 8 && j < 8
    ensures Mask(k) == Mask(j) <==> k == j
  {
  }

  function WithBit(b: bv8, k: nat, clear: bool): bv8
    requires k < 8
  {
    if clear then b & !Mask(k) else b | Mask(k)
  }

  lemma WithBitSetsOne(b: bv8, k: nat, clear: bool, j: nat)
    requires k < 8 && j < 8
    ensures Clear(WithBit(b, k, clear), j) <==> if j == k then clear else Clear(b, j)
  {
    hide Clear, Mask;
    OneBit(b, k, j);
  }

  predicate IsMask(m: bv8) {
    m == 1 || m == 2 || m == 4 || m == 8 || m == 16 || m == 32 || m == 64 || m == 128
  }

  lemma MasksDiffer(b: bv8, m: bv8, n: bv8)
    requires IsMask(m) && IsMask(n)
    ensures (b | m) & n == 0 <==> m != n && b & n == 0
    ensures (b & !m) & n == 0 <==> m == n || b & n == 0
  {
  }

  class PhysicalMemoryManager {
    const bitmap: array<bv8>
    var totalPages: nat
    var freePages: nat
    var usedPages: nat
    /** The pages whose bit is clear. */
    ghost var free: set<nat>

    ghost predicate Valid()
      reads this, bitmap
    {
      && bitmap.Length == BITMAP_BYTES
      && Tracked()
      && freePages == |free| && usedPages == PAGE_COUNT - |free|
    }

    /** The free set is read off the map. */
    ghost predicate Tracked()
      requires bitmap.Length == BITMAP_BYTES
      reads `free, bitmap
    {
      forall p: nat :: p in free <==> p < PAGE_COUNT && IsPageFree(p)
    }

    constructor ()
      ensures bitmap.Length == BITMAP_BYTES && fresh(bitmap)
    {
      bitmap := new bv8[BITMAP_BYTES];
      totalPages, freePages, usedPages, free := 0, 0, 0, {};
    }

    predicate IsPageFree(page: nat)
      requires page < PAGE_COUNT && bitmap.Length == BITMAP_BYTES
      reads bitmap
    {
      Clear(bitmap[page / 8], page % 8)
    }

    /** Write one bit of the map: clear it to free the page, set it otherwise. */
    method WriteBit(page: nat, makeFree: bool)
      requires bitmap.Length == BITMAP_BYTES && page < PAGE_COUNT
      modifies bitmap
      ensures forall p | 0 <= p < PAGE_COUNT :: IsPageFree(p) <==> if p == page then makeFree else old(IsPageFree(p))
    {
      hide Clear, WithBit;
      bitmap[page / 8] := WithBit(bitmap[page / 8], page % 8, makeFree);
      forall p | 0 <= p < PAGE_COUNT ensures IsPageFree(p) <==> if p == page then makeFree else old(IsPageFree(p)) {
        if p / 8 == page / 8 { WithBitSetsOne(old(bitmap[page / 8]), page % 8, makeFree, p % 8); }
      }
    }

    /** The same for the free set. */
    method MarkBit(page: nat, makeFree: bool)
      requires bitmap.Length == BITMAP_BYTES && Tracked() && page < PAGE_COUNT
      modifies bitmap, `free
      ensures Tracked() && free == if makeFree then old(free) + {page} else old(free) - {page}
    {
      hide IsPageFree;
      WriteBit(page, makeFree);
      free := if makeFree then free + {page} else free - {page};
    }

    /** The counters follow the bits, and their guards against underflow never matter. */
    method Recount(wasFree: bool, makeFree: bool)
      requires wasFree != makeFree && freePages + usedPages == PAGE_COUNT && (if makeFree then usedPages else freePages) > 0
      modifies `freePages, `usedPages
      ensures freePages == old(freePages) + (if makeFree then 1 else -1) && usedPages == PAGE_COUNT - freePages
    {
      if makeFree {
        freePages := freePages + 1;
        if usedPages > 0 {
          usedPages := usedPages - 1;
        }
      } else {
        if freePages > 0 {
          freePages := freePages - 1;
        }
        usedPages := usedPages + 1;
      }
    }

    /** Mark one page. */
    method SetPage(page: nat, makeFree: bool)
      requires Valid() && page < PAGE_COUNT
      modifies bitmap, `free, `freePages, `usedPages
      ensures Valid() && free == if makeFree then old(free) + {page} else old(free) - {page}
    {
      SizesAround(free, page);
      var wasFree := IsPageFree(page);
      assert wasFree == (page in free) && |free| <= PAGE_COUNT;
      hide IsPageFree, Tracked;
      MarkBit(page, makeFree);
      if makeFree != wasFree {
        Recount(wasFree, makeFree);
      }
    }

    method MarkPages(start: uint64, count: uint64, makeFree: bool)
      requires Valid()
      modifies bitmap, `free, `freePages, `usedPages
      ensures Valid()
      ensures forall p: nat :: p in free <==> if InSpan(start, count, p) && p < PAGE_COUNT then makeFree else p in old(free)
    {
      hide IsPageFree;
      var page: nat, end := start, Add64(start, count);
      while page < end && page < PAGE_COUNT
        invariant start <= page && (page == start || page <= end) && Valid()
        invariant forall p: nat :: p in free <==> if start <= p < page && p < PAGE_COUNT then makeFree else p in old(free)
        decreases end - page
      {
        SetPage(page, makeFree);
        page := page + 1;
      }
    }

    method MarkRange(address: uint64, count: uint64, makeFree: bool)
      requires Valid()
      modifies bitmap, `free, `freePages, `usedPages
      ensures Valid()
      ensures forall p: nat :: p in free <==> if InSpan(address / PAGE_SIZE, count, p) && p < PAGE_COUNT then makeFree else p in old(free)
    {
      MarkPages(address / PAGE_SIZE, count, makeFree);
    }

    // ---- allocation ----

    method TakePages(start: nat, count: nat)
      requires Valid() && start + count <= PAGE_COUNT
      modifies bitmap, `free, `freePages, `usedPages
      ensures Valid() && free == old(free) - Run(start, count)
    {
      hide IsPageFree;
      MarkPages(start, count, false);
      assert forall p: nat :: p in free <==> p in old(free) && p !in Run(start, count);
    }

    /**
     First fit: the lowest aligned run of free pages is taken, and 0 is returned only if there is
     none (address 0 could mean page 0, so this reads off exactly when page 0 is not free).
     */
    method AllocateAligned(count: nat, alignment: nat) returns (address: nat)
      requires Valid()
      modifies bitmap, `free, `freePages, `usedPages
      ensures Valid()
      ensures count == 0 || !PowerOfTwo(alignment) ==> address == 0 && free == old(free)
      ensures count > 0 && PowerOfTwo(alignment) ==>
                var s := FirstFit(old(free), count, alignment);
                if s == PAGE_COUNT then address == 0 && free == old(free)
                else address == s * PAGE_SIZE && free == old(free) - Run(s, count)
    {
      if count == 0 {
        return 0;
      }
      if alignment > 0 { PowerOfTwoTest(alignment); }
      if count > freePages {
        if PowerOfTwo(alignment) { TooFewFreePages(free, count, alignment); }
        return 0;
      }
      if alignment == 0 || And(alignment, alignment - 1) != 0 {
        return 0;
      }
      var runStart, runLength, page := 0, 0, 0;
      while page < PAGE_COUNT
        invariant Valid() && free == old(free)
        invariant 0 <= page <= PAGE_COUNT && 0 <= runLength < count
        invariant runLength > 0 ==> runStart + runLength == page && runStart % alignment == 0
        invariant runLength > 0 ==> forall p | runStart <= p < page :: p in free
        invariant forall c | 0 <= c < (if runLength > 0 then runStart else page) :: !Candidate(free, count, alignment, c)
      {
        hide FirstFit, PowerOfTwo, Clear;
        MaskIsRemainder(page, alignment);
        if IsPageFree(page) {
          assert page in free;
          if runLength == 0 {
            if And(page, alignment - 1) != 0 {
              page := page + 1;
              continue;
            }
            runStart := page;
          }
          runLength := runLength + 1;
          if runLength == count {
            FirstFitIs(free, count, alignment, runStart);
            TakePages(runStart, count);
            return runStart * PAGE_SIZE;
          }
        } else {
          assert page !in free;
          if runLength > 0 {
            BrokenRunHasNoCandidate(free, count, alignment, runStart, page);
          } else {
            BrokenRunHasNoCandidate(free, count, alignment, page, page);
          }
          runLength := 0;
        }
        page := page + 1;
      }
      FirstFitIs(free, count, alignment, PAGE_COUNT);
      address := 0;
    }

    method AllocateContiguous(count: nat) returns (address: nat)
      requires Valid()
      modifies bitmap, `free, `freePages, `usedPages
      ensures Valid()
      ensures count == 0 ==> address == 0 && free == old(free)
      ensures count > 0 ==>
                var s := FirstFit(old(free), count, 1);
                if s == PAGE_COUNT then address == 0 && free == old(free)
                else address == s * PAGE_SIZE && free == old(free) - Run(s, count)
    {
      address := AllocateAligned(count, 1);
    }

    method AllocatePage() returns (address: nat)
      requires Valid()
      modifies bitmap, `free, `freePages, `usedPages
      ensures Valid()
      ensures var s := FirstFit(old(free), 1, 1);
              if s == PAGE_COUNT then address == 0 && free == old(free)
              else address == s * PAGE_SIZE && free == old(free) - {s}
    {
      address := AllocateContiguous(1);
    }

    method FreePage(address: uint64)
      requires Valid()
      modifies bitmap, `free, `freePages, `usedPages
      ensures Valid()
      ensures free == if address / PAGE_SIZE < PAGE_COUNT then old(free) + {address / PAGE_SIZE} else old(free)
    {
      MarkRange(address, 1, true);
    }

    method FreeContiguous(address: uint64, count: uint64)
      requires Valid()
      modifies bitmap, `free, `freePages, `usedPages
      ensures Valid()
      ensures forall p: nat :: p in free <==>
                p in old(free) || (address % PAGE_SIZE == 0 && InSpan(address / PAGE_SIZE, count, p) && p < PAGE_COUNT)
    {
      if address % PAGE_SIZE == 0 && count != 0 {
        MarkRange(address, count, true);
      }
    }

    // ---- start-up ----

    method ReserveRange(r: Range)
      requires Valid()
      modifies bitmap, `free, `freePages, `usedPages
      ensures Valid()
      ensures forall p: nat :: p in free <==> p in old(free) && !Reserves(r, p)
    {
      if r.bytes == 0 || r.address >= MEMORY_LIMIT {
        return;
      }
      var start := AlignDown(r.address);
      var end := AlignUp(Add64(r.address, r.bytes));
      MarkRange(start, Sub64(end, start) / PAGE_SIZE, false);
    }

    /**
     Start-up: a page is free exactly when some conventional descriptor provides it and no
     reservation takes it, whatever the order or overlap of either list; the first megabyte,
     hence page 0, is always reserved.
     */
    method Init(present: bool, descriptors: seq<Descriptor>, reserved: seq<Range>) returns (ok: bool)
      requires bitmap.Length == BITMAP_BYTES
      modifies this, bitmap
      ensures !present ==> !ok && free == old(free) && bitmap[..] == old(bitmap[..])
      ensures present ==> Valid() && ok == (free != {}) && totalPages == TotalPages(descriptors)
      ensures present ==> forall p: nat :: p in free <==>
                p < PAGE_COUNT && Provided(descriptors, p) && !ReservedBy([Range(0, 0x10_0000)] + reserved, p)
      ensures present ==> 0 !in free
    {
      if !present {
        return false;
      }
      ClearMap();
      AddDescriptors(descriptors);
      ReserveRanges([Range(0, 0x10_0000)] + reserved);
      assert Reserves(Range(0, 0x10_0000), 0) && ([Range(0, 0x10_0000)] + reserved)[0] == Range(0, 0x10_0000);
      ok := freePages > 0;
      SubsetSize({}, free);
    }

    method AddDescriptors(descriptors: seq<Descriptor>)
      requires Valid() && free == {}
      modifies this, bitmap
      ensures Valid() && totalPages == TotalPages(descriptors)
      ensures forall p: nat :: p in free <==> p < PAGE_COUNT && Provided(descriptors, p)
    {
      hide Provides, ManagedPages, IsPageFree;
      totalPages := 0;
      for i := 0 to |descriptors|
        invariant Valid() && totalPages == TotalPages(descriptors[..i])
        invariant forall p: nat :: p in free <==> p < PAGE_COUNT && Provided(descriptors[..i], p)
      {
        AddDescriptor(descriptors[i]);
        ProvidedByOneMore(descriptors, i);
      }
      assert descriptors[..|descriptors|] == descriptors;
    }

    method ReserveRanges(ranges: seq<Range>)
      requires Valid()
      modifies bitmap, `free, `freePages, `usedPages
      ensures Valid()
      ensures forall p: nat :: p in free <==> p in old(free) && !ReservedBy(ranges, p)
    {
      hide Reserves, IsPageFree;
      for i := 0 to |ranges|
        invariant Valid()
        invariant forall p: nat :: p in free <==> p in old(free) && !ReservedBy(ranges[..i], p)
      {
        ReserveRange(ranges[i]);
        ReservedByOneMore(ranges, i);
      }
      assert ranges[..|ranges|] == ranges;
    }

    /** Every page in use. */
    method ClearMap()
      requires bitmap.Length == BITMAP_BYTES
      modifies bitmap, `free, `freePages, `usedPages
      ensures Valid() && free == {}
    {
      for i := 0 to BITMAP_BYTES
        invariant forall j | 0 <= j < i :: bitmap[j] == 0xFF
      {
        bitmap[i] := 0xFF;
      }
      freePages, usedPages, free := 0, PAGE_COUNT, {};
      forall p | 0 <= p < PAGE_COUNT ensures !IsPageFree(p) {
        assert bitmap[p / 8] == 0xFF;
        FullByte(p % 8);
      }
    }

    method AddDescriptor(d: Descriptor)
      requires Valid()
      modifies bitmap, `free, `freePages, `usedPages, `totalPages
      ensures Valid() && totalPages == old(totalPages) + ManagedPages(d)
      ensures forall p: nat :: p in free <==> p in old(free) || Provides(d, p)
    {
      var start, end := FirstByte(d), EndByte(d);
      if end <= start || start >= MEMORY_LIMIT {
        return;
      }
      var clampedEnd := if end > MEMORY_LIMIT then MEMORY_LIMIT else end;
      var count := (clampedEnd - start) / PAGE_SIZE;
      totalPages := totalPages + count;
      if d.kind == CONVENTIONAL {
        MarkRange(start, count, true);
      }
    }
  }

  lemma SizesAround(free: set<nat>, page: nat)
    requires page < PAGE_COUNT && forall p | p in free :: p < PAGE_COUNT
    ensures |free| <= PAGE_COUNT
    ensures |free + {page}| == |free| + (if page in free then 0 else 1) <= PAGE_COUNT
    ensures |free - {page}| == |free| - (if page in free then 1 else 0)
  {
    AtMostAllFree(free + {page});
    if page in free { assert free + {page} == free; } else { assert free - {page} == free; }
  }

  lemma AtMostAllFree(free: set<nat>)
    requires forall p | p in free :: p < PAGE_COUNT
    ensures |free| <= PAGE_COUNT
  {
    RunSize(0, PAGE_COUNT);
    SubsetSize(free, Run(0, PAGE_COUNT));
  }

  lemma FullByte(k: nat)
    requires k < 8
    ensures !Clear(0xFF, k)
  {
  }

  lemma ProvidedByOneMore(ds: seq<Descriptor>, i: nat)
    requires i < |ds|
    ensures TotalPages(ds[..i + 1]) == TotalPages(ds[..i]) + ManagedPages(ds[i])
    ensures forall p :: Provided(ds[..i + 1], p) <==> Provided(ds[..i], p) || Provides(ds[i], p)
  {
    hide Provides, ManagedPages;
    assert ds[..i + 1][..i] == ds[..i];
    forall p ensures Provided(ds[..i + 1], p) <==> Provided(ds[..i], p) || Provides(ds[i], p) {
      if Provided(ds[..i], p) {
        var j :| 0 <= j < i && Provides(ds[..i][j], p);
        assert Provides(ds[..i + 1][j], p);
      }
      if Provides(ds[i], p) { assert Provides(ds[..i + 1][i], p); }
      if Provided(ds[..i + 1], p) {
        var j :| 0 <= j < i + 1 && Provides(ds[..i + 1][j], p);
        if j < i { assert Provides(ds[..i][j], p); }
      }
    }
  }

  lemma ReservedByOneMore(rs: seq<Range>, i: nat)
    requires i < |rs|
    ensures forall p :: ReservedBy(rs[..i + 1], p) <==> ReservedBy(rs[..i], p) || Reserves(rs[i], p)
  {
    hide Reserves;
    forall p ensures ReservedBy(rs[..i + 1], p) <==> ReservedBy(rs[..i], p) || Reserves(rs[i], p) {
      if ReservedBy(rs[..i], p) {
        var j :| 0 <= j < i && Reserves(rs[..i][j], p);
        assert Reserves(rs[..i + 1][j], p);
      }
      if Reserves(rs[i], p) { assert Reserves(rs[..i + 1][i], p); }
      if ReservedBy(rs[..i + 1], p) {
        var j :| 0 <= j < i + 1 && Reserves(rs[..i + 1][j], p);
        if j < i { assert Reserves(rs[..i][j], p); }
      }
    }
  }
}
