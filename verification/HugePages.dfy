/** Direct users of page runs: huge pages, and the kernel heap's pages. */
module HugePages {
  import opened Arithmetic
  import opened Bytes
  import opened Frames
  import opened PhysicalMemory
  import opened Memory
  import opened Ownership

  const HUGE_SIZE := HUGE_PAGES * PAGE_SIZE

  class HugePageManager {
    const pmm: PhysicalMemoryManager
    const ram: Ram

    constructor (pmm: PhysicalMemoryManager, ram: Ram)
      ensures this.pmm == pmm && this.ram == ram
    {
      this.pmm, this.ram := pmm, ram;
    }

    method AllocateHugePage() returns (physical: nat)
      requires Running(pmm, ram)
      modifies pmm, pmm.bitmap
      ensures Running(pmm, ram) && (View(pmm, ram), physical) == TakeRun(old(View(pmm, ram)), HUGE_PAGES, HUGE_PAGES)
    {
      hide FirstFit;
      assert PowerOfTwo(HUGE_PAGES);
      physical := pmm.AllocateAligned(HUGE_PAGES, HUGE_PAGES);
    }

    /** Pages of the run beyond managed memory are not marked. */
    method FreeHugePage(physical: uint64)
      requires Running(pmm, ram)
      modifies pmm, pmm.bitmap
      ensures Running(pmm, ram)
      ensures View(pmm, ram) == if WholeHugePage(physical) then GiveRun(old(View(pmm, ram)), ManagedRun(PageOf(physical), HUGE_PAGES)) else old(View(pmm, ram))
    {
      hide Running, View, GiveRun, And, ManagedRun;
      HugeMask(physical);
      if physical != 0 && And(physical, HUGE_SIZE - 1) == 0 {
        HugePageIsAligned(physical);
        GiveContiguous(pmm, ram, physical, HUGE_PAGES);
      }
    }
  }

  /** The pages of a run that are managed. */
  function ManagedRun(start: nat, count: nat): (r: set<nat>)
    ensures forall p: nat :: p in r <==> start <= p < start + count && p < PAGE_COUNT
  {
    set p | p in Run(start, count) && p < PAGE_COUNT
  }

  lemma HugePageIsAligned(address: nat)
    requires WholeHugePage(address)
    ensures address % PAGE_SIZE == 0 && PageOf(address) > 0
  {
    var k := address / 2097152;
    assert HUGE_SIZE == 2097152 && address == 4096 * (512 * k) && k > 0;
    QuotientIs(address, 4096, 512 * k, 0);
  }

  /** The low 21 bits of an address are its remainder by the huge page size. */
  lemma HugeMask(address: nat)
    ensures And(address, HUGE_SIZE - 1) == address % HUGE_SIZE
  {
    assert PowerOfTwo(512) && PowerOfTwo(32768) && PowerOfTwo(2097152);
    MaskIsRemainder(address, HUGE_SIZE);
  }

  /** A huge page freed again leaves the free set as it was. */
  lemma HugeRoundTrip(m: Memory)
    requires Sound(m) && TakeRun(m, HUGE_PAGES, HUGE_PAGES).1 != 0
    ensures var (m', a) := TakeRun(m, HUGE_PAGES, HUGE_PAGES);
            WholeHugePage(a) && ManagedRun(PageOf(a), HUGE_PAGES) == Run(PageOf(a), HUGE_PAGES) && GiveRun(m', Run(PageOf(a), HUGE_PAGES)) == m
  {
    hide FirstFit;
    TakeRunMoves(m, {}, HUGE_PAGES, HUGE_PAGES);
    var (m', a) := TakeRun(m, HUGE_PAGES, HUGE_PAGES);
    assert m'.free + Run(PageOf(a), HUGE_PAGES) == m.free;
  }

  method GiveContiguous(pmm: PhysicalMemoryManager, ram: Ram, address: uint64, count: uint64)
    requires Running(pmm, ram) && address % PAGE_SIZE == 0 && PageOf(address) > 0 && PageOf(address) + count < WORD_LIMIT
    modifies pmm, pmm.bitmap
    ensures Running(pmm, ram) && View(pmm, ram) == GiveRun(old(View(pmm, ram)), ManagedRun(PageOf(address), count))
  {
    pmm.FreeContiguous(address, count);
    assert pmm.free == old(pmm.free) + ManagedRun(PageOf(address), count);
  }

  method TakeContiguous(pmm: PhysicalMemoryManager, ram: Ram, count: nat) returns (base: nat)
    requires Running(pmm, ram) && count > 0
    modifies pmm, pmm.bitmap
    ensures Running(pmm, ram) && (View(pmm, ram), base) == TakeRun(old(View(pmm, ram)), count, 1)
  {
    hide FirstFit;
    base := pmm.AllocateContiguous(count);
  }

  class KernelHeap {
    var start: nat
    var current: nat
    var end: nat

    constructor ()
      ensures start == current == end == 0
    {
      start, current, end := 0, 0, 0;
    }

    /** The heap takes its pages once, at start-up. */
    method Init(pmm: PhysicalMemoryManager, ram: Ram) returns (ok: bool)
      requires Running(pmm, ram)
      modifies this, pmm, pmm.bitmap
      ensures Running(pmm, ram)
      ensures var (m, base) := TakeRun(old(View(pmm, ram)), HEAP_PAGES, 1);
              && View(pmm, ram) == m && ok == (base != 0)
              && (ok ==> start == current == base && end == base + HEAP_PAGES * PAGE_SIZE)
              && (!ok ==> start == old(start) && current == old(current) && end == old(end))
    {
      hide Running, View, TakeRun;
      var base := TakeContiguous(pmm, ram, HEAP_PAGES);
      if base == 0 {
        return false;
      }
      start, current, end := base, base, base + HEAP_PAGES * PAGE_SIZE;
      ok := true;
    }
  }
}
