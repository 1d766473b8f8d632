/** The copy-on-write manager as the program keeps it. */
module CopyOnWriteManager {
  import opened Frames
  import opened PhysicalMemory
  import opened Memory
  import opened CopyOnWrite

  class CopyOnWriteManager {
    const pmm: PhysicalMemoryManager
    const ram: Ram
    const slots: array<CowPage>

    ghost predicate Valid()
      reads pmm, pmm.bitmap, ram.pages, slots
    {
      Running(pmm, ram) && slots.Length == SLOTS && Consistent(View(pmm, ram), slots[..])
    }

    constructor (pmm: PhysicalMemoryManager, ram: Ram)
      requires Running(pmm, ram)
      ensures Valid() && this.pmm == pmm && this.ram == ram && fresh(slots)
      ensures forall i | 0 <= i < SLOTS :: slots[i] == NoPage
    {
      this.pmm, this.ram := pmm, ram;
      slots := new CowPage[SLOTS](_ => NoPage);
    }

    method FindFreeSlotIndex() returns (found: nat)
      requires slots.Length == SLOTS
      ensures found == FindFreeSlot(slots[..])
    {
      found := 0;
      while found < SLOTS
        invariant found <= SLOTS && FindFreeSlot(slots[..]) == FindFreeSlot(slots[..], found)
      {
        if !slots[found].active {
          return;
        }
        found := found + 1;
      }
    }

    method FindPageIndex(physical: nat) returns (found: nat)
      requires slots.Length == SLOTS
      ensures found == FindPage(slots[..], physical)
    {
      found := 0;
      while found < SLOTS
        invariant found <= SLOTS && FindPage(slots[..], physical) == FindPage(slots[..], physical, found)
      {
        if slots[found].active && slots[found].physical == physical {
          return;
        }
        found := found + 1;
      }
    }

    method AllocatePage() returns (physical: nat)
      requires Valid()
      modifies slots, pmm, pmm.bitmap, ram.pages
      ensures Valid()
      ensures Outcome(View(pmm, ram), slots[..], physical) == old(Allocate(View(pmm, ram), slots[..]))
    {
      hide FindFreeSlot, Held, Proper, FirstFit, Moves;
      AllocateMoves(View(pmm, ram), slots[..]);
      TakeIsExact(View(pmm, ram));
      var slot := FindFreeSlotIndex();
      if slot == SLOTS {
        return 0;
      }
      physical := pmm.AllocatePage();
      if physical == 0 {
        return 0;
      }
      ram.ClearPage(physical);
      slots[slot] := CowPage(physical, 1, true);
      assert slots[..] == old(slots[..])[slot := slots[slot]];
    }

    method ClonePage(physical: nat) returns (cloned: bool)
      requires Valid()
      modifies slots
      ensures Valid()
      ensures slots[..] == Clone(old(slots[..]), physical) && cloned == Clonable(old(slots[..]), physical)
    {
      hide FindPage, Held, Proper;
      var i := FindPageIndex(physical);
      if i == SLOTS || slots[i].references == MAX_REFERENCES {
        return false;
      }
      RecountKeeps(View(pmm, ram), slots[..], i, slots[i].references + 1);
      slots[i] := slots[i].(references := slots[i].references + 1);
      assert slots[..] == old(slots[..])[i := slots[i]];
      cloned := true;
    }

    method ResolveWriteTo(physical: nat) returns (writable: nat)
      requires Valid()
      modifies slots, pmm, pmm.bitmap, ram.pages
      ensures Valid()
      ensures Outcome(View(pmm, ram), slots[..], writable) == old(ResolveWrite(View(pmm, ram), slots[..], physical))
    {
      hide FindFreeSlot, FindPage, Held, Proper, Apart, FirstFit, Moves, Owns;
      ResolveWriteMoves(View(pmm, ram), slots[..], physical);
      TakeIsExact(View(pmm, ram));
      var i := FindPageIndex(physical);
      if i == SLOTS {
        return 0;
      }
      if slots[i].references <= 1 {
        return physical;
      }
      SlotIsPage(View(pmm, ram), slots[..], i);
      var j := FindFreeSlotIndex();
      if j == SLOTS {
        return 0;
      }
      writable := pmm.AllocatePage();
      if writable == 0 {
        return 0;
      }
      ram.CopyPage(writable, physical);
      slots[i] := slots[i].(references := slots[i].references - 1);
      slots[j] := CowPage(writable, 1, true);
      assert slots[..] == old(slots[..])[i := slots[i]][j := slots[j]];
    }

    method ReleasePage(physical: nat)
      requires Valid()
      modifies slots, pmm, pmm.bitmap
      ensures Valid()
      ensures (View(pmm, ram), slots[..]) == old(Release(View(pmm, ram), slots[..], physical))
    {
      hide FindPage, Held, Proper, Moves;
      ReleaseMoves(View(pmm, ram), slots[..], physical);
      var i := FindPageIndex(physical);
      if i == SLOTS || slots[i].references == 0 {
        return;
      }
      SlotIsPage(View(pmm, ram), slots[..], i);
      slots[i] := slots[i].(references := slots[i].references - 1);
      if slots[i].references == 0 {
        pmm.FreePage(slots[i].physical);
        slots[i] := slots[i].(physical := 0, active := false);
      }
      assert slots[..] == old(slots[..])[i := slots[i]];
    }
  }

  lemma SlotIsPage(m: Memory, slots: seq<CowPage>, i: nat)
    requires Consistent(m, slots) && i < SLOTS && slots[i].active
    ensures IsPage(slots[i].physical)
  {
    assert Addresses(slots)[i] == slots[i].physical;
  }
}
