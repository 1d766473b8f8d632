/** The swap manager as the program keeps it. */
module SwapManager {
  import opened Frames
  import opened PhysicalMemory
  import opened Memory
  import opened Swap

  class SwapManager {
    const pmm: PhysicalMemoryManager
    const ram: Ram
    const slots: array<Slot>

    ghost predicate Valid()
      reads pmm, pmm.bitmap, ram.pages, slots
    {
      Separate() && Running(pmm, ram) && Consistent(State())
    }

    /** The slot table shares no storage with the bitmap or the pages. */
    ghost predicate Separate() {
      slots.Length == SWAP_SLOTS && (slots as object) != pmm.bitmap && (slots as object) != ram.pages
    }

    ghost function State(): Swap
      reads pmm, ram.pages, slots
    {
      Swap(View(pmm, ram), slots[..])
    }

    constructor (pmm: PhysicalMemoryManager, ram: Ram)
      requires Running(pmm, ram)
      ensures Valid() && this.pmm == pmm && this.ram == ram && fresh(slots)
      ensures forall i | 0 <= i < SWAP_SLOTS :: slots[i] == NoSlot
    {
      this.pmm, this.ram := pmm, ram;
      slots := new Slot[SWAP_SLOTS](_ => NoSlot);
      new;
      HeldNothing(Backings(slots[..]));
    }

    method SwapPageOut(physical: nat) returns (slot: int)
      requires Valid() && (physical != 0 ==> IsPage(physical))
      modifies slots, pmm, pmm.bitmap, ram.pages
      ensures Valid() && (State(), slot) == old(SwapOut(State(), physical))
    {
      hide Take, Running, View, Consistent, Moves, Filled, FindUnused;
      ghost var s := State();
      SwapOutMoves(s, physical);
      if physical == 0 {
        return -1;
      }
      for i := 0 to SWAP_SLOTS
        invariant Valid() && State() == s
        invariant FindUnused(s.slots) == FindUnused(s.slots, i)
      {
        FindUnusedStep(s.slots, i);
        if !slots[i].used {
          SoundWhileConsistent(s);
          var backing := TakePage(pmm, ram);
          if backing == 0 {
            return -1;
          }
          CopyPage(pmm, ram, backing, physical);
          slots[i] := Slot(backing, true);
          assert slots[..] == s.slots[i := slots[i]];
          return i;
        }
      }
      FindUnusedEnd(s.slots);
      slot := -1;
    }

    method SwapPageIn(slot: nat, destination: nat) returns (restored: bool)
      requires Valid() && (destination != 0 ==> IsPage(destination))
      modifies slots, pmm, pmm.bitmap, ram.pages
      ensures Valid() && State() == old(SwapIn(State(), slot, destination)) && restored == old(Restorable(slots[..], slot, destination))
    {
      hide Running, View, Consistent, Moves, Contents, Filled, Held, Give;
      ghost var s := State();
      SwapInKeepsConsistent(s, slot, destination);
      if slot >= SWAP_SLOTS || !slots[slot].used || destination == 0 {
        return false;
      }
      BackingIsHeld(s, slot);
      CopyPage(pmm, ram, destination, slots[slot].backing);
      GivePage(pmm, ram, slots[slot].backing);
      slots[slot] := NoSlot;
      assert slots[..] == s.slots[slot := NoSlot];
      restored := true;
    }
  }

  lemma FindUnusedStep(slots: seq<Slot>, i: nat)
    requires i < |slots|
    ensures FindUnused(slots, i) == if slots[i].used then FindUnused(slots, i + 1) else i
  {
  }

  lemma FindUnusedEnd(slots: seq<Slot>)
    ensures FindUnused(slots, |slots|) == |slots|
  {
  }

  lemma SoundWhileConsistent(s: Swap)
    requires Consistent(s)
    ensures var (m, a) := Take(s.memory); if a == 0 then m == s.memory else IsPage(a)
    ensures Take(s.memory).0.ram == s.memory.ram && |s.memory.ram| == PAGE_COUNT
  {
    hide Take;
    TakeIsExact(s.memory);
  }
}
