/** Swap slots: page contents parked in backing pages until they are brought back. */
module Swap {
  import opened Bytes
  import opened Frames
  import opened Memory

  const SWAP_SLOTS := 16

  datatype Slot = Slot(backing: nat, used: bool)

  const NoSlot := Slot(0, false)

  datatype Swap = Swap(memory: Memory, slots: seq<Slot>)

  function FindUnused(slots: seq<Slot>, from: nat := 0): (r: nat)
    requires from <= |slots|
    ensures from <= r <= |slots|
    ensures r < |slots| ==> !slots[r].used
    ensures forall j | from <= j < r :: slots[j].used
    decreases |slots| - from
  {
    if from == |slots| || !slots[from].used then from else FindUnused(slots, from + 1)
  }

  /** The slot that now holds a copy of the page, or -1. */
  function SwapOut(s: Swap, physical: nat): (Swap, int) {
    var i, (m, a) := FindUnused(s.slots), Take(s.memory);
    if physical == 0 || i == |s.slots| || a == 0 then (s, -1 as int)
    else (Swap(Filled(m, a, Contents(s.memory, physical)), s.slots[i := Slot(a, true)]), i)
  }

  predicate Restorable(slots: seq<Slot>, slot: nat, destination: nat) {
    slot < |slots| && slots[slot].used && destination != 0
  }

  function SwapIn(s: Swap, slot: nat, destination: nat): Swap {
    if !Restorable(s.slots, slot, destination) then s
    else
      var backing := s.slots[slot].backing;
      Swap(Give(Filled(s.memory, destination, Contents(s.memory, backing)), backing), s.slots[slot := NoSlot])
  }

  // ---- what every call keeps ----

  function Backings(slots: seq<Slot>): (r: seq<nat>)
    ensures |r| == |slots| && forall i | 0 <= i < |slots| :: r[i] == slots[i].backing
  {
    seq(|slots|, i requires 0 <= i < |slots| => slots[i].backing)
  }

  ghost predicate Consistent(s: Swap) {
    && |s.slots| == SWAP_SLOTS
    && Owns(s.memory, Backings(s.slots))
    && forall i | 0 <= i < SWAP_SLOTS :: s.slots[i].used <==> s.slots[i].backing != 0
  }

  function Own(s: Swap): set<nat> {
    Held(Backings(s.slots))
  }

  /** A page that its owner may overwrite: neither free nor a backing page. */
  ghost predicate Foreign(s: Swap, address: nat) {
    IsPage(address) && PageOf(address) !in s.memory.free && PageOf(address) !in Own(s)
  }

  lemma BackingsOfUpdate(slots: seq<Slot>, i: nat, slot: Slot)
    requires i < |slots|
    ensures Backings(slots[i := slot]) == Backings(slots)[i := slot.backing]
  {
  }

  lemma BackingIsHeld(s: Swap, i: nat)
    requires Consistent(s) && i < SWAP_SLOTS && s.slots[i].used
    ensures IsPage(s.slots[i].backing) && PageOf(s.slots[i].backing) in Own(s) && PageOf(s.slots[i].backing) !in s.memory.free
    ensures forall j | 0 <= j < SWAP_SLOTS && j != i && s.slots[j].used :: PageOf(s.slots[j].backing) != PageOf(s.slots[i].backing)
  {
    var table := Backings(s.slots);
    assert table[i] == s.slots[i].backing;
    forall j | 0 <= j < SWAP_SLOTS && j != i && s.slots[j].used ensures PageOf(s.slots[j].backing) != PageOf(s.slots[i].backing) {
      assert table[j] == s.slots[j].backing;
    }
  }

  /** Swapping out moves one page from the free set to the table, or changes nothing. */
  lemma SwapOutMoves(s: Swap, physical: nat)
    requires Consistent(s)
    ensures var (s', i) := SwapOut(s, physical);
            && Consistent(s') && Moves(s.memory, Own(s), s'.memory, Own(s'))
            && (i < 0 <==> physical == 0 || s.memory.free == {} || forall j | 0 <= j < SWAP_SLOTS :: s.slots[j].used)
            && (i < 0 ==> s' == s)
  {
    hide FindUnused, Take, Held, Proper, Moves, Filled, Sound, Contents;
    var i := FindUnused(s.slots);
    NothingMoves(s.memory, Own(s));
    TakeIsExact(s.memory);
    if physical != 0 && i < SWAP_SLOTS && Take(s.memory).1 != 0 {
      TakeInto(s.memory, Backings(s.slots), i, Contents(s.memory, physical));
      BackingsOfUpdate(s.slots, i, Slot(Take(s.memory).1, true));
    }
  }

  /** Wherever a slot is swapped in to, the table stays consistent. */
  lemma SwapInKeepsConsistent(s: Swap, slot: nat, destination: nat)
    requires Consistent(s)
    ensures Consistent(SwapIn(s, slot, destination))
  {
    if Restorable(s.slots, slot, destination) {
      BackingIsHeld(s, slot);
      HeldAfterRemove(Backings(s.slots), slot);
      BackingsOfUpdate(s.slots, slot, NoSlot);
      hide Held, Proper;
    }
  }

  /** Swapping in writes only the destination page and frees the backing page. */
  lemma SwapInMoves(s: Swap, slot: nat, destination: nat)
    requires Consistent(s) && (destination != 0 ==> Foreign(s, destination))
    ensures var s' := SwapIn(s, slot, destination);
            && Consistent(s')
            && Moves(s.memory, Own(s) + {PageOf(destination)} - {0}, s'.memory, Own(s') + {PageOf(destination)} - {0})
            && (Restorable(s.slots, slot, destination) ==> Own(s') == Own(s) - {PageOf(s.slots[slot].backing)})
  {
    var own := Own(s) + {PageOf(destination)} - {0};
    if Restorable(s.slots, slot, destination) {
      BackingIsHeld(s, slot);
      HeldAfterRemove(Backings(s.slots), slot);
      BackingsOfUpdate(s.slots, slot, NoSlot);
      hide Held, Proper;
      assert Apart(s.memory, own);
      assert 0 !in Own(s) by { HeldIsNotZero(Backings(s.slots)); }
    } else {
      assert Apart(s.memory, own);
    }
  }

  /** Giving up a slot frees its backing page and nothing else. */
  lemma DropMoves(s: Swap, slot: nat)
    requires Consistent(s) && slot < SWAP_SLOTS && s.slots[slot].used
    ensures var s' := Swap(Give(s.memory, s.slots[slot].backing), s.slots[slot := NoSlot]);
            Consistent(s') && Moves(s.memory, Own(s), s'.memory, Own(s'))
  {
    hide Held, Proper, Moves, Give;
    GiveFrom(s.memory, Backings(s.slots), slot);
    BackingsOfUpdate(s.slots, slot, NoSlot);
  }

  lemma HeldIsNotZero(table: seq<nat>)
    requires Proper(table)
    ensures 0 !in Held(table)
  {
  }

  // ---- what a slot holds ----

  function Stored(s: Swap, slot: nat): Page
    requires slot < |s.slots|
  {
    Contents(s.memory, s.slots[slot].backing)
  }

  /** A slot as it was: still used, by the same page, with the same contents. */
  ghost predicate SlotKept(s: Swap, s': Swap, slot: nat) {
    && slot < |s.slots| == |s'.slots| && s'.slots[slot] == s.slots[slot] && Stored(s', slot) == Stored(s, slot)
  }

  lemma SwapOutStores(s: Swap, physical: nat)
    requires Consistent(s)
    ensures var (s', i) := SwapOut(s, physical);
            && (i >= 0 ==> i < SWAP_SLOTS == |s'.slots| && s'.slots[i].used && Stored(s', i) == Contents(s.memory, physical))
            && forall j | 0 <= j < SWAP_SLOTS && s.slots[j].used :: SlotKept(s, s', j)
  {
    hide FindUnused, Take;
    TakeIsExact(s.memory);
    forall j | 0 <= j < SWAP_SLOTS && s.slots[j].used ensures SlotKept(s, SwapOut(s, physical).0, j) {
      BackingIsHeld(s, j);
    }
  }

  lemma SwapInRestores(s: Swap, slot: nat, destination: nat)
    requires Consistent(s) && (destination != 0 ==> Foreign(s, destination))
    ensures var s' := SwapIn(s, slot, destination);
            && (Restorable(s.slots, slot, destination) ==> Contents(s'.memory, destination) == Stored(s, slot) && !s'.slots[slot].used)
            && forall j | 0 <= j < SWAP_SLOTS && j != slot && s.slots[j].used :: SlotKept(s, s', j)
  {
    hide Held;
    forall j | 0 <= j < SWAP_SLOTS && j != slot && s.slots[j].used ensures SlotKept(s, SwapIn(s, slot, destination), j) {
      BackingIsHeld(s, j);
    }
  }

  /** Nothing another owner of pages does reaches a slot. */
  lemma OthersKeepSlots(s: Swap, own: set<nat>, m: Memory, own': set<nat>)
    requires Consistent(s) && own !! Own(s) && Apart(s.memory, own) && Moves(s.memory, own, m, own')
    ensures Consistent(Swap(m, s.slots))
    ensures forall j | 0 <= j < SWAP_SLOTS && s.slots[j].used :: SlotKept(s, Swap(m, s.slots), j)
  {
    assert Apart(m, Own(s)) by {
      forall p | p in Own(s) ensures p !in m.free { assert p !in own + s.memory.free; }
    }
    forall j | 0 <= j < SWAP_SLOTS && s.slots[j].used ensures SlotKept(s, Swap(m, s.slots), j) {
      BackingIsHeld(s, j);
    }
  }

  // ---- runs ----

  /** Other owners' calls are represented by how they move pages. */
  datatype Event =
    | Out(physical: nat)
    | In(slot: nat, destination: nat)
    | Elsewhere(own: set<nat>, after: Memory, own': set<nat>)

  ghost predicate Legal(s: Swap, e: Event) {
    match e
    case Out(_) => true
    case In(_, destination) => destination != 0 ==> Foreign(s, destination)
    case Elsewhere(own, after, own') => own !! Own(s) && Apart(s.memory, own) && Moves(s.memory, own, after, own')
  }

  function Next(s: Swap, e: Event): Swap {
    match e
    case Out(physical) => SwapOut(s, physical).0
    case In(slot, destination) => SwapIn(s, slot, destination)
    case Elsewhere(_, after, _) => s.(memory := after)
  }

  function Run(s: Swap, events: seq<Event>): Swap
    decreases |events|
  {
    if events == [] then s else Run(Next(s, events[0]), events[1..])
  }

  ghost predicate LegalRun(s: Swap, events: seq<Event>)
    decreases |events|
  {
    events != [] ==> Legal(s, events[0]) && LegalRun(Next(s, events[0]), events[1..])
  }

  lemma NextKeepsSlot(s: Swap, e: Event, slot: nat)
    requires Consistent(s) && Legal(s, e) && slot < SWAP_SLOTS && s.slots[slot].used && !(e.In? && e.slot == slot)
    ensures Consistent(Next(s, e)) && SlotKept(s, Next(s, e), slot)
  {
    hide Consistent, SwapOut, SwapIn, Moves, SlotKept, Foreign, Apart, Own;
    match e
    case Out(physical) =>
      SwapOutMoves(s, physical);
      SwapOutStores(s, physical);
    case In(i, destination) =>
      SwapInMoves(s, i, destination);
      SwapInRestores(s, i, destination);
    case Elsewhere(own, after, own') =>
      OthersKeepSlots(s, own, after, own');
  }

  lemma {:induction false} SlotSurvives(s: Swap, events: seq<Event>, slot: nat)
    requires Consistent(s) && LegalRun(s, events) && slot < SWAP_SLOTS && s.slots[slot].used
    requires forall e | e in events :: !(e.In? && e.slot == slot)
    ensures Consistent(Run(s, events)) && SlotKept(s, Run(s, events), slot)
    decreases |events|
  {
    hide Legal, Next;
    if events != [] {
      assert events[0] in events;
      NextKeepsSlot(s, events[0], slot);
      SlotSurvives(Next(s, events[0]), events[1..], slot);
    }
  }

  /** A page swapped out comes back as it was, whatever happens to memory and to the other slots in between. */
  lemma SwapRoundTrip(s: Swap, physical: nat, events: seq<Event>, destination: nat)
    requires Consistent(s) && SwapOut(s, physical).1 >= 0
    requires LegalRun(SwapOut(s, physical).0, events) && forall e | e in events :: !(e.In? && e.slot == SwapOut(s, physical).1)
    requires destination != 0 && Foreign(Run(SwapOut(s, physical).0, events), destination)
    ensures var (s1, slot) := SwapOut(s, physical);
            var s2 := Run(s1, events);
            && Restorable(s2.slots, slot, destination)
            && Contents(SwapIn(s2, slot, destination).memory, destination) == Contents(s.memory, physical)
  {
    SwapOutMoves(s, physical);
    SwapOutStores(s, physical);
    hide SwapOut, SwapIn, Consistent, Foreign;
    var (s1, slot) := SwapOut(s, physical);
    SlotSurvives(s1, events, slot);
    SwapInRestores(Run(s1, events), slot, destination);
  }
}
