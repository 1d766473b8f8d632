/**
 Copy-on-write pages. Holders of a page share it by reference count; a write first resolves to a
 private copy. The point: to its holders this is indistinguishable from private pages.
 */
module CopyOnWrite {
  import opened Bytes
  import opened Frames
  import opened Memory

  const SLOTS := 128
  const MAX_REFERENCES := 0xFFFF

  datatype CowPage = CowPage(physical: nat, references: nat, active: bool)

  const NoPage := CowPage(0, 0, false)

  datatype Outcome = Outcome(memory: Memory, slots: seq<CowPage>, address: nat)

  function FindFreeSlot(slots: seq<CowPage>, from: nat := 0): (r: nat)
    requires from <= |slots|
    ensures from <= r <= |slots|
    ensures r < |slots| ==> !slots[r].active
    ensures forall j | from <= j < r :: slots[j].active
    decreases |slots| - from
  {
    if from == |slots| || !slots[from].active then from else FindFreeSlot(slots, from + 1)
  }

  function FindPage(slots: seq<CowPage>, physical: nat, from: nat := 0): (r: nat)
    requires from <= |slots|
    ensures from <= r <= |slots|
    ensures r < |slots| ==> slots[r].active && slots[r].physical == physical
    ensures forall j | from <= j < r :: !slots[j].active || slots[j].physical != physical
    decreases |slots| - from
  {
    if from == |slots| || (slots[from].active && slots[from].physical == physical) then from
    else FindPage(slots, physical, from + 1)
  }

  function Allocate(m: Memory, slots: seq<CowPage>): Outcome {
    var i, (m', a) := FindFreeSlot(slots), Take(m);
    if i == |slots| || a == 0 then Outcome(m, slots, 0)
    else Outcome(Filled(m', a, Zeros(PAGE_SIZE)), slots[i := CowPage(a, 1, true)], a)
  }

  predicate Clonable(slots: seq<CowPage>, physical: nat) {
    var i := FindPage(slots, physical);
    i < |slots| && slots[i].references != MAX_REFERENCES
  }

  function Clone(slots: seq<CowPage>, physical: nat): seq<CowPage> {
    var i := FindPage(slots, physical);
    if Clonable(slots, physical) then slots[i := slots[i].(references := slots[i].references + 1)] else slots
  }

  function ResolveWrite(m: Memory, slots: seq<CowPage>, physical: nat): Outcome {
    var i := FindPage(slots, physical);
    if i == |slots| then Outcome(m, slots, 0)
    else if slots[i].references <= 1 then Outcome(m, slots, physical)
    else
      var j, (m', a) := FindFreeSlot(slots), Take(m);
      if j == |slots| || a == 0 then Outcome(m, slots, 0)
      else Outcome(Filled(m', a, Contents(m, physical)),
                   slots[i := slots[i].(references := slots[i].references - 1)][j := CowPage(a, 1, true)], a)
  }

  function Release(m: Memory, slots: seq<CowPage>, physical: nat): (Memory, seq<CowPage>) {
    var i := FindPage(slots, physical);
    if i == |slots| || slots[i].references == 0 then (m, slots)
    else if slots[i].references == 1 then (Give(m, physical), slots[i := NoPage])
    else (m, slots[i := slots[i].(references := slots[i].references - 1)])
  }

  // ---- the table ----

  function Addresses(slots: seq<CowPage>): (r: seq<nat>)
    ensures |r| == |slots|
    ensures forall i | 0 <= i < |slots| :: r[i] == slots[i].physical
  {
    seq(|slots|, i requires 0 <= i < |slots| => slots[i].physical)
  }

  /** Every active slot holds its own page with at least one reference; inactive slots hold none. */
  ghost predicate Consistent(m: Memory, slots: seq<CowPage>) {
    && |slots| == SLOTS
    && Owns(m, Addresses(slots))
    && forall i | 0 <= i < SLOTS ::
         if slots[i].active then slots[i].physical != 0 && 1 <= slots[i].references <= MAX_REFERENCES else slots[i].physical == 0
  }

  lemma AddressesOfUpdate(slots: seq<CowPage>, i: nat, page: CowPage)
    requires i < |slots|
    ensures Addresses(slots[i := page]) == Addresses(slots)[i := page.physical]
  {
  }

  lemma AllocateMoves(m: Memory, slots: seq<CowPage>)
    requires Consistent(m, slots)
    ensures var r := Allocate(m, slots);
            && Consistent(r.memory, r.slots) && Moves(m, Held(Addresses(slots)), r.memory, Held(Addresses(r.slots)))
            && (r.address != 0 <==> m.free != {} && exists i :: 0 <= i < SLOTS && !slots[i].active)
            && (r.address == 0 ==> r.memory == m && r.slots == slots)
  {
    hide FindFreeSlot, Take, Held, Proper, Moves, Filled, Sound;
    TakeIsExact(m);
    var i := FindFreeSlot(slots);
    if i < SLOTS && Take(m).1 != 0 {
      TakeInto(m, Addresses(slots), i, Zeros(PAGE_SIZE));
      AddressesOfUpdate(slots, i, CowPage(Take(m).1, 1, true));
    } else {
      NothingMoves(m, Held(Addresses(slots)));
    }
  }

  lemma RecountKeeps(m: Memory, slots: seq<CowPage>, i: nat, references: nat)
    requires Consistent(m, slots) && i < SLOTS && slots[i].active && 1 <= references <= MAX_REFERENCES
    ensures var slots' := slots[i := slots[i].(references := references)];
            Consistent(m, slots') && Addresses(slots') == Addresses(slots)
  {
    hide Held, Proper, Sound;
    AddressesOfUpdate(slots, i, slots[i].(references := references));
    assert Addresses(slots)[i := slots[i].physical] == Addresses(slots);
  }

  lemma ResolveWriteMoves(m: Memory, slots: seq<CowPage>, physical: nat)
    requires Consistent(m, slots)
    ensures var r := ResolveWrite(m, slots, physical);
            && Consistent(r.memory, r.slots) && Moves(m, Held(Addresses(slots)), r.memory, Held(Addresses(r.slots)))
            && (r.address == 0 || r.address == physical ==> r.memory == m && r.slots == slots)
  {
    hide FindFreeSlot, FindPage, Take, Held, Proper, Moves, Filled, Contents, Apart;
    NothingMoves(m, Held(Addresses(slots)));
    var i := FindPage(slots, physical);
    if i < SLOTS && slots[i].references > 1 {
      RecountKeeps(m, slots, i, slots[i].references - 1);
      var slots1 := slots[i := slots[i].(references := slots[i].references - 1)];
      var j := FindFreeSlot(slots);
      if j < SLOTS && Take(m).1 != 0 {
        TakeInto(m, Addresses(slots1), j, Contents(m, physical));
        AddressesOfUpdate(slots1, j, CowPage(Take(m).1, 1, true));
        FreshIsNew(m, slots, i);
      }
    }
  }

  /** A page just taken is not one the table already holds. */
  lemma FreshIsNew(m: Memory, slots: seq<CowPage>, i: nat)
    requires Consistent(m, slots) && i < SLOTS && slots[i].active && Take(m).1 != 0
    ensures Take(m).1 != slots[i].physical && PageOf(Take(m).1) != PageOf(slots[i].physical)
  {
    hide Take;
    TakeIsExact(m);
    assert PageOf(slots[i].physical) in Held(Addresses(slots)) by { assert Addresses(slots)[i] == slots[i].physical; }
  }

  lemma ReleaseMoves(m: Memory, slots: seq<CowPage>, physical: nat)
    requires Consistent(m, slots)
    ensures var (m', slots') := Release(m, slots, physical);
            Consistent(m', slots') && Moves(m, Held(Addresses(slots)), m', Held(Addresses(slots')))
  {
    hide FindPage, Held, Proper, Moves, Apart, Give;
    NothingMoves(m, Held(Addresses(slots)));
    var i := FindPage(slots, physical);
    if i < SLOTS {
      if slots[i].references > 1 {
        RecountKeeps(m, slots, i, slots[i].references - 1);
      } else {
        GiveFrom(m, Addresses(slots), i);
        AddressesOfUpdate(slots, i, NoPage);
      }
    }
  }

  lemma CloneKeeps(m: Memory, slots: seq<CowPage>, physical: nat)
    requires Consistent(m, slots)
    ensures Consistent(m, Clone(slots, physical)) && Addresses(Clone(slots, physical)) == Addresses(slots)
  {
    hide FindPage, Held, Proper, Sound;
    var i := FindPage(slots, physical);
    if Clonable(slots, physical) { RecountKeeps(m, slots, i, slots[i].references + 1); }
  }
}
