/**
 Copy-on-write refines private copies. Clients name pages by handles; several handles may share one
 physical page. To the clients every handle has bytes of its own, and a write through one handle
 changes that handle's bytes alone.
 */
module PrivateCopies {
  import opened Bytes
  import opened Frames
  import opened Memory
  import opened CopyOnWrite
  import opened Handles

  datatype Client = Client(memory: Memory, slots: seq<CowPage>, handles: map<nat, nat>)

  datatype Call =
    | New(handle: nat)
    | Copy(handle: nat, copy: nat)
    | Write(handle: nat, offset: nat, value: byte)
    | Drop(handle: nat)

  /** One client call on the manager; the flag tells whether it succeeded. */
  function Step(c: Client, call: Call): (Client, bool) {
    match call
    case New(h) =>
      var r := Allocate(c.memory, c.slots);
      if h in c.handles || r.address == 0 then (c, false)
      else (Client(r.memory, r.slots, c.handles[h := r.address]), true)
    case Copy(h, h') =>
      if h !in c.handles || h' in c.handles || !Clonable(c.slots, c.handles[h]) then (c, false)
      else (Client(c.memory, Clone(c.slots, c.handles[h]), c.handles[h' := c.handles[h]]), true)
    case Write(h, offset, value) =>
      if h !in c.handles || offset >= PAGE_SIZE then (c, false)
      else
        var r := ResolveWrite(c.memory, c.slots, c.handles[h]);
        if r.address == 0 then (c.(memory := r.memory, slots := r.slots), false)
        else (Client(Stored(r.memory, r.address, offset, value), r.slots, c.handles[h := r.address]), true)
    case Drop(h) =>
      if h !in c.handles then (c, false)
      else
        var (m, slots) := Release(c.memory, c.slots, c.handles[h]);
        (Client(m, slots, c.handles - {h}), true)
  }

  /** A byte stored in a page. */
  function Stored(m: Memory, address: nat, offset: nat, value: byte): (r: Memory)
    requires offset < PAGE_SIZE
  {
    Filled(m, address, Contents(m, address)[offset := value])
  }

  // ---- the specification: private pages ----

  function Private(v: map<nat, Page>, call: Call): map<nat, Page> {
    match call
    case New(h) => v[h := Zeros(PAGE_SIZE)]
    case Copy(h, h') => if h in v then v[h' := v[h]] else v
    case Write(h, offset, value) => if h in v && offset < PAGE_SIZE then v[h := v[h][offset := value]] else v
    case Drop(h) => v - {h}
  }

  /** The bytes each handle shows. */
  function View(c: Client): map<nat, Page> {
    map h | h in c.handles :: Contents(c.memory, c.handles[h])
  }

  /** Each slot's reference count is its number of handles, and every handle has a slot. */
  ghost predicate Counted(c: Client) {
    && Consistent(c.memory, c.slots)
    && (forall i | 0 <= i < SLOTS && c.slots[i].active :: c.slots[i].references == |Holders(c.handles, c.slots[i].physical)|)
    && (forall h | h in c.handles :: FindPage(c.slots, c.handles[h]) < SLOTS)
  }

  /** What the invariant says about one handle. */
  lemma HandleHasSlot(c: Client, h: nat)
    requires Counted(c) && h in c.handles
    ensures var i := FindPage(c.slots, c.handles[h]);
            && i < SLOTS && c.slots[i].active && c.slots[i].physical == c.handles[h]
            && c.slots[i].references == |Holders(c.handles, c.handles[h])|
            && IsPage(c.handles[h]) && PageOf(c.handles[h]) !in c.memory.free
            && h in Holders(c.handles, c.handles[h])
  {
    SlotHoldsPage(c.memory, c.slots, FindPage(c.slots, c.handles[h]));
  }

  lemma SlotHoldsPage(m: Memory, slots: seq<CowPage>, i: nat)
    requires Consistent(m, slots) && i < SLOTS && slots[i].active
    ensures IsPage(slots[i].physical) && PageOf(slots[i].physical) !in m.free
    ensures forall j | 0 <= j < SLOTS && slots[j].active && slots[j].physical == slots[i].physical :: j == i
  {
    var table := Addresses(slots);
    assert table[i] == slots[i].physical && PageOf(table[i]) in Held(table);
    forall j | 0 <= j < SLOTS && slots[j].active && slots[j].physical == slots[i].physical ensures j == i {
      assert table[j] == table[i];
    }
  }

  /** A page taken from the free set is nobody's. */
  lemma TakenIsUnheld(c: Client)
    requires Counted(c) && Take(c.memory).1 != 0
    ensures var a := Take(c.memory).1;
            && IsPage(a) && Holders(c.handles, a) == {}
            && (forall h | h in c.handles :: c.handles[h] != a && PageOf(c.handles[h]) != PageOf(a))
            && (forall i | 0 <= i < SLOTS && c.slots[i].active :: c.slots[i].physical != a)
  {
    hide Take, Held;
    TakeIsExact(c.memory);
    forall h | h in c.handles ensures PageOf(c.handles[h]) != PageOf(Take(c.memory).1) { HandleHasSlot(c, h); }
    forall i | 0 <= i < SLOTS && c.slots[i].active ensures c.slots[i].physical != Take(c.memory).1 { SlotHoldsPage(c.memory, c.slots, i); }
  }

  lemma NewCounts(c: Client, h: nat)
    requires Counted(c) && h !in c.handles && Allocate(c.memory, c.slots).address != 0
    ensures Counted(Step(c, New(h)).0)
  {
    hide Take, Held, Proper, Holders, Moves, Owns, Filled;
    AllocateMoves(c.memory, c.slots);
    TakenIsUnheld(c);
    HoldersAfterSet(c.handles, h, Take(c.memory).1);
    NotAHolder(c.handles, h);
    AllocatedIsFound(c);
  }

  lemma NewShows(c: Client, h: nat)
    requires Counted(c) && h !in c.handles && Allocate(c.memory, c.slots).address != 0
    ensures View(Step(c, New(h)).0) == Private(View(c), New(h))
  {
    hide Held, Proper, Holders, Owns, Counted, FindFreeSlot, FirstFit;
    TakenIsUnheld(c);
    MemoryIsSound(c);
  }

  lemma MemoryIsSound(c: Client)
    requires Counted(c)
    ensures Sound(c.memory)
  {
  }

  lemma AllocatedIsFound(c: Client)
    requires Counted(c) && Allocate(c.memory, c.slots).address != 0
    ensures var r := Allocate(c.memory, c.slots);
            && FindPage(r.slots, r.address) < |r.slots|
            && forall h | h in c.handles :: FindPage(r.slots, c.handles[h]) < |r.slots|
  {
    hide Take, Held, Proper, Holders, Moves, Apart;
    var r := Allocate(c.memory, c.slots);
    assert r.slots[FindFreeSlot(c.slots)].physical == r.address;
    forall h | h in c.handles ensures FindPage(r.slots, c.handles[h]) < |r.slots| {
      assert r.slots[FindPage(c.slots, c.handles[h])] == c.slots[FindPage(c.slots, c.handles[h])];
    }
  }

  /** Slots that are still active with the same page are found after an update elsewhere. */
  lemma StillFound(slots: seq<CowPage>, slots': seq<CowPage>, physical: nat)
    requires |slots'| == |slots| && FindPage(slots, physical) < |slots|
    requires var i := FindPage(slots, physical); slots'[i].active && slots'[i].physical == physical
    ensures FindPage(slots', physical) < |slots|
  {
  }

  lemma CopyCounts(c: Client, h: nat, h': nat)
    requires Counted(c) && h in c.handles && h' !in c.handles && Clonable(c.slots, c.handles[h])
    ensures Counted(Step(c, Copy(h, h')).0)
  {
    hide Held, Proper, Holders, Owns, FindPage;
    HandleHasSlot(c, h);
    var i := FindPage(c.slots, c.handles[h]);
    RecountKeeps(c.memory, c.slots, i, c.slots[i].references + 1);
    HoldersAfterSet(c.handles, h', c.handles[h]);
    NotAHolder(c.handles, h');
    SlotHoldsPage(c.memory, c.slots, i);
    var slots' := Clone(c.slots, c.handles[h]);
    forall g | g in c.handles ensures FindPage(slots', c.handles[g]) < SLOTS {
      HandleHasSlot(c, g);
      StillFound(c.slots, slots', c.handles[g]);
    }
  }

  lemma CopyShows(c: Client, h: nat, h': nat)
    requires h in c.handles && h' !in c.handles && Clonable(c.slots, c.handles[h])
    ensures View(Step(c, Copy(h, h')).0) == Private(View(c), Copy(h, h'))
  {
  }

  lemma StoreKeepsConsistent(m: Memory, slots: seq<CowPage>, address: nat, offset: nat, value: byte)
    requires Consistent(m, slots) && offset < PAGE_SIZE
    ensures Consistent(Stored(m, address, offset, value), slots)
  {
    hide Held, Proper, Contents;
  }

  /** Writing through the only handle of a page. */
  lemma WriteOwnPage(c: Client, h: nat, offset: nat, value: byte)
    requires Counted(c) && h in c.handles && offset < PAGE_SIZE
    requires c.slots[FindPage(c.slots, c.handles[h])].references == 1
    ensures var (c', ok) := Step(c, Write(h, offset, value));
            ok && Counted(c') && View(c') == Private(View(c), Write(h, offset, value))
  {
    hide Held, Proper, Holders, FindPage, Owns, Take, FindFreeSlot;
    HandleHasSlot(c, h);
    SingleHolder(c.handles, h);
    StoreKeepsConsistent(c.memory, c.slots, c.handles[h], offset, value);
    assert c.handles[h := c.handles[h]] == c.handles;
    MemoryIsSound(c);
    hide Consistent;
    forall g | g in c.handles && g != h ensures PageOf(c.handles[g]) != PageOf(c.handles[h]) {
      HandleHasSlot(c, g);
    }
  }

  /** Writing through one of several handles first gives that handle a page of its own. */
  lemma WriteSharedCounts(c: Client, h: nat, offset: nat, value: byte)
    requires Counted(c) && h in c.handles && offset < PAGE_SIZE
    requires c.slots[FindPage(c.slots, c.handles[h])].references > 1
    requires FindFreeSlot(c.slots) < SLOTS && Take(c.memory).1 != 0
    ensures Step(c, Write(h, offset, value)).1 && Counted(Step(c, Write(h, offset, value)).0)
  {
    hide Held, Proper, Holders, FindPage, Owns, Take, FindFreeSlot, Filled, Contents, Moves;
    HandleHasSlot(c, h);
    TakenIsUnheld(c);
    var old', a := c.handles[h], Take(c.memory).1;
    var i, j := FindPage(c.slots, old'), FindFreeSlot(c.slots);
    ResolveWriteMoves(c.memory, c.slots, old');
    var r := ResolveWrite(c.memory, c.slots, old');
    StoreKeepsConsistent(r.memory, r.slots, a, offset, value);
    HoldersAfterSet(c.handles, h, a);
    SlotHoldsPage(c.memory, c.slots, i);
    OtherHolders(c.handles, h);
    assert r.slots[j].physical == a && r.slots[j].active;
    var handles' := c.handles[h := a];
    forall g | g in handles' ensures FindPage(r.slots, handles'[g]) < SLOTS {
      if g == h {
        FoundAt(r.slots, j);
      } else {
        HandleHasSlot(c, g);
        StillFound(c.slots, r.slots, c.handles[g]);
      }
    }
  }

  lemma FoundAt(slots: seq<CowPage>, i: nat)
    requires i < |slots| && slots[i].active
    ensures FindPage(slots, slots[i].physical) < |slots|
  {
  }

  lemma WriteSharedShows(c: Client, h: nat, offset: nat, value: byte)
    requires Counted(c) && h in c.handles && offset < PAGE_SIZE
    requires c.slots[FindPage(c.slots, c.handles[h])].references > 1
    requires FindFreeSlot(c.slots) < SLOTS && Take(c.memory).1 != 0
    ensures View(Step(c, Write(h, offset, value)).0) == Private(View(c), Write(h, offset, value))
  {
    hide Held, Proper, Holders, FindPage, Owns, FindFreeSlot, FirstFit;
    HandleHasSlot(c, h);
    TakenIsUnheld(c);
    MemoryIsSound(c);
    hide Counted;
  }

  lemma DropCounts(c: Client, h: nat)
    requires Counted(c) && h in c.handles
    ensures Counted(Step(c, Drop(h)).0)
  {
    hide Held, Proper, Holders, FindPage, Owns, Give, Moves;
    HandleHasSlot(c, h);
    var physical := c.handles[h];
    var i := FindPage(c.slots, physical);
    ReleaseMoves(c.memory, c.slots, physical);
    HoldersAfterDrop(c.handles, h);
    OtherHolders(c.handles, h);
    SlotHoldsPage(c.memory, c.slots, i);
    var slots' := Release(c.memory, c.slots, physical).1;
    if c.slots[i].references == 1 { SingleHolder(c.handles, h); }
    forall g | g in c.handles && g != h ensures FindPage(slots', c.handles[g]) < SLOTS {
      HandleHasSlot(c, g);
      StillFound(c.slots, slots', c.handles[g]);
    }
  }

  lemma DropShows(c: Client, h: nat)
    requires Counted(c) && h in c.handles
    ensures View(Step(c, Drop(h)).0) == Private(View(c), Drop(h))
  {
    hide FindPage, Counted;
  }

  /**
   Copy-on-write is private copies: a call that succeeds does to the handles' bytes exactly what it
   would do to private pages, and one that fails changes nothing at all.
   */
  lemma StepRefines(c: Client, call: Call)
    requires Counted(c)
    ensures var (c', ok) := Step(c, call);
            && Counted(c')
            && View(c') == (if ok then Private(View(c), call) else View(c))
            && (!ok ==> c' == c)
  {
    hide Counted, View, Take, FindPage, FindFreeSlot, Private;
    match call
    case New(h) =>
      if Step(c, call).1 { NewCounts(c, h); NewShows(c, h); }
    case Copy(h, h') =>
      if Step(c, call).1 { CopyCounts(c, h, h'); CopyShows(c, h, h'); }
    case Drop(h) =>
      if Step(c, call).1 { DropCounts(c, h); DropShows(c, h); }
    case Write(h, offset, value) =>
      if h in c.handles && offset < PAGE_SIZE {
        WriteOutcome(c, h, offset, value);
        var i := FindPage(c.slots, c.handles[h]);
        if c.slots[i].references == 1 {
          WriteOwnPage(c, h, offset, value);
        } else if FindFreeSlot(c.slots) < SLOTS && Take(c.memory).1 != 0 {
          WriteSharedCounts(c, h, offset, value);
          WriteSharedShows(c, h, offset, value);
        }
      }
  }

  /** A write succeeds exactly when its page is unshared, or a slot and a page for the copy are available. */
  lemma WriteOutcome(c: Client, h: nat, offset: nat, value: byte)
    requires Counted(c) && h in c.handles && offset < PAGE_SIZE
    ensures FindPage(c.slots, c.handles[h]) < SLOTS == |c.slots| && c.slots[FindPage(c.slots, c.handles[h])].references >= 1
    ensures var (c', ok) := Step(c, Write(h, offset, value));
            && (ok <==> c.slots[FindPage(c.slots, c.handles[h])].references == 1 || (FindFreeSlot(c.slots) < SLOTS && Take(c.memory).1 != 0))
            && (!ok ==> c' == c)
  {
    hide Take, FindFreeSlot;
    HandleHasSlot(c, h);
  }

  /** A new handle is had exactly if a page and a slot are free. */
  lemma NewSucceedsExactly(c: Client, h: nat)
    requires Counted(c) && h !in c.handles
    ensures Step(c, New(h)).1 <==> c.memory.free != {} && exists i :: 0 <= i < SLOTS && !c.slots[i].active
  {
    hide Moves, Held, Proper;
    AllocateMoves(c.memory, c.slots);
  }

  /** A page is cloned exactly if fewer than 65535 handles are on it. */
  lemma CopySucceedsExactly(c: Client, h: nat, h': nat)
    requires Counted(c) && h in c.handles && h' !in c.handles
    ensures Step(c, Copy(h, h')).1 <==> |Holders(c.handles, c.handles[h])| < MAX_REFERENCES
  {
    hide FindPage, Holders;
    HandleHasSlot(c, h);
  }

  // ---- runs ----

  /** The manager's calls, and other owners' calls, which are represented by how they move pages. */
  datatype Event =
    | Do(call: Call)
    | Elsewhere(own: set<nat>, after: Memory, own': set<nat>)

  ghost predicate Legal(c: Client, e: Event) {
    match e
    case Do(_) => true
    case Elsewhere(own, after, own') => own !! Held(Addresses(c.slots)) && Apart(c.memory, own) && Moves(c.memory, own, after, own')
  }

  function Next(c: Client, e: Event): Client {
    match e
    case Do(call) => Step(c, call).0
    case Elsewhere(_, after, _) => c.(memory := after)
  }

  /** What an event does to private pages: a failed call and other owners' calls do nothing. */
  function PrivateNext(c: Client, v: map<nat, Page>, e: Event): map<nat, Page> {
    if e.Do? && Step(c, e.call).1 then Private(v, e.call) else v
  }

  /** Nothing another owner of pages does reaches a handle. */
  lemma OthersKeepView(c: Client, own: set<nat>, m: Memory, own': set<nat>)
    requires Counted(c) && Legal(c, Elsewhere(own, m, own'))
    ensures Counted(c.(memory := m)) && View(c.(memory := m)) == View(c)
  {
    var c', mine := c.(memory := m), Held(Addresses(c.slots));
    assert Apart(m, mine) by {
      forall p | p in mine ensures p !in m.free { assert p !in own + c.memory.free; }
    }
    hide Held, Proper, FindPage;
    forall h | h in c.handles ensures Contents(m, c.handles[h]) == Contents(c.memory, c.handles[h]) {
      HandleHasSlot(c, h);
      SlotIsHeld(c.slots, FindPage(c.slots, c.handles[h]));
    }
  }

  lemma SlotIsHeld(slots: seq<CowPage>, i: nat)
    requires i < |slots| && slots[i].physical != 0
    ensures PageOf(slots[i].physical) in Held(Addresses(slots))
  {
    assert Addresses(slots)[i] == slots[i].physical;
  }

  function Run(c: Client, events: seq<Event>): Client {
    if events == [] then c else Next(Run(c, events[..|events| - 1]), events[|events| - 1])
  }

  ghost predicate LegalRun(c: Client, events: seq<Event>) {
    events != [] ==> LegalRun(c, events[..|events| - 1]) && Legal(Run(c, events[..|events| - 1]), events[|events| - 1])
  }

  /** The same run on private pages, following which calls succeeded. */
  function PrivateRun(c: Client, events: seq<Event>): map<nat, Page> {
    if events == [] then View(c)
    else
      var before := events[..|events| - 1];
      PrivateNext(Run(c, before), PrivateRun(c, before), events[|events| - 1])
  }

  /** Over every run the handles show exactly what private pages would, whatever other owners do to memory in between. */
  lemma {:induction false} RunRefines(c: Client, events: seq<Event>)
    requires Counted(c) && LegalRun(c, events)
    ensures Counted(Run(c, events)) && View(Run(c, events)) == PrivateRun(c, events)
  {
    hide Step, Counted, View, Private, Legal;
    if events != [] {
      var before, e := events[..|events| - 1], events[|events| - 1];
      RunRefines(c, before);
      match e
      case Do(call) => StepRefines(Run(c, before), call);
      case Elsewhere(own, after, own') => OthersKeepView(Run(c, before), own, after, own');
    }
  }

  /** The manager starts in such a state, whatever the memory. */
  lemma InitiallyCounted(m: Memory)
    requires Sound(m)
    ensures Counted(Client(m, seq(SLOTS, _ => NoPage), map[])) && View(Client(m, seq(SLOTS, _ => NoPage), map[])) == map[]
  {
  }
}
