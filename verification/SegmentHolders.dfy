/**
 Shared segments from their holders' side. Each successful creation or attachment makes a handle, each
 release gives one up. A segment's reference count is its number of handles, it keeps its pages and
 their contents as long as there is one, and its pages are freed with the last.
 */
module SegmentHolders {
  import opened Bytes
  import opened Frames
  import opened Memory
  import opened SharedMemory
  import opened Handles

  datatype Client = Client(shared: Shared, handles: map<nat, nat>)

  datatype Call =
    | New(handle: nat, pages: nat)
    | Join(handle: nat, id: nat)
    | Leave(handle: nat)

  /** One client call on the manager; the flag tells whether it succeeded. */
  function Step(c: Client, call: Call): (Client, bool) {
    match call
    case New(h, pages) =>
      var (s, id) := Create(c.shared, pages);
      if h in c.handles then (c, false)
      else if id == 0 then (c.(shared := s), false)
      else (Client(s, c.handles[h := id]), true)
    case Join(h, id) =>
      if h in c.handles || !Attachable(c.shared.segments, id) then (c, false)
      else (Client(Attach(c.shared, id), c.handles[h := id]), true)
    case Leave(h) =>
      if h !in c.handles then (c, false)
      else (Client(Release(c.shared, c.handles[h]), c.handles - {h}), true)
  }

  // ---- counts are numbers of holders ----

  /** An active segment has as many references as handles, and every handle is on an active segment. */
  ghost predicate Counted(c: Client) {
    Consistent(c.shared) && CountsRight(c.shared.segments, c.handles) && AllNamed(c.shared.segments, c.handles)
  }

  ghost predicate CountsRight(segments: seq<Segment>, handles: map<nat, nat>) {
    forall i | 0 <= i < |segments| && segments[i].active :: segments[i].references == |Holders(handles, segments[i].id)|
  }

  ghost predicate AllNamed(segments: seq<Segment>, handles: map<nat, nat>) {
    forall h | h in handles :: exists i :: 0 <= i < |segments| && Names(segments[i], handles[h])
  }

  predicate Names(g: Segment, id: nat) {
    g.active && g.id == id
  }

  lemma FindsSegment(s: Shared, i: nat)
    requires Consistent(s) && i < SEGMENTS && s.segments[i].active
    ensures FindSegment(s.segments, s.segments[i].id) == i
  {
    hide Held, HeldIn, OwnsRows;
  }

  /** The segment a handle is on, by its slot. */
  ghost function SlotOf(c: Client, h: nat): (i: nat)
    requires Counted(c) && h in c.handles
    ensures i < SEGMENTS && c.shared.segments[i].active && c.shared.segments[i].id == c.handles[h]
    ensures i == FindSegment(c.shared.segments, c.handles[h])
  {
    hide Consistent, FindSegment;
    var i :| 0 <= i < SEGMENTS && Names(c.shared.segments[i], c.handles[h]);
    FindsSegment(c.shared, i);
    i
  }

  /** A new segment: an id nobody has, one reference, and zeroed pages; every active segment stays. */
  lemma CreateEffect(s: Shared, pageCount: nat)
    requires Consistent(s)
    ensures var (s', id), i := Create(s, pageCount), FindFreeSegment(s.segments);
            && Consistent(s') && s'.memory.free <= s.memory.free
            && (forall p | 0 <= p < PAGE_COUNT && p !in s.memory.free :: s'.memory.ram[p] == s.memory.ram[p])
            && s'.nextId == s.nextId + (if 0 < pageCount <= SEGMENT_PAGES && i < SEGMENTS then 1 else 0)
            && (id == 0 ==> forall j | 0 <= j < SEGMENTS && (s.segments[j].active || s'.segments[j].active) :: s'.segments[j] == s.segments[j])
            && (id != 0 ==> id == s.nextId && i < SEGMENTS && !s.segments[i].active && s'.segments == s.segments[i := s'.segments[i]]
                            && s'.segments[i] == Segment(id, pageCount, s'.segments[i].pages, 1, true)
                            && |s'.segments[i].pages| == SEGMENT_PAGES >= pageCount
                            && forall j | 0 <= j < pageCount :: Contents(s'.memory, s'.segments[i].pages[j]) == Zeros(PAGE_SIZE))
  {
    hide FindFreeSegment, TakePages, Held, Proper, HeldIn;
    CreateMoves(s, pageCount);
    assert Sound(s.memory) by { assert Apart(s.memory, Own(s)); }
    assert |s.segments| == SEGMENTS && s.nextId > 0 && forall j | 0 <= j < SEGMENTS && !s.segments[j].active :: !NoSegment.active;
    hide Consistent;
    var i := FindFreeSegment(s.segments);
    var (m, taken) := TakePages(s.memory, pageCount);
    var (s', id) := Create(s, pageCount);
    if 0 < pageCount <= SEGMENT_PAGES && i < SEGMENTS {
      TakenPages(s.memory, pageCount);
      TakenAreZero(s.memory, pageCount);
      assert id != 0 ==> taken + Padding(SEGMENT_PAGES - pageCount) == s'.segments[i].pages;
    }
  }

  lemma TakenPages(m: Memory, n: nat)
    requires Sound(m)
    ensures var (m', taken) := TakePages(m, n);
            && Held(taken) <= m.free && m'.free == m.free - Held(taken) && |m'.ram| == PAGE_COUNT
            && forall p | 0 <= p < PAGE_COUNT && p !in m.free :: m'.ram[p] == m.ram[p]
  {
    hide TakePages, Held, Proper;
    TakePagesMoves(m, {}, n);
  }

  /** A fresh id: no handle has it. */
  lemma FreshId(c: Client)
    requires Counted(c)
    ensures Holders(c.handles, c.shared.nextId) == {}
  {
    hide OwnsRows;
    forall h | h in c.handles ensures c.handles[h] != c.shared.nextId {
      var i := SlotOf(c, h);
      assert WellFormed(c.shared.segments[i], c.shared.nextId);
    }
  }

  lemma IdsDiffer(s: Shared, i: nat, j: nat)
    requires Consistent(s) && i < SEGMENTS && j < SEGMENTS && i != j && s.segments[i].active && s.segments[j].active
    ensures s.segments[i].id != s.segments[j].id
  {
  }

  lemma ReferencesInRange(s: Shared, i: nat)
    requires Consistent(s) && i < SEGMENTS && s.segments[i].active
    ensures 0 < s.segments[i].id < s.nextId && 1 <= s.segments[i].references <= MAX_REFERENCES
  {
    assert WellFormed(s.segments[i], s.nextId);
  }

  /** One segment and the handles on it change together. */
  lemma UpdateCounts(segments: seq<Segment>, handles: map<nat, nat>, i: nat, g: Segment, handles': map<nat, nat>)
    requires CountsRight(segments, handles) && i < |segments| && (g.active ==> g.references == |Holders(handles', g.id)|)
    requires forall j | 0 <= j < |segments| && j != i && segments[j].active :: Holders(handles', segments[j].id) == Holders(handles, segments[j].id)
    ensures CountsRight(segments[i := g], handles')
  {
  }

  lemma UpdateNames(segments: seq<Segment>, handles: map<nat, nat>, i: nat, g: Segment, handles': map<nat, nat>)
    requires AllNamed(segments, handles) && i < |segments|
    requires forall h | h in handles' :: Names(g, handles'[h]) || (h in handles && handles'[h] == handles[h] && !Names(segments[i], handles[h]))
    ensures AllNamed(segments[i := g], handles')
  {
    var after := segments[i := g];
    forall h | h in handles' ensures exists j :: 0 <= j < |after| && Names(after[j], handles'[h]) {
      if Names(g, handles'[h]) {
        assert Names(after[i], handles'[h]);
      } else {
        var j :| 0 <= j < |segments| && Names(segments[j], handles[h]);
        assert Names(after[j], handles'[h]);
      }
    }
  }

  lemma NewCounts(c: Client, h: nat, pages: nat)
    requires Counted(c) && h !in c.handles
    ensures Counted(Step(c, New(h, pages)).0)
  {
    hide Consistent, FindFreeSegment, FindSegment, Holders, CountsRight, AllNamed;
    CountIs(c.shared);
    var s, i := c.shared, FindFreeSegment(c.shared.segments);
    var (s', id) := Create(s, pages);
    CreateEffect(s, pages);
    if s' != s {
      var handles' := if id != 0 then c.handles[h := id] else c.handles;
      FreshId(c);
      HoldersAfterSet(c.handles, h, id);
      NotAHolder(c.handles, h);
      forall j | 0 <= j < SEGMENTS && s.segments[j].active ensures s.segments[j].id != s.nextId { ReferencesInRange(s, j); }
      UpdateCounts(s.segments, c.handles, i, s'.segments[i], handles');
      UpdateNames(s.segments, c.handles, i, s'.segments[i], handles');
    }
  }

  lemma JoinCounts(c: Client, h: nat, id: nat)
    requires Counted(c) && h !in c.handles && Attachable(c.shared.segments, id)
    ensures Counted(Step(c, Join(h, id)).0)
  {
    hide Consistent, FindSegment, Holders, CountsRight, AllNamed;
    CountIs(c.shared);
    var s, i := c.shared, FindSegment(c.shared.segments, id);
    AttachKeeps(s, id);
    HoldersAfterSet(c.handles, h, id);
    NotAHolder(c.handles, h);
    RightAt(s.segments, c.handles, i);
    forall j | 0 <= j < SEGMENTS && s.segments[j].active && j != i ensures s.segments[j].id != id { IdsDiffer(s, i, j); }
    var g := s.segments[i].(references := s.segments[i].references + 1);
    UpdateCounts(s.segments, c.handles, i, g, c.handles[h := id]);
    UpdateNames(s.segments, c.handles, i, g, c.handles[h := id]);
  }

  lemma RightAt(segments: seq<Segment>, handles: map<nat, nat>, i: nat)
    requires CountsRight(segments, handles) && i < |segments| && segments[i].active
    ensures segments[i].references == |Holders(handles, segments[i].id)|
  {
  }

  lemma LeaveCounts(c: Client, h: nat)
    requires Counted(c) && h in c.handles
    ensures Counted(Step(c, Leave(h)).0)
  {
    hide Consistent, FindSegment, Moves, Held, CountsRight, AllNamed;
    CountIs(c.shared);
    var s, id, i := c.shared, c.handles[h], SlotOf(c, h);
    ReleaseMoves(s, id);
    HoldersAfterDrop(c.handles, h);
    OtherHolders(c.handles, h);
    RightAt(s.segments, c.handles, i);
    assert h in Holders(c.handles, id);
    ReferencesInRange(s, i);
    if s.segments[i].references == 1 { SingleHolder(c.handles, h); }
    forall j | 0 <= j < SEGMENTS && s.segments[j].active && j != i ensures s.segments[j].id != id { IdsDiffer(s, i, j); }
    hide Holders;
    var g := if s.segments[i].references == 1 then NoSegment else s.segments[i].(references := s.segments[i].references - 1);
    UpdateCounts(s.segments, c.handles, i, g, c.handles - {h});
    UpdateNames(s.segments, c.handles, i, g, c.handles - {h});
  }

  /** Every call keeps counts equal to numbers of holders. */
  lemma StepCounts(c: Client, call: Call)
    requires Counted(c)
    ensures Counted(Step(c, call).0)
  {
    hide Counted, Create, Attach, Release, Attachable;
    match call
    case New(h, pages) => if h !in c.handles { NewCounts(c, h, pages); }
    case Join(h, id) => if h !in c.handles && Attachable(c.shared.segments, id) { JoinCounts(c, h, id); }
    case Leave(h) => if h in c.handles { LeaveCounts(c, h); }
  }

  /** A segment is created exactly for one to four pages, if that many are free and a slot is. */
  lemma NewSucceedsExactly(c: Client, h: nat, pages: nat)
    requires Counted(c) && h !in c.handles
    ensures |c.shared.segments| == SEGMENTS
    ensures Step(c, New(h, pages)).1 <==>
              0 < pages <= SEGMENT_PAGES && pages <= |c.shared.memory.free| && exists i :: 0 <= i < SEGMENTS && !c.shared.segments[i].active
  {
    hide Moves, Create;
    CountIs(c.shared);
    CreateMoves(c.shared, pages);
    hide Consistent;
  }

  /** Attaching succeeds exactly if somebody holds the segment, and not 65535 do. */
  lemma JoinSucceedsExactly(c: Client, h: nat, id: nat)
    requires Counted(c) && h !in c.handles
    ensures Step(c, Join(h, id)).1 <==> 0 < |Holders(c.handles, id)| < MAX_REFERENCES
  {
    hide Consistent;
    var i := FindSegment(c.shared.segments, id);
    assert |c.shared.segments| == SEGMENTS by { CountIs(c.shared); }
    if i < SEGMENTS {
      ReferencesInRange(c.shared, i);
    } else {
      forall g | g in c.handles ensures c.handles[g] != id { var j := SlotOf(c, g); }
      assert Holders(c.handles, id) == {};
    }
  }

  lemma CountIs(s: Shared)
    requires Consistent(s)
    ensures |s.segments| == SEGMENTS
  {
  }

  /** Giving up a handle frees the segment's pages if it was the last one, and nothing otherwise. */
  lemma LeaveFreesExactly(c: Client, h: nat)
    requires Counted(c) && h in c.handles
    ensures var c', g := Step(c, Leave(h)).0, c.shared.segments[SlotOf(c, h)];
            && c'.shared.memory.free == c.shared.memory.free + (if Holders(c.handles, c.handles[h]) == {h} then Held(g.pages) else {})
            && c'.shared.memory.ram == c.shared.memory.ram
  {
    hide FindSegment, Held, Moves;
    ReleaseMoves(c.shared, c.handles[h]);
    var i, holders := SlotOf(c, h), Holders(c.handles, c.handles[h]);
    assert h in holders;
    if |holders| == 1 { assert |holders - {h}| == 0; assert holders == {h}; }
  }

  // ---- what a holder has ----

  /** The handle's segment is where it was, with the same id, pages and contents. */
  ghost predicate Kept(c: Client, c': Client, h: nat)
    requires Counted(c) && Counted(c') && h in c.handles
  {
    && h in c'.handles && c'.handles[h] == c.handles[h] && SlotOf(c', h) == SlotOf(c, h)
    && var g, g' := c.shared.segments[SlotOf(c, h)], c'.shared.segments[SlotOf(c, h)];
       && g'.pages == g.pages && g'.pageCount == g.pageCount
       && forall j | 0 <= j < |g.pages| && g.pages[j] != 0 :: Contents(c'.shared.memory, g.pages[j]) == Contents(c.shared.memory, g.pages[j])
  }

  lemma PagesAreUsed(c: Client, h: nat)
    requires Counted(c) && h in c.handles
    ensures var g := c.shared.segments[SlotOf(c, h)];
            && |c.shared.memory.ram| == PAGE_COUNT
            && forall j | 0 <= j < |g.pages| && g.pages[j] != 0 ::
                 PageOf(g.pages[j]) < PAGE_COUNT && PageOf(g.pages[j]) !in c.shared.memory.free && PageOf(g.pages[j]) in Own(c.shared)
  {
    var i := SlotOf(c, h);
    var g := c.shared.segments[i];
    RowIsProper(c.shared, i);
    assert Apart(c.shared.memory, Own(c.shared));
    forall j | 0 <= j < |g.pages| && g.pages[j] != 0 ensures PageOf(g.pages[j]) in Held(g.pages) {
    }
  }

  /** It is enough that the segment's record stays and no page in use is written. */
  lemma RecordKept(c: Client, c': Client, h: nat)
    requires Counted(c) && Counted(c') && h in c.handles && h in c'.handles && c'.handles[h] == c.handles[h]
    requires var i := SlotOf(c, h);
             c'.shared.segments[i].active && c'.shared.segments[i].id == c.handles[h]
             && c'.shared.segments[i].pages == c.shared.segments[i].pages && c'.shared.segments[i].pageCount == c.shared.segments[i].pageCount
    requires forall p | p in Own(c.shared) && p < PAGE_COUNT && p !in c.shared.memory.free ::
               |c.shared.memory.ram| == |c'.shared.memory.ram| == PAGE_COUNT && c'.shared.memory.ram[p] == c.shared.memory.ram[p]
    ensures Kept(c, c', h)
  {
    PagesAreUsed(c, h);
    FindsSegment(c'.shared, SlotOf(c, h));
    hide Consistent, Own, FindSegment;
  }

  /** Whatever the clients call, a handle that is not given up keeps its segment. */
  lemma StepKeepsSegment(c: Client, call: Call, h: nat)
    requires Counted(c) && h in c.handles && call != Leave(h)
    ensures Counted(Step(c, call).0) && Kept(c, Step(c, call).0, h)
  {
    hide Consistent, Create, FindSegment, FindFreeSegment, Own, Holders, Kept;
    StepCounts(c, call);
    CountIs(c.shared);
    var i := SlotOf(c, h);
    match call {
      case New(h', pages) => CreateEffect(c.shared, pages);
      case Join(h', id) => AttachKeeps(c.shared, id);
      case Leave(h') => if h' in c.handles { LeaveKeepsOthers(c, h', h); LeaveFreesExactly(c, h'); }
    }
    RamSize(c);
    RamSize(Step(c, call).0);
    RecordKept(c, Step(c, call).0, h);
  }

  lemma RamSize(c: Client)
    requires Counted(c)
    ensures |c.shared.memory.ram| == PAGE_COUNT && |c.shared.segments| == SEGMENTS
  {
    assert Apart(c.shared.memory, Own(c.shared));
  }

  lemma LeaveKeepsOthers(c: Client, h': nat, h: nat)
    requires Counted(c) && h in c.handles && h' in c.handles && h' != h
    ensures var g, g' := c.shared.segments[SlotOf(c, h)], Step(c, Leave(h')).0.shared.segments;
            |g'| == SEGMENTS && g'[SlotOf(c, h)] == g.(references := g'[SlotOf(c, h)].references)
  {
    hide Consistent;
    CountIs(c.shared);
    var i, i' := SlotOf(c, h), SlotOf(c, h');
    if i == i' && c.shared.segments[i].references == 1 {
      SingleHolder(c.handles, h');
    }
  }

  // ---- runs ----

  /** Clients' calls, and other owners' calls, which are represented by how they move pages. */
  datatype Event =
    | Do(call: Call)
    | Elsewhere(own: set<nat>, after: Memory, own': set<nat>)

  ghost predicate Legal(c: Client, e: Event) {
    match e
    case Do(_) => true
    case Elsewhere(own, after, own') => own !! Own(c.shared) && Apart(c.shared.memory, own) && Moves(c.shared.memory, own, after, own')
  }

  function Next(c: Client, e: Event): Client {
    match e
    case Do(call) => Step(c, call).0
    case Elsewhere(_, after, _) => c.(shared := c.shared.(memory := after))
  }

  function Run(c: Client, events: seq<Event>): Client {
    if events == [] then c else Next(Run(c, events[..|events| - 1]), events[|events| - 1])
  }

  ghost predicate LegalRun(c: Client, events: seq<Event>) {
    events != [] ==> LegalRun(c, events[..|events| - 1]) && Legal(Run(c, events[..|events| - 1]), events[|events| - 1])
  }

  lemma OthersKeepCounts(c: Client, own: set<nat>, m: Memory, own': set<nat>)
    requires Counted(c) && Legal(c, Elsewhere(own, m, own'))
    ensures Counted(Next(c, Elsewhere(own, m, own')))
    ensures forall p | p in Own(c.shared) && p < PAGE_COUNT :: |m.ram| == |c.shared.memory.ram| == PAGE_COUNT && m.ram[p] == c.shared.memory.ram[p]
  {
    var mine := Own(c.shared);
    assert Apart(m, mine) by {
      forall p | p in mine ensures p !in m.free { assert p !in own + c.shared.memory.free; }
    }
    hide Held, HeldIn, Holders;
  }

  lemma NextCounts(c: Client, e: Event)
    requires Counted(c) && Legal(c, e)
    ensures Counted(Next(c, e))
  {
    hide Counted, Step;
    match e
    case Do(call) => StepCounts(c, call);
    case Elsewhere(own, after, own') => OthersKeepCounts(c, own, after, own');
  }

  lemma NextKeepsSegment(c: Client, e: Event, h: nat)
    requires Counted(c) && Legal(c, e) && h in c.handles && e != Do(Leave(h))
    ensures Counted(Next(c, e)) && Kept(c, Next(c, e), h)
  {
    hide Step;
    match e {
      case Do(call) => StepKeepsSegment(c, call, h);
      case Elsewhere(own, after, own') =>
        OthersKeepCounts(c, own, after, own');
        hide Counted, FindSegment, Own;
        RecordKept(c, Next(c, e), h);
    }
  }

  lemma KeptTrans(c: Client, c1: Client, c2: Client, h: nat)
    requires Counted(c) && Counted(c1) && Counted(c2) && h in c.handles && h in c1.handles && Kept(c, c1, h) && Kept(c1, c2, h)
    ensures Kept(c, c2, h)
  {
    hide Counted, FindSegment;
  }

  lemma KeptItself(c: Client, h: nat)
    requires Counted(c) && h in c.handles
    ensures Kept(c, c, h)
  {
    hide Counted, FindSegment;
  }

  /** Over every run a segment's count is its number of handles, whatever other owners do in between. */
  lemma {:induction false} RunCounts(c: Client, events: seq<Event>)
    requires Counted(c) && LegalRun(c, events)
    ensures Counted(Run(c, events))
  {
    hide Counted, Next, Legal;
    if events != [] {
      RunCounts(c, events[..|events| - 1]);
      NextCounts(Run(c, events[..|events| - 1]), events[|events| - 1]);
    }
  }

  /** Over every run in which a handle is not given up, its segment keeps its id, its pages and their contents. */
  lemma {:induction false} SegmentStays(c: Client, events: seq<Event>, h: nat)
    requires Counted(c) && LegalRun(c, events) && h in c.handles && forall e | e in events :: e != Do(Leave(h))
    ensures Counted(Run(c, events)) && Kept(c, Run(c, events), h)
  {
    hide Counted, Next, Legal, Kept;
    if events == [] {
      KeptItself(c, h);
    } else {
      var before, e := events[..|events| - 1], events[|events| - 1];
      assert forall g | g in before :: g in events;
      SegmentStays(c, before, h);
      assert e in events;
      assert h in Run(c, before).handles by { KeptHandle(c, Run(c, before), h); }
      NextKeepsSegment(Run(c, before), e, h);
      KeptTrans(c, Run(c, before), Run(c, events), h);
    }
  }

  lemma KeptHandle(c: Client, c': Client, h: nat)
    requires Counted(c) && Counted(c') && h in c.handles && Kept(c, c', h)
    ensures h in c'.handles
  {
  }

  /** The manager starts in such a state, whatever the memory. */
  lemma InitiallyCounted(m: Memory)
    requires Sound(m)
    ensures Counted(Client(Shared(m, seq(SEGMENTS, _ => NoSegment), 1), map[]))
  {
    HeldNothing(NoSegment.pages);
    assert HeldIn(Rows(seq(SEGMENTS, _ => NoSegment))) == {};
  }
}
