/** Shared segments of up to four pages, held by reference count. */
module SharedMemory {
  import opened Frames
  import opened Memory

  const SEGMENTS := 8
  const SEGMENT_PAGES := 4
  const MAX_REFERENCES := 0xFFFF

  datatype Segment = Segment(id: nat, pageCount: nat, pages: seq<nat>, references: nat, active: bool)

  datatype Shared = Shared(memory: Memory, segments: seq<Segment>, nextId: nat)

  const NoSegment := Segment(0, 0, Padding(SEGMENT_PAGES), 0, false)

  function FindFreeSegment(segments: seq<Segment>, from: nat := 0): (r: nat)
    requires from <= |segments|
    ensures from <= r <= |segments|
    ensures r < |segments| ==> !segments[r].active
    ensures forall j | from <= j < r :: segments[j].active
    decreases |segments| - from
  {
    if from == |segments| || !segments[from].active then from else FindFreeSegment(segments, from + 1)
  }

  function FindSegment(segments: seq<Segment>, id: nat, from: nat := 0): (r: nat)
    requires from <= |segments|
    ensures from <= r <= |segments|
    ensures r < |segments| ==> segments[r].active && segments[r].id == id
    ensures forall j | from <= j < r :: !segments[j].active || segments[j].id != id
    decreases |segments| - from
  {
    if from == |segments| || (segments[from].active && segments[from].id == id) then from
    else FindSegment(segments, id, from + 1)
  }

  /** The pages of a new segment: taken one by one, all given back if one is missing. */
  function Create(s: Shared, pageCount: nat): (Shared, nat) {
    var i := FindFreeSegment(s.segments);
    if pageCount == 0 || pageCount > SEGMENT_PAGES || i == |s.segments| then (s, 0)
    else
      var (m, taken) := TakePages(s.memory, pageCount);
      if |taken| < pageCount then
        (Shared(GiveAll(m, taken), s.segments[i := NoSegment], s.nextId + 1), 0)
      else
        (Shared(m, s.segments[i := Segment(s.nextId, pageCount, taken + Padding(SEGMENT_PAGES - pageCount), 1, true)], s.nextId + 1), s.nextId)
  }

  predicate Attachable(segments: seq<Segment>, id: nat) {
    var i := FindSegment(segments, id);
    i < |segments| && segments[i].references != MAX_REFERENCES
  }

  function Attach(s: Shared, id: nat): Shared {
    var i := FindSegment(s.segments, id);
    if Attachable(s.segments, id) then
      s.(segments := s.segments[i := s.segments[i].(references := s.segments[i].references + 1)])
    else s
  }

  function Release(s: Shared, id: nat): Shared {
    var i := FindSegment(s.segments, id);
    if i == |s.segments| || s.segments[i].references == 0 then s
    else if s.segments[i].references == 1 then
      s.(memory := GiveAll(s.memory, s.segments[i].pages), segments := s.segments[i := NoSegment])
    else s.(segments := s.segments[i := s.segments[i].(references := s.segments[i].references - 1)])
  }

  // ---- what every call keeps ----

  function Rows(segments: seq<Segment>): (r: seq<seq<nat>>)
    ensures |r| == |segments| && forall i | 0 <= i < |segments| :: r[i] == segments[i].pages
  {
    seq(|segments|, i requires 0 <= i < |segments| => segments[i].pages)
  }

  /** An active segment has exactly its first `pageCount` pages; an inactive one has none. */
  ghost predicate WellFormed(g: Segment, nextId: nat) {
    && |g.pages| == SEGMENT_PAGES && g.pageCount <= SEGMENT_PAGES
    && (forall j | 0 <= j < SEGMENT_PAGES :: g.pages[j] != 0 <==> j < g.pageCount)
    && (if g.active then 0 < g.pageCount && 0 < g.id < nextId && 1 <= g.references <= MAX_REFERENCES else g.pageCount == 0)
  }

  ghost predicate Consistent(s: Shared) {
    && |s.segments| == SEGMENTS && s.nextId > 0
    && OwnsRows(s.memory, Rows(s.segments))
    && (forall i | 0 <= i < SEGMENTS :: WellFormed(s.segments[i], s.nextId))
    && (forall i, j | 0 <= i < j < SEGMENTS :: s.segments[i].active && s.segments[j].active ==> s.segments[i].id != s.segments[j].id)
  }

  function Own(s: Shared): set<nat> {
    HeldIn(Rows(s.segments))
  }

  lemma RowsOfUpdate(segments: seq<Segment>, i: nat, g: Segment)
    requires i < |segments|
    ensures Rows(segments[i := g]) == Rows(segments)[i := g.pages]
  {
  }

  /** Creation succeeds exactly when a segment and enough pages are free. */
  predicate CanCreate(s: Shared, pageCount: nat) {
    0 < pageCount <= SEGMENT_PAGES && FindFreeSegment(s.segments) < |s.segments| && pageCount <= |s.memory.free|
  }

  lemma CreateMoves(s: Shared, pageCount: nat)
    requires Consistent(s)
    ensures var (s', id) := Create(s, pageCount);
            && Consistent(s') && Moves(s.memory, Own(s), s'.memory, Own(s'))
            && (id != 0 <==> CanCreate(s, pageCount))
            && (!CanCreate(s, pageCount) ==> s'.memory.free == s.memory.free && Rows(s'.segments) == Rows(s.segments))
  {
    hide FindFreeSegment, TakePages, Held, Proper, Moves, HeldIn, GiveAll;
    var i := FindFreeSegment(s.segments);
    NothingMoves(s.memory, Own(s));
    if 0 < pageCount <= SEGMENT_PAGES && i < SEGMENTS {
      TakenCount(s.memory, pageCount);
      if pageCount <= |s.memory.free| { CreateSucceeds(s, pageCount); } else { CreateRollsBack(s, pageCount); }
    }
  }

  lemma CreateSucceeds(s: Shared, pageCount: nat)
    requires Consistent(s) && CanCreate(s, pageCount)
    ensures var (s', id) := Create(s, pageCount);
            id != 0 && Consistent(s') && Moves(s.memory, Own(s), s'.memory, Own(s'))
  {
    hide FindFreeSegment, TakePages, Held, Proper, Moves, HeldIn, GiveAll;
    var i := FindFreeSegment(s.segments);
    var (m, taken) := TakePages(s.memory, pageCount);
    TakePagesMoves(s.memory, Own(s), pageCount);
    TakenCount(s.memory, pageCount);
    HeldNothing(s.segments[i].pages);
    var pages := taken + Padding(SEGMENT_PAGES - pageCount);
    HeldPadded(taken, SEGMENT_PAGES - pageCount);
    HeldAfterRow(Rows(s.segments), i, pages);
    RowsOfUpdate(s.segments, i, Segment(s.nextId, pageCount, pages, 1, true));
    MovesKeepsApart(s.memory, Own(s), m, Own(s) + Held(taken));
    assert HeldIn(Rows(s.segments)[i := pages]) == Own(s) + Held(taken);
  }

  /** A failing creation leaves the free set and every segment's pages exactly as they were. */
  lemma CreateRollsBack(s: Shared, pageCount: nat)
    requires Consistent(s) && 0 < pageCount <= SEGMENT_PAGES && FindFreeSegment(s.segments) < SEGMENTS && pageCount > |s.memory.free|
    ensures var (s', id) := Create(s, pageCount);
            && id == 0 && Consistent(s') && Moves(s.memory, Own(s), s'.memory, Own(s'))
            && s'.memory.free == s.memory.free && Rows(s'.segments) == Rows(s.segments)
  {
    hide FindFreeSegment, TakePages, Held, Proper, Moves, HeldIn, GiveAll;
    var i := FindFreeSegment(s.segments);
    var (m, taken) := TakePages(s.memory, pageCount);
    TakePagesMoves(s.memory, Own(s), pageCount);
    TakenCount(s.memory, pageCount);
    RolledBack(s.memory, Own(s), m, taken);
    MovesKeepsApart(s.memory, Own(s), GiveAll(m, taken), Own(s));
    RowsOfUpdate(s.segments, i, NoSegment);
    assert s.segments[i].pages == NoSegment.pages;
    assert Rows(s.segments)[i := NoSegment.pages] == Rows(s.segments);
  }

  /** Giving back all pages taken restores the free set exactly. */
  lemma RolledBack(m: Memory, own: set<nat>, m': Memory, taken: seq<nat>)
    requires Apart(m, own) && Moves(m, own, m', own + Held(taken))
    requires m'.free == m.free - Held(taken) && Held(taken) <= m.free
    ensures GiveAll(m', taken).free == m.free && Moves(m, own, GiveAll(m', taken), own)
  {
    hide Held;
    assert m'.free + Held(taken) == m.free;
  }

  lemma AttachKeeps(s: Shared, id: nat)
    requires Consistent(s)
    ensures Consistent(Attach(s, id)) && Attach(s, id).memory == s.memory && Own(Attach(s, id)) == Own(s)
  {
    hide FindSegment, Held, Proper, HeldIn, Apart;
    RecountKeeps(s, FindSegment(s.segments, id), 1);
  }

  lemma RecountKeeps(s: Shared, i: nat, delta: int)
    requires Consistent(s) && i <= SEGMENTS
    requires i < SEGMENTS && s.segments[i].active ==> s.segments[i].references + delta >= 0
    ensures i < SEGMENTS && s.segments[i].active && 1 <= s.segments[i].references + delta <= MAX_REFERENCES ==>
              var s' := s.(segments := s.segments[i := s.segments[i].(references := s.segments[i].references + delta)]);
              Consistent(s') && Own(s') == Own(s)
  {
    hide Held, Proper, HeldIn, Apart;
    if i < SEGMENTS && s.segments[i].active {
      RowsOfUpdate(s.segments, i, s.segments[i].(references := s.segments[i].references + delta));
      assert Rows(s.segments)[i := s.segments[i].pages] == Rows(s.segments);
    }
  }

  /** Releasing the last reference frees exactly the segment's pages; any other release frees none. */
  lemma ReleaseMoves(s: Shared, id: nat)
    requires Consistent(s)
    ensures var s' := Release(s, id);
            && Consistent(s') && Moves(s.memory, Own(s), s'.memory, Own(s'))
            && var i := FindSegment(s.segments, id);
               s'.memory.free == s.memory.free + (if i < SEGMENTS && s.segments[i].references == 1 then Held(s.segments[i].pages) else {})
  {
    hide FindSegment, Held, Proper, HeldIn;
    NothingMoves(s.memory, Own(s));
    var i := FindSegment(s.segments, id);
    if i < SEGMENTS {
      if s.segments[i].references == 1 {
        var row := s.segments[i].pages;
        HeldNothing(NoSegment.pages);
        HeldAfterRow(Rows(s.segments), i, NoSegment.pages);
        RowsOfUpdate(s.segments, i, NoSegment);
        assert Rows(s.segments)[i] == row;
        RowIsProper(s, i);
        assert Own(Release(s, id)) == Own(s) - Held(row);
      } else {
        RecountKeeps(s, i, -1);
      }
    }
  }

  lemma RowIsProper(s: Shared, i: nat)
    requires Consistent(s) && i < SEGMENTS
    ensures Held(s.segments[i].pages) <= Own(s) && forall p | p in Held(s.segments[i].pages) :: 0 < p < PAGE_COUNT
  {
    assert Rows(s.segments)[i] == s.segments[i].pages;
  }
}
