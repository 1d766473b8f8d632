/** The shared-memory manager as the program keeps it. */
module SharedMemoryManager {
  import opened Frames
  import opened PhysicalMemory
  import opened Memory
  import opened SharedMemory

  class SharedMemoryManager {
    const pmm: PhysicalMemoryManager
    const ram: Ram
    const segments: array<Segment>
    var nextId: nat

    ghost predicate Valid()
      reads this, pmm, pmm.bitmap, ram.pages, segments
    {
      Separate() && Running(pmm, ram) && Consistent(State())
    }

    /** The segment table shares no storage with the bitmap or the pages. */
    ghost predicate Separate() {
      segments.Length == SEGMENTS && (segments as object) != pmm.bitmap && (segments as object) != ram.pages
    }

    ghost function State(): Shared
      reads this, pmm, ram.pages, segments
    {
      Shared(View(pmm, ram), segments[..], nextId)
    }

    constructor (pmm: PhysicalMemoryManager, ram: Ram)
      requires Running(pmm, ram)
      ensures Valid() && this.pmm == pmm && this.ram == ram && fresh(segments)
      ensures forall i | 0 <= i < SEGMENTS :: segments[i] == NoSegment
    {
      this.pmm, this.ram, nextId := pmm, ram, 1;
      segments := new Segment[SEGMENTS](_ => NoSegment);
      new;
      NoSegmentsConsistent(View(pmm, ram), segments[..]);
    }

    method FindFreeSegmentIndex() returns (found: nat)
      requires segments.Length == SEGMENTS
      ensures found == FindFreeSegment(segments[..])
    {
      found := 0;
      while found < SEGMENTS
        invariant found <= SEGMENTS && FindFreeSegment(segments[..]) == FindFreeSegment(segments[..], found)
      {
        if !segments[found].active {
          return;
        }
        found := found + 1;
      }
    }

    method FindSegmentIndex(id: nat) returns (found: nat)
      requires segments.Length == SEGMENTS
      ensures found == FindSegment(segments[..], id)
    {
      found := 0;
      while found < SEGMENTS
        invariant found <= SEGMENTS && FindSegment(segments[..], id) == FindSegment(segments[..], id, found)
      {
        if segments[found].active && segments[found].id == id {
          return;
        }
        found := found + 1;
      }
    }

    /** Free every page of a segment, partly built or not, and clear its slot. */
    method DestroyPartial(i: nat)
      requires Running(pmm, ram) && Separate() && i < SEGMENTS
      requires |segments[i].pages| == SEGMENT_PAGES && segments[i].pageCount <= SEGMENT_PAGES && Proper(segments[i].pages)
      requires forall j | segments[i].pageCount <= j < SEGMENT_PAGES :: segments[i].pages[j] == 0
      modifies segments, pmm, pmm.bitmap
      ensures Running(pmm, ram)
      ensures View(pmm, ram) == GiveAll(old(View(pmm, ram)), old(segments[i].pages))
      ensures segments[..] == old(segments[..])[i := NoSegment]
    {
      hide Held, Proper, Padding, Running, View;
      ghost var row := segments[i].pages;
      ghost var count := segments[i].pageCount;
      assert row[..0] == [];
      HeldNothing([]);
      for j := 0 to segments[i].pageCount
        invariant Running(pmm, ram) && View(pmm, ram) == GiveAll(old(View(pmm, ram)), row[..j])
        invariant forall q | 0 <= q < SEGMENTS && q != i :: segments[q] == old(segments[q])
        invariant segments[i].pageCount == count && |segments[i].pages| == SEGMENT_PAGES
        invariant forall k | 0 <= k < SEGMENT_PAGES :: segments[i].pages[k] == if k < j then 0 else row[k]
      {
        HeldPrefix(row, j);
        if segments[i].pages[j] != 0 {
          RowEntryIsPage(row, j);
          GivePage(pmm, ram, segments[i].pages[j]);
          segments[i] := segments[i].(pages := segments[i].pages[j := 0]);
        }
      }
      HeldSuffix(row, count);
      assert segments[i].pages == Padding(SEGMENT_PAGES);
      segments[i] := segments[i].(id := 0, pageCount := 0, references := 0, active := false);
    }

    method CreateSegment(pageCount: nat) returns (id: nat)
      requires Valid()
      modifies this, segments, pmm, pmm.bitmap, ram.pages
      ensures Valid() && (State(), id) == old(Create(State(), pageCount))
    {
      hide Held, Proper, TakePages, FindFreeSegment, Consistent, Padding, View, Running, Moves;
      ghost var s := State();
      CreateMoves(s, pageCount);
      if pageCount == 0 || pageCount > SEGMENT_PAGES {
        return 0;
      }
      var i := FindFreeSegmentIndex();
      if i == SEGMENTS {
        return 0;
      }
      id := nextId;
      nextId := nextId + 1;
      FreeRowIsEmpty(s, i);
      segments[i] := Segment(id, pageCount, segments[i].pages, 1, true);
      var complete := FillSegment(i, pageCount, s.memory);
      ghost var (m, taken) := TakePages(s.memory, pageCount);
      assert segments[..] == s.segments[i := Segment(id, pageCount, taken + Padding(SEGMENT_PAGES - |taken|), 1, true)];
      if !complete {
        TakenIsProper(s, pageCount);
        DestroyPartial(i);
        assert segments[..] == s.segments[i := NoSegment];
        assert GiveAll(m, taken + Padding(SEGMENT_PAGES - |taken|)) == GiveAll(m, taken);
        return 0;
      }
    }

    /** Allocate and clear one page of a segment; a failure leaves a 0 in its place. */
    method AddPage(i: nat, k: nat) returns (a: nat)
      requires Running(pmm, ram) && Separate() && i < SEGMENTS && k < |segments[i].pages|
      modifies segments, pmm, pmm.bitmap, ram.pages
      ensures Running(pmm, ram)
      ensures var (m, taken) := Take(old(View(pmm, ram)));
              a == taken && View(pmm, ram) == if a == 0 then old(View(pmm, ram)) else Filled(m, a, Zeros(PAGE_SIZE))
      ensures segments[..] == old(segments[..])[i := old(segments[i]).(pages := old(segments[i]).pages[k := a])]
    {
      hide Take, Running, View, Filled, Sound;
      TakenWhileRunning(pmm, ram);
      a := TakePage(pmm, ram);
      segments[i] := segments[i].(pages := segments[i].pages[k := a]);
      if a != 0 {
        ClearPage(pmm, ram, a);
      }
    }

    /** Allocate and clear the pages of a new segment, stopping at the first failure. */
    method FillSegment(i: nat, pageCount: nat, ghost m0: Memory) returns (complete: bool)
      requires Running(pmm, ram) && Separate() && i < SEGMENTS && 0 < pageCount <= SEGMENT_PAGES
      requires View(pmm, ram) == m0 && segments[i].pages == Padding(SEGMENT_PAGES)
      modifies segments, pmm, pmm.bitmap, ram.pages
      ensures Running(pmm, ram)
      ensures var (m, taken) := TakePages(m0, pageCount);
              && View(pmm, ram) == m && complete == (|taken| == pageCount)
              && segments[..] == old(segments[..])[i := old(segments[i]).(pages := taken + Padding(SEGMENT_PAGES - |taken|))]
    {
      hide Take, Held, Proper, Running, View, Filled, Sound, Padding, TakePages;
      ghost var taken: seq<nat> := [];
      TakePagesNone(m0);
      for k := 0 to pageCount
        invariant Running(pmm, ram) && (View(pmm, ram), taken) == TakePages(m0, k) && |taken| == k
        invariant forall q | 0 <= q < SEGMENTS && q != i :: segments[q] == old(segments[q])
        invariant segments[i] == old(segments[i]).(pages := segments[i].pages) && segments[i].pages == taken + Padding(SEGMENT_PAGES - k)
      {
        TakePagesNext(m0, k);
        var a := AddPage(i, k);
        if a == 0 {
          TakePagesStops(m0, k + 1, pageCount);
          assert segments[i].pages == taken + Padding(SEGMENT_PAGES - k);
          return false;
        }
        taken := taken + [a];
        assert segments[i].pages == taken + Padding(SEGMENT_PAGES - (k + 1));
      }
      complete := true;
    }

    method AttachSegment(id: nat) returns (attached: bool)
      requires Valid()
      modifies segments
      ensures Valid() && State() == Attach(old(State()), id) && attached == Attachable(old(segments[..]), id)
    {
      hide FindSegment, Running, View, Consistent;
      AttachKeeps(State(), id);
      var i := FindSegmentIndex(id);
      if i == SEGMENTS || segments[i].references == MAX_REFERENCES {
        return false;
      }
      segments[i] := segments[i].(references := segments[i].references + 1);
      assert segments[..] == old(segments[..])[i := segments[i]];
      attached := true;
    }

    method ReleaseSegment(id: nat)
      requires Valid()
      modifies segments, pmm, pmm.bitmap
      ensures Valid() && State() == Release(old(State()), id)
    {
      hide FindSegment, Running, View, Consistent, Moves, Padding;
      ghost var s := State();
      ReleaseMoves(s, id);
      var i := FindSegmentIndex(id);
      if i == SEGMENTS || segments[i].references == 0 {
        return;
      }
      segments[i] := segments[i].(references := segments[i].references - 1);
      assert segments[..] == s.segments[i := segments[i]];
      if segments[i].references == 0 {
        ActiveRow(s, i);
        DestroyPartial(i);
        assert segments[..] == s.segments[i := NoSegment];
      }
    }
  }

  lemma TakePagesNone(m: Memory)
    ensures TakePages(m, 0) == (m, [])
  {
  }

  lemma ActiveRow(s: Shared, i: nat)
    requires Consistent(s) && i < SEGMENTS
    ensures WellFormed(s.segments[i], s.nextId) && Proper(s.segments[i].pages)
  {
    assert Rows(s.segments)[i] == s.segments[i].pages;
  }

  lemma TakenWhileRunning(pmm: PhysicalMemoryManager, ram: Ram)
    requires Running(pmm, ram)
    ensures var (m, a) := Take(View(pmm, ram)); if a == 0 then m == View(pmm, ram) else IsPage(a)
  {
    hide Take;
    TakeIsExact(View(pmm, ram));
  }

  lemma NoSegmentsConsistent(m: Memory, segments: seq<Segment>)
    requires Sound(m) && |segments| == SEGMENTS && forall i | 0 <= i < SEGMENTS :: segments[i] == NoSegment
    ensures Consistent(Shared(m, segments, 1))
  {
    HeldNothing(NoSegment.pages);
    assert HeldIn(Rows(segments)) == {};
  }

  lemma FreeRowIsEmpty(s: Shared, i: nat)
    requires Consistent(s) && i < SEGMENTS && !s.segments[i].active
    ensures s.segments[i].pages == Padding(SEGMENT_PAGES)
  {
    assert WellFormed(s.segments[i], s.nextId);
  }

  lemma RowEntryIsPage(row: seq<nat>, j: nat)
    requires Proper(row) && j < |row| && row[j] != 0
    ensures IsPage(row[j])
  {
  }

  lemma TakenIsProper(s: Shared, n: nat)
    requires Consistent(s)
    requires n <= SEGMENT_PAGES
    ensures var taken := TakePages(s.memory, n).1;
            Proper(taken + Padding(SEGMENT_PAGES - |taken|)) && Held(taken + Padding(SEGMENT_PAGES - |taken|)) == Held(taken)
  {
    hide Held, Proper, TakePages, Consistent;
    OwnIsApart(s);
    TakePagesMoves(s.memory, Own(s), n);
    HeldPadded(TakePages(s.memory, n).1, SEGMENT_PAGES - |TakePages(s.memory, n).1|);
  }

  lemma OwnIsApart(s: Shared)
    requires Consistent(s)
    ensures Apart(s.memory, Own(s))
  {
  }

  lemma HeldSuffix(row: seq<nat>, count: nat)
    requires count <= |row| && forall j | count <= j < |row| :: row[j] == 0
    ensures Held(row[..count]) == Held(row)
  {
    forall p | p in Held(row) ensures p in Held(row[..count]) {
      var j :| 0 <= j < |row| && row[j] != 0 && PageOf(row[j]) == p;
      assert row[..count][j] == row[j];
    }
  }
}
