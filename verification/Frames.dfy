/** Page frames: which are free, where an allocation goes, and which are free after start-up. */
module Frames {
  import opened Arithmetic
  import opened Bytes

  const PAGE_SIZE: nat := 4096
  const MEMORY_LIMIT: nat := 0x1_0000_0000
  const PAGE_COUNT: nat := 0x10_0000

  function Run(start: nat, count: nat): (r: set<nat>)
    ensures forall p: nat :: p in r <==> start <= p < start + count
  {
    if count == 0 then {} else Run(start, count - 1) + {start + count - 1}
  }

  lemma {:induction false} RunSize(start: nat, count: nat)
    ensures |Run(start, count)| == count
  {
    if count > 0 { RunSize(start, count - 1); }
  }

  lemma {:induction false} SubsetSize(a: set<nat>, b: set<nat>)
    requires a <= b
    ensures |a| <= |b| && (|a| == |b| ==> a == b)
  {
    if a != {} {
      var x :| x in a;
      SubsetSize(a - {x}, b - {x});
    }
  }

  /** Page p is one of `count` pages from `start`; the end is computed in 64 bits and wraps. */
  predicate InSpan(start: nat, count: nat, p: nat) {
    start <= p < Add64(start, count)
  }

  /** A span holds the pages of the run exactly if its end does not wrap around, or no managed page is meant. */
  lemma SpanIsRunExactly(start: uint64, count: uint64)
    ensures (forall p: nat | p < PAGE_COUNT :: InSpan(start, count, p) <==> p in Run(start, count))
      <==> start + count < WORD_LIMIT || start >= PAGE_COUNT
  {
    if start + count >= WORD_LIMIT {
      assert Add64(start, count) == start + count - WORD_LIMIT < start;
      if start < PAGE_COUNT {
        assert !InSpan(start, count, start) && start in Run(start, count);
      }
    }
  }

  // ---- first fit ----

  /** An aligned start whose whole run is free. */
  predicate Candidate(free: set<nat>, count: nat, alignment: nat, start: nat)
    requires alignment > 0
  {
    start % alignment == 0 && start + count <= PAGE_COUNT && forall p | start <= p < start + count :: p in free
  }

  /** The lowest candidate at or after `from`, or the number of pages. */
  function FirstFit(free: set<nat>, count: nat, alignment: nat, from: nat := 0): (s: nat)
    requires alignment > 0 && from <= PAGE_COUNT
    ensures from <= s <= PAGE_COUNT
    ensures s < PAGE_COUNT ==> Candidate(free, count, alignment, s)
    ensures forall c | from <= c < s :: !Candidate(free, count, alignment, c)
    decreases PAGE_COUNT - from
  {
    if from == PAGE_COUNT || Candidate(free, count, alignment, from) then from
    else FirstFit(free, count, alignment, from + 1)
  }

  lemma FirstFitIs(free: set<nat>, count: nat, alignment: nat, s: nat)
    requires alignment > 0 && s <= PAGE_COUNT
    requires s < PAGE_COUNT ==> Candidate(free, count, alignment, s)
    requires forall c | 0 <= c < s :: !Candidate(free, count, alignment, c)
    ensures FirstFit(free, count, alignment) == s
  {
  }

  /** A free run of `count` pages needs `count` free pages, so giving up early loses nothing. */
  lemma TooFewFreePages(free: set<nat>, count: nat, alignment: nat)
    requires alignment > 0 && count > |free|
    ensures FirstFit(free, count, alignment) == PAGE_COUNT
  {
    var s := FirstFit(free, count, alignment);
    if s < PAGE_COUNT {
      RunSize(s, count);
      SubsetSize(Run(s, count), free);
    }
  }

  /**
   The scan restarts after a used page without losing a candidate: if the run begun at `start` is
   broken at page p before reaching `count`, no start up to p can succeed.
   */
  lemma BrokenRunHasNoCandidate(free: set<nat>, count: nat, alignment: nat, start: nat, p: nat)
    requires alignment > 0 && start <= p < start + count && p !in free
    ensures forall c | start <= c <= p :: !Candidate(free, count, alignment, c)
  {
  }

  // ---- start-up ----

  const CONVENTIONAL: nat := 7

  datatype Descriptor = Descriptor(kind: nat, start: uint64, pages: uint64)

  datatype Range = Range(address: uint64, bytes: uint64)

  function AlignDown(x: nat): (r: nat)
    ensures r <= x
  {
    x - x % PAGE_SIZE
  }

  /** Rounding up in 64 bits. */
  function AlignUp(x: nat): (r: nat)
    ensures r < WORD_LIMIT
  {
    AlignDown(Add64(x, PAGE_SIZE - 1))
  }

  function FirstByte(d: Descriptor): nat { AlignUp(d.start) }

  function EndByte(d: Descriptor): nat { AlignDown(Add64(d.start, d.pages * PAGE_SIZE)) }

  /** The number of managed pages a descriptor contributes. */
  function ManagedPages(d: Descriptor): nat {
    if EndByte(d) <= FirstByte(d) || FirstByte(d) >= MEMORY_LIMIT then 0
    else ((if EndByte(d) > MEMORY_LIMIT then MEMORY_LIMIT else EndByte(d)) - FirstByte(d)) / PAGE_SIZE
  }

  /** Page p is one of the pages the descriptor makes available. */
  predicate Provides(d: Descriptor, p: nat) {
    d.kind == CONVENTIONAL && FirstByte(d) / PAGE_SIZE <= p < FirstByte(d) / PAGE_SIZE + ManagedPages(d)
  }

  /** Page p is taken out by the reservation. */
  predicate Reserves(r: Range, p: nat) {
    && r.bytes != 0 && r.address < MEMORY_LIMIT
    && AlignDown(r.address) / PAGE_SIZE <= p < AlignDown(r.address) / PAGE_SIZE + ReservedPages(r)
  }

  function ReservedPages(r: Range): nat {
    Sub64(AlignUp(Add64(r.address, r.bytes)), AlignDown(r.address)) / PAGE_SIZE
  }

  predicate Provided(ds: seq<Descriptor>, p: nat) {
    exists i :: 0 <= i < |ds| && Provides(ds[i], p)
  }

  predicate ReservedBy(rs: seq<Range>, p: nat) {
    exists i :: 0 <= i < |rs| && Reserves(rs[i], p)
  }

  function TotalPages(ds: seq<Descriptor>): nat {
    if ds == [] then 0 else TotalPages(ds[..|ds| - 1]) + ManagedPages(ds[|ds| - 1])
  }

  lemma Aligned(x: nat)
    ensures AlignDown(x) == (x / PAGE_SIZE) * PAGE_SIZE && AlignDown(x) / PAGE_SIZE == x / PAGE_SIZE
  {
  }

  /** The pages of a descriptor, without wrap-around: from its start rounded up to its end rounded down. */
  lemma ManagedPagesAre(d: Descriptor)
    requires d.start + PAGE_SIZE <= WORD_LIMIT && d.start + d.pages * PAGE_SIZE < WORD_LIMIT
    ensures var first, end := (d.start + PAGE_SIZE - 1) / PAGE_SIZE, (d.start + d.pages * PAGE_SIZE) / PAGE_SIZE;
            var end' := if end > PAGE_COUNT then PAGE_COUNT else end;
            && FirstByte(d) / PAGE_SIZE == first
            && ManagedPages(d) == if first < end' then end' - first else 0
  {
    hide AlignDown;
    Aligned(d.start + PAGE_SIZE - 1);
    Aligned(d.start + d.pages * PAGE_SIZE);
  }

  /** The managed pages a descriptor covers entirely, in unbounded arithmetic. */
  predicate CoversPage(d: Descriptor, p: nat) {
    && d.kind == CONVENTIONAL && p < PAGE_COUNT
    && d.start <= p * PAGE_SIZE && (p + 1) * PAGE_SIZE <= d.start + d.pages * PAGE_SIZE
  }

  /** Without wrap-around, a descriptor provides exactly the managed pages it covers entirely. */
  lemma ProvidesWholePages(d: Descriptor, p: nat)
    requires d.start + PAGE_SIZE <= WORD_LIMIT && d.start + d.pages * PAGE_SIZE < WORD_LIMIT
    ensures Provides(d, p) <==> CoversPage(d, p)
  {
    hide FirstByte, ManagedPages;
    ManagedPagesAre(d);
  }

  /** What keeps the 64-bit sums of a descriptor from doing harm. */
  predicate DescriptorFits(d: Descriptor) {
    || d.kind != CONVENTIONAL
    || (if d.start + PAGE_SIZE > WORD_LIMIT then EndByte(d) == 0
        else d.start + d.pages * PAGE_SIZE < WORD_LIMIT || FirstByte(d) >= MEMORY_LIMIT || EndByte(d) >= MEMORY_LIMIT)
  }

  /** A start so high that rounding it up wraps to 0: nothing is covered, and page 0 is the first provided. */
  lemma StartWraps(d: Descriptor)
    requires d.start + PAGE_SIZE > WORD_LIMIT
    ensures FirstByte(d) == 0 && (forall p :: !CoversPage(d, p))
    ensures d.kind == CONVENTIONAL ==> (Provides(d, 0) <==> EndByte(d) > 0) && (EndByte(d) == 0 ==> forall p :: !Provides(d, p))
  {
    Aligned(d.start + PAGE_SIZE - 1 - WORD_LIMIT);
    assert Add64(d.start, PAGE_SIZE - 1) == d.start + PAGE_SIZE - 1 - WORD_LIMIT < PAGE_SIZE;
    Aligned(Add64(d.start, d.pages * PAGE_SIZE));
    hide EndByte;
  }

  /** An end that wraps: everything from the start on is covered, and the pages provided end where the wrapped end says. */
  lemma EndWraps(d: Descriptor)
    requires d.kind == CONVENTIONAL && d.start + PAGE_SIZE <= WORD_LIMIT && d.start + d.pages * PAGE_SIZE >= WORD_LIMIT
    ensures var first := (d.start + PAGE_SIZE - 1) / PAGE_SIZE;
            && FirstByte(d) == first * PAGE_SIZE
            && (forall p: nat :: CoversPage(d, p) <==> first <= p < PAGE_COUNT)
            && (forall p: nat :: Provides(d, p) <==> first <= p < PAGE_COUNT && (p + 1) * PAGE_SIZE <= EndByte(d))
  {
    Aligned(d.start + PAGE_SIZE - 1);
    Aligned(Add64(d.start, d.pages * PAGE_SIZE));
    hide AlignDown;
  }

  /** A descriptor is read right, page by page, exactly when it fits. */
  lemma ProvidesExactly(d: Descriptor)
    ensures (forall p: nat :: Provides(d, p) <==> CoversPage(d, p)) <==> DescriptorFits(d)
  {
    hide Provides, CoversPage, FirstByte, EndByte;
    if d.kind != CONVENTIONAL {
      NothingProvided(d);
    } else if d.start + PAGE_SIZE > WORD_LIMIT {
      StartWraps(d);
    } else if d.start + d.pages * PAGE_SIZE < WORD_LIMIT {
      forall p: nat ensures Provides(d, p) <==> CoversPage(d, p) { ProvidesWholePages(d, p); }
    } else {
      EndWraps(d);
      var last: nat := PAGE_COUNT - 1;
      assert CoversPage(d, last) <==> FirstByte(d) < MEMORY_LIMIT;
      assert Provides(d, last) <==> FirstByte(d) < MEMORY_LIMIT && EndByte(d) >= MEMORY_LIMIT;
    }
  }

  lemma NothingProvided(d: Descriptor)
    requires d.kind != CONVENTIONAL
    ensures forall p: nat :: !Provides(d, p) && !CoversPage(d, p)
  {
  }

  /** The pages a reservation touches, in unbounded arithmetic. */
  predicate TouchesPage(r: Range, p: nat) {
    r.address < MEMORY_LIMIT && r.bytes > 0 && p * PAGE_SIZE < r.address + r.bytes && r.address < (p + 1) * PAGE_SIZE
  }

  /** Without wrap-around, a reservation takes out exactly the pages it touches. */
  lemma ReservesTouchedPages(r: Range, p: nat)
    requires r.address + r.bytes + PAGE_SIZE <= WORD_LIMIT
    ensures Reserves(r, p) <==> TouchesPage(r, p)
  {
  }

  function FirstReserved(r: Range): nat { AlignDown(r.address) }

  function EndReserved(r: Range): nat { AlignUp(Add64(r.address, r.bytes)) }

  /** What keeps the 64-bit sums of a reservation from doing harm. */
  predicate ReservationFits(r: Range) {
    || r.bytes == 0 || r.address >= MEMORY_LIMIT || r.address + r.bytes + PAGE_SIZE <= WORD_LIMIT
    || EndReserved(r) < FirstReserved(r)
    || (EndReserved(r) > FirstReserved(r) && FirstReserved(r) / PAGE_SIZE == PAGE_COUNT - 1)
  }

  /** An end that wraps to at most one page past the start; the reservation means every page from the start on. */
  lemma ReservationWraps(r: Range)
    requires r.bytes > 0 && r.address < MEMORY_LIMIT && r.address + r.bytes + PAGE_SIZE > WORD_LIMIT
    ensures var first, start, end := r.address / PAGE_SIZE, FirstReserved(r), EndReserved(r);
            && start == first * PAGE_SIZE && (end < start || end == start || end == start + PAGE_SIZE)
            && (forall p: nat | p < PAGE_COUNT :: TouchesPage(r, p) <==> first <= p)
            && (forall p: nat | p < PAGE_COUNT :: Reserves(r, p) <==> if end < start then first <= p else end > start && p == first)
  {
    var sum := r.address + r.bytes;
    var w: nat := Add64(r.address, r.bytes);
    Aligned(r.address);
    if sum < WORD_LIMIT {
      assert w == sum && Add64(w, PAGE_SIZE - 1) == sum + PAGE_SIZE - 1 - WORD_LIMIT < PAGE_SIZE;
      Aligned(sum + PAGE_SIZE - 1 - WORD_LIMIT);
      assert EndReserved(r) == 0;
    } else {
      assert w == sum - WORD_LIMIT < r.address;
      Aligned(w + PAGE_SIZE - 1);
      assert EndReserved(r) == ((w + PAGE_SIZE - 1) / PAGE_SIZE) * PAGE_SIZE;
    }
    WrappedCount(FirstReserved(r), EndReserved(r));
    hide AlignDown, AlignUp, Add64;
  }

  /** A count that wraps is beyond managed memory; otherwise it is 0 or 1. */
  lemma WrappedCount(start: nat, end: nat)
    requires start < MEMORY_LIMIT && end < WORD_LIMIT && end <= start + PAGE_SIZE && start % PAGE_SIZE == 0 && end % PAGE_SIZE == 0
    ensures var count := Sub64(end, start) / PAGE_SIZE;
            if end < start then count >= PAGE_COUNT else if end == start then count == 0 else count == 1
  {
  }

  /** A reservation is read right, page by page, exactly when it fits. */
  lemma ReservesExactly(r: Range)
    ensures (forall p: nat | p < PAGE_COUNT :: Reserves(r, p) <==> TouchesPage(r, p)) <==> ReservationFits(r)
  {
    if r.bytes == 0 || r.address >= MEMORY_LIMIT {
    } else if r.address + r.bytes + PAGE_SIZE <= WORD_LIMIT {
      hide Reserves, TouchesPage;
      forall p: nat ensures Reserves(r, p) <==> TouchesPage(r, p) { ReservesTouchedPages(r, p); }
    } else {
      ReservationWraps(r);
      hide Reserves, TouchesPage, FirstReserved, EndReserved;
      var first, last: nat := r.address / PAGE_SIZE, PAGE_COUNT - 1;
      assert first <= last;
      assert TouchesPage(r, first) && TouchesPage(r, last);
    }
  }

  // ---- the number of pages reported ----

  /** The managed pages of a descriptor, conventional or not. */
  function Span(d: Descriptor): set<nat> {
    Run(FirstByte(d) / PAGE_SIZE, ManagedPages(d))
  }

  function AllSpans(ds: seq<Descriptor>): set<nat> {
    if ds == [] then {} else AllSpans(ds[..|ds| - 1]) + Span(ds[|ds| - 1])
  }

  lemma {:induction false} InAllSpans(ds: seq<Descriptor>, p: nat)
    ensures p in AllSpans(ds) <==> exists i :: 0 <= i < |ds| && p in Span(ds[i])
  {
    hide Span;
    if ds != [] {
      var front := ds[..|ds| - 1];
      InAllSpans(front, p);
      if i :| 0 <= i < |front| && p in Span(front[i]) { assert ds[i] == front[i]; }
      if i :| 0 <= i < |front| && p in Span(ds[i]) { assert ds[i] == front[i]; }
    }
  }

  lemma SpanSize(d: Descriptor)
    ensures |Span(d)| == ManagedPages(d)
  {
    RunSize(FirstByte(d) / PAGE_SIZE, ManagedPages(d));
  }

  /** The total counts each page once, of whatever kind, if no two descriptors share one. */
  lemma {:induction false} TotalCountsPages(ds: seq<Descriptor>)
    requires forall i, j | 0 <= i < j < |ds| :: Span(ds[i]) !! Span(ds[j])
    ensures TotalPages(ds) == |AllSpans(ds)|
  {
    hide Span, ManagedPages;
    if ds != [] {
      var n := |ds| - 1;
      var front := ds[..n];
      TotalCountsPages(front);
      SpanSize(ds[n]);
      forall p | p in AllSpans(front) ensures p !in Span(ds[n]) {
        InAllSpans(front, p);
        var i :| 0 <= i < n && p in Span(front[i]);
        assert Span(ds[i]) !! Span(ds[n]);
      }
      assert AllSpans(front) !! Span(ds[n]);
    }
  }

  /** And those are the pages the descriptor covers entirely, if its sums stay in 64 bits. */
  lemma SpanIsCovered(d: Descriptor, p: nat)
    requires d.start + PAGE_SIZE <= WORD_LIMIT && d.start + d.pages * PAGE_SIZE < WORD_LIMIT
    ensures p in Span(d) <==> CoversPage(d.(kind := CONVENTIONAL), p)
  {
    ProvidesWholePages(d.(kind := CONVENTIONAL), p);
  }
}
