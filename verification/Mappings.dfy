/**
 Memory mappings: address ranges whose pages are materialised eagerly or on the first fault, each
 anonymous page private and each file page shared through the page cache.
 */
module Mappings {
  import opened Bytes
  import opened Frames
  import opened Memory
  import opened CachedPages

  const MAPPINGS := 16
  const MAPPING_PAGES := 16
  const FIRST_ADDRESS := 0x4000_0000

  datatype Mapping = Mapping(address: nat, pageCount: nat, file: nat, writable: bool, demandPaged: bool, active: bool, pages: seq<nat>)

  datatype Maps = Maps(memory: Memory, entries: seq<Entry>, mappings: seq<Mapping>, nextAddress: nat)

  const NoPages: seq<nat> := Padding(MAPPING_PAGES)

  const NoMapping := Mapping(0, 0, 0, false, false, false, NoPages)

  predicate Contains(g: Mapping, address: nat) {
    g.active && g.address <= address < g.address + g.pageCount * PAGE_SIZE
  }

  function FindMapping(mappings: seq<Mapping>, address: nat, from: nat := 0): (r: nat)
    requires from <= |mappings|
    ensures from <= r <= |mappings|
    ensures r < |mappings| ==> Contains(mappings[r], address)
    ensures forall i | from <= i < r :: !Contains(mappings[i], address)
    decreases |mappings| - from
  {
    if from == |mappings| || Contains(mappings[from], address) then from else FindMapping(mappings, address, from + 1)
  }

  function FindUnmapped(mappings: seq<Mapping>, from: nat := 0): (r: nat)
    requires from <= |mappings|
    ensures from <= r <= |mappings|
    ensures r < |mappings| ==> !mappings[r].active
    ensures forall i | from <= i < r :: mappings[i].active
    decreases |mappings| - from
  {
    if from == |mappings| || !mappings[from].active then from else FindUnmapped(mappings, from + 1)
  }

  /** The pages that hold `length` bytes; the rounding is done in 64 bits and wraps. */
  function PagesFor(length: uint64): nat {
    Add64(length, PAGE_SIZE - 1) / PAGE_SIZE
  }

  function Materialize(m: Memory, entries: seq<Entry>, file: nat, page: nat): Acquired {
    if file != 0 then Acquire(m, entries, file, page)
    else
      var (m', a) := Take(m);
      if a == 0 then Acquired(m, entries, 0) else Acquired(Filled(m', a, Zeros(PAGE_SIZE)), entries, a)
  }

  /** The mapping with page j at a physical address. */
  function WithPage(g: Mapping, j: nat, physical: nat): Mapping
    requires j < |g.pages|
  {
    g.(pages := g.pages[j := physical])
  }

  /** Page j of mapping i materialised, or 0 stored in its place. */
  function MaterializeAt(s: Maps, i: nat, j: nat): Maps
    requires i < |s.mappings| && j < |s.mappings[i].pages|
  {
    var r := Materialize(s.memory, s.entries, s.mappings[i].file, j);
    Maps(r.memory, r.entries, s.mappings[i := WithPage(s.mappings[i], j, r.physical)], s.nextAddress)
  }

  /** Materialise pages j, j + 1, ... of mapping i, stopping at the first failure. */
  function Populate(s: Maps, i: nat, j: nat, n: nat): (Maps, bool)
    requires i < |s.mappings| && n <= |s.mappings[i].pages|
    decreases n - j
  {
    if j >= n then (s, true)
    else
      var s1 := MaterializeAt(s, i, j);
      if s1.mappings[i].pages[j] == 0 then (s1, false) else Populate(s1, i, j + 1, n)
  }

  function DropPage(m: Memory, entries: seq<Entry>, file: nat, physical: nat): (Memory, seq<Entry>) {
    if physical == 0 then (m, entries)
    else if file != 0 then (m, Release(entries, physical))
    else (Give(m, physical), entries)
  }

  /** The first n pages of a mapping dropped. */
  function DropPages(m: Memory, entries: seq<Entry>, g: Mapping, n: nat): (Memory, seq<Entry>)
    requires n <= |g.pages|
  {
    if n == 0 then (m, entries)
    else
      var (m1, entries1) := DropPages(m, entries, g, n - 1);
      DropPage(m1, entries1, g.file, g.pages[n - 1])
  }

  predicate Starts(mappings: seq<Mapping>, address: nat) {
    var i := FindMapping(mappings, address);
    i < |mappings| && mappings[i].address == address
  }

  function Unmap(s: Maps, address: nat): Maps
    requires forall i | 0 <= i < |s.mappings| :: s.mappings[i].pageCount <= |s.mappings[i].pages|
  {
    var i := FindMapping(s.mappings, address);
    if !Starts(s.mappings, address) then s
    else
      var g := s.mappings[i];
      var (m, entries) := DropPages(s.memory, s.entries, g, g.pageCount);
      Maps(m, entries, s.mappings[i := g.(active := false)], s.nextAddress)
  }

  /** The new mapping, before any of its pages is materialised. */
  function Reserved(s: Maps, i: nat, file: nat, pages: nat, writable: bool, demandPaged: bool): Maps
    requires i < |s.mappings|
  {
    s.(mappings := s.mappings[i := Mapping(s.nextAddress, pages, file, writable, demandPaged, true, NoPages)],
       nextAddress := s.nextAddress + pages * PAGE_SIZE)
  }

  predicate Mappable(s: Maps, length: uint64) {
    0 < PagesFor(length) <= MAPPING_PAGES && FindUnmapped(s.mappings) < |s.mappings|
  }

  function Map(s: Maps, file: nat, length: uint64, writable: bool, demandPaged: bool): (Maps, nat)
    requires forall i | 0 <= i < |s.mappings| :: |s.mappings[i].pages| == MAPPING_PAGES && s.mappings[i].pageCount <= MAPPING_PAGES
  {
    var n, i := PagesFor(length), FindUnmapped(s.mappings);
    if !Mappable(s, length) then (s, 0)
    else
      var s1 := Reserved(s, i, file, n, writable, demandPaged);
      if demandPaged then (s1, s.nextAddress)
      else
        var (s2, complete) := Populate(s1, i, 0, n);
        PopulateKeepsShape(s1, i, 0, n);
        if complete then (s2, s.nextAddress) else (Unmap(s2, s.nextAddress), 0)
  }

  predicate Faultable(mappings: seq<Mapping>, address: nat, write: bool) {
    var i := FindMapping(mappings, address);
    i < |mappings| && (write ==> mappings[i].writable)
  }

  /** The page of the mapping that an address falls in. */
  function PageIndex(g: Mapping, address: nat): (j: nat)
    requires Contains(g, address)
    ensures j < g.pageCount
  {
    (address - g.address) / PAGE_SIZE
  }

  function HandlePageFault(s: Maps, address: nat, write: bool): (Maps, nat)
    requires forall i | 0 <= i < |s.mappings| :: s.mappings[i].pageCount <= |s.mappings[i].pages|
  {
    var i := FindMapping(s.mappings, address);
    if !Faultable(s.mappings, address, write) then (s, 0)
    else
      var j := PageIndex(s.mappings[i], address);
      var s1 := if s.mappings[i].pages[j] == 0 then MaterializeAt(s, i, j) else s;
      var physical := s1.mappings[i].pages[j];
      (if write && s.mappings[i].file != 0 then s1.(entries := MarkDirty(s1.entries, physical)) else s1, physical)
  }

  lemma {:induction false} PopulateKeepsShape(s: Maps, i: nat, j: nat, n: nat)
    requires i < |s.mappings| && n <= |s.mappings[i].pages|
    ensures var s' := Populate(s, i, j, n).0;
            && |s'.mappings| == |s.mappings| && s'.nextAddress == s.nextAddress
            && (forall k | 0 <= k < |s.mappings| && k != i :: s'.mappings[k] == s.mappings[k])
            && s'.mappings[i] == s.mappings[i].(pages := s'.mappings[i].pages) && |s'.mappings[i].pages| == |s.mappings[i].pages|
    decreases n - j
  {
    hide Materialize;
    if j < n {
      var s1 := MaterializeAt(s, i, j);
      if s1.mappings[i].pages[j] != 0 { PopulateKeepsShape(s1, i, j + 1, n); }
    }
  }
}
