/**
 Physical memory as the managers above the page allocator see it: the free pages and the contents of
 every page. A page address is its number times the page size; address 0 doubles as "no page", which
 is sound because page 0 is never free.
 */
module Memory {
  import opened Bytes
  import opened Frames
  import opened PhysicalMemory

  /** n zero bytes. */
  function Zeros(n: nat): (z: seq<byte>)
    ensures |z| == n && forall i | 0 <= i < n :: z[i] == 0
  {
    if n == 0 then [] else Zeros(n - 1) + [0]
  }

  type Page = s: seq<byte> | |s| == PAGE_SIZE witness Zeros(PAGE_SIZE)

  datatype Memory = Memory(free: set<nat>, ram: seq<Page>)

  ghost predicate Sound(m: Memory) {
    |m.ram| == PAGE_COUNT && 0 !in m.free && forall p | p in m.free :: p < PAGE_COUNT
  }

  function PageOf(address: nat): nat {
    address / PAGE_SIZE
  }

  /** A page address other than 0. */
  predicate IsPage(address: nat) {
    address % PAGE_SIZE == 0 && 0 < PageOf(address) < PAGE_COUNT
  }

  // ---- the effects of the allocator on the abstract memory ----

  /** Take the lowest free page; the address is 0 if there is none. */
  function Take(m: Memory): (r: (Memory, nat))
    ensures |r.0.ram| == |m.ram|
  {
    var s := FirstFit(m.free, 1, 1);
    if s == PAGE_COUNT then (m, 0) else (m.(free := m.free - {s}), s * PAGE_SIZE)
  }

  function Give(m: Memory, address: nat): (r: Memory)
    ensures r.ram == m.ram
  {
    if PageOf(address) < PAGE_COUNT then m.(free := m.free + {PageOf(address)}) else m
  }

  function Filled(m: Memory, address: nat, page: Page): (r: Memory)
    ensures r.free == m.free && |r.ram| == |m.ram|
  {
    if PageOf(address) < |m.ram| then m.(ram := m.ram[PageOf(address) := page]) else m
  }

  function Contents(m: Memory, address: nat): Page {
    if PageOf(address) < |m.ram| then m.ram[PageOf(address)] else Zeros(PAGE_SIZE)
  }

  /** Taking fails only when no page is free; otherwise it yields a proper page that was free. */
  lemma TakeIsExact(m: Memory)
    requires Sound(m)
    ensures var (m', a) := Take(m);
            && Sound(m') && m'.ram == m.ram
            && (a == 0 <==> m.free == {})
            && (a == 0 ==> m' == m)
            && (a != 0 ==> IsPage(a) && PageOf(a) in m.free && m'.free == m.free - {PageOf(a)})
  {
    forall p | p in m.free ensures Candidate(m.free, 1, 1, p) {
    }
    var s := FirstFit(m.free, 1, 1);
    if s < PAGE_COUNT { assert s in m.free; }
  }

  // ---- ownership ----

  /**
   A manager's call goes from owning `own` in m to owning `own'` in m': pages move only between the
   free set and the manager, none is free and owned at once, and no page that was neither free nor
   the manager's changes contents.
   */
  ghost predicate Moves(m: Memory, own: set<nat>, m': Memory, own': set<nat>) {
    && Sound(m') && |m.ram| == PAGE_COUNT
    && own' + m'.free == own + m.free && own' !! m'.free
    && forall p | 0 <= p < PAGE_COUNT && p !in own && p !in m.free :: m'.ram[p] == m.ram[p]
  }

  ghost predicate Apart(m: Memory, own: set<nat>) {
    Sound(m) && own !! m.free
  }

  lemma MovesTrans(m: Memory, own: set<nat>, m1: Memory, own1: set<nat>, m2: Memory, own2: set<nat>)
    requires Apart(m, own) && Moves(m, own, m1, own1) && Moves(m1, own1, m2, own2)
    ensures Moves(m, own, m2, own2)
  {
    forall p | 0 <= p < PAGE_COUNT && p !in own && p !in m.free ensures m2.ram[p] == m.ram[p] {
      assert p !in own + m.free;
    }
  }

  lemma TakeMoves(m: Memory, own: set<nat>, page: Page)
    requires Apart(m, own) && Take(m).1 != 0
    ensures var (m', a) := Take(m); Moves(m, own, Filled(m', a, page), own + {PageOf(a)})
  {
    TakeIsExact(m);
  }

  lemma GiveMoves(m: Memory, own: set<nat>, address: nat)
    requires Apart(m, own) && IsPage(address) && PageOf(address) in own
    ensures Moves(m, own, Give(m, address), own - {PageOf(address)})
  {
  }

  // ---- tables of page addresses ----

  /** The pages named by a table of addresses in which 0 stands for no page. */
  function Held(table: seq<nat>): set<nat> {
    set i | 0 <= i < |table| && table[i] != 0 :: PageOf(table[i])
  }

  /** Every entry is 0 or a page address, and no page occurs twice. */
  ghost predicate Proper(table: seq<nat>) {
    && (forall i | 0 <= i < |table| :: table[i] != 0 ==> IsPage(table[i]))
    && (forall i, j | 0 <= i < j < |table| :: table[i] != 0 ==> table[i] != table[j])
  }

  /** A table of this manager's pages, none of which is free. */
  ghost predicate Owns(m: Memory, table: seq<nat>) {
    Proper(table) && Apart(m, Held(table))
  }

  lemma HeldAfterInsert(table: seq<nat>, i: nat, a: nat)
    requires Proper(table) && i < |table| && table[i] == 0 && IsPage(a) && PageOf(a) !in Held(table)
    ensures Proper(table[i := a]) && Held(table[i := a]) == Held(table) + {PageOf(a)}
  {
    var after := table[i := a];
    forall j | 0 <= j < |table| && j != i ensures after[j] != a {
      if table[j] != 0 { assert PageOf(table[j]) in Held(table); }
    }
    forall p | p in Held(table) + {PageOf(a)} ensures p in Held(after) {
      if p in Held(table) {
        var j :| 0 <= j < |table| && table[j] != 0 && PageOf(table[j]) == p;
        assert after[j] == table[j];
      } else {
        assert after[i] == a;
      }
    }
  }

  lemma HeldAfterRemove(table: seq<nat>, i: nat)
    requires Proper(table) && i < |table| && table[i] != 0
    ensures Proper(table[i := 0]) && Held(table[i := 0]) == Held(table) - {PageOf(table[i])}
  {
    var after := table[i := 0];
    forall j | 0 <= j < |table| && j != i && table[j] != 0 ensures PageOf(table[j]) != PageOf(table[i]) {
      assert IsPage(table[j]) && IsPage(table[i]) && table[i] != table[j];
    }
    forall p | p in Held(table) - {PageOf(table[i])} ensures p in Held(after) {
      var j :| 0 <= j < |table| && table[j] != 0 && PageOf(table[j]) == p;
      assert after[j] == table[j];
    }
  }

  /** A fresh page put into an empty entry. */
  lemma TakeInto(m: Memory, table: seq<nat>, i: nat, page: Page)
    requires Owns(m, table) && i < |table| && table[i] == 0 && Take(m).1 != 0
    ensures var (m', a) := Take(m);
            && IsPage(a) && PageOf(a) in m.free
            && Owns(Filled(m', a, page), table[i := a])
            && Moves(m, Held(table), Filled(m', a, page), Held(table[i := a]))
  {
    hide Held, Take, Proper;
    TakeIsExact(m);
    TakeMoves(m, Held(table), page);
    HeldAfterInsert(table, i, Take(m).1);
  }

  /** An entry's page given back. */
  lemma GiveFrom(m: Memory, table: seq<nat>, i: nat)
    requires Owns(m, table) && i < |table| && table[i] != 0
    ensures Owns(Give(m, table[i]), table[i := 0])
    ensures Moves(m, Held(table), Give(m, table[i]), Held(table[i := 0]))
  {
    HeldAfterRemove(table, i);
    assert PageOf(table[i]) in Held(table) && IsPage(table[i]);
    hide Held, Proper;
    GiveMoves(m, Held(table), table[i]);
  }

  // ---- several pages at once ----

  /** Take up to n zeroed pages, one after another, stopping at the first failure. */
  function TakePages(m: Memory, n: nat): (r: (Memory, seq<nat>))
    ensures |r.1| <= n
  {
    if n == 0 then (m, [])
    else
      var (m1, taken) := TakePages(m, n - 1);
      var (m2, a) := Take(m1);
      if |taken| < n - 1 || a == 0 then (m1, taken) else (Filled(m2, a, Zeros(PAGE_SIZE)), taken + [a])
  }

  /** Give back every page in a table. */
  function GiveAll(m: Memory, table: seq<nat>): Memory {
    m.(free := m.free + Held(table))
  }

  /** The pages taken are fresh and distinct; fewer than n means that no page is left. */
  lemma {:induction false} TakePagesMoves(m: Memory, own: set<nat>, n: nat)
    requires Apart(m, own)
    ensures var (m', taken) := TakePages(m, n);
            && Moves(m, own, m', own + Held(taken)) && own !! Held(taken)
            && Proper(taken) && (forall i | 0 <= i < |taken| :: taken[i] != 0)
            && m'.free == m.free - Held(taken) && Held(taken) <= m.free
            && (|taken| < n ==> m'.free == {})
  {
    if n == 0 {
      NothingMoves(m, own);
      assert Held([]) == {};
      assert own + {} == own;
    } else {
      TakePagesMoves(m, own, n - 1);
      var (m1, taken) := TakePages(m, n - 1);
      hide Take, Held, Proper, Moves;
      var own1 := own + Held(taken);
      assert Apart(m1, own1) by { MovesKeepsApart(m, own, m1, own1); }
      TakeIsExact(m1);
      if |taken| == n - 1 && Take(m1).1 != 0 {
        var a := Take(m1).1;
        TakeMoves(m1, own1, Zeros(PAGE_SIZE));
        HeldAfterPush(taken, a);
        assert own1 + {PageOf(a)} == own + Held(taken + [a]);
        MovesTrans(m, own, m1, own1, Filled(Take(m1).0, a, Zeros(PAGE_SIZE)), own1 + {PageOf(a)});
      }
    }
  }

  /** And they read as zeros. */
  lemma {:induction false} TakenAreZero(m: Memory, n: nat)
    requires Sound(m)
    ensures var (m', taken) := TakePages(m, n);
            |m'.ram| == PAGE_COUNT && forall i | 0 <= i < |taken| :: Contents(m', taken[i]) == Zeros(PAGE_SIZE)
  {
    if n > 0 {
      TakenAreZero(m, n - 1);
      TakePagesMoves(m, {}, n - 1);
      var (m1, taken) := TakePages(m, n - 1);
      TakeIsExact(m1);
      hide Take, Moves, Zeros;
    }
  }

  lemma MovesKeepsApart(m: Memory, own: set<nat>, m': Memory, own': set<nat>)
    requires Moves(m, own, m', own')
    ensures Apart(m', own')
  {
  }

  lemma HeldAfterPush(table: seq<nat>, a: nat)
    requires Proper(table) && IsPage(a) && PageOf(a) !in Held(table)
    ensures Proper(table + [a]) && Held(table + [a]) == Held(table) + {PageOf(a)}
  {
    assert Proper(table + [0]) && Held(table + [0]) == Held(table) by { HeldPadded(table, 1); assert Padding(1) == [0]; }
    HeldAfterInsert(table + [0], |table|, a);
    assert (table + [0])[|table| := a] == table + [a];
  }

  function Padding(n: nat): (r: seq<nat>)
    ensures |r| == n && forall i | 0 <= i < n :: r[i] == 0
  {
    if n == 0 then [] else Padding(n - 1) + [0]
  }

  lemma HeldPadded(table: seq<nat>, n: nat)
    requires Proper(table)
    ensures Proper(table + Padding(n)) && Held(table + Padding(n)) == Held(table)
  {
    var padded := table + Padding(n);
    forall p | p in Held(table) ensures p in Held(padded) {
      var i :| 0 <= i < |table| && table[i] != 0 && PageOf(table[i]) == p;
      assert padded[i] == table[i];
    }
  }

  lemma HeldNothing(table: seq<nat>)
    requires forall i | 0 <= i < |table| :: table[i] == 0
    ensures Proper(table) && Held(table) == {}
  {
  }

  lemma {:induction false} HeldSize(table: seq<nat>)
    requires Proper(table) && forall i | 0 <= i < |table| :: table[i] != 0
    ensures |Held(table)| == |table|
  {
    if table == [] {
      assert Held(table) == {};
    } else {
      var front, last := table[..|table| - 1], table[|table| - 1];
      assert table == front + [last];
      HeldSize(front);
      LastIsNew(table);
      HeldAfterPush(front, last);
    }
  }

  lemma LastIsNew(table: seq<nat>)
    requires Proper(table) && table != [] && forall i | 0 <= i < |table| :: table[i] != 0
    ensures PageOf(table[|table| - 1]) !in Held(table[..|table| - 1])
  {
    forall i | 0 <= i < |table| - 1 ensures PageOf(table[i]) != PageOf(table[|table| - 1]) {
      assert IsPage(table[i]) && IsPage(table[|table| - 1]);
    }
  }

  /** As many pages are taken as asked for, or as there are. */
  lemma TakenCount(m: Memory, n: nat)
    requires Sound(m)
    ensures |TakePages(m, n).1| == if n <= |m.free| then n else |m.free|
  {
    hide Held, Proper, Moves, TakePages;
    var (m', taken) := TakePages(m, n);
    TakePagesMoves(m, {}, n);
    HeldSize(taken);
    assert m.free == m'.free + Held(taken);
  }

  /** Once a page is missing, asking for more pages changes nothing. */
  lemma {:induction false} TakePagesStops(m: Memory, n: nat, more: nat)
    requires n <= more && |TakePages(m, n).1| < n
    ensures TakePages(m, more) == TakePages(m, n)
    decreases more
  {
    hide Take;
    if n < more { TakePagesStops(m, n, more - 1); }
  }

  lemma TakePagesNext(m: Memory, n: nat)
    requires |TakePages(m, n).1| == n
    ensures var (m1, taken) := TakePages(m, n);
            var (m2, a) := Take(m1);
            TakePages(m, n + 1) == if a == 0 then (m1, taken) else (Filled(m2, a, Zeros(PAGE_SIZE)), taken + [a])
  {
  }

  lemma HeldPrefix(table: seq<nat>, i: nat)
    requires i < |table|
    ensures Held(table[..i + 1]) == Held(table[..i]) + if table[i] != 0 then {PageOf(table[i])} else {}
  {
    var shorter, longer := table[..i], table[..i + 1];
    forall p | p in Held(shorter) ensures p in Held(longer) {
      var j :| 0 <= j < |shorter| && shorter[j] != 0 && PageOf(shorter[j]) == p;
      assert longer[j] == shorter[j];
    }
    if table[i] != 0 { assert longer[i] == table[i]; }
  }

  // ---- tables of rows ----

  /** The pages named anywhere in a table of rows. */
  function HeldIn(rows: seq<seq<nat>>): set<nat> {
    set i, p | 0 <= i < |rows| && p in Held(rows[i]) :: p
  }

  ghost predicate ProperRows(rows: seq<seq<nat>>) {
    && (forall i | 0 <= i < |rows| :: Proper(rows[i]))
    && (forall i, j | 0 <= i < j < |rows| :: Held(rows[i]) !! Held(rows[j]))
  }

  ghost predicate OwnsRows(m: Memory, rows: seq<seq<nat>>) {
    ProperRows(rows) && Apart(m, HeldIn(rows))
  }

  lemma HeldAfterRow(rows: seq<seq<nat>>, i: nat, row: seq<nat>)
    requires ProperRows(rows) && i < |rows| && Proper(row) && Held(row) !! HeldIn(rows) - Held(rows[i])
    ensures ProperRows(rows[i := row])
    ensures HeldIn(rows[i := row]) == HeldIn(rows) - Held(rows[i]) + Held(row)
  {
    hide Held, Proper;
    var after := rows[i := row];
    forall j | 0 <= j < |rows| && j != i ensures Held(rows[j]) !! Held(row) && Held(rows[j]) !! Held(rows[i]) {
      forall p | p in Held(rows[j]) ensures p in HeldIn(rows) && p !in Held(rows[i]) {
        assert Held(rows[j]) !! Held(rows[i]);
      }
    }
    forall p | p in HeldIn(rows) - Held(rows[i]) + Held(row) ensures p in HeldIn(after) {
      if p in Held(row) {
        assert p in Held(after[i]);
      } else {
        var j :| 0 <= j < |rows| && p in Held(rows[j]);
        assert after[j] == rows[j];
      }
    }
    forall p | p in HeldIn(after) ensures p in HeldIn(rows) - Held(rows[i]) + Held(row) {
      var j :| 0 <= j < |rows| && p in Held(after[j]);
      assert j == i || after[j] == rows[j];
    }
  }

  lemma NothingMoves(m: Memory, own: set<nat>)
    requires Apart(m, own)
    ensures Moves(m, own, m, own)
  {
  }

  // ---- the running memory ----

  /** The pages of physical memory, byte by byte. */
  class Ram {
    const pages: array<Page>

    constructor ()
      ensures pages.Length == PAGE_COUNT && fresh(pages)
    {
      pages := new Page[PAGE_COUNT](_ => Zeros(PAGE_SIZE));
    }

    method ClearPage(address: nat)
      requires pages.Length == PAGE_COUNT && PageOf(address) < PAGE_COUNT
      modifies pages
      ensures pages[..] == old(pages[..])[PageOf(address) := Zeros(PAGE_SIZE)]
    {
      var p := PageOf(address);
      for i := 0 to PAGE_SIZE
        invariant forall q | 0 <= q < PAGE_COUNT && q != p :: pages[q] == old(pages[q])
        invariant forall j | 0 <= j < i :: pages[p][j] == 0
      {
        pages[p] := pages[p][i := 0];
      }
      assert pages[p] == Zeros(PAGE_SIZE);
    }

    method CopyPage(destination: nat, source: nat)
      requires pages.Length == PAGE_COUNT && PageOf(destination) < PAGE_COUNT && PageOf(source) < PAGE_COUNT
      modifies pages
      ensures pages[..] == old(pages[..])[PageOf(destination) := old(pages[PageOf(source)])]
    {
      var d, s := PageOf(destination), PageOf(source);
      for i := 0 to PAGE_SIZE
        invariant forall q | 0 <= q < PAGE_COUNT && q != d :: pages[q] == old(pages[q])
        invariant forall j | 0 <= j < i :: pages[d][j] == old(pages[s][j])
        invariant d == s ==> pages[d] == old(pages[s])
      {
        pages[d] := pages[d][i := pages[s][i]];
      }
      assert pages[d] == old(pages[s]);
    }
  }

  /** The abstract memory of an allocator and a memory. */
  ghost function View(pmm: PhysicalMemoryManager, ram: Ram): Memory
    reads pmm, ram.pages
  {
    Memory(pmm.free, ram.pages[..])
  }

  ghost predicate Running(pmm: PhysicalMemoryManager, ram: Ram)
    reads pmm, pmm.bitmap, ram.pages
  {
    pmm.Valid() && Sound(View(pmm, ram))
  }

  // The allocator and page primitives, as the managers use them.

  method TakePage(pmm: PhysicalMemoryManager, ram: Ram) returns (address: nat)
    requires Running(pmm, ram)
    modifies pmm, pmm.bitmap
    ensures Running(pmm, ram) && (View(pmm, ram), address) == Take(old(View(pmm, ram)))
  {
    hide FirstFit;
    TakeIsExact(View(pmm, ram));
    address := pmm.AllocatePage();
  }

  method GivePage(pmm: PhysicalMemoryManager, ram: Ram, address: nat)
    requires Running(pmm, ram) && IsPage(address)
    modifies pmm, pmm.bitmap
    ensures Running(pmm, ram) && View(pmm, ram) == Give(old(View(pmm, ram)), address)
  {
    pmm.FreePage(address);
  }

  method ClearPage(pmm: PhysicalMemoryManager, ram: Ram, address: nat)
    requires Running(pmm, ram) && IsPage(address)
    modifies ram.pages
    ensures Running(pmm, ram) && View(pmm, ram) == Filled(old(View(pmm, ram)), address, Zeros(PAGE_SIZE))
  {
    ram.ClearPage(address);
  }

  method CopyPage(pmm: PhysicalMemoryManager, ram: Ram, destination: nat, source: nat)
    requires Running(pmm, ram) && PageOf(destination) < PAGE_COUNT && PageOf(source) < PAGE_COUNT
    modifies ram.pages
    ensures Running(pmm, ram) && View(pmm, ram) == Filled(old(View(pmm, ram)), destination, old(Contents(View(pmm, ram), source)))
  {
    ram.CopyPage(destination, source);
  }
}
