/**
 Slab caches: one page of equal objects per cache. The free objects form a list whose links are
 stored in the objects themselves, in the page's own bytes.
 */
module Slab {
  import opened Bytes
  import opened Frames
  import opened Memory

  const CACHES := 4
  const LINK_SIZE := 8

  datatype Cache = Cache(objectSize: nat, page: nat, freeList: nat, totalObjects: nat, freeObjects: nat)

  /** `live` are the objects handed out and not yet taken back. */
  datatype Slab = Slab(memory: Memory, caches: seq<Cache>, live: set<nat>)

  // ---- links ----

  function Offset(a: nat): (r: nat)
    ensures r < PAGE_SIZE
  {
    a % PAGE_SIZE
  }

  predicate HoldsLink(a: nat) {
    PageOf(a) < PAGE_COUNT && Offset(a) + LINK_SIZE <= PAGE_SIZE
  }

  function Load(m: Memory, a: nat): nat {
    if HoldsLink(a) then Decode(Contents(m, a)[Offset(a)..Offset(a) + LINK_SIZE]) else 0
  }

  /** Bytes replaced at an offset. */
  function Spliced(page: Page, offset: nat, bytes: seq<byte>): Page
    requires offset + |bytes| <= PAGE_SIZE
  {
    page[..offset] + bytes + page[offset + |bytes|..]
  }

  function Store(m: Memory, a: nat, value: nat): (r: Memory)
    ensures |r.ram| == |m.ram| && r.free == m.free
  {
    if HoldsLink(a) then Filled(m, a, Spliced(Contents(m, a), Offset(a), Encode(value, LINK_SIZE))) else m
  }

  lemma LoadStored(m: Memory, a: nat, value: nat)
    requires |m.ram| == PAGE_COUNT && HoldsLink(a) && value < MEMORY_LIMIT
    ensures Load(Store(m, a, value), a) == value
  {
    hide Encode, Decode;
    var bytes := Encode(value, LINK_SIZE);
    assert Spliced(Contents(m, a), Offset(a), bytes)[Offset(a)..Offset(a) + LINK_SIZE] == bytes;
    SmallValuesFit(value);
    DecodeEncode(value, LINK_SIZE);
  }

  /** Bytes changed only in [from, from + size) of one page leave every link outside that range alone. */
  lemma LoadElsewhere(m: Memory, from: nat, bytes: seq<byte>, b: nat)
    requires |m.ram| == PAGE_COUNT && PageOf(from) < PAGE_COUNT && Offset(from) + |bytes| <= PAGE_SIZE
    requires b + LINK_SIZE <= from || from + |bytes| <= b
    ensures Load(Filled(m, from, Spliced(Contents(m, from), Offset(from), bytes)), b) == Load(m, b)
  {
    hide Decode;
    if HoldsLink(b) && PageOf(b) == PageOf(from) {
      var old', new' := Contents(m, from), Spliced(Contents(m, from), Offset(from), bytes);
      assert new'[Offset(b)..Offset(b) + LINK_SIZE] == old'[Offset(b)..Offset(b) + LINK_SIZE];
    }
  }

  /** The first n nodes of the list starting at `a`. */
  function Follow(m: Memory, a: nat, n: nat): (r: seq<nat>)
    ensures |r| == n
    decreases n
  {
    if n == 0 then [] else [a] + Follow(m, Load(m, a), n - 1)
  }

  /** The link after n nodes. */
  function End(m: Memory, a: nat, n: nat): nat
    decreases n
  {
    if n == 0 then a else End(m, Load(m, a), n - 1)
  }

  lemma {:induction false} FollowSame(m: Memory, m': Memory, a: nat, n: nat)
    requires forall x | x in Follow(m, a, n) :: Load(m', x) == Load(m, x)
    ensures Follow(m', a, n) == Follow(m, a, n) && End(m', a, n) == End(m, a, n)
    decreases n
  {
    hide Load;
    if n > 0 {
      assert Follow(m, a, n)[0] == a;
      forall x | x in Follow(m, Load(m, a), n - 1) ensures Load(m', x) == Load(m, x) {
        assert x in Follow(m, a, n);
      }
      FollowSame(m, m', Load(m, a), n - 1);
    }
  }

  // ---- the invariant ----

  predicate SizeClass(size: nat) {
    size == 32 || size == 64 || size == 128 || size == 256
  }

  predicate Aligned(x: int, size: nat)
    requires size > 0
  {
    x % size == 0
  }

  /** The object addresses of a cache: its page cut into objects. */
  predicate IsObject(c: Cache, a: nat) {
    c.page != 0 && SizeClass(c.objectSize) && c.page <= a < c.page + PAGE_SIZE && Aligned(a - c.page, c.objectSize)
  }

  ghost predicate Distinct(nodes: seq<nat>) {
    forall i, j | 0 <= i < j < |nodes| :: nodes[i] != nodes[j]
  }

  /**
   The free list is acyclic, ends in null after `freeObjects` nodes, and its nodes are exactly the
   objects of the cache that are not live.
   */
  ghost predicate ListInvariant(m: Memory, c: Cache, live: set<nat>) {
    var nodes := Follow(m, c.freeList, c.freeObjects);
    && End(m, c.freeList, c.freeObjects) == 0
    && Distinct(nodes)
    && (forall a :: a in nodes <==> IsObject(c, a) && a !in live)
    && (c.page != 0 && SizeClass(c.objectSize) ==> c.totalObjects == PAGE_SIZE / c.objectSize)
  }

  const SIZES: seq<nat> := [32, 64, 128, 256]

  function Pages(caches: seq<Cache>): (r: seq<nat>)
    ensures |r| == |caches| && forall i | 0 <= i < |caches| :: r[i] == caches[i].page
  {
    seq(|caches|, i requires 0 <= i < |caches| => caches[i].page)
  }

  ghost predicate Invariant(s: Slab) {
    && |s.caches| == CACHES
    && Owns(s.memory, Pages(s.caches))
    && (forall i | 0 <= i < CACHES :: s.caches[i].objectSize == SIZES[i] && Countable(s.caches[i]) && ListInvariant(s.memory, s.caches[i], s.live))
    && (forall a | a in s.live :: exists i :: 0 <= i < CACHES && IsObject(s.caches[i], a))
  }

  /** Two objects are the same or a whole object apart: live objects never overlap. */
  lemma ObjectsDoNotOverlap(c: Cache, a: nat, b: nat)
    requires IsObject(c, a) && IsObject(c, b) && IsPage(c.page)
    ensures a == b || a + c.objectSize <= b || b + c.objectSize <= a
    ensures a + c.objectSize <= c.page + PAGE_SIZE
    ensures PageOf(a) == PageOf(c.page) && Offset(a) + c.objectSize <= PAGE_SIZE && a != 0
  {
    if c.objectSize == 32 {
    } else if c.objectSize == 64 {
    } else if c.objectSize == 128 {
    } else {
    }
  }

  // ---- the operations ----

  /** The least cache whose objects are big enough, or the number of caches. */
  function FindCache(caches: seq<Cache>, size: nat, from: nat := 0): (r: nat)
    requires from <= |caches|
    ensures from <= r <= |caches|
    ensures r < |caches| ==> size <= caches[r].objectSize
    ensures forall j | from <= j < r :: size > caches[j].objectSize
    decreases |caches| - from
  {
    if from == |caches| || size <= caches[from].objectSize then from else FindCache(caches, size, from + 1)
  }

  /** Link the objects in the first `limit` bytes of a page, each to the one below it. */
  function Linked(m: Memory, page: nat, size: nat, limit: nat): (r: Memory)
    requires size > 0
    ensures |r.ram| == |m.ram| && r.free == m.free
    decreases limit
  {
    if limit < size then m
    else Store(Linked(m, page, size, limit - size), page + limit - size, if limit < 2 * size then 0 else page + limit - 2 * size)
  }

  /** A nonempty free list is counted. */
  predicate Countable(c: Cache) {
    SizeClass(c.objectSize) && (c.freeList != 0 ==> c.freeObjects > 0)
  }

  lemma TotalIsPositive(size: nat)
    requires SizeClass(size)
    ensures PAGE_SIZE / size > 0
  {
  }

  /** The cache with its page just cut up; the flag is false if it has a page already or none is free. */
  function Grow(m: Memory, c: Cache): (r: (Memory, Cache, bool))
    requires Countable(c)
    ensures r.2 ==> r.1.freeObjects > 0 && r.0.free == Take(m).0.free
  {
    TotalIsPositive(c.objectSize);
    var (m', a) := Take(m);
    if c.page != 0 || a == 0 then (m, c, false)
    else
      var total := PAGE_SIZE / c.objectSize;
      (Linked(m', a, c.objectSize, total * c.objectSize),
       c.(page := a, totalObjects := total, freeObjects := total,
          freeList := a + (total - 1) * c.objectSize), true)
  }

  function Allocate(s: Slab, size: nat): (Slab, nat)
    requires forall i | 0 <= i < |s.caches| :: Countable(s.caches[i])
  {
    var i := FindCache(s.caches, size);
    if i == |s.caches| then (s, 0)
    else
      assert Countable(s.caches[i]);
      var (m, c, ok) := if s.caches[i].freeList == 0 then Grow(s.memory, s.caches[i]) else (s.memory, s.caches[i], true);
      if !ok then (s, 0)
      else (Slab(m, s.caches[i := c.(freeList := Load(m, c.freeList), freeObjects := c.freeObjects - 1)], s.live + {c.freeList}), c.freeList)
  }

  predicate Accepts(s: Slab, item: nat, size: nat) {
    var i := FindCache(s.caches, size);
    item != 0 && i < |s.caches| && s.caches[i].page != 0 && s.caches[i].page <= item < s.caches[i].page + PAGE_SIZE
  }

  function Free(s: Slab, item: nat, size: nat): Slab {
    var i := FindCache(s.caches, size);
    if !Accepts(s, item, size) then s
    else
      var c := s.caches[i];
      Slab(Store(s.memory, item, c.freeList), s.caches[i := c.(freeList := item, freeObjects := c.freeObjects + 1)], s.live - {item})
  }

  // ---- list steps ----

  lemma MultiplesApart(a: nat, b: nat, size: nat)
    requires SizeClass(size) && a * size < b * size
    ensures a * size + size <= b * size
  {
    assert a < b;
    if size == 32 {
    } else if size == 64 {
    } else if size == 128 {
    } else {
    }
  }

  lemma IsMultiple(x: nat, size: nat)
    requires SizeClass(size) && Aligned(x, size)
    ensures x == x / size * size
  {
  }

  /** Two multiples of the object size are a whole object apart. */
  lemma AlignedBelow(x: nat, limit: nat, size: nat)
    requires SizeClass(size) && Aligned(x, size) && Aligned(limit, size)
    ensures x < limit ==> x + size <= limit
  {
    IsMultiple(x, size);
    IsMultiple(limit, size);
    hide Aligned;
    if x < limit { MultiplesApart(x / size, limit / size, size); }
  }

  lemma LessThanOneObject(limit: nat, size: nat)
    requires SizeClass(size) && Aligned(limit, size) && limit < size
    ensures limit == 0
  {
  }

  lemma OneObjectLess(limit: nat, size: nat)
    requires SizeClass(size) && Aligned(limit, size) && limit >= size
    ensures Aligned(limit - size, size)
  {
    if size == 32 {
    } else if size == 64 {
    } else if size == 128 {
    } else {
    }
  }

  /** Objects cut a page up without a remainder. */
  lemma PageIsCut(size: nat)
    requires SizeClass(size)
    ensures Aligned(PAGE_SIZE, size) && (PAGE_SIZE / size) * size == PAGE_SIZE && PAGE_SIZE / size >= 16
    ensures (PAGE_SIZE / size - 1) * size == PAGE_SIZE - size
  {
  }

  lemma NodesAreObjects(m: Memory, c: Cache, live: set<nat>)
    requires ListInvariant(m, c, live)
    ensures c.page == 0 ==> c.freeObjects == 0
    ensures c.freeObjects > 0 ==> IsObject(c, c.freeList) && c.freeList !in live
    ensures c.freeObjects == 0 <==> c.freeList == 0
    ensures c.freeObjects == 0 <==> forall a | IsObject(c, a) :: a in live
  {
    var nodes := Follow(m, c.freeList, c.freeObjects);
    if c.freeObjects > 0 {
      assert nodes[0] == c.freeList && nodes[0] in nodes;
    } else {
      assert nodes == [];
    }
  }

  /** A list stays a list when its page's bytes stay the same. */
  lemma ListFrame(m: Memory, m': Memory, c: Cache, live: set<nat>)
    requires ListInvariant(m, c, live) && |m.ram| == |m'.ram| == PAGE_COUNT
    requires c.page != 0 ==> IsPage(c.page) && m'.ram[PageOf(c.page)] == m.ram[PageOf(c.page)]
    ensures ListInvariant(m', c, live)
  {
    forall x | x in Follow(m, c.freeList, c.freeObjects) ensures Load(m', x) == Load(m, x) {
      assert IsObject(c, x);
      ObjectsDoNotOverlap(c, x, x);
    }
    FollowSame(m, m', c.freeList, c.freeObjects);
  }

  /** Handing out or taking back an object of another cache does not concern this one. */
  lemma ListIgnores(m: Memory, c: Cache, live: set<nat>, live': set<nat>)
    requires ListInvariant(m, c, live) && forall a | IsObject(c, a) :: a in live <==> a in live'
    ensures ListInvariant(m, c, live')
  {
  }

  lemma ListPop(m: Memory, c: Cache, live: set<nat>)
    requires ListInvariant(m, c, live) && c.freeObjects > 0
    ensures ListInvariant(m, c.(freeList := Load(m, c.freeList), freeObjects := c.freeObjects - 1), live + {c.freeList})
  {
    var nodes := Follow(m, c.freeList, c.freeObjects);
    var rest := Follow(m, Load(m, c.freeList), c.freeObjects - 1);
    assert nodes == [c.freeList] + rest && nodes[0] == c.freeList;
    assert c.freeList !in rest by {
      forall j | 0 <= j < |rest| ensures rest[j] != c.freeList { assert nodes[j + 1] == rest[j]; }
    }
    forall i, j | 0 <= i < j < |rest| ensures rest[i] != rest[j] { assert nodes[i + 1] == rest[i] && nodes[j + 1] == rest[j]; }
    forall a ensures a in rest <==> a in nodes && a != c.freeList {
    }
  }

  /** A node stored clear of a list's nodes becomes its new head. */
  lemma PushNode(m: Memory, nodes: seq<nat>, head: nat, node: nat)
    requires |m.ram| == PAGE_COUNT && HoldsLink(node) && head < MEMORY_LIMIT
    requires Follow(m, head, |nodes|) == nodes && End(m, head, |nodes|) == 0
    requires forall x | x in nodes :: x + LINK_SIZE <= node || node + LINK_SIZE <= x
    ensures var m' := Store(m, node, head);
            && Follow(m', node, |nodes| + 1) == [node] + nodes && End(m', node, |nodes| + 1) == 0
            && forall p | 0 <= p < PAGE_COUNT && p != PageOf(node) :: m'.ram[p] == m.ram[p]
  {
    hide Load;
    var m' := Store(m, node, head);
    forall x | x in nodes ensures Load(m', x) == Load(m, x) {
      LoadElsewhere(m, node, Encode(head, LINK_SIZE), x);
    }
    FollowSame(m, m', head, |nodes|);
    LoadStored(m, node, head);
  }

  lemma ListPush(m: Memory, c: Cache, live: set<nat>, item: nat)
    requires ListInvariant(m, c, live) && |m.ram| == PAGE_COUNT && IsPage(c.page) && IsObject(c, item) && item in live
    ensures ListInvariant(Store(m, item, c.freeList), c.(freeList := item, freeObjects := c.freeObjects + 1), live - {item})
  {
    hide Store, Load;
    var nodes := Follow(m, c.freeList, c.freeObjects);
    NodesAreObjects(m, c, live);
    ObjectsDoNotOverlap(c, item, item);
    forall x | x in nodes ensures x + LINK_SIZE <= item || item + LINK_SIZE <= x {
      ObjectsDoNotOverlap(c, item, x);
    }
    if c.freeObjects > 0 { ObjectsDoNotOverlap(c, c.freeList, c.freeList); }
    PushNode(m, nodes, c.freeList, item);
  }

  // ---- cutting up a page ----

  /** The objects in the first `limit` bytes of a page, highest first. */
  function Nodes(page: nat, size: nat, limit: nat): seq<nat>
    requires size > 0
    decreases limit
  {
    if limit < size then [] else [page + limit - size] + Nodes(page, size, limit - size)
  }

  lemma {:induction false} NodesAre(page: nat, size: nat, limit: nat)
    requires SizeClass(size) && Aligned(limit, size)
    ensures var nodes := Nodes(page, size, limit);
            && |nodes| * size == limit && Distinct(nodes)
            && forall a :: a in nodes <==> page <= a < page + limit && Aligned(a - page, size)
    decreases limit
  {
    hide Aligned;
    if limit < size {
      LessThanOneObject(limit, size);
    } else {
      OneObjectLess(limit, size);
      NodesAre(page, size, limit - size);
      var nodes, rest := Nodes(page, size, limit), Nodes(page, size, limit - size);
      assert |nodes| * size == |rest| * size + size;
      forall a ensures a in nodes <==> page <= a < page + limit && Aligned(a - page, size) {
        if page <= a < page + limit && Aligned(a - page, size) { AlignedBelow(a - page, limit, size); }
      }
      assert page + limit - size !in rest;
      forall i, j | 0 <= i < j < |nodes| ensures nodes[i] != nodes[j] {
        assert nodes[j] == rest[j - 1];
        if i > 0 { assert nodes[i] == rest[i - 1]; }
      }
    }
  }

  lemma EmptyList(m: Memory)
    ensures Follow(m, 0, 0) == [] && End(m, 0, 0) == 0
  {
  }

  lemma NodeInPage(page: nat, size: nat, limit: nat)
    requires SizeClass(size) && IsPage(page) && size <= limit <= PAGE_SIZE && Aligned(limit, size)
    ensures HoldsLink(page + limit - size) && PageOf(page + limit - size) == PageOf(page) && page + limit <= MEMORY_LIMIT
  {
    OneObjectLess(limit, size);
    hide Aligned;
    assert page == PageOf(page) * PAGE_SIZE;
  }

  /** Linking writes only to the page, and makes a list of exactly its objects. */
  lemma {:induction false} LinkedIsList(m: Memory, page: nat, size: nat, limit: nat)
    requires |m.ram| == PAGE_COUNT && SizeClass(size) && IsPage(page) && limit <= PAGE_SIZE && Aligned(limit, size)
    ensures var m', nodes := Linked(m, page, size, limit), Nodes(page, size, limit);
            var head := if limit < size then 0 else page + limit - size;
            && Follow(m', head, |nodes|) == nodes && End(m', head, |nodes|) == 0
            && forall p | 0 <= p < PAGE_COUNT && p != PageOf(page) :: m'.ram[p] == m.ram[p]
    decreases limit
  {
    hide Store, Load, Follow, End, Aligned, HoldsLink, PageOf, IsPage;
    if limit < size {
      EmptyList(m);
    } else {
      NodeInPage(page, size, limit);
      OneObjectLess(limit, size);
      LinkedIsList(m, page, size, limit - size);
      NodesAre(page, size, limit - size);
      var m1, nodes := Linked(m, page, size, limit - size), Nodes(page, size, limit - size);
      var node, link := page + limit - size, if limit < 2 * size then 0 else page + limit - 2 * size;
      forall x | x in nodes ensures x + LINK_SIZE <= node {
        AlignedBelow(x - page, limit - size, size);
      }
      PushNode(m1, nodes, link, node);
    }
  }
}
