/** The slab allocator of kern/mm/uslab.cc over the page ring of kern/mm/allocator.cc, as a state and the
    functions that take it from one call to the next.

    Addresses are physical; the pointers the kernel hands out are these plus a constant offset.  A slab is
    known by the address of its descriptor.  The free slots of a slab are listed in the order in which they
    will be handed out.  Running out of pages, or following a pointer that leads nowhere, is a Fault. */
module Heap {
  import opened PageAllocator
  import opened SortedLists
  import SlabStack

  /** Caches 0 to 7 hold objects of 16 << c bytes; cache 8 is meta_slab_cache, whose objects are descriptors. */
  const META: nat := 8
  const DESCRIPTOR_SIZE: nat := 64

  function ObjSize(c: nat): (r: nat)
    requires c <= META
    ensures 16 <= r <= 2048
  {
    match c
    case 0 => 16 case 1 => 32 case 2 => 64 case 3 => 128
    case 4 => 256 case 5 => 512 case 6 => 1024 case 7 => 2048
    case _ => 64
  }

  /** Objects a slab holds: 32 per bitmap row for the first three, a page's worth for the stacks, and the
      63 descriptors after a meta slab's header. */
  function Capacity(c: nat): (r: nat)
    requires c <= META
    ensures 2 <= r <= 128
  {
    match c
    case 0 => 128 case 1 => 64 case 2 => 32 case 3 => 32
    case 4 => 16 case 5 => 8 case 6 => 4 case 7 => 2
    case _ => 63
  }

  function FirstSlot(c: nat): nat {
    if c == META then 1 else 0
  }

  predicate IsSlot(c: nat, i: nat)
    requires c <= META
  {
    FirstSlot(c) <= i < FirstSlot(c) + Capacity(c)
  }

  function FreshSlots(c: nat): seq<nat>
    requires c <= META
  {
    if c < 3 then Ascending(Capacity(c)) else SlabStack.CountDown(FirstSlot(c), Capacity(c))
  }

  /** Where a freed slot goes: bitmaps hand out the lowest slot, stacks and rings the last one freed. */
  function PutBack(c: nat, free: seq<nat>, i: nat): seq<nat> {
    if c < 3 then Insert(free, i) else [i] + free
  }

  /** What a managed page is used for. */
  datatype Role = Free | MetaPage | DataPage(slab: int) | BlockPage(start: int) | Direct | Retired

  /** home and slot say where a data slab's descriptor was carved; a meta slab is its own home. */
  datatype Slab = Slab(cache: nat, page: int, home: int, slot: nat, free: seq<nat>)

  datatype Cache = Cache(full: seq<int>, half: seq<int>, empty: seq<int>, slabPg: int, inUse: int, maxPg: nat)

  datatype Heap = Heap(
    nr: nat,
    ring: seq<int>,
    slabPtr: map<int, int>,
    objSize: map<int, int>,
    caches: map<nat, Cache>,
    slabs: map<int, Slab>,
    blocks: map<int, nat>,
    role: map<int, Role>,
    reclaimed: nat)

  datatype Outcome = Done(h: Heap, addr: int) | Fault

  // ----- pages

  function TakePage(h: Heap, r: Role): Outcome {
    if |h.ring| <= 1 then Fault
    else Done(h.(ring := h.ring[1..], role := h.role[h.ring[0] := r]), h.ring[0])
  }

  function GivePage(h: Heap, p: int): Heap {
    h.(ring := [p] + h.ring, role := h.role[p := Free])
  }

  // ----- queues

  function Without(q: seq<int>, a: int): (r: seq<int>) {
    if q == [] then [] else if q[0] == a then q[1..] else [q[0]] + Without(q[1..], a)
  }

  function SetCache(h: Heap, c: nat, k: Cache): Heap {
    h.(caches := h.caches[c := k])
  }

  /** list_node()->Delete(), whichever queue the slab is on. */
  function Detach(h: Heap, c: nat, a: int): Heap
    requires c in h.caches
  {
    var k := h.caches[c];
    SetCache(h, c, k.(full := Without(k.full, a), half := Without(k.half, a), empty := Without(k.empty, a)))
  }

  /** The queue that matches the slab's occupancy. */
  function Enqueue(h: Heap, c: nat, a: int): Heap
    requires c <= META && c in h.caches && a in h.slabs
  {
    var k := h.caches[c];
    if h.slabs[a].free == [] then SetCache(h, c, k.(full := [a] + k.full))
    else if |h.slabs[a].free| == Capacity(c) then SetCache(h, c, k.(empty := [a] + k.empty))
    else SetCache(h, c, k.(half := [a] + k.half))
  }

  // ----- slabs

  function AddSlab(h: Heap, c: nat, a: int, p: int, home: int, slot: nat): Heap
    requires c <= META && c in h.caches
  {
    var k := h.caches[c];
    SetCache(h, c, k.(slabPg := k.slabPg + 1)).(
      slabs := h.slabs[a := Slab(c, p, home, slot, FreshSlots(c))],
      slabPtr := h.slabPtr[p := a],
      objSize := h.objSize[p := ObjSize(c)])
  }

  function TakeSlot(h: Heap, c: nat, a: int): Heap
    requires c in h.caches && a in h.slabs && h.slabs[a].free != []
  {
    var k, s := h.caches[c], h.slabs[a];
    SetCache(h, c, k.(inUse := k.inUse + 1)).(slabs := h.slabs[a := s.(free := s.free[1..])])
  }

  function PutSlot(h: Heap, c: nat, a: int, i: nat): Heap
    requires c in h.caches && a in h.slabs
  {
    var k, s := h.caches[c], h.slabs[a];
    SetCache(h, c, k.(inUse := k.inUse - 1)).(slabs := h.slabs[a := s.(free := PutBack(c, s.free, i))])
  }

  /** stat.slab_pg-- and MetaSlab::FreeSlab: the page goes back to the ring. */
  function DropMeta(h: Heap, a: int): Heap
    requires META in h.caches && a in h.slabs
  {
    var k := h.caches[META];
    GivePage(SetCache(h, META, k.(slabPg := k.slabPg - 1)).(slabs := h.slabs - {a}), h.slabs[a].page)
  }

  /** stat.slab_pg-- and the part of BaseSlab::FreeSlab before the descriptor is freed.  Nothing gives the
      data page back, so it is out of use from here on. */
  function DropData(h: Heap, c: nat, a: int): Heap
    requires c in h.caches && a in h.slabs
  {
    var k := h.caches[c];
    SetCache(h, c, k.(slabPg := k.slabPg - 1)).(
      slabs := h.slabs - {a},
      role := h.role[h.slabs[a].page := Retired],
      reclaimed := h.reclaimed + 1)
  }

  // ----- MemCache<Slab, ObjSize>

  function Level(c: nat): nat {
    if c == META then 0 else 1
  }

  /** MetaSlab::AllocSlab, or BaseSlab::AllocSlab, whose descriptor comes from the meta cache. */
  function NewSlab(h: Heap, c: nat): Outcome
    requires c <= META
    decreases Level(c), 3
  {
    if c !in h.caches then Fault
    else if c == META then
      match TakePage(h, MetaPage)
      case Fault => Fault
      case Done(h1, p) => Done(AddSlab(h1, c, p * PAGESIZE, p, p * PAGESIZE, 0), p * PAGESIZE)
    else
      match Allocate(h, META)
      case Fault => Fault
      case Done(h1, d) =>
        match TakePage(h1, DataPage(d))
        case Fault => Fault
        case Done(h2, p) =>
          if c !in h2.caches then Fault
          else Done(AddSlab(h2, c, d, p, d / PAGESIZE * PAGESIZE, d % PAGESIZE / DESCRIPTOR_SIZE), d)
  }

  /** The slab an allocation will use, taken off its queue. */
  function PickSlab(h: Heap, c: nat): Outcome
    requires c <= META
    decreases Level(c), 4
  {
    if c !in h.caches then Fault
    else
      var k := h.caches[c];
      if k.half != [] then Done(SetCache(h, c, k.(half := k.half[1..])), k.half[0])
      else if k.empty != [] then Done(SetCache(h, c, k.(empty := k.empty[1..])), k.empty[0])
      else NewSlab(h, c)
  }

  function Allocate(h: Heap, c: nat): Outcome
    requires c <= META
    decreases Level(c), 5
  {
    match PickSlab(h, c)
    case Fault => Fault
    case Done(h1, a) =>
      if c in h1.caches && a in h1.slabs && h1.slabs[a].free != [] then
        var s := h1.slabs[a];
        match AdjustSlab(TakeSlot(h1, c, a), c, a)
        case Fault => Fault
        case Done(h2, _) => Done(h2, s.page * PAGESIZE + s.free[0] * ObjSize(c))
      else Fault
  }

  /** AdjustSlab, with ReclaimEmptySlab and FreeSlab. */
  function AdjustSlab(h: Heap, c: nat, a: int): Outcome
    requires c <= META
    decreases Level(c), 1
  {
    if c !in h.caches || a !in h.slabs then Fault
    else if |h.slabs[a].free| == Capacity(c) && h.caches[c].slabPg > h.caches[c].maxPg then
      if c == META then Done(DropMeta(h, a), a)
      else FreeObject(DropData(h, c, a), META, a)
    else Done(Enqueue(h, c, a), a)
  }

  /** MemCache::Free: the page struct names the slab, the offset names the slot. */
  function FreeObject(h: Heap, c: nat, addr: int): Outcome
    requires c <= META
    decreases Level(c), 2
  {
    var p := addr / PAGESIZE;
    if c in h.caches && p in h.slabPtr && h.slabPtr[p] in h.slabs then
      var a := h.slabPtr[p];
      AdjustSlab(PutSlot(Detach(h, c, a), c, a, addr % PAGESIZE / ObjSize(c)), c, a)
    else Fault
  }

  // ----- Alloc and Free

  /** What FitGlobalMemCache gives for an int: a cache, a failed assertion, or clz of 0, which is undefined. */
  datatype Fit = Class(c: nat) | AssertionFails | Undefined

  /** Bits needed to write a positive int: 32 - clz. */
  function BitLength(x: nat): (n: nat)
  {
    if x == 0 then 0 else 1 + BitLength(x / 2)
  }

  /** obj_size - 1 is a negative int, hence has no leading zeros, for sizes up to 0. */
  function FitCache(size: int): Fit
  {
    if size <= 0 then AssertionFails
    else if size == 1 then Undefined
    else
      var idx := BitLength(size - 1) - 4;
      var c := if idx < 0 then 0 else idx;
      if c < 8 then Class(c) else AssertionFails
  }

  /** An int product: nr_page * PAGESIZE wraps to a negative number at 2^31. */
  function Int32(x: nat): int
    requires x <= 0x8000_0000
  {
    if x < 0x8000_0000 then x else x - 0x1_0000_0000
  }

  function PagesFor(size: int): (n: nat)
    requires size > 2048
  {
    (size - 1) / PAGESIZE + 1
  }

  /** The lowest run of n free pages at or above s. */
  function FirstRun(ring: seq<int>, nr: nat, n: nat, s: nat): (r: int)
    ensures r == -1 || (s <= r && r + n <= nr && RunAt(ring, r, n))
    ensures forall t :: s <= t && t + n <= nr && (r == -1 || t < r) ==> !RunAt(ring, t, n)
    decreases nr - s
  {
    if s + n > nr then -1
    else if RunAt(ring, s, n) then s
    else FirstRun(ring, nr, n, s + 1)
  }

  /** role with the n pages from s on all used for r. */
  function SetRoles(role: map<int, Role>, s: int, n: nat, r: Role): (m: map<int, Role>)
    ensures forall p :: p in m <==> p in role || s <= p < s + n
    ensures forall p :: p in m ==> m[p] == if s <= p < s + n then r else role[p]
  {
    if n == 0 then role else SetRoles(role, s, n - 1, r)[s + n - 1 := r]
  }

  /** Where AllocPages finds n pages; -1 when it gives a null pointer or runs off the page structs. */
  function FindPages(h: Heap, n: nat): int {
    if n == 1 then (if |h.ring| <= 1 then -1 else h.ring[0])
    else FirstRun(h.ring, h.nr, n, 0)
  }

  function AllocBlock(h: Heap, size: int): Outcome
    requires 2048 < size < 0x8000_0000
  {
    var n := PagesFor(size);
    var s := FindPages(h, n);
    if s == -1 then Fault
    else Done(h.(ring := Outside(h.ring, s, s + n), role := SetRoles(h.role, s, n, BlockPage(s)),
                 blocks := h.blocks[s := n], objSize := h.objSize[s := Int32(n * PAGESIZE)]), s * PAGESIZE)
  }

  function Alloc(h: Heap, size: int): Outcome
    requires size < 0x8000_0000
  {
    if size > 2048 then AllocBlock(h, size)
    else
      match FitCache(size)
      case Class(c) => Allocate(h, c)
      case _ => Fault
  }

  /** Free of a pointer that is not null. */
  function Release(h: Heap, addr: int): Outcome
  {
    var p := addr / PAGESIZE;
    if p !in h.objSize then Fault
    else if h.objSize[p] > 2048 then
      var n := h.objSize[p] / PAGESIZE;
      Done(h.(ring := Descending(p, n) + h.ring, role := SetRoles(h.role, p, n, Free), blocks := h.blocks - {p}), addr)
    else
      match FitCache(h.objSize[p])
      case Class(c) => FreeObject(h, c, addr)
      case _ => Fault
  }
}
