/** MemCache::Allocate and MemCache::Free keep the heap invariant, also when a data slab's descriptor is
    taken from or returned to the meta cache on the way. */
module HeapSteps {
  import opened Arithmetic
  import opened PageAllocator
  import opened Heap
  import opened HeapInvariant

  ghost predicate IsData(h: Heap, a: int) {
    a in h.slabs && h.slabs[a].cache != META
  }

  ghost predicate SameSlab(h: Heap, h': Heap, a: int) {
    (IsData(h, a) <==> IsData(h', a)) && (IsData(h, a) ==> h.slabs[a] == h'.slabs[a])
  }

  /** The pages that callers took with AllocPage. */
  ghost function DirectPages(h: Heap): set<int> {
    set p | p in h.role && h.role[p] == Direct
  }

  /** Data slabs outside x, multi-page blocks, the managed pages, those lent directly and the page limits are
      unchanged. */
  ghost predicate SameData(h: Heap, h': Heap, x: set<int>) {
    && (forall a :: a !in x ==> SameSlab(h, h', a))
    && h'.blocks == h.blocks && h'.nr == h.nr && h'.role.Keys == h.role.Keys && DirectPages(h') == DirectPages(h)
    && (forall c :: 0 <= c <= META && c in h.caches ==> c in h'.caches && h'.caches[c].maxPg == h.caches[c].maxPg)
  }

  /** A page that changes hands inside the allocator. */
  lemma RoleChange(h: Heap, h': Heap, p: int, r: Role)
    requires p in h.role && h.role[p] != Direct && r != Direct && h'.role == h.role[p := r]
    ensures DirectPages(h') == DirectPages(h) && h'.role.Keys == h.role.Keys
  {
  }

  lemma SameDataThen(h: Heap, h1: Heap, h2: Heap, x: set<int>)
    requires SameData(h, h1, {}) && SameData(h1, h2, x)
    ensures SameData(h, h2, x)
  {
    forall a | a !in x ensures SameSlab(h, h2, a) {
      assert SameSlab(h, h1, a) && SameSlab(h1, h2, a);
    }
  }

  /** The tail of Allocate: a loose slab with a free slot gives it out and is queued again. */
  lemma FinishAllocate(h: Heap, c: nat, a: int, pending: set<(int, nat)>)
    requires Mid(h, c, [a], pending) && a in h.slabs && h.slabs[a].free != []
    ensures var h' := Enqueue(TakeSlot(h, c, a), c, a);
            && AdjustSlab(TakeSlot(h, c, a), c, a) == Done(h', a)
            && Mid(h', META, [], if c == META then pending + {(a, h.slabs[a].free[0])} else pending)
            && SameData(h, h', {a}) && h'.slabs == h.slabs[a := h.slabs[a].(free := h.slabs[a].free[1..])]
            && h'.ring == h.ring && h'.reclaimed == h.reclaimed
            && (forall d :: d != c && d in h.caches ==> d in h'.caches && h'.caches[d] == h.caches[d])
  {
    hide PagesOk, OwnersOk, BlocksOk, RetiredOk, DescriptorsOk, QueuesOk, CountsOk;
    LooseFacts(h, c, a);
    assert SlabOk(h, a);
    TakeSlotKeeps(h, c, a, pending);
    EnqueueKeeps(TakeSlot(h, c, a), c, a, if c == META then pending + {(a, h.slabs[a].free[0])} else pending);
  }

  predicate HasRoom(h: Heap, c: nat)
    requires c in h.caches
  {
    h.caches[c].half != [] || h.caches[c].empty != []
  }

  /** Pages an allocation from cache c takes: none if a slab has room, else one, or two when the meta cache
      has no room for the descriptor either. */
  function PagesNeeded(h: Heap, c: nat): nat
    requires c in h.caches && META in h.caches
  {
    if HasRoom(h, c) then 0 else if c == META || HasRoom(h, META) then 1 else 2
  }

  ghost predicate CachesButSame(h: Heap, h': Heap, c: nat) {
    forall d :: d != c && d in h.caches ==> d in h'.caches && h'.caches[d] == h.caches[d]
  }

  /** A slab of the cache that has room, if there is one. */
  lemma PickQueued(h: Heap, c: nat)
    requires Inv(h) && c <= META && HasRoom(h, c)
    ensures PickSlab(h, c).Done?
    ensures var r := PickSlab(h, c);
            && Mid(r.h, c, [r.addr], {}) && r.h.slabs == h.slabs && r.h.ring == h.ring && r.h.reclaimed == h.reclaimed
            && r.addr in h.slabs && h.slabs[r.addr].cache == c && h.slabs[r.addr].free != []
            && SameData(h, r.h, {}) && CachesButSame(h, r.h, c)
  {
    hide Base, Lists;
    InvParts(h);
    var f := if h.caches[c].half != [] then Half else Empty;
    PopFront(h, META, c, f, {});
  }

  lemma PickNewMeta(h: Heap)
    requires Inv(h) && !HasRoom(h, META)
    ensures PickSlab(h, META).Fault? <==> |h.ring| <= 1
    ensures var r := PickSlab(h, META); r.Done? ==>
              && Mid(r.h, META, [r.addr], {}) && r.h.ring == h.ring[1..] && r.h.reclaimed == h.reclaimed
              && r.addr in r.h.slabs && r.h.slabs[r.addr].cache == META && r.h.slabs[r.addr].free != []
              && r.h.slabs[r.addr].page * PAGESIZE == r.addr
              && SameData(h, r.h, {}) && CachesButSame(h, r.h, META)
  {
    hide OwnersOk, BlocksOk, RetiredOk, Lists, Mid, DirectPages;
    if |h.ring| > 1 {
      var p := h.ring[0];
      var a := p * PAGESIZE;
      InvParts(h);
      assert p in h.ring;
      RoleChange(h, PickSlab(h, META).h, p, MetaPage);
      AddressFree(h, {}, a);
      var none: set<(int, nat)> := {};
      InstallKeeps(h, META, META, a, a, 0, none);
      FreshSlotsOk(META);
      assert none - {(a, 0)} == none;
    }
  }

  lemma InvParts(h: Heap)
    requires Inv(h)
    ensures PagesOk(h) && SlabsOk(h) && DescriptorsOk(h, {}) && Lists(h, META, [])
    ensures forall c :: 0 <= c <= META ==> c in h.caches
  {
  }

  /** h is a heap with one descriptor, at address d, handed out but not yet in use. */
  ghost predicate OnePending(h: Heap, d: int, p: int, i: nat) {
    p > 0 && 0 < i < 64 && d == DescriptorAt(p * PAGESIZE, i) && Mid(h, META, [], {(p * PAGESIZE, i)})
  }

  lemma FinishAllocateMeta(h: Heap, a: int)
    requires Mid(h, META, [a], {}) && a in h.slabs && h.slabs[a].free != []
    ensures AdjustSlab(TakeSlot(h, META, a), META, a).Done?
    ensures var h' := AdjustSlab(TakeSlot(h, META, a), META, a).h;
            && OnePending(h', h.slabs[a].page * PAGESIZE + h.slabs[a].free[0] * DESCRIPTOR_SIZE, h.slabs[a].page,
                          h.slabs[a].free[0])
            && SameData(h, h', {}) && h'.ring == h.ring && h'.reclaimed == h.reclaimed && CachesButSame(h, h', META)
  {
    hide Base, Lists;
    LooseFacts(h, META, a);
    MetaSlot(h, a, {});
    FinishAllocate(h, META, a, {});
    var none: set<(int, nat)> := {};
    assert none + {(a, h.slabs[a].free[0])} == {(a, h.slabs[a].free[0])};
    MetaOnly(h, AdjustSlab(TakeSlot(h, META, a), META, a).h, a);
  }

  lemma PickMeta(h: Heap)
    requires Inv(h)
    ensures META in h.caches
    ensures PickSlab(h, META).Fault? <==> PagesNeeded(h, META) > 0 && |h.ring| <= PagesNeeded(h, META)
    ensures var r := PickSlab(h, META); r.Done? ==>
              && Mid(r.h, META, [r.addr], {}) && r.addr in r.h.slabs && r.h.slabs[r.addr].free != []
              && r.h.ring == h.ring[PagesNeeded(h, META)..] && r.h.reclaimed == h.reclaimed
              && SameData(h, r.h, {}) && CachesButSame(h, r.h, META)
  {
    hide Mid, Inv, SameData;
    InvParts(h);
    if HasRoom(h, META) {
      PickQueued(h, META);
    } else {
      PickNewMeta(h);
    }
  }

  lemma AllocateMeta(h: Heap)
    requires Inv(h)
    ensures META in h.caches
    ensures Allocate(h, META).Fault? <==> PagesNeeded(h, META) > 0 && |h.ring| <= PagesNeeded(h, META)
    ensures var r := Allocate(h, META); r.Done? ==>
              && (exists p, i: nat :: OnePending(r.h, r.addr, p, i))
              && r.h.ring == h.ring[PagesNeeded(h, META)..] && r.h.reclaimed == h.reclaimed
              && SameData(h, r.h, {}) && CachesButSame(h, r.h, META)
  {
    hide Mid, Inv, SameData, OnePending, TakeSlot, AdjustSlab, PickSlab, PagesNeeded;
    PickMeta(h);
    var r := PickSlab(h, META);
    if r.Done? {
      LooseInCache(r.h, META, r.addr, {});
      FinishAllocateMeta(r.h, r.addr);
      SameDataThen(h, r.h, Allocate(h, META).h, {});
    }
  }

  lemma LooseInCache(h: Heap, c: nat, a: int, pending: set<(int, nat)>)
    requires Mid(h, c, [a], pending)
    ensures c <= META && c in h.caches && a in h.slabs && h.slabs[a].cache == c
  {
    LooseFacts(h, c, a);
  }

  lemma MetaSlot(h: Heap, a: int, pending: set<(int, nat)>)
    requires Mid(h, META, [a], pending) && a in h.slabs && h.slabs[a].cache == META && h.slabs[a].free != []
    ensures h.slabs[a].page > 0 && a == h.slabs[a].page * PAGESIZE && 0 < h.slabs[a].free[0] < 64
  {
    assert SlabOk(h, a) && h.slabs[a].free[0] in h.slabs[a].free;
  }

  /** A change to a meta slab's free slots is no change to any data slab. */
  lemma MetaOnly(h: Heap, h': Heap, a: int)
    requires SameData(h, h', {a}) && a in h.slabs && h.slabs[a].cache == META && a in h'.slabs
    requires h'.slabs[a].cache == META
    ensures SameData(h, h', {})
  {
    forall b ensures SameSlab(h, h', b) {
      assert b !in {a} ==> SameSlab(h, h', b);
    }
  }

  lemma NewDataSlab(h: Heap, c: nat, d: int, p: int, i: nat)
    requires c < META && OnePending(h, d, p, i) && |h.ring| > 1 && c in h.caches && !HasRoom(h, c)
    ensures d / PAGESIZE * PAGESIZE == p * PAGESIZE && d % PAGESIZE / DESCRIPTOR_SIZE == i
    ensures d !in h.slabs
    ensures var h' := Install(h, c, d, p * PAGESIZE, i);
            && Mid(h', c, [d], {}) && SameData(h, h', {d})
            && d in h'.slabs && h'.slabs[d] == Slab(c, h.ring[0], p * PAGESIZE, i, FreshSlots(c))
            && h.ring[0] in h.role && h.role[h.ring[0]] == Free
  {
    hide OwnersOk, BlocksOk, RetiredOk, Lists, QueuesOk, CountsOk;
    DescriptorParts(p, i);
    var one: set<(int, nat)> := {(p * PAGESIZE, i)};
    assert Mid(h, META, [], one) && (p * PAGESIZE, i) in one;
    AddressFree(h, one, d);
    InstallKeeps(h, META, c, d, p * PAGESIZE, i, one);
    assert one - {(p * PAGESIZE, i)} == {};
    assert h.ring[0] in h.ring;
  }

  lemma PickNewData(h: Heap, c: nat)
    requires Inv(h) && c < META && c in h.caches && META in h.caches && !HasRoom(h, c)
    ensures PickSlab(h, c).Fault? <==> |h.ring| <= PagesNeeded(h, c)
    ensures var r := PickSlab(h, c); r.Done? ==>
              && Mid(r.h, c, [r.addr], {}) && SameData(h, r.h, {r.addr}) && !IsData(h, r.addr)
              && r.addr in r.h.slabs && r.h.slabs[r.addr].free == FreshSlots(c)
              && |h.ring| > PagesNeeded(h, c) && r.h.ring == h.ring[PagesNeeded(h, c)..] && r.h.reclaimed == h.reclaimed
  {
    hide Mid, Inv, SameData, OnePending, Allocate, FreshSlots;
    AllocateMeta(h);
    var r := Allocate(h, META);
    if r.Done? && |r.h.ring| > 1 {
      var p, i: nat :| OnePending(r.h, r.addr, p, i);
      assert r.h.caches[c] == h.caches[c];
      NewDataSlab(r.h, c, r.addr, p, i);
      SameDataThen(h, r.h, Install(r.h, c, r.addr, p * PAGESIZE, i), {r.addr});
      NotData(h, r.h, r.addr);
    }
  }

  lemma NotData(h: Heap, h': Heap, a: int)
    requires SameData(h, h', {}) && a !in h'.slabs
    ensures !IsData(h, a)
  {
    assert SameSlab(h, h', a);
  }

  /** The free slots slab a has, or will have when it is created for cache c. */
  function FreeBefore(h: Heap, c: nat, a: int): seq<nat>
    requires c <= META
  {
    if a in h.slabs && h.slabs[a].cache != META then h.slabs[a].free else FreshSlots(c)
  }

  /** Slot i of slab a, in cache c, is taken, and nothing else about the data slabs changes. */
  ghost predicate Taken(h: Heap, h': Heap, c: nat, a: int, i: nat) {
    && c < META && SameData(h, h', {a})
    && IsData(h', a) && h'.slabs[a].cache == c
    && (IsData(h, a) ==> h.slabs[a].cache == c && h.slabs[a].page == h'.slabs[a].page)
    && FreeBefore(h, c, a) != [] && i == FreeBefore(h, c, a)[0] && h'.slabs[a].free == FreeBefore(h, c, a)[1..]
  }

  function ObjectAt(h: Heap, a: int, i: nat): int
    requires a in h.slabs && h.slabs[a].cache <= META
  {
    h.slabs[a].page * PAGESIZE + i * ObjSize(h.slabs[a].cache)
  }

  lemma PickData(h: Heap, c: nat)
    requires Inv(h) && c < META
    ensures c in h.caches && META in h.caches
    ensures PickSlab(h, c).Fault? <==> PagesNeeded(h, c) > 0 && |h.ring| <= PagesNeeded(h, c)
    ensures var r := PickSlab(h, c); r.Done? ==>
              && Mid(r.h, c, [r.addr], {}) && SameData(h, r.h, {r.addr})
              && r.addr in r.h.slabs && r.h.slabs[r.addr].free == FreeBefore(h, c, r.addr) != []
              && (IsData(h, r.addr) ==> h.slabs[r.addr].cache == c && h.slabs[r.addr].page == r.h.slabs[r.addr].page)
              && r.h.ring == h.ring[PagesNeeded(h, c)..] && r.h.reclaimed == h.reclaimed
  {
    hide Mid, Inv;
    InvParts(h);
    if HasRoom(h, c) {
      PickQueued(h, c);
    } else {
      PickNewData(h, c);
      FreshSlotsOk(c);
    }
  }

  lemma AllocateData(h: Heap, c: nat)
    requires Inv(h) && c < META
    ensures c in h.caches && META in h.caches
    ensures Allocate(h, c).Fault? <==> PagesNeeded(h, c) > 0 && |h.ring| <= PagesNeeded(h, c)
    ensures var r := Allocate(h, c); r.Done? ==>
              && Inv(r.h) && r.h.ring == h.ring[PagesNeeded(h, c)..] && r.h.reclaimed == h.reclaimed
              && exists a, i: nat :: Taken(h, r.h, c, a, i) && r.addr == ObjectAt(r.h, a, i)
  {
    hide Base, Lists, PickSlab, PagesNeeded, AdjustSlab, FreeBefore;
    PickData(h, c);
    var r := PickSlab(h, c);
    if r.Done? {
      LooseInCache(r.h, c, r.addr, {});
      FinishAllocate(r.h, c, r.addr, {});
      var h' := Allocate(h, c).h;
      var i := FreeBefore(h, c, r.addr)[0];
      SameButOne(h, r.h, h', r.addr);
      assert Taken(h, h', c, r.addr, i);
      assert Allocate(h, c).addr == ObjectAt(h', r.addr, i);
    }
  }

  lemma SameButOne(h: Heap, h1: Heap, h2: Heap, a: int)
    requires SameData(h, h1, {a}) && SameData(h1, h2, {a})
    ensures SameData(h, h2, {a})
  {
    forall b | b !in {a} ensures SameSlab(h, h2, b) {
      assert SameSlab(h, h1, b) && SameSlab(h1, h2, b);
    }
  }

  /** An object's address tells its page and its slot. */
  lemma ObjectParts(c: nat, p: int, i: nat)
    requires c <= META && IsSlot(c, i)
    ensures var x := p * PAGESIZE + i * ObjSize(c);
            x / PAGESIZE == p && x % PAGESIZE / ObjSize(c) == i && x % PAGESIZE + ObjSize(c) <= PAGESIZE
  {
    hide ObjSize;
    var size := ObjSize(c);
    SlotInPage(c, i);
    DivMod(p * PAGESIZE + i * size, PAGESIZE, p, i * size);
    DivMod(i * size, size, i, 0);
  }

  lemma SlotInPage(c: nat, i: nat)
    requires c <= META && IsSlot(c, i)
    ensures 0 <= i * ObjSize(c) && i * ObjSize(c) + ObjSize(c) <= PAGESIZE
  {
  }

  /** The slot goes back to a slab taken off its queue. */
  lemma GiveBack(h: Heap, c: nat, a: int, i: nat, pending: set<(int, nat)>)
    requires Mid(h, META, [], pending) && c <= META && a in h.slabs && h.slabs[a].cache == c
    requires IsSlot(c, i) && i !in h.slabs[a].free && (c == META ==> (a, i) in pending)
    ensures c in h.caches
    ensures var h' := PutSlot(Detach(h, c, a), c, a, i);
            && Mid(h', c, [a], if c == META then pending - {(a, i)} else pending)
            && h'.slabs == h.slabs[a := h.slabs[a].(free := PutBack(c, h.slabs[a].free, i))]
            && h'.ring == h.ring && h'.role == h.role && h'.reclaimed == h.reclaimed
            && SameData(h, h', {a}) && CachesButSame(h, h', c)
            && FreeObject(h, c, h.slabs[a].page * PAGESIZE + i * ObjSize(c)) == AdjustSlab(h', c, a)
            && c in h'.caches && h'.caches[c].slabPg == h.caches[c].slabPg && h'.caches[c].maxPg == h.caches[c].maxPg
  {
    hide PagesOk, OwnersOk, BlocksOk, RetiredOk, DescriptorsOk, Lists, AdjustSlab;
    assert SlabOk(h, a);
    ListsCaches(h, META, []);
    ObjectParts(c, h.slabs[a].page, i);
    DetachKeeps(h, META, c, a, pending);
    PutSlotKeeps(Detach(h, c, a), c, a, i, pending);
  }

  lemma ListsCaches(h: Heap, lc: nat, loose: seq<int>)
    requires Lists(h, lc, loose)
    ensures forall c :: 0 <= c <= META ==> c in h.caches
  {
  }

  lemma AdjustMeta(h: Heap, a: int)
    requires Mid(h, META, [a], {}) && a in h.slabs
    ensures AdjustSlab(h, META, a).Done?
    ensures var h' := AdjustSlab(h, META, a).h;
            Inv(h') && SameData(h, h', {}) && h'.reclaimed == h.reclaimed && CachesButSame(h, h', META)
  {
    hide PagesOk, OwnersOk, BlocksOk, RetiredOk, DescriptorsOk, QueuesOk, CountsOk;
    LooseFacts(h, META, a);
    assert SlabOk(h, a);
    if |h.slabs[a].free| == Capacity(META) && h.caches[META].slabPg > h.caches[META].maxPg {
      DropMetaKeeps(h, a, {});
    } else {
      EnqueueKeeps(h, META, a, {});
    }
  }

  /** Freeing a descriptor that describes no slab. */
  lemma FreeMeta(h: Heap, d: int, p: int, i: nat)
    requires OnePending(h, d, p, i)
    ensures FreeObject(h, META, d).Done?
    ensures var h' := FreeObject(h, META, d).h;
            Inv(h') && SameData(h, h', {}) && h'.reclaimed == h.reclaimed && CachesButSame(h, h', META)
  {
    hide Base, Lists, PutSlot, AdjustSlab, FreeObject;
    var m := p * PAGESIZE;
    var one: set<(int, nat)> := {(m, i)};
    PendingSlab(h, m, i, one);
    GiveBack(h, META, m, i, one);
    assert one - {(m, i)} == {};
    var h1 := PutSlot(Detach(h, META, m), META, m, i);
    AdjustMeta(h1, m);
    MetaOnly(h, h1, m);
    SameDataThen(h, h1, FreeObject(h, META, d).h, {});
  }

  lemma PendingSlab(h: Heap, m: int, i: nat, pending: set<(int, nat)>)
    requires Mid(h, META, [], pending) && (m, i) in pending
    ensures HandedOut(h, m, i) && m == h.slabs[m].page * PAGESIZE
  {
    assert HandedOut(h, m, i) && SlabOk(h, m);
  }

  /** The last object of a data slab comes back while the cache has more slabs than its limit. */
  lemma ReclaimData(h: Heap, c: nat, a: int)
    requires Mid(h, c, [a], {}) && c < META && a in h.slabs && |h.slabs[a].free| == Capacity(c)
    requires c in h.caches
    ensures FreeObject(DropData(h, c, a), META, a).Done?
    ensures var h' := FreeObject(DropData(h, c, a), META, a).h;
            Inv(h') && SameData(h, h', {a}) && !IsData(h', a) && h'.reclaimed == h.reclaimed + 1
  {
    hide Lists, FreeObject, SameData, PagesOk, OwnersOk, BlocksOk, RetiredOk, SlabsOk, DescriptorsOk;
    LooseFacts(h, c, a);
    var h1 := DropData(h, c, a);
    var s := h.slabs[a];
    DropDataKeeps(h, c, a, {});
    var none: set<(int, nat)> := {};
    assert none + {(s.home, s.slot)} == {(s.home, s.slot)};
    DataHome(h, a);
    assert OnePending(h1, a, h.slabs[s.home].page, s.slot);
    FreeMeta(h1, a, h.slabs[s.home].page, s.slot);
    SlabPageRole(h, a);
    DropDataSame(h, c, a);
    SameThen(h, h1, FreeObject(h1, META, a).h, a);
  }

  lemma DropDataSame(h: Heap, c: nat, a: int)
    requires c in h.caches && a in h.slabs && h.slabs[a].page in h.role && h.role[h.slabs[a].page] != Direct
    ensures SameData(h, DropData(h, c, a), {a}) && !IsData(DropData(h, c, a), a)
  {
    RoleChange(h, DropData(h, c, a), h.slabs[a].page, Retired);
  }

  lemma SlabPageRole(h: Heap, a: int)
    requires SlabsOk(h) && a in h.slabs
    ensures h.slabs[a].page in h.role && h.role[h.slabs[a].page] != Direct
  {
    assert SlabOk(h, a);
  }

  lemma SameThen(h: Heap, h1: Heap, h2: Heap, a: int)
    requires SameData(h, h1, {a}) && SameData(h1, h2, {})
    ensures SameData(h, h2, {a}) && (IsData(h2, a) <==> IsData(h1, a))
  {
    forall b | b !in {a} ensures SameSlab(h, h2, b) {
      assert SameSlab(h, h1, b) && SameSlab(h1, h2, b);
    }
    assert SameSlab(h1, h2, a);
  }

  lemma DataHome(h: Heap, a: int)
    requires SlabsOk(h) && PagesOk(h) && DescriptorsOk(h, {}) && IsData(h, a)
    ensures var s := h.slabs[a];
            && s.home in h.slabs && h.slabs[s.home].page > 0 && s.home == h.slabs[s.home].page * PAGESIZE
            && 0 < s.slot < 64 && a == DescriptorAt(s.home, s.slot) && s.page in h.role
  {
    var s := h.slabs[a];
    assert SlabOk(h, a) && HandedOut(h, s.home, s.slot);
    HomeFacts(h, s.home, s.slot);
  }

  /** Slot i of slab a, in cache c, is given back; the slab goes when that empties it beyond the limit. */
  ghost predicate GivenBack(h: Heap, h': Heap, c: nat, a: int, i: nat) {
    && c < META && c in h.caches && SameData(h, h', {a}) && IsData(h, a)
    && if |h.slabs[a].free| + 1 == Capacity(c) && h.caches[c].slabPg > h.caches[c].maxPg then
         !IsData(h', a) && h'.reclaimed == h.reclaimed + 1
       else
         && IsData(h', a) && h'.slabs[a] == h.slabs[a].(free := PutBack(c, h.slabs[a].free, i))
         && h'.reclaimed == h.reclaimed
  }

  lemma AdjustData(h: Heap, c: nat, a: int)
    requires Mid(h, c, [a], {}) && c < META && a in h.slabs && c in h.caches
    ensures AdjustSlab(h, c, a).Done?
    ensures var h' := AdjustSlab(h, c, a).h;
            && Inv(h') && SameData(h, h', {a})
            && if |h.slabs[a].free| == Capacity(c) && h.caches[c].slabPg > h.caches[c].maxPg then
                 !IsData(h', a) && h'.reclaimed == h.reclaimed + 1
               else
                 a in h'.slabs && h'.slabs[a] == h.slabs[a] && h'.reclaimed == h.reclaimed
  {
    hide Base, Lists, FreeObject;
    LooseFacts(h, c, a);
    if |h.slabs[a].free| == Capacity(c) && h.caches[c].slabPg > h.caches[c].maxPg {
      ReclaimData(h, c, a);
    } else {
      EnqueueKeeps(h, c, a, {});
    }
  }

  lemma FreeData(h: Heap, c: nat, a: int, i: nat)
    requires Inv(h) && c < META && a in h.slabs && h.slabs[a].cache == c && IsSlot(c, i) && i !in h.slabs[a].free
    ensures var r := FreeObject(h, c, ObjectAt(h, a, i)); r.Done? && Inv(r.h) && GivenBack(h, r.h, c, a, i)
  {
    hide Base, Lists, PutSlot, AdjustSlab, FreeObject, SameData, PutBack;
    GiveBack(h, c, a, i, {});
    var h1 := PutSlot(Detach(h, c, a), c, a, i);
    AdjustData(h1, c, a);
    SlotsAfter(h, c, a, i);
    SameButOne(h, h1, AdjustSlab(h1, c, a).h, a);
  }

  lemma SlotsAfter(h: Heap, c: nat, a: int, i: nat)
    requires Inv(h) && c <= META && a in h.slabs && h.slabs[a].cache == c && IsSlot(c, i) && i !in h.slabs[a].free
    ensures |PutBack(c, h.slabs[a].free, i)| == |h.slabs[a].free| + 1
  {
    assert SlabOk(h, a);
    PutBackSlots(c, h.slabs[a].free, i);
  }
}
