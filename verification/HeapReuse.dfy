/** Which memory a call of Alloc is given, over whole runs: the slab used last, and in it the slot freed last or the
    lowest one. */
module HeapReuse {
  import opened Rings
  import opened PageAllocator
  import opened Heap
  import opened HeapInvariant
  import opened HeapSteps
  import opened HeapBlocks
  import opened HeapRuns
  import opened HeapOrder

  /** The slab that the page struct of x names. */
  ghost function SlabOf(h: Heap, x: int): int {
    if x / PAGESIZE in h.slabPtr then h.slabPtr[x / PAGESIZE] else 0
  }

  /** The meta slab whose page holds descriptor a. */
  function HomeOf(a: int): int {
    a / PAGESIZE * PAGESIZE
  }

  /** The slabs in order of last use after a call.  A new slab uses its meta slab first; one that goes uses its meta
      slab last. */
  ghost function UsedAfter(used: seq<int>, s: System, op: Op, t: System): seq<int>
    requires Step(s, op) == Ok(t)
  {
    match op
    case Malloc(size) =>
      if size > 2048 then used
      else
        var a := SlabOf(t.h, Alloc(s.h, size).addr);
        if IsData(s.h, a) then Touch(used, a) else Touch(Touch(used, HomeOf(a)), a)
    case Dispose(x) =>
      if s.live[x] > 2048 then used
      else
        var a := SlabOf(s.h, x);
        if IsData(t.h, a) then Touch(used, a) else Touch(Touch(used, a), HomeOf(a))
    case _ => used
  }

  // ----- one allocation

  /** The descriptor of a new slab comes from a meta slab, which is thereby used. */
  lemma DescriptorUses(h: Heap)
    requires Inv(h) && META in h.caches && (HasRoom(h, META) || |h.ring| > 1)
    ensures var r := Allocate(h, META); r.Done? && Uses(h, r.h, HomeOf(r.addr))
  {
    hide Base, Lists, Allocate, Uses, Queue, HasRoom;
    if HasRoom(h, META) {
      AllocateQueued(h, META);
      var a := Queue(h.caches[META], RoomIn(h, META))[0];
      FirstSlotIs(h, a);
    } else {
      AllocateNewMeta(h);
      ObjectParts(META, h.ring[0], 63);
    }
  }

  lemma FirstSlotIs(h: Heap, a: int)
    requires Inv(h) && a in h.slabs && h.slabs[a].free != []
    ensures h.slabs[a].cache <= META && IsSlot(h.slabs[a].cache, h.slabs[a].free[0])
    ensures var s := h.slabs[a]; (s.page * PAGESIZE + s.free[0] * ObjSize(s.cache)) / PAGESIZE == s.page
    ensures h.slabs[a].cache == META ==> a == h.slabs[a].page * PAGESIZE
    ensures h.slabs[a].cache < 3 ==> forall i :: i in h.slabs[a].free ==> h.slabs[a].free[0] <= i
  {
    hide PagesOk, OwnersOk, BlocksOk, RetiredOk, DescriptorsOk, Lists, ObjSize, Capacity;
    assert SlabOk(h, a);
    var s := h.slabs[a];
    assert s.free[0] in s.free;
    ObjectParts(s.cache, s.page, s.free[0]);
  }

  /** The page struct of any address in a slab's page leads to the slab. */
  lemma PageLeads(h: Heap, a: int, x: int)
    requires Inv(h) && a in h.slabs && x / PAGESIZE == h.slabs[a].page
    ensures SlabOf(h, x) == a
  {
    assert SlabOk(h, a);
  }

  lemma HomeIs(h: Heap, a: int)
    requires Inv(h) && IsData(h, a)
    ensures h.slabs[a].home == HomeOf(a)
  {
    hide Lists;
    DataHome(h, a);
    DescriptorParts(h.slabs[h.slabs[a].home].page, h.slabs[a].slot);
  }

  /** What a call for a small size is given.  With a slab partly used, or else one kept empty, it is the first slot of
      the one used last, and no page is taken.  Otherwise it is the first slot of a new slab, on the page after the
      one its meta slab needs, if it needs one. */
  ghost predicate Gives(h: Heap, used: seq<int>, c: nat, r: Outcome)
    requires c < META && c in h.caches && META in h.caches
  {
    r.Done? && var a := SlabOf(r.h, r.addr);
    if exists b :: Matches(h.slabs, c, Half, b) then MostRecent(used, h.slabs, c, Half, a) && AtFirst(h, c, a, r)
    else if exists b :: Matches(h.slabs, c, Empty, b) then MostRecent(used, h.slabs, c, Empty, a) && AtFirst(h, c, a, r)
    else
      var n := if exists m :: HasSpace(h, m) then 1 else 2;
      && !IsData(h, a) && |h.ring| > n && r.h.ring == h.ring[n..]
      && r.addr == h.ring[n - 1] * PAGESIZE + (if c < 3 then 0 else PAGESIZE - ObjSize(c))
  }

  /** m is a meta slab with a free descriptor. */
  ghost predicate HasSpace(h: Heap, m: int) {
    m in h.slabs && h.slabs[m].cache == META && h.slabs[m].free != []
  }

  /** The object is the first in the order of slab a's slots; that is the lowest in the classes kept as bitmaps. */
  ghost predicate AtFirst(h: Heap, c: nat, a: int, r: Outcome)
    requires c < META
  {
    && IsData(h, a) && h.slabs[a].free != [] && r.Done?
    && r.addr == h.slabs[a].page * PAGESIZE + h.slabs[a].free[0] * ObjSize(c)
    && (c < 3 ==> forall i :: i in h.slabs[a].free ==> h.slabs[a].free[0] <= i)
    && r.h.ring == h.ring
  }

  /** A queue is empty exactly when no slab has its occupancy. */
  lemma QueueNone(h: Heap, c: nat, f: Fill)
    requires Inv(h) && c <= META
    ensures c in h.caches && (Queue(h.caches[c], f) == [] <==> !exists b :: Matches(h.slabs, c, f, b))
  {
    hide Base, CountsOk, FillOf;
    assert QueueHolds(h, c, f, []);
    var q := Queue(h.caches[c], f);
    if q != [] {
      assert q[0] in q;
      assert Matches(h.slabs, c, f, q[0]);
    }
    if b :| Matches(h.slabs, c, f, b) {
      assert Queued(h, b);
    }
  }

  lemma SpaceIff(h: Heap)
    requires Inv(h)
    ensures META in h.caches && (HasRoom(h, META) <==> exists m :: HasSpace(h, m))
  {
    hide Inv, FillOf;
    QueueNone(h, META, Half);
    QueueNone(h, META, Empty);
    forall m ensures HasSpace(h, m) <==> Matches(h.slabs, META, Half, m) || Matches(h.slabs, META, Empty, m) {
      SpaceMatches(h, m);
    }
  }

  lemma SpaceMatches(h: Heap, m: int)
    ensures HasSpace(h, m) <==> Matches(h.slabs, META, Half, m) || Matches(h.slabs, META, Empty, m)
  {
  }

  /** The first object of a new slab: at the start of its page, or the last one on it.  The objects fill the page, or
      half of it in the classes kept as bitmaps. */
  lemma FreshFirst(c: nat)
    requires c < META
    ensures |FreshSlots(c)| > 0 && FreshSlots(c)[0] * ObjSize(c) == if c < 3 then 0 else PAGESIZE - ObjSize(c)
    ensures Capacity(c) * ObjSize(c) == if c < 3 then PAGESIZE / 2 else PAGESIZE
  {
  }

  lemma RoomGives(h: Heap, used: seq<int>, c: nat)
    requires Inv(h) && Recent(h, used) && c < META && c in h.caches && HasRoom(h, c)
    requires Allocate(h, c).Done? && Inv(Allocate(h, c).h)
    ensures var r := Allocate(h, c); var a := SlabOf(r.h, r.addr); var f := RoomIn(h, c);
            && Queue(h.caches[c], f) != [] && MostRecent(used, h.slabs, c, f, a) && AtFirst(h, c, a, r)
            && IsData(h, a) && Recent(r.h, Touch(used, a))
  {
    hide Inv, Allocate, MostRecent, Touch, SlabOf, Pick, FillOf, Uses;
    var f := RoomIn(h, c);
    AllocateQueued(h, c);
    var a := Queue(h.caches[c], f)[0];
    var r := Allocate(h, c);
    FirstSlotIs(h, a);
    PageLeads(r.h, a, r.addr);
    assert QueueRecent(h, used, c, f);
    FirstPicked(used, h.slabs, c, f);
    UseTouches(h, r.h, used, a);
  }

  lemma NewGives(h: Heap, used: seq<int>, c: nat)
    requires Inv(h) && Recent(h, used) && c < META && c in h.caches && META in h.caches && !HasRoom(h, c)
    requires Allocate(h, c).Done? && Inv(Allocate(h, c).h) && |h.ring| > PagesNeeded(h, c)
    ensures var r := Allocate(h, c); var a := SlabOf(r.h, r.addr); var n := PagesNeeded(h, c);
            && !IsData(h, a) && r.h.ring == h.ring[n..] && Recent(r.h, Touch(Touch(used, HomeOf(a)), a))
            && r.addr == h.ring[n - 1] * PAGESIZE + (if c < 3 then 0 else PAGESIZE - ObjSize(c))
  {
    hide Inv, Allocate, Recent, Touch, SlabOf, Uses, FreshSlots, ObjSize;
    AllocateNewData(h, c);
    DescriptorUses(h);
    var r1, r := Allocate(h, META), Allocate(h, c);
    var d := r1.addr;
    UseTouches(h, r1.h, used, HomeOf(d));
    UseTouches(r1.h, r.h, Touch(used, HomeOf(d)), d);
    FreshFirst(c);
    FreshSlot(c);
    ObjectParts(c, r.h.slabs[d].page, FreshSlots(c)[0]);
    PageLeads(r.h, d, r.addr);
  }

  lemma FreshSlot(c: nat)
    requires c < META
    ensures |FreshSlots(c)| > 0 && IsSlot(c, FreshSlots(c)[0])
  {
    FreshSlotsOk(c);
    assert FreshSlots(c)[0] in FreshSlots(c);
  }

  /** Every allocation of a small size is given what the order of last use says, and keeps that order. */
  lemma AllocateGives(h: Heap, used: seq<int>, c: nat)
    requires Inv(h) && Recent(h, used) && c < META && Allocate(h, c).Done?
    ensures c in h.caches && META in h.caches && Gives(h, used, c, Allocate(h, c))
    ensures var r := Allocate(h, c); var a := SlabOf(r.h, r.addr);
            Recent(r.h, if IsData(h, a) then Touch(used, a) else Touch(Touch(used, HomeOf(a)), a))
  {
    hide Inv, Recent, Allocate, Matches, MostRecent, AtFirst, Touch, ObjSize, SlabOf;
    SpaceIff(h);
    QueueNone(h, c, Half);
    QueueNone(h, c, Empty);
    AllocateData(h, c);
    if HasRoom(h, c) {
      RoomGives(h, used, c);
    } else {
      NewGives(h, used, c);
    }
  }

  // ----- one object given back

  lemma ReleaseObject(h: Heap, x: int, a: int, i: nat)
    requires Inv(h) && ObjectIs(h, x, a, i)
    ensures h.slabs[a].cache < META && Release(h, x) == FreeObject(h, h.slabs[a].cache, x) && SlabOf(h, x) == a
  {
    hide Inv, FreeObject, Extent;
    ObjectExtent(h, x, a, i);
    ObjectPage(h, a);
    FitCacheOfClass(h.slabs[a].cache);
    PageLeads(h, a, x);
  }

  /** What giving back an object does: the slab stays, with the slot put back, unless it is empty and one too many.
      Then its meta slab stays, unless that too is empty and one too many.  Only the page of a meta slab that goes
      comes back, as the first free page. */
  lemma FreeTakes(h: Heap, used: seq<int>, x: int, a: int, i: nat)
    requires Inv(h) && Recent(h, used) && ObjectIs(h, x, a, i)
    ensures var c, m := h.slabs[a].cache, HomeOf(a);
            && c < META && c in h.caches && META in h.caches && m in h.slabs && h.slabs[m].page == a / PAGESIZE
    ensures var r := Release(h, x); var c, m := h.slabs[a].cache, HomeOf(a);
            var goes := Goes(h, c, a); var metaGoes := goes && Goes(h, META, m);
            && r.Done? && Recent(r.h, if goes then Touch(Touch(used, a), m) else Touch(used, a))
            && (if goes then a !in r.h.slabs && (m in r.h.slabs <==> !metaGoes)
                else a in r.h.slabs && r.h.slabs[a] == h.slabs[a].(free := PutBack(c, h.slabs[a].free, i)))
            && r.h.ring == (if metaGoes then [a / PAGESIZE] else []) + h.ring
  {
    hide Inv, Recent, Touch, FreeObject, Release, Uses, PutBack;
    ReleaseObject(h, x, a, i);
    InvParts(h);
    HomeHolds(h, a);
    var c := h.slabs[a].cache;
    if Goes(h, c, a) {
      var h1 := FreeDataGoes(h, c, a, i);
      var r := FreeObject(h, c, x);
      UseTouches(h, h1, used, a);
      UseTouches(h1, r.h, Touch(used, a), h.slabs[a].home);
      StaysGone(h1, r.h, h.slabs[a].home, a);
    } else {
      FreeDataStays(h, c, a, i);
      UseTouches(h, FreeObject(h, c, x).h, used, a);
      assert [] + h.ring == h.ring;
    }
  }

  lemma StaysGone(h: Heap, h': Heap, m: int, a: int)
    requires Uses(h, h', m) && a != m && a !in h.slabs
    ensures a !in h'.slabs
  {
    assert SameEntry(h, h', a);
  }

  lemma HomeHolds(h: Heap, a: int)
    requires Inv(h) && IsData(h, a)
    ensures h.slabs[a].cache <= META && h.slabs[a].cache in h.caches && META in h.caches
    ensures h.slabs[a].home == HomeOf(a) && HomeOf(a) in h.slabs && h.slabs[HomeOf(a)].page == a / PAGESIZE
  {
    hide CountsOk;
    assert SlabOk(h, a);
    HomeIs(h, a);
    DataHome(h, a);
  }

  // ----- giving back, then asking again

  /** What is given back is used again first: the next call for a size of the class is served from the same slab,
      with no page taken, at the same address if the class is kept as a stack, and at the lowest free slot of the slab
      if it is kept as a bitmap.  That holds when other objects of the slab are still in use; and also when none is
      but the slab is kept, if no other slab of the class is partly used. */
  lemma Reused(s: System, x: int, a: int, i: nat, size: int)
    requires Serves(s) && ObjectIs(s.h, x, a, i)
    requires 2 <= size <= 2048 && FitCache(size) == Class(s.h.slabs[a].cache)
    requires var c, n := s.h.slabs[a].cache, |s.h.slabs[a].free| + 1;
             && c in s.h.caches
             && (n < Capacity(c)
                 || (s.h.caches[c].slabPg <= s.h.caches[c].maxPg
                     && forall b :: b != a ==> !Matches(s.h.slabs, c, Half, b)))
    ensures Step(s, Dispose(x)).Ok?
    ensures var t := Step(s, Dispose(x)).s; Step(t, Malloc(size)).Ok?
    ensures var t := Step(s, Dispose(x)).s; var u := Step(t, Malloc(size)).s; var y := Alloc(t.h, size).addr;
            && SlabOf(u.h, y) == a && u.h.ring == t.h.ring == s.h.ring
            && (s.h.slabs[a].cache >= 3 ==> y == x && a in u.h.slabs && u.h.slabs[a] == s.h.slabs[a])
            && (s.h.slabs[a].cache < 3 ==> AtLowest(s.h, a, i, y))
  {
    hide Inv, Release, Allocate, Live, Extent, FitCache, ObjSize, Capacity, SlabOf, Matches, Recent;
    var h, c := s.h, s.h.slabs[a].cache;
    ObjectAlone(s, x, a, i);
    ReleaseObject(h, x, a, i);
    FreeDataKept(h, c, a, i);
    var h' := Release(h, x).h;
    FrontServes(h', c, a);
    NextSlot(h, c, a, i);
  }

  /** y is the lowest slot of slab a, of those free in h and i. */
  ghost predicate AtLowest(h: Heap, a: int, i: nat, y: int) {
    a in h.slabs && h.slabs[a].cache <= META
    && exists k: nat :: (k == i || k in h.slabs[a].free) && k <= i && (forall j :: j in h.slabs[a].free ==> k <= j)
                        && y == ObjectAt(h, a, k)
  }

  /** The slab is then at the front of the queue Allocate looks at first. */
  lemma FreeDataKept(h: Heap, c: nat, a: int, i: nat)
    requires Inv(h) && c < META && a in h.slabs && h.slabs[a].cache == c && IsSlot(c, i) && i !in h.slabs[a].free
    requires c in h.caches
    requires |h.slabs[a].free| + 1 < Capacity(c)
             || (h.caches[c].slabPg <= h.caches[c].maxPg && forall b :: b != a ==> !Matches(h.slabs, c, Half, b))
    ensures var r := FreeObject(h, c, ObjectAt(h, a, i));
            && r.Done? && Inv(r.h) && r.h.ring == h.ring && a in r.h.slabs
            && r.h.slabs[a] == h.slabs[a].(free := PutBack(c, h.slabs[a].free, i))
            && c in r.h.caches && HasRoom(r.h, c) && Queue(r.h.caches[c], RoomIn(r.h, c))[0] == a
  {
    hide Inv, FreeObject, PutBack, Without, FillOf;
    SlotRoom(h, c, a, i);
    FreeData(h, c, a, i);
    FreeDataStays(h, c, a, i);
    var h' := FreeObject(h, c, ObjectAt(h, a, i)).h;
    assert QueueUses(h, h', a, c, Half) && QueueUses(h, h', a, c, Empty);
    FillAfter(h, h', c, a, i);
    if FillOf(c, h'.slabs[a].free) == Empty {
      forall b ensures !Matches(h'.slabs, c, Half, b) {
        if b != a {
          assert SameEntry(h, h', b);
          SameMatch(h, h', c, Half, b);
        }
      }
      QueueNone(h', c, Half);
    }
  }

  lemma SlotRoom(h: Heap, c: nat, a: int, i: nat)
    requires Inv(h) && c < META && a in h.slabs && h.slabs[a].cache == c && IsSlot(c, i) && i !in h.slabs[a].free
    ensures |h.slabs[a].free| + 1 <= Capacity(c)
  {
    assert SlabOk(h, a);
    AllSlotsFree(c, h.slabs[a].free);
  }

  lemma FillAfter(h: Heap, h': Heap, c: nat, a: int, i: nat)
    requires Inv(h) && c < META && a in h.slabs && h.slabs[a].cache == c && IsSlot(c, i) && i !in h.slabs[a].free
    requires a in h'.slabs && h'.slabs[a].free == PutBack(c, h.slabs[a].free, i)
    ensures FillOf(c, h'.slabs[a].free) == if |h.slabs[a].free| + 1 < Capacity(c) then Half else Empty
  {
    hide Inv, PutBack, Capacity;
    SlotsAfter(h, c, a, i);
    SlotRoom(h, c, a, i);
  }

  lemma FrontServes(h: Heap, c: nat, a: int)
    requires Inv(h) && c < META && c in h.caches && HasRoom(h, c) && Queue(h.caches[c], RoomIn(h, c))[0] == a
    ensures a in h.slabs && h.slabs[a].free != []
    ensures var r := Allocate(h, c);
            && r.Done? && SlabOf(r.h, r.addr) == a && r.h.ring == h.ring
            && r.addr == h.slabs[a].page * PAGESIZE + h.slabs[a].free[0] * ObjSize(c)
            && a in r.h.slabs && r.h.slabs[a] == h.slabs[a].(free := h.slabs[a].free[1..])
  {
    hide Inv, Allocate, SlabOf, FillOf, Uses;
    AllocateQueued(h, c);
    AllocateData(h, c);
    FirstSlotIs(h, a);
    PageLeads(Allocate(h, c).h, a, Allocate(h, c).addr);
  }

  /** The slot put back comes first in a stack; the lowest one does in a bitmap. */
  lemma NextSlot(h: Heap, c: nat, a: int, i: nat)
    requires Inv(h) && c < META && a in h.slabs && h.slabs[a].cache == c && IsSlot(c, i) && i !in h.slabs[a].free
    ensures var free := PutBack(c, h.slabs[a].free, i);
            && |free| > 0 && (c >= 3 ==> free[0] == i && free[1..] == h.slabs[a].free)
            && (c < 3 ==> AtLowest(h, a, i, h.slabs[a].page * PAGESIZE + free[0] * ObjSize(c)))
  {
    hide PagesOk, OwnersOk, BlocksOk, RetiredOk, DescriptorsOk, Lists, ObjSize, Capacity;
    var free := PutBack(c, h.slabs[a].free, i);
    assert SlabOk(h, a);
    PutBackSlots(c, h.slabs[a].free, i);
    assert free[0] in free && i in free;
    forall j | j in h.slabs[a].free ensures c < 3 ==> free[0] <= j {
      assert j in free;
    }
  }

  // ----- runs

  /** Pages and blocks leave the order as it is. */
  lemma SlabsAlone(h: Heap, h': Heap, used: seq<int>)
    requires Recent(h, used) && h'.slabs == h.slabs && h'.caches == h.caches
    ensures Recent(h', used)
  {
    hide Pick;
    forall c, f | 0 <= c <= META ensures QueueRecent(h', used, c, f) {
      assert QueueRecent(h, used, c, f);
    }
  }

  lemma BlockAlone(s: System, used: seq<int>, x: int, b: int)
    requires Serves(s) && Recent(s.h, used) && BlockIs(s.h, x, b) && Step(s, Dispose(x)).Ok?
    ensures x in s.live && s.live[x] > 2048 && Recent(Step(s, Dispose(x)).s.h, used)
  {
    hide Inv, Release, Extent, Live, Recent;
    assert Live(s.h, x) by { BlockIsLive(s.h, x, b); }
    ReleaseBlock(s.h, b);
    BlockRequest(s.h, x, b, s.live[x]);
    SlabsAlone(s.h, Release(s.h, x).h, used);
  }

  lemma ObjectAlone(s: System, x: int, a: int, i: nat)
    requires Serves(s) && ObjectIs(s.h, x, a, i)
    ensures x in s.live && s.live[x] <= 2048
  {
    hide Inv, Extent;
    ObjectLive(s.h, x, a, i);
    ObjectExtent(s.h, x, a, i);
  }

  /** Every call keeps the queues in order of last use. */
  lemma StepRecent(s: System, used: seq<int>, op: Op)
    requires Serves(s) && Recent(s.h, used) && Step(s, op).Ok?
    ensures Recent(Step(s, op).s.h, UsedAfter(used, s, op, Step(s, op).s))
  {
    hide Inv, Recent, Touch, Allocate, Release, SlabOf, Live, Extent, ObjectIs, BlockIs, SetRoles, FitCache;
    match op
    case Malloc(size) =>
      FitCacheLeast(size);
      if size > 2048 {
        SlabsAlone(s.h, AllocBlock(s.h, size).h, used);
      } else {
        AllocateGives(s.h, used, FitCache(size).c);
      }
    case Dispose(x) =>
      LiveCases(s, x);
      if a, i: nat :| ObjectIs(s.h, x, a, i) {
        ObjectAlone(s, x, a, i);
        DisposeRecent(s.h, used, x, a, i);
      } else {
        var b :| BlockIs(s.h, x, b);
        BlockAlone(s, used, x, b);
      }
    case _ =>
      SlabsAlone(s.h, Step(s, op).s.h, used);
  }

  lemma DisposeRecent(h: Heap, used: seq<int>, x: int, a: int, i: nat)
    requires Inv(h) && Recent(h, used) && ObjectIs(h, x, a, i)
    ensures var r := Release(h, x);
            SlabOf(h, x) == a && r.Done?
            && Recent(r.h, if IsData(r.h, a) then Touch(used, a) else Touch(Touch(used, a), HomeOf(a)))
  {
    hide Inv, Recent, Touch, Release, SlabOf;
    FreeTakes(h, used, x, a, i);
    ReleaseObject(h, x, a, i);
  }

  /** The slabs in order of last use at the end of a run. */
  ghost function RunUsed(used: seq<int>, s: System, ops: seq<Op>): seq<int>
    requires HeapRuns.Run(s, ops).Ok?
    decreases |ops|
  {
    if ops == [] then used
    else
      var t := Step(s, ops[0]).s;
      RunUsed(UsedAfter(used, s, ops[0], t), t, ops[1..])
  }

  lemma {:induction false} RunRecent(s: System, used: seq<int>, ops: seq<Op>)
    requires Serves(s) && Recent(s.h, used) && HeapRuns.Run(s, ops).Ok?
    ensures Recent(HeapRuns.Run(s, ops).s.h, RunUsed(used, s, ops))
    decreases |ops|
  {
    hide Serves, Recent, Step, UsedAfter;
    if ops != [] {
      StepServes(s, ops[0]);
      StepRecent(s, used, ops[0]);
      var t := Step(s, ops[0]).s;
      RunRecent(t, UsedAfter(used, s, ops[0], t), ops[1..]);
    }
  }

  lemma FreshRecent(nr: nat, ring: seq<int>, limits: seq<nat>)
    requires |limits| == 9
    ensures Recent(FreshHeap(nr, ring, limits), [])
  {
    var h := FreshHeap(nr, ring, limits);
    forall c, f | 0 <= c <= META ensures QueueRecent(h, [], c, f) {
    }
  }

  /** After any run from start-up, a call for a small size is given the first slot of the partly used slab used last;
      if there is none, that of the empty slab used last; if there is none, that of a new slab. */
  lemma RunGives(nr: nat, ring: seq<int>, limits: seq<nat>, ops: seq<Op>, size: int)
    requires |limits| == 9 && Distinct(ring) && (forall p :: p in ring ==> 0 < p < nr) && 2 <= size <= 2048
    requires HeapRuns.Run(System(FreshHeap(nr, ring, limits), map[]), ops + [Malloc(size)]).Ok?
    ensures var s := System(FreshHeap(nr, ring, limits), map[]);
            && HeapRuns.Run(s, ops).Ok? && FitCache(size).Class? && FitCache(size).c < META
            && var h := HeapRuns.Run(s, ops).s.h; var c := FitCache(size).c;
            c in h.caches && META in h.caches && Gives(h, RunUsed([], s, ops), c, Alloc(h, size))
  {
    hide Serves, Recent, Step, Allocate, FreshHeap, Gives, RunUsed, HeapRuns.Run, FitCache;
    var s := System(FreshHeap(nr, ring, limits), map[]);
    FreshServes(nr, ring, limits);
    FreshRecent(nr, ring, limits);
    RunThen(s, ops, Malloc(size));
    RunServes(s, ops);
    RunRecent(s, [], ops);
    var t := HeapRuns.Run(s, ops).s;
    FitCacheLeast(size);
    ServesInv(t);
    GivenByAlloc(t, size);
    AllocateGives(t.h, RunUsed([], s, ops), FitCache(size).c);
  }

  lemma GivenByAlloc(s: System, size: int)
    requires Step(s, Malloc(size)).Ok? && 2 <= size <= 2048 && FitCache(size).Class? && FitCache(size).c <= META
    ensures Alloc(s.h, size) == Allocate(s.h, FitCache(size).c) && Alloc(s.h, size).Done?
  {
    hide Allocate, FitCache;
  }
}
