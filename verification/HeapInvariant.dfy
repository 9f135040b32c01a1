/** What every step of the slab allocator keeps. */
module HeapInvariant {
  import opened Rings
  import opened PageAllocator
  import opened SortedLists
  import opened Heap

  function DescriptorAt(m: int, i: nat): int {
    m + DESCRIPTOR_SIZE * i
  }

  function PageRole(c: nat, a: int): Role {
    if c == META then MetaPage else DataPage(a)
  }

  /** The ring lists the free pages, each once. */
  ghost predicate PagesOk(h: Heap) {
    && Distinct(h.ring)
    && (forall p :: p in h.ring ==> p in h.role)
    && (forall p :: p in h.role ==> 0 < p < h.nr)
    && (forall p :: p in h.role ==> (h.role[p] == Free <==> p in h.ring))
  }

  /** A slab owns its page, the page struct leads back to it, and its free slots are slots, each once, and the lowest
      first if it is a bitmap. */
  ghost predicate SlabOk(h: Heap, a: int)
    requires a in h.slabs
  {
    var s := h.slabs[a];
    && s.cache <= META
    && SlotsOk(s.cache, s.free)
    && s.page in h.role && h.role[s.page] == PageRole(s.cache, a)
    && s.page in h.slabPtr && h.slabPtr[s.page] == a
    && s.page in h.objSize && h.objSize[s.page] == ObjSize(s.cache)
    && (s.cache == META ==> a == s.page * PAGESIZE && s.home == a && s.slot == 0)
    && (s.cache != META ==> a == DescriptorAt(s.home, s.slot))
  }

  ghost predicate SlotsOk(c: nat, free: seq<nat>)
    requires c <= META
  {
    Distinct(free) && |free| <= Capacity(c) && (forall i :: i in free ==> IsSlot(c, i)) && LowFirst(c, free)
  }

  ghost predicate LowFirst(c: nat, free: seq<nat>) {
    c < 3 ==> Sorted(free)
  }

  ghost predicate SlabsOk(h: Heap) {
    forall a :: a in h.slabs ==> SlabOk(h, a)
  }

  /** Every page in use has the user its role names. */
  ghost predicate OwnerOk(h: Heap, p: int)
    requires p in h.role
  {
    match h.role[p]
    case MetaPage => p * PAGESIZE in h.slabs && h.slabs[p * PAGESIZE].cache == META
    case DataPage(a) => a in h.slabs && h.slabs[a].page == p && h.slabs[a].cache != META
    case BlockPage(s) => s in h.blocks && s <= p < s + h.blocks[s]
    case _ => true
  }

  ghost predicate OwnersOk(h: Heap) {
    forall p :: p in h.role ==> OwnerOk(h, p)
  }

  ghost predicate BlockOk(h: Heap, s: int)
    requires s in h.blocks
  {
    && 1 <= h.blocks[s] <= 0x8_0000
    && s in h.objSize && h.objSize[s] == Int32(h.blocks[s] * PAGESIZE)
    && forall p :: s <= p < s + h.blocks[s] ==> p in h.role && h.role[p] == BlockPage(s)
  }

  ghost predicate BlocksOk(h: Heap) {
    forall s :: s in h.blocks ==> BlockOk(h, s)
  }

  /** Slot i of meta slab m is handed out. */
  ghost predicate HandedOut(h: Heap, m: int, i: nat) {
    m in h.slabs && h.slabs[m].cache == META && IsSlot(META, i) && i !in h.slabs[m].free
  }

  /** Descriptors handed out are exactly the data slabs, apart from the pending ones. */
  ghost predicate DescriptorsOk(h: Heap, pending: set<(int, nat)>) {
    && (forall a :: a in h.slabs && h.slabs[a].cache != META ==>
          HandedOut(h, h.slabs[a].home, h.slabs[a].slot) && (h.slabs[a].home, h.slabs[a].slot) !in pending)
    && (forall m, i: nat :: HandedOut(h, m, i) ==> (m, i) in pending || Describes(h, m, i))
    && (forall m, i: nat :: (m, i) in pending ==> HandedOut(h, m, i))
  }

  ghost predicate Describes(h: Heap, m: int, i: nat) {
    var d := DescriptorAt(m, i);
    d in h.slabs && h.slabs[d].cache != META && h.slabs[d].home == m && h.slabs[d].slot == i
  }

  datatype Fill = Full | Half | Empty

  function FillOf(c: nat, free: seq<nat>): Fill
    requires c <= META
  {
    if free == [] then Full else if |free| == Capacity(c) then Empty else Half
  }

  function Queue(k: Cache, f: Fill): seq<int> {
    match f case Full => k.full case Half => k.half case Empty => k.empty
  }

  /** Queue f of cache c holds slabs of that cache with that occupancy, each once, and not a loose one. */
  ghost predicate QueueHolds(h: Heap, c: nat, f: Fill, loose: seq<int>)
    requires c <= META && c in h.caches
  {
    var q := Queue(h.caches[c], f);
    && Distinct(q)
    && forall a :: a in q ==> a in h.slabs && h.slabs[a].cache == c && FillOf(c, h.slabs[a].free) == f && a !in loose
  }

  /** Every slab is on the queue of its cache that matches its occupancy, apart from loose ones. */
  ghost predicate QueuesOk(h: Heap, loose: seq<int>) {
    && (forall c :: 0 <= c <= META ==> c in h.caches)
    && (forall c, f :: 0 <= c <= META ==> QueueHolds(h, c, f, loose))
    && (forall a :: a in h.slabs && a !in loose && h.slabs[a].cache <= META ==> Queued(h, a))
    && (forall a :: a in loose ==> a in h.slabs)
  }

  ghost predicate Queued(h: Heap, a: int)
    requires a in h.slabs && h.slabs[a].cache <= META && h.slabs[a].cache in h.caches
  {
    a in Queue(h.caches[h.slabs[a].cache], FillOf(h.slabs[a].cache, h.slabs[a].free))
  }

  /** Objects in use on the slabs of q, which are slabs of cache c. */
  ghost function Used(slabs: map<int, Slab>, c: nat, q: seq<int>): int
    requires c <= META
  {
    if q == [] then 0
    else (if q[0] in slabs then Capacity(c) - |slabs[q[0]].free| else 0) + Used(slabs, c, q[1..])
  }

  /** The counters of cache c agree with its slabs, those of loose that are its own being off the queues. */
  ghost predicate CountOk(h: Heap, c: nat, lc: nat, loose: seq<int>)
    requires c <= META
  {
    && c in h.caches
    && var k := h.caches[c];
       var l := if c == lc then loose else [];
       && k.slabPg == |k.full| + |k.half| + |k.empty| + |l|
       && k.inUse == UsedBy(h.slabs, c, k) + Used(h.slabs, c, l)
       && (k.empty != [] ==> k.slabPg <= k.maxPg)
  }

  ghost function UsedBy(slabs: map<int, Slab>, c: nat, k: Cache): int
    requires c <= META
  {
    Used(slabs, c, k.full) + Used(slabs, c, k.half) + Used(slabs, c, k.empty)
  }

  ghost predicate CountsOk(h: Heap, lc: nat, loose: seq<int>) {
    forall c :: 0 <= c <= META ==> CountOk(h, c, lc, loose)
  }

  ghost function RetiredPages(role: map<int, Role>): set<int> {
    set p | p in role && role[p] == Retired
  }

  ghost predicate RetiredOk(h: Heap) {
    |RetiredPages(h.role)| == h.reclaimed
  }

  /** Everything but the queues and the counters. */
  ghost predicate Base(h: Heap, pending: set<(int, nat)>) {
    PagesOk(h) && SlabsOk(h) && OwnersOk(h) && BlocksOk(h) && RetiredOk(h) && DescriptorsOk(h, pending)
  }

  /** Queues and counters, the slabs in loose, all of cache lc, being on no queue. */
  ghost predicate Lists(h: Heap, lc: nat, loose: seq<int>) {
    && QueuesOk(h, loose)
    && CountsOk(h, lc, loose)
    && lc <= META && forall a :: a in loose ==> a in h.slabs && h.slabs[a].cache == lc
  }

  /** The invariant in the middle of an operation: some slabs are loose, and the pending descriptors are
      handed out but describe no slab. */
  ghost predicate Mid(h: Heap, lc: nat, loose: seq<int>, pending: set<(int, nat)>) {
    Base(h, pending) && Lists(h, lc, loose)
  }

  /** The invariant between operations. */
  ghost predicate Inv(h: Heap) {
    Mid(h, META, [], {})
  }

  // ----- queues

  /** Changing a cache's lists and counters touches nothing else. */
  lemma SetCacheKeeps(h: Heap, c: nat, k: Cache, pending: set<(int, nat)>)
    requires Base(h, pending)
    ensures Base(SetCache(h, c, k), pending)
  {
    var h' := SetCache(h, c, k);
    assert forall a :: a in h.slabs ==> SlabOk(h, a);
    assert forall p :: p in h.role ==> OwnerOk(h, p);
    assert forall s :: s in h.blocks ==> BlockOk(h, s);
    assert forall m, i: nat :: HandedOut(h', m, i) == HandedOut(h, m, i) && Describes(h', m, i) == Describes(h, m, i);
  }

  /** k' is k with queue f replaced by q. */
  function WithQueue(k: Cache, f: Fill, q: seq<int>): Cache {
    match f case Full => k.(full := q) case Half => k.(half := q) case Empty => k.(empty := q)
  }

  lemma UsedCons(slabs: map<int, Slab>, c: nat, a: int, q: seq<int>)
    requires c <= META && a in slabs
    ensures Used(slabs, c, [a] + q) == Capacity(c) - |slabs[a].free| + Used(slabs, c, q)
    ensures Used(slabs, c, [a]) == Capacity(c) - |slabs[a].free|
  {
    assert ([a] + q)[1..] == q;
    assert [a][1..] == [];
  }

  lemma {:induction false} WithoutMembers(q: seq<int>, a: int)
    requires Distinct(q)
    ensures Distinct(Without(q, a))
    ensures forall b :: b in Without(q, a) <==> b in q && b != a
    ensures a !in q ==> Without(q, a) == q
  {
    if q != [] {
      WithoutMembers(q[1..], a);
      assert q == [q[0]] + q[1..];
      if q[0] != a {
        var r := Without(q[1..], a);
        forall i | 0 <= i < |r| ensures r[i] != q[0] {
          assert r[i] in r;
        }
      }
    }
  }

  lemma {:induction false} UsedWithout(slabs: map<int, Slab>, c: nat, q: seq<int>, a: int)
    requires c <= META && a in q && a in slabs
    ensures Used(slabs, c, q) == Used(slabs, c, Without(q, a)) + Capacity(c) - |slabs[a].free|
    ensures |Without(q, a)| == |q| - 1
  {
    if q[0] != a {
      UsedWithout(slabs, c, q[1..], a);
      assert ([q[0]] + Without(q[1..], a))[1..] == Without(q[1..], a);
    }
  }

  /** Only the queue that holds the slab changes when it is taken off. */
  lemma DetachOne(h: Heap, c: nat, a: int)
    requires QueuesOk(h, []) && c <= META && a in h.slabs && h.slabs[a].cache == c
    ensures var f := FillOf(c, h.slabs[a].free); var q := Queue(h.caches[c], f);
            a in q && Distinct(q) && Detach(h, c, a) == SetCache(h, c, WithQueue(h.caches[c], f, Without(q, a)))
  {
    var k := h.caches[c];
    var f := FillOf(c, h.slabs[a].free);
    assert Queued(h, a);
    assert QueueHolds(h, c, f, []);
    forall g | g != f ensures Without(Queue(k, g), a) == Queue(k, g) {
      assert QueueHolds(h, c, g, []);
      WithoutMembers(Queue(k, g), a);
    }
    assert Queue(k, Full) == k.full && Queue(k, Half) == k.half && Queue(k, Empty) == k.empty;
  }

  lemma DetachQueues(h: Heap, c: nat, a: int, f: Fill)
    requires QueuesOk(h, []) && c <= META && a in h.slabs && h.slabs[a].cache == c && f == FillOf(c, h.slabs[a].free)
    ensures QueuesOk(SetCache(h, c, WithQueue(h.caches[c], f, Without(Queue(h.caches[c], f), a))), [a])
  {
    var q := Queue(h.caches[c], f);
    var h' := SetCache(h, c, WithQueue(h.caches[c], f, Without(q, a)));
    assert QueueHolds(h, c, f, []);
    WithoutMembers(q, a);
    forall d, g | 0 <= d <= META ensures QueueHolds(h', d, g, [a]) {
      assert QueueHolds(h, d, g, []);
    }
    forall b | b in h'.slabs && b !in [a] && h'.slabs[b].cache <= META ensures Queued(h', b) {
      assert Queued(h, b);
    }
  }

  lemma DetachCounts(h: Heap, lc: nat, c: nat, a: int, f: Fill)
    requires CountsOk(h, lc, []) && c <= META && c in h.caches && a in h.slabs && a in Queue(h.caches[c], f)
    ensures CountsOk(SetCache(h, c, WithQueue(h.caches[c], f, Without(Queue(h.caches[c], f), a))), c, [a])
  {
    var q := Queue(h.caches[c], f);
    var h' := SetCache(h, c, WithQueue(h.caches[c], f, Without(q, a)));
    forall d | 0 <= d <= META ensures CountOk(h', d, c, [a]) {
      assert CountOk(h, d, lc, []);
      UsedWithout(h.slabs, c, q, a);
      UsedCons(h.slabs, c, a, []);
    }
  }

  /** A slab leaves whichever queue it is on. */
  lemma DetachKeeps(h: Heap, lc: nat, c: nat, a: int, pending: set<(int, nat)>)
    requires Mid(h, lc, [], pending) && c <= META && a in h.slabs && h.slabs[a].cache == c
    ensures Mid(Detach(h, c, a), c, [a], pending)
  {
    var f := FillOf(c, h.slabs[a].free);
    DetachOne(h, c, a);
    DetachQueues(h, c, a, f);
    DetachCounts(h, lc, c, a, f);
    SetCacheKeeps(h, c, WithQueue(h.caches[c], f, Without(Queue(h.caches[c], f), a)), pending);
  }

  /** Taking the first slab of a queue is taking it off its queue. */
  lemma PopFront(h: Heap, lc: nat, c: nat, f: Fill, pending: set<(int, nat)>)
    requires Mid(h, lc, [], pending) && c <= META && Queue(h.caches[c], f) != []
    ensures var q := Queue(h.caches[c], f);
            && Mid(SetCache(h, c, WithQueue(h.caches[c], f, q[1..])), c, [q[0]], pending)
            && q[0] in h.slabs && h.slabs[q[0]].cache == c && FillOf(c, h.slabs[q[0]].free) == f
  {
    var q := Queue(h.caches[c], f);
    assert QueueHolds(h, c, f, []) && q[0] in q;
    DetachKeeps(h, lc, c, q[0], pending);
    DetachOne(h, c, q[0]);
  }

  lemma EnqueueQueues(h: Heap, c: nat, a: int, f: Fill)
    requires QueuesOk(h, [a]) && c <= META && a in h.slabs && h.slabs[a].cache == c && f == FillOf(c, h.slabs[a].free)
    ensures QueuesOk(SetCache(h, c, WithQueue(h.caches[c], f, [a] + Queue(h.caches[c], f))), [])
  {
    var h' := SetCache(h, c, WithQueue(h.caches[c], f, [a] + Queue(h.caches[c], f)));
    assert a in [a];
    forall d, g | 0 <= d <= META ensures QueueHolds(h', d, g, []) {
      assert QueueHolds(h, d, g, [a]);
    }
    forall b | b in h'.slabs && h'.slabs[b].cache <= META ensures Queued(h', b) {
      if b != a {
        assert Queued(h, b);
      }
    }
  }

  lemma EnqueueCounts(h: Heap, c: nat, a: int, f: Fill)
    requires CountsOk(h, c, [a]) && c <= META && c in h.caches && a in h.slabs
    requires f == Empty ==> h.caches[c].slabPg <= h.caches[c].maxPg
    ensures CountsOk(SetCache(h, c, WithQueue(h.caches[c], f, [a] + Queue(h.caches[c], f))), c, [])
  {
    var h' := SetCache(h, c, WithQueue(h.caches[c], f, [a] + Queue(h.caches[c], f)));
    forall d | 0 <= d <= META ensures CountOk(h', d, c, []) {
      assert CountOk(h, d, c, [a]);
      UsedCons(h.slabs, c, a, Queue(h.caches[c], f));
    }
  }

  /** A loose slab goes to the queue that matches its occupancy. */
  lemma EnqueueKeeps(h: Heap, c: nat, a: int, pending: set<(int, nat)>)
    requires Mid(h, c, [a], pending) && a in h.slabs
    requires FillOf(c, h.slabs[a].free) == Empty ==> h.caches[c].slabPg <= h.caches[c].maxPg
    ensures Mid(Enqueue(h, c, a), META, [], pending)
  {
    var f := FillOf(c, h.slabs[a].free);
    assert a in [a];
    EnqueueQueues(h, c, a, f);
    EnqueueCounts(h, c, a, f);
    SetCacheKeeps(h, c, WithQueue(h.caches[c], f, [a] + Queue(h.caches[c], f)), pending);
    NoLoose(Enqueue(h, c, a), c);
  }

  lemma NoLoose(h: Heap, lc: nat)
    requires Lists(h, lc, [])
    ensures Lists(h, META, [])
  {
    forall c | 0 <= c <= META ensures CountOk(h, c, META, []) {
      assert CountOk(h, c, lc, []);
    }
  }

  // ----- slots

  ghost predicate SameFree(slabs: map<int, Slab>, slabs': map<int, Slab>, a: int) {
    (a in slabs <==> a in slabs') && (a in slabs ==> slabs[a].free == slabs'[a].free)
  }

  lemma {:induction false} UsedFrame(slabs: map<int, Slab>, slabs': map<int, Slab>, c: nat, q: seq<int>)
    requires c <= META
    requires forall a :: a in q ==> SameFree(slabs, slabs', a)
    ensures Used(slabs, c, q) == Used(slabs', c, q)
  {
    if q != [] {
      assert SameFree(slabs, slabs', q[0]);
      UsedFrame(slabs, slabs', c, q[1..]);
    }
  }

  /** A heap that differs from h in the free slots of slab a only. */
  function WithFree(h: Heap, a: int, free: seq<nat>): Heap
    requires a in h.slabs
  {
    h.(slabs := h.slabs[a := h.slabs[a].(free := free)])
  }

  lemma WithFreeBase(h: Heap, a: int, free: seq<nat>)
    requires PagesOk(h) && SlabsOk(h) && OwnersOk(h) && BlocksOk(h) && RetiredOk(h)
    requires a in h.slabs && h.slabs[a].cache <= META && SlotsOk(h.slabs[a].cache, free)
    ensures var h' := WithFree(h, a, free); PagesOk(h') && SlabsOk(h') && OwnersOk(h') && BlocksOk(h') && RetiredOk(h')
  {
    var h' := WithFree(h, a, free);
    forall b | b in h'.slabs ensures SlabOk(h', b) {
      assert SlabOk(h, b);
    }
    forall p | p in h'.role ensures OwnerOk(h', p) {
      assert OwnerOk(h, p);
    }
    forall s | s in h'.blocks ensures BlockOk(h', s) {
      assert BlockOk(h, s);
    }
  }

  /** Counting one object more or less on a loose slab keeps the counters right. */
  lemma WithFreeLists(h: Heap, c: nat, a: int, free: seq<nat>)
    requires Lists(h, c, [a]) && a in h.slabs
    ensures var k := h.caches[c];
            Lists(SetCache(WithFree(h, a, free), c, k.(inUse := k.inUse + |h.slabs[a].free| - |free|)), c, [a])
  {
    var k := h.caches[c];
    var h' := SetCache(WithFree(h, a, free), c, k.(inUse := k.inUse + |h.slabs[a].free| - |free|));
    forall d, g | 0 <= d <= META ensures QueueHolds(h', d, g, [a]) {
      assert QueueHolds(h, d, g, [a]);
    }
    forall b | b in h'.slabs && b !in [a] && h'.slabs[b].cache <= META ensures Queued(h', b) {
      assert Queued(h, b);
    }
    WithFreeCounts(h, c, a, free);
  }

  lemma WithFreeCounts(h: Heap, c: nat, a: int, free: seq<nat>)
    requires Lists(h, c, [a]) && a in h.slabs
    ensures var k := h.caches[c];
            CountsOk(SetCache(WithFree(h, a, free), c, k.(inUse := k.inUse + |h.slabs[a].free| - |free|)), c, [a])
  {
    var k := h.caches[c];
    var h' := SetCache(WithFree(h, a, free), c, k.(inUse := k.inUse + |h.slabs[a].free| - |free|));
    forall d | 0 <= d <= META ensures CountOk(h', d, c, [a]) {
      assert CountOk(h, d, c, [a]);
      forall g ensures Used(h.slabs, d, Queue(h.caches[d], g)) == Used(h'.slabs, d, Queue(h.caches[d], g)) {
        assert QueueHolds(h, d, g, [a]);
        UsedFrame(h.slabs, h'.slabs, d, Queue(h.caches[d], g));
      }
      var kd := h.caches[d];
      assert Queue(kd, Full) == kd.full && Queue(kd, Half) == kd.half && Queue(kd, Empty) == kd.empty;
      UsedCons(h.slabs, c, a, []);
      UsedCons(h'.slabs, c, a, []);
    }
  }

  /** A slot of slab a is handed out; for a meta slab a descriptor is now pending. */
  lemma TakeDescriptor(h: Heap, a: int, pending: set<(int, nat)>)
    requires SlabsOk(h) && DescriptorsOk(h, pending) && a in h.slabs && h.slabs[a].free != []
    ensures var s := h.slabs[a];
            DescriptorsOk(WithFree(h, a, s.free[1..]), if s.cache == META then pending + {(a, s.free[0])} else pending)
  {
    var s := h.slabs[a];
    var h' := WithFree(h, a, s.free[1..]);
    var pending' := if s.cache == META then pending + {(a, s.free[0])} else pending;
    assert SlabOk(h, a) && s.free[0] in s.free;
    assert forall i :: i in s.free[1..] <==> i in s.free && i != s.free[0];
    forall m, i: nat | HandedOut(h', m, i) ensures (m, i) in pending' || Describes(h', m, i) {
      if !(m == a && i == s.free[0]) {
        assert HandedOut(h, m, i);
        assert Describes(h, m, i) ==> Describes(h', m, i);
      }
    }
    forall b | b in h'.slabs && h'.slabs[b].cache != META
      ensures HandedOut(h', h'.slabs[b].home, h'.slabs[b].slot) && (h'.slabs[b].home, h'.slabs[b].slot) !in pending'
    {
      assert HandedOut(h, h.slabs[b].home, h.slabs[b].slot);
    }
    forall m, i: nat | (m, i) in pending' ensures HandedOut(h', m, i) {
      assert (m, i) in pending ==> HandedOut(h, m, i);
    }
  }

  /** Slot i of slab a comes back; for a meta slab it was a pending descriptor. */
  lemma PutDescriptor(h: Heap, a: int, i: nat, pending: set<(int, nat)>)
    requires SlabsOk(h) && DescriptorsOk(h, pending) && a in h.slabs
    requires h.slabs[a].cache == META ==> (a, i) in pending
    ensures var s := h.slabs[a];
            DescriptorsOk(WithFree(h, a, PutBack(s.cache, s.free, i)),
                          if s.cache == META then pending - {(a, i)} else pending)
  {
    var s := h.slabs[a];
    var h' := WithFree(h, a, PutBack(s.cache, s.free, i));
    var pending' := if s.cache == META then pending - {(a, i)} else pending;
    forall m, j: nat | HandedOut(h', m, j) ensures (m, j) in pending' || Describes(h', m, j) {
      assert HandedOut(h, m, j);
      assert Describes(h, m, j) ==> Describes(h', m, j);
    }
    forall b | b in h'.slabs && h'.slabs[b].cache != META
      ensures HandedOut(h', h'.slabs[b].home, h'.slabs[b].slot) && (h'.slabs[b].home, h'.slabs[b].slot) !in pending'
    {
      assert HandedOut(h, h.slabs[b].home, h.slabs[b].slot);
    }
    forall m, j: nat | (m, j) in pending' ensures HandedOut(h', m, j) {
      assert HandedOut(h, m, j);
    }
  }

  lemma TailSlots(c: nat, free: seq<nat>)
    requires c <= META && SlotsOk(c, free) && free != []
    ensures SlotsOk(c, free[1..])
  {
    assert forall i :: i in free[1..] ==> i in free;
  }

  /** Distinct members of a set are no more than the set has. */
  lemma {:induction false} DistinctCount(free: seq<nat>, all: set<nat>)
    requires Distinct(free) && forall i :: i in free ==> i in all
    ensures |free| <= |all|
    ensures |free| == |all| ==> forall i :: i in all ==> i in free
  {
    if free != [] {
      var last := free[|free| - 1];
      var rest := free[..|free| - 1];
      assert last in free;
      forall i | i in rest ensures i in all - {last} {
        assert i in free;
      }
      DistinctCount(rest, all - {last});
      forall i | |free| == |all| && i in all ensures i in free {
        assert i != last ==> i in all - {last};
      }
    } else {
      assert |all| == 0 ==> all == {};
    }
  }

  ghost function Range(lo: nat, n: nat): (r: set<nat>)
    ensures |r| == n
    ensures forall i: nat :: i in r <==> lo <= i < lo + n
  {
    if n == 0 then {} else Range(lo, n - 1) + {lo + n - 1}
  }

  /** All slots are free exactly when as many are free as there are slots. */
  lemma AllSlotsFree(c: nat, free: seq<nat>)
    requires c <= META && Distinct(free) && forall i :: i in free ==> IsSlot(c, i)
    ensures |free| <= Capacity(c)
    ensures |free| == Capacity(c) ==> forall i: nat :: IsSlot(c, i) ==> i in free
    ensures (exists i: nat :: IsSlot(c, i) && i !in free) ==> |free| < Capacity(c)
  {
    var all := Range(FirstSlot(c), Capacity(c));
    DistinctCount(free, all);
    forall i: nat | |free| == Capacity(c) && IsSlot(c, i) ensures i in free {
      assert i in all;
    }
  }

  lemma {:induction false} InsertDistinct(f: seq<nat>, o: nat)
    requires Distinct(f) && o !in f
    ensures Distinct(Insert(f, o))
  {
    if f != [] && f[0] <= o {
      InsertDistinct(f[1..], o);
      var r := Insert(f[1..], o);
      forall j | 0 <= j < |r| ensures f[0] != r[j] {
        assert r[j] in r;
      }
    }
  }

  lemma PutBackSlots(c: nat, free: seq<nat>, i: nat)
    requires c <= META && SlotsOk(c, free) && IsSlot(c, i) && i !in free
    ensures SlotsOk(c, PutBack(c, free, i)) && |PutBack(c, free, i)| == |free| + 1
    ensures forall j :: j in PutBack(c, free, i) <==> j == i || j in free
  {
    InsertDistinct(free, i);
    if c < 3 {
      InsertSorted(free, i);
    }
    AllSlotsFree(c, PutBack(c, free, i));
  }

  lemma TakeSlotBase(h: Heap, c: nat, a: int, pending: set<(int, nat)>)
    requires Base(h, pending) && a in h.slabs && h.slabs[a].free != [] && h.slabs[a].cache == c && c in h.caches
    ensures Base(TakeSlot(h, c, a), if c == META then pending + {(a, h.slabs[a].free[0])} else pending)
  {
    hide PagesOk, OwnersOk, BlocksOk, RetiredOk, DescriptorsOk;
    var free := h.slabs[a].free;
    var pending' := if c == META then pending + {(a, free[0])} else pending;
    assert SlabOk(h, a);
    TailSlots(c, free);
    WithFreeBase(h, a, free[1..]);
    TakeDescriptor(h, a, pending);
    SetCacheKeeps(WithFree(h, a, free[1..]), c, h.caches[c].(inUse := h.caches[c].inUse + 1), pending');
  }

  lemma PutSlotBase(h: Heap, c: nat, a: int, i: nat, pending: set<(int, nat)>)
    requires Base(h, pending) && a in h.slabs && h.slabs[a].cache == c && c in h.caches
    requires c <= META && IsSlot(c, i) && i !in h.slabs[a].free && (c == META ==> (a, i) in pending)
    ensures Base(PutSlot(h, c, a, i), if c == META then pending - {(a, i)} else pending)
    ensures |PutBack(c, h.slabs[a].free, i)| == |h.slabs[a].free| + 1
  {
    hide PagesOk, OwnersOk, BlocksOk, RetiredOk, DescriptorsOk;
    var free := PutBack(c, h.slabs[a].free, i);
    var pending' := if c == META then pending - {(a, i)} else pending;
    assert SlabOk(h, a);
    PutBackSlots(c, h.slabs[a].free, i);
    WithFreeBase(h, a, free);
    PutDescriptor(h, a, i, pending);
    SetCacheKeeps(WithFree(h, a, free), c, h.caches[c].(inUse := h.caches[c].inUse - 1), pending');
  }

  lemma LooseFacts(h: Heap, c: nat, a: int)
    requires Lists(h, c, [a])
    ensures c <= META && c in h.caches && a in h.slabs && h.slabs[a].cache == c
  {
    assert a in [a];
  }

  lemma TakeSlotKeeps(h: Heap, c: nat, a: int, pending: set<(int, nat)>)
    requires Mid(h, c, [a], pending) && a in h.slabs && h.slabs[a].free != []
    ensures Mid(TakeSlot(h, c, a), c, [a], if c == META then pending + {(a, h.slabs[a].free[0])} else pending)
  {
    hide Base, Lists;
    LooseFacts(h, c, a);
    TakeSlotBase(h, c, a, pending);
    WithFreeLists(h, c, a, h.slabs[a].free[1..]);
  }

  lemma PutSlotKeeps(h: Heap, c: nat, a: int, i: nat, pending: set<(int, nat)>)
    requires Mid(h, c, [a], pending) && a in h.slabs && IsSlot(c, i) && i !in h.slabs[a].free
    requires c == META ==> (a, i) in pending
    ensures Mid(PutSlot(h, c, a, i), c, [a], if c == META then pending - {(a, i)} else pending)
  {
    hide Base, Lists;
    LooseFacts(h, c, a);
    PutSlotBase(h, c, a, i, pending);
    WithFreeLists(h, c, a, PutBack(c, h.slabs[a].free, i));
  }

  // ----- slabs come and go

  lemma FreshSlotsOk(c: nat)
    requires c <= META
    ensures SlotsOk(c, FreshSlots(c)) && |FreshSlots(c)| == Capacity(c)
    ensures forall i: nat :: IsSlot(c, i) ==> i in FreshSlots(c)
  {
    AllSlotsFree(c, FreshSlots(c));
  }

  /** A descriptor's address tells its meta slab and its slot. */
  lemma DescriptorParts(p: int, i: nat)
    requires 0 <= p && i < 64
    ensures DescriptorAt(p * PAGESIZE, i) / PAGESIZE == p
    ensures DescriptorAt(p * PAGESIZE, i) % PAGESIZE / DESCRIPTOR_SIZE == i
    ensures DescriptorAt(p * PAGESIZE, i) == p * PAGESIZE <==> i == 0
  {
  }

  /** A handed-out slot of a meta slab is some page's. */
  lemma HomeFacts(h: Heap, m: int, i: nat)
    requires SlabsOk(h) && PagesOk(h) && HandedOut(h, m, i)
    ensures var p := h.slabs[m].page; p > 0 && m == p * PAGESIZE && 0 < i < 64
  {
    assert SlabOk(h, m);
  }

  /** No slab has the address of a pending descriptor, nor of a free page. */
  lemma AddressFree(h: Heap, pending: set<(int, nat)>, a: int)
    requires SlabsOk(h) && PagesOk(h) && DescriptorsOk(h, pending)
    requires (exists p :: p in h.ring && a == p * PAGESIZE) ||
             (exists m, i: nat :: (m, i) in pending && a == DescriptorAt(m, i))
    ensures a !in h.slabs
  {
    if a in h.slabs {
      var s := h.slabs[a];
      assert SlabOk(h, a);
      if s.cache != META {
        assert HandedOut(h, s.home, s.slot);
        HomeFacts(h, s.home, s.slot);
        DescriptorParts(h.slabs[s.home].page, s.slot);
      }
      if m, i: nat :| (m, i) in pending && a == DescriptorAt(m, i) {
        HomeFacts(h, m, i);
        DescriptorParts(h.slabs[m].page, i);
      }
      assert false;
    }
  }

  /** The first free page becomes the page of a new slab a. */
  function Install(h: Heap, c: nat, a: int, home: int, slot: nat): Heap
    requires c <= META && c in h.caches && h.ring != []
  {
    AddSlab(h.(ring := h.ring[1..], role := h.role[h.ring[0] := PageRole(c, a)]), c, a, h.ring[0], home, slot)
  }

  ghost predicate Installable(h: Heap, c: nat, a: int, home: int, slot: nat, pending: set<(int, nat)>) {
    && c <= META && c in h.caches && h.ring != [] && a !in h.slabs
    && (c == META ==> a == h.ring[0] * PAGESIZE && home == a && slot == 0)
    && (c != META ==> (home, slot) in pending && a == DescriptorAt(home, slot))
  }

  lemma InstallPages(h: Heap, c: nat, a: int, home: int, slot: nat, pending: set<(int, nat)>)
    requires PagesOk(h) && SlabsOk(h) && OwnersOk(h) && BlocksOk(h) && RetiredOk(h)
    requires Installable(h, c, a, home, slot, pending)
    ensures var h' := Install(h, c, a, home, slot); PagesOk(h') && RetiredOk(h') && BlocksOk(h')
  {
    var h' := Install(h, c, a, home, slot);
    var p := h.ring[0];
    assert p in h.ring && h.role[p] == Free;
    assert forall q :: q in h.ring[1..] <==> q in h.ring && q != p;
    assert RetiredPages(h'.role) == RetiredPages(h.role);
    forall s | s in h'.blocks ensures BlockOk(h', s) {
      assert BlockOk(h, s);
    }
  }

  lemma InstallSlabs(h: Heap, c: nat, a: int, home: int, slot: nat, pending: set<(int, nat)>)
    requires PagesOk(h) && SlabsOk(h) && OwnersOk(h)
    requires Installable(h, c, a, home, slot, pending)
    ensures var h' := Install(h, c, a, home, slot); SlabsOk(h') && OwnersOk(h')
  {
    var h' := Install(h, c, a, home, slot);
    var p := h.ring[0];
    assert p in h.ring && h.role[p] == Free;
    FreshSlotsOk(c);
    forall b | b in h'.slabs ensures SlabOk(h', b) {
      if b != a {
        assert SlabOk(h, b);
      }
    }
    forall q | q in h'.role ensures OwnerOk(h', q) {
      if q != p {
        assert OwnerOk(h, q);
      }
    }
  }

  lemma InstallDescriptors(h: Heap, c: nat, a: int, home: int, slot: nat, pending: set<(int, nat)>)
    requires PagesOk(h) && SlabsOk(h) && DescriptorsOk(h, pending)
    requires Installable(h, c, a, home, slot, pending)
    ensures DescriptorsOk(Install(h, c, a, home, slot), pending - {(home, slot)})
  {
    var h' := Install(h, c, a, home, slot);
    var pending' := pending - {(home, slot)};
    FreshSlotsOk(c);
    assert forall m, i: nat :: m != a ==> HandedOut(h', m, i) == HandedOut(h, m, i);
    assert !HandedOut(h, home, slot) ==> (home, slot) !in pending;
    forall m, i: nat | HandedOut(h', m, i) ensures (m, i) in pending' || Describes(h', m, i) {
      assert m != a && HandedOut(h, m, i);
      assert Describes(h, m, i) ==> Describes(h', m, i);
    }
    forall b | b in h'.slabs && h'.slabs[b].cache != META
      ensures HandedOut(h', h'.slabs[b].home, h'.slabs[b].slot) && (h'.slabs[b].home, h'.slabs[b].slot) !in pending'
    {
      if b != a {
        assert HandedOut(h, h.slabs[b].home, h.slabs[b].slot);
      } else {
        assert HandedOut(h, home, slot);
      }
    }
    forall m, i: nat | (m, i) in pending' ensures HandedOut(h', m, i) {
      assert HandedOut(h, m, i);
    }
  }

  lemma InstallLists(h: Heap, lc: nat, c: nat, a: int, home: int, slot: nat)
    requires Lists(h, lc, []) && c <= META && h.ring != [] && a !in h.slabs
    requires h.caches[c].half == [] && h.caches[c].empty == []
    ensures Lists(Install(h, c, a, home, slot), c, [a])
  {
    var h' := Install(h, c, a, home, slot);
    forall d, g | 0 <= d <= META ensures QueueHolds(h', d, g, [a]) {
      assert QueueHolds(h, d, g, []);
      assert Queue(h'.caches[d], g) == Queue(h.caches[d], g);
    }
    forall b | b in h'.slabs && b !in [a] && h'.slabs[b].cache <= META ensures Queued(h', b) {
      assert b != a && Queued(h, b);
    }
    InstallCounts(h, lc, c, a, home, slot);
  }

  lemma InstallCounts(h: Heap, lc: nat, c: nat, a: int, home: int, slot: nat)
    requires Lists(h, lc, []) && c <= META && h.ring != [] && a !in h.slabs
    requires h.caches[c].half == [] && h.caches[c].empty == []
    ensures CountsOk(Install(h, c, a, home, slot), c, [a])
  {
    var h' := Install(h, c, a, home, slot);
    FreshSlotsOk(c);
    UsedCons(h'.slabs, c, a, []);
    forall d | 0 <= d <= META ensures CountOk(h', d, c, [a]) {
      assert CountOk(h, d, lc, []);
      QueuesSameUse(h, h'.slabs, d);
    }
  }

  /** The slabs on queues are used as before. */
  lemma QueuesSameUse(h: Heap, slabs': map<int, Slab>, d: nat)
    requires QueuesOk(h, []) && d <= META
    requires forall b :: b in h.slabs ==> SameFree(h.slabs, slabs', b)
    ensures UsedBy(h.slabs, d, h.caches[d]) == UsedBy(slabs', d, h.caches[d])
  {
    var k := h.caches[d];
    assert Queue(k, Full) == k.full && Queue(k, Half) == k.half && Queue(k, Empty) == k.empty;
    assert QueueHolds(h, d, Full, []) && QueueHolds(h, d, Half, []) && QueueHolds(h, d, Empty, []);
    UsedFrame(h.slabs, slabs', d, k.full);
    UsedFrame(h.slabs, slabs', d, k.half);
    UsedFrame(h.slabs, slabs', d, k.empty);
  }

  lemma InstallKeeps(h: Heap, lc: nat, c: nat, a: int, home: int, slot: nat, pending: set<(int, nat)>)
    requires Mid(h, lc, [], pending) && Installable(h, c, a, home, slot, pending)
    requires h.caches[c].half == [] && h.caches[c].empty == []
    ensures Mid(Install(h, c, a, home, slot), c, [a], pending - {(home, slot)})
  {
    hide PagesOk, SlabsOk, OwnersOk, BlocksOk, RetiredOk, DescriptorsOk, Lists, Install;
    InstallPages(h, c, a, home, slot, pending);
    InstallSlabs(h, c, a, home, slot, pending);
    InstallDescriptors(h, c, a, home, slot, pending);
    InstallLists(h, lc, c, a, home, slot);
  }

  /** An empty meta slab goes, and its page is free again. */
  lemma DropMetaPages(h: Heap, a: int)
    requires PagesOk(h) && SlabsOk(h) && OwnersOk(h) && BlocksOk(h) && RetiredOk(h)
    requires META in h.caches && a in h.slabs && h.slabs[a].cache == META
    ensures var h' := DropMeta(h, a); PagesOk(h') && SlabsOk(h') && OwnersOk(h') && BlocksOk(h') && RetiredOk(h')
  {
    var h' := DropMeta(h, a);
    var p := h.slabs[a].page;
    assert SlabOk(h, a) && p !in h.ring;
    assert RetiredPages(h'.role) == RetiredPages(h.role);
    forall b | b in h'.slabs ensures SlabOk(h', b) {
      assert SlabOk(h, b);
    }
    forall q | q in h'.role ensures OwnerOk(h', q) {
      assert OwnerOk(h, q);
    }
    forall s | s in h'.blocks ensures BlockOk(h', s) {
      assert BlockOk(h, s);
    }
  }

  lemma DropMetaDescriptors(h: Heap, a: int, pending: set<(int, nat)>)
    requires SlabsOk(h) && DescriptorsOk(h, pending)
    requires META in h.caches && a in h.slabs && h.slabs[a].cache == META && |h.slabs[a].free| == Capacity(META)
    ensures DescriptorsOk(DropMeta(h, a), pending)
  {
    var h' := DropMeta(h, a);
    assert SlabOk(h, a);
    AllSlotsFree(META, h.slabs[a].free);
    assert forall i: nat :: !HandedOut(h, a, i);
    assert forall m, i: nat :: HandedOut(h', m, i) == HandedOut(h, m, i);
    forall m, i: nat | HandedOut(h', m, i) ensures (m, i) in pending || Describes(h', m, i) {
      assert Describes(h, m, i) ==> Describes(h', m, i);
    }
  }

  /** A loose slab that goes leaves the queues and counters of the others right. */
  lemma DropLists(h: Heap, c: nat, a: int, h': Heap)
    requires Lists(h, c, [a]) && c in h.caches && a in h.slabs && h.slabs[a].cache == c
    requires |h.slabs[a].free| == Capacity(c)
    requires h'.slabs == h.slabs - {a} && h'.caches == h.caches[c := h.caches[c].(slabPg := h.caches[c].slabPg - 1)]
    ensures Lists(h', META, [])
  {
    forall d, g | 0 <= d <= META ensures QueueHolds(h', d, g, []) {
      assert QueueHolds(h, d, g, [a]);
      assert Queue(h'.caches[d], g) == Queue(h.caches[d], g);
    }
    forall b | b in h'.slabs && h'.slabs[b].cache <= META ensures Queued(h', b) {
      assert b != a && Queued(h, b);
    }
    forall d | 0 <= d <= META ensures CountOk(h', d, META, []) {
      DropCount(h, c, a, h', d);
    }
  }

  lemma DropCount(h: Heap, c: nat, a: int, h': Heap, d: nat)
    requires Lists(h, c, [a]) && c in h.caches && a in h.slabs && h.slabs[a].cache == c
    requires |h.slabs[a].free| == Capacity(c)
    requires h'.slabs == h.slabs - {a} && h'.caches == h.caches[c := h.caches[c].(slabPg := h.caches[c].slabPg - 1)]
    requires d <= META
    ensures CountOk(h', d, META, [])
  {
    assert CountOk(h, d, c, [a]);
    UsedCons(h.slabs, c, a, []);
    var k := h.caches[d];
    assert Queue(k, Full) == k.full && Queue(k, Half) == k.half && Queue(k, Empty) == k.empty;
    assert QueueHolds(h, d, Full, [a]) && QueueHolds(h, d, Half, [a]) && QueueHolds(h, d, Empty, [a]);
    UsedFrame(h.slabs, h'.slabs, d, k.full);
    UsedFrame(h.slabs, h'.slabs, d, k.half);
    UsedFrame(h.slabs, h'.slabs, d, k.empty);
  }

  lemma DropMetaKeeps(h: Heap, a: int, pending: set<(int, nat)>)
    requires Mid(h, META, [a], pending) && a in h.slabs && |h.slabs[a].free| == Capacity(META)
    ensures Mid(DropMeta(h, a), META, [], pending)
  {
    hide PagesOk, SlabsOk, OwnersOk, BlocksOk, RetiredOk, DescriptorsOk, Lists;
    LooseFacts(h, META, a);
    DropMetaPages(h, a);
    DropMetaDescriptors(h, a, pending);
    DropLists(h, META, a, DropMeta(h, a));
  }

  /** An empty data slab goes: its page is retired and its descriptor is pending. */
  lemma DropDataPages(h: Heap, c: nat, a: int)
    requires PagesOk(h) && SlabsOk(h) && OwnersOk(h) && BlocksOk(h) && RetiredOk(h)
    requires c < META && c in h.caches && a in h.slabs && h.slabs[a].cache == c
    ensures var h' := DropData(h, c, a); PagesOk(h') && SlabsOk(h') && OwnersOk(h') && BlocksOk(h') && RetiredOk(h')
  {
    var h' := DropData(h, c, a);
    var p := h.slabs[a].page;
    assert SlabOk(h, a);
    assert RetiredPages(h'.role) == RetiredPages(h.role) + {p};
    forall b | b in h'.slabs ensures SlabOk(h', b) {
      assert SlabOk(h, b);
    }
    forall q | q in h'.role ensures OwnerOk(h', q) {
      assert OwnerOk(h, q);
      assert q * PAGESIZE == a ==> h.role[q] != MetaPage;
    }
    forall s | s in h'.blocks ensures BlockOk(h', s) {
      assert BlockOk(h, s);
    }
  }

  lemma DropDataDescriptors(h: Heap, c: nat, a: int, pending: set<(int, nat)>)
    requires SlabsOk(h) && PagesOk(h) && DescriptorsOk(h, pending)
    requires c < META && c in h.caches && a in h.slabs && h.slabs[a].cache == c
    ensures DescriptorsOk(DropData(h, c, a), pending + {(h.slabs[a].home, h.slabs[a].slot)})
  {
    var h' := DropData(h, c, a);
    var pending' := pending + {(h.slabs[a].home, h.slabs[a].slot)};
    assert SlabOk(h, a);
    assert forall m, i: nat :: HandedOut(h', m, i) == HandedOut(h, m, i);
    forall m, i: nat | HandedOut(h', m, i) ensures (m, i) in pending' || Describes(h', m, i) {
      assert Describes(h, m, i) && DescriptorAt(m, i) != a ==> Describes(h', m, i);
    }
    forall b | b in h'.slabs && h'.slabs[b].cache != META
      ensures HandedOut(h', h'.slabs[b].home, h'.slabs[b].slot) && (h'.slabs[b].home, h'.slabs[b].slot) !in pending'
    {
      assert SlabOk(h, b) && HandedOut(h, h.slabs[b].home, h.slabs[b].slot);
    }
  }

  lemma DropDataKeeps(h: Heap, c: nat, a: int, pending: set<(int, nat)>)
    requires Mid(h, c, [a], pending) && c < META && a in h.slabs && |h.slabs[a].free| == Capacity(c)
    ensures Mid(DropData(h, c, a), META, [], pending + {(h.slabs[a].home, h.slabs[a].slot)})
  {
    hide PagesOk, SlabsOk, OwnersOk, BlocksOk, RetiredOk, DescriptorsOk, Lists;
    LooseFacts(h, c, a);
    DropDataPages(h, c, a);
    DropDataDescriptors(h, c, a, pending);
    DropLists(h, c, a, DropData(h, c, a));
  }
}
