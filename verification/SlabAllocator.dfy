/** kern/mm/uslab.cc over kern/mm/allocator.cc: the slab allocator as it changes memory.

    Each method is proved to take the heap pictured by the page structs, the rings, the descriptors and the
    counters from one state of the Heap module to the next.  A method that returns false has dereferenced
    the null page AllocPage gives when pages run out. */
module SlabAllocator {
  import opened Rings
  import opened ListNodes
  import opened PageAllocator
  import opened Heap
  import opened HeapInvariant
  import opened HeapSteps
  import opened HeapBlocks
  import opened SlabTies
  import SlabBitmap
  import SlabStack
  import HeapRuns

  datatype Pointer = Null | At(addr: int)

  datatype Stat = Stat(inUse: int, slabPg: int, maxPg: nat)

  /** What a descriptor holds besides its list node and page: bitmap rows, a stack, or nr_free_slab. */
  datatype Body = Rows(rows: seq<SlabBitmap.Word>) | Stacked(stack: SlabStack.Stack) | Counter(nrFree: int)

  /** A row of 64 bits for every 64 objects of a page, of which 32 bits are used. */
  function RowCount(c: nat): (r: nat)
    ensures c < 3 ==> r * 64 * ObjSize(c) == PAGESIZE && Capacity(c) == r * 32
  {
    if c == 0 then 4 else if c == 1 then 2 else 1
  }

  ghost predicate BodyShows(b: Body, c: nat, free: seq<nat>) {
    if c < 3 then b.Rows? && |b.rows| == RowCount(c) && SlabBitmap.Shows(b.rows, free)
    else if c < META then b.Stacked? && b.stack.nrTotal == Capacity(c) && SlabStack.Shows(b.stack, free)
    else b.Counter? && b.nrFree == |free|
  }

  /** slab->Init(PAGESIZE / ObjSize) for the two kinds of data slab. */
  method InitBody(c: nat) returns (b: Body)
    requires c < META
    ensures BodyShows(b, c, FreshSlots(c))
  {
    if c < 3 {
      var rows := SlabBitmap.Init(RowCount(c));
      b := Rows(rows);
    } else {
      var s := SlabStack.Init(PAGESIZE / ObjSize(c));
      b := Stacked(s);
    }
  }

  /** slab->Alloc() for the two kinds of data slab. */
  method AllocBody(b: Body, c: nat, ghost free: seq<nat>) returns (b': Body, i: nat)
    requires c < META && BodyShows(b, c, free) && free != []
    ensures BodyShows(b', c, free[1..]) && i == free[0]
  {
    if c < 3 {
      var rows;
      rows, i := SlabBitmap.AllocFromBitmapArray(b.rows, free);
      b' := Rows(rows);
    } else {
      var s;
      s, i := SlabStack.Alloc(b.stack, free);
      b' := Stacked(s);
    }
  }

  /** slab->Free(obj_idx) for the two kinds of data slab. */
  method FreeBody(b: Body, c: nat, i: nat, ghost free: seq<nat>) returns (b': Body)
    requires c < META && BodyShows(b, c, free) && IsSlot(c, i) && i !in free && |free| < Capacity(c)
    ensures BodyShows(b', c, PutBack(c, free, i))
  {
    if c < 3 {
      var rows := SlabBitmap.FreeToBitmapArray(b.rows, i, free);
      b' := Rows(rows);
    } else {
      var s := SlabStack.Free(b.stack, i, free);
      b' := Stacked(s);
    }
  }

  method IsFull(b: Body, c: nat, ghost free: seq<nat>) returns (r: bool)
    requires c <= META && BodyShows(b, c, free)
    ensures r <==> free == []
  {
    match b
    case Rows(rows) => r := SlabBitmap.IsFull(rows, free);
    case Stacked(s) => r := s.nrFree == 0;
    case Counter(n) => r := n == 0;
  }

  method IsEmpty(b: Body, c: nat, ghost free: seq<nat>) returns (r: bool)
    requires c <= META && BodyShows(b, c, free)
    ensures r <==> |free| == Capacity(c)
  {
    match b
    case Rows(rows) => r := SlabBitmap.IsEmpty(rows, free);
    case Stacked(s) => r := s.nrFree == s.nrTotal;
    case Counter(n) => r := n == 63;
  }

  ghost predicate StatShows(s: Stat, k: Cache) {
    s.inUse == k.inUse && s.slabPg == k.slabPg && s.maxPg == k.maxPg
  }

  lemma {:induction false} WithoutIsDrop(q: seq<int>, a: int) returns (k: nat)
    requires Distinct(q) && a in q
    ensures k < |q| && q[k] == a && Without(q, a) == Drop(q, k)
  {
    if q[0] == a {
      k := 0;
    } else {
      k := WithoutIsDrop(q[1..], a);
      k := k + 1;
      assert Drop(q, k) == [q[0]] + Drop(q[1..], k - 1);
    }
  }

  ghost predicate EmptyHeads(rings: map<int, seq<int>>, n: nat) {
    && (forall c: nat, f :: c < n ==> Head(c, f) in rings && rings[Head(c, f)] == [])
    && (forall g :: g in rings ==> exists c: nat, f :: c < n && g == Head(c, f))
  }

  lemma NextHeadLoose(rings: map<int, seq<int>>, n: nat, g: int)
    requires EmptyHeads(rings, n) && forall c: nat, f :: c < n ==> g != Head(c, f)
    ensures Loose(rings, g)
  {
  }

  /** The MemCacheBase constructors InitSlab runs: every queue of every cache an empty ring. */
  method InitHeads(l: ListMemory)
    requires l.Valid() && l.rings == map[]
    modifies l
    ensures l.Valid() && EmptyHeads(l.rings, META + 1)
  {
    for c: nat := 0 to META + 1
      invariant l.Valid() && EmptyHeads(l.rings, c)
    {
      ghost var was := l.rings;
      forall f ensures Loose(was, Head(c, f)) {
        forall d: nat, g | d < c ensures Head(c, f) != Head(d, g) {
          HeadsDiffer(c, f, d, g);
        }
        NextHeadLoose(was, c, Head(c, f));
      }
      HeadsDiffer(c, Full, c, Half);
      HeadsDiffer(c, Half, c, Empty);
      HeadsDiffer(c, Full, c, Empty);
      l.InitHead(Head(c, Full));
      l.InitHead(Head(c, Half));
      l.InitHead(Head(c, Empty));
      ThreeMoreHeads(was, l.rings, c);
    }
  }

  lemma FreshTied(rings: map<int, seq<int>>, nr: nat, ring: seq<int>, limits: seq<nat>, h: Heap)
    requires EmptyHeads(rings, META + 1) && |limits| == 9 && h == HeapRuns.FreshHeap(nr, ring, limits)
    ensures TiedRings(rings, h)
  {
    forall c: nat, f | c <= META ensures QueueTied(rings, h, c, f) {
      assert c < META + 1 ==> Head(c, f) in rings && rings[Head(c, f)] == [];
      assert Queue(h.caches[c], f) == [];
    }
    forall g | g in rings ensures IsHead(h, g) {
      var c: nat, f :| c < META + 1 && g == Head(c, f);
      assert c <= META;
    }
  }

  lemma ThreeMoreHeads(was: map<int, seq<int>>, rings: map<int, seq<int>>, c: nat)
    requires EmptyHeads(was, c)
    requires rings == was[Head(c, Full) := []][Head(c, Half) := []][Head(c, Empty) := []]
    ensures EmptyHeads(rings, c + 1)
  {
    forall d: nat, f | d < c + 1 ensures Head(d, f) in rings && rings[Head(d, f)] == [] {
      if d < c {
        assert Head(d, f) in was;
      }
    }
    forall g | g in rings ensures exists d: nat, f :: d < c + 1 && g == Head(d, f) {
      if g in was {
        var d: nat, f :| d < c && g == Head(d, f);
        assert d < c + 1;
      }
    }
  }

  /** The page structs: the free ring, the slab fields of pages in use, the address of every managed page. */
  ghost predicate PagesShow(pages: MemPages, nr: nat, ring: seq<int>, slabPtr: map<int, int>, objSize: map<int, int>,
                            role: map<int, Role>)
    reads pages, pages.structs
  {
    && pages.Valid() && pages.ring == ring && pages.structs.Length == nr
    && (role != map[] ==> pages.headNext != NULL)
    && (forall p :: p in slabPtr ==> 0 <= p < nr && pages.structs[p].slabPtr == slabPtr[p])
    && (forall p :: p in objSize ==> 0 <= p < nr && pages.structs[p].slabObjSize == objSize[p])
    && (forall p :: p in role ==> 0 <= p < nr && pages.structs[p].phyaddr == p * PAGESIZE)
  }

  ghost predicate BodyTied(desc: map<int, Body>, dataPage: map<int, int>, a: int, s: Slab) {
    && a in desc && BodyShows(desc[a], s.cache, s.free)
    && (s.cache != META ==> a in dataPage && dataPage[a] == s.page)
  }

  ghost predicate BodiesShow(desc: map<int, Body>, dataPage: map<int, int>, slabs: map<int, Slab>) {
    forall a :: a in slabs ==> BodyTied(desc, dataPage, a, slabs[a])
  }

  ghost predicate StatsShow(stat: map<nat, Stat>, caches: map<nat, Cache>) {
    forall c: nat :: c <= META ==> c in stat && c in caches && StatShows(stat[c], caches[c])
  }

  lemma StatsQueue(stat: map<nat, Stat>, caches: map<nat, Cache>, c: nat, f: Fill, q: seq<int>)
    requires StatsShow(stat, caches) && c <= META && c in caches
    ensures StatsShow(stat, caches[c := WithQueue(caches[c], f, q)])
  {
  }

  lemma RingOf(rings: map<int, seq<int>>, h: Heap, c: nat, f: Fill)
    requires TiedRings(rings, h) && c <= META && c in h.caches
    ensures Head(c, f) in rings && rings[Head(c, f)] == Queue(h.caches[c], f)
  {
    assert QueueTied(rings, h, c, f);
  }

  lemma BodiesUpdate(desc: map<int, Body>, dataPage: map<int, int>, slabs: map<int, Slab>, a: int, b: Body,
                     free: seq<nat>)
    requires BodiesShow(desc, dataPage, slabs) && a in slabs && BodyShows(b, slabs[a].cache, free)
    ensures BodiesShow(desc[a := b], dataPage, slabs[a := slabs[a].(free := free)])
  {
    var slabs' := slabs[a := slabs[a].(free := free)];
    forall x | x in slabs' ensures BodyTied(desc[a := b], dataPage, x, slabs'[x]) {
      assert BodyTied(desc, dataPage, x, slabs[x]);
    }
  }

  lemma BodyOf(desc: map<int, Body>, dataPage: map<int, int>, slabs: map<int, Slab>, a: int)
    requires BodiesShow(desc, dataPage, slabs) && a in slabs
    ensures a in desc && BodyShows(desc[a], slabs[a].cache, slabs[a].free)
    ensures slabs[a].cache != META ==> a in dataPage && dataPage[a] == slabs[a].page
  {
    assert BodyTied(desc, dataPage, a, slabs[a]);
  }

  lemma StatsUpdate(stat: map<nat, Stat>, caches: map<nat, Cache>, c: nat, s: Stat, k: Cache)
    requires StatsShow(stat, caches) && StatShows(s, k)
    ensures StatsShow(stat[c := s], caches[c := k])
  {
  }

  lemma StatOf(stat: map<nat, Stat>, caches: map<nat, Cache>, c: nat)
    requires StatsShow(stat, caches) && c <= META
    ensures c in stat && c in caches && StatShows(stat[c], caches[c])
  {
  }

  lemma FreeRing(rings: map<int, seq<int>>, h: Heap, m: int)
    requires TiedRings(rings, h) && IsMeta(h, m)
    ensures m > 0 && FreeHead(m) in rings && rings[FreeHead(m)] == Nodes(m, h.slabs[m].free)
  {
    assert FreeTied(rings, h, m);
  }

  /** A slab's free slots and its cache's counters change: what the rings must then be. */
  lemma TieSlots(rings: map<int, seq<int>>, h: Heap, c: nat, a: int, free: seq<nat>, k: Cache)
    requires TiedRings(rings, h) && c <= META && c in h.caches && a in h.slabs && h.slabs[a].cache == c
    requires k.full == h.caches[c].full && k.half == h.caches[c].half && k.empty == h.caches[c].empty
    ensures var h' := SetCache(WithFree(h, a, free), c, k);
            if c == META then TiedRings(rings[FreeHead(a) := Nodes(a, free)], h') else TiedRings(rings, h')
  {
    var h' := SetCache(WithFree(h, a, free), c, k);
    forall d: nat, f | d <= META ensures SameQueue(h, h', d, f) {
      assert QueueTied(rings, h, d, f);
    }
    forall n | n != a ensures SameMeta(h, h', n) {
    }
    if c == META {
      assert IsMeta(h, a) && FreeTied(rings, h, a);
      TieMeta(rings, h, h', a, rings[FreeHead(a) := Nodes(a, free)]);
    } else {
      assert SameMeta(h, h', a);
      TieSame(rings, h, h');
    }
  }

  lemma BodiesAdd(desc: map<int, Body>, dataPage: map<int, int>, slabs: map<int, Slab>, a: int, b: Body, p: int,
                  s: Slab)
    requires BodiesShow(desc, dataPage, slabs) && BodyShows(b, s.cache, s.free) && (s.cache != META ==> s.page == p)
    ensures s.cache == META ==> BodiesShow(desc[a := b], dataPage, slabs[a := s])
    ensures s.cache != META ==> BodiesShow(desc[a := b], dataPage[a := p], slabs[a := s])
  {
    var slabs' := slabs[a := s];
    forall x | x in slabs'
      ensures s.cache == META ==> BodyTied(desc[a := b], dataPage, x, slabs'[x])
      ensures s.cache != META ==> BodyTied(desc[a := b], dataPage[a := p], x, slabs'[x])
    {
      assert x != a ==> BodyTied(desc, dataPage, x, slabs[x]);
    }
  }

  lemma BodiesRemove(desc: map<int, Body>, dataPage: map<int, int>, slabs: map<int, Slab>, a: int)
    requires BodiesShow(desc, dataPage, slabs)
    ensures BodiesShow(desc, dataPage, slabs - {a})
  {
    forall x | x in slabs - {a} ensures BodyTied(desc, dataPage, x, slabs[x]) {
    }
  }

  /** MetaSlab::Init: the 63 descriptors of a page go on its free ring, the last one in front. */
  method InitMeta(l: ListMemory, m: int)
    requires l.Valid() && Loose(l.rings, FreeHead(m))
    requires forall i: nat :: 0 < i < 64 ==> Loose(l.rings, DescriptorAt(m, i))
    modifies l
    ensures l.Valid() && l.rings == old(l.rings)[FreeHead(m) := Nodes(m, SlabStack.CountDown(1, 63))]
  {
    hide Family;
    ghost var was := l.rings;
    l.InitHead(FreeHead(m));
    assert Nodes(m, SlabStack.CountDown(1, 0)) == [];
    var ptr := m + DESCRIPTOR_SIZE;
    for i := 0 to 63
      invariant ptr == DescriptorAt(m, i + 1)
      invariant l.Valid() && l.rings == was[FreeHead(m) := Nodes(m, SlabStack.CountDown(1, i))]
    {
      NextDescriptorLoose(was, m, i);
      l.InsertAfter(ptr, FreeHead(m));
      NextDescriptor(m, i);
      ptr := ptr + DESCRIPTOR_SIZE;
    }
  }

  lemma NextDescriptor(m: int, i: nat)
    ensures [DescriptorAt(m, i + 1)] + Nodes(m, SlabStack.CountDown(1, i)) == Nodes(m, SlabStack.CountDown(1, i + 1))
  {
    assert SlabStack.CountDown(1, i + 1) == [i + 1] + SlabStack.CountDown(1, i);
  }

  lemma NextDescriptorLoose(was: map<int, seq<int>>, m: int, i: nat)
    requires Loose(was, DescriptorAt(m, i + 1))
    ensures Loose(was[FreeHead(m) := Nodes(m, SlabStack.CountDown(1, i))], DescriptorAt(m, i + 1))
  {
    var rings := was[FreeHead(m) := Nodes(m, SlabStack.CountDown(1, i))];
    forall g | g in rings ensures DescriptorAt(m, i + 1) !in Cycle(rings, g) {
      if g != FreeHead(m) {
        assert DescriptorAt(m, i + 1) !in Cycle(was, g);
      }
    }
  }

  /** A new slab is installed: what the rings must then be. */
  lemma TieInstall(rings: map<int, seq<int>>, h: Heap, c: nat, a: int, home: int, slot: nat)
    requires TiedRings(rings, h) && c <= META && c in h.caches && h.ring != [] && a !in h.slabs && a > 0
    ensures var h' := Install(h, c, a, home, slot);
            if c == META then TiedRings(rings[FreeHead(a) := Nodes(a, FreshSlots(c))], h') else TiedRings(rings, h')
  {
    var h' := Install(h, c, a, home, slot);
    forall d: nat, f | d <= META ensures SameQueue(h, h', d, f) {
      assert QueueTied(rings, h, d, f);
    }
    forall n | n != a ensures SameMeta(h, h', n) {
    }
    if c == META {
      TieMeta(rings, h, h', a, rings[FreeHead(a) := Nodes(a, FreshSlots(c))]);
    } else {
      assert SameMeta(h, h', a);
      TieSame(rings, h, h');
    }
  }

  class Slabs {
    const pages: MemPages
    const links: ListMemory
    var stat: map<nat, Stat>
    var desc: map<int, Body>
    var dataPage: map<int, int>
    /** The heap the fields picture. */
    ghost var h: Heap

    /** InitSlab, over the pages found at start-up. */
    constructor (mp: MemPages, limits: seq<nat>)
      requires |limits| == 9 && mp.Valid()
      requires forall p :: p in mp.ring ==> 0 < p && mp.structs[p].phyaddr == p * PAGESIZE
      ensures pages == mp && fresh(links)
      ensures Tied() && h == HeapRuns.FreshHeap(mp.structs.Length, mp.ring, limits)
    {
      pages := mp;
      var l := new ListMemory();
      InitHeads(l);
      links := l;
      stat := map c: nat | 0 <= c <= META :: Stat(0, 0, limits[c]);
      desc, dataPage := map[], map[];
      h := HeapRuns.FreshHeap(mp.structs.Length, mp.ring, limits);
      new;
      FreshTied(links.rings, mp.structs.Length, mp.ring, limits, h);
    }

    ghost predicate Tied()
      reads this, links, pages, pages.structs
    {
      && links.Valid() && TiedRings(links.rings, h)
      && PagesShow(pages, h.nr, h.ring, h.slabPtr, h.objSize, h.role)
      && BodiesShow(desc, dataPage, h.slabs)
      && StatsShow(stat, h.caches)
    }

    /** head.next, and its Delete(). */
    method PopQueue(c: nat, f: Fill) returns (a: int)
      requires Tied() && c <= META && c in h.caches && Queue(h.caches[c], f) != []
      modifies this`h, links
      ensures Tied() && a == Queue(old(h).caches[c], f)[0]
      ensures h == SetCache(old(h), c, WithQueue(old(h).caches[c], f, Queue(old(h).caches[c], f)[1..]))
    {
      hide PagesShow, BodiesShow, StatsShow, TiedRings, Family;
      ghost var q := Queue(h.caches[c], f);
      RingOf(links.rings, h, c, f);
      a := links.First(Head(c, f));
      links.Delete(a, Head(c, f), 0);
      assert Drop(q, 0) == q[1..];
      TieQueue(old(links.rings), h, c, f, q[1..]);
      StatsQueue(stat, h.caches, c, f, q[1..]);
      h := SetCache(h, c, WithQueue(h.caches[c], f, q[1..]));
    }

    /** slab->list_node()->Delete(). */
    method Remove(c: nat, a: int)
      requires Tied() && QueuesOk(h, []) && c <= META && a in h.slabs && h.slabs[a].cache == c
      modifies this`h, links
      ensures Tied() && c in old(h).caches && h == Detach(old(h), c, a)
    {
      hide PagesShow, BodiesShow, StatsShow, TiedRings, Family;
      ghost var f := FillOf(c, h.slabs[a].free);
      DetachOne(h, c, a);
      ghost var q := Queue(h.caches[c], f);
      ghost var k := WithoutIsDrop(q, a);
      RingOf(links.rings, h, c, f);
      links.Delete(a, Head(c, f), k);
      TieQueue(old(links.rings), h, c, f, Without(q, a));
      StatsQueue(stat, h.caches, c, f, Without(q, a));
      h := SetCache(h, c, WithQueue(h.caches[c], f, Without(q, a)));
    }

    /** node->InsertAfter(&slab_queue...). */
    method PushQueue(c: nat, f: Fill, a: int)
      requires Tied() && c <= META && c in h.caches && Loose(links.rings, a)
      modifies this`h, links
      ensures Tied()
      ensures h == SetCache(old(h), c, WithQueue(old(h).caches[c], f, [a] + Queue(old(h).caches[c], f)))
    {
      hide PagesShow, BodiesShow, StatsShow, TiedRings, Family;
      ghost var q := Queue(h.caches[c], f);
      RingOf(links.rings, h, c, f);
      links.InsertAfter(a, Head(c, f));
      TieQueue(old(links.rings), h, c, f, [a] + q);
      StatsQueue(stat, h.caches, c, f, [a] + q);
      h := SetCache(h, c, WithQueue(h.caches[c], f, [a] + q));
    }

    /** slab->Alloc() of a meta slab: the first free descriptor leaves the ring. */
    method AllocDescriptor(a: int) returns (i: nat)
      requires Tied() && IsMeta(h, a) && h.slabs[a].free != []
      modifies this`desc, links
      ensures links.Valid() && links.rings == old(links.rings)[FreeHead(a) := Nodes(a, h.slabs[a].free[1..])]
      ensures i == h.slabs[a].free[0]
      ensures BodiesShow(desc, dataPage, h.slabs[a := h.slabs[a].(free := h.slabs[a].free[1..])])
    {
      hide PagesShow, BodiesShow, StatsShow, TiedRings, Family;
      ghost var free := h.slabs[a].free;
      FreeRing(links.rings, h, a);
      BodyOf(desc, dataPage, h.slabs, a);
      var node := links.First(FreeHead(a));
      links.Delete(node, FreeHead(a), 0);
      assert Drop(Nodes(a, free), 0) == Nodes(a, free[1..]);
      i := (node - a) / DESCRIPTOR_SIZE;
      BodiesUpdate(desc, dataPage, h.slabs, a, Counter(desc[a].nrFree - 1), free[1..]);
      desc := desc[a := Counter(desc[a].nrFree - 1)];
    }

    /** slab->Alloc() and stat.allocated++. */
    method TakeSlotOf(c: nat, a: int) returns (i: nat)
      requires Tied() && c <= META && c in h.caches && a in h.slabs && h.slabs[a].cache == c && h.slabs[a].free != []
      modifies this, links
      ensures Tied() && i == old(h).slabs[a].free[0] && h == TakeSlot(old(h), c, a)
    {
      hide PagesShow, BodiesShow, StatsShow, TiedRings, Family, BodyShows, Nodes;
      ghost var free := h.slabs[a].free;
      ghost var k := h.caches[c].(inUse := h.caches[c].inUse + 1);
      TieSlots(links.rings, h, c, a, free[1..], k);
      if c == META {
        i := AllocDescriptor(a);
      } else {
        BodyOf(desc, dataPage, h.slabs, a);
        var b;
        b, i := AllocBody(desc[a], c, free);
        BodiesUpdate(desc, dataPage, h.slabs, a, b, free[1..]);
        desc := desc[a := b];
      }
      StatOf(stat, h.caches, c);
      StatsUpdate(stat, h.caches, c, stat[c].(inUse := stat[c].inUse + 1), k);
      stat := stat[c := stat[c].(inUse := stat[c].inUse + 1)];
      h := TakeSlot(h, c, a);
    }

    /** slab->Free(obj_idx) of a meta slab. */
    method FreeDescriptor(a: int, i: nat)
      requires Tied() && IsMeta(h, a) && Loose(links.rings, DescriptorAt(a, i))
      modifies this`desc, links
      ensures links.Valid() && links.rings == old(links.rings)[FreeHead(a) := Nodes(a, [i] + h.slabs[a].free)]
      ensures BodiesShow(desc, dataPage, h.slabs[a := h.slabs[a].(free := [i] + h.slabs[a].free)])
    {
      hide PagesShow, BodiesShow, StatsShow, TiedRings, Family;
      ghost var free := h.slabs[a].free;
      FreeRing(links.rings, h, a);
      BodyOf(desc, dataPage, h.slabs, a);
      links.InsertAfter(a + i * DESCRIPTOR_SIZE, FreeHead(a));
      assert [DescriptorAt(a, i)] + Nodes(a, free) == Nodes(a, [i] + free);
      BodiesUpdate(desc, dataPage, h.slabs, a, Counter(desc[a].nrFree + 1), [i] + free);
      desc := desc[a := Counter(desc[a].nrFree + 1)];
    }

    /** slab->Free(idx) and stat.allocated--. */
    method GiveSlotOf(c: nat, a: int, i: nat)
      requires Tied() && c <= META && c in h.caches && a in h.slabs && h.slabs[a].cache == c
      requires IsSlot(c, i) && i !in h.slabs[a].free && |h.slabs[a].free| < Capacity(c)
      requires c == META ==> Loose(links.rings, DescriptorAt(a, i))
      modifies this, links
      ensures Tied() && h == PutSlot(old(h), c, a, i)
    {
      hide PagesShow, BodiesShow, StatsShow, TiedRings, Family, BodyShows, Nodes;
      ghost var free := PutBack(c, h.slabs[a].free, i);
      ghost var k := h.caches[c].(inUse := h.caches[c].inUse - 1);
      TieSlots(links.rings, h, c, a, free, k);
      if c == META {
        FreeDescriptor(a, i);
      } else {
        BodyOf(desc, dataPage, h.slabs, a);
        var b := FreeBody(desc[a], c, i, h.slabs[a].free);
        BodiesUpdate(desc, dataPage, h.slabs, a, b, free);
        desc := desc[a := b];
      }
      StatOf(stat, h.caches, c);
      StatsUpdate(stat, h.caches, c, stat[c].(inUse := stat[c].inUse - 1), k);
      stat := stat[c := stat[c].(inUse := stat[c].inUse - 1)];
      h := PutSlot(h, c, a, i);
    }

    /** AllocPage, as the slab allocator sees it. */
    method TakeFreePage() returns (p: int)
      requires PagesShow(pages, h.nr, h.ring, h.slabPtr, h.objSize, h.role) && forall q :: q in h.ring ==> q in h.role
      modifies pages, pages.structs
      ensures p == NULL <==> |h.ring| <= 1
      ensures p != NULL ==> p == h.ring[0] && PagesShow(pages, h.nr, h.ring[1..], h.slabPtr, h.objSize, h.role)
      ensures p != NULL ==> 0 <= p < h.nr == pages.structs.Length && pages.structs[p].phyaddr == p * PAGESIZE
    {
      hide IsRing;
      p := pages.AllocPage();
      assert p != NULL ==> p in h.ring;
    }

    /** pg->slab_ptr = slab; pg->slab_obj_size = obj_size. */
    method LabelPage(p: int, a: int, size: int, ghost ring: seq<int>, ghost r: Role)
      requires PagesShow(pages, h.nr, ring, h.slabPtr, h.objSize, h.role) && 0 <= p < h.nr && p in h.role
      requires pages.structs.Length == h.nr && pages.structs[p].phyaddr == p * PAGESIZE
      modifies pages.structs
      ensures PagesShow(pages, h.nr, ring, h.slabPtr[p := a], h.objSize[p := size], h.role[p := r])
    {
      hide MemPages.Valid;
      pages.SetSlab(p, a, size);
    }

    /** MetaSlab::AllocSlab, Init and stat.slab_pg++. */
    method NewMetaSlab() returns (ok: bool, a: int)
      requires Tied() && Inv(h) && META in h.caches && !HasRoom(h, META)
      modifies this, links, pages, pages.structs
      ensures ok <==> NewSlab(old(h), META).Done?
      ensures ok ==> Tied() && NewSlab(old(h), META) == Done(h, a)
    {
      hide PagesShow, BodiesShow, StatsShow, TiedRings, Family, Mid, Nodes, PagesOk, SlabsOk, DescriptorsOk, Lists;
      InvParts(h);
      RingManaged(h);
      var p := TakeFreePage();
      if p == NULL {
        return false, 0;
      }
      a := pages.structs[p].phyaddr;
      LabelPage(p, a, ObjSize(META), h.ring[1..], MetaPage);
      FreshPage(links.rings, h, p);
      TieInstall(links.rings, h, META, a, a, 0);
      InitMeta(links, a);
      BodiesAdd(desc, dataPage, h.slabs, a, Counter(63), p, Slab(META, p, a, 0, FreshSlots(META)));
      desc := desc[a := Counter(63)];
      StatOf(stat, h.caches, META);
      StatsUpdate(stat, h.caches, META, stat[META].(slabPg := stat[META].slabPg + 1),
                  h.caches[META].(slabPg := h.caches[META].slabPg + 1));
      stat := stat[META := stat[META].(slabPg := stat[META].slabPg + 1)];
      h := Install(h, META, a, a, 0);
      ok := true;
    }

    /** BaseSlab::AllocSlab, Init and stat.slab_pg++: the descriptor comes from the meta cache. */
    method NewDataSlab(c: nat) returns (ok: bool, a: int)
      requires Tied() && Inv(h) && c < META && c in h.caches && META in h.caches && !HasRoom(h, c)
      modifies this, links, pages, pages.structs
      ensures ok <==> NewSlab(old(h), c).Done?
      ensures ok ==> Tied() && NewSlab(old(h), c) == Done(h, a)
      decreases 1, 3
    {
      hide PagesShow, BodiesShow, StatsShow, TiedRings, Family, Mid, Inv, BodyShows, Allocate, AddSlab;
      AllocateMeta(h);
      ok, a := AllocateFrom(META);
      if !ok {
        return;
      }
      ghost var h1 := h;
      assert CachesButSame(old(h), h1, META);
      ghost var q, i: nat :| OnePending(h1, a, q, i);
      PendingParts(h1, a, q, i);
      var p := TakeFreePage();
      if p == NULL {
        return false, 0;
      }
      HeapSteps.NewDataSlab(h1, c, a, q, i);
      LabelPage(p, a, ObjSize(c), h.ring[1..], DataPage(a));
      TieInstall(links.rings, h, c, a, q * PAGESIZE, i);
      var b := InitBody(c);
      InstallFields(c, a, p, b, q * PAGESIZE, i);
    }

    /** The fields of a new data slab's descriptor, and stat.slab_pg++. */
    method InstallFields(c: nat, a: int, p: int, b: Body, ghost home: int, ghost slot: nat)
      requires c < META && c in h.caches && h.ring != [] && p == h.ring[0]
      requires BodiesShow(desc, dataPage, h.slabs) && StatsShow(stat, h.caches) && BodyShows(b, c, FreshSlots(c))
      requires links.Valid() && TiedRings(links.rings, Install(h, c, a, home, slot))
      requires PagesShow(pages, h.nr, h.ring[1..], h.slabPtr[p := a], h.objSize[p := ObjSize(c)],
                         h.role[p := DataPage(a)])
      modifies this
      ensures Tied() && h == Install(old(h), c, a, home, slot)
    {
      hide PagesShow, BodiesShow, StatsShow, TiedRings, Family, BodyShows;
      BodiesAdd(desc, dataPage, h.slabs, a, b, p, Slab(c, p, home, slot, FreshSlots(c)));
      dataPage := dataPage[a := p];
      desc := desc[a := b];
      StatOf(stat, h.caches, c);
      StatsUpdate(stat, h.caches, c, stat[c].(slabPg := stat[c].slabPg + 1),
                  h.caches[c].(slabPg := h.caches[c].slabPg + 1));
      stat := stat[c := stat[c].(slabPg := stat[c].slabPg + 1)];
      h := Install(h, c, a, home, slot);
    }

    /** The slab an allocation will use, taken off its queue or made. */
    method PickSlabOf(c: nat) returns (ok: bool, a: int)
      requires Tied() && Inv(h) && c <= META
      modifies this, links, pages, pages.structs
      ensures ok <==> PickSlab(old(h), c).Done?
      ensures ok ==> Tied() && PickSlab(old(h), c) == Done(h, a)
      decreases Level(c), 4
    {
      hide PagesShow, BodiesShow, StatsShow, TiedRings, Family, Mid, Inv, NewSlab;
      InvParts(h);
      RingOf(links.rings, h, c, Half);
      RingOf(links.rings, h, c, Empty);
      var noHalf := links.IsEmpty(Head(c, Half));
      if noHalf {
        var noEmpty := links.IsEmpty(Head(c, Empty));
        if noEmpty {
          if c == META {
            ok, a := NewMetaSlab();
          } else {
            ok, a := NewDataSlab(c);
          }
        } else {
          a := PopQueue(c, Empty);
          ok := true;
        }
      } else {
        a := PopQueue(c, Half);
        ok := true;
      }
    }

    /** slab->mem(). */
    method SlabMem(c: nat, a: int) returns (mem: int)
      requires Tied() && c <= META && a in h.slabs && h.slabs[a].cache == c && SlabOk(h, a)
      ensures mem == h.slabs[a].page * PAGESIZE
    {
      hide TiedRings, StatsShow, Family, IsRing;
      if c == META {
        mem := a;
      } else {
        BodyOf(desc, dataPage, h.slabs, a);
        mem := pages.structs[dataPage[a]].phyaddr;
      }
    }

    /** MemCache::Allocate. */
    method AllocateFrom(c: nat) returns (ok: bool, addr: int)
      requires Tied() && Inv(h) && c <= META
      modifies this, links, pages, pages.structs
      ensures ok <==> Allocate(old(h), c).Done?
      ensures ok ==> Tied() && Allocate(old(h), c) == Done(h, addr)
      decreases Level(c), 5
    {
      hide PagesShow, BodiesShow, StatsShow, TiedRings, Family, Mid, Inv, PickSlab, AdjustSlab, TakeSlot;
      PickAny(h, c);
      var a;
      ok, a := PickSlabOf(c);
      if !ok {
        return false, 0;
      }
      ghost var h1 := h;
      LooseInCache(h1, c, a, {});
      LooseOk(h1, c, a, {});
      FinishAllocate(h1, c, a, {});
      TakeSlotKeeps(h1, c, a, {});
      var mem := SlabMem(c, a);
      var i := TakeSlotOf(c, a);
      StillInUse(h1, c, a);
      AdjustSlabOf(c, a, if c == META then {} + {(a, i)} else {});
      addr := mem + i * ObjSize(c);
    }

    /** AdjustSlab. */
    method AdjustSlabOf(c: nat, a: int, ghost pending: set<(int, nat)>)
      requires Tied() && Mid(h, c, [a], pending)
      requires c <= META && c in h.caches && a in h.slabs && h.slabs[a].cache == c
      requires |h.slabs[a].free| == Capacity(c) ==> pending == {}
      modifies this, links, pages, pages.structs
      ensures Tied() && AdjustSlab(old(h), c, a).Done? && h == AdjustSlab(old(h), c, a).h
      decreases Level(c), 1
    {
      hide PagesShow, BodiesShow, StatsShow, TiedRings, Family, Mid, BodyShows, FreeObject, DropMeta, DropData;
      LooseSlabNode(links.rings, h, c, a, pending);
      BodyOf(desc, dataPage, h.slabs, a);
      StatOf(stat, h.caches, c);
      var full := IsFull(desc[a], c, h.slabs[a].free);
      if full {
        PushQueue(c, Full, a);
        return;
      }
      var empty := IsEmpty(desc[a], c, h.slabs[a].free);
      if empty {
        var reclaimed := ReclaimEmptySlab(c, a);
        if !reclaimed {
          PushQueue(c, Empty, a);
        }
      } else {
        PushQueue(c, Half, a);
      }
    }

    /** ReclaimEmptySlab, with FreeSlab of either kind. */
    method ReclaimEmptySlab(c: nat, a: int) returns (b: bool)
      requires Tied() && Mid(h, c, [a], {})
      requires c <= META && c in h.caches && a in h.slabs && h.slabs[a].cache == c && |h.slabs[a].free| == Capacity(c)
      modifies this, links, pages, pages.structs
      ensures Tied() && (b <==> old(h).caches[c].slabPg > old(h).caches[c].maxPg)
      ensures !b ==> h == old(h) && links.rings == old(links.rings)
      ensures b && c == META ==> h == DropMeta(old(h), a)
      ensures b && c != META ==>
                FreeObject(DropData(old(h), c, a), META, a).Done? && h == FreeObject(DropData(old(h), c, a), META, a).h
      decreases Level(c), 0
    {
      hide PagesShow, BodiesShow, StatsShow, TiedRings, Family, Mid, BodyShows, FreeObject;
      StatOf(stat, h.caches, c);
      if stat[c].slabPg <= stat[c].maxPg {
        return false;
      }
      StatsUpdate(stat, h.caches, c, stat[c].(slabPg := stat[c].slabPg - 1),
                  h.caches[c].(slabPg := h.caches[c].slabPg - 1));
      stat := stat[c := stat[c].(slabPg := stat[c].slabPg - 1)];
      BodiesRemove(desc, dataPage, h.slabs, a);
      if c == META {
        FreeMetaPage(a);
      } else {
        ghost var s := h.slabs[a];
        ReclaimData(h, c, a);
        PendingAfterDrop(h, c, a);
        RetirePage(c, a);
        FreeFrom(META, a, s.home, s.slot, {(s.home, s.slot)});
      }
      b := true;
    }

    /** MetaSlab::FreeSlab: the page of an empty meta slab is free again. */
    method FreeMetaPage(a: int)
      requires links.Valid() && TiedRings(links.rings, h)
      requires PagesShow(pages, h.nr, h.ring, h.slabPtr, h.objSize, h.role)
      requires Mid(h, META, [a], {}) && IsMeta(h, a) && META in h.caches
      requires BodiesShow(desc, dataPage, h.slabs - {a})
      requires StatsShow(stat, h.caches[META := h.caches[META].(slabPg := h.caches[META].slabPg - 1)])
      modifies this`h, links, pages, pages.structs
      ensures Tied() && h == DropMeta(old(h), a)
    {
      hide BodiesShow, StatsShow, TiedRings, Family, Lists, MemPages.Valid, Nodes;
      MetaPageUsed(h, a);
      var pg := a / PAGESIZE;
      pages.FreePage(pg);
      TieDrop(links.rings, h, META, a, DropMeta(h, a));
      links.Forget(FreeHead(a));
      h := DropMeta(h, a);
    }

    /** BaseSlab::FreeSlab leaves the data page alone: it serves no slab and is not free. */
    ghost method RetirePage(c: nat, a: int)
      requires links.Valid() && TiedRings(links.rings, h)
      requires PagesShow(pages, h.nr, h.ring, h.slabPtr, h.objSize, h.role)
      requires c < META && c in h.caches && a in h.slabs && h.slabs[a].cache == c && h.slabs[a].page in h.role
      requires BodiesShow(desc, dataPage, h.slabs - {a})
      requires StatsShow(stat, h.caches[c := h.caches[c].(slabPg := h.caches[c].slabPg - 1)])
      modifies this`h
      ensures Tied() && h == DropData(old(h), c, a)
    {
      hide BodiesShow, StatsShow, TiedRings, Family, IsRing;
      TieDrop(links.rings, h, c, a, DropData(h, c, a));
      h := DropData(h, c, a);
    }

    /** MemCache::Free. */
    method FreeFrom(c: nat, addr: int, ghost a: int, ghost i: nat, ghost pending: set<(int, nat)>)
      requires Tied() && Mid(h, META, [], pending) && c <= META && a in h.slabs && h.slabs[a].cache == c
      requires IsSlot(c, i) && i !in h.slabs[a].free && addr == h.slabs[a].page * PAGESIZE + i * ObjSize(c)
      requires pending == if c == META then {(a, i)} else {}
      modifies this, links, pages, pages.structs
      ensures Tied() && FreeObject(old(h), c, addr).Done? && h == FreeObject(old(h), c, addr).h
      decreases Level(c), 2
    {
      hide BodiesShow, StatsShow, TiedRings, Family, Mid, IsRing, AdjustSlab, FreeObject, PutSlot, QueuesOk,
           PagesShow, Detach;
      ghost var h0 := h;
      GiveBack(h, c, a, i, pending);
      SlabOfPage(h, c, a, i, pending);
      DetachKeeps(h, META, c, a, pending);
      var slab := SlabPtrOf(addr / PAGESIZE);
      Remove(c, slab);
      if c == META {
        PendingNode(links.rings, h, c, [a], a, i, pending);
      }
      GiveSlotOf(c, slab, addr % PAGESIZE / ObjSize(c));
      ghost var none: set<(int, nat)> := {};
      assert pending - {(a, i)} == none;
      AdjustSlabOf(c, slab, none);
    }

    /** mem_pages.page(addr)->slab_ptr. */
    method SlabPtrOf(p: int) returns (a: int)
      requires Tied() && p in h.slabPtr
      ensures a == h.slabPtr[p]
    {
      hide BodiesShow, StatsShow, TiedRings, Family, IsRing;
      a := pages.structs[p].slabPtr;
    }

    /** Alloc of more than 2048 bytes. */
    method AllocLarge(size: int) returns (ok: bool, addr: int)
      requires Tied() && Inv(h) && 2048 < size < 0x8000_0000
      modifies this, pages, pages.structs
      ensures ok <==> AllocBlock(old(h), size).Done?
      ensures ok ==> Tied() && AllocBlock(old(h), size) == Done(h, addr)
    {
      hide BodiesShow, StatsShow, TiedRings, Family, Inv, IsRing, MemPages.Valid, AllocBlock, MakeBlock, FindPages;
      var n := (size - 1) / PAGESIZE + 1;
      AllocBlockKeeps(h, size);
      RingPositive(h);
      var r := pages.AllocPages(n);
      SameSearch(h, n, r);
      if !r.Run? {
        return false, 0;
      }
      addr := ClaimBlock(r.start, n);
      ok := true;
    }

    /** pg->slab_obj_size = nr_page * PAGESIZE, and the block's address. */
    method ClaimBlock(s: nat, n: nat) returns (addr: int)
      requires links.Valid() && TiedRings(links.rings, h) && BodiesShow(desc, dataPage, h.slabs)
      requires StatsShow(stat, h.caches)
      requires 1 <= n <= 0x8_0000 && RunAt(h.ring, s, n) && Inv(h)
      requires PagesShow(pages, h.nr, Outside(h.ring, s, s + n), h.slabPtr, h.objSize, h.role)
      modifies this`h, pages.structs
      ensures Tied() && h == MakeBlock(old(h), s, n) && addr == s * PAGESIZE
    {
      hide BodiesShow, StatsShow, TiedRings, Family, Inv, PagesShow;
      RunManaged(h, s, n);
      addr := LabelBlock(s, n);
      TieSameSlabs(links.rings, h, MakeBlock(h, s, n));
      h := MakeBlock(h, s, n);
    }

    method LabelBlock(s: nat, n: nat) returns (addr: int)
      requires 1 <= n <= 0x8_0000 && s in h.role && forall p :: s <= p < s + n ==> p in h.role
      requires PagesShow(pages, h.nr, Outside(h.ring, s, s + n), h.slabPtr, h.objSize, h.role)
      modifies pages.structs
      ensures PagesShow(pages, h.nr, Outside(h.ring, s, s + n), h.slabPtr, h.objSize[s := Int32(n * PAGESIZE)],
                        SetRoles(h.role, s, n, BlockPage(s)))
      ensures addr == s * PAGESIZE
    {
      hide MemPages.Valid, Outside, Int32;
      addr := pages.structs[s].phyaddr;
      pages.SetSlab(s, pages.structs[s].slabPtr, Int32(n * PAGESIZE));
      assert forall p :: p in SetRoles(h.role, s, n, BlockPage(s)) ==> p in h.role;
    }

    /** kernel::Alloc.  False is a fault, a failed assertion or an undefined size class. */
    method AllocBytes(size: int) returns (ok: bool, addr: int)
      requires Tied() && Inv(h) && size < 0x8000_0000
      modifies this, links, pages, pages.structs
      ensures ok <==> Alloc(old(h), size).Done?
      ensures ok ==> Tied() && Inv(h) && Alloc(old(h), size) == Done(h, addr)
    {
      hide PagesShow, BodiesShow, StatsShow, TiedRings, Family, Inv, Allocate, AllocBlock;
      AllocKeeps(h, size);
      if size > 2048 {
        ok, addr := AllocLarge(size);
        return;
      }
      FitCacheLeast(size);
      match FitCache(size)
      case Class(c) =>
        ok, addr := AllocateFrom(c);
      case _ =>
        ok, addr := false, 0;
    }

    /** Free of a multi-page block. */
    method FreeLarge(p: int, n: nat)
      requires Tied() && Inv(h) && p in h.blocks && h.blocks[p] == n
      modifies this`h, pages, pages.structs
      ensures Tied() && h == BreakBlock(old(h), p, n)
    {
      hide BodiesShow, StatsShow, TiedRings, Family, Inv, PagesShow;
      BlockManaged(h, p);
      GivePages(p, n);
      TieSameSlabs(links.rings, h, BreakBlock(h, p, n));
      h := BreakBlock(h, p, n);
    }

    method GivePages(p: int, n: nat)
      requires 0 < p && 1 <= n && p + n <= h.nr && forall q :: p <= q < p + n ==> q in h.role && q !in h.ring
      requires PagesShow(pages, h.nr, h.ring, h.slabPtr, h.objSize, h.role)
      modifies pages, pages.structs
      ensures PagesShow(pages, h.nr, Descending(p, n) + h.ring, h.slabPtr, h.objSize, SetRoles(h.role, p, n, Role.Free))
    {
      hide MemPages.Valid;
      assert p in h.role;
      pages.FreePages(p, n);
    }

    /** kernel::Free of memory the caller holds.  False is the failed assertion of a block whose size in
        bytes does not fit an int. */
    method FreeBytes(ptr: Pointer) returns (ok: bool)
      requires Tied() && Inv(h) && (ptr.At? ==> HeapRuns.Live(h, ptr.addr))
      modifies this, links, pages, pages.structs
      ensures ptr == Null ==> ok && Tied() && h == old(h)
      ensures ok ==> Inv(h)
      ensures ptr.At? ==> (ok <==> Release(old(h), ptr.addr).Done?)
      ensures ptr.At? && ok ==> Tied() && h == Release(old(h), ptr.addr).h
    {
      hide PagesShow, BodiesShow, StatsShow, TiedRings, Family, Mid, FreeObject, HeapRuns.ObjectIs, HeapRuns.BlockIs,
           HeapRuns.Live;
      if ptr == Null {
        return true;
      }
      ReleaseKeeps(h, ptr.addr);
      var p := ptr.addr / PAGESIZE;
      LiveRoute(h, ptr.addr);
      var objSize := ObjSizeOf(p);
      if objSize > 2048 {
        FreeLarge(p, objSize / PAGESIZE);
        return true;
      }
      match FitCache(objSize)
      case Class(c) =>
        ghost var a, i: nat :| Routes(h, ptr.addr, a, i);
        ObjectRoute(h, ptr.addr, a, i);
        FreeFrom(c, ptr.addr, a, i, {});
        ok := true;
      case _ =>
        ok := false;
    }

    /** AllocPage by a caller outside the allocator. */
    method TakeDirect() returns (ok: bool, p: int)
      requires Tied() && Inv(h)
      modifies this`h, pages, pages.structs
      ensures ok <==> TakePage(old(h), Direct).Done?
      ensures ok ==> Tied() && Inv(h) && TakePage(old(h), Direct) == Done(h, p)
    {
      hide PagesShow, BodiesShow, StatsShow, TiedRings, Family, Inv;
      TakeDirectKeeps(h);
      InvParts(h);
      RingManaged(h);
      p := TakeFreePage();
      ok := p != NULL;
      if ok {
        ghost var h' := TakePage(h, Direct).h;
        DirectShows(pages, h, h', p);
        TieSameSlabs(links.rings, h, h');
        h := h';
      }
    }

    /** FreePage of such a page. */
    method GiveDirect(p: int)
      requires Tied() && Inv(h) && p in h.role && h.role[p] == Direct
      modifies this`h, pages, pages.structs
      ensures Tied() && Inv(h) && h == GivePage(old(h), p)
    {
      hide BodiesShow, StatsShow, TiedRings, Family, Inv, MemPages.Valid;
      GiveDirectKeeps(h, p);
      DirectManaged(h, p);
      pages.FreePage(p);
      TieSameSlabs(links.rings, h, GivePage(h, p));
      h := GivePage(h, p);
    }

    method ObjSizeOf(p: int) returns (s: int)
      requires Tied() && p in h.objSize
      ensures s == h.objSize[p]
    {
      hide BodiesShow, StatsShow, TiedRings, Family, IsRing;
      s := pages.structs[p].slabObjSize;
    }
  }

  /** The search of AllocPages finds what the heap's search finds. */
  lemma SameSearch(h: Heap, n: nat, r: PagesResult)
    requires 1 <= n
    requires r.Run? ==> r.start + n <= h.nr && RunAt(h.ring, r.start, n)
    requires 1 < n && r.Run? ==> forall s :: 0 <= s < r.start ==> !RunAt(h.ring, s, n)
    requires 1 < n <= h.nr ==> (r == NoPages <==> forall s :: 0 <= s && s + n <= h.nr ==> !RunAt(h.ring, s, n))
    requires n == 1 ==> (r == NoPages <==> |h.ring| <= 1) && (r.Run? ==> r.start == h.ring[0])
    requires r == Overrun ==> n > 1 && n > h.nr
    requires forall p :: p in h.ring ==> p > 0
    ensures FindPages(h, n) == if r.Run? then r.start else -1
  {
    if n > 1 {
      var s := FirstRun(h.ring, h.nr, n, 0);
    }
  }

  lemma RunManaged(h: Heap, s: int, n: nat)
    requires Inv(h) && 1 <= n && RunAt(h.ring, s, n)
    ensures forall p :: s <= p < s + n ==> p in h.role
    ensures s in h.role && 0 < s < h.nr
  {
    hide Lists, SlabsOk, OwnersOk, BlocksOk, RetiredOk, DescriptorsOk;
    assert s in h.ring;
  }

  lemma BlockManaged(h: Heap, s: int)
    requires Inv(h) && s in h.blocks
    ensures 0 < s && 1 <= h.blocks[s] && s + h.blocks[s] <= h.nr
    ensures forall p :: s <= p < s + h.blocks[s] ==> p in h.role && p !in h.ring
  {
    hide Lists, SlabsOk, OwnersOk, RetiredOk, DescriptorsOk;
    assert BlockOk(h, s);
    assert s in h.role && s + h.blocks[s] - 1 in h.role;
  }

  lemma DirectManaged(h: Heap, p: int)
    requires Inv(h) && p in h.role && h.role[p] == Direct
    ensures 0 < p < h.nr && p !in h.ring
  {
  }

  lemma DirectShows(pages: MemPages, h: Heap, h': Heap, p: int)
    requires PagesShow(pages, h.nr, h'.ring, h.slabPtr, h.objSize, h.role)
    requires p in h.role && h' == h.(ring := h'.ring, role := h.role[p := Direct])
    ensures PagesShow(pages, h'.nr, h'.ring, h'.slabPtr, h'.objSize, h'.role)
  {
    hide MemPages.Valid;
  }

  lemma AllocKeeps(h: Heap, size: int)
    requires Inv(h) && size < 0x8000_0000
    ensures Alloc(h, size).Done? ==> Inv(Alloc(h, size).h)
  {
    hide Inv, AllocBlock, Allocate;
    if size > 2048 {
      AllocBlockKeeps(h, size);
    } else {
      FitCacheLeast(size);
      if 2 <= size {
        AllocateData(h, FitCache(size).c);
      }
    }
  }

  lemma ReleaseKeeps(h: Heap, x: int)
    requires Inv(h) && HeapRuns.Live(h, x)
    ensures Release(h, x).Done? ==> Inv(Release(h, x).h)
  {
    hide Inv, FreeObject;
    if a, i: nat :| HeapRuns.ObjectIs(h, x, a, i) {
      ObjectRoute(h, x, a, i);
      FreeData(h, h.slabs[a].cache, a, i);
    } else {
      var s :| HeapRuns.BlockIs(h, x, s);
      ReleaseBlock(h, s);
    }
  }

  lemma TieSameSlabs(rings: map<int, seq<int>>, h: Heap, h': Heap)
    requires TiedRings(rings, h) && h'.slabs == h.slabs && h'.caches == h.caches
    ensures TiedRings(rings, h')
  {
    forall d: nat, f | d <= META ensures SameQueue(h, h', d, f) {
      assert QueueTied(rings, h, d, f);
    }
    assert forall m :: SameMeta(h, h', m);
    TieSame(rings, h, h');
  }

  /** What the page struct and the offset say of address x: slot i of slab a, and the cache of that slab. */
  ghost predicate Routes(h: Heap, x: int, a: int, i: nat) {
    var p := x / PAGESIZE;
    && HeapRuns.ObjectIs(h, x, a, i)
    && p in h.slabPtr && h.slabPtr[p] == a
    && p in h.objSize && FitCache(h.objSize[p]) == Class(h.slabs[a].cache)
    && x % PAGESIZE / ObjSize(h.slabs[a].cache) == i
  }

  /** The page struct's size field tells a block from an object; it gives the block's number of pages, or with
      the slab pointer and the offset the object's own cache, slab and slot. */
  lemma LiveRoute(h: Heap, x: int)
    requires Inv(h) && HeapRuns.Live(h, x)
    ensures x / PAGESIZE in h.objSize
    ensures h.objSize[x / PAGESIZE] > 2048 ==>
              x / PAGESIZE in h.blocks && h.blocks[x / PAGESIZE] == h.objSize[x / PAGESIZE] / PAGESIZE
    ensures FitCache(h.objSize[x / PAGESIZE]).Class? <==> exists a, i: nat :: Routes(h, x, a, i)
  {
    hide Lists, PagesOk, OwnersOk, RetiredOk, DescriptorsOk, HeapRuns.ObjectIs, ObjSize;
    if a, i: nat :| HeapRuns.ObjectIs(h, x, a, i) {
      ObjectRoute(h, x, a, i);
      assert Routes(h, x, a, i);
    } else {
      var s :| HeapRuns.BlockIs(h, x, s);
      assert BlockOk(h, s);
      FitCacheLeast(h.objSize[s]);
    }
  }

  lemma ObjectRoute(h: Heap, x: int, a: int, i: nat)
    requires Inv(h) && HeapRuns.ObjectIs(h, x, a, i)
    ensures a in h.slabs && h.slabs[a].cache < META && IsSlot(h.slabs[a].cache, i) && i !in h.slabs[a].free
    ensures x == h.slabs[a].page * PAGESIZE + i * ObjSize(h.slabs[a].cache)
    ensures x / PAGESIZE in h.objSize && h.objSize[x / PAGESIZE] == ObjSize(h.slabs[a].cache) <= 2048
    ensures Routes(h, x, a, i)
  {
    hide Lists, PagesOk, OwnersOk, BlocksOk, RetiredOk, DescriptorsOk;
    assert SlabOk(h, a);
    ObjectParts(h.slabs[a].cache, h.slabs[a].page, i);
    FitCacheOfClass(h.slabs[a].cache);
  }

  lemma PickAny(h: Heap, c: nat)
    requires Inv(h) && c <= META
    ensures var r := PickSlab(h, c);
            r.Done? ==> Mid(r.h, c, [r.addr], {}) && r.addr in r.h.slabs && r.h.slabs[r.addr].free != []
  {
    hide Inv, Mid;
    if c == META {
      PickMeta(h);
    } else {
      PickData(h, c);
    }
  }

  lemma LooseOk(h: Heap, c: nat, a: int, pending: set<(int, nat)>)
    requires Mid(h, c, [a], pending) && a in h.slabs
    ensures SlabOk(h, a)
  {
  }

  /** A slab that has just given out a slot is not empty. */
  lemma StillInUse(h: Heap, c: nat, a: int)
    requires c in h.caches && c <= META && a in h.slabs && h.slabs[a].cache == c && SlabOk(h, a)
    requires h.slabs[a].free != []
    ensures TakeSlot(h, c, a).slabs[a].cache == c && |TakeSlot(h, c, a).slabs[a].free| < Capacity(c)
    ensures c in TakeSlot(h, c, a).caches
  {
  }

  lemma PendingParts(h: Heap, d: int, p: int, i: nat)
    requires OnePending(h, d, p, i)
    ensures forall q :: q in h.ring ==> q in h.role
    ensures d > 0 && META in h.caches
  {
  }

  lemma PendingAfterDrop(h: Heap, c: nat, a: int)
    requires Mid(h, c, [a], {}) && c < META && a in h.slabs && |h.slabs[a].free| == Capacity(c) && c in h.caches
    ensures var s := h.slabs[a]; var h' := DropData(h, c, a);
            && Mid(h', META, [], {(s.home, s.slot)})
            && s.page in h.role && IsMeta(h', s.home) && IsSlot(META, s.slot) && s.slot !in h'.slabs[s.home].free
            && a == h'.slabs[s.home].page * PAGESIZE + s.slot * ObjSize(META)
  {
    hide OwnersOk, BlocksOk, RetiredOk;
    var s := h.slabs[a];
    LooseFacts(h, c, a);
    DropDataKeeps(h, c, a, {});
    var none: set<(int, nat)> := {};
    assert none + {(s.home, s.slot)} == {(s.home, s.slot)};
    assert SlabOk(h, a) && HandedOut(h, s.home, s.slot);
    HomeFacts(h, s.home, s.slot);
  }

  lemma MetaPageUsed(h: Heap, a: int)
    requires Mid(h, META, [a], {}) && IsMeta(h, a)
    ensures h.slabs[a].page == a / PAGESIZE && a > 0 && a / PAGESIZE in h.role && a / PAGESIZE !in h.ring
  {
    hide Lists, OwnersOk, BlocksOk, RetiredOk, DescriptorsOk;
    assert SlabOk(h, a);
  }

  /** A slab goes: what the rings must then be. */
  lemma TieDrop(rings: map<int, seq<int>>, h: Heap, c: nat, a: int, h': Heap)
    requires TiedRings(rings, h) && c <= META && c in h.caches && a in h.slabs && h.slabs[a].cache == c
    requires h'.slabs == h.slabs - {a} && h'.caches == h.caches[c := h.caches[c].(slabPg := h.caches[c].slabPg - 1)]
    ensures if c == META then TiedRings(rings - {FreeHead(a)}, h') else TiedRings(rings, h')
  {
    forall d: nat, f | d <= META ensures SameQueue(h, h', d, f) {
      assert QueueTied(rings, h, d, f);
    }
    forall n | n != a ensures SameMeta(h, h', n) {
    }
    if c == META {
      assert IsMeta(h, a) && FreeTied(rings, h, a);
      TieMeta(rings, h, h', a, rings - {FreeHead(a)});
    } else {
      assert SameMeta(h, h', a);
      TieSame(rings, h, h');
    }
  }

  /** The page struct of an object's page leads to its slab, and the offset to its slot. */
  lemma SlabOfPage(h: Heap, c: nat, a: int, i: nat, pending: set<(int, nat)>)
    requires Mid(h, META, [], pending) && c <= META && a in h.slabs && h.slabs[a].cache == c
    requires IsSlot(c, i) && i !in h.slabs[a].free
    ensures var addr := h.slabs[a].page * PAGESIZE + i * ObjSize(c);
            && addr / PAGESIZE in h.slabPtr && h.slabPtr[addr / PAGESIZE] == a && addr % PAGESIZE / ObjSize(c) == i
    ensures |h.slabs[a].free| < Capacity(c) && QueuesOk(h, [])
    ensures c in h.caches && Detach(h, c, a).slabs == h.slabs && c in Detach(h, c, a).caches
    ensures |PutBack(c, h.slabs[a].free, i)| == |h.slabs[a].free| + 1
  {
    hide OwnersOk, BlocksOk, RetiredOk, DescriptorsOk, PagesOk;
    assert SlabOk(h, a);
    ObjectParts(c, h.slabs[a].page, i);
    AllSlotsFree(c, h.slabs[a].free);
    PutBackSlots(c, h.slabs[a].free, i);
  }

  lemma RingManaged(h: Heap)
    requires PagesOk(h)
    ensures forall q :: q in h.ring ==> q in h.role && q > 0
  {
  }

  /** The addresses of a free page that a meta slab will use are on no ring. */
  lemma FreshPage(rings: map<int, seq<int>>, h: Heap, p: int)
    requires TiedRings(rings, h) && Inv(h) && p in h.ring
    ensures p > 0 && p * PAGESIZE !in h.slabs && Loose(rings, FreeHead(p * PAGESIZE))
    ensures forall i: nat :: 0 < i < 64 ==> Loose(rings, DescriptorAt(p * PAGESIZE, i))
  {
    hide TiedRings, Lists, OwnersOk, BlocksOk, RetiredOk, Loose;
    InvParts(h);
    AddressFree(h, {}, p * PAGESIZE);
    FreePageLoose(rings, h, META, p, FreeHead(p * PAGESIZE), {});
    forall i: nat | 0 < i < 64 ensures Loose(rings, DescriptorAt(p * PAGESIZE, i)) {
      DescriptorParts(p, i);
      FreePageLoose(rings, h, META, p, DescriptorAt(p * PAGESIZE, i), {});
    }
  }
}
