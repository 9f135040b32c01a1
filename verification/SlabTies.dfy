/** How the rings in memory picture a heap: the slab queues hang off fixed heads, and the free descriptors
    of a meta slab off a head inside its page. */
module SlabTies {
  import opened Arithmetic
  import opened ListNodes
  import opened PageAllocator
  import opened Heap
  import opened HeapInvariant

  /** The static ListNode heads of cache c; static memory lies below every managed page. */
  function Head(c: nat, f: Fill): int {
    -1 - 3 * c - match f case Full => 0 case Half => 1 case Empty => 2
  }

  /** &slab->free_slab of the meta slab at m. */
  function FreeHead(m: int): int {
    m + 16
  }

  /** The nodes of the free descriptors of meta slab m, in ring order. */
  ghost function Nodes(m: int, free: seq<nat>): (r: seq<int>)
    ensures |r| == |free| && forall k :: 0 <= k < |free| ==> r[k] == DescriptorAt(m, free[k])
  {
    seq(|free|, k requires 0 <= k < |free| => DescriptorAt(m, free[k]))
  }

  ghost predicate IsMeta(h: Heap, m: int) {
    m in h.slabs && h.slabs[m].cache == META
  }

  /** A head belongs to a cache or to a meta slab of h. */
  ghost predicate IsHead(h: Heap, g: int) {
    (exists c: nat, f :: c <= META && g == Head(c, f)) || (exists m :: IsMeta(h, m) && g == FreeHead(m))
  }

  ghost predicate QueueTied(rings: map<int, seq<int>>, h: Heap, c: nat, f: Fill) {
    c in h.caches && Head(c, f) in rings && rings[Head(c, f)] == Queue(h.caches[c], f)
  }

  ghost predicate FreeTied(rings: map<int, seq<int>>, h: Heap, m: int) {
    m > 0 && m in h.slabs && FreeHead(m) in rings && rings[FreeHead(m)] == Nodes(m, h.slabs[m].free)
  }

  ghost predicate TiedRings(rings: map<int, seq<int>>, h: Heap) {
    && (forall c: nat, f :: c <= META ==> QueueTied(rings, h, c, f))
    && (forall m :: IsMeta(h, m) ==> FreeTied(rings, h, m))
    && (forall g :: g in rings ==> IsHead(h, g))
  }

  lemma HeadsDiffer(c: nat, f: Fill, d: nat, g: Fill)
    ensures Head(c, f) == Head(d, g) <==> c == d && f == g
    ensures Head(c, f) < 0
  {
  }

  ghost predicate SameQueue(h: Heap, h': Heap, c: nat, f: Fill) {
    c in h.caches && c in h'.caches && Queue(h'.caches[c], f) == Queue(h.caches[c], f)
  }

  ghost predicate SameQueues(h: Heap, h': Heap) {
    forall c: nat, f :: c <= META ==> SameQueue(h, h', c, f)
  }

  ghost predicate SameMeta(h: Heap, h': Heap, m: int) {
    (IsMeta(h, m) <==> IsMeta(h', m)) && (IsMeta(h, m) ==> h'.slabs[m].free == h.slabs[m].free)
  }

  /** A queue is replaced in memory and in the heap. */
  lemma TieQueue(rings: map<int, seq<int>>, h: Heap, c: nat, f: Fill, q: seq<int>)
    requires TiedRings(rings, h) && c <= META && c in h.caches
    ensures TiedRings(rings[Head(c, f) := q], SetCache(h, c, WithQueue(h.caches[c], f, q)))
  {
    var rings' := rings[Head(c, f) := q];
    var h' := SetCache(h, c, WithQueue(h.caches[c], f, q));
    forall d: nat, g | d <= META ensures QueueTied(rings', h', d, g) {
      assert QueueTied(rings, h, d, g);
      HeadsDiffer(c, f, d, g);
    }
    forall m | IsMeta(h', m) ensures FreeTied(rings', h', m) {
      assert IsMeta(h, m) && FreeTied(rings, h, m);
      HeadsDiffer(c, f, c, f);
    }
    forall g | g in rings' ensures IsHead(h', g) {
      if g in rings {
        HeadKept(h, h', g);
      }
    }
  }

  lemma HeadKept(h: Heap, h': Heap, g: int)
    requires IsHead(h, g) && forall m :: IsMeta(h, m) ==> IsMeta(h', m)
    ensures IsHead(h', g)
  {
  }

  /** Meta slab m may change; the other rings stay as they are. */
  lemma TieMeta(rings: map<int, seq<int>>, h: Heap, h': Heap, m: int, rings': map<int, seq<int>>)
    requires TiedRings(rings, h) && m > 0 && SameQueues(h, h')
    requires forall n :: n != m ==> SameMeta(h, h', n)
    requires rings' == if IsMeta(h', m) then rings[FreeHead(m) := Nodes(m, h'.slabs[m].free)] else rings - {FreeHead(m)}
    ensures TiedRings(rings', h')
  {
    forall d: nat, g | d <= META ensures QueueTied(rings', h', d, g) {
      assert QueueTied(rings, h, d, g) && SameQueue(h, h', d, g);
      HeadsDiffer(d, g, d, g);
    }
    forall n | IsMeta(h', n) ensures FreeTied(rings', h', n) {
      if n != m {
        assert SameMeta(h, h', n) && FreeTied(rings, h, n);
      }
    }
    forall g | g in rings' ensures IsHead(h', g) {
      if g in rings && g != FreeHead(m) {
        assert IsHead(h, g);
        if n :| IsMeta(h, n) && g == FreeHead(n) {
          assert SameMeta(h, h', n);
        }
      }
    }
  }

  /** Neither free slots of data slabs nor counters show in the rings. */
  lemma TieSame(rings: map<int, seq<int>>, h: Heap, h': Heap)
    requires TiedRings(rings, h) && SameQueues(h, h') && forall m :: SameMeta(h, h', m)
    ensures TiedRings(rings, h')
  {
    forall d: nat, g | d <= META ensures QueueTied(rings, h', d, g) {
      assert QueueTied(rings, h, d, g) && SameQueue(h, h', d, g);
    }
    forall n | IsMeta(h', n) ensures FreeTied(rings, h', n) {
      assert SameMeta(h, h', n) && FreeTied(rings, h, n);
    }
    forall g | g in rings ensures IsHead(h', g) {
      assert forall m :: IsMeta(h, m) ==> SameMeta(h, h', m);
      HeadKept(h, h', g);
    }
  }

  // ----- which nodes are on no ring

  /** A node that is on no queue and no free descriptor of a meta slab, at a slab address, is loose. */
  lemma NodeLoose(rings: map<int, seq<int>>, h: Heap, a: int)
    requires TiedRings(rings, h)
    requires a >= 0 && a % DESCRIPTOR_SIZE == 0
    requires forall m :: IsMeta(h, m) ==> m % PAGESIZE == 0
    requires forall c: nat, f :: c <= META && c in h.caches ==> a !in Queue(h.caches[c], f)
    requires forall m :: IsMeta(h, m) ==> a !in Nodes(m, h.slabs[m].free)
    ensures Loose(rings, a)
  {
    forall g | g in rings ensures a !in Cycle(rings, g) {
      assert IsHead(h, g);
      if c: nat, f :| c <= META && g == Head(c, f) {
        HeadsDiffer(c, f, c, f);
        assert QueueTied(rings, h, c, f);
      } else {
        var m :| IsMeta(h, m) && g == FreeHead(m);
        assert FreeTied(rings, h, m);
      }
    }
  }

  /** Addresses of slabs: multiples of the descriptor size; a meta slab starts a page. */
  lemma SlabAddress(h: Heap, a: int, pending: set<(int, nat)>)
    requires Base(h, pending) && a in h.slabs
    ensures a > 0 && a % DESCRIPTOR_SIZE == 0 && h.slabs[a].page > 0
    ensures h.slabs[a].cache == META ==> a % PAGESIZE == 0
    ensures h.slabs[a].cache != META ==>
              && IsMeta(h, h.slabs[a].home) && a == DescriptorAt(h.slabs[a].home, h.slabs[a].slot)
              && 0 < h.slabs[a].slot < 64 && h.slabs[a].slot !in h.slabs[h.slabs[a].home].free
  {
    hide OwnersOk, BlocksOk, RetiredOk;
    assert SlabOk(h, a);
    if h.slabs[a].cache != META {
      assert HandedOut(h, h.slabs[a].home, h.slabs[a].slot);
      HomeFacts(h, h.slabs[a].home, h.slabs[a].slot);
    }
  }

  lemma NodePlace(m: int, i: nat, n: int, j: nat)
    requires m % PAGESIZE == 0 && n % PAGESIZE == 0 && i < 64 && j < 64
    ensures DescriptorAt(m, i) == DescriptorAt(n, j) <==> m == n && i == j
    ensures DescriptorAt(m, i) % DESCRIPTOR_SIZE == 0
  {
    var a, b := m / PAGESIZE, n / PAGESIZE;
    DivMod(m + DESCRIPTOR_SIZE * i, PAGESIZE, a, DESCRIPTOR_SIZE * i);
    DivMod(n + DESCRIPTOR_SIZE * j, PAGESIZE, b, DESCRIPTOR_SIZE * j);
    DivMod(m + DESCRIPTOR_SIZE * i, DESCRIPTOR_SIZE, 64 * a + i, 0);
  }

  /** The node of a slab is on no free ring. */
  lemma SlabNotFree(h: Heap, a: int, m: int, pending: set<(int, nat)>)
    requires Base(h, pending) && a in h.slabs && IsMeta(h, m)
    ensures a !in Nodes(m, h.slabs[m].free)
  {
    hide Base;
    SlabAddress(h, a, pending);
    SlabAddress(h, m, pending);
    if a in Nodes(m, h.slabs[m].free) {
      var k :| 0 <= k < |Nodes(m, h.slabs[m].free)| && Nodes(m, h.slabs[m].free)[k] == a;
      var i := h.slabs[m].free[k];
      FreeSlotRange(h, m, i, pending);
      if h.slabs[a].cache != META {
        SlabAddress(h, h.slabs[a].home, pending);
        NodePlace(m, i, h.slabs[a].home, h.slabs[a].slot);
      }
      assert false;
    }
  }

  lemma FreeSlotRange(h: Heap, m: int, i: nat, pending: set<(int, nat)>)
    requires Base(h, pending) && IsMeta(h, m) && i in h.slabs[m].free
    ensures 0 < i < 64
  {
    assert SlabOk(h, m);
  }

  /** The node of a slab taken off its queue is on no ring. */
  lemma LooseSlabNode(rings: map<int, seq<int>>, h: Heap, c: nat, a: int, pending: set<(int, nat)>)
    requires TiedRings(rings, h) && Mid(h, c, [a], pending)
    ensures Loose(rings, a)
  {
    hide Base, TiedRings, CountsOk;
    assert a in [a];
    SlabAddress(h, a, pending);
    forall d: nat, f | d <= META && d in h.caches ensures a !in Queue(h.caches[d], f) {
      assert QueueHolds(h, d, f, [a]);
    }
    forall m | IsMeta(h, m) ensures a !in Nodes(m, h.slabs[m].free) && m % PAGESIZE == 0 {
      SlabNotFree(h, a, m, pending);
      SlabAddress(h, m, pending);
    }
    NodeLoose(rings, h, a);
  }

  /** The node of a pending descriptor is on no ring. */
  lemma PendingNode(rings: map<int, seq<int>>, h: Heap, lc: nat, loose: seq<int>, m: int, i: nat,
                    pending: set<(int, nat)>)
    requires TiedRings(rings, h) && Mid(h, lc, loose, pending) && (m, i) in pending
    ensures Loose(rings, DescriptorAt(m, i))
  {
    hide TiedRings, CountsOk, OwnersOk, BlocksOk, RetiredOk;
    var d := DescriptorAt(m, i);
    assert HandedOut(h, m, i);
    HomeFacts(h, m, i);
    AddressFree(h, pending, d);
    forall c: nat, f | c <= META && c in h.caches ensures d !in Queue(h.caches[c], f) {
      assert QueueHolds(h, c, f, loose);
    }
    forall n | IsMeta(h, n) ensures d !in Nodes(n, h.slabs[n].free) && n % PAGESIZE == 0 {
      PendingNotFree(h, m, i, n, pending);
    }
    NodePlace(m, i, m, i);
    NodeLoose(rings, h, d);
  }

  lemma PendingNotFree(h: Heap, m: int, i: nat, n: int, pending: set<(int, nat)>)
    requires Base(h, pending) && HandedOut(h, m, i) && IsMeta(h, n)
    ensures DescriptorAt(m, i) !in Nodes(n, h.slabs[n].free) && n % PAGESIZE == 0
  {
    hide Base;
    SlabAddress(h, m, pending);
    SlabAddress(h, n, pending);
    var d := DescriptorAt(m, i);
    if d in Nodes(n, h.slabs[n].free) {
      var k :| 0 <= k < |Nodes(n, h.slabs[n].free)| && Nodes(n, h.slabs[n].free)[k] == d;
      var j := h.slabs[n].free[k];
      FreeSlotRange(h, n, j, pending);
      NodePlace(m, i, n, j);
      assert false;
    }
  }

  /** Nothing on a free page is on a ring. */
  lemma FreePageLoose(rings: map<int, seq<int>>, h: Heap, lc: nat, p: int, x: int, pending: set<(int, nat)>)
    requires TiedRings(rings, h) && Mid(h, lc, [], pending) && p in h.ring && x / PAGESIZE == p
    ensures Loose(rings, x)
  {
    hide TiedRings, CountsOk, OwnersOk, BlocksOk, RetiredOk, DescriptorsOk;
    forall g | g in rings ensures x !in Cycle(rings, g) {
      RingOffPage(rings, h, lc, p, g, x, pending);
    }
  }

  lemma RingOffPage(rings: map<int, seq<int>>, h: Heap, lc: nat, p: int, g: int, x: int, pending: set<(int, nat)>)
    requires TiedRings(rings, h) && Mid(h, lc, [], pending) && p in h.ring && x / PAGESIZE == p && g in rings
    ensures x !in Cycle(rings, g)
  {
    hide CountsOk, OwnersOk, BlocksOk, RetiredOk;
    assert IsHead(h, g);
    if c: nat, f :| c <= META && g == Head(c, f) {
      HeadsDiffer(c, f, c, f);
      assert QueueTied(rings, h, c, f) && QueueHolds(h, c, f, []);
      if x in h.slabs {
        SlabOffPage(h, p, x, pending);
      }
    } else {
      var m :| IsMeta(h, m) && g == FreeHead(m);
      assert FreeTied(rings, h, m);
      MetaOffPage(h, p, m, x, pending);
    }
  }

  lemma SlabOffPage(h: Heap, p: int, a: int, pending: set<(int, nat)>)
    requires Base(h, pending) && p in h.ring && a in h.slabs
    ensures a / PAGESIZE != p
  {
    hide OwnersOk, BlocksOk, RetiredOk;
    SlabAddress(h, a, pending);
    var m := if h.slabs[a].cache == META then a else h.slabs[a].home;
    assert SlabOk(h, m);
    assert h.slabs[m].page != p;
    DescriptorParts(h.slabs[m].page, if h.slabs[a].cache == META then 0 else h.slabs[a].slot);
  }

  lemma MetaOffPage(h: Heap, p: int, m: int, x: int, pending: set<(int, nat)>)
    requires Base(h, pending) && p in h.ring && IsMeta(h, m) && x / PAGESIZE == p
    ensures x != FreeHead(m) && x !in Nodes(m, h.slabs[m].free)
  {
    hide OwnersOk, BlocksOk, RetiredOk, DescriptorsOk;
    assert SlabOk(h, m);
    assert h.slabs[m].page != p;
    if x in Nodes(m, h.slabs[m].free) {
      var k :| 0 <= k < |Nodes(m, h.slabs[m].free)| && Nodes(m, h.slabs[m].free)[k] == x;
      assert h.slabs[m].free[k] in h.slabs[m].free;
      DescriptorParts(h.slabs[m].page, h.slabs[m].free[k]);
    }
  }
}
