/** Which memory is used again, and when: slabs are taken in order of their last use, slots and pages the last
    one given back first (or the lowest, in the classes kept as bitmaps).

    The simple object is a list of slabs, the one used last in front. */
module HeapOrder {
  import opened Rings
  import opened PageAllocator
  import opened Heap
  import opened HeapInvariant
  import opened HeapSteps

  // ----- the list

  /** Slab a was used just now. */
  function Touch(used: seq<int>, a: int): seq<int> {
    [a] + Without(used, a)
  }

  /** a is a slab of cache c with occupancy f. */
  ghost predicate Matches(slabs: map<int, Slab>, c: nat, f: Fill, a: int)
    requires c <= META
  {
    a in slabs && slabs[a].cache == c && FillOf(c, slabs[a].free) == f
  }

  /** The slabs of cache c with occupancy f, in the order of the list. */
  ghost function Pick(used: seq<int>, slabs: map<int, Slab>, c: nat, f: Fill): seq<int>
    requires c <= META
  {
    if used == [] then []
    else (if Matches(slabs, c, f, used[0]) then [used[0]] else []) + Pick(used[1..], slabs, c, f)
  }

  /** Every queue lists its slabs in the order in which they were last used. */
  ghost predicate Recent(h: Heap, used: seq<int>) {
    Distinct(used) && forall c, f :: 0 <= c <= META ==> QueueRecent(h, used, c, f)
  }

  ghost predicate QueueRecent(h: Heap, used: seq<int>, c: nat, f: Fill)
    requires c <= META
  {
    c in h.caches && Queue(h.caches[c], f) == Pick(used, h.slabs, c, f)
  }

  /** a is the last used slab of cache c with occupancy f. */
  ghost predicate MostRecent(used: seq<int>, slabs: map<int, Slab>, c: nat, f: Fill, a: int)
    requires c <= META
  {
    exists k :: 0 <= k < |used| && used[k] == a && Matches(slabs, c, f, a) && NoneBefore(used, slabs, c, f, k)
  }

  ghost predicate NoneBefore(used: seq<int>, slabs: map<int, Slab>, c: nat, f: Fill, k: int)
    requires c <= META && k <= |used|
  {
    forall j :: 0 <= j < k ==> !Matches(slabs, c, f, used[j])
  }

  lemma {:induction false} FirstPicked(used: seq<int>, slabs: map<int, Slab>, c: nat, f: Fill)
    requires c <= META
    ensures Pick(used, slabs, c, f) != [] ==> MostRecent(used, slabs, c, f, Pick(used, slabs, c, f)[0])
    ensures Pick(used, slabs, c, f) == [] ==> NoneBefore(used, slabs, c, f, |used|)
  {
    if used != [] {
      FirstPicked(used[1..], slabs, c, f);
      if Matches(slabs, c, f, used[0]) {
        assert NoneBefore(used, slabs, c, f, 0);
      } else if Pick(used[1..], slabs, c, f) != [] {
        var a := Pick(used[1..], slabs, c, f)[0];
        var k :| 0 <= k < |used[1..]| && used[1..][k] == a && Matches(slabs, c, f, a)
                 && NoneBefore(used[1..], slabs, c, f, k);
        Later(used, slabs, c, f, k);
        assert used[k + 1] == a;
      } else {
        Later(used, slabs, c, f, |used| - 1);
      }
    }
  }

  lemma Later(used: seq<int>, slabs: map<int, Slab>, c: nat, f: Fill, k: int)
    requires c <= META && used != [] && !Matches(slabs, c, f, used[0]) && 0 <= k < |used|
    requires NoneBefore(used[1..], slabs, c, f, k)
    ensures NoneBefore(used, slabs, c, f, k + 1)
  {
    forall j | 0 <= j < k + 1 ensures !Matches(slabs, c, f, used[j]) {
      assert j > 0 ==> used[j] == used[1..][j - 1];
    }
  }

  lemma {:induction false} PickSame(used: seq<int>, slabs: map<int, Slab>, slabs': map<int, Slab>, c: nat, f: Fill)
    requires c <= META
    requires forall a :: a in used ==> (Matches(slabs, c, f, a) <==> Matches(slabs', c, f, a))
    ensures Pick(used, slabs, c, f) == Pick(used, slabs', c, f)
  {
    hide Matches;
    if used != [] {
      assert used[0] in used;
      PickSame(used[1..], slabs, slabs', c, f);
    }
  }

  lemma {:induction false} PickMembers(used: seq<int>, slabs: map<int, Slab>, c: nat, f: Fill, a: int)
    requires c <= META
    ensures a in Pick(used, slabs, c, f) <==> a in used && Matches(slabs, c, f, a)
  {
    hide Matches;
    if used != [] {
      PickMembers(used[1..], slabs, c, f, a);
      assert used == [used[0]] + used[1..];
    }
  }

  lemma {:induction false} PickWithout(used: seq<int>, slabs: map<int, Slab>, c: nat, f: Fill, a: int)
    requires c <= META && Distinct(used)
    ensures Pick(Without(used, a), slabs, c, f) == Without(Pick(used, slabs, c, f), a)
  {
    hide Matches;
    if used != [] {
      var rest := Pick(used[1..], slabs, c, f);
      PickWithout(used[1..], slabs, c, f, a);
      PickMembers(used[1..], slabs, c, f, a);
      if used[0] == a {
        forall i | 0 <= i < |used[1..]| ensures used[1..][i] != a {
          assert used[1..][i] == used[i + 1];
        }
        WithoutOther(rest, a);
        assert Pick(used, slabs, c, f) == (if Matches(slabs, c, f, a) then [a] + rest else rest);
      } else {
        var kept := Without(used[1..], a);
        assert Without(used, a) == [used[0]] + kept && ([used[0]] + kept)[1..] == kept;
        assert ([used[0]] + rest)[1..] == rest && [] + rest == rest;
        assert [] + Pick(kept, slabs, c, f) == Pick(kept, slabs, c, f);
      }
    }
  }

  lemma {:induction false} WithoutOther(q: seq<int>, a: int)
    ensures a !in q ==> Without(q, a) == q
    ensures Without([a] + q, a) == q
  {
    assert ([a] + q)[1..] == q;
    if q != [] && a !in q {
      assert q[0] in q;
      WithoutOther(q[1..], a);
      assert q == [q[0]] + q[1..];
    }
  }

  // ----- one use of a slab

  /** From h to h' slab a left its queue, changed or vanished, and went to the front of the queue of its occupancy;
      no other slab and no other place in a queue changed. */
  ghost predicate Uses(h: Heap, h': Heap, a: int) {
    && (forall b :: b != a ==> SameEntry(h, h', b))
    && forall c, f :: 0 <= c <= META ==> QueueUses(h, h', a, c, f)
  }

  ghost predicate SameEntry(h: Heap, h': Heap, b: int) {
    (b in h.slabs <==> b in h'.slabs) && (b in h.slabs ==> h.slabs[b] == h'.slabs[b])
  }

  ghost predicate QueueUses(h: Heap, h': Heap, a: int, c: nat, f: Fill)
    requires c <= META
  {
    && c in h.caches && c in h'.caches
    && Queue(h'.caches[c], f) ==
         (if Matches(h'.slabs, c, f, a) then [a] else []) + Without(Queue(h.caches[c], f), a)
  }

  lemma UseTouches(h: Heap, h': Heap, used: seq<int>, a: int)
    requires Recent(h, used) && Uses(h, h', a)
    ensures Recent(h', Touch(used, a))
  {
    hide Matches, Queue;
    var rest := Without(used, a);
    WithoutMembers(used, a);
    ConsDistinct(a, rest);
    forall c, f | 0 <= c <= META ensures QueueRecent(h', Touch(used, a), c, f) {
      assert QueueRecent(h, used, c, f) && QueueUses(h, h', a, c, f);
      PickWithout(used, h.slabs, c, f, a);
      forall b | b in rest ensures Matches(h.slabs, c, f, b) <==> Matches(h'.slabs, c, f, b) {
        assert SameEntry(h, h', b);
        SameMatch(h, h', c, f, b);
      }
      PickSame(rest, h.slabs, h'.slabs, c, f);
      assert Touch(used, a)[1..] == rest;
    }
  }

  lemma SameMatch(h: Heap, h': Heap, c: nat, f: Fill, b: int)
    requires c <= META && SameEntry(h, h', b)
    ensures Matches(h.slabs, c, f, b) <==> Matches(h'.slabs, c, f, b)
  {
  }

  /** Slab a of cache c is off the queues, and may have changed; nothing else did. */
  ghost predicate Loosened(h: Heap, h1: Heap, c: nat, a: int) {
    && c <= META && (forall d :: 0 <= d <= META ==> d in h.caches && d in h1.caches)
    && (forall b :: b != a ==> SameEntry(h, h1, b)) && CachesButSame(h, h1, c)
    && (forall f :: LooseQueue(h, h1, c, a, f))
    && (forall d: nat, f :: d <= META && d != c ==> OffQueue(h, a, d, f))
  }

  ghost predicate LooseQueue(h: Heap, h1: Heap, c: nat, a: int, f: Fill) {
    c in h.caches && c in h1.caches && Queue(h1.caches[c], f) == Without(Queue(h.caches[c], f), a)
  }

  lemma EnqueueFront(h: Heap, c: nat, a: int, f: Fill)
    requires c <= META && c in h.caches && a in h.slabs && h.slabs[a].cache == c
    ensures var h' := Enqueue(h, c, a);
            && h'.slabs == h.slabs && c in h'.caches && CachesButSame(h, h', c)
            && Queue(h'.caches[c], f) == (if Matches(h.slabs, c, f, a) then [a] else []) + Queue(h.caches[c], f)
  {
    hide Capacity;
    var k, q := h.caches[c], Queue(h.caches[c], f);
    assert [] + q == q;
    match f
    case Full => assert q == k.full;
    case Half => assert q == k.half;
    case Empty => assert q == k.empty;
  }

  /** Such a slab goes to the front of the queue of its occupancy. */
  lemma EnqueueUses(h: Heap, h1: Heap, c: nat, a: int)
    requires Loosened(h, h1, c, a) && a in h1.slabs && h1.slabs[a].cache == c
    ensures c in h1.caches && Uses(h, Enqueue(h1, c, a), a)
  {
    hide Enqueue, Queue;
    var h2 := Enqueue(h1, c, a);
    EnqueueFront(h1, c, a, Full);
    forall b | b != a ensures SameEntry(h, h2, b) {
      assert SameEntry(h, h1, b);
    }
    forall d: nat, f | d <= META ensures QueueUses(h, h2, a, d, f) {
      if d == c {
        assert LooseQueue(h, h1, c, a, f);
        EnqueueFront(h1, c, a, f);
      } else {
        assert h2.caches[d] == h1.caches[d] == h.caches[d];
        assert OffQueue(h, a, d, f);
        WithoutOther(Queue(h.caches[d], f), a);
      }
    }
  }

  /** And one that vanishes goes nowhere. */
  lemma VanishUses(h: Heap, h1: Heap, c: nat, a: int)
    requires Loosened(h, h1, c, a) && a !in h1.slabs
    ensures Uses(h, h1, a)
  {
    hide Queue;
    forall d: nat, f | d <= META ensures QueueUses(h, h1, a, d, f) {
      if d == c {
        assert LooseQueue(h, h1, c, a, f);
      } else {
        assert h1.caches[d] == h.caches[d];
        assert OffQueue(h, a, d, f);
        WithoutOther(Queue(h.caches[d], f), a);
      }
    }
  }

  ghost predicate OffQueue(h: Heap, a: int, d: nat, f: Fill) {
    d in h.caches && a !in Queue(h.caches[d], f)
  }

  /** The slabs on the queues of a cache are its own. */
  lemma QueueOwn(h: Heap, pending: set<(int, nat)>, a: int)
    requires Mid(h, META, [], pending)
    ensures forall d: nat, f :: d <= META && (a in h.slabs ==> h.slabs[a].cache != d) ==> OffQueue(h, a, d, f)
    ensures a in h.slabs ==> forall f :: h.slabs[a].cache <= META && f != FillOf(h.slabs[a].cache, h.slabs[a].free) ==>
              OffQueue(h, a, h.slabs[a].cache, f)
  {
    hide Base, CountsOk;
    forall d: nat, f | d <= META && (a in h.slabs ==> h.slabs[a].cache != d) ensures OffQueue(h, a, d, f) {
      assert QueueHolds(h, d, f, []);
    }
    if a in h.slabs && h.slabs[a].cache <= META {
      forall f | f != FillOf(h.slabs[a].cache, h.slabs[a].free) ensures OffQueue(h, a, h.slabs[a].cache, f) {
        assert QueueHolds(h, h.slabs[a].cache, f, []);
      }
    }
  }

  // ----- allocation

  /** Where Allocate looks first: a slab in use, else an empty one. */
  ghost function RoomIn(h: Heap, c: nat): Fill
    requires c in h.caches
  {
    if h.caches[c].half != [] then Half else Empty
  }

  /** Slot i of slab a is the address that was given out. */
  ghost predicate Served(h: Heap, r: Outcome, c: nat, a: int)
    requires c <= META
  {
    && a in h.slabs && h.slabs[a].free != [] && r.Done? && Uses(h, r.h, a) && a in r.h.slabs
    && r.addr == h.slabs[a].page * PAGESIZE + h.slabs[a].free[0] * ObjSize(c)
    && r.h.slabs[a] == h.slabs[a].(free := h.slabs[a].free[1..])
    && r.h.ring == h.ring
  }

  /** With a slab that has room, Allocate takes the first slot of the first slab of the queue. */
  lemma AllocateQueued(h: Heap, c: nat)
    requires Inv(h) && c <= META && c in h.caches && HasRoom(h, c)
    ensures var q := Queue(h.caches[c], RoomIn(h, c));
            q != [] && Matches(h.slabs, c, RoomIn(h, c), q[0]) && Served(h, Allocate(h, c), c, q[0])
  {
    hide Base, Lists, AdjustSlab, Enqueue, TakeSlot, Uses, Loosened, Capacity, ObjSize;
    InvParts(h);
    var f := RoomIn(h, c);
    var q := Queue(h.caches[c], f);
    var a := q[0];
    PickQueued(h, c);
    PopFront(h, META, c, f, {});
    var h1 := PickSlab(h, c).h;
    FinishAllocate(h1, c, a, {});
    PoppedLoose(h, c, f);
    TakenLoose(h, h1, c, a);
    EnqueueUses(h, TakeSlot(h1, c, a), c, a);
  }

  lemma TakenLoose(h: Heap, h1: Heap, c: nat, a: int)
    requires Loosened(h, h1, c, a) && a in h1.slabs && h1.slabs[a].free != []
    ensures c in h1.caches && Loosened(h, TakeSlot(h1, c, a), c, a)
    ensures var s := TakeSlot(h1, c, a).slabs; a in s && s[a] == h1.slabs[a].(free := h1.slabs[a].free[1..])
  {
    var h2 := TakeSlot(h1, c, a);
    forall b | b != a ensures SameEntry(h, h2, b) {
      assert SameEntry(h, h1, b);
    }
    forall f ensures LooseQueue(h, h2, c, a, f) {
      assert LooseQueue(h, h1, c, a, f);
    }
  }

  lemma PoppedLoose(h: Heap, c: nat, f: Fill)
    requires Inv(h) && c <= META && c in h.caches && Queue(h.caches[c], f) != []
    ensures var q := Queue(h.caches[c], f); Loosened(h, SetCache(h, c, WithQueue(h.caches[c], f, q[1..])), c, q[0])
  {
    hide Base, CountsOk;
    var q := Queue(h.caches[c], f);
    var h1 := SetCache(h, c, WithQueue(h.caches[c], f, q[1..]));
    assert QueueHolds(h, c, f, []) && q[0] in q;
    WithoutOther(q[1..], q[0]);
    assert q == [q[0]] + q[1..];
    QueueOwn(h, {}, q[0]);
    forall g ensures LooseQueue(h, h1, c, q[0], g) {
      if g != f {
        assert OffQueue(h, q[0], c, g);
        WithoutOther(Queue(h.caches[c], g), q[0]);
      }
    }
  }

  /** Otherwise a new slab: for the meta cache on the first free page. */
  lemma AllocateNewMeta(h: Heap)
    requires Inv(h) && META in h.caches && !HasRoom(h, META) && |h.ring| > 1
    ensures var m := h.ring[0] * PAGESIZE; var r := Allocate(h, META);
            && r.Done? && m !in h.slabs && Uses(h, r.h, m) && m in r.h.slabs && r.h.slabs[m].page == h.ring[0]
            && r.addr == m + 63 * DESCRIPTOR_SIZE && r.h.ring == h.ring[1..]
  {
    hide Base, Lists, AdjustSlab, Enqueue, TakeSlot, Uses, Loosened;
    InvParts(h);
    PickNewMeta(h);
    var m := h.ring[0] * PAGESIZE;
    var h1 := PickSlab(h, META).h;
    FinishAllocate(h1, META, m, {});
    assert h.ring[0] in h.ring;
    AddressFree(h, {}, m);
    QueueOwn(h, {}, m);
    InstalledLoose(h, META, m, m, 0);
    assert h1 == Install(h, META, m, m, 0);
    TakenLoose(h, h1, META, m);
    EnqueueUses(h, TakeSlot(h1, META, m), META, m);
  }

  lemma InstalledLoose(h: Heap, c: nat, a: int, home: int, slot: nat)
    requires c <= META && (forall d :: 0 <= d <= META ==> d in h.caches) && h.ring != [] && a !in h.slabs
    requires forall d: nat, f :: d <= META ==> OffQueue(h, a, d, f)
    ensures Loosened(h, Install(h, c, a, home, slot), c, a)
  {
    var h1 := Install(h, c, a, home, slot);
    forall f ensures LooseQueue(h, h1, c, a, f) {
      assert OffQueue(h, a, c, f);
      WithoutOther(Queue(h.caches[c], f), a);
    }
  }

  /** And for a data cache: a descriptor from the meta cache, then the next free page. */
  lemma AllocateNewData(h: Heap, c: nat)
    requires Inv(h) && c < META && c in h.caches && META in h.caches && !HasRoom(h, c) && |h.ring| > PagesNeeded(h, c)
    ensures Allocate(h, META).Done? && Allocate(h, c).Done?
    ensures var r1, r := Allocate(h, META), Allocate(h, c); var d := r1.addr;
            && d !in r1.h.slabs && !IsData(h, d) && Uses(r1.h, r.h, d) && d in r.h.slabs
            && r.h.slabs[d].cache == c && r.h.slabs[d].home == d / PAGESIZE * PAGESIZE
            && r.h.slabs[d].page == h.ring[PagesNeeded(h, c) - 1] && r.h.slabs[d].free == FreshSlots(c)[1..]
            && r.addr == r.h.slabs[d].page * PAGESIZE + FreshSlots(c)[0] * ObjSize(c)
            && r.h.ring == h.ring[PagesNeeded(h, c)..]
  {
    hide Mid, Inv, SameData, OnePending, FreshSlots, Allocate, AdjustSlab, Enqueue, TakeSlot, Uses, PickSlab;
    AllocateMeta(h);
    var r1 := Allocate(h, META);
    var d := r1.addr;
    var p, i: nat :| OnePending(r1.h, d, p, i);
    assert r1.h.caches[c] == h.caches[c];
    NewDataSlab(r1.h, c, d, p, i);
    NotData(h, r1.h, d);
    FreshSlotsOk(c);
    NewSlabIs(h, c, p, i);
    var h1 := Install(r1.h, c, d, p * PAGESIZE, i);
    LooseFrom(r1.h, c, d, p, i);
    FinishAllocate(h1, c, d, {});
    TakenLoose(r1.h, h1, c, d);
    EnqueueUses(r1.h, TakeSlot(h1, c, d), c, d);
    AllocateIs(h, c, h1, d);
  }

  lemma NewSlabIs(h: Heap, c: nat, p: int, i: nat)
    requires c < META && c in h.caches && !HasRoom(h, c) && Allocate(h, META).Done?
    requires var r := Allocate(h, META);
             && |r.h.ring| > 1 && c in r.h.caches && r.addr / PAGESIZE * PAGESIZE == p * PAGESIZE
             && r.addr % PAGESIZE / DESCRIPTOR_SIZE == i
    ensures var r := Allocate(h, META); PickSlab(h, c) == Done(Install(r.h, c, r.addr, p * PAGESIZE, i), r.addr)
  {
    hide Allocate;
  }

  lemma AllocateIs(h: Heap, c: nat, h1: Heap, a: int)
    requires c <= META && PickSlab(h, c) == Done(h1, a) && c in h1.caches && a in h1.slabs && h1.slabs[a].free != []
    requires AdjustSlab(TakeSlot(h1, c, a), c, a) == Done(Enqueue(TakeSlot(h1, c, a), c, a), a)
    ensures Allocate(h, c) == Done(Enqueue(TakeSlot(h1, c, a), c, a),
                                   h1.slabs[a].page * PAGESIZE + h1.slabs[a].free[0] * ObjSize(c))
  {
    hide PickSlab, AdjustSlab, TakeSlot, Enqueue;
  }

  lemma LooseFrom(h: Heap, c: nat, d: int, p: int, i: nat)
    requires OnePending(h, d, p, i) && c < META && c in h.caches && h.ring != [] && d !in h.slabs
    ensures Loosened(h, Install(h, c, d, p * PAGESIZE, i), c, d)
  {
    hide Base, CountsOk;
    ListsCaches(h, META, []);
    QueueOwn(h, {(p * PAGESIZE, i)}, d);
    InstalledLoose(h, c, d, p * PAGESIZE, i);
  }

  // ----- giving back

  lemma GivenLoose(h: Heap, c: nat, a: int, i: nat, pending: set<(int, nat)>)
    requires Mid(h, META, [], pending) && c <= META && a in h.slabs && h.slabs[a].cache == c
    ensures c in h.caches && Loosened(h, PutSlot(Detach(h, c, a), c, a, i), c, a)
  {
    hide Base, CountsOk, Without, PutBack;
    ListsCaches(h, META, []);
    QueueOwn(h, pending, a);
    var h1 := PutSlot(Detach(h, c, a), c, a, i);
    forall f ensures LooseQueue(h, h1, c, a, f) {
    }
  }

  /** Slab a is empty again, and its cache has more slabs than it may keep. */
  ghost predicate Goes(h: Heap, c: nat, a: int)
    requires c <= META && c in h.caches && a in h.slabs
  {
    |h.slabs[a].free| + 1 == Capacity(c) && h.caches[c].slabPg > h.caches[c].maxPg
  }

  /** A descriptor given back: its meta slab goes to the front of its queue, or goes altogether, exactly when it is
      empty and there are too many; then its page is the first free page. */
  lemma FreeMetaUses(h: Heap, d: int, p: int, i: nat)
    requires OnePending(h, d, p, i)
    ensures var m := p * PAGESIZE; var r := FreeObject(h, META, d);
            && META in h.caches && m in h.slabs && r.Done? && Uses(h, r.h, m)
            && (m in r.h.slabs <==> !Goes(h, META, m))
            && (m in r.h.slabs ==> r.h.slabs[m] == h.slabs[m].(free := [i] + h.slabs[m].free))
            && r.h.ring == (if Goes(h, META, m) then [p] else []) + h.ring
  {
    hide Base, Lists, Enqueue, Uses, Without, Loosened;
    var m := p * PAGESIZE;
    var one: set<(int, nat)> := {(m, i)};
    PendingSlab(h, m, i, one);
    GiveBack(h, META, m, i, one);
    SlotCount(h, META, m, i, one);
    GivenLoose(h, META, m, i, one);
    var h1 := PutSlot(Detach(h, META, m), META, m, i);
    AdjustMetaUses(h, h1, m, p);
  }

  lemma AdjustMetaUses(h: Heap, h1: Heap, m: int, p: int)
    requires Loosened(h, h1, META, m) && m in h1.slabs && h1.slabs[m].cache == META && h1.slabs[m].page == p
    ensures META in h1.caches
    ensures var goes := |h1.slabs[m].free| == Capacity(META) && h1.caches[META].slabPg > h1.caches[META].maxPg;
            var r := AdjustSlab(h1, META, m);
            && r.Done? && Uses(h, r.h, m) && (m in r.h.slabs <==> !goes)
            && (!goes ==> r.h.slabs[m] == h1.slabs[m]) && r.h.ring == (if goes then [p] else []) + h1.ring
  {
    hide Uses, Enqueue;
    if |h1.slabs[m].free| == Capacity(META) && h1.caches[META].slabPg > h1.caches[META].maxPg {
      DroppedLoose(h, h1, META, m, DropMeta(h1, m));
      VanishUses(h, DropMeta(h1, m), META, m);
    } else {
      EnqueueUses(h, h1, META, m);
      EnqueueFront(h1, META, m, Full);
      EnqueueRing(h1, META, m);
      assert [] + h1.ring == h1.ring;
    }
  }

  lemma EnqueueRing(h: Heap, c: nat, a: int)
    requires c <= META && c in h.caches && a in h.slabs
    ensures Enqueue(h, c, a).ring == h.ring && Enqueue(h, c, a).slabs == h.slabs
  {
  }

  lemma DroppedLoose(h: Heap, h1: Heap, c: nat, a: int, h2: Heap)
    requires Loosened(h, h1, c, a) && c in h1.caches && h2.slabs == h1.slabs - {a}
    requires h2.caches == h1.caches[c := h1.caches[c].(slabPg := h1.caches[c].slabPg - 1)]
    ensures Loosened(h, h2, c, a)
  {
    forall b | b != a ensures SameEntry(h, h2, b) {
      assert SameEntry(h, h1, b);
    }
    forall f ensures LooseQueue(h, h2, c, a, f) {
      assert LooseQueue(h, h1, c, a, f);
    }
  }

  lemma SlotCount(h: Heap, c: nat, a: int, i: nat, pending: set<(int, nat)>)
    requires Mid(h, META, [], pending) && c <= META && a in h.slabs && h.slabs[a].cache == c
    requires IsSlot(c, i) && i !in h.slabs[a].free
    ensures |PutBack(c, h.slabs[a].free, i)| == |h.slabs[a].free| + 1
  {
    assert SlabOk(h, a);
    PutBackSlots(c, h.slabs[a].free, i);
  }

  /** An object given back to a slab that stays. */
  lemma FreeDataStays(h: Heap, c: nat, a: int, i: nat)
    requires Inv(h) && c < META && a in h.slabs && h.slabs[a].cache == c && IsSlot(c, i) && i !in h.slabs[a].free
    requires c in h.caches && !Goes(h, c, a)
    ensures var r := FreeObject(h, c, ObjectAt(h, a, i));
            && r.Done? && Uses(h, r.h, a) && r.h.ring == h.ring && a in r.h.slabs
            && r.h.slabs[a] == h.slabs[a].(free := PutBack(c, h.slabs[a].free, i))
  {
    hide Base, Lists, Enqueue, Uses, Without, Loosened, PutBack, FreeObject;
    GiveBack(h, c, a, i, {});
    SlotCount(h, c, a, i, {});
    GivenLoose(h, c, a, i, {});
    var h1 := PutSlot(Detach(h, c, a), c, a, i);
    EnqueueUses(h, h1, c, a);
    EnqueueRing(h1, c, a);
    StaysIs(h1, c, a);
  }

  lemma StaysIs(h: Heap, c: nat, a: int)
    requires c < META && c in h.caches && a in h.slabs
    requires !(|h.slabs[a].free| == Capacity(c) && h.caches[c].slabPg > h.caches[c].maxPg)
    ensures AdjustSlab(h, c, a) == Done(Enqueue(h, c, a), a)
  {
  }

  /** An object given back to a slab that goes: the slab is off the queues, then its descriptor is given back. */
  lemma FreeDataGoes(h: Heap, c: nat, a: int, i: nat) returns (h1: Heap)
    requires Inv(h) && c < META && a in h.slabs && h.slabs[a].cache == c && IsSlot(c, i) && i !in h.slabs[a].free
    requires c in h.caches && Goes(h, c, a)
    ensures var r := FreeObject(h, c, ObjectAt(h, a, i)); var m := h.slabs[a].home;
            && r.Done? && Uses(h, h1, a) && Uses(h1, r.h, m) && a !in h1.slabs && m != a && m in h1.slabs
            && h1.slabs[m] == h.slabs[m] && META in h1.caches && h1.caches[META] == h.caches[META]
            && (m in r.h.slabs <==> !Goes(h1, META, m))
            && r.h.ring == (if Goes(h1, META, m) then [h.slabs[m].page] else []) + h.ring
  {
    hide Lists, Without, Uses, Loosened, PutBack, FreeObject, PutSlot, PagesOk, OwnersOk, BlocksOk, RetiredOk, SlabsOk,
         DescriptorsOk;
    GiveBack(h, c, a, i, {});
    SlotCount(h, c, a, i, {});
    GivenLoose(h, c, a, i, {});
    var h0 := PutSlot(Detach(h, c, a), c, a, i);
    h1 := DropData(h0, c, a);
    DroppedLoose(h, h0, c, a, h1);
    VanishUses(h, h1, c, a);
    DropDataKeeps(h0, c, a, {});
    var s := h.slabs[a];
    var none: set<(int, nat)> := {};
    assert none + {(s.home, s.slot)} == {(s.home, s.slot)};
    DataHome(h, a);
    assert OnePending(h1, a, h.slabs[s.home].page, s.slot);
    FreeMetaUses(h1, a, h.slabs[s.home].page, s.slot);
    GoesIs(h0, c, a);
    HomeOther(h, a);
  }

  lemma GoesIs(h: Heap, c: nat, a: int)
    requires c < META && c in h.caches && a in h.slabs
    requires |h.slabs[a].free| == Capacity(c) && h.caches[c].slabPg > h.caches[c].maxPg
    ensures AdjustSlab(h, c, a) == FreeObject(DropData(h, c, a), META, a)
  {
    hide FreeObject, DropData;
  }

  lemma HomeOther(h: Heap, a: int)
    requires Inv(h) && IsData(h, a)
    ensures h.slabs[a].home != a && h.slabs[a].home in h.slabs
  {
    hide Lists;
    assert SlabOk(h, a) && HandedOut(h, h.slabs[a].home, h.slabs[a].slot);
  }
}
