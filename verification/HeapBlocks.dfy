/** Multi-page blocks, pages taken directly, and the choice of cache: the parts of Alloc and Free around
    the caches. */
module HeapBlocks {
  import opened Arithmetic
  import opened Rings
  import opened PageAllocator
  import opened Heap
  import opened HeapInvariant

  // ----- size classes

  lemma {:induction false} BitLengthBounds(x: nat)
    ensures x < Pow2(BitLength(x)) && (x > 0 ==> BitLength(x) > 0 && Pow2(BitLength(x) - 1) <= x)
  {
    if x > 0 {
      BitLengthBounds(x / 2);
    }
  }

  lemma ObjSizePow2(c: nat)
    requires c < META
    ensures ObjSize(c) == Pow2(c + 4)
  {
    assert Pow2(4) == 16 by { assert Pow2(2) == 4; }
    assert Pow2(6) == 64 && Pow2(8) == 256 by { assert Pow2(6) == 64; }
    assert Pow2(10) == 1024;
  }

  /** Sizes 2 to 2048 go to the smallest class that fits; nothing else gets a class. */
  lemma FitCacheLeast(size: int)
    ensures FitCache(size).Class? <==> 2 <= size <= 2048
    ensures 2 <= size <= 2048 ==> var c := FitCache(size).c;
              c < META && size <= ObjSize(c) && (c > 0 ==> ObjSize(c - 1) < size)
  {
    if size >= 2 {
      BitLengthBounds(size - 1);
      var n := BitLength(size - 1);
      assert Pow2(11) == 2048 by { ObjSizePow2(7); }
      if n <= 4 {
        Pow2Mono(n, 4);
        ObjSizePow2(0);
      } else if n <= 11 {
        ObjSizePow2(n - 4);
        ObjSizePow2(n - 5);
      } else {
        Pow2Mono(11, n - 1);
      }
    }
  }

  /** A class's own size leads back to the class. */
  lemma FitCacheOfClass(c: nat)
    requires c < META
    ensures FitCache(ObjSize(c)) == Class(c)
  {
    var size := ObjSize(c);
    FitCacheLeast(size);
    var d := FitCache(size).c;
    ObjSizePow2(c);
    ObjSizePow2(d);
    if d > 0 {
      ObjSizePow2(d - 1);
    }
    if d < c {
      Pow2Mono(d + 4, c + 3);
    } else if c < d {
      Pow2Mono(c + 4, d + 3);
    }
  }

  // ----- runs of pages

  lemma {:induction false} OutsideDistinct(ring: seq<int>, lo: int, hi: int)
    requires Distinct(ring)
    ensures Distinct(Outside(ring, lo, hi))
  {
    if ring != [] {
      OutsideDistinct(ring[1..], lo, hi);
      ConsDistinct(ring[0], Outside(ring[1..], lo, hi));
    }
  }

  /** Queues, counters and descriptors only look at slabs and caches. */
  lemma SlabsSame(h: Heap, h': Heap)
    requires Lists(h, META, []) && DescriptorsOk(h, {})
    requires h'.slabs == h.slabs && h'.caches == h.caches
    ensures Lists(h', META, []) && DescriptorsOk(h', {})
  {
    forall c, f | 0 <= c <= META ensures QueueHolds(h', c, f, []) {
      assert QueueHolds(h, c, f, []);
    }
    forall a | a in h'.slabs && h'.slabs[a].cache <= META ensures Queued(h', a) {
      assert Queued(h, a);
    }
    forall c | 0 <= c <= META ensures CountOk(h', c, META, []) {
      assert CountOk(h, c, META, []);
    }
    assert forall m, i: nat :: HandedOut(h', m, i) == HandedOut(h, m, i) && Describes(h', m, i) == Describes(h, m, i);
  }

  /** Pages s to s + n - 1 leave the free ring and become block s. */
  function MakeBlock(h: Heap, s: int, n: nat): Heap
    requires n <= 0x8_0000
  {
    h.(ring := Outside(h.ring, s, s + n), role := SetRoles(h.role, s, n, BlockPage(s)), blocks := h.blocks[s := n],
       objSize := h.objSize[s := Int32(n * PAGESIZE)])
  }

  lemma MakeBlockPages(h: Heap, s: int, n: nat)
    requires PagesOk(h) && RetiredOk(h) && 1 <= n <= 0x8_0000 && RunAt(h.ring, s, n)
    ensures var h' := MakeBlock(h, s, n); PagesOk(h') && RetiredOk(h') && h'.role.Keys == h.role.Keys
  {
    var h' := MakeBlock(h, s, n);
    OutsideDistinct(h.ring, s, s + n);
    assert forall p :: s <= p < s + n ==> p in h.ring && p in h.role;
    assert h'.role.Keys == h.role.Keys;
    forall p | p in h'.role ensures 0 < p < h'.nr && (h'.role[p] == Free <==> p in h'.ring) {
      assert p in h.role;
    }
    assert RetiredPages(h'.role) == RetiredPages(h.role);
  }

  /** No block starts on a free page. */
  lemma FreeNotBlock(h: Heap, s: int)
    requires PagesOk(h) && BlocksOk(h) && s in h.ring
    ensures s !in h.blocks
  {
    assert h.role[s] == Free;
  }

  lemma MakeBlockSlabs(h: Heap, s: int, n: nat)
    requires PagesOk(h) && SlabsOk(h) && 1 <= n <= 0x8_0000 && RunAt(h.ring, s, n)
    ensures SlabsOk(MakeBlock(h, s, n))
  {
    hide RetiredPages, Distinct;
    var h' := MakeBlock(h, s, n);
    forall a | a in h'.slabs ensures SlabOk(h', a) {
      assert SlabOk(h, a);
      assert h.role[h.slabs[a].page] != Free;
      assert !(s <= h.slabs[a].page < s + n);
    }
  }

  lemma MakeBlockOwners(h: Heap, s: int, n: nat)
    requires PagesOk(h) && OwnersOk(h) && BlocksOk(h) && 1 <= n <= 0x8_0000 && RunAt(h.ring, s, n)
    requires s !in h.blocks
    ensures OwnersOk(MakeBlock(h, s, n))
  {
    var h' := MakeBlock(h, s, n);
    forall p | p in h'.role ensures OwnerOk(h', p) {
      if !(s <= p < s + n) {
        assert OwnerOk(h, p);
      }
    }
  }

  lemma MakeBlockBlocks(h: Heap, s: int, n: nat)
    requires PagesOk(h) && BlocksOk(h) && 1 <= n <= 0x8_0000 && RunAt(h.ring, s, n)
    ensures BlocksOk(MakeBlock(h, s, n))
  {
    hide BlockOk, Distinct, Int32;
    var h' := MakeBlock(h, s, n);
    forall t | t in h'.blocks ensures BlockOk(h', t) {
      if t == s {
        NewBlockOk(h, s, n);
      } else {
        OtherBlockOk(h, s, n, t);
      }
    }
  }

  lemma NewBlockOk(h: Heap, s: int, n: nat)
    requires 1 <= n <= 0x8_0000
    ensures BlockOk(MakeBlock(h, s, n), s)
  {
    hide Int32;
  }

  lemma OtherBlockOk(h: Heap, s: int, n: nat, t: int)
    requires PagesOk(h) && 1 <= n <= 0x8_0000 && RunAt(h.ring, s, n) && t != s && t in h.blocks && BlockOk(h, t)
    ensures BlockOk(MakeBlock(h, s, n), t)
  {
    hide Int32, Distinct;
    var h' := MakeBlock(h, s, n);
    forall p | t <= p < t + h.blocks[t] ensures p in h'.role && h'.role[p] == BlockPage(t) {
      assert p in h.role && h.role[p] == BlockPage(t);
      assert p !in h.ring;
    }
  }

  lemma MakeBlockKeeps(h: Heap, s: int, n: nat)
    requires Inv(h) && 1 <= n <= 0x8_0000 && RunAt(h.ring, s, n)
    ensures Inv(MakeBlock(h, s, n)) && s !in h.blocks && MakeBlock(h, s, n).role.Keys == h.role.Keys
  {
    hide PagesOk, SlabsOk, OwnersOk, BlocksOk, RetiredOk, DescriptorsOk, Lists;
    MakeBlockPages(h, s, n);
    FreeNotBlock(h, s);
    MakeBlockSlabs(h, s, n);
    MakeBlockOwners(h, s, n);
    MakeBlockBlocks(h, s, n);
    SlabsSame(h, MakeBlock(h, s, n));
  }

  /** Block s is split into free pages again. */
  function BreakBlock(h: Heap, s: int, n: nat): Heap {
    h.(ring := Descending(s, n) + h.ring, role := SetRoles(h.role, s, n, Free), blocks := h.blocks - {s})
  }

  lemma {:induction false} DescendingDistinct(p: int, n: nat)
    ensures Distinct(Descending(p, n))
  {
    if n > 0 {
      DescendingDistinct(p, n - 1);
      ConsDistinct(p + n - 1, Descending(p, n - 1));
    }
  }

  lemma BreakBlockPages(h: Heap, s: int)
    requires PagesOk(h) && RetiredOk(h) && BlocksOk(h) && s in h.blocks
    ensures var h' := BreakBlock(h, s, h.blocks[s]); PagesOk(h') && RetiredOk(h') && h'.role.Keys == h.role.Keys
  {
    hide Distinct, Int32, Descending, SetRoles;
    var n := h.blocks[s];
    var h' := BreakBlock(h, s, n);
    assert BlockOk(h, s);
    BreakBlockRing(h, s);
    forall p | p in h'.role ensures p in h.role && (h'.role[p] == Free <==> p in h'.ring) {
      assert p in h'.ring <==> p in Descending(s, n) || p in h.ring;
    }
    forall p | p in h.role ensures p in h'.role && (h.role[p] == Retired <==> h'.role[p] == Retired) {
    }
    assert RetiredPages(h'.role) == RetiredPages(h.role);
  }

  lemma BreakBlockRing(h: Heap, s: int)
    requires PagesOk(h) && s in h.blocks && BlockOk(h, s)
    ensures Distinct(BreakBlock(h, s, h.blocks[s]).ring)
  {
    hide Distinct, Int32;
    var n := h.blocks[s];
    forall p | p in Descending(s, n) ensures p !in h.ring {
      assert h.role[p] == BlockPage(s);
    }
    DescendingDistinct(s, n);
    AppendDistinct(Descending(s, n), h.ring);
  }

  lemma BreakBlockOwners(h: Heap, s: int)
    requires PagesOk(h) && SlabsOk(h) && OwnersOk(h) && BlocksOk(h) && s in h.blocks
    ensures var h' := BreakBlock(h, s, h.blocks[s]); SlabsOk(h') && OwnersOk(h') && BlocksOk(h')
  {
    var h' := BreakBlock(h, s, h.blocks[s]);
    assert BlockOk(h, s);
    forall a | a in h'.slabs ensures SlabOk(h', a) {
      assert SlabOk(h, a);
    }
    forall p | p in h'.role ensures OwnerOk(h', p) {
      assert OwnerOk(h, p);
    }
    forall t | t in h'.blocks ensures BlockOk(h', t) {
      assert BlockOk(h, t);
    }
  }

  lemma BreakBlockKeeps(h: Heap, s: int)
    requires Inv(h) && s in h.blocks
    ensures Inv(BreakBlock(h, s, h.blocks[s])) && BreakBlock(h, s, h.blocks[s]).role.Keys == h.role.Keys
  {
    hide PagesOk, SlabsOk, OwnersOk, BlocksOk, RetiredOk, DescriptorsOk, Lists;
    BreakBlockPages(h, s);
    BreakBlockOwners(h, s);
    SlabsSame(h, BreakBlock(h, s, h.blocks[s]));
  }

  /** A page taken by AllocPage for a page table or a stack. */
  lemma TakeDirectKeeps(h: Heap)
    requires Inv(h)
    ensures TakePage(h, Direct).Fault? <==> |h.ring| <= 1
    ensures var r := TakePage(h, Direct); r.Done? ==>
              && Inv(r.h) && r.h.slabs == h.slabs && r.h.blocks == h.blocks && r.h.role.Keys == h.role.Keys
              && h.ring == [r.addr] + r.h.ring && h.role[r.addr] == Free && r.h.role == h.role[r.addr := Direct]
              && r.h.reclaimed == h.reclaimed
  {
    var r := TakePage(h, Direct);
    if r.Done? {
      TakeDirectPages(h);
      SlabsSame(h, r.h);
    }
  }

  lemma TakeDirectPages(h: Heap)
    requires PagesOk(h) && SlabsOk(h) && OwnersOk(h) && BlocksOk(h) && RetiredOk(h) && |h.ring| > 1
    ensures var h' := TakePage(h, Direct).h;
            PagesOk(h') && SlabsOk(h') && OwnersOk(h') && BlocksOk(h') && RetiredOk(h') && h.role[h.ring[0]] == Free
    ensures h.ring == [h.ring[0]] + h.ring[1..]
  {
    var h' := TakePage(h, Direct).h;
    var p := h.ring[0];
    assert p in h.ring;
    assert forall q :: q in h.ring[1..] <==> q in h.ring && q != p;
    assert RetiredPages(h'.role) == RetiredPages(h.role);
    forall a | a in h'.slabs ensures SlabOk(h', a) {
      assert SlabOk(h, a);
    }
    forall q | q in h'.role ensures OwnerOk(h', q) {
      assert OwnerOk(h, q);
    }
    forall t | t in h'.blocks ensures BlockOk(h', t) {
      assert BlockOk(h, t);
    }
  }

  /** And such a page given back by FreePage. */
  lemma GiveDirectKeeps(h: Heap, p: int)
    requires Inv(h) && p in h.role && h.role[p] == Direct
    ensures var h' := GivePage(h, p);
            Inv(h') && h'.slabs == h.slabs && h'.blocks == h.blocks && h'.role.Keys == h.role.Keys
  {
    hide PagesOk, SlabsOk, OwnersOk, BlocksOk, RetiredOk, DescriptorsOk, Lists;
    GiveDirectPages(h, p);
    GiveDirectOwners(h, p);
    SlabsSame(h, GivePage(h, p));
  }

  lemma GiveDirectPages(h: Heap, p: int)
    requires PagesOk(h) && RetiredOk(h) && p in h.role && h.role[p] == Direct
    ensures PagesOk(GivePage(h, p)) && RetiredOk(GivePage(h, p)) && GivePage(h, p).role.Keys == h.role.Keys
  {
    var h' := GivePage(h, p);
    ConsDistinct(p, h.ring);
    assert RetiredPages(h'.role) == RetiredPages(h.role);
  }

  lemma GiveDirectOwners(h: Heap, p: int)
    requires SlabsOk(h) && OwnersOk(h) && BlocksOk(h) && p in h.role && h.role[p] == Direct
    ensures SlabsOk(GivePage(h, p)) && OwnersOk(GivePage(h, p)) && BlocksOk(GivePage(h, p))
  {
    var h' := GivePage(h, p);
    forall a | a in h'.slabs ensures SlabOk(h', a) {
      assert SlabOk(h, a);
    }
    forall q | q in h'.role ensures OwnerOk(h', q) {
      assert OwnerOk(h, q);
    }
    forall t | t in h'.blocks ensures BlockOk(h', t) {
      assert BlockOk(h, t);
    }
  }

  // ----- Alloc of more than 2048 bytes, and its Free

  lemma AllocBlockKeeps(h: Heap, size: int)
    requires Inv(h) && 2048 < size < 0x8000_0000
    ensures AllocBlock(h, size).Fault? <==> FindPages(h, PagesFor(size)) == -1
    ensures var r := AllocBlock(h, size); var n := PagesFor(size); r.Done? ==>
              var s := FindPages(h, n);
              && 1 <= n <= 0x8_0000 && size <= n * PAGESIZE < size + PAGESIZE
              && RunAt(h.ring, s, n) && s !in h.blocks && r.addr == s * PAGESIZE
              && r.h == MakeBlock(h, s, n) && Inv(r.h) && r.h.role.Keys == h.role.Keys
  {
    hide PagesOk, SlabsOk, OwnersOk, BlocksOk, RetiredOk, DescriptorsOk, Lists;
    var n := PagesFor(size);
    var s := FindPages(h, n);
    if s != -1 {
      if n == 1 {
        assert s in h.ring;
      }
      RingPositive(h);
      MakeBlockKeeps(h, s, n);
    }
  }

  lemma RingPositive(h: Heap)
    requires Inv(h)
    ensures forall p :: p in h.ring ==> p > 0
  {
  }

  /** A block comes back whole exactly when its byte count fits an int. */
  lemma ReleaseBlock(h: Heap, s: int)
    requires Inv(h) && s in h.blocks
    ensures Release(h, s * PAGESIZE).Done? <==> h.blocks[s] < 0x8_0000
    ensures h.blocks[s] < 0x8_0000 ==>
              var r := Release(h, s * PAGESIZE); Inv(r.h) && r.h == BreakBlock(h, s, h.blocks[s])
  {
    hide PagesOk, SlabsOk, OwnersOk, RetiredOk, DescriptorsOk, Lists;
    assert BlockOk(h, s);
    FitCacheLeast(h.objSize[s]);
    BreakBlockKeeps(h, s);
  }
}
