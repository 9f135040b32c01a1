/** Whole runs of Alloc, Free and AllocPage: what callers hold is a set of disjoint byte ranges. */
module HeapRuns {
  import opened Rings
  import opened PageAllocator
  import opened Heap
  import opened HeapInvariant
  import opened HeapSteps
  import opened HeapBlocks

  /** Slot i of data slab a is handed out. */
  ghost predicate IsObject(h: Heap, a: int, i: nat) {
    IsData(h, a) && h.slabs[a].cache <= META && IsSlot(h.slabs[a].cache, i) && i !in h.slabs[a].free
  }

  ghost predicate ObjectIs(h: Heap, x: int, a: int, i: nat) {
    IsObject(h, a, i) && x == ObjectAt(h, a, i)
  }

  ghost predicate BlockIs(h: Heap, x: int, s: int) {
    s in h.blocks && x == s * PAGESIZE
  }

  /** x is the address of memory a caller holds. */
  ghost predicate Live(h: Heap, x: int) {
    (exists a, i: nat :: ObjectIs(h, x, a, i)) || (exists s :: BlockIs(h, x, s))
  }

  /** Bytes from a live address that belong to its holder. */
  ghost function Extent(h: Heap, x: int): nat {
    var p := x / PAGESIZE;
    if p !in h.role then 0
    else match h.role[p]
      case DataPage(a) => if a in h.slabs && h.slabs[a].cache <= META then ObjSize(h.slabs[a].cache) else 0
      case BlockPage(s) => if s in h.blocks then h.blocks[s] * PAGESIZE else 0
      case _ => 0
  }

  lemma ObjectExtent(h: Heap, x: int, a: int, i: nat)
    requires Inv(h) && ObjectIs(h, x, a, i)
    ensures var s := h.slabs[a];
            && s.page > 0 && s.page in h.role && h.role[s.page] == DataPage(a) && x / PAGESIZE == s.page
            && x % PAGESIZE / ObjSize(s.cache) == i && x % PAGESIZE + ObjSize(s.cache) <= PAGESIZE
            && Extent(h, x) == ObjSize(s.cache)
  {
    hide OwnersOk, BlocksOk, RetiredOk, DescriptorsOk, Lists;
    assert SlabOk(h, a);
    ObjectParts(h.slabs[a].cache, h.slabs[a].page, i);
  }

  lemma BlockExtent(h: Heap, x: int, s: int)
    requires Inv(h) && BlockIs(h, x, s)
    ensures s > 0 && h.blocks[s] >= 1 && x / PAGESIZE == s && Extent(h, x) == h.blocks[s] * PAGESIZE
    ensures forall p :: s <= p < s + h.blocks[s] ==> p in h.role && h.role[p] == BlockPage(s)
  {
    hide OwnersOk, SlabsOk, RetiredOk, DescriptorsOk, Lists;
    assert BlockOk(h, s);
    assert s in h.role;
  }

  lemma SlotsApart(c: nat, i: nat, j: nat)
    requires c <= META && i < j
    ensures i * ObjSize(c) + ObjSize(c) <= j * ObjSize(c)
  {
    match c
    case 0 => case 1 => case 2 => case 3 => case 4 => case 5 => case 6 => case 7 => case _ =>
  }

  /** An address names one object. */
  lemma ObjectUnique(h: Heap, x: int, a: int, i: nat, b: int, j: nat)
    requires Inv(h) && ObjectIs(h, x, a, i) && ObjectIs(h, x, b, j)
    ensures a == b && i == j
  {
    hide Inv;
    ObjectExtent(h, x, a, i);
    ObjectExtent(h, x, b, j);
  }

  ghost predicate Apart(h: Heap, x: int, y: int) {
    x + Extent(h, x) <= y || y + Extent(h, y) <= x
  }

  lemma ObjectsApart(h: Heap, x: int, a: int, i: nat, y: int, b: int, j: nat)
    requires Inv(h) && ObjectIs(h, x, a, i) && ObjectIs(h, y, b, j) && x != y
    ensures Apart(h, x, y)
  {
    hide Inv, Extent;
    ObjectExtent(h, x, a, i);
    ObjectExtent(h, y, b, j);
    if a == b {
      if i < j {
        SlotsApart(h.slabs[a].cache, i, j);
      } else {
        SlotsApart(h.slabs[a].cache, j, i);
      }
    }
  }

  lemma ObjectBlockApart(h: Heap, x: int, a: int, i: nat, y: int, s: int)
    requires Inv(h) && ObjectIs(h, x, a, i) && BlockIs(h, y, s)
    ensures x != y && Apart(h, x, y)
  {
    hide Inv, Extent;
    ObjectExtent(h, x, a, i);
    BlockExtent(h, y, s);
    assert !(s <= h.slabs[a].page < s + h.blocks[s]);
  }

  lemma BlocksApart(h: Heap, x: int, s: int, y: int, t: int)
    requires Inv(h) && BlockIs(h, x, s) && BlockIs(h, y, t) && x != y
    ensures Apart(h, x, y)
  {
    hide Inv, Extent;
    BlockExtent(h, x, s);
    BlockExtent(h, y, t);
    assert h.role[s] == BlockPage(s) && h.role[t] == BlockPage(t);
  }

  /** Live memory never overlaps. */
  lemma LiveApart(h: Heap, x: int, y: int)
    requires Inv(h) && Live(h, x) && Live(h, y) && x != y
    ensures Apart(h, x, y)
  {
    hide Inv, Extent, Apart, ObjectIs, BlockIs;
    if a, i: nat :| ObjectIs(h, x, a, i) {
      if b, j: nat :| ObjectIs(h, y, b, j) {
        ObjectsApart(h, x, a, i, y, b, j);
      } else {
        var t :| BlockIs(h, y, t);
        ObjectBlockApart(h, x, a, i, y, t);
      }
    } else {
      var s :| BlockIs(h, x, s);
      if b, j: nat :| ObjectIs(h, y, b, j) {
        ObjectBlockApart(h, y, b, j, x, s);
        ApartSymmetric(h, x, y);
      } else {
        var t :| BlockIs(h, y, t);
        BlocksApart(h, x, s, y, t);
      }
    }
  }

  lemma ApartSymmetric(h: Heap, x: int, y: int)
    ensures Apart(h, x, y) <==> Apart(h, y, x)
  {
  }

  /** Every byte of live memory is on a page that serves objects or a block: not a free page, not a page of
      slab descriptors or of a meta-slab header, not a page table, not a retired page. */
  lemma LiveOnOwnPages(h: Heap, x: int, b: int)
    requires Inv(h) && Live(h, x) && x <= b < x + Extent(h, x)
    ensures b / PAGESIZE in h.role && (h.role[b / PAGESIZE].DataPage? || h.role[b / PAGESIZE].BlockPage?)
    ensures b / PAGESIZE !in h.ring
  {
    hide Extent, SlabsOk, OwnersOk, BlocksOk, RetiredOk, DescriptorsOk, Lists, ObjectIs;
    if a, i: nat :| ObjectIs(h, x, a, i) {
      ObjectExtent(h, x, a, i);
      assert b / PAGESIZE == x / PAGESIZE;
    } else {
      var s :| BlockIs(h, x, s);
      BlockExtent(h, x, s);
      assert s <= b / PAGESIZE < s + h.blocks[s];
    }
  }

  // ----- what one call changes

  /** The same slab serves slot j of b in both heaps. */
  ghost predicate SamePlace(h: Heap, h': Heap, b: int) {
    b in h.slabs && b in h'.slabs && h'.slabs[b].cache == h.slabs[b].cache && h'.slabs[b].page == h.slabs[b].page
  }

  /** After a slot is taken, exactly that object is new. */
  lemma TakenObject(h: Heap, h': Heap, c: nat, a: int, i: nat, b: int, j: nat)
    requires Inv(h) && Inv(h') && Taken(h, h', c, a, i)
    ensures IsObject(h', b, j) <==> IsObject(h, b, j) || (b == a && j == i)
    ensures !IsObject(h, a, i)
    ensures IsObject(h, b, j) ==> SamePlace(h, h', b)
  {
    hide PagesOk, OwnersOk, BlocksOk, RetiredOk, DescriptorsOk, Lists;
    var free := FreeBefore(h, c, a);
    FreshSlotsOk(c);
    assert SlabOk(h', a);
    assert IsData(h, a) ==> SlabOk(h, a);
    assert free[0] in free && forall k :: k in free[1..] <==> k in free && k != free[0];
    assert b !in {a} ==> SameSlab(h, h', b);
  }

  lemma TakenLiveAddress(h: Heap, h': Heap, c: nat, a: int, i: nat, y: int)
    requires Inv(h) && Inv(h') && Taken(h, h', c, a, i)
    ensures a in h'.slabs && h'.slabs[a].cache == c
    ensures Live(h', y) <==> Live(h, y) || y == ObjectAt(h', a, i)
    ensures y == ObjectAt(h', a, i) ==> !Live(h, y)
    ensures Live(h, y) ==> Extent(h', y) == Extent(h, y)
  {
    hide Inv, Extent;
    TakenObject(h, h', c, a, i, a, i);
    var x := ObjectAt(h', a, i);
    assert ObjectIs(h', x, a, i);
    if b, j: nat :| ObjectIs(h, y, b, j) {
      TakenObject(h, h', c, a, i, b, j);
      assert ObjectIs(h', y, b, j);
      if y == x {
        ObjectUnique(h', x, a, i, b, j);
      }
      SameExtent(h, h', y, b, j);
    }
    if s :| BlockIs(h, y, s) {
      assert BlockIs(h', y, s);
      ObjectBlockApart(h', x, a, i, y, s);
      BlockExtent(h, y, s);
      BlockExtent(h', y, s);
    }
    if b, j: nat :| ObjectIs(h', y, b, j) {
      TakenObject(h, h', c, a, i, b, j);
      assert IsObject(h, b, j) ==> ObjectIs(h, y, b, j);
    }
    if s :| BlockIs(h', y, s) {
      assert BlockIs(h, y, s);
    }
  }

  lemma SameExtent(h: Heap, h': Heap, y: int, b: int, j: nat)
    requires Inv(h) && Inv(h') && ObjectIs(h, y, b, j) && ObjectIs(h', y, b, j) && h.slabs[b].cache == h'.slabs[b].cache
    ensures Extent(h', y) == Extent(h, y)
  {
    hide Inv, Extent;
    ObjectExtent(h, y, b, j);
    ObjectExtent(h', y, b, j);
  }

  /** After a slot is given back, exactly that object is gone. */
  lemma GivenBackObject(h: Heap, h': Heap, c: nat, a: int, i: nat, b: int, j: nat)
    requires Inv(h) && Inv(h') && GivenBack(h, h', c, a, i) && IsObject(h, a, i) && h.slabs[a].cache == c
    ensures IsObject(h', b, j) <==> IsObject(h, b, j) && !(b == a && j == i)
    ensures IsObject(h', b, j) ==> SamePlace(h, h', b)
  {
    hide PagesOk, OwnersOk, BlocksOk, RetiredOk, DescriptorsOk, Lists;
    assert SlabOk(h, a);
    PutBackSlots(c, h.slabs[a].free, i);
    AllSlotsFree(c, PutBack(c, h.slabs[a].free, i));
    assert b !in {a} ==> SameSlab(h, h', b);
    assert IsData(h', b) ==> SlabOk(h', b);
  }

  lemma GivenBackLive(h: Heap, h': Heap, c: nat, a: int, i: nat, y: int)
    requires Inv(h) && Inv(h') && GivenBack(h, h', c, a, i) && IsObject(h, a, i) && h.slabs[a].cache == c
    ensures Live(h', y) <==> Live(h, y) && y != ObjectAt(h, a, i)
    ensures Live(h', y) ==> Extent(h', y) == Extent(h, y)
  {
    hide Inv, Extent;
    var x := ObjectAt(h, a, i);
    assert ObjectIs(h, x, a, i);
    if b, j: nat :| ObjectIs(h', y, b, j) {
      GivenBackObject(h, h', c, a, i, b, j);
      assert ObjectIs(h, y, b, j);
      if y == x {
        ObjectUnique(h, x, a, i, b, j);
      }
      SameExtent(h, h', y, b, j);
    }
    if s :| BlockIs(h', y, s) {
      assert BlockIs(h, y, s);
      ObjectBlockApart(h, x, a, i, y, s);
      BlockExtent(h, y, s);
      BlockExtent(h', y, s);
    }
    if b, j: nat :| ObjectIs(h, y, b, j) {
      GivenBackObject(h, h', c, a, i, b, j);
      assert y != x ==> ObjectIs(h', y, b, j);
    }
    if s :| BlockIs(h, y, s) {
      assert BlockIs(h', y, s);
    }
  }

  /** A heap with the same slabs and block s more. */
  lemma BlockLive(h: Heap, h': Heap, s: int, y: int)
    requires Inv(h) && Inv(h') && h'.slabs == h.slabs && s !in h.blocks && s in h'.blocks && h'.blocks - {s} == h.blocks
    ensures Live(h', y) <==> Live(h, y) || y == s * PAGESIZE
    ensures y == s * PAGESIZE ==> !Live(h, y)
    ensures Live(h, y) ==> Extent(h', y) == Extent(h, y)
  {
    hide Inv, Extent;
    var x := s * PAGESIZE;
    assert BlockIs(h', x, s);
    assert forall b, j: nat :: ObjectIs(h', y, b, j) <==> ObjectIs(h, y, b, j);
    if b, j: nat :| ObjectIs(h, y, b, j) {
      ObjectBlockApart(h', y, b, j, x, s);
      SameExtent(h, h', y, b, j);
    }
    if t :| BlockIs(h, y, t) {
      assert t in h'.blocks - {s};
      assert BlockIs(h', y, t);
      BlockExtent(h, y, t);
      BlockExtent(h', y, t);
    }
    if t :| BlockIs(h', y, t) {
      assert t != s ==> t in h'.blocks - {s};
      assert t != s ==> BlockIs(h, y, t);
    }
  }

  // ----- runs

  /** live maps each address a caller holds to the size it asked for. */
  datatype System = System(h: Heap, live: map<int, int>)

  /** The heap serves exactly the live addresses, each with the bytes its request rounds up to. */
  ghost predicate Serves(s: System) {
    && Inv(s.h)
    && (forall x :: x in s.live <==> Live(s.h, x))
    && (forall x :: x in s.live ==> 2 <= s.live[x] < 0x8000_0000 && Extent(s.h, x) == Rounded(s.live[x]))
  }

  /** The bytes reserved for a request: the least class that fits, or whole pages. */
  ghost function Rounded(size: int): (r: nat)
    requires 2 <= size < 0x8000_0000
    ensures r >= size
  {
    FitCacheLeast(size);
    if size > 2048 then PagesFor(size) * PAGESIZE else ObjSize(FitCache(size).c)
  }

  /** GetPage and PutPage are AllocPage and FreePage by a caller outside the allocator, as for a thread's stack. */
  datatype Op = Malloc(size: int) | Dispose(addr: int) | GetPage | PutPage(page: int)

  datatype Result = Ok(s: System) | Halted

  /** One call.  It halts the kernel on a fault, and a caller may only free what it holds. */
  function Step(s: System, op: Op): Result {
    match op
    case Malloc(size) =>
      if size >= 0x8000_0000 then Halted
      else (match Alloc(s.h, size)
            case Done(h, a) => Ok(System(h, s.live[a := size]))
            case Fault => Halted)
    case Dispose(x) =>
      if x !in s.live then Halted
      else (match Release(s.h, x)
            case Done(h, _) => Ok(System(h, s.live - {x}))
            case Fault => Halted)
    case GetPage =>
      (match TakePage(s.h, Direct)
       case Done(h, _) => Ok(System(h, s.live))
       case Fault => Halted)
    case PutPage(p) =>
      if p in s.h.role && s.h.role[p] == Direct then Ok(System(GivePage(s.h, p), s.live)) else Halted
  }

  function Run(s: System, ops: seq<Op>): Result
    decreases |ops|
  {
    if ops == [] then Ok(s)
    else match Step(s, ops[0])
      case Ok(s') => Run(s', ops[1..])
      case Halted => Halted
  }

  /** The call from s to t gave out memory nobody held: a new address, with at least the bytes asked for, all of
      them apart from every range held at that moment. */
  ghost predicate Grants(s: System, size: int, t: System, a: int) {
    && a !in s.live && t.live == s.live[a := size] && size <= Extent(t.h, a)
    && forall y :: y in s.live ==> Extent(t.h, y) == Extent(s.h, y) && Apart(t.h, a, y)
  }

  lemma GrantsFresh(s: System, size: int, t: System, a: int)
    requires Serves(s) && Serves(t) && a !in s.live && t.live == s.live[a := size]
    ensures Grants(s, size, t, a)
  {
    hide Inv, Extent, Live, Apart;
    forall y | y in s.live ensures Extent(t.h, y) == Extent(s.h, y) && Apart(t.h, a, y) {
      assert y in t.live && t.live[y] == s.live[y];
      LiveApart(t.h, a, y);
    }
  }

  lemma MallocSmall(s: System, size: int)
    requires Serves(s) && 2 <= size <= 2048
    ensures FitCache(size).Class?
    ensures var c := FitCache(size).c;
            && c < META && c in s.h.caches && META in s.h.caches
            && (Step(s, Malloc(size)) == Halted <==> PagesNeeded(s.h, c) > 0 && |s.h.ring| <= PagesNeeded(s.h, c))
    ensures var r := Step(s, Malloc(size)); r.Ok? ==>
              && Serves(r.s) && r.s.h.role.Keys == s.h.role.Keys && r.s.h.reclaimed == s.h.reclaimed
              && Moves(s, Malloc(size), r.s)
  {
    hide Inv, Allocate, Extent, Live, PagesNeeded, Grants, DirectPages;
    FitCacheLeast(size);
    var c := FitCache(size).c;
    AllocateData(s.h, c);
    var r := Allocate(s.h, c);
    if r.Done? {
      var a, i: nat :| Taken(s.h, r.h, c, a, i) && r.addr == ObjectAt(r.h, a, i);
      TakenLiveAddress(s.h, r.h, c, a, i, r.addr);
      TakenObject(s.h, r.h, c, a, i, a, i);
      ObjectExtent(r.h, r.addr, a, i);
      forall y ensures Live(r.h, y) <==> Live(s.h, y) || y == r.addr {
        TakenLiveAddress(s.h, r.h, c, a, i, y);
      }
      forall y | Live(s.h, y) ensures Extent(r.h, y) == Extent(s.h, y) {
        TakenLiveAddress(s.h, r.h, c, a, i, y);
      }
      GrantsFresh(s, size, Step(s, Malloc(size)).s, r.addr);
    }
  }

  lemma MallocLarge(s: System, size: int)
    requires Serves(s) && 2048 < size < 0x8000_0000
    ensures Step(s, Malloc(size)) == Halted <==> FindPages(s.h, PagesFor(size)) == -1
    ensures var r := Step(s, Malloc(size)); r.Ok? ==>
              && Serves(r.s) && r.s.h.role.Keys == s.h.role.Keys && r.s.h.reclaimed == s.h.reclaimed
              && Moves(s, Malloc(size), r.s)
  {
    hide Inv, AllocBlock, Extent, Live, Grants, DirectPages, SetRoles;
    AllocBlockKeeps(s.h, size);
    var r := AllocBlock(s.h, size);
    if r.Done? {
      var n := PagesFor(size);
      var b := FindPages(s.h, n);
      assert r.h.blocks - {b} == s.h.blocks;
      TakenNotDirect(s.h, b, n);
      RolesChange(s.h, r.h, b, n, BlockPage(b));
      BlockExtent(r.h, r.addr, b);
      forall y ensures Live(r.h, y) <==> Live(s.h, y) || y == r.addr {
        BlockLive(s.h, r.h, b, y);
      }
      forall y | Live(s.h, y) ensures y != r.addr && Extent(r.h, y) == Extent(s.h, y) {
        BlockLive(s.h, r.h, b, y);
      }
      GrantsFresh(s, size, Step(s, Malloc(size)).s, r.addr);
    }
  }

  lemma FreeObjectStep(s: System, x: int, a: int, i: nat)
    requires Serves(s) && ObjectIs(s.h, x, a, i)
    ensures var r := Step(s, Dispose(x));
            r.Ok? && Serves(r.s) && r.s.h.role.Keys == s.h.role.Keys && Moves(s, Dispose(x), r.s)
    ensures var r := Step(s, Dispose(x)); var c := s.h.slabs[a].cache;
            && c in s.h.caches
            && r.s.h.reclaimed == s.h.reclaimed +
                 if |s.h.slabs[a].free| + 1 == Capacity(c) && s.h.caches[c].slabPg > s.h.caches[c].maxPg then 1 else 0
  {
    hide Inv, FreeObject, Extent, Live, DirectPages;
    var c := s.h.slabs[a].cache;
    assert Live(s.h, x) by { ObjectLive(s.h, x, a, i); }
    ObjectExtent(s.h, x, a, i);
    ObjectPage(s.h, a);
    FitCacheOfClass(c);
    FreeData(s.h, c, a, i);
    var h' := FreeObject(s.h, c, x).h;
    forall y ensures Live(h', y) <==> Live(s.h, y) && y != x {
      GivenBackLive(s.h, h', c, a, i, y);
    }
    forall y | Live(h', y) ensures Extent(h', y) == Extent(s.h, y) {
      GivenBackLive(s.h, h', c, a, i, y);
    }
  }

  lemma ObjectLive(h: Heap, x: int, a: int, i: nat)
    requires ObjectIs(h, x, a, i)
    ensures Live(h, x)
  {
  }

  lemma ObjectPage(h: Heap, a: int)
    requires Inv(h) && IsData(h, a)
    ensures var s := h.slabs[a]; s.cache < META && s.page in h.objSize && h.objSize[s.page] == ObjSize(s.cache)
  {
    assert SlabOk(h, a);
  }

  lemma FreeBlockStep(s: System, x: int, b: int)
    requires Serves(s) && BlockIs(s.h, x, b)
    ensures x in s.live
    ensures Step(s, Dispose(x)).Ok? <==> s.live[x] <= 0x7FFF_F000
    ensures var r := Step(s, Dispose(x)); r.Ok? ==>
              Serves(r.s) && r.s.h.role.Keys == s.h.role.Keys && r.s.h.reclaimed == s.h.reclaimed
              && r.s.h.ring == Descending(b, PagesFor(s.live[x])) + s.h.ring && Moves(s, Dispose(x), r.s)
  {
    hide Inv, Release, Extent, Live, DirectPages, SetRoles;
    assert Live(s.h, x) by { BlockIsLive(s.h, x, b); }
    BlockExtent(s.h, x, b);
    ReleaseBlock(s.h, b);
    BlockRequest(s.h, x, b, s.live[x]);
    if s.h.blocks[b] < 0x8_0000 {
      var h' := Release(s.h, x).h;
      BreakBlockKeeps(s.h, b);
      RolesChange(s.h, h', b, s.h.blocks[b], Role.Free);
      forall y ensures Live(s.h, y) <==> Live(h', y) || y == x {
        BlockLive(h', s.h, b, y);
      }
      forall y | Live(h', y) ensures y != x && Extent(h', y) == Extent(s.h, y) {
        BlockLive(h', s.h, b, y);
      }
    }
  }

  lemma BlockIsLive(h: Heap, x: int, s: int)
    requires BlockIs(h, x, s)
    ensures Live(h, x)
  {
  }

  /** The number of pages of a block tells whether its request was near the end of int. */
  lemma BlockRequest(h: Heap, x: int, s: int, size: int)
    requires Inv(h) && BlockIs(h, x, s) && 2 <= size < 0x8000_0000 && Extent(h, x) == Rounded(size)
    ensures size > 2048 && h.blocks[s] == PagesFor(size)
    ensures h.blocks[s] < 0x8_0000 <==> size <= 0x7FFF_F000
  {
    hide Inv, Extent;
    BlockExtent(h, x, s);
    FitCacheLeast(size);
  }

  lemma TakenNotDirect(h: Heap, s: int, n: nat)
    requires Inv(h) && RunAt(h.ring, s, n)
    ensures forall p :: s <= p < s + n ==> p in h.role && h.role[p] != Direct
  {
    hide SlabsOk, OwnersOk, BlocksOk, RetiredOk, DescriptorsOk, Lists;
    assert forall p :: s <= p < s + n ==> p in h.ring;
  }

  lemma RolesChange(h: Heap, h': Heap, s: int, n: nat, r: Role)
    requires (forall p :: s <= p < s + n ==> p in h.role && h.role[p] != Direct) && r != Direct
    requires h'.role == SetRoles(h.role, s, n, r)
    ensures DirectPages(h') == DirectPages(h)
  {
  }

  /** What a call may do to what callers hold: Malloc adds an address that was not held, Dispose removes the one
      named, GetPage adds a page that was not lent, PutPage removes the one named. */
  ghost predicate Moves(s: System, op: Op, t: System) {
    match op
    case Malloc(size) =>
      && size < 0x8000_0000 && Alloc(s.h, size).Done? && Grants(s, size, t, Alloc(s.h, size).addr)
      && DirectPages(t.h) == DirectPages(s.h)
    case Dispose(x) => x in s.live && t.live == s.live - {x} && DirectPages(t.h) == DirectPages(s.h)
    case GetPage =>
      && t.live == s.live && s.h.ring != [] && s.h.ring[0] !in DirectPages(s.h)
      && DirectPages(t.h) == DirectPages(s.h) + {s.h.ring[0]}
    case PutPage(p) => t.live == s.live && p in DirectPages(s.h) && DirectPages(t.h) == DirectPages(s.h) - {p}
  }

  /** Any call on a serving system leaves a serving system, with the same managed pages, and hands out only what
      nobody holds. */
  lemma StepServes(s: System, op: Op)
    requires Serves(s)
    ensures var r := Step(s, op); r.Ok? ==>
              && Serves(r.s) && r.s.h.role.Keys == s.h.role.Keys && Moves(s, op, r.s)
              && s.h.reclaimed <= r.s.h.reclaimed <= s.h.reclaimed + 1
  {
    hide Inv, Alloc, Release, TakePage, GivePage, Live, Extent, ObjectIs, BlockIs, Serves, Moves;
    match op
    case Malloc(size) =>
      if 2 <= size <= 2048 {
        MallocSmall(s, size);
      } else if 2048 < size < 0x8000_0000 {
        MallocLarge(s, size);
      } else {
        BadSize(s, size);
      }
    case Dispose(x) =>
      if x in s.live {
        LiveCases(s, x);
        if a, i: nat :| ObjectIs(s.h, x, a, i) {
          FreeObjectStep(s, x, a, i);
        } else {
          var b :| BlockIs(s.h, x, b);
          FreeBlockStep(s, x, b);
        }
      }
    case GetPage =>
      GetPageStep(s);
    case PutPage(p) =>
      PutPageStep(s, p);
  }

  lemma LiveCases(s: System, x: int)
    requires Serves(s) && x in s.live
    ensures (exists a, i: nat :: ObjectIs(s.h, x, a, i)) || (exists b :: BlockIs(s.h, x, b))
  {
    assert Live(s.h, x);
  }

  /** Sizes below 2 have no class: the kernel stops. */
  lemma BadSize(s: System, size: int)
    requires size < 2 || size >= 0x8000_0000
    ensures Step(s, Malloc(size)) == Halted
  {
    FitCacheLeast(size);
  }

  lemma GetPageStep(s: System)
    requires Serves(s)
    ensures Step(s, GetPage) == Halted <==> |s.h.ring| <= 1
    ensures var r := Step(s, GetPage); r.Ok? ==>
              && Serves(r.s) && r.s.h.role.Keys == s.h.role.Keys && r.s.h.reclaimed == s.h.reclaimed
              && r.s.h.role == s.h.role[s.h.ring[0] := Direct] && Moves(s, GetPage, r.s)
  {
    hide Inv, TakePage, Serves;
    ServesInv(s);
    TakeDirectKeeps(s.h);
    var r := TakePage(s.h, Direct);
    if r.Done? {
      SameUse(s, r.h);
    }
  }

  /** A page lent out directly goes back to the front of the ring; anything else cannot be put back. */
  lemma PutPageStep(s: System, p: int)
    requires Serves(s)
    ensures Step(s, PutPage(p)) == Halted <==> p !in s.h.role || s.h.role[p] != Direct
    ensures var r := Step(s, PutPage(p)); r.Ok? ==>
              && Serves(r.s) && r.s.h.role.Keys == s.h.role.Keys && r.s.h.reclaimed == s.h.reclaimed
              && r.s.h.ring == [p] + s.h.ring && r.s.h.role == s.h.role[p := Free] && Moves(s, PutPage(p), r.s)
  {
    hide Inv, Serves;
    if p in s.h.role && s.h.role[p] == Direct {
      ServesInv(s);
      GiveDirectKeeps(s.h, p);
      SameUse(s, GivePage(s.h, p));
    }
  }

  lemma ServesInv(s: System)
    requires Serves(s)
    ensures Inv(s.h)
  {
  }

  /** A heap with the same slabs and blocks serves the same. */
  lemma SameUse(s: System, h: Heap)
    requires Serves(s) && Inv(h) && h.slabs == s.h.slabs && h.blocks == s.h.blocks
    ensures Serves(System(h, s.live))
  {
    hide Inv, Extent;
    forall y ensures Live(h, y) <==> Live(s.h, y) {
      assert forall a, i: nat :: ObjectIs(h, y, a, i) <==> ObjectIs(s.h, y, a, i);
      assert forall b :: BlockIs(h, y, b) <==> BlockIs(s.h, y, b);
    }
    forall y | Live(s.h, y) ensures Extent(h, y) == Extent(s.h, y) {
      DirectExtent(s.h, h, y);
    }
  }

  lemma DirectExtent(h: Heap, h': Heap, y: int)
    requires Inv(h) && Inv(h') && h'.slabs == h.slabs && h'.blocks == h.blocks && Live(h, y)
    ensures Extent(h', y) == Extent(h, y)
  {
    hide Inv, Extent;
    if a, i: nat :| ObjectIs(h, y, a, i) {
      assert ObjectIs(h', y, a, i);
      SameExtent(h, h', y, a, i);
    } else {
      var b :| BlockIs(h, y, b);
      assert BlockIs(h', y, b);
      BlockExtent(h, y, b);
      BlockExtent(h', y, b);
    }
  }

  /** Every run of calls from a serving system ends in a serving system with the same managed pages. */
  lemma {:induction false} RunServes(s: System, ops: seq<Op>)
    requires Serves(s)
    ensures var r := Run(s, ops);
            r.Ok? ==> Serves(r.s) && r.s.h.role.Keys == s.h.role.Keys && s.h.reclaimed <= r.s.h.reclaimed
    decreases |ops|
  {
    hide Serves, Step;
    if ops != [] {
      StepServes(s, ops[0]);
      if Step(s, ops[0]).Ok? {
        RunServes(Step(s, ops[0]).s, ops[1..]);
      }
    }
  }

  lemma {:induction false} RunThen(s: System, ops: seq<Op>, op: Op)
    ensures Run(s, ops + [op]) == match Run(s, ops) case Ok(t) => Step(t, op) case Halted => Halted
    decreases |ops|
  {
    hide Step;
    if ops == [] {
      assert ops + [op] == [op] && [op][1..] == [];
    } else {
      assert (ops + [op])[1..] == ops[1..] + [op];
      if Step(s, ops[0]).Ok? {
        RunThen(Step(s, ops[0]).s, ops[1..], op);
      }
    }
  }

  /** Safety of whole runs, call by call: whatever came before, memory given out was held by nobody. */
  lemma RunGrants(s: System, ops: seq<Op>, size: int)
    requires Serves(s) && Run(s, ops + [Malloc(size)]).Ok?
    ensures Run(s, ops).Ok? && size < 0x8000_0000
    ensures var before, after := Run(s, ops).s, Run(s, ops + [Malloc(size)]).s;
            Alloc(before.h, size).Done? && Grants(before, size, after, Alloc(before.h, size).addr)
  {
    hide Serves, Step, Run, Grants, Alloc, DirectPages;
    RunThen(s, ops, Malloc(size));
    RunServes(s, ops);
    StepServes(Run(s, ops).s, Malloc(size));
  }

  function Count(ops: seq<Op>, disposes: bool): nat {
    if ops == [] then 0
    else (if (if disposes then ops[0].Dispose? else ops[0].Malloc?) then 1 else 0) + Count(ops[1..], disposes)
  }

  /** No address is given out twice at a time: over every run, as many are held as were given out and not yet
      given back. */
  lemma {:induction false} RunCounts(s: System, ops: seq<Op>)
    requires Serves(s) && Run(s, ops).Ok?
    ensures |Run(s, ops).s.live| + Count(ops, true) == |s.live| + Count(ops, false)
    decreases |ops|
  {
    hide Serves, Step;
    if ops != [] {
      StepServes(s, ops[0]);
      StepCounts(s, ops[0]);
      RunCounts(Step(s, ops[0]).s, ops[1..]);
    }
  }

  lemma StepCounts(s: System, op: Op)
    requires Step(s, op).Ok? && Moves(s, op, Step(s, op).s)
    ensures |Step(s, op).s.live| == |s.live| + (if op.Malloc? then 1 else 0) - (if op.Dispose? then 1 else 0)
  {
    hide Alloc, Extent, Apart, Step, DirectPages;
    match op
    case Malloc(size) => OneMore(s.live, Alloc(s.h, size).addr, size);
    case Dispose(x) => OneLess(s.live, x);
    case _ =>
  }

  lemma OneMore(m: map<int, int>, a: int, v: int)
    requires a !in m
    ensures |m[a := v]| == |m| + 1
  {
    assert m[a := v].Keys == m.Keys + {a};
  }

  lemma OneLess(m: map<int, int>, a: int)
    requires a in m
    ensures |m - {a}| == |m| - 1
  {
    OneMore(m - {a}, a, m[a]);
    assert (m - {a})[a := m[a]] == m;
  }

  /** Safety of whole runs: what callers hold at the end never overlaps. */
  lemma RunSafe(s: System, ops: seq<Op>, x: int, y: int)
    requires Serves(s) && Run(s, ops).Ok?
    requires x in Run(s, ops).s.live && y in Run(s, ops).s.live && x != y
    ensures Apart(Run(s, ops).s.h, x, y)
  {
    hide Inv, Run, Live, Extent, Apart;
    RunServes(s, ops);
    LiveApart(Run(s, ops).s.h, x, y);
  }

  /** And each range is at least as large as was asked for, and no byte of it lies on a free page or on a page of
      descriptors. */
  lemma RunHeld(s: System, ops: seq<Op>, x: int, b: int)
    requires Serves(s) && Run(s, ops).Ok?
    requires var s' := Run(s, ops).s; x in s'.live && x <= b < x + Extent(s'.h, x)
    ensures var s' := Run(s, ops).s;
            && s'.live[x] <= Extent(s'.h, x)
            && b / PAGESIZE in s'.h.role && (s'.h.role[b / PAGESIZE].DataPage? || s'.h.role[b / PAGESIZE].BlockPage?)
            && b / PAGESIZE !in s'.h.ring
  {
    hide Inv, Run, Live, Extent;
    RunServes(s, ops);
    LiveOnOwnPages(Run(s, ops).s.h, x, b);
  }

  // ----- what the invariant says of any reached heap

  ghost predicate MetaUses(h: Heap, p: int) {
    exists a :: a in h.slabs && h.slabs[a].cache == META && h.slabs[a].page == p
  }

  ghost predicate DataUses(h: Heap, p: int) {
    exists a :: IsData(h, a) && h.slabs[a].page == p
  }

  ghost predicate BlockUses(h: Heap, p: int) {
    exists s :: s in h.blocks && s <= p < s + h.blocks[s]
  }

  /** Page conservation: a managed page is on the free ring, under one meta slab, under one data slab, in
      one block, lent out directly or retired, and never two of these; as many pages are retired as data
      slabs were reclaimed. */
  lemma PageAccount(h: Heap, p: int)
    requires Inv(h) && p in h.role
    ensures h.role[p] == Free <==> p in h.ring
    ensures h.role[p] == MetaPage <==> MetaUses(h, p)
    ensures h.role[p].DataPage? <==> DataUses(h, p)
    ensures h.role[p].BlockPage? <==> BlockUses(h, p)
    ensures |RetiredPages(h.role)| == h.reclaimed
  {
    hide DescriptorsOk, Lists;
    assert OwnerOk(h, p);
    assert h.role[p] == MetaPage ==> SlabOk(h, p * PAGESIZE);
    if a :| a in h.slabs && h.slabs[a].page == p {
      assert SlabOk(h, a);
    }
    if s :| s in h.blocks && s <= p < s + h.blocks[s] {
      assert BlockOk(h, s);
    }
    assert h.role[p].DataPage? ==> IsData(h, h.role[p].slab) && h.slabs[h.role[p].slab].page == p;
  }

  /** A slab is on exactly one queue: that of its cache which matches its occupancy. */
  lemma OneQueue(h: Heap, a: int, c: nat, f: Fill)
    requires Inv(h) && a in h.slabs && c <= META
    ensures h.slabs[a].cache <= META && c in h.caches
    ensures a in Queue(h.caches[c], f) <==> c == h.slabs[a].cache && f == FillOf(c, h.slabs[a].free)
  {
    hide PagesOk, OwnersOk, BlocksOk, RetiredOk, DescriptorsOk, CountsOk;
    assert SlabOk(h, a);
    assert QueueHolds(h, c, f, []);
    assert Queued(h, a);
  }

  /** The counters of a cache: as many slabs as are queued, as many objects as are in use on them; and empty
      slabs are kept only while there are no more slabs than the limit. */
  lemma Counters(h: Heap, c: nat)
    requires Inv(h) && c <= META
    ensures c in h.caches
    ensures var k := h.caches[c];
            && k.slabPg == |k.full| + |k.half| + |k.empty|
            && k.inUse == Capacity(c) * |k.full| + Used(h.slabs, c, k.half)
            && (k.empty != [] ==> k.slabPg <= k.maxPg)
  {
    hide Base;
    assert CountOk(h, c, META, []);
    var k := h.caches[c];
    assert QueueHolds(h, c, Full, []) && QueueHolds(h, c, Empty, []);
    assert Queue(k, Full) == k.full && Queue(k, Empty) == k.empty;
    UsedUniform(h.slabs, c, k.full, 0, Capacity(c));
    UsedUniform(h.slabs, c, k.empty, Capacity(c), 0);
  }

  ghost predicate Leaves(slabs: map<int, Slab>, a: int, n: int) {
    a in slabs && |slabs[a].free| == n
  }

  lemma MulSucc(k: int, m: int)
    ensures k * (m + 1) == k * m + k
  {
  }

  lemma {:induction false} UsedUniform(slabs: map<int, Slab>, c: nat, q: seq<int>, n: int, each: int)
    requires c <= META && each == Capacity(c) - n && forall a :: a in q ==> Leaves(slabs, a, n)
    ensures Used(slabs, c, q) == each * |q|
  {
    if q != [] {
      assert Leaves(slabs, q[0], n);
      UsedUniform(slabs, c, q[1..], n, each);
      MulSucc(each, |q[1..]|);
    }
  }

  // ----- start-up

  function FreshCache(limit: nat): Cache {
    Cache([], [], [], 0, 0, limit)
  }

  /** The heap after InitSlab, over the free pages found at start-up. */
  function FreshHeap(nr: nat, ring: seq<int>, limits: seq<nat>): Heap
    requires |limits| == 9
  {
    Heap(nr, ring, map[], map[],
         map c: nat | 0 <= c <= META :: FreshCache(limits[c]),
         map[], map[], map p | p in ring :: Free, 0)
  }

  lemma FreshServes(nr: nat, ring: seq<int>, limits: seq<nat>)
    requires |limits| == 9 && Distinct(ring) && forall p :: p in ring ==> 0 < p < nr
    ensures Serves(System(FreshHeap(nr, ring, limits), map[]))
    ensures FreshHeap(nr, ring, limits).role.Keys == set p | p in ring
  {
    var h := FreshHeap(nr, ring, limits);
    assert RetiredPages(h.role) == {};
    forall c, f | 0 <= c <= META ensures QueueHolds(h, c, f, []) {
      assert Queue(h.caches[c], f) == [];
    }
    forall c | 0 <= c <= META ensures CountOk(h, c, META, []) {
    }
    forall x ensures !Live(h, x) {
    }
  }

  /** The pages 1 to n, in order. */
  function Upward(n: nat): (r: seq<int>)
    ensures |r| == n && forall i :: 0 <= i < n ==> r[i] == i + 1
  {
    seq(n, i => i + 1)
  }

  /** With 2 GB free, 0x7FFFF001 bytes can be had and never given back. */
  lemma BlockStuck(limits: seq<nat>)
    requires |limits| == 9
    ensures var s := System(FreshHeap(0x8_0001, Upward(0x8_0000), limits), map[]);
            && Serves(s) && Run(s, [Malloc(0x7FFF_F001)]).Ok?
            && PAGESIZE in Run(s, [Malloc(0x7FFF_F001)]).s.live
            && Run(s, [Malloc(0x7FFF_F001), Dispose(PAGESIZE)]) == Halted
  {
    hide Serves, Step, Inv, Alloc, AllocBlock, Moves, Upward, FirstRun;
    var ring, size := Upward(0x8_0000), 0x7FFF_F001;
    var s := System(FreshHeap(0x8_0001, ring, limits), map[]);
    UpwardRun(0x8_0000);
    FreshServes(0x8_0001, ring, limits);
    MallocLarge(s, size);
    assert PagesFor(size) == 0x8_0000;
    assert FindPages(s.h, 0x8_0000) == 1;
    var t := Step(s, Malloc(size));
    GrantedBlock(s, size);
    FreeBlockStep(t.s, PAGESIZE, 1);
    RunThen(s, [], Malloc(size));
    assert [] + [Malloc(size)] == [Malloc(size)];
    RunThen(s, [Malloc(size)], Dispose(PAGESIZE));
    assert [Malloc(size)] + [Dispose(PAGESIZE)] == [Malloc(size), Dispose(PAGESIZE)];
  }

  lemma UpwardRun(n: nat)
    requires n > 1
    ensures Distinct(Upward(n)) && (forall p :: p in Upward(n) ==> 0 < p < n + 1)
    ensures FirstRun(Upward(n), n + 1, n, 0) == 1
  {
    forall p | 1 <= p < 1 + n ensures p in Upward(n) {
      assert Upward(n)[p - 1] == p;
    }
    assert RunAt(Upward(n), 1, n) && !RunAt(Upward(n), 0, n) by {
      assert 0 !in Upward(n);
    }
  }

  lemma GrantedBlock(s: System, size: int)
    requires Serves(s) && 2048 < size < 0x8000_0000 && Step(s, Malloc(size)).Ok?
    ensures var t := Step(s, Malloc(size)).s; var b := FindPages(s.h, PagesFor(size));
            BlockIs(t.h, b * PAGESIZE, b) && b * PAGESIZE in t.live && t.live[b * PAGESIZE] == size
  {
    hide Inv, AllocBlock;
    AllocBlockKeeps(s.h, size);
  }

  // ----- the limits of AllocPage and of ReclaimEmptySlab, reached

  /** With one page free none can be had, and with two no object, though the first object's slab and descriptor
      would fit on two. */
  lemma OnePageKept(limits: seq<nat>)
    requires |limits| == 9
    ensures Step(System(FreshHeap(4, [1], limits), map[]), GetPage) == Halted
    ensures Step(System(FreshHeap(4, [1, 2], limits), map[]), Malloc(16)) == Halted
  {
    hide Serves, Step, Inv, Moves, FitCache;
    var s, t := System(FreshHeap(4, [1], limits), map[]), System(FreshHeap(4, [1, 2], limits), map[]);
    FreshServes(4, [1], limits);
    FreshServes(4, [1, 2], limits);
    GetPageStep(s);
    MallocSmall(t, 16);
    FreshNeedsTwo(4, [1, 2], limits, FitCache(16).c);
  }

  lemma FreshNeedsTwo(nr: nat, ring: seq<int>, limits: seq<nat>, c: nat)
    requires |limits| == 9 && c < META
    ensures var h := FreshHeap(nr, ring, limits); c in h.caches && META in h.caches && PagesNeeded(h, c) == 2
  {
  }

  /** A run that loses a page: with no empty slab to be kept, one object of 2048 bytes is had and given back, and
      its page is neither free nor used again. */
  lemma PageRetired(limits: seq<nat>)
    requires |limits| == 9 && limits[7] == 0
    ensures var s := System(FreshHeap(5, [1, 2, 3, 4], limits), map[]);
            var t := Step(s, Malloc(2048));
            && t.Ok? && Alloc(s.h, 2048).Done?
            && var u := Step(t.s, Dispose(Alloc(s.h, 2048).addr));
               u.Ok? && u.s.h.reclaimed == 1 && |RetiredPages(u.s.h.role)| == 1
  {
    hide Serves, Step, Inv, Moves, Alloc, Allocate, PagesNeeded, Extent, Live, RetiredPages, ObjectIs, SameData;
    var s := System(FreshHeap(5, [1, 2, 3, 4], limits), map[]);
    FreshServes(5, [1, 2, 3, 4], limits);
    MallocSmall(s, 2048);
    LargestClass();
    FreshNeedsTwo(5, [1, 2, 3, 4], limits, 7);
    ServesInv(s);
    FirstStep(s);
    var a, i := FirstObject(s.h, limits);
    var t, x := Step(s, Malloc(2048)).s, Alloc(s.h, 2048).addr;
    OneSlab(t.h, 7, a);
    FreeObjectStep(t, x, a, i);
    ServesInv(Step(t, Dispose(x)).s);
    RetiredCount(Step(t, Dispose(x)).s.h);
  }

  lemma LargestClass()
    ensures FitCache(2048) == Class(7)
  {
    FitCacheOfClass(7);
  }

  lemma FirstStep(s: System)
    requires Step(s, Malloc(2048)).Ok?
    ensures Alloc(s.h, 2048).Done? && Step(s, Malloc(2048)).s.h == Alloc(s.h, 2048).h
  {
    hide Alloc;
  }

  lemma FirstObject(h: Heap, limits: seq<nat>) returns (a: int, i: nat)
    requires |limits| == 9 && h == FreshHeap(5, [1, 2, 3, 4], limits) && Inv(h) && Alloc(h, 2048).Done?
    ensures var r := Alloc(h, 2048); ObjectIs(r.h, r.addr, a, i) && Inv(r.h) && a in r.h.slabs
    ensures var h' := Alloc(h, 2048).h; h'.slabs[a].cache == 7 && |h'.slabs[a].free| + 1 == Capacity(7)
    ensures var h' := Alloc(h, 2048).h; h'.reclaimed == 0 && 7 in h'.caches && h'.caches[7].maxPg == limits[7]
  {
    hide Inv, Allocate, PagesNeeded;
    LargestClass();
    AllocateData(h, 7);
    var r := Allocate(h, 7);
    a, i :| Taken(h, r.h, 7, a, i) && r.addr == ObjectAt(r.h, a, i);
    TakenObject(h, r.h, 7, a, i, a, i);
    FreshSlotsOk(7);
  }

  /** A cache with a slab has at least one. */
  lemma OneSlab(h: Heap, c: nat, a: int)
    requires Inv(h) && a in h.slabs && h.slabs[a].cache == c && c <= META
    ensures c in h.caches && h.caches[c].slabPg > 0
  {
    hide Inv;
    Counters(h, c);
    OneQueue(h, a, c, FillOf(c, h.slabs[a].free));
  }

  lemma RetiredCount(h: Heap)
    requires Inv(h)
    ensures |RetiredPages(h.role)| == h.reclaimed
  {
  }
}
