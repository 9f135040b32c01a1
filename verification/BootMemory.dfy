/** kern/mm/allocator.cc, MemPages::Init and CollectAvailable: which pages are free after start-up. */
module BootMemory {
  import opened Arithmetic
  import opened Rings
  import opened PageAllocator

  const AVAILABLE: nat := 1
  /** sizeof(Page), and the pages skipped for the boot loader's data. */
  const PAGE_STRUCT_SIZE: nat := 48
  const SKIP_PAGES: nat := 128

  datatype MmapEntry = MmapEntry(addr: nat, len: nat, kind: nat)

  /** An entry whose pages the allocator manages. */
  predicate Managed(e: MmapEntry) {
    e.kind == AVAILABLE && e.addr != 0
  }

  /** The pages the inner loop goes through for an entry: one for every PAGESIZE bytes, from the page that holds
      its first byte on. */
  function FirstPage(e: MmapEntry): nat {
    e.addr / PAGESIZE
  }

  function PageCount(e: MmapEntry): nat {
    (e.len + PAGESIZE - 1) / PAGESIZE
  }

  predicate Visits(e: MmapEntry, x: int) {
    FirstPage(e) <= x < FirstPage(e) + PageCount(e)
  }

  /** The value of paddr when page x is visited. */
  function VisitedAt(e: MmapEntry, x: int): int {
    x * PAGESIZE + e.addr % PAGESIZE
  }

  /** No page is visited twice, and no address computation wraps around.  Entries need not start on a page, and
      entries that are not managed may be anywhere. */
  ghost predicate WellFormed(entries: seq<MmapEntry>) {
    && (forall i :: 0 <= i < |entries| ==> entries[i].addr + entries[i].len + PAGESIZE < 0x1_0000_0000_0000_0000)
    && (forall i, j, x :: 0 <= i < j < |entries| && Managed(entries[i]) && Managed(entries[j]) ==>
          !(Visits(entries[i], x) && Visits(entries[j], x)))
  }

  /** What a boot loader usually gives: managed entries that start on a page, and no overlap. */
  ghost predicate Ordinary(entries: seq<MmapEntry>) {
    && (forall i :: 0 <= i < |entries| && Managed(entries[i]) ==> entries[i].addr % PAGESIZE == 0)
    && (forall i :: 0 <= i < |entries| ==> entries[i].addr + entries[i].len + PAGESIZE < 0x1_0000_0000_0000_0000)
    && (forall i, j :: 0 <= i < j < |entries| ==>
          entries[i].addr + entries[i].len <= entries[j].addr || entries[j].addr + entries[j].len <= entries[i].addr)
  }

  /** On an entry that starts on a page, the pages visited are those that start inside it. */
  lemma VisitsAligned(e: MmapEntry, x: int)
    requires e.addr % PAGESIZE == 0
    ensures Visits(e, x) <==> e.addr <= x * PAGESIZE < e.addr + e.len
  {
    VisitedInside(e, x);
  }

  lemma VisitedInside(e: MmapEntry, x: int)
    ensures Visits(e, x) <==> e.addr <= VisitedAt(e, x) < e.addr + e.len
  {
    var a, o := e.addr / PAGESIZE, e.addr % PAGESIZE;
    var n, r := (e.len + PAGESIZE - 1) / PAGESIZE, (e.len + PAGESIZE - 1) % PAGESIZE;
    assert e.addr == a * PAGESIZE + o && e.len + PAGESIZE - 1 == n * PAGESIZE + r;
  }

  lemma OrdinaryWellFormed(entries: seq<MmapEntry>)
    requires Ordinary(entries)
    ensures WellFormed(entries)
  {
    forall i, j, x | 0 <= i < j < |entries| && Managed(entries[i]) && Managed(entries[j])
      ensures !(Visits(entries[i], x) && Visits(entries[j], x))
    {
      VisitsAligned(entries[i], x);
      VisitsAligned(entries[j], x);
    }
  }

  /** max_kern_mem: the highest end of a managed entry. */
  function MaxEnd(entries: seq<MmapEntry>): (m: nat)
    ensures forall i :: 0 <= i < |entries| && Managed(entries[i]) ==> entries[i].addr + entries[i].len <= m
    ensures m == 0 || exists i :: 0 <= i < |entries| && Managed(entries[i]) && entries[i].addr + entries[i].len == m
  {
    if entries == [] then 0
    else
      var e, m := entries[|entries| - 1], MaxEnd(entries[..|entries| - 1]);
      assert forall i :: 0 <= i < |entries| - 1 ==> entries[..|entries| - 1][i] == entries[i];
      if Managed(e) && e.addr + e.len > m then e.addr + e.len else m
  }

  /** Init's loop over the memory map. */
  method ComputeMaxEnd(entries: seq<MmapEntry>) returns (m: nat)
    ensures m == MaxEnd(entries)
  {
    m := 0;
    for i := 0 to |entries|
      invariant m == MaxEnd(entries[..i])
    {
      assert entries[..i + 1][..i] == entries[..i];
      if entries[i].kind == AVAILABLE && entries[i].addr != 0 {
        var kernMem := entries[i].addr + entries[i].len;
        m := if m > kernMem then m else kernMem;
      }
    }
    assert entries[..|entries|] == entries;
  }

  /** The usable pages met from address a on, in order: those whose address is not in [lo, hi). */
  function Usable(a: nat, end: nat, lo: nat, hi: nat): (r: seq<int>)
    decreases end - a
  {
    if a >= end then []
    else (if lo <= a < hi then [] else [a / PAGESIZE]) + Usable(a + PAGESIZE, end, lo, hi)
  }

  lemma {:induction false} UsablePages(a: nat, end: nat, lo: nat, hi: nat, x: int)
    ensures x in Usable(a, end, lo, hi) <==>
            var at := x * PAGESIZE + a % PAGESIZE; a / PAGESIZE <= x && at < end && !(lo <= at < hi)
    decreases end - a
  {
    if a < end {
      UsablePages(a + PAGESIZE, end, lo, hi, x);
      DivMod(a + PAGESIZE, PAGESIZE, a / PAGESIZE + 1, a % PAGESIZE);
    }
  }

  function Collected(entries: seq<MmapEntry>, lo: nat, hi: nat): (r: seq<int>) {
    if entries == [] then []
    else
      var e := entries[|entries| - 1];
      Collected(entries[..|entries| - 1], lo, hi) + (if Managed(e) then Usable(e.addr, e.addr + e.len, lo, hi) else [])
  }

  /** Pages of the managed entries among the first n. */
  ghost predicate Seen(entries: seq<MmapEntry>, n: nat, x: int)
    requires n <= |entries|
  {
    exists i :: 0 <= i < n && Managed(entries[i]) && Visits(entries[i], x)
  }

  /** Page x is visited in entry e, at an address outside [lo, hi). */
  predicate Keeps(e: MmapEntry, x: int, lo: nat, hi: nat) {
    Managed(e) && Visits(e, x) && !(lo <= VisitedAt(e, x) < hi)
  }

  /** The collected pages are exactly those of managed entries that are not visited in [lo, hi). */
  lemma {:induction false} CollectedPages(entries: seq<MmapEntry>, n: nat, lo: nat, hi: nat, x: int)
    requires n <= |entries|
    ensures x in Collected(entries[..n], lo, hi) <==> exists i :: 0 <= i < n && Keeps(entries[i], x, lo, hi)
  {
    if n > 0 {
      var e := entries[n - 1];
      CollectedPages(entries, n - 1, lo, hi, x);
      assert entries[..n][..n - 1] == entries[..n - 1];
      EntryPages(e, lo, hi, x);
      assert (exists i :: 0 <= i < n && Keeps(entries[i], x, lo, hi)) <==>
             (exists i :: 0 <= i < n - 1 && Keeps(entries[i], x, lo, hi)) || Keeps(e, x, lo, hi);
    }
  }

  /** Pages are collected in map order: those of an earlier entry first, and those of one entry upwards. */
  lemma {:induction false} CollectedOrder(entries: seq<MmapEntry>, lo: nat, hi: nat, k: nat, m: nat, i: nat, j: nat)
    requires WellFormed(entries) && i < |entries| && j < |entries| && k < m < |Collected(entries, lo, hi)|
    requires Keeps(entries[i], Collected(entries, lo, hi)[k], lo, hi)
    requires Keeps(entries[j], Collected(entries, lo, hi)[m], lo, hi)
    ensures i < j || (i == j && Collected(entries, lo, hi)[k] < Collected(entries, lo, hi)[m])
    decreases |entries|
  {
    hide Visits, VisitedAt, WellFormed, Keeps, Usable;
    var n := |entries| - 1;
    var e, init := entries[n], entries[..n];
    var old' := Collected(init, lo, hi);
    var new' := if Managed(e) then Usable(e.addr, e.addr + e.len, lo, hi) else [];
    assert Collected(entries, lo, hi) == old' + new';
    if m < |old'| {
      assert old'[k] in old' && old'[m] in old';
      OnlyFrom(entries, n, lo, hi, old'[k], i);
      OnlyFrom(entries, n, lo, hi, old'[m], j);
      WellFormedPrefix(entries, n);
      CollectedOrder(init, lo, hi, k, m, i, j);
    } else {
      assert new'[m - |old'|] in new';
      FromLast(entries, lo, hi, new'[m - |old'|], j);
      if k < |old'| {
        assert old'[k] in old';
        OnlyFrom(entries, n, lo, hi, old'[k], i);
      } else {
        assert new'[k - |old'|] in new';
        FromLast(entries, lo, hi, new'[k - |old'|], i);
        UsableUpward(e.addr, e.addr + e.len, lo, hi, k - |old'|, m - |old'|);
      }
    }
  }

  lemma WellFormedPrefix(entries: seq<MmapEntry>, n: nat)
    requires WellFormed(entries) && n <= |entries|
    ensures WellFormed(entries[..n])
  {
  }

  /** A page collected from the first n entries is visited by none of the others. */
  lemma OnlyFrom(entries: seq<MmapEntry>, n: nat, lo: nat, hi: nat, x: int, i: nat)
    requires WellFormed(entries) && n <= |entries| && i < |entries|
    requires x in Collected(entries[..n], lo, hi) && Keeps(entries[i], x, lo, hi)
    ensures i < n
  {
    hide Visits, VisitedAt, Collected;
    CollectedPages(entries, n, lo, hi, x);
    var k :| 0 <= k < n && Keeps(entries[k], x, lo, hi);
  }

  lemma FromLast(entries: seq<MmapEntry>, lo: nat, hi: nat, x: int, i: nat)
    requires WellFormed(entries) && i < |entries| && Keeps(entries[i], x, lo, hi)
    requires var e := entries[|entries| - 1]; Managed(e) && x in Usable(e.addr, e.addr + e.len, lo, hi)
    ensures i == |entries| - 1
  {
    hide Visits, VisitedAt, Usable;
    EntryPages(entries[|entries| - 1], lo, hi, x);
  }

  lemma {:induction false} UsableUpward(a: nat, end: nat, lo: nat, hi: nat, k: nat, m: nat)
    requires k < m < |Usable(a, end, lo, hi)|
    ensures Usable(a, end, lo, hi)[k] < Usable(a, end, lo, hi)[m]
    decreases end - a
  {
    var rest := Usable(a + PAGESIZE, end, lo, hi);
    if lo <= a < hi {
      UsableUpward(a + PAGESIZE, end, lo, hi, k, m);
    } else if k == 0 {
      assert rest[m - 1] in rest;
      UsablePages(a + PAGESIZE, end, lo, hi, rest[m - 1]);
    } else {
      UsableUpward(a + PAGESIZE, end, lo, hi, k - 1, m - 1);
    }
  }

  lemma EntryPages(e: MmapEntry, lo: nat, hi: nat, x: int)
    ensures x in Usable(e.addr, e.addr + e.len, lo, hi) <==> Visits(e, x) && !(lo <= VisitedAt(e, x) < hi)
  {
    hide Usable;
    UsablePages(e.addr, e.addr + e.len, lo, hi, x);
    VisitedInside(e, x);
  }

  /** Page x and the addresses [lo, hi) have a byte in common. */
  predicate Meets(x: int, lo: nat, hi: nat) {
    lo < hi && x * PAGESIZE < hi && lo < x * PAGESIZE + PAGESIZE
  }

  /** The code tests the address at which it visits a page, not the page.  So a page that is kept meets the range in
      use exactly when the range ends inside it, at or before the visited address. */
  lemma MeetsIff(e: MmapEntry, x: int, lo: nat, hi: nat)
    requires Keeps(e, x, lo, hi) && lo % PAGESIZE == 0 && lo < hi
    ensures Meets(x, lo, hi) <==> x == hi / PAGESIZE && 0 < hi % PAGESIZE <= e.addr % PAGESIZE && lo <= x * PAGESIZE
  {
    hide Visits;
    var a, b, c, o := lo / PAGESIZE, hi / PAGESIZE, hi % PAGESIZE, e.addr % PAGESIZE;
    assert lo == a * PAGESIZE && hi == b * PAGESIZE + c;
  }

  /** Entry e makes the allocator keep the page in which the range in use ends. */
  predicate Straddles(e: MmapEntry, lo: nat, hi: nat) {
    && Managed(e) && Visits(e, hi / PAGESIZE)
    && 0 < hi % PAGESIZE <= e.addr % PAGESIZE && lo <= hi / PAGESIZE * PAGESIZE
  }

  /** No free page meets the kernel image, the boot data or the page structs, if and only if no managed entry
      straddles their end. */
  lemma OffKernelIff(entries: seq<MmapEntry>, lo: nat, hi: nat)
    requires lo % PAGESIZE == 0
    ensures (forall x :: x in Collected(entries, lo, hi) ==> !Meets(x, lo, hi)) <==>
            (forall i :: 0 <= i < |entries| ==> !Straddles(entries[i], lo, hi))
  {
    hide Visits, Collected;
    assert entries[..|entries|] == entries;
    forall x | x in Collected(entries, lo, hi) && Meets(x, lo, hi)
      ensures exists i :: 0 <= i < |entries| && Straddles(entries[i], lo, hi)
    {
      CollectedPages(entries, |entries|, lo, hi, x);
      var i :| 0 <= i < |entries| && Keeps(entries[i], x, lo, hi);
      MeetsIff(entries[i], x, lo, hi);
      assert Straddles(entries[i], lo, hi);
    }
    forall i | 0 <= i < |entries| && Straddles(entries[i], lo, hi)
      ensures exists x :: x in Collected(entries, lo, hi) && Meets(x, lo, hi)
    {
      StraddleKept(entries[i], lo, hi);
      assert lo < hi;
      CollectedPages(entries, |entries|, lo, hi, hi / PAGESIZE);
      MeetsIff(entries[i], hi / PAGESIZE, lo, hi);
    }
  }

  lemma StraddleKept(e: MmapEntry, lo: nat, hi: nat)
    requires Straddles(e, lo, hi)
    ensures Keeps(e, hi / PAGESIZE, lo, hi)
  {
    hide Visits;
    assert hi == hi / PAGESIZE * PAGESIZE + hi % PAGESIZE;
  }

  /** Where managed entries start on a page, none does. */
  lemma AlignedOffKernel(entries: seq<MmapEntry>, lo: nat, hi: nat)
    requires forall i :: 0 <= i < |entries| && Managed(entries[i]) ==> entries[i].addr % PAGESIZE == 0
    requires lo % PAGESIZE == 0
    ensures forall x :: x in Collected(entries, lo, hi) ==> !Meets(x, lo, hi)
  {
    hide Collected, Visits, Meets;
    OffKernelIff(entries, lo, hi);
  }

  /** A map on which it goes wrong: one entry that starts half-way into a page.  Page 0x20F, whose first 0x210 bytes
      are page structs, is free. */
  lemma StructsGivenOut()
    ensures var entries := [MmapEntry(0x10_0800, 0x40_B000, AVAILABLE)];
            var lo, hi := KernelStart(0x10_0000), KernelEnd(entries, 0x18_0000);
            && WellFormed(entries) && AllFit(entries, MaxEnd(entries) / PAGESIZE)
            && lo == 0x10_0000 && hi == 0x20_F210 && 0x20F in Collected(entries, lo, hi) && Meets(0x20F, lo, hi)
  {
    hide Collected;
    var e := MmapEntry(0x10_0800, 0x40_B000, AVAILABLE);
    var entries := [e];
    OneEntryEnd(e);
    var lo, hi := KernelStart(0x10_0000), KernelEnd(entries, 0x18_0000);
    assert lo == 0x10_0000 && hi == 0x20_F210;
    assert Straddles(e, lo, hi);
    StraddleKept(e, lo, hi);
    assert entries[..|entries|] == entries && Keeps(entries[0], 0x20F, lo, hi);
    CollectedPages(entries, 1, lo, hi, 0x20F);
  }

  lemma OneEntryEnd(e: MmapEntry)
    requires Managed(e)
    ensures MaxEnd([e]) == e.addr + e.len
  {
    assert [e][..0] == [] && MaxEnd([]) == 0;
  }

  /** The pages visited lie inside their entry if and only if it starts and ends on a page boundary. */
  lemma InsideIff(e: MmapEntry)
    requires e.len > 0
    ensures (forall x :: Visits(e, x) ==> Inside(e, x)) <==> e.addr % PAGESIZE == 0 && e.len % PAGESIZE == 0
  {
    var a, o := e.addr / PAGESIZE, e.addr % PAGESIZE;
    var n, r := (e.len + PAGESIZE - 1) / PAGESIZE, (e.len + PAGESIZE - 1) % PAGESIZE;
    assert e.addr == a * PAGESIZE + o && e.len + PAGESIZE - 1 == n * PAGESIZE + r;
    LastPartial(e.len);
    if e.addr % PAGESIZE == 0 && e.len % PAGESIZE == 0 {
    } else if o != 0 {
      assert Visits(e, a) && !Inside(e, a);
    } else {
      assert Visits(e, a + n - 1) && !Inside(e, a + n - 1);
    }
  }

  lemma LastPartial(len: nat)
    ensures len % PAGESIZE == 0 <==> (len + PAGESIZE - 1) % PAGESIZE == PAGESIZE - 1
  {
    var q, r := len / PAGESIZE, len % PAGESIZE;
    if r == 0 {
      DivMod(len + PAGESIZE - 1, PAGESIZE, q, PAGESIZE - 1);
    } else {
      DivMod(len + PAGESIZE - 1, PAGESIZE, q + 1, r - 1);
    }
  }

  /** Page x is part of entry e. */
  predicate Inside(e: MmapEntry, x: int) {
    e.addr <= x * PAGESIZE && x * PAGESIZE + PAGESIZE <= e.addr + e.len
  }

  /** A map on which half of a free page is reserved memory: page 0x101 belongs to two entries. */
  lemma SharedPage(lo: nat, hi: nat)
    requires !(lo <= 0x10_1000 < hi)
    ensures var entries := [MmapEntry(0x10_0000, 0x1800, AVAILABLE), MmapEntry(0x10_1800, 0x800, 2),
                            MmapEntry(0x10_2000, 0x1000, AVAILABLE)];
            && Ordinary(entries) && MaxEnd(entries) % PAGESIZE == 0
            && 0x101 in Collected(entries, lo, hi) && Meets(0x101, entries[1].addr, entries[1].addr + entries[1].len)
  {
    hide Collected;
    var entries := [MmapEntry(0x10_0000, 0x1800, AVAILABLE), MmapEntry(0x10_1800, 0x800, 2),
                    MmapEntry(0x10_2000, 0x1000, AVAILABLE)];
    assert entries[..2] == [entries[0], entries[1]] && entries[..2][..1] == [entries[0]];
    OneEntryEnd(entries[0]);
    assert MaxEnd(entries) == 0x10_3000;
    assert entries[..|entries|] == entries && Keeps(entries[0], 0x101, lo, hi);
    CollectedPages(entries, 3, lo, hi, 0x101);
  }

  /** PG and PGALIGN. */
  function PageOf(a: nat): (r: nat)
    ensures r % PAGESIZE == 0 && r <= a < r + PAGESIZE
  {
    a / PAGESIZE * PAGESIZE
  }

  function PageAlign(a: nat): (r: nat)
    ensures r % PAGESIZE == 0 && (a == 0 ==> r == 0) && a <= r < a + PAGESIZE
  {
    if a == 0 then 0 else PageOf(a - 1) + PAGESIZE
  }

  /** kstart_pg, kend_pg, where the page structs begin, and where they end. */
  function KernelStart(loadStart: nat): (lo: nat)
    ensures lo % PAGESIZE == 0 && lo <= loadStart < lo + PAGESIZE
  {
    PageOf(loadStart)
  }

  function StructBase(bssEnd: nat): (base: nat)
    ensures base % PAGESIZE == 0 && bssEnd <= base - 128 * 4096 < bssEnd + 4096
  {
    PageAlign(bssEnd) + SKIP_PAGES * PAGESIZE
  }

  function KernelEnd(entries: seq<MmapEntry>, bssEnd: nat): nat {
    StructBase(bssEnd) + PAGE_STRUCT_SIZE * (MaxEnd(entries) / PAGESIZE)
  }

  /** Byte b belongs to the kernel image or its bss, to the boot loader's 128 pages, or to one of nr page structs of
      48 bytes. */
  predicate InImage(b: int, loadStart: nat, bssEnd: nat) {
    loadStart <= b < bssEnd
  }

  predicate InBootData(b: int, base: nat) {
    base - 128 * 4096 <= b < base
  }

  ghost predicate InStruct(b: int, base: nat, i: nat) {
    base + 48 * i <= b < base + 48 * i + 48
  }

  ghost predicate InUse(b: int, loadStart: nat, bssEnd: nat, nr: nat) {
    || InImage(b, loadStart, bssEnd) || InBootData(b, StructBase(bssEnd))
    || exists i: nat :: i < nr && InStruct(b, StructBase(bssEnd), i)
  }

  /** The range the code keeps out is those bytes, and what the rounding to pages puts before and between them. */
  lemma RangeInUse(entries: seq<MmapEntry>, loadStart: nat, bssEnd: nat, b: int)
    requires loadStart <= bssEnd
    ensures KernelStart(loadStart) <= b < KernelEnd(entries, bssEnd) <==>
            || InUse(b, loadStart, bssEnd, MaxEnd(entries) / PAGESIZE)
            || KernelStart(loadStart) <= b < loadStart || bssEnd <= b < StructBase(bssEnd) - 128 * 4096
  {
    hide MaxEnd;
    var base, nr := StructBase(bssEnd), MaxEnd(entries) / PAGESIZE;
    if base <= b < base + 48 * nr {
      var i := (b - base) / 48;
      assert b - base == 48 * i + (b - base) % 48;
      assert InStruct(b, base, i);
    }
    if i: nat :| i < nr && InStruct(b, base, i) {
      assert 48 * i + 48 <= 48 * nr;
    }
  }

  /** Page x has a byte in use. */
  ghost predicate HoldsUsed(x: int, loadStart: nat, bssEnd: nat, nr: nat) {
    exists b :: x * PAGESIZE <= b < x * PAGESIZE + PAGESIZE && InUse(b, loadStart, bssEnd, nr)
  }

  lemma OffRangeUnused(entries: seq<MmapEntry>, loadStart: nat, bssEnd: nat, x: int)
    requires loadStart <= bssEnd && !Meets(x, KernelStart(loadStart), KernelEnd(entries, bssEnd))
    ensures !HoldsUsed(x, loadStart, bssEnd, MaxEnd(entries) / PAGESIZE)
  {
    hide MaxEnd, InUse;
    if b :| x * PAGESIZE <= b < x * PAGESIZE + PAGESIZE && InUse(b, loadStart, bssEnd, MaxEnd(entries) / PAGESIZE) {
      RangeInUse(entries, loadStart, bssEnd, b);
    }
  }

  /** Page x has a struct, and the struct holds the page's address. */
  ghost predicate Addressed(mp: MemPages, x: int)
    reads mp, mp.structs
  {
    0 <= x < mp.structs.Length && mp.structs[x].phyaddr == x * PAGESIZE
  }

  /** Every page visited in e has a page struct. */
  predicate Fits(e: MmapEntry, nr: nat) {
    e.len == 0 || FirstPage(e) + PageCount(e) <= nr
  }

  ghost predicate AllFit(entries: seq<MmapEntry>, nr: nat) {
    forall i :: 0 <= i < |entries| && Managed(entries[i]) ==> Fits(entries[i], nr)
  }

  /** One turn of the inner loop: record the address, and put the page on the ring unless it is in use. */
  method CollectPage(mp: MemPages, paddr: nat, lo: nat, hi: nat, last: int) returns (last': int)
    requires mp.Valid() && paddr / PAGESIZE < mp.structs.Length && paddr / PAGESIZE !in mp.ring
    requires last == if mp.ring == [] then HEAD else mp.ring[|mp.ring| - 1]
    modifies mp, mp.structs
    ensures mp.Valid()
    ensures mp.ring == old(mp.ring) + if lo <= paddr < hi then [] else [paddr / PAGESIZE]
    ensures last' == if mp.ring == [] then HEAD else mp.ring[|mp.ring| - 1]
    ensures Addressed(mp, paddr / PAGESIZE) && forall y :: old(Addressed(mp, y)) ==> Addressed(mp, y)
  {
    last' := last;
    var x := paddr / PAGESIZE;
    mp.SetPhysical(x, PageOf(paddr));
    if !(lo <= paddr < hi) {
      mp.Append(x, last);
      last' := x;
    }
  }

  /** The inner loop of CollectAvailable over one entry: stops when the index assertion trips. */
  method CollectEntry(mp: MemPages, e: MmapEntry, lo: nat, hi: nat, last: int) returns (ok: bool, last': int)
    requires mp.Valid()
    requires last == if mp.ring == [] then HEAD else mp.ring[|mp.ring| - 1]
    requires forall x :: x in mp.ring ==> !Visits(e, x)
    modifies mp, mp.structs
    ensures mp.Valid()
    ensures ok <==> Fits(e, mp.structs.Length)
    ensures ok ==> mp.ring == old(mp.ring) + Usable(e.addr, e.addr + e.len, lo, hi)
    ensures last' == if mp.ring == [] then HEAD else mp.ring[|mp.ring| - 1]
    ensures ok ==> forall y :: Visits(e, y) || old(Addressed(mp, y)) ==> Addressed(mp, y)
  {
    hide IsRing, MemPages.Valid, Visits, Usable;
    last' := last;
    var paddr, end := e.addr, e.addr + e.len;
    ghost var x := FirstPage(e);
    Walked(e, x);
    while paddr < end
      invariant FirstPage(e) <= x && paddr == VisitedAt(e, x) && x == paddr / PAGESIZE
      invariant (x == FirstPage(e) || x <= mp.structs.Length) && x <= FirstPage(e) + PageCount(e)
      invariant paddr < end <==> x < FirstPage(e) + PageCount(e)
      invariant mp.Valid()
      invariant last' == if mp.ring == [] then HEAD else mp.ring[|mp.ring| - 1]
      invariant mp.ring + Usable(paddr, end, lo, hi) == old(mp.ring) + Usable(e.addr, end, lo, hi)
      invariant forall y :: y in mp.ring ==> y < x || !Visits(e, y)
      invariant forall y :: FirstPage(e) <= y < x || old(Addressed(mp, y)) ==> Addressed(mp, y)
      decreases end - paddr
    {
      if paddr / PAGESIZE >= mp.structs.Length {
        return false, last';
      }
      Walked(e, x);
      Walked(e, x + 1);
      UsableNext(mp.ring, paddr, end, lo, hi);
      last' := CollectPage(mp, paddr, lo, hi, last');
      paddr, x := paddr + PAGESIZE, x + 1;
    }
    UsableEnd(paddr, end, lo, hi);
    VisitsDone(e);
    ok := true;
  }

  /** Where the loop is when it comes to page x. */
  lemma Walked(e: MmapEntry, x: int)
    requires FirstPage(e) <= x <= FirstPage(e) + PageCount(e)
    ensures VisitedAt(e, x) < e.addr + e.len <==> x < FirstPage(e) + PageCount(e)
    ensures Visits(e, x) <==> x < FirstPage(e) + PageCount(e)
    ensures VisitedAt(e, x) / PAGESIZE == x && VisitedAt(e, x) >= 0
    ensures x == FirstPage(e) ==> VisitedAt(e, x) == e.addr
  {
    VisitedInside(e, x);
    DivMod(VisitedAt(e, x), PAGESIZE, x, e.addr % PAGESIZE);
  }

  lemma VisitsDone(e: MmapEntry)
    ensures forall y :: Visits(e, y) <==> FirstPage(e) <= y < FirstPage(e) + PageCount(e)
    ensures e.len == 0 <==> PageCount(e) == 0
  {
  }

  lemma UsableNext(ring: seq<int>, a: nat, end: nat, lo: nat, hi: nat)
    requires a < end
    ensures ring + Usable(a, end, lo, hi) ==
            ring + (if lo <= a < hi then [] else [a / PAGESIZE]) + Usable(a + PAGESIZE, end, lo, hi)
  {
  }

  lemma UsableEnd(a: nat, end: nat, lo: nat, hi: nat)
    requires a >= end
    ensures Usable(a, end, lo, hi) == []
  {
  }

  /** CollectAvailable's loop over the map. */
  method CollectAvailable(mp: MemPages, entries: seq<MmapEntry>, lo: nat, hi: nat) returns (ok: bool)
    requires WellFormed(entries)
    requires mp.Valid() && mp.ring == []
    modifies mp, mp.structs
    ensures ok <==> AllFit(entries, mp.structs.Length)
    ensures ok ==> mp.Valid() && mp.ring == Collected(entries, lo, hi)
    ensures ok ==> forall x :: Seen(entries, |entries|, x) ==> Addressed(mp, x)
  {
    hide IsRing, MemPages.Valid, Usable, Visits, Fits;
    var last := HEAD;
    for i := 0 to |entries|
      invariant mp.Valid()
      invariant last == if mp.ring == [] then HEAD else mp.ring[|mp.ring| - 1]
      invariant mp.ring == Collected(entries[..i], lo, hi)
      invariant forall j :: 0 <= j < i && Managed(entries[j]) ==> Fits(entries[j], mp.structs.Length)
      invariant forall x :: Seen(entries, i, x) ==> Addressed(mp, x)
    {
      assert entries[..i + 1][..i] == entries[..i];
      if entries[i].kind == AVAILABLE && entries[i].addr != 0 {
        NotYetCollected(entries, i, lo, hi);
        var good;
        good, last := CollectEntry(mp, entries[i], lo, hi, last);
        if !good {
          return false;
        }
      }
    }
    assert entries[..|entries|] == entries;
    ok := true;
  }

  lemma NotYetCollected(entries: seq<MmapEntry>, i: nat, lo: nat, hi: nat)
    requires WellFormed(entries) && i < |entries|
    ensures Managed(entries[i]) ==> forall x :: x in Collected(entries[..i], lo, hi) ==> !Visits(entries[i], x)
  {
    hide Visits, Collected;
    forall x | Managed(entries[i]) && x in Collected(entries[..i], lo, hi) ensures !Visits(entries[i], x) {
      CollectedPages(entries, i, lo, hi, x);
    }
  }

  /** On an ordinary map the index assertion holds for every page exactly when the highest end is a page
      boundary. */
  lemma IndexAssertion(entries: seq<MmapEntry>)
    requires Ordinary(entries)
    ensures AllFit(entries, MaxEnd(entries) / PAGESIZE) <==> MaxEnd(entries) % PAGESIZE == 0
  {
    hide Fits;
    var m := MaxEnd(entries);
    if m % PAGESIZE != 0 {
      var i :| 0 <= i < |entries| && Managed(entries[i]) && entries[i].addr + entries[i].len == m;
      LastPage(entries[i], m);
    } else {
      forall i | 0 <= i < |entries| && Managed(entries[i]) ensures Fits(entries[i], m / PAGESIZE) {
        LastPage(entries[i], m);
      }
    }
  }

  /** A map that trips it: one entry whose last page is partial, so that the page has no struct. */
  lemma IndexTrips()
    ensures var entries := [MmapEntry(0x10_0000, 0x1800, AVAILABLE)];
            Ordinary(entries) && MaxEnd(entries) == 0x10_1800 && !AllFit(entries, MaxEnd(entries) / PAGESIZE)
  {
    var e := MmapEntry(0x10_0000, 0x1800, AVAILABLE);
    var entries := [e];
    assert entries[..0] == [] && MaxEnd([]) == 0;
    assert entries[0] == e && Managed(e) && !Fits(e, MaxEnd(entries) / PAGESIZE);
  }

  lemma LastPage(e: MmapEntry, m: nat)
    requires e.addr % PAGESIZE == 0 && e.addr + e.len <= m
    ensures m % PAGESIZE == 0 ==> Fits(e, m / PAGESIZE)
    ensures m % PAGESIZE != 0 && e.addr + e.len == m ==> !Fits(e, m / PAGESIZE)
  {
    var a, k := e.addr / PAGESIZE, m / PAGESIZE;
    var n, r := (e.len + PAGESIZE - 1) / PAGESIZE, (e.len + PAGESIZE - 1) % PAGESIZE;
    assert e.addr == a * PAGESIZE && m == k * PAGESIZE + m % PAGESIZE && e.len + PAGESIZE - 1 == n * PAGESIZE + r;
  }

  /** Start-up.  It trips the page-index assertion exactly when some visited page has no struct, which on an ordinary
      map is when the highest managed byte does not end a page; otherwise the free ring holds, in map order, exactly
      the pages of managed entries that are not visited in the kernel image, the boot loader's data or the page
      structs.  None of them meets those, if and only if no managed entry straddles their end; so where managed
      entries start on a page, no free page holds a byte in use. */
  method Boot(entries: seq<MmapEntry>, loadStart: nat, bssEnd: nat) returns (mp: MemPages, ok: bool)
    requires WellFormed(entries) && loadStart <= bssEnd
    ensures fresh(mp) && fresh(mp.structs)
    ensures ok <==> AllFit(entries, MaxEnd(entries) / PAGESIZE)
    ensures mp.structs.Length == MaxEnd(entries) / PAGESIZE
    ensures ok ==> mp.Valid()
    ensures ok ==> mp.ring == Collected(entries, KernelStart(loadStart), KernelEnd(entries, bssEnd))
    ensures ok ==>
              ((forall x :: x in mp.ring ==> !Meets(x, KernelStart(loadStart), KernelEnd(entries, bssEnd))) <==>
               (forall i :: 0 <= i < |entries| ==>
                  !Straddles(entries[i], KernelStart(loadStart), KernelEnd(entries, bssEnd))))
    ensures ok && (forall i :: 0 <= i < |entries| && Managed(entries[i]) ==> entries[i].addr % PAGESIZE == 0) ==>
              forall x :: x in mp.ring ==> !HoldsUsed(x, loadStart, bssEnd, mp.structs.Length)
    ensures ok ==> forall x :: Seen(entries, |entries|, x) ==> Addressed(mp, x)
  {
    hide MaxEnd, Collected, Seen, AllFit, Addressed, MemPages.Valid, Meets, Straddles, HoldsUsed;
    var maxKernMem := ComputeMaxEnd(entries);
    mp := new MemPages(maxKernMem / PAGESIZE);
    var lo := KernelStart(loadStart);
    var hi := KernelEnd(entries, bssEnd);
    ok := CollectAvailable(mp, entries, lo, hi);
    OffKernelIff(entries, lo, hi);
    if forall i :: 0 <= i < |entries| && Managed(entries[i]) ==> entries[i].addr % PAGESIZE == 0 {
      AlignedOffKernel(entries, lo, hi);
      forall x | x in Collected(entries, lo, hi) ensures !HoldsUsed(x, loadStart, bssEnd, mp.structs.Length) {
        OffRangeUnused(entries, loadStart, bssEnd, x);
      }
    }
  }
}
