/** The code itself over whole runs: start-up, then any sequence of calls on the allocator's own fields. */
module KernelRuns {
  import opened PageAllocator
  import opened BootMemory
  import opened Heap
  import opened HeapInvariant
  import opened HeapRuns
  import opened HeapSteps
  import opened SlabAllocator
  import opened Startup
  import opened PageWalk
  import opened DirectMap

  /** A run that halts stays halted. */
  lemma {:induction false} HaltedStays(s: System, ops: seq<Op>, i: nat)
    requires i <= |ops| && HeapRuns.Run(s, ops[..i]) == Halted
    ensures HeapRuns.Run(s, ops) == Halted
    decreases |ops|
  {
    hide Step;
    if i > 0 {
      assert ops[..i][1..] == ops[1..][..i - 1];
      if Step(s, ops[0]).Ok? {
        HaltedStays(Step(s, ops[0]).s, ops[1..], i - 1);
      }
    }
  }

  /** One call, as the caller makes it: false where the kernel stops. */
  method Call(k: Slabs, op: Op, live: map<int, int>, held: set<int>)
    returns (ok: bool, live': map<int, int>, held': set<int>)
    requires k.Tied() && Serves(System(k.h, live)) && DirectPages(k.h) == held
    modifies k, k.links, k.pages, k.pages.structs
    ensures ok <==> Step(System(old(k.h), live), op).Ok?
    ensures ok ==> k.Tied() && Step(System(old(k.h), live), op) == Ok(System(k.h, live'))
    ensures ok ==> Serves(System(k.h, live')) && DirectPages(k.h) == held'
  {
    hide Slabs.Tied, Inv, Live, Extent, Alloc, Release, Serves, Grants;
    ghost var s := System(k.h, live);
    ServesInv(s);
    StepServes(s, op);
    live', held' := live, held;
    match op
    case Malloc(size) =>
      if size >= 0x8000_0000 {
        return false, live, held;
      }
      var addr;
      ok, addr := k.AllocBytes(size);
      live' := live[addr := size];
    case Dispose(x) =>
      if x !in live {
        return false, live, held;
      }
      HeldIsLive(s, x);
      ok := k.FreeBytes(At(x));
      live' := live - {x};
    case GetPage =>
      var p;
      ok, p := k.TakeDirect();
      held' := held + {p};
    case PutPage(p) =>
      ok := p in held;
      if ok {
        k.GiveDirect(p);
        held' := held - {p};
      }
  }

  lemma HeldIsLive(s: System, x: int)
    requires Serves(s) && x in s.live
    ensures Live(s.h, x)
  {
  }

  /** Execution of a whole sequence of calls ends where the model's run ends: it stops exactly when the run halts,
      and otherwise the fields picture the run's heap and the callers hold what the run says. */
  method Execute(k: Slabs, ops: seq<Op>) returns (ok: bool, live: map<int, int>, held: set<int>)
    requires k.Tied() && Serves(System(k.h, map[])) && DirectPages(k.h) == {}
    modifies k, k.links, k.pages, k.pages.structs
    ensures ok <==> HeapRuns.Run(System(old(k.h), map[]), ops).Ok?
    ensures ok ==> k.Tied() && HeapRuns.Run(System(old(k.h), map[]), ops) == Ok(System(k.h, live))
    ensures ok ==> Serves(System(k.h, live)) && DirectPages(k.h) == held
  {
    hide Slabs.Tied, Inv, Serves, Step, DirectPages;
    ghost var s := System(k.h, map[]);
    ok, live, held := true, map[], {};
    var i := 0;
    while i < |ops|
      invariant i <= |ops| && ok
      invariant k.Tied() && Serves(System(k.h, live)) && DirectPages(k.h) == held
      invariant HeapRuns.Run(s, ops[..i]) == Ok(System(k.h, live))
    {
      RunThen(s, ops[..i], ops[i]);
      assert ops[..i] + [ops[i]] == ops[..i + 1];
      ok, live, held := Call(k, ops[i], live, held);
      if !ok {
        HaltedStays(s, ops, i + 1);
        return;
      }
      i := i + 1;
    }
    assert ops[..|ops|] == ops;
  }

  /** Init, InitSlab, and then any sequence of calls, on the code's own fields.  Start-up fails exactly when some
      managed page has no struct; the calls stop exactly when the model's run halts. */
  method PowerOn(entries: seq<MmapEntry>, loadStart: nat, bssEnd: nat, limits: seq<nat>, ops: seq<Op>)
    returns (booted: bool, ok: bool, k: Slabs?, live: map<int, int>)
    requires WellFormed(entries) && |limits| == 9
    requires Aligned(entries) && loadStart <= bssEnd
    ensures booted <==> AllFit(entries, MaxEnd(entries) / PAGESIZE)
    ensures forall p :: p in Collected(entries, KernelStart(loadStart), KernelEnd(entries, bssEnd)) ==>
              !HoldsUsed(p, loadStart, bssEnd, MaxEnd(entries) / PAGESIZE)
    ensures var s := Booted(entries, KernelStart(loadStart), KernelEnd(entries, bssEnd), limits);
            && (booted ==> (ok <==> HeapRuns.Run(s, ops).Ok?))
            && (booted && ok ==> k != null && k.Tied() && HeapRuns.Run(s, ops) == Ok(System(k.h, live)))
  {
    hide Slabs.Tied, Serves, Seen, Collected, MaxEnd, Addressed, HeapRuns.Run, MemPages.Valid, DirectPages, HoldsUsed;
    ok, k, live := false, null, map[];
    NoneUsed(entries, loadStart, bssEnd);
    var mp;
    mp, booted := BootMemory.Boot(entries, loadStart, bssEnd);
    if booted {
      var lo, hi := KernelStart(loadStart), KernelEnd(entries, bssEnd);
      CollectedRange(entries, lo, hi);
      BootServes(entries, lo, hi, limits);
      RingAddressed(mp, entries, lo, hi);
      k := new Slabs(mp, limits);
      var held;
      ok, live, held := Execute(k, ops);
    }
  }

  lemma NoneUsed(entries: seq<MmapEntry>, loadStart: nat, bssEnd: nat)
    requires Aligned(entries) && loadStart <= bssEnd
    ensures forall p :: p in Collected(entries, KernelStart(loadStart), KernelEnd(entries, bssEnd)) ==>
              !HoldsUsed(p, loadStart, bssEnd, MaxEnd(entries) / PAGESIZE)
  {
    hide Collected, Meets, HoldsUsed, MaxEnd;
    var lo, hi := KernelStart(loadStart), KernelEnd(entries, bssEnd);
    AlignedOffKernel(entries, lo, hi);
    forall p | p in Collected(entries, lo, hi) ensures !HoldsUsed(p, loadStart, bssEnd, MaxEnd(entries) / PAGESIZE) {
      OffRangeUnused(entries, loadStart, bssEnd, p);
    }
  }

  lemma RingAddressed(mp: MemPages, entries: seq<MmapEntry>, lo: nat, hi: nat)
    requires mp.ring == Collected(entries, lo, hi)
    requires forall x :: Seen(entries, |entries|, x) ==> Addressed(mp, x)
    requires forall p :: p in Collected(entries, lo, hi) ==> Seen(entries, |entries|, p)
    ensures forall p :: p in mp.ring ==> 0 <= p < mp.structs.Length && mp.structs[p].phyaddr == p * PAGESIZE
  {
    hide Collected, Seen;
    forall p | p in mp.ring ensures Addressed(mp, p) {
    }
  }

  /** The two start-up structures fit: once the direct map is built, every byte of every page the allocator manages
      translates to itself, and not write-through. */
  lemma CollectedMapped(entries: seq<MmapEntry>, lo: nat, hi: nat, mem: Memory, root: int, b: nat)
    requires Bootable(entries) && DirectMapped(entries, mem, root) && MaxPhys(entries) <= SIZE_512G
    requires b / PAGESIZE in Collected(entries, lo, hi)
    ensures b < SIZE_512G && MapsSelf(Walk(mem, root, 4, Kernel(b)), b, false)
  {
    hide Collected, MaxEnd, Walk, Kernel, Visits, MaxPhys;
    var x := b / PAGESIZE;
    assert entries[..|entries|] == entries;
    CollectedPages(entries, |entries|, lo, hi, x);
    var i :| 0 <= i < |entries| && Keeps(entries[i], x, lo, hi);
    VisitsAligned(entries[i], x);
    EntryEnds(entries, i);
    PageCovered(entries[i], x, b);
    assert Right(entries, |entries|, Walk(mem, root, 4, Kernel(b)), b);
  }

  lemma PageCovered(e: MmapEntry, x: int, b: nat)
    requires e.addr % PAGESIZE == 0 && e.addr <= x * PAGESIZE < e.addr + e.len <= SIZE_512G && b / PAGESIZE == x
    ensures Covers(e, b) && b < SIZE_512G
  {
    assert b == x * PAGESIZE + b % PAGESIZE;
    assert PageBase(b) == x * PAGESIZE;
  }

  /** And so does every byte that a caller holds, at any point of any run. */
  lemma HeldMapped(entries: seq<MmapEntry>, loadStart: nat, bssEnd: nat, limits: seq<nat>, ops: seq<Op>, mem: Memory,
                   root: int, x: int, b: nat)
    requires Bootable(entries) && loadStart <= bssEnd && |limits| == 9
    requires DirectMapped(entries, mem, root) && MaxPhys(entries) <= SIZE_512G
    requires HeapRuns.Run(Booted(entries, KernelStart(loadStart), KernelEnd(entries, bssEnd), limits), ops).Ok?
    requires var t := HeapRuns.Run(Booted(entries, KernelStart(loadStart), KernelEnd(entries, bssEnd), limits), ops).s;
             x in t.live && x <= b < x + Extent(t.h, x)
    ensures b < SIZE_512G && MapsSelf(Walk(mem, root, 4, Kernel(b)), b, false)
  {
    hide Collected, MaxEnd, Walk, Kernel, MaxPhys, HeapRuns.Run, Extent, DirectMapped, Bootable, InUse;
    HeldOffKernel(entries, loadStart, bssEnd, limits, ops, x, b);
    CollectedMapped(entries, KernelStart(loadStart), KernelEnd(entries, bssEnd), mem, root, b);
  }
}
