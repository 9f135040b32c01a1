/** The pages found at start-up are a heap with nothing handed out. */
module Startup {
  import opened Rings
  import opened PageAllocator
  import opened BootMemory
  import opened HeapSteps
  import opened HeapRuns

  lemma {:induction false} UsableDistinct(a: nat, end: nat, lo: nat, hi: nat)
    ensures Distinct(Usable(a, end, lo, hi))
    decreases end - a
  {
    if a < end {
      UsableDistinct(a + PAGESIZE, end, lo, hi);
      UsablePages(a + PAGESIZE, end, lo, hi, a / PAGESIZE);
      ConsDistinct(a / PAGESIZE, Usable(a + PAGESIZE, end, lo, hi));
    }
  }

  lemma {:induction false} CollectedDistinct(entries: seq<MmapEntry>, n: nat, lo: nat, hi: nat)
    requires WellFormed(entries) && n <= |entries|
    ensures Distinct(Collected(entries[..n], lo, hi))
  {
    hide Distinct, Visits, VisitedAt, Usable;
    if n > 0 {
      var e := entries[n - 1];
      CollectedDistinct(entries, n - 1, lo, hi);
      assert entries[..n][..n - 1] == entries[..n - 1];
      if Managed(e) {
        UsableDistinct(e.addr, e.addr + e.len, lo, hi);
        NotYetCollected(entries, n - 1, lo, hi);
        var old', new' := Collected(entries[..n - 1], lo, hi), Usable(e.addr, e.addr + e.len, lo, hi);
        forall x | x in old' ensures x !in new' {
          EntryPages(e, lo, hi, x);
        }
        AppendDistinct(old', new');
      } else {
        assert Collected(entries[..n], lo, hi) == Collected(entries[..n - 1], lo, hi);
      }
    } else {
      NoneDistinct();
    }
  }

  lemma NoneDistinct()
    ensures Distinct([])
  {
  }

  /** Start-up accepts the map, and what it manages starts on a page, so that no page in use is free. */
  ghost predicate Bootable(entries: seq<MmapEntry>) {
    WellFormed(entries) && AllFit(entries, MaxEnd(entries) / PAGESIZE) && Aligned(entries)
  }

  ghost predicate Aligned(entries: seq<MmapEntry>) {
    forall i :: 0 <= i < |entries| && Managed(entries[i]) ==> entries[i].addr % PAGESIZE == 0
  }

  lemma OrdinaryBootable(entries: seq<MmapEntry>)
    requires Ordinary(entries) && MaxEnd(entries) % PAGESIZE == 0
    ensures Bootable(entries)
  {
    hide WellFormed, AllFit, MaxEnd;
    OrdinaryWellFormed(entries);
    IndexAssertion(entries);
  }

  lemma NotInPageZero(a: nat)
    requires a != 0 && a % PAGESIZE == 0
    ensures a >= PAGESIZE
  {
  }

  /** The system after start-up and InitSlab: the collected pages free, nothing handed out. */
  ghost function Booted(entries: seq<MmapEntry>, lo: nat, hi: nat, limits: seq<nat>): System
    requires |limits| == 9
  {
    System(FreshHeap(MaxEnd(entries) / PAGESIZE, Collected(entries, lo, hi), limits), map[])
  }

  lemma CollectedRange(entries: seq<MmapEntry>, lo: nat, hi: nat)
    requires Bootable(entries)
    ensures forall p :: p in Collected(entries, lo, hi) ==>
              Seen(entries, |entries|, p) && 0 < p < MaxEnd(entries) / PAGESIZE
  {
    hide Collected, MaxEnd, Visits;
    assert entries[..|entries|] == entries;
    forall p | p in Collected(entries, lo, hi)
      ensures Seen(entries, |entries|, p) && 0 < p < MaxEnd(entries) / PAGESIZE
    {
      CollectedPages(entries, |entries|, lo, hi, p);
      var i :| 0 <= i < |entries| && Keeps(entries[i], p, lo, hi);
      NotInPageZero(entries[i].addr);
      VisitedRange(entries[i], p, MaxEnd(entries) / PAGESIZE);
    }
  }

  lemma VisitedRange(e: MmapEntry, x: int, nr: nat)
    requires Visits(e, x) && Fits(e, nr) && e.addr >= PAGESIZE
    ensures 0 < x < nr
  {
    VisitsDone(e);
  }

  /** For any memory map that start-up accepts, every run of calls starts from a system that
      serves nobody yet and manages exactly the collected pages. */
  lemma BootServes(entries: seq<MmapEntry>, lo: nat, hi: nat, limits: seq<nat>)
    requires Bootable(entries) && |limits| == 9
    ensures Serves(Booted(entries, lo, hi, limits))
    ensures forall p :: p in Booted(entries, lo, hi, limits).h.role <==> p in Collected(entries, lo, hi)
    ensures DirectPages(Booted(entries, lo, hi, limits).h) == {}
  {
    hide Collected, MaxEnd, Serves, DirectPages;
    FreshLends(entries, lo, hi, limits);
    assert entries[..|entries|] == entries;
    CollectedDistinct(entries, |entries|, lo, hi);
    CollectedRange(entries, lo, hi);
    FreshServes(MaxEnd(entries) / PAGESIZE, Collected(entries, lo, hi), limits);
  }

  lemma FreshLends(entries: seq<MmapEntry>, lo: nat, hi: nat, limits: seq<nat>)
    requires |limits| == 9
    ensures DirectPages(Booted(entries, lo, hi, limits).h) == {}
    ensures forall p :: p in Booted(entries, lo, hi, limits).h.role <==> p in Collected(entries, lo, hi)
  {
    hide Collected, MaxEnd;
  }

  /** From power-on, whatever calls follow: the system serves exactly what callers hold, each range apart from
      every other; as many are held as were given out and not given back; the managed pages are the collected
      ones, and none of them meets the kernel image, the boot data or the page structs; and a last call that gives
      out memory gives out what nobody held. */
  lemma EveryRunServes(entries: seq<MmapEntry>, lo: nat, hi: nat, limits: seq<nat>, ops: seq<Op>)
    requires Bootable(entries) && lo % PAGESIZE == 0 && |limits| == 9
    requires HeapRuns.Run(Booted(entries, lo, hi, limits), ops).Ok?
    ensures var s, t := Booted(entries, lo, hi, limits), HeapRuns.Run(Booted(entries, lo, hi, limits), ops).s;
            && Serves(t) && (forall p :: p in t.h.role <==> p in Collected(entries, lo, hi))
            && (forall p :: p in t.h.role ==> !Meets(p, lo, hi))
            && |t.live| + Count(ops, true) == Count(ops, false)
            && (forall x, y :: x in t.live && y in t.live && x != y ==> Apart(t.h, x, y))
            && (ops != [] ==>
                  var before := HeapRuns.Run(s, ops[..|ops| - 1]);
                  before.Ok? && Moves(before.s, ops[|ops| - 1], t))
  {
    hide Serves, HeapRuns.Run, Collected, MaxEnd, Apart, Step, Moves, Meets;
    AlignedOffKernel(entries, lo, hi);
    var s := Booted(entries, lo, hi, limits);
    BootServes(entries, lo, hi, limits);
    RunServes(s, ops);
    RunCounts(s, ops);
    var t := HeapRuns.Run(s, ops).s;
    forall x, y | x in t.live && y in t.live && x != y ensures Apart(t.h, x, y) {
      RunSafe(s, ops, x, y);
    }
    if ops != [] {
      var init, op := ops[..|ops| - 1], ops[|ops| - 1];
      assert init + [op] == ops;
      RunThen(s, init, op);
      RunServes(s, init);
      StepServes(HeapRuns.Run(s, init).s, op);
    }
  }

  /** No byte a caller holds, at any point of any run, belongs to the kernel image, the boot loader's data or a page
      struct. */
  lemma HeldOffKernel(entries: seq<MmapEntry>, loadStart: nat, bssEnd: nat, limits: seq<nat>, ops: seq<Op>, x: int,
                      b: int)
    requires Bootable(entries) && loadStart <= bssEnd && |limits| == 9
    requires HeapRuns.Run(Booted(entries, KernelStart(loadStart), KernelEnd(entries, bssEnd), limits), ops).Ok?
    requires var t := HeapRuns.Run(Booted(entries, KernelStart(loadStart), KernelEnd(entries, bssEnd), limits), ops).s;
             x in t.live && x <= b < x + Extent(t.h, x)
    ensures b / PAGESIZE in Collected(entries, KernelStart(loadStart), KernelEnd(entries, bssEnd))
    ensures !InUse(b, loadStart, bssEnd, MaxEnd(entries) / PAGESIZE)
  {
    hide Serves, HeapRuns.Run, Collected, MaxEnd, Apart, Extent, Moves, InUse;
    var lo, hi := KernelStart(loadStart), KernelEnd(entries, bssEnd);
    EveryRunServes(entries, lo, hi, limits, ops);
    BootServes(entries, lo, hi, limits);
    RunHeld(Booted(entries, lo, hi, limits), ops, x, b);
    assert !Meets(b / PAGESIZE, lo, hi);
    RangeInUse(entries, loadStart, bssEnd, b);
  }
}
