/** kern/page-table.cc: the kernel's direct map, built from 1 GB, 2 MB and 4 KB entries over the memory map. */
module DirectMap {
  import opened Arithmetic
  import opened PageAllocator
  import opened BootMemory
  import opened PageWalk
  import opened PageTree
  import opened PageTable

  // ----- address arithmetic

  lemma KernelIndex(p: nat)
    requires p < SIZE_512G
    ensures Index(Kernel(p), 4) == 510 && Index(Kernel(p), 3) == p / SIZE_1G
    ensures Index(Kernel(p), 2) == p / SIZE_2M % 512 && Index(Kernel(p), 1) == p / SIZE_4K % 512
  {
    DivMod(Kernel(p), SIZE_512G, 0x1FF_FFFE, p);
    DivMod(Kernel(p), SIZE_1G, 512 * 0x1FF_FFFE + p / SIZE_1G, p % SIZE_1G);
    DivMod(Kernel(p), SIZE_2M, 512 * 0x3_FFFF_FC00 + p / SIZE_2M, p % SIZE_2M);
    DivMod(Kernel(p), SIZE_4K, 512 * 0x7FF_FFF8_0000 + p / SIZE_4K, p % SIZE_4K);
    DropDigits(0x1FF_FFFE, p / SIZE_1G);
    DropDigits(0x3_FFFF_FC00, p / SIZE_2M);
    DropDigits(0x7FF_FFF8_0000, p / SIZE_4K);
  }

  lemma DropDigits(k: nat, x: nat)
    ensures (512 * k + x) % 512 == x % 512
  {
    DivMod(512 * k + x, 512, k + x / 512, x % 512);
  }

  lemma Nested(p: nat)
    ensures p / SIZE_2M == p / SIZE_1G * 512 + p / SIZE_2M % 512
    ensures p / SIZE_4K == p / SIZE_2M * 512 + p / SIZE_4K % 512
  {
    var x, y := p / SIZE_4K, p / SIZE_2M;
    DivMod(p, SIZE_2M, x / 512, SIZE_4K * (x % 512) + p % SIZE_4K);
    DivMod(p, SIZE_1G, y / 512, SIZE_2M * (y % 512) + p % SIZE_2M);
  }

  /** Two addresses of the window use the same slot of a level-l table exactly when they are in the same
      stretch of that level's size. */
  lemma SameSlot(p: nat, a: nat, l: nat)
    requires p < SIZE_512G && a < SIZE_512G && 1 <= l <= 3
    ensures Through(Kernel(p), 3, PathOf(Kernel(a), 3, 3 - l), Index(Kernel(a), l)) <==> p / SizeOf(l) == a / SizeOf(l)
  {
    hide Index;
    KernelIndex(p);
    KernelIndex(a);
    PathElements(Kernel(p));
    PathElements(Kernel(a));
    Nested(p);
    Nested(a);
  }

  lemma KernelOffset(p: nat, l: nat)
    requires 1 <= l <= 3
    ensures Kernel(p) % SizeOf(l) == p % SizeOf(l)
  {
  }

  /** The leaf written for a sends every address of its stretch to itself. */
  lemma LeafIdentity(a: nat, l: nat, wt: bool, p: nat)
    requires 1 <= l <= 3 && a % SizeOf(l) == 0 && a < SIZE_512G && p / SizeOf(l) == a / SizeOf(l)
    ensures var w := MakeEntry(a, l > 1, wt, false);
            WordOk(w) && IsLeaf(w, l) && Leaf(w, l, Kernel(p)) == Mapped(p, SizeOf(l), wt, false)
  {
    hide MakeEntry, GetFlag, SizeOf, WordOk, Kernel;
    Aligned4K(a, l);
    EntryFields(a, l > 1, wt, false);
    EntryWord(a, l > 1, wt, false);
    KernelOffset(p, l);
    BasePart(a, (if l > 1 then 131 else 3) + if wt then 8 else 0, l);
    Stretch(a, p, l);
  }

  lemma BasePart(a: nat, c: nat, l: nat)
    requires 1 <= l <= 3 && a % SizeOf(l) == 0 && c < 512 && a < SIZE_512G
    ensures (a + c) / SizeOf(l) * SizeOf(l) % 0x10_0000_0000_0000 == a
  {
    if l == 1 {
      assert (a + c) / SIZE_4K == a / SIZE_4K;
    } else if l == 2 {
      assert (a + c) / SIZE_2M == a / SIZE_2M;
    } else {
      assert (a + c) / SIZE_1G == a / SIZE_1G;
    }
  }

  lemma Stretch(a: nat, p: nat, l: nat)
    requires 1 <= l <= 3 && a % SizeOf(l) == 0 && p / SizeOf(l) == a / SizeOf(l)
    ensures p == a + p % SizeOf(l)
  {
  }

  lemma Aligned4K(a: nat, l: nat)
    requires 1 <= l <= 3 && a % SizeOf(l) == 0
    ensures a % SIZE_4K == 0
  {
  }

  lemma LeafEntry(a: nat, l: nat, wt: bool)
    requires 1 <= l <= 3 && a % SizeOf(l) == 0 && a < SIZE_512G
    ensures var w := MakeEntry(a, l > 1, wt, false); WordOk(w) && IsLeaf(w, l)
  {
    LeafIdentity(a, l, wt, a);
  }

  // ----- the tables under kern_entry

  /** The top-level table in use while the new tables are built: its frame, and what it holds. */
  datatype Boot = Boot(root: int, frame: Frame)

  /** kern_entry is absent, or points to the top of a tree of tables off the free pages; the boot table is
      none of them and untouched. */
  ghost predicate KernHolds(pm: PhysicalMemory, kern: nat, at: Tables, boot: Boot)
    reads pm, pm.pages
  {
    && WordOk(kern)
    && (if GetFlag(kern, PRESENT) then pm.Holds(at, 3) && [] in at && at[[]] == FrameOf(kern) else at == map[])
    && boot.root in pm.mem && pm.mem[boot.root] == boot.frame && boot.root !in pm.pages.ring
    && forall p :: p in at ==> at[p] != boot.root
  }

  /** The hardware's walk from kern_entry on. */
  function KernWalk(mem: Memory, kern: nat, v: nat): Translation {
    if GetFlag(kern, PRESENT) then Walk(mem, FrameOf(kern), 3, v) else Unmapped
  }

  /** kern_entry.AllocateOrPresent(), and the table it points to. */
  method TopTable(pm: PhysicalMemory, kern: nat, ghost at: Tables, ghost boot: Boot)
    returns (r: Result, kern': nat, g: int, ghost at': Tables)
    requires pm.Ready() && KernHolds(pm, kern, at, boot)
    modifies pm`mem, pm.pages, pm.pages.structs
    ensures pm.Ready() && KernHolds(pm, kern', at', boot) && (r == Ok || r == Fault)
    ensures r == Fault ==> |pm.pages.ring| <= 1 && at' == at && pm.pages.ring == old(pm.pages.ring) && [] !in at
    ensures r == Ok ==> Charged(at, old(pm.pages.ring), at', pm.pages.ring, [])
    ensures r == Ok ==>
              && GetFlag(kern', PRESENT) && g == FrameOf(kern') && [] in at' && at'[[]] == g
              && g in pm.mem && |pm.mem[g]| == 512
    ensures forall v: nat :: KernWalk(pm.mem, kern', v) == KernWalk(old(pm.mem), kern, v)
  {
    hide Rings.IsRing, MemPages.Valid, MakeEntry, Walk, Tree;
    kern', at' := kern, at;
    if !GetFlag(kern, PRESENT) {
      assert forall x :: x in pm.pages.ring ==> UsableIn(pm.mem, pm.pages, x);
      var p := pm.pages.AllocPage();
      if p == NULL {
        return Fault, kern, 0, at;
      }
      assert p in old(pm.pages.ring) && old(UsableIn(pm.mem, pm.pages, p));
      var entry := pm.pages.structs[p].phyaddr;
      pm.mem := pm.mem[p := ZeroFrame()];
      kern' := SetFlag(SetFlag(entry, PRESENT, true), READ_WRITE, true);
      at' := map[[] := p];
      assert at'.Keys == at.Keys + {[]};
      NewWord(p);
      TableWord(p, 4);
      OneEmptyTable(pm.mem, p, 3);
      assert forall x :: x in pm.pages.ring ==> x in old(pm.pages.ring) && old(UsableIn(pm.mem, pm.pages, x));
      g := p;
    } else {
      AddressFrame(kern);
      TableFacts(pm.mem, at, 3, []);
      g := PhysicalAddress(kern') / SIZE_4K;
      assert at.Keys + {[]} == at.Keys;
    }
    r := Ok;
  }

  /** The stretch of a, of level l's size, maps to itself; every other address of the window is as before. */
  ghost predicate Installed(mem0: Memory, kern0: nat, mem: Memory, kern: nat, a: nat, l: nat, wt: bool)
    requires 1 <= l <= 3
  {
    forall p: nat :: p < SIZE_512G ==>
      (KernWalk(mem, kern, Kernel(p)) ==
       if p / SizeOf(l) == a / SizeOf(l) then Mapped(p, SizeOf(l), wt, false) else KernWalk(mem0, kern0, Kernel(p)))
  }

  /** Storing the entry for a in the level-l table of its path installs its stretch. */
  method StoreLeaf(pm: PhysicalMemory, kern: nat, f: int, a: nat, l: nat, wt: bool, ghost at: Tables, ghost boot: Boot)
    returns (ghost at': Tables)
    requires pm.Ready() && KernHolds(pm, kern, at, boot) && GetFlag(kern, PRESENT)
    requires 1 <= l <= 3 && a % SizeOf(l) == 0 && a < SIZE_512G
    requires PathOf(Kernel(a), 3, 3 - l) in at && at[PathOf(Kernel(a), 3, 3 - l)] == f && f in pm.mem
    requires |pm.mem[f]| == 512
    modifies pm`mem
    ensures pm.Ready() && KernHolds(pm, kern, at', boot)
    ensures at' == Pruned(at, PathOf(Kernel(a), 3, 3 - l), Index(Kernel(a), l))
    ensures Installed(old(pm.mem), kern, pm.mem, kern, a, l, wt)
  {
    hide Rings.IsRing, MemPages.Valid, MakeEntry, Walk, Tree, GetFlag, FrameOf, WordOk, Leaf, IsLeaf, PathOf, Index,
         Through, Kernel;
    LeafEntry(a, l, wt);
    ghost var q := PathOf(Kernel(a), 3, 3 - l);
    at' := pm.Store(f, Index(Kernel(a), l), MakeEntry(a, l > 1, wt, false), at, 3, q);
    assert [] in at' && at'[[]] == at[[]];
    forall p: nat | p < SIZE_512G
      ensures KernWalk(pm.mem, kern, Kernel(p)) ==
              if p / SizeOf(l) == a / SizeOf(l) then Mapped(p, SizeOf(l), wt, false)
              else KernWalk(old(pm.mem), kern, Kernel(p))
    {
      SameSlot(p, a, l);
      if p / SizeOf(l) == a / SizeOf(l) {
        LeafIdentity(a, l, wt, p);
      }
    }
  }

  /** The tables above level l exist; translations are as before. */
  ghost predicate TableReached(pm: PhysicalMemory, r: Result, mem0: Memory, kern0: nat, kern: nat, at: Tables,
                               boot: Boot, a: nat, k: nat, g: int)
    requires k <= 2
    reads pm, pm.pages
  {
    && KernHolds(pm, kern, at, boot) && (r == Ok || r == Fault) && (r == Fault ==> |pm.pages.ring| <= 1)
    && (forall v: nat :: KernWalk(pm.mem, kern, v) == KernWalk(mem0, kern0, v))
    && (r == Ok ==> GetFlag(kern, PRESENT) && PathOf(Kernel(a), 3, k) in at && at[PathOf(Kernel(a), 3, k)] == g
                    && g in pm.mem && |pm.mem[g]| == 512)
  }

  /** One more AllocateOrPresent()[vaddr] on the way down to an address that is not mapped. */
  method NextTable(pm: PhysicalMemory, kern: nat, f: int, a: nat, k: nat, pd: bool, ghost at: Tables, ghost boot: Boot)
    returns (r: Result, g: int, ghost at': Tables)
    requires pm.Ready() && KernHolds(pm, kern, at, boot) && GetFlag(kern, PRESENT) && k < 2 && a < SIZE_512G
    requires PathOf(Kernel(a), 3, k) in at && at[PathOf(Kernel(a), 3, k)] == f && f in pm.mem && |pm.mem[f]| == 512
    requires KernWalk(pm.mem, kern, Kernel(a)) == Unmapped
    modifies pm`mem, pm.pages, pm.pages.structs
    ensures pm.Ready() && TableReached(pm, r, old(pm.mem), kern, kern, at', boot, a, k + 1, g)
    ensures r == Fault ==> at' == at && pm.pages.ring == old(pm.pages.ring) && PathOf(Kernel(a), 3, k + 1) !in at
    ensures r == Ok ==> Charged(at, old(pm.pages.ring), at', pm.pages.ring, PathOf(Kernel(a), 3, k + 1))
  {
    hide Rings.IsRing, MemPages.Valid, MakeEntry, Walk, Tree, GetFlag, FrameOf, WordOk, Leaf, IsLeaf, Index, Kernel;
    ghost var q := PathOf(Kernel(a), 3, k);
    UnmappedNotLeaf(pm.mem, at, 3, Kernel(a), k);
    r, g, at' := pm.Down(f, Index(Kernel(a), 3 - k), pd, at, 3, q);
    assert PathOf(Kernel(a), 3, k + 1) == q + [Index(Kernel(a), 3 - k)];
  }

  // ----- how many tables there are

  /** The tables above the entry for a at level l, by their paths. */
  function Paths(a: nat, l: nat): set<seq<nat>>
    requires 1 <= l <= 3
  {
    {[]} + (if l <= 2 then {PathOf(Kernel(a), 3, 1)} else {}) + (if l == 1 then {PathOf(Kernel(a), 3, 2)} else {})
  }

  /** Of n pages free at first, one went to each table, and one is left. */
  ghost predicate Tally(n: nat, at: Tables, ring: seq<int>) {
    |ring| + |at.Keys| == n && (at.Keys != {} ==> |ring| > 0)
  }

  /** n pages do not reach for these tables. */
  ghost predicate Short(n: nat, paths: set<seq<nat>>) {
    !Enough(n, |paths|)
  }

  lemma TallyStep(n: nat, at: Tables, ring: seq<int>, at': Tables, ring': seq<int>, p: seq<nat>)
    requires Tally(n, at, ring) && Charged(at, ring, at', ring', p)
    ensures Tally(n, at', ring')
  {
    if p in at {
      assert at'.Keys == at.Keys;
    }
  }

  lemma SmallerSet(s: set<seq<nat>>, t: set<seq<nat>>)
    requires s <= t
    ensures |s| <= |t|
  {
    assert t == s + (t - s);
  }

  /** A table that cannot be had: the pages do not reach for any set of tables that includes it. */
  lemma TallyShort(n: nat, at: Tables, ring: seq<int>, p: seq<nat>, all: set<seq<nat>>)
    requires Tally(n, at, ring) && p !in at && |ring| <= 1 && at.Keys + {p} <= all
    ensures Short(n, all)
  {
    SmallerSet(at.Keys + {p}, all);
  }

  lemma StillShort(n: nat, s: set<seq<nat>>, t: set<seq<nat>>)
    requires s <= t && Short(n, s)
    ensures Short(n, t)
  {
    SmallerSet(s, t);
  }

  /** p is an address below the table at q. */
  ghost predicate Under(q: seq<nat>, p: nat) {
    |q| <= 2 && p < SIZE_512G && PathOf(Kernel(p), 3, |q|) == q
  }

  /** Every table below the top one maps something. */
  ghost predicate Occupied(mem: Memory, kern: nat, at: Tables) {
    forall q :: q in at && q != [] ==> exists p: nat :: Under(q, p) && KernWalk(mem, kern, Kernel(p)) != Unmapped
  }

  /** No address of the stretch of a is mapped. */
  ghost predicate Vacant(mem: Memory, kern: nat, a: nat, l: nat)
    requires 1 <= l <= 3
  {
    forall p: nat :: p < SIZE_512G && p / SizeOf(l) == a / SizeOf(l) ==> KernWalk(mem, kern, Kernel(p)) == Unmapped
  }

  /** So the entry for a vacant stretch replaces no table. */
  lemma NothingPruned(mem: Memory, kern: nat, at: Tables, a: nat, l: nat, at': Tables)
    requires 1 <= l <= 3 && a < SIZE_512G && Occupied(mem, kern, at) && Vacant(mem, kern, a, l)
    requires at'.Keys == at.Keys + Paths(a, l)
    ensures Pruned(at', PathOf(Kernel(a), 3, 3 - l), Index(Kernel(a), l)) == at'
  {
    hide KernWalk, Kernel, Index, SizeOf, Occupied, Vacant;
    var q, i := PathOf(Kernel(a), 3, 3 - l), Index(Kernel(a), l);
    forall p | p in at' ensures !(q + [i] <= p) {
      if q + [i] <= p {
        NotPrefix(a, l, p);
        assert p in at;
        NoTableBelow(mem, kern, at, a, l, p);
      }
    }
  }

  lemma NotPrefix(a: nat, l: nat, p: seq<nat>)
    requires 1 <= l <= 3 && PathOf(Kernel(a), 3, 3 - l) + [Index(Kernel(a), l)] <= p
    ensures p !in Paths(a, l)
  {
    hide PathOf, Index, Kernel;
    PathLength(a, l);
    assert |p| >= 4 - l;
  }

  lemma PathLength(a: nat, l: nat)
    requires 1 <= l <= 3
    ensures |PathOf(Kernel(a), 3, 1)| == 1 && |PathOf(Kernel(a), 3, 2)| == 2 && |PathOf(Kernel(a), 3, 3 - l)| == 3 - l
  {
  }

  lemma NoTableBelow(mem: Memory, kern: nat, at: Tables, a: nat, l: nat, p: seq<nat>)
    requires 1 <= l <= 3 && a < SIZE_512G && Occupied(mem, kern, at) && Vacant(mem, kern, a, l)
    requires PathOf(Kernel(a), 3, 3 - l) + [Index(Kernel(a), l)] <= p
    ensures p !in at
  {
    hide KernWalk, Kernel, Index, SizeOf;
    if p in at {
      var x: nat :| Under(p, x) && KernWalk(mem, kern, Kernel(x)) != Unmapped;
      var q, i := PathOf(Kernel(a), 3, 3 - l), Index(Kernel(a), l);
      PathPrefix(Kernel(x), 3, 4 - l, |p|);
      assert p[..4 - l] == q + [i];
      assert PathOf(Kernel(x), 3, 4 - l) == PathOf(Kernel(x), 3, 3 - l) + [Index(Kernel(x), l)];
      assert (q + [i])[..3 - l] == q && (q + [i])[3 - l] == i;
      assert Through(Kernel(x), 3, q, i);
      SameSlot(x, a, l);
    }
  }

  lemma OccupiedStep(mem: Memory, kern: nat, at: Tables, mem': Memory, kern': nat, at': Tables, a: nat, l: nat,
                     wt: bool)
    requires 1 <= l <= 3 && a < SIZE_512G && Occupied(mem, kern, at) && Installed(mem, kern, mem', kern', a, l, wt)
    requires at'.Keys == at.Keys + Paths(a, l)
    ensures Occupied(mem', kern', at')
  {
    hide KernWalk, Kernel, PathOf, SizeOf;
    PathLength(a, l);
    forall q | q in at' && q != []
      ensures exists p: nat :: Under(q, p) && KernWalk(mem', kern', Kernel(p)) != Unmapped
    {
      if q in at {
        var p: nat :| Under(q, p) && KernWalk(mem, kern, Kernel(p)) != Unmapped;
        assert KernWalk(mem', kern', Kernel(p)) != Unmapped;
      } else {
        assert q in Paths(a, l);
        assert Under(q, a) && KernWalk(mem', kern', Kernel(a)) != Unmapped;
      }
    }
  }

  /** TopTable and NextTable with the pages counted; `all` is any set of tables that includes the one wanted. */
  method CountedTop(pm: PhysicalMemory, kern: nat, ghost at: Tables, ghost boot: Boot, ghost n: nat,
                    ghost all: set<seq<nat>>)
    returns (r: Result, kern': nat, g: int, ghost at': Tables)
    requires pm.Ready() && KernHolds(pm, kern, at, boot) && Tally(n, at, pm.pages.ring) && at.Keys + {[]} <= all
    modifies pm`mem, pm.pages, pm.pages.structs
    ensures pm.Ready() && forall a: nat :: TableReached(pm, r, old(pm.mem), kern, kern', at', boot, a, 0, g)
    ensures r == Fault ==> Short(n, all)
    ensures r == Ok ==> at'.Keys == at.Keys + {[]} && Tally(n, at', pm.pages.ring)
  {
    hide MemPages.Valid, KernWalk, KernHolds, GetFlag, FrameOf, Tally, Charged, Short, Kernel, PathOf,
         PhysicalMemory.Ready;
    ghost var ring := pm.pages.ring;
    r, kern', g, at' := TopTable(pm, kern, at, boot);
    if r == Fault {
      TallyShort(n, at, ring, [], all);
    } else {
      Counted(n, at, ring, at', pm.pages.ring, []);
    }
    forall a: nat ensures TableReached(pm, r, old(pm.mem), kern, kern', at', boot, a, 0, g) {
      PathStart(a);
    }
  }

  method CountedNext(pm: PhysicalMemory, kern: nat, f: int, a: nat, k: nat, pd: bool, ghost at: Tables,
                     ghost boot: Boot, ghost n: nat, ghost all: set<seq<nat>>)
    returns (r: Result, g: int, ghost at': Tables)
    requires pm.Ready() && KernHolds(pm, kern, at, boot) && GetFlag(kern, PRESENT) && k < 2 && a < SIZE_512G
    requires PathOf(Kernel(a), 3, k) in at && at[PathOf(Kernel(a), 3, k)] == f && f in pm.mem && |pm.mem[f]| == 512
    requires KernWalk(pm.mem, kern, Kernel(a)) == Unmapped && Tally(n, at, pm.pages.ring)
    requires at.Keys + {PathOf(Kernel(a), 3, k + 1)} <= all
    modifies pm`mem, pm.pages, pm.pages.structs
    ensures pm.Ready() && TableReached(pm, r, old(pm.mem), kern, kern, at', boot, a, k + 1, g)
    ensures r == Fault ==> Short(n, all)
    ensures r == Ok ==> at'.Keys == at.Keys + {PathOf(Kernel(a), 3, k + 1)} && Tally(n, at', pm.pages.ring)
  {
    hide MemPages.Valid, KernWalk, KernHolds, GetFlag, FrameOf, Tally, Charged, Short, Kernel, PathOf,
         PhysicalMemory.Ready;
    ghost var ring := pm.pages.ring;
    r, g, at' := NextTable(pm, kern, f, a, k, pd, at, boot);
    if r == Fault {
      TallyShort(n, at, ring, PathOf(Kernel(a), 3, k + 1), all);
    } else {
      Counted(n, at, ring, at', pm.pages.ring, PathOf(Kernel(a), 3, k + 1));
    }
  }

  /** The tables on the way down to the entry for a at level l.  It fails exactly when the pages do not reach. */
  method Reach(pm: PhysicalMemory, kern: nat, a: nat, l: nat, ghost at: Tables, ghost boot: Boot, ghost n: nat)
    returns (r: Result, kern': nat, g: int, ghost at': Tables)
    requires pm.Ready() && KernHolds(pm, kern, at, boot) && 1 <= l <= 3 && a < SIZE_512G
    requires KernWalk(pm.mem, kern, Kernel(a)) == Unmapped && Tally(n, at, pm.pages.ring)
    modifies pm`mem, pm.pages, pm.pages.structs
    ensures pm.Ready() && TableReached(pm, r, old(pm.mem), kern, kern', at', boot, a, 3 - l, g)
    ensures r == Fault ==> Short(n, at.Keys + Paths(a, l))
    ensures r == Ok ==> at'.Keys == at.Keys + Paths(a, l) && Tally(n, at', pm.pages.ring)
  {
    hide MemPages.Valid, KernWalk, KernHolds, GetFlag, FrameOf, Tally, Short, Kernel, PathOf, PhysicalMemory.Ready;
    ghost var all := at.Keys + Paths(a, l);
    r, kern', g, at' := CountedTop(pm, kern, at, boot, n, all);
    assert TableReached(pm, r, old(pm.mem), kern, kern', at', boot, a, 0, g);
    if r == Ok && l < 3 {
      r, g, at' := CountedNext(pm, kern', g, a, 0, false, at', boot, n, all);
      if r == Ok && l < 2 {
        r, g, at' := CountedNext(pm, kern', g, a, 1, true, at', boot, n, all);
      }
    }
  }

  lemma PathStart(a: nat)
    ensures PathOf(Kernel(a), 3, 0) == []
  {
  }

  /** One turn of MapPagesToPageTable: the entry for a at level l, with the tables above it.  It fails exactly when
      the pages do not reach for those tables. */
  method MapStretch(pm: PhysicalMemory, kern: nat, a: nat, l: nat, wt: bool, ghost at: Tables, ghost boot: Boot,
                    ghost n: nat)
    returns (r: Result, kern': nat, ghost at': Tables)
    requires pm.Ready() && KernHolds(pm, kern, at, boot) && 1 <= l <= 3 && a % SizeOf(l) == 0 && a < SIZE_512G
    requires Vacant(pm.mem, kern, a, l) && Occupied(pm.mem, kern, at) && Tally(n, at, pm.pages.ring)
    modifies pm`mem, pm.pages, pm.pages.structs
    ensures pm.Ready() && KernHolds(pm, kern', at', boot) && (r == Ok || r == Fault)
    ensures r == Fault ==> |pm.pages.ring| <= 1 && Short(n, at.Keys + Paths(a, l))
    ensures r == Ok ==> at'.Keys == at.Keys + Paths(a, l) && Tally(n, at', pm.pages.ring)
    ensures r == Ok ==> Occupied(pm.mem, kern', at') && Installed(old(pm.mem), kern, pm.mem, kern', a, l, wt)
  {
    hide Rings.IsRing, MemPages.Valid, MakeEntry, KernWalk, Tree, GetFlag, FrameOf, WordOk, Leaf, IsLeaf, Index,
         Kernel, PathOf, KernHolds, SizeOf, Tally, Occupied, Short, Paths, Installed, Pruned;
    assert KernWalk(pm.mem, kern, Kernel(a)) == Unmapped;
    ghost var mem0 := pm.mem;
    var g;
    r, kern', g, at' := Reach(pm, kern, a, l, at, boot, n);
    if r == Fault {
      return;
    }
    ghost var mem1 := pm.mem;
    NothingPruned(mem0, kern, at, a, l, at');
    at' := StoreLeaf(pm, kern', g, a, l, wt, at', boot);
    InstalledFrom(mem0, kern, mem1, kern', pm.mem, kern', a, l, wt);
    OccupiedStep(mem0, kern, at, pm.mem, kern', at', a, l, wt);
  }

  lemma Counted(n: nat, at: Tables, ring: seq<int>, at': Tables, ring': seq<int>, p: seq<nat>)
    requires Tally(n, at, ring) && Charged(at, ring, at', ring', p)
    ensures Tally(n, at', ring') && at'.Keys == at.Keys + {p}
  {
    TallyStep(n, at, ring, at', ring', p);
  }

  lemma InstalledFrom(mem0: Memory, kern0: nat, mem1: Memory, kern1: nat, mem2: Memory, kern2: nat, a: nat, l: nat,
                      wt: bool)
    requires 1 <= l <= 3 && Installed(mem1, kern1, mem2, kern2, a, l, wt)
    requires forall v: nat :: KernWalk(mem1, kern1, v) == KernWalk(mem0, kern0, v)
    ensures Installed(mem0, kern0, mem2, kern2, a, l, wt)
  {
    hide KernWalk, Kernel, SizeOf;
  }

  // ----- MapPagesToPageTable

  function PageBase(p: nat): nat {
    p - p % SIZE_4K
  }

  /** The page of p starts in [start, end). */
  predicate InRange(p: nat, start: nat, end: nat) {
    start <= PageBase(p) < end
  }

  predicate MapsSelf(t: Translation, p: nat, wt: bool) {
    t.Mapped? && t.phys == p && t.writeThrough == wt && !t.cacheDisabled
  }

  /** The aligned stretch around p of level l's size lies in the range. */
  predicate StretchIn(p: nat, l: nat, r: Range)
    requires 1 <= l <= 3
  {
    r.start <= p / SizeOf(l) * SizeOf(l) && p / SizeOf(l) * SizeOf(l) + SizeOf(l) <= r.end
  }

  /** The addresses [start, end), and whether large entries may be used for them. */
  datatype Range = Range(start: nat, end: nat, large: bool)

  /** The size of the entry that should map p: the largest whose aligned stretch lies in the range. */
  function SizeAt(p: nat, r: Range): nat {
    if r.large && StretchIn(p, 3, r) then SIZE_1G
    else if r.large && StretchIn(p, 2, r) then SIZE_2M
    else SIZE_4K
  }

  /** The pages of the range that start below a map to themselves, by entries of the right size; the rest of the
      window is as before. */
  ghost predicate RangeMapped(mem0: Memory, kern0: nat, mem: Memory, kern: nat, r: Range, a: nat, wt: bool) {
    forall p: nat :: p < SIZE_512G ==> PageDone(mem0, kern0, mem, kern, r, a, wt, p)
  }

  ghost predicate PageDone(mem0: Memory, kern0: nat, mem: Memory, kern: nat, r: Range, a: nat, wt: bool, p: nat) {
    KernWalk(mem, kern, Kernel(p)) ==
    if InRange(p, r.start, a) then Mapped(p, SizeAt(p, r), wt, false) else KernWalk(mem0, kern0, Kernel(p))
  }

  /** Where the loop can be: never inside a stretch for which it could have used one entry. */
  predicate OnGrid(a: nat, r: Range) {
    r.large ==> (StretchIn(a, 3, r) ==> a % SIZE_1G == 0) && (StretchIn(a, 2, r) ==> a % SIZE_2M == 0)
  }

  lemma GridStart(r: Range)
    ensures OnGrid(r.start, r)
  {
    var a := r.start;
    DivMod(a, SIZE_1G, a / SIZE_1G, a % SIZE_1G);
    DivMod(a, SIZE_2M, a / SIZE_2M, a % SIZE_2M);
  }

  lemma SameBlock(a: nat, s: nat, n: nat)
    requires s > 0 && n > 0 && a % s == 0 && (a + s) % (s * n) != 0
    ensures (a + s) / (s * n) == a / (s * n)
  {
    var m, k := s * n, a / s;
    var q, r := (a + s) / m, (a + s) % m;
    assert a + s == m * q + r;
    var d := k + 1 - n * q;
    assert r == s * d;
    assert d <= 0 ==> s * d <= 0;
    MulAtLeast(s, d);
    DivMod(a, m, q, r - s);
  }

  lemma Coarser(p: nat, a: nat)
    ensures p / SIZE_4K == a / SIZE_4K ==> p / SIZE_2M == a / SIZE_2M
    ensures p / SIZE_2M == a / SIZE_2M ==> p / SIZE_1G == a / SIZE_1G
  {
    Quarter(p);
    Quarter(a);
  }

  lemma Quarter(p: nat)
    ensures p / SIZE_2M == p / SIZE_4K / 512 && p / SIZE_1G == p / SIZE_2M / 512
  {
    var x, y := p / SIZE_4K, p / SIZE_2M;
    DivMod(p, SIZE_2M, x / 512, SIZE_4K * (x % 512) + p % SIZE_4K);
    DivMod(p, SIZE_1G, y / 512, SIZE_2M * (y % 512) + p % SIZE_2M);
  }

  /** The entry chosen at a has the right size for every address of its stretch. */
  lemma LevelIsSize(p: nat, a: nat, r: Range)
    requires a % SIZE_4K == 0 && r.start <= a < r.end && OnGrid(a, r)
    requires p / SizeOf(Level(a, r.end, r.large)) == a / SizeOf(Level(a, r.end, r.large))
    ensures SizeAt(p, r) == SizeOf(Level(a, r.end, r.large))
  {
    Coarser(p, a);
    DivMod(a, SIZE_1G, a / SIZE_1G, a % SIZE_1G);
    DivMod(a, SIZE_2M, a / SIZE_2M, a % SIZE_2M);
  }

  lemma GridStep(a: nat, r: Range)
    requires a % SIZE_4K == 0 && r.start <= a < r.end && OnGrid(a, r)
    ensures OnGrid(a + SizeOf(Level(a, r.end, r.large)), r)
  {
    hide StretchIn, OnGrid;
    var l := Level(a, r.end, r.large);
    if l == 3 {
      GridAfterLarge(a, r);
    } else if r.large {
      GridWithin(a, SizeOf(l), 3, r);
      GridWithin(a, SizeOf(l), 2, r);
      GridOf(a, r);
      GridTo(a + SizeOf(l), r);
    } else {
      GridSmall(a + SizeOf(l), r);
    }
  }

  lemma GridSmall(a: nat, r: Range)
    requires !r.large
    ensures OnGrid(a, r)
  {
  }

  lemma GridOf(a: nat, r: Range)
    requires OnGrid(a, r) && r.large
    ensures StretchIn(a, 3, r) ==> a % SIZE_1G == 0 && a + SIZE_1G <= r.end
    ensures StretchIn(a, 2, r) ==> a % SIZE_2M == 0 && a + SIZE_2M <= r.end
  {
    DivMod(a, SIZE_1G, a / SIZE_1G, a % SIZE_1G);
    DivMod(a, SIZE_2M, a / SIZE_2M, a % SIZE_2M);
  }

  lemma GridTo(a: nat, r: Range)
    requires StretchIn(a, 3, r) ==> a % SIZE_1G == 0
    requires StretchIn(a, 2, r) ==> a % SIZE_2M == 0
    ensures OnGrid(a, r)
  {
  }

  lemma GridAfterLarge(a: nat, r: Range)
    requires a % SIZE_1G == 0
    ensures OnGrid(a + SIZE_1G, r)
  {
    hide StretchIn;
    DivMod(a + SIZE_1G, SIZE_1G, a / SIZE_1G + 1, 0);
    DivMod(a + SIZE_1G, SIZE_2M, 512 * (a / SIZE_1G + 1), 0);
  }

  /** A step of size s either reaches a boundary of level l's stretches or stays in the stretch. */
  lemma GridWithin(a: nat, s: nat, l: nat, r: Range)
    requires (s == SIZE_4K || s == SIZE_2M) && a % s == 0 && 2 <= l <= 3
    ensures (a + s) % SizeOf(l) == 0 || (StretchIn(a + s, l, r) <==> StretchIn(a, l, r))
  {
    var n := if l == 2 then (if s == SIZE_4K then 512 else 1) else (if s == SIZE_4K then 0x4_0000 else 512);
    assert SizeOf(l) == s * n;
    if (a + s) % SizeOf(l) != 0 {
      SameBlock(a, s, n);
    }
  }

  lemma StretchRange(p: nat, a: nat, l: nat)
    requires 1 <= l <= 3 && a % SizeOf(l) == 0
    ensures p / SizeOf(l) == a / SizeOf(l) <==> InRange(p, a, a + SizeOf(l))
  {
    hide PageBase;
    AlignedBelow(p, a, l);
    BlockOf(p, a / SizeOf(l), SizeOf(l));
  }

  lemma BlockOf(p: nat, q: nat, m: nat)
    requires m > 0
    ensures p / m == q <==> m * q <= p < m * q + m
  {
    if m * q <= p < m * q + m {
      DivMod(p, m, q, p - m * q);
    }
  }

  lemma PageBelow(p: nat, k: nat)
    ensures SIZE_4K * k <= p <==> SIZE_4K * k <= PageBase(p)
  {
    var q := p / SIZE_4K;
    assert PageBase(p) == SIZE_4K * q;
  }

  lemma AlignedBelow(p: nat, a: nat, l: nat)
    requires 1 <= l <= 3 && a % SizeOf(l) == 0
    ensures a <= p <==> a <= PageBase(p)
    ensures a + SizeOf(l) <= p <==> a + SizeOf(l) <= PageBase(p)
  {
    hide PageBase;
    var m, q := SizeOf(l), a / SizeOf(l);
    var n := if l == 1 then 1 else if l == 2 then 512 else 0x4_0000;
    assert a == SIZE_4K * (n * q) && a + m == SIZE_4K * (n * (q + 1));
    PageBelow(p, n * q);
    PageBelow(p, n * (q + 1));
  }

  lemma RangeStep(mem0: Memory, kern0: nat, mem1: Memory, kern1: nat, mem2: Memory, kern2: nat, r: Range, a: nat,
                  wt: bool)
    requires a % SIZE_4K == 0 && r.start <= a < r.end && OnGrid(a, r)
    requires RangeMapped(mem0, kern0, mem1, kern1, r, a, wt)
    requires Installed(mem1, kern1, mem2, kern2, a, Level(a, r.end, r.large), wt)
    ensures RangeMapped(mem0, kern0, mem2, kern2, r, a + SizeOf(Level(a, r.end, r.large)), wt)
  {
    hide KernWalk, Kernel, SizeOf, Level, OnGrid, SizeAt;
    LevelFacts(a, r.end, r.large);
    var l := Level(a, r.end, r.large);
    var b := a + SizeOf(l);
    forall p: nat | p < SIZE_512G ensures PageDone(mem0, kern0, mem2, kern2, r, b, wt, p) {
      assert PageDone(mem0, kern0, mem1, kern1, r, a, wt, p);
      StretchRange(p, a, l);
      if p / SizeOf(l) == a / SizeOf(l) {
        LevelIsSize(p, a, r);
      }
    }
  }

  /** The largest entry that starts at addr and does not pass the end. */
  function Level(addr: nat, end: nat, skip: bool): (l: nat)
    requires addr % SIZE_4K == 0
    ensures 1 <= l <= 3 && addr % SizeOf(l) == 0
    ensures l == 1 || addr + SizeOf(l) <= end
  {
    if skip && addr % SIZE_1G == 0 && addr + SIZE_1G <= end then 3
    else if skip && addr % SIZE_2M == 0 && addr + SIZE_2M <= end then 2
    else 1
  }

  lemma NextAddress(addr: nat, l: nat)
    requires 1 <= l <= 3 && addr % SIZE_4K == 0
    ensures (addr + SizeOf(l)) % SIZE_4K == 0
  {
    var n := if l == 1 then 1 else if l == 2 then 512 else 0x4_0000;
    DivMod(addr + SizeOf(l), SIZE_4K, addr / SIZE_4K + n, 0);
  }

  /** The tables above all the entries for [addr, end). */
  function RangePaths(addr: nat, end: nat, skip: bool): set<seq<nat>>
    requires addr % SIZE_4K == 0
    decreases end - addr
  {
    if addr >= end then {}
    else
      var l := Level(addr, end, skip);
      NextAddress(addr, l);
      Paths(addr, l) + RangePaths(addr + SizeOf(l), end, skip)
  }

  /** MapPagesToPageTable. */
  method MapPages(pm: PhysicalMemory, kern: nat, start: nat, len: nat, skip: bool, wt: bool, ghost at: Tables,
                  ghost boot: Boot, ghost n: nat)
    returns (r: Result, kern': nat, ghost at': Tables)
    requires pm.Ready() && KernHolds(pm, kern, at, boot) && start % SIZE_4K == 0 && start + len <= SIZE_512G
    requires Untouched(pm.mem, kern, start, start + len)
    requires Occupied(pm.mem, kern, at) && Tally(n, at, pm.pages.ring)
    modifies pm`mem, pm.pages, pm.pages.structs
    ensures pm.Ready() && KernHolds(pm, kern', at', boot) && (r == Ok || r == Fault)
    ensures r == Fault ==> |pm.pages.ring| <= 1 && Short(n, at.Keys + RangePaths(start, start + len, skip))
    ensures r == Ok ==> at'.Keys == at.Keys + RangePaths(start, start + len, skip) && Tally(n, at', pm.pages.ring)
    ensures r == Ok ==> Occupied(pm.mem, kern', at')
    ensures r == Ok ==>
              RangeMapped(old(pm.mem), kern, pm.mem, kern', Range(start, start + len, skip), start + len, wt)
  {
    hide KernWalk, Kernel, KernHolds, RangeMapped, Installed, MemPages.Valid, Rings.IsRing, Occupied, Tally, Short,
         Paths, Vacant, RangePaths, Level, SizeOf, Untouched, OnGrid;
    kern', at', r := kern, at, Ok;
    ghost var all := at.Keys + RangePaths(start, start + len, skip);
    var addr := start;
    ghost var all0 := Range(start, start + len, skip);
    NothingYet(pm.mem, kern, all0, wt);
    GridStart(all0);
    while addr < start + len
      invariant start <= addr < start + len + SIZE_4K && addr % SIZE_4K == 0 && r == Ok
      invariant pm.Ready() && KernHolds(pm, kern', at', boot)
      invariant RangeMapped(old(pm.mem), kern, pm.mem, kern', all0, addr, wt) && OnGrid(addr, all0)
      invariant Occupied(pm.mem, kern', at') && Tally(n, at', pm.pages.ring)
      invariant at'.Keys + RangePaths(addr, start + len, skip) == all
      decreases start + len + SIZE_4K - addr
    {
      ghost var mem1, kern1, at1 := pm.mem, kern', at';
      var l := Level(addr, start + len, skip);
      LevelFacts(addr, start + len, skip);
      StillVacant(old(pm.mem), kern, pm.mem, kern', all0, addr, l, wt);
      r, kern', at' := MapStretch(pm, kern', addr, l, wt, at', boot, n);
      if r != Ok {
        StillShort(n, at1.Keys + Paths(addr, l), all);
        return;
      }
      RangeStep(old(pm.mem), kern, mem1, kern1, pm.mem, kern', all0, addr, wt);
      GridStep(addr, all0);
      addr := addr + SizeOf(l);
    }
    NoPaths(addr, start + len, skip);
    LastPageRounds(old(pm.mem), kern, pm.mem, kern', all0, addr, wt);
  }

  lemma LevelFacts(addr: nat, end: nat, skip: bool)
    requires addr % SIZE_4K == 0 && addr < end
    ensures var l := Level(addr, end, skip);
            && 1 <= l <= 3 && addr % SizeOf(l) == 0 && (l == 1 || addr + SizeOf(l) <= end)
            && 0 < SizeOf(l) && addr + SizeOf(l) < end + SIZE_4K && (addr + SizeOf(l)) % SIZE_4K == 0
            && RangePaths(addr, end, skip) == Paths(addr, l) + RangePaths(addr + SizeOf(l), end, skip)
  {
    hide Paths;
    NextAddress(addr, Level(addr, end, skip));
  }

  lemma NoPaths(addr: nat, end: nat, skip: bool)
    requires addr % SIZE_4K == 0 && addr >= end
    ensures RangePaths(addr, end, skip) == {}
  {
  }

  /** No page that starts in [start, end) is mapped. */
  ghost predicate Untouched(mem: Memory, kern: nat, start: nat, end: nat) {
    forall p: nat :: p < SIZE_512G && InRange(p, start, end) ==> KernWalk(mem, kern, Kernel(p)) == Unmapped
  }

  lemma NothingYet(mem: Memory, kern: nat, r: Range, wt: bool)
    ensures RangeMapped(mem, kern, mem, kern, r, r.start, wt)
  {
  }

  lemma StillVacant(mem0: Memory, kern0: nat, mem: Memory, kern: nat, r: Range, a: nat, l: nat, wt: bool)
    requires RangeMapped(mem0, kern0, mem, kern, r, a, wt) && r.start <= a < r.end <= SIZE_512G
    requires 1 <= l <= 3 && a % SizeOf(l) == 0 && a % SIZE_4K == 0 && (l == 1 || a + SizeOf(l) <= r.end)
    requires Untouched(mem0, kern0, r.start, r.end)
    ensures Vacant(mem, kern, a, l)
  {
    hide KernWalk, Kernel, SizeOf;
    forall p: nat | p < SIZE_512G && p / SizeOf(l) == a / SizeOf(l) ensures KernWalk(mem, kern, Kernel(p)) == Unmapped {
      StretchRange(p, a, l);
      assert PageDone(mem0, kern0, mem, kern, r, a, wt, p);
      StretchPage(p, a, l, r.end);
    }
  }

  lemma StretchPage(p: nat, a: nat, l: nat, end: nat)
    requires 1 <= l <= 3 && a % SIZE_4K == 0 && a < end && (l == 1 || a + SizeOf(l) <= end)
    requires InRange(p, a, a + SizeOf(l))
    ensures InRange(p, a, end)
  {
    if l == 1 {
      var x, y := p / SIZE_4K, a / SIZE_4K;
      assert PageBase(p) == SIZE_4K * x && a == SIZE_4K * y;
    }
  }

  /** A partial last page is mapped whole. */
  lemma LastPageRounds(mem0: Memory, kern0: nat, mem: Memory, kern: nat, r: Range, a: nat, wt: bool)
    requires RangeMapped(mem0, kern0, mem, kern, r, a, wt) && a % SIZE_4K == 0 && r.end <= a < r.end + SIZE_4K
    ensures RangeMapped(mem0, kern0, mem, kern, r, r.end, wt)
  {
    hide KernWalk, Kernel, SizeAt;
    forall p: nat | p < SIZE_512G ensures PageDone(mem0, kern0, mem, kern, r, r.end, wt, p) {
      assert PageDone(mem0, kern0, mem, kern, r, a, wt, p);
      assert InRange(p, r.start, r.end) <==> InRange(p, r.start, a);
    }
  }

  // ----- InitKernelPageTable

  /** Entry e is page-aligned and the page of p starts in it. */
  predicate Covers(e: MmapEntry, p: nat) {
    e.addr % SIZE_4K == 0 && InRange(p, e.addr, e.addr + e.len)
  }

  ghost predicate Disjoint(entries: seq<MmapEntry>) {
    forall i, j :: 0 <= i < j < |entries| ==>
      entries[i].addr + entries[i].len <= entries[j].addr || entries[j].addr + entries[j].len <= entries[i].addr
  }

  /** max_phy_, as MemPages::Init leaves it. */
  function MaxPhys(entries: seq<MmapEntry>): (m: nat)
    ensures forall i :: 0 <= i < |entries| ==> entries[i].addr + entries[i].len <= m
    ensures m > 0 ==> exists i :: 0 <= i < |entries| && entries[i].addr + entries[i].len == m
  {
    if entries == [] then 0
    else
      var e, m := entries[|entries| - 1], MaxPhys(entries[..|entries| - 1]);
      assert forall i :: 0 <= i < |entries| - 1 ==> entries[..|entries| - 1][i] == entries[i];
      if m > e.addr + e.len then m else e.addr + e.len
  }

  /** The range of an entry; only available memory is mapped by large entries. */
  function RangeOf(e: MmapEntry): Range {
    Range(e.addr, e.addr + e.len, e.kind == AVAILABLE)
  }

  /** What address p of the window should translate to under the first n entries. */
  ghost predicate Right(entries: seq<MmapEntry>, n: nat, t: Translation, p: nat)
    requires n <= |entries|
  {
    && (forall i :: 0 <= i < n && Covers(entries[i], p) ==>
          MapsSelf(t, p, entries[i].kind != AVAILABLE) && t.size == SizeAt(p, RangeOf(entries[i])))
    && (t == Unmapped || exists i :: 0 <= i < n && Covers(entries[i], p))
  }

  ghost predicate AllRight(entries: seq<MmapEntry>, n: nat, mem: Memory, kern: nat)
    requires n <= |entries|
  {
    forall p: nat :: p < SIZE_512G ==> Right(entries, n, KernWalk(mem, kern, Kernel(p)), p)
  }

  /** Disjoint entries never start the same page. */
  lemma CoverOnce(entries: seq<MmapEntry>, i: nat, j: nat, p: nat)
    requires Disjoint(entries) && i < |entries| && j < |entries| && Covers(entries[i], p) && Covers(entries[j], p)
    ensures i == j
  {
  }

  lemma EntryUnmapped(entries: seq<MmapEntry>, n: nat, mem: Memory, kern: nat)
    requires Disjoint(entries) && n < |entries| && AllRight(entries, n, mem, kern) && entries[n].addr % SIZE_4K == 0
    ensures Untouched(mem, kern, entries[n].addr, entries[n].addr + entries[n].len)
  {
    hide KernWalk, Kernel;
    forall p: nat | p < SIZE_512G && InRange(p, entries[n].addr, entries[n].addr + entries[n].len)
      ensures KernWalk(mem, kern, Kernel(p)) == Unmapped
    {
      assert Right(entries, n, KernWalk(mem, kern, Kernel(p)), p);
      if KernWalk(mem, kern, Kernel(p)) != Unmapped {
        var i :| 0 <= i < n && Covers(entries[i], p);
        CoverOnce(entries, i, n, p);
      }
    }
  }

  lemma EntryDone(entries: seq<MmapEntry>, n: nat, mem0: Memory, kern0: nat, mem: Memory, kern: nat)
    requires Disjoint(entries) && n < |entries| && AllRight(entries, n, mem0, kern0) && entries[n].addr % SIZE_4K == 0
    requires RangeMapped(mem0, kern0, mem, kern, RangeOf(entries[n]), entries[n].addr + entries[n].len,
                         entries[n].kind != AVAILABLE)
    ensures AllRight(entries, n + 1, mem, kern)
  {
    hide KernWalk, Kernel;
    var e := entries[n];
    var end, wt := e.addr + e.len, e.kind != AVAILABLE;
    forall p: nat | p < SIZE_512G ensures Right(entries, n + 1, KernWalk(mem, kern, Kernel(p)), p) {
      assert PageDone(mem0, kern0, mem, kern, RangeOf(e), end, wt, p);
      assert Right(entries, n, KernWalk(mem0, kern0, Kernel(p)), p);
      if Covers(e, p) {
        forall i | 0 <= i < n + 1 && Covers(entries[i], p) ensures i == n {
          CoverOnce(entries, i, n, p);
        }
      } else if i :| 0 <= i < n && Covers(entries[i], p) {
        assert 0 <= i < n + 1;
      }
    }
  }

  lemma EntrySkipped(entries: seq<MmapEntry>, n: nat, mem: Memory, kern: nat)
    requires n < |entries| && AllRight(entries, n, mem, kern) && entries[n].addr % SIZE_4K != 0
    ensures AllRight(entries, n + 1, mem, kern)
  {
    hide KernWalk, Kernel;
    forall p: nat | p < SIZE_512G ensures Right(entries, n + 1, KernWalk(mem, kern, Kernel(p)), p) {
      assert Right(entries, n, KernWalk(mem, kern, Kernel(p)), p);
      if i :| 0 <= i < n && Covers(entries[i], p) {
        assert 0 <= i < n + 1;
      }
    }
  }

  /** The tables above the direct map of the first n entries. */
  function MapPaths(entries: seq<MmapEntry>, n: nat): set<seq<nat>>
    requires n <= |entries|
  {
    if n == 0 then {} else MapPaths(entries, n - 1) + EntryPaths(entries[n - 1])
  }

  function EntryPaths(e: MmapEntry): set<seq<nat>> {
    if e.addr % SIZE_4K != 0 then {} else RangePaths(e.addr, e.addr + e.len, e.kind == AVAILABLE)
  }

  lemma {:induction false} MorePaths(entries: seq<MmapEntry>, m: nat, n: nat)
    requires m <= n <= |entries|
    ensures MapPaths(entries, m) <= MapPaths(entries, n)
    decreases n
  {
    if m < n {
      MorePaths(entries, m, n - 1);
    }
  }

  // ----- how many tables that is

  /** Entry i of the map has p on a page it covers. */
  ghost predicate CoveredBy(entries: seq<MmapEntry>, i: int, p: nat) {
    0 <= i < |entries| && p < SIZE_512G && Covers(entries[i], p)
  }

  /** The s-th stretch of level l's size has an address that is mapped by a smaller entry. */
  ghost predicate Splits(entries: seq<MmapEntry>, l: nat, s: nat)
    requires 1 <= l <= 3
  {
    exists i, p: nat :: CoveredBy(entries, i, p) && p / SizeOf(l) == s && SizeAt(p, RangeOf(entries[i])) < SizeOf(l)
  }

  ghost function SplitStretches(entries: seq<MmapEntry>, l: nat): set<nat>
    requires 1 <= l <= 3
  {
    set s: nat | s < SIZE_512G / SizeOf(l) && Splits(entries, l, s)
  }

  /** How many tables the direct map takes: one if anything is mapped, one for every 1 GB and one for every 2 MB
      stretch that is split. */
  ghost function TablesNeeded(entries: seq<MmapEntry>): nat {
    (if exists i, p: nat :: CoveredBy(entries, i, p) then 1 else 0)
    + |SplitStretches(entries, 3)| + |SplitStretches(entries, 2)|
  }

  /** q is the path of a table above the entry of this size for p. */
  predicate Above(p: nat, size: nat, q: seq<nat>) {
    || q == [] || (size < SIZE_1G && q == [p / SIZE_1G])
    || (size < SIZE_2M && q == [p / SIZE_1G, p / SIZE_2M % 512])
  }

  lemma PathsAbove(a: nat, l: nat, q: seq<nat>)
    requires 1 <= l <= 3 && a < SIZE_512G
    ensures q in Paths(a, l) <==> Above(a, SizeOf(l), q)
  {
    hide Kernel, Index;
    KernelIndex(a);
    PathElements(Kernel(a));
  }

  ghost predicate Reason(r: Range, a: nat, p: nat, q: seq<nat>) {
    InRange(p, a, r.end) && Above(p, SizeAt(p, r), q)
  }

  /** The tables of a range are those above the entries of its addresses. */
  lemma {:induction false} RangeAbove(r: Range, a: nat, q: seq<nat>)
    requires a % SIZE_4K == 0 && r.start <= a && OnGrid(a, r) && r.end <= SIZE_512G
    ensures q in RangePaths(a, r.end, r.large) <==> exists p: nat :: Reason(r, a, p, q)
    decreases r.end - a
  {
    hide Paths, SizeAt, Above, OnGrid, RangePaths, Level, SizeOf, InRange;
    if a >= r.end {
      NoPaths(a, r.end, r.large);
      NoneInRange(r, a, q);
    } else {
      LevelFacts(a, r.end, r.large);
      var l := Level(a, r.end, r.large);
      var b := a + SizeOf(l);
      GridStep(a, r);
      RangeAbove(r, b, q);
      PathsAbove(a, l, q);
      if Above(a, SizeOf(l), q) {
        FirstReason(r, a, q);
      }
      forall p: nat | Reason(r, b, p, q) ensures Reason(r, a, p, q) {
        Wider(p, a, b, r.end);
      }
      forall p: nat | Reason(r, a, p, q) ensures Above(a, SizeOf(l), q) || Reason(r, b, p, q) {
        SplitReason(r, a, p, q);
      }
    }
  }

  lemma NoneInRange(r: Range, a: nat, q: seq<nat>)
    requires a >= r.end
    ensures !exists p: nat :: Reason(r, a, p, q)
  {
  }

  lemma Wider(p: nat, a: nat, b: nat, end: nat)
    requires InRange(p, b, end) && a <= b
    ensures InRange(p, a, end)
  {
  }

  lemma FirstReason(r: Range, a: nat, q: seq<nat>)
    requires a % SIZE_4K == 0 && r.start <= a < r.end && OnGrid(a, r)
    requires Above(a, SizeOf(Level(a, r.end, r.large)), q)
    ensures Reason(r, a, a, q)
  {
    hide SizeAt, Above, OnGrid, Level, SizeOf;
    LevelIsSize(a, a, r);
  }

  lemma SplitReason(r: Range, a: nat, p: nat, q: seq<nat>)
    requires a % SIZE_4K == 0 && r.start <= a < r.end && OnGrid(a, r) && Reason(r, a, p, q)
    ensures var l := Level(a, r.end, r.large); Above(a, SizeOf(l), q) || Reason(r, a + SizeOf(l), p, q)
  {
    hide SizeAt, OnGrid, Level, SizeOf, Above;
    LevelFacts(a, r.end, r.large);
    var l := Level(a, r.end, r.large);
    StretchRange(p, a, l);
    if p / SizeOf(l) == a / SizeOf(l) {
      LevelIsSize(p, a, r);
      SameAbove(p, a, l, q);
    }
  }

  lemma SameAbove(p: nat, a: nat, l: nat, q: seq<nat>)
    requires 1 <= l <= 3 && p / SizeOf(l) == a / SizeOf(l) && Above(p, SizeOf(l), q)
    ensures Above(a, SizeOf(l), q)
  {
    Coarser(p, a);
  }

  ghost predicate Wanted(entries: seq<MmapEntry>, i: int, p: nat, q: seq<nat>) {
    CoveredBy(entries, i, p) && Above(p, SizeAt(p, RangeOf(entries[i])), q)
  }

  lemma {:induction false} MapAbove(entries: seq<MmapEntry>, n: nat, q: seq<nat>)
    requires n <= |entries| && MaxPhys(entries) <= SIZE_512G
    ensures q in MapPaths(entries, n) <==> exists i, p: nat :: i < n && Wanted(entries, i, p, q)
  {
    hide RangePaths, SizeAt, Above, MaxPhys;
    if n > 0 {
      MapAbove(entries, n - 1, q);
      EntryAbove(entries, n - 1, q);
    }
  }

  lemma EntryAbove(entries: seq<MmapEntry>, i: nat, q: seq<nat>)
    requires i < |entries| && MaxPhys(entries) <= SIZE_512G
    ensures q in EntryPaths(entries[i]) <==> exists p: nat :: Wanted(entries, i, p, q)
  {
    hide RangePaths, SizeAt, Above, MaxPhys, OnGrid;
    var e := entries[i];
    EntryEnds(entries, i);
    if e.addr % SIZE_4K == 0 {
      var r := RangeOf(e);
      GridStart(r);
      RangeAbove(r, e.addr, q);
      forall p: nat ensures Reason(r, e.addr, p, q) <==> Wanted(entries, i, p, q) {
        InWindow(p, e);
      }
    }
  }

  lemma InWindow(p: nat, e: MmapEntry)
    requires e.addr + e.len <= SIZE_512G
    ensures InRange(p, e.addr, e.addr + e.len) ==> p < SIZE_512G
  {
    var k := p / SIZE_4K;
    assert PageBase(p) == SIZE_4K * k && p < SIZE_4K * k + SIZE_4K;
  }

  // ----- and their number

  ghost function GigPaths(s: set<nat>): set<seq<nat>> {
    set x | x in s :: [x]
  }

  ghost function MegPaths(s: set<nat>): set<seq<nat>> {
    set x | x in s :: MegPath(x)
  }

  lemma {:induction false} GigCount(s: set<nat>)
    ensures |GigPaths(s)| == |s|
  {
    if s != {} {
      var x :| x in s;
      GigCount(s - {x});
      assert GigPaths(s) == GigPaths(s - {x}) + {[x]};
      assert [x] !in GigPaths(s - {x});
    }
  }

  function MegPath(x: nat): seq<nat> {
    [x / 512, x % 512]
  }

  lemma MegDistinct(x: nat, y: nat)
    ensures MegPath(x) == MegPath(y) <==> x == y
  {
    var p, q := MegPath(x), MegPath(y);
    assert x == 512 * p[0] + p[1] && y == 512 * q[0] + q[1];
  }

  lemma {:induction false} MegCount(s: set<nat>)
    ensures |MegPaths(s)| == |s|
  {
    if s != {} {
      var x :| x in s;
      MegCount(s - {x});
      assert MegPaths(s) == MegPaths(s - {x}) + {MegPath(x)};
      forall y | y in s - {x} ensures MegPath(y) != MegPath(x) {
        MegDistinct(x, y);
      }
      assert MegPath(x) !in MegPaths(s - {x});
    }
  }

  ghost function TopPaths(entries: seq<MmapEntry>): set<seq<nat>> {
    if exists i, p: nat :: CoveredBy(entries, i, p) then {[]} else {}
  }

  lemma TablesCount(entries: seq<MmapEntry>)
    requires MaxPhys(entries) <= SIZE_512G
    ensures |MapPaths(entries, |entries|)| == TablesNeeded(entries)
  {
    hide MapPaths, SplitStretches, MaxPhys, CoveredBy;
    var gig, meg := SplitStretches(entries, 3), SplitStretches(entries, 2);
    var top, g, m := TopPaths(entries), GigPaths(gig), MegPaths(meg);
    forall q ensures q in MapPaths(entries, |entries|) <==> q in top + g + m {
      MapAbove(entries, |entries|, q);
      PathKinds(entries, q);
    }
    assert MapPaths(entries, |entries|) == top + g + m;
    GigCount(gig);
    MegCount(meg);
    Lengths(top, g, m, entries, gig, meg);
  }

  lemma Lengths(top: set<seq<nat>>, g: set<seq<nat>>, m: set<seq<nat>>, entries: seq<MmapEntry>, gig: set<nat>,
                meg: set<nat>)
    requires top == TopPaths(entries) && g == GigPaths(gig) && m == MegPaths(meg)
    ensures |top + g + m| == |top| + |g| + |m|
  {
    hide CoveredBy;
    assert forall q :: q in top ==> |q| == 0;
    assert forall q :: q in g ==> |q| == 1;
    assert forall q :: q in m ==> |q| == 2;
    assert top !! g && (top + g) !! m;
  }

  lemma PathKinds(entries: seq<MmapEntry>, q: seq<nat>)
    ensures (exists i, p: nat :: i < |entries| && Wanted(entries, i, p, q)) <==>
            || q in TopPaths(entries) || q in GigPaths(SplitStretches(entries, 3))
            || q in MegPaths(SplitStretches(entries, 2))
  {
    hide SizeAt, Covers;
    if i, p: nat :| i < |entries| && Wanted(entries, i, p, q) {
      KindOf(entries, i, p, q);
    }
    if q in TopPaths(entries) {
      var i, p: nat :| CoveredBy(entries, i, p);
      assert Wanted(entries, i, p, q);
    }
    if q in GigPaths(SplitStretches(entries, 3)) {
      var s :| s in SplitStretches(entries, 3) && q == [s];
      var i, p: nat :| CoveredBy(entries, i, p) && p / SizeOf(3) == s && SizeAt(p, RangeOf(entries[i])) < SizeOf(3);
      assert Wanted(entries, i, p, q);
    }
    if q in MegPaths(SplitStretches(entries, 2)) {
      var s :| s in SplitStretches(entries, 2) && q == MegPath(s);
      var i, p: nat :| CoveredBy(entries, i, p) && p / SizeOf(2) == s && SizeAt(p, RangeOf(entries[i])) < SizeOf(2);
      Quarter(p);
      assert Wanted(entries, i, p, q);
    }
  }

  lemma KindOf(entries: seq<MmapEntry>, i: int, p: nat, q: seq<nat>)
    requires Wanted(entries, i, p, q)
    ensures q in TopPaths(entries) || q in GigPaths(SplitStretches(entries, 3))
            || q in MegPaths(SplitStretches(entries, 2))
  {
    hide SizeAt, Covers;
    Quarter(p);
    InStretches(p);
    if q == [] {
    } else if q == [p / SIZE_1G] {
      assert Splits(entries, 3, p / SIZE_1G);
      assert p / SIZE_1G in SplitStretches(entries, 3);
    } else {
      assert Splits(entries, 2, p / SIZE_2M);
      assert p / SIZE_2M in SplitStretches(entries, 2) && q == MegPath(p / SIZE_2M);
    }
  }

  lemma InStretches(p: nat)
    requires p < SIZE_512G
    ensures p / SIZE_1G < SIZE_512G / SIZE_1G && p / SIZE_2M < SIZE_512G / SIZE_2M
  {
  }

  /** A gigabyte of available memory that starts on its boundary takes one table. */
  lemma OneGigabyte()
    ensures TablesNeeded([MmapEntry(SIZE_1G, SIZE_1G, AVAILABLE)]) == 1
  {
    var entries := [MmapEntry(SIZE_1G, SIZE_1G, AVAILABLE)];
    forall i, p: nat | CoveredBy(entries, i, p) ensures SizeAt(p, RangeOf(entries[i])) == SIZE_1G {
      var q := p / SIZE_1G;
      assert PageBase(p) <= p < PageBase(p) + SIZE_4K;
      StretchRange(p, SIZE_1G, 3);
      assert q == 1;
    }
    assert CoveredBy(entries, 0, SIZE_1G);
    forall l: nat, s: nat | 2 <= l <= 3 ensures !Splits(entries, l, s) {
    }
    assert SplitStretches(entries, 3) == {} && SplitStretches(entries, 2) == {};
  }

  /** One page-aligned entry of the memory map. */
  method MapEntry(pm: PhysicalMemory, kern: nat, e: MmapEntry, ghost at: Tables, ghost boot: Boot, ghost n: nat)
    returns (r: Result, kern': nat, ghost at': Tables)
    requires pm.Ready() && KernHolds(pm, kern, at, boot) && e.addr % SIZE_4K == 0 && e.addr + e.len <= SIZE_512G
    requires Untouched(pm.mem, kern, e.addr, e.addr + e.len)
    requires Occupied(pm.mem, kern, at) && Tally(n, at, pm.pages.ring)
    modifies pm`mem, pm.pages, pm.pages.structs
    ensures pm.Ready() && KernHolds(pm, kern', at', boot) && (r == Ok || r == Fault)
    ensures r == Fault ==> |pm.pages.ring| <= 1 && Short(n, at.Keys + EntryPaths(e))
    ensures r == Ok ==> at'.Keys == at.Keys + EntryPaths(e) && Tally(n, at', pm.pages.ring)
    ensures r == Ok ==> Occupied(pm.mem, kern', at')
    ensures r == Ok ==>
              RangeMapped(old(pm.mem), kern, pm.mem, kern', RangeOf(e), e.addr + e.len, e.kind != AVAILABLE)
  {
    hide KernWalk, Kernel, RangeMapped, MemPages.Valid, Rings.IsRing, RangePaths, KernHolds, Occupied, Tally, Short,
         Untouched, PhysicalMemory.Ready;
    if e.kind == AVAILABLE {
      r, kern', at' := MapPages(pm, kern, e.addr, e.len, true, false, at, boot, n);
    } else {
      r, kern', at' := MapPages(pm, kern, e.addr, e.len, false, true, at, boot, n);
    }
  }

  /** The loop of InitKernelPageTable over the memory map. */
  method BuildTables(pm: PhysicalMemory, entries: seq<MmapEntry>, ghost boot: Boot)
    returns (r: Result, kern: nat, ghost at: Tables)
    requires pm.Ready() && Disjoint(entries) && MaxPhys(entries) <= SIZE_512G
    requires boot.root in pm.mem && pm.mem[boot.root] == boot.frame && boot.root !in pm.pages.ring
    modifies pm`mem, pm.pages, pm.pages.structs
    ensures pm.Ready() && KernHolds(pm, kern, at, boot) && (r == Ok || r == Fault)
    ensures r == Fault ==> |pm.pages.ring| <= 1
    ensures r == Ok <==> Enough(|old(pm.pages.ring)|, TablesNeeded(entries))
    ensures r == Ok ==> at.Keys == MapPaths(entries, |entries|)
    ensures r == Ok ==> AllRight(entries, |entries|, pm.mem, kern)
  {
    hide KernWalk, Kernel, RangeMapped, MemPages.Valid, Rings.IsRing, AllRight, EntryPaths, Tree, Occupied, Tally,
         Short, Enough, TablesNeeded, KernHolds, Untouched, Disjoint, PhysicalMemory.Ready, MapPaths,
         MaxPhys;
    kern, at, r := 0, map[], Ok;
    ghost var n0 := |pm.pages.ring|;
    NoTables(pm.mem, entries);
    NoTally(pm.mem, pm.pages.ring);
    NothingHeld(pm, boot);
    FirstPaths(entries);
    for n := 0 to |entries|
      invariant pm.Ready() && KernHolds(pm, kern, at, boot) && r == Ok
      invariant AllRight(entries, n, pm.mem, kern)
      invariant at.Keys == MapPaths(entries, n) && Tally(n0, at, pm.pages.ring) && Occupied(pm.mem, kern, at)
    {
      if entries[n].addr % SIZE_4K != 0 {
        EntrySkipped(entries, n, pm.mem, kern);
        SkippedPaths(entries, n);
        continue;
      }
      EntryUnmapped(entries, n, pm.mem, kern);
      EntryEnds(entries, n);
      NextPaths(entries, n);
      ghost var mem0, kern0 := pm.mem, kern;
      r, kern, at := MapEntry(pm, kern, entries[n], at, boot, n0);
      if r != Ok {
        MorePaths(entries, n + 1, |entries|);
        NeverEnough(n0, MapPaths(entries, n + 1), entries);
        return;
      }
      EntryDone(entries, n, mem0, kern0, pm.mem, kern);
    }
    TallyEnough(n0, at, pm.pages.ring, entries);
  }

  lemma EntryEnds(entries: seq<MmapEntry>, n: nat)
    requires n < |entries| && MaxPhys(entries) <= SIZE_512G
    ensures entries[n].addr + entries[n].len <= SIZE_512G
  {
  }

  lemma FirstPaths(entries: seq<MmapEntry>)
    ensures MapPaths(entries, 0) == {}
  {
  }

  lemma NextPaths(entries: seq<MmapEntry>, n: nat)
    requires n < |entries|
    ensures MapPaths(entries, n + 1) == MapPaths(entries, n) + EntryPaths(entries[n])
  {
  }

  lemma SkippedPaths(entries: seq<MmapEntry>, n: nat)
    requires n < |entries| && entries[n].addr % SIZE_4K != 0
    ensures MapPaths(entries, n + 1) == MapPaths(entries, n)
  {
  }

  lemma NothingHeld(pm: PhysicalMemory, boot: Boot)
    requires boot.root in pm.mem && pm.mem[boot.root] == boot.frame && boot.root !in pm.pages.ring
    ensures KernHolds(pm, 0, map[], boot)
  {
    ZeroWord(4);
  }

  lemma NeverEnough(n: nat, paths: set<seq<nat>>, entries: seq<MmapEntry>)
    requires Short(n, paths) && paths <= MapPaths(entries, |entries|) && MaxPhys(entries) <= SIZE_512G
    ensures !Enough(n, TablesNeeded(entries))
  {
    hide TablesNeeded, MapPaths, MaxPhys;
    TablesCount(entries);
    StillShort(n, paths, MapPaths(entries, |entries|));
  }

  lemma NoTally(mem: Memory, ring: seq<int>)
    ensures Tally(|ring|, map[], ring) && Occupied(mem, 0, map[])
  {
  }

  lemma TallyEnough(n: nat, at: Tables, ring: seq<int>, entries: seq<MmapEntry>)
    requires Tally(n, at, ring) && at.Keys == MapPaths(entries, |entries|) && MaxPhys(entries) <= SIZE_512G
    ensures Enough(n, TablesNeeded(entries))
  {
    hide TablesNeeded, MapPaths, MaxPhys;
    TablesCount(entries);
  }

  lemma NoTables(mem: Memory, entries: seq<MmapEntry>)
    ensures !GetFlag(0, PRESENT) && AllRight(entries, 0, mem, 0)
  {
    ZeroWord(4);
  }

  /** The direct map: in the window, exactly the pages of page-aligned entries map, to themselves, write-through
      exactly where the entry is not available memory, and by the largest entries that fit; nothing else maps at
      all. */
  ghost predicate DirectMapped(entries: seq<MmapEntry>, mem: Memory, root: int) {
    && (forall p: nat :: p < SIZE_512G ==> Right(entries, |entries|, Walk(mem, root, 4, Kernel(p)), p))
    && (forall v: nat :: Index(v, 4) != 510 ==> Walk(mem, root, 4, v) == Unmapped)
  }

  /** The tables below slot 510 of the top table, seen from the top. */
  ghost function FromTop(root: int, at: Tables): Tables {
    map p | p in {[]} + Lifted(at) :: if p == [] then root else at[p[1..]]
  }

  ghost function Lifted(at: Tables): (s: set<seq<nat>>)
    ensures forall p :: p in s ==> p != [] && p[0] == 510 && p[1..] in at
    ensures forall q :: q in at ==> [510] + q in s
  {
    var s := set q | q in at :: [510] + q;
    assert forall q :: q in at ==> ([510] + q)[1..] == q;
    s
  }

  /** The top table is a frame whose other words have no stray bits. */
  ghost predicate TopOk(mem: Memory, root: int) {
    && root in mem && |mem[root]| == 512 && 0 <= root < 0x100_0000_0000
    && forall i: nat :: i < 512 && i != 0 && i != 510 ==> WordOk(mem[root][i])
  }

  /** InitKernelPageTable over the boot tables, which use slots 0 and 510 of the top table only.  It panics exactly
      when an entry ends beyond 512 GB and otherwise fails exactly when there is not one page more than the tables
      it needs.  What it leaves is the direct map, and a tree of tables on which MapPage can go on. */
  method InitKernelPageTable(pm: PhysicalMemory, root: int, entries: seq<MmapEntry>)
    returns (r: Result, ghost at: Tables)
    requires pm.Ready() && Disjoint(entries)
    requires forall i :: 0 <= i < |entries| ==> entries[i].addr + entries[i].len < 0x1_0000_0000_0000_0000
    requires root in pm.mem && |pm.mem[root]| == 512 && root !in pm.pages.ring
    requires forall i: nat :: i < 512 && i != 0 && i != 510 ==> !GetFlag(pm.mem[root][i], PRESENT)
    modifies pm`mem, pm.pages, pm.pages.structs
    ensures r == Panic <==> exists i :: 0 <= i < |entries| && entries[i].addr + entries[i].len > SIZE_512G
    ensures r != Panic ==> (r == Ok <==> Enough(|old(pm.pages.ring)|, TablesNeeded(entries)))
    ensures r == Ok || r == Panic || (r == Fault && |pm.pages.ring| <= 1)
    ensures r == Ok ==> DirectMapped(entries, pm.mem, root)
    ensures r == Ok ==> pm.Ready() && (TopOk(old(pm.mem), root) ==> pm.Holds(at, 4) && [] in at && at[[]] == root)
  {
    hide Kernel, MemPages.Valid, Rings.IsRing, Walk, Tree, GetFlag, TablesNeeded, Enough, MapPaths, WordOk;
    at := map[];
    if MaxPhys(entries) > SIZE_512G {
      return Panic, at;
    }
    ghost var boot := Boot(root, pm.mem[root]);
    var kern;
    ghost var low;
    r, kern, low := BuildTables(pm, entries, boot);
    if r != Ok {
      return;
    }
    ghost var built := pm.mem;
    pm.mem := Write(pm.mem, root, 0, 0);
    pm.mem := Write(pm.mem, root, 510, kern);
    forall p: nat | p < SIZE_512G ensures Right(entries, |entries|, Walk(pm.mem, root, 4, Kernel(p)), p) {
      assert Right(entries, |entries|, KernWalk(built, kern, Kernel(p)), p);
      WindowWalk(pm, built, root, kern, low, boot, p);
    }
    forall v: nat | Index(v, 4) != 510 ensures Walk(pm.mem, root, 4, v) == Unmapped {
      OutsideWindow(pm.mem, root, v);
    }
    at := FromTop(root, low);
    if TopOk(old(pm.mem), root) {
      TopTree(built, pm.mem, root, kern, low);
    }
    assert forall g :: g in pm.pages.ring ==> UsableIn(built, pm.pages, g);
  }

  /** The tables under kern_entry and the top table make one tree. */
  lemma TopTree(built: Memory, mem: Memory, root: int, kern: nat, at: Tables)
    requires TopOk(built, root) && WordOk(kern) && mem == Write(Write(built, root, 0, 0), root, 510, kern)
    requires forall q :: q in at ==> at[q] != root
    requires if GetFlag(kern, PRESENT) then Tree(built, at, 3) && [] in at && at[[]] == FrameOf(kern) else at == map[]
    requires forall i: nat :: i < 512 && i != 0 && i != 510 ==> !GetFlag(built[root][i], PRESENT)
    ensures Tree(mem, FromTop(root, at), 4)
  {
    hide GetFlag, WordOk, FrameOf;
    var all := FromTop(root, at);
    forall p | p in all ensures TableOk(mem, all, 4, p) {
      if p == [] {
        TopTableOk(built, mem, root, kern, at);
      } else {
        LowTableOk(built, mem, root, kern, at, p[1..]);
        assert p == [510] + p[1..];
      }
    }
    forall p, q | p in all && q in all && all[p] == all[q] ensures p == q {
      if p != [] && q != [] {
        assert at[p[1..]] == at[q[1..]];
        assert p == [510] + p[1..] && q == [510] + q[1..];
      }
    }
  }

  lemma TopTableOk(built: Memory, mem: Memory, root: int, kern: nat, at: Tables)
    requires TopOk(built, root) && WordOk(kern) && mem == Write(Write(built, root, 0, 0), root, 510, kern)
    requires if GetFlag(kern, PRESENT) then Tree(built, at, 3) && [] in at && at[[]] == FrameOf(kern) else at == map[]
    requires forall i: nat :: i < 512 && i != 0 && i != 510 ==> !GetFlag(built[root][i], PRESENT)
    ensures TableOk(mem, FromTop(root, at), 4, [])
  {
    hide GetFlag, WordOk, FrameOf, Tree;
    var all := FromTop(root, at);
    ZeroWord(4);
    TopSlot(kern);
    forall i: nat | i < 512 ensures SlotOk(mem, all, 4, [], i) {
      assert [] + [i] == [i];
      assert [i] in all ==> [i][0] == 510 && [i][1..] == [];
      if i == 510 && GetFlag(kern, PRESENT) {
        assert [510] + [] == [i];
      }
    }
  }

  lemma LowTableOk(built: Memory, mem: Memory, root: int, kern: nat, at: Tables, q: seq<nat>)
    requires root in built && |built[root]| == 512
    requires mem == Write(Write(built, root, 0, 0), root, 510, kern)
    requires (forall p :: p in at ==> at[p] != root) && q in at && Tree(built, at, 3)
    ensures [510] + q in FromTop(root, at) && TableOk(mem, FromTop(root, at), 4, [510] + q)
  {
    hide GetFlag, WordOk, FrameOf;
    var all := FromTop(root, at);
    var p := [510] + q;
    assert p[1..] == q;
    assert TableOk(built, at, 3, q);
    if q != [] {
      assert p[..|p| - 1] == [510] + q[..|q| - 1];
    }
    forall i: nat | i < 512 ensures SlotOk(mem, all, 4, p, i) {
      assert SlotOk(built, at, 3, q, i);
      assert p + [i] == [510] + (q + [i]) && (p + [i])[1..] == q + [i];
    }
  }

  lemma OutsideWindow(mem: Memory, root: int, v: nat)
    requires root in mem && |mem[root]| == 512 && Index(v, 4) != 510 && mem[root][0] == 0
    requires forall i: nat :: i < 512 && i != 0 && i != 510 ==> !GetFlag(mem[root][i], PRESENT)
    ensures Walk(mem, root, 4, v) == Unmapped
  {
    hide Index;
    ZeroWord(4);
  }

  lemma WindowWalk(pm: PhysicalMemory, built: Memory, root: int, kern: nat, at: Tables, boot: Boot, p: nat)
    requires p < SIZE_512G && root == boot.root && root in built && |built[root]| == 512
    requires pm.mem == Write(Write(built, root, 0, 0), root, 510, kern)
    requires forall q :: q in at ==> at[q] != root
    requires if GetFlag(kern, PRESENT) then WordOk(kern) && Tree(built, at, 3) && [] in at && at[[]] == FrameOf(kern)
             else at == map[]
    ensures Walk(pm.mem, root, 4, Kernel(p)) == KernWalk(built, kern, Kernel(p))
  {
    hide Kernel, Index, FrameOf, WordOk, Tree, GetFlag, Walk;
    KernelIndex(p);
    WalkStep(pm.mem, root, 4, Kernel(p));
    TopSlot(kern);
    if GetFlag(kern, PRESENT) {
      forall q | q in at ensures at[q] in pm.mem && at[q] in built && pm.mem[at[q]] == built[at[q]] {
        TableFacts(built, at, 3, q);
      }
      RootIn(built, at, 3);
      WalkAgrees(built, pm.mem, at, 3, Kernel(p), 0);
    } else {
      AbsentHere(kern, 4, Kernel(p));
    }
  }
}
