/** kern/page-table.h and kern/page-table.cc: building and changing page tables in memory. */
module PageTable {
  import opened Arithmetic
  import opened PageAllocator
  import opened PageWalk
  import opened PageTree

  /** Fault: AllocPage gave a null page.  Panic: the walk met a 2 MB entry where it wanted a table.  Astray: it
      took a 1 GB entry for a table and left the memory that is tracked here. */
  datatype Result = Ok | Panic | Fault | Astray

  /** What the path of an address meets above its last table. */
  datatype Meets = NoLarge | Large2M | Large1G

  function MeetsOnPath(mem: Memory, f: int, l: nat, v: nat): Meets
    requires 1 <= l <= 4
    decreases l
  {
    if l == 1 || f !in mem || |mem[f]| != 512 || !GetFlag(mem[f][Index(v, l)], PRESENT) then NoLarge
    else if IsLeaf(mem[f][Index(v, l)], l) then (if l == 2 then Large2M else Large1G)
    else MeetsOnPath(mem, FrameOf(mem[f][Index(v, l)]), l - 1, v)
  }

  /** How many tables of the path of v are still to be made below the level-l table in frame f. */
  function Missing(mem: Memory, f: int, l: nat, v: nat): nat
    requires 1 <= l <= 4
    decreases l
  {
    if l == 1 || f !in mem || |mem[f]| != 512 then 0
    else if !GetFlag(mem[f][Index(v, l)], PRESENT) then l - 1
    else Missing(mem, FrameOf(mem[f][Index(v, l)]), l - 1, v)
  }

  /** AllocPage gives n pages one after the other: none are wanted, or one is left over. */
  predicate Enough(free: nat, n: nat) {
    n == 0 || n < free
  }

  ghost predicate UsableIn(mem: Memory, pages: MemPages, g: int)
    reads pages, pages.structs
  {
    && 0 <= g < 0x100_0000_0000 && g in mem && |mem[g]| == 512
    && g < pages.structs.Length && pages.structs[g].phyaddr == g * SIZE_4K
  }

  class PhysicalMemory {
    const pages: MemPages
    var mem: Memory

    constructor (pages: MemPages, mem: Memory)
      ensures this.pages == pages && this.mem == mem
    {
      this.pages := pages;
      this.mem := mem;
    }

    /** Free pages are real memory with their addresses recorded. */
    ghost predicate Ready()
      reads this, pages, pages.structs
    {
      && pages.Valid()
      && forall g :: g in pages.ring ==> UsableIn(mem, pages, g)
    }

    /** AllocateOrPresent() on slot i of frame f, then the frame that operator[] goes to from there.  pd says
        that the slot is a page-directory entry, the only kind that is checked for being huge. */
    method Enter(f: int, i: nat, pd: bool) returns (r: Result, g: int)
      requires Ready() && f in mem && |mem[f]| == 512 && i < 512
      modifies this`mem, pages, pages.structs
      ensures Ready() && Entered(old(mem), old(pages.ring), mem, pages.ring, f, i, pd, r, g)
    {
      hide Rings.IsRing, MakeEntry;
      if !GetFlag(mem[f][i], PRESENT) {
        assert forall x :: x in pages.ring ==> UsableIn(mem, pages, x);
        var p := pages.AllocPage();
        if p == NULL {
          return Fault, 0;
        }
        assert p in old(pages.ring) && old(UsableIn(mem, pages, p));
        var entry := pages.structs[p].phyaddr;
        mem := mem[p := ZeroFrame()];
        var w := SetFlag(SetFlag(entry, PRESENT, true), READ_WRITE, true);
        mem := Write(mem, f, i, w);
        NewWord(p);
        assert forall x :: x in pages.ring ==> x in old(pages.ring) && old(UsableIn(mem, pages, x));
      }
      if pd && GetFlag(mem[f][i], HUGE) {
        return Panic, 0;
      }
      g := PhysicalAddress(mem[f][i]) / SIZE_4K;
      r := Ok;
    }

    /** A tree of tables in this memory, none of them on a free page. */
    ghost predicate Holds(at: Tables, top: nat)
      reads this, pages
    {
      Tree(mem, at, top) && forall p :: p in at ==> at[p] !in pages.ring
    }

    /** Enter, where the slot is no leaf of a tree. */
    method Down(f: int, i: nat, pd: bool, ghost at: Tables, ghost top: nat, ghost q: seq<nat>)
      returns (r: Result, g: int, ghost at': Tables)
      requires Ready() && Holds(at, top) && q in at && at[q] == f && |q| + 1 < top && i < 512
      requires f in mem && |mem[f]| == 512 && !IsLeaf(mem[f][i], top - |q|) && (pd ==> top - |q| <= 3)
      modifies this`mem, pages, pages.structs
      ensures Ready() && (r == Ok || r == Fault) && Holds(at', top)
      ensures forall x :: x in pages.ring ==> x in old(pages.ring)
      ensures forall v :: Walk(mem, at[[]], top, v) == Walk(old(mem), at[[]], top, v)
      ensures forall x :: x in old(mem) && x !in old(pages.ring) && x != f ==> x in mem && mem[x] == old(mem)[x]
      ensures r == Fault ==> |pages.ring| <= 1 && at' == at && pages.ring == old(pages.ring) && q + [i] !in at
      ensures r == Ok ==> Charged(at, old(pages.ring), at', pages.ring, q + [i])
      ensures r == Ok ==>
                && Grown(at, at', pages.ring, old(pages.ring)) && q + [i] in at' && at'[q + [i]] == g
                && g in mem && |mem[g]| == 512
    {
      hide Rings.IsRing, GetFlag, Walk, Tree, MakeEntry, FrameOf, WordOk, MemPages.Valid, Entered;
      r, g := Enter(f, i, pd);
      at' := EnterKeeps(old(mem), old(pages.ring), mem, pages.ring, f, i, pd, r, g, at, top, q);
    }

    /** The last step: a leaf is stored in slot i of the table at q. */
    method Store(f: int, i: nat, w: nat, ghost at: Tables, ghost top: nat, ghost q: seq<nat>)
      returns (ghost at': Tables)
      requires Ready() && Holds(at, top) && q in at && at[q] == f && i < 512 && |q| < top <= 4
      requires f in mem && |mem[f]| == 512 && WordOk(w) && top - |q| <= 3 && IsLeaf(w, top - |q|)
      modifies this`mem
      ensures Ready() && Holds(at', top) && at' == Pruned(at, q, i) && mem == Write(old(mem), f, i, w)
      ensures forall v :: Walk(mem, at[[]], top, v) ==
                if Through(v, top, q, i) then Leaf(w, top - |q|, v) else Walk(old(mem), at[[]], top, v)
    {
      hide Rings.IsRing, GetFlag, Walk, Tree, MakeEntry, FrameOf, WordOk, MemPages.Valid, Leaf;
      RootIn(mem, at, top);
      mem := Write(mem, f, i, w);
      at' := Pruned(at, q, i);
      TreeAfterWrite(old(mem), at, top, q, i, w);
      forall v ensures Walk(mem, at[[]], top, v) ==
                         if Through(v, top, q, i) then Leaf(w, top - |q|, v) else Walk(old(mem), at[[]], top, v)
      {
        WalkAfterWrite(old(mem), at, top, q, i, w, v, 0);
      }
      assert forall g :: g in pages.ring ==> old(UsableIn(mem, pages, g));
    }

    /** PageTable::MapPage.  It does what it is for exactly when the path meets no large entry and there are pages
        enough for the missing tables: then the page of the address is mapped, every other address translates as
        before and the tables stay a tree off the free pages.  A 2 MB entry stops it.  A 1 GB entry does not: it
        takes the page mapped there for a table.  Whatever that page holds, the address is then not mapped; where
        it is ordinary memory, a word of it is overwritten and no translation changes. */
    method MapPage(root: int, paddr: nat, wt: bool, cd: bool, ghost at: Tables) returns (r: Result, ghost at': Tables)
      requires Ready() && Holds(at, 4) && root == at[[]]
      requires paddr % SIZE_4K == 0 && paddr < 0x10_0000_0000_0000
      modifies this`mem, pages, pages.structs
      ensures Ready()
      ensures r == Ok && MapsOnly(old(mem), old(pages.ring), at, mem, pages.ring, at', VirtualOf(paddr), true,
                                  Mapped(paddr, SIZE_4K, wt, cd))
              <==> MeetsOnPath(old(mem), root, 4, VirtualOf(paddr)) == NoLarge
                   && Enough(|old(pages.ring)|, Missing(old(mem), root, 4, VirtualOf(paddr)))
      ensures MeetsOnPath(old(mem), root, 4, VirtualOf(paddr)) == NoLarge ==>
                (r == Ok || r == Fault) && (r == Fault ==> |pages.ring| <= 1) &&
                MapsOnly(old(mem), old(pages.ring), at, mem, pages.ring, at', VirtualOf(paddr),
                         r == Ok, Mapped(paddr, SIZE_4K, wt, cd))
      ensures MeetsOnPath(old(mem), root, 4, VirtualOf(paddr)) == Large2M ==>
                r == Panic && mem == old(mem) && pages.ring == old(pages.ring)
      ensures MeetsOnPath(old(mem), root, 4, VirtualOf(paddr)) == Large1G &&
              TakenForTable(old(mem), old(pages.ring), at, VirtualOf(paddr)) ==>
                && (r == Ok <==> |old(pages.ring)| > 1) && (r == Ok || r == Fault)
                && (r == Ok ==> OnlyDamages(old(mem), at, mem, VirtualOf(paddr)))
      ensures MeetsOnPath(old(mem), root, 4, VirtualOf(paddr)) == NoLarge && r == Ok && paddr < WINDOW ==>
                MappedAt(mem, root, paddr, wt, cd)
    {
      hide Rings.IsRing, GetFlag, Walk, Tree, MakeEntry, FrameOf, WordOk, MemPages.Valid, Entered, PathOf, Index,
           MeetsOnPath, IsLeaf, Points, Leaf, TableOk, Clear, Unchanged, MapsOnly, TakenForTable, OnlyDamages,
           Missing, Enough, MappedAt, VirtualOf;
      var v := VirtualOf(paddr);
      var entry := MakeEntry(paddr, false, wt, cd);
      ghost var meets := MeetsOnPath(mem, root, 4, v);
      ghost var m0, ring0 := mem, pages.ring;
      at' := at;
      RootIn(mem, at, 4);
      TableFacts(mem, at, 4, []);
      ClearStart(m0, ring0, at, v);
      LargeNeverMaps(m0, ring0, at, v, Mapped(paddr, SIZE_4K, wt, cd));
      var f3, f2, f1;
      r, f3 := Enter(root, Index(v, 4), false);
      ghost var m1, ring1 := mem, pages.ring;
      if meets == NoLarge {
        at' := ClearStep(m0, ring0, at, m0, ring0, at', v, 0, m1, ring1, false, r, f3);
        if r == Fault {
          NothingMapped(m0, ring0, at, m1, ring1, at', v, Mapped(paddr, SIZE_4K, wt, cd));
        }
      } else {
        LargeBelowTop(m0, at, v, ring0, m1, ring1, r, f3);
      }
      if r != Ok {
        return;
      }
      r, f2 := Enter(f3, Index(v, 3), false);
      ghost var m2, ring2 := mem, pages.ring;
      if meets == NoLarge {
        at' := ClearStep(m0, ring0, at, m1, ring1, at', v, 1, m2, ring2, false, r, f2);
        if r == Fault {
          NothingMapped(m0, ring0, at, m2, ring2, at', v, Mapped(paddr, SIZE_4K, wt, cd));
        }
      } else if meets == Large2M {
        Large2MBelow(m0, at, v, f3, ring1, m2, ring2, r, f2);
      } else {
        Large1GFollowed(m0, ring0, at, v, f3, m2, ring2, r, f2);
      }
      if r != Ok {
        return;
      }
      if f2 !in mem || |mem[f2]| != 512 {
        return Astray, at';
      }
      r, f1 := Enter(f2, Index(v, 2), true);
      ghost var m3, ring3 := mem, pages.ring;
      if meets == NoLarge {
        at' := ClearStep(m0, ring0, at, m2, ring2, at', v, 2, m3, ring3, true, r, f1);
        if r == Fault {
          NothingMapped(m0, ring0, at, m3, ring3, at', v, Mapped(paddr, SIZE_4K, wt, cd));
        }
      } else if meets == Large2M {
        Large2MStops(m0, f2, v, ring2, m3, ring3, r, f1);
      } else if TakenForTable(m0, ring0, at, v) {
        PageTaken(m0, ring0, at, v, m3, ring3, r, f1);
      }
      if r != Ok {
        return;
      }
      if f1 !in mem || |mem[f1]| != 512 {
        return Astray, at';
      }
      mem := Write(mem, f1, Index(v, 1), entry);
      if meets == NoLarge {
        ClearEnough(m0, ring0, at, m3, ring3, at', v);
        at' := ClearStore(m0, ring0, at, m3, ring3, at', v, paddr, wt, cd);
        WindowMapped(m0, ring0, at, mem, ring3, at', paddr, wt, cd);
      } else if meets == Large1G && TakenForTable(m0, ring0, at, v) {
        DamageDone(m0, ring0, at, v, m3, ring3, f1, entry);
      }
      assert forall g :: g in pages.ring ==> UsableIn(m3, pages, g);
    }

    /** Acpi::Init's loop, and any like it: MapPage for one page after the other.  Where no page of the stretch has a
        large translation, all of them are mapped in the end and every other address translates as before. */
    method MapStretchOf(root: int, first: nat, n: nat, wt: bool, cd: bool, ghost at: Tables)
      returns (r: Result, ghost at': Tables)
      requires Ready() && Holds(at, 4) && root == at[[]]
      requires first % SIZE_4K == 0 && first + n * SIZE_4K <= WINDOW
      requires forall i: nat :: i < n ==> Small(mem, root, first, i)
      modifies this`mem, pages, pages.structs
      ensures Ready() && (r == Ok || r == Fault) && (r == Fault ==> |pages.ring| <= 1)
      ensures Holds(at', 4) && at'[[]] == root
      ensures r == Ok ==> forall i: nat :: i < n ==> PageMapped(mem, root, first, i, wt, cd)
      ensures forall u: nat :: OffStretch(u, first, n) ==> Walk(mem, root, 4, u) == Walk(old(mem), root, 4, u)
    {
      hide Walk, Tree, MapsOnly, MemPages.Valid, MappedAt, MeetsOnPath, Missing, Enough, VirtualOf, OnlyDamages,
           TakenForTable, Small, PageMapped, OffStretch, Unchanged;
      r, at' := Ok, at;
      RootIn(mem, at, 4);
      var i := 0;
      while i < n
        invariant i <= n && r == Ok && Ready() && Holds(at', 4) && [] in at' && at'[[]] == root
        invariant forall j: nat :: j < i ==> PageMapped(mem, root, first, j, wt, cd)
        invariant forall j: nat :: i <= j < n ==> Small(mem, root, first, j)
        invariant forall u: nat :: OffStretch(u, first, n) ==> Walk(mem, root, 4, u) == Walk(old(mem), root, 4, u)
      {
        ghost var m0, ring0, at0 := mem, pages.ring, at';
        StretchAt(first, n, i);
        SmallMeets(m0, root, first, i);
        r, at' := MapPage(root, first + i * SIZE_4K, wt, cd, at');
        OneMoreMapped(m0, ring0, at0, mem, pages.ring, at', root, first, n, i, r == Ok, wt, cd);
        if r != Ok {
          return;
        }
        i := i + 1;
      }
    }
  }

  // ----- the window

  /** Physical addresses that KERN_OFFSET does not carry past 64 bits. */
  const WINDOW: nat := 0x100_0000_0000

  /** VirtualOf is the address KERN_OFFSET further on, modulo 2^64. */
  lemma VirtualIs(p: nat)
    requires p < 0x10_0000_0000_0000
    ensures VirtualOf(p) == if p < WINDOW then Kernel(p) else Kernel(p) - 0x1_0000_0000_0000_0000
    ensures (VirtualOf(p) - KERN_OFFSET) % 0x1_0000_0000_0000_0000 == p
  {
    if p < WINDOW {
      DivMod(KERN_OFFSET + p, 0x1_0000_0000_0000_0000, 0, KERN_OFFSET + p);
      DivMod(p, 0x1_0000_0000_0000_0000, 0, p);
    } else {
      DivMod(KERN_OFFSET + p, 0x1_0000_0000_0000_0000, 1, KERN_OFFSET + p - 0x1_0000_0000_0000_0000);
      DivMod(p - 0x1_0000_0000_0000_0000, 0x1_0000_0000_0000_0000, -1, p);
    }
  }

  /** Every byte of the page at paddr appears in the window, through one 4 KB entry with these flags. */
  ghost predicate MappedAt(mem: Memory, root: int, paddr: nat, wt: bool, cd: bool) {
    forall o: nat :: o < SIZE_4K ==> ByteMapped(mem, root, paddr, o, wt, cd)
  }

  ghost predicate ByteMapped(mem: Memory, root: int, paddr: nat, o: nat, wt: bool, cd: bool) {
    Walk(mem, root, 4, Kernel(paddr) + o) == Mapped(paddr + o, SIZE_4K, wt, cd)
  }

  lemma WindowPage(paddr: nat, o: nat)
    requires paddr % SIZE_4K == 0 && paddr < WINDOW && o < SIZE_4K
    ensures (Kernel(paddr) + o) % SIZE_4K == o
    ensures PageNumber(Kernel(paddr) + o) == 0xF_F000_0000 + paddr / SIZE_4K
  {
    var k := paddr / SIZE_4K;
    DivMod(Kernel(paddr) + o, SIZE_4K, 0xF_FFFF_F000_0000 + k, o);
    DivMod(0xF_FFFF_F000_0000 + k, 0x10_0000_0000, 0xFFFF, 0xF_F000_0000 + k);
  }

  lemma WindowMapped(mem0: Memory, ring0: seq<int>, at0: Tables, mem: Memory, ring: seq<int>, at: Tables,
                     paddr: nat, wt: bool, cd: bool)
    requires MapsOnly(mem0, ring0, at0, mem, ring, at, VirtualOf(paddr), true, Mapped(paddr, SIZE_4K, wt, cd))
    requires paddr % SIZE_4K == 0 && paddr < 0x10_0000_0000_0000
    ensures [] in at0 && (paddr < WINDOW ==> MappedAt(mem, at0[[]], paddr, wt, cd))
  {
    hide Walk, Tree, PageNumber, VirtualOf, Kernel;
    VirtualIs(paddr);
    if paddr < WINDOW {
      WindowPage(paddr, 0);
      forall o: nat | o < SIZE_4K ensures ByteMapped(mem, at0[[]], paddr, o, wt, cd) {
        WindowPage(paddr, o);
      }
    }
  }

  /** A walk ends in a large translation exactly when its path meets a large entry. */
  lemma MeetsIsSize(mem: Memory, f: int, v: nat)
    ensures var t := Walk(mem, f, 4, v); MeetsOnPath(mem, f, 4, v) == NoLarge <==> !(t.Mapped? && t.size != SIZE_4K)
  {
    hide Index, FrameOf, GetFlag;
    MeetsBelow(mem, f, 4, v);
  }

  lemma {:induction false} MeetsBelow(mem: Memory, f: int, l: nat, v: nat)
    requires 1 <= l <= 4
    ensures var t := Walk(mem, f, l, v); MeetsOnPath(mem, f, l, v) == NoLarge <==> !(t.Mapped? && t.size != SIZE_4K)
    decreases l
  {
    hide Index, FrameOf, GetFlag;
    if l > 1 && f in mem && |mem[f]| == 512 && Points(mem[f][Index(v, l)], l) {
      MeetsBelow(mem, FrameOf(mem[f][Index(v, l)]), l - 1, v);
    }
  }

  // ----- page after page

  /** The i-th page of the stretch has no large translation. */
  ghost predicate Small(mem: Memory, root: int, first: nat, i: nat) {
    var t := Walk(mem, root, 4, Kernel(first + i * SIZE_4K));
    t.Mapped? ==> t.size == SIZE_4K
  }

  ghost predicate PageMapped(mem: Memory, root: int, first: nat, i: nat, wt: bool, cd: bool) {
    MappedAt(mem, root, first + i * SIZE_4K, wt, cd)
  }

  /** u is on none of the n pages from first on. */
  ghost predicate OffStretch(u: nat, first: nat, n: nat) {
    forall i: nat :: i < n ==> PageNumber(u) != StretchNumber(first, i)
  }

  /** The page-number bits of the i-th page. */
  function StretchNumber(first: nat, i: nat): nat {
    0xF_F000_0000 + (first + i * SIZE_4K) / SIZE_4K
  }

  lemma StretchAt(first: nat, n: nat, i: nat)
    requires first % SIZE_4K == 0 && first + n * SIZE_4K <= WINDOW && i < n
    ensures var p := first + i * SIZE_4K;
            && p % SIZE_4K == 0 && p < WINDOW && VirtualOf(p) == Kernel(p)
            && StretchNumber(first, i) == 0xF_F000_0000 + first / SIZE_4K + i
            && forall o: nat :: o < SIZE_4K ==> OnPage(p, o, StretchNumber(first, i))
  {
    hide PageNumber, Kernel, VirtualOf;
    var p := first + i * SIZE_4K;
    DivMod(p, SIZE_4K, first / SIZE_4K + i, 0);
    VirtualIs(p);
    forall o: nat | o < SIZE_4K ensures OnPage(p, o, StretchNumber(first, i)) {
      WindowPage(p, o);
    }
  }

  ghost predicate OnPage(p: nat, o: nat, number: nat) {
    PageNumber(Kernel(p) + o) == number && (Kernel(p) + o) % SIZE_4K == o
  }

  ghost predicate SameByte(mem0: Memory, mem: Memory, root: int, p: nat, o: nat) {
    Walk(mem, root, 4, Kernel(p) + o) == Walk(mem0, root, 4, Kernel(p) + o)
  }

  lemma SmallMeets(mem: Memory, root: int, first: nat, i: nat)
    requires Small(mem, root, first, i)
    requires VirtualOf(first + i * SIZE_4K) == Kernel(first + i * SIZE_4K)
    ensures MeetsOnPath(mem, root, 4, VirtualOf(first + i * SIZE_4K)) == NoLarge
  {
    hide Walk, MeetsOnPath, VirtualOf, Kernel;
    MeetsIsSize(mem, root, Kernel(first + i * SIZE_4K));
  }

  lemma OneMoreMapped(mem0: Memory, ring0: seq<int>, at0: Tables, mem: Memory, ring: seq<int>, at: Tables, root: int,
                      first: nat, n: nat, i: nat, done: bool, wt: bool, cd: bool)
    requires first % SIZE_4K == 0 && first + n * SIZE_4K <= WINDOW && i < n && [] in at0 && at0[[]] == root
    requires MapsOnly(mem0, ring0, at0, mem, ring, at, VirtualOf(first + i * SIZE_4K), done,
                      Mapped(first + i * SIZE_4K, SIZE_4K, wt, cd))
    ensures Tree(mem, at, 4) && (forall p :: p in at ==> at[p] !in ring) && [] in at && at[[]] == root
    ensures forall j: nat :: j < n && j != i && PageMapped(mem0, root, first, j, wt, cd) ==>
              PageMapped(mem, root, first, j, wt, cd)
    ensures forall j: nat :: j < n && j != i && Small(mem0, root, first, j) ==> Small(mem, root, first, j)
    ensures done ==> PageMapped(mem, root, first, i, wt, cd)
    ensures forall u: nat :: OffStretch(u, first, n) ==> Walk(mem, root, 4, u) == Walk(mem0, root, 4, u)
  {
    hide Walk, Tree, PageNumber, VirtualOf, Kernel, StretchNumber;
    StretchAt(first, n, i);
    var p := first + i * SIZE_4K;
    assert OnPage(p, 0, StretchNumber(first, i));
    if done {
      WindowMapped(mem0, ring0, at0, mem, ring, at, p, wt, cd);
    }
    forall j: nat | j < n && j != i
      ensures PageMapped(mem0, root, first, j, wt, cd) ==> PageMapped(mem, root, first, j, wt, cd)
      ensures Small(mem0, root, first, j) ==> Small(mem, root, first, j)
    {
      StretchAt(first, n, j);
      var q := first + j * SIZE_4K;
      forall o: nat | o < SIZE_4K ensures SameByte(mem0, mem, root, q, o) {
        assert OnPage(q, o, StretchNumber(first, j));
      }
      assert SameByte(mem0, mem, root, q, 0) && Kernel(q) + 0 == Kernel(q);
      if PageMapped(mem0, root, first, j, wt, cd) {
        forall o: nat | o < SIZE_4K ensures ByteMapped(mem, root, q, o, wt, cd) {
          assert ByteMapped(mem0, root, q, o, wt, cd) && SameByte(mem0, mem, root, q, o);
        }
      }
    }
    forall u: nat | OffStretch(u, first, n) ensures Walk(mem, root, 4, u) == Walk(mem0, root, 4, u) {
      assert PageNumber(u) != StretchNumber(first, i);
    }
  }

  function VirtualOf(paddr: nat): nat {
    (KERN_OFFSET + paddr) % 0x1_0000_0000_0000_0000
  }

  /** The tables are still a tree off the free pages, with the same top table and grown only by free pages. */
  ghost predicate Kept(ring0: seq<int>, at0: Tables, mem: Memory, ring: seq<int>, at: Tables) {
    && Tree(mem, at, 4) && (forall p :: p in at ==> at[p] !in ring)
    && [] in at0 && [] in at && at[[]] == at0[[]]
    && (forall p :: p in at && p !in at0 ==> at[p] in ring0) && (forall g :: g in ring ==> g in ring0)
  }

  /** Only the page of v may translate otherwise than before. */
  ghost predicate MapsOnly(mem0: Memory, ring0: seq<int>, at0: Tables, mem: Memory, ring: seq<int>, at: Tables,
                           v: nat, done: bool, t: Translation)
    requires t.Mapped?
  {
    && Kept(ring0, at0, mem, ring, at)
    && forall u: nat :: Walk(mem, at0[[]], 4, u) ==
         if done && PageNumber(u) == PageNumber(v) then t.(phys := t.phys + u % SIZE_4K) else Walk(mem0, at0[[]], 4, u)
  }

  /** No address translates otherwise than before. */
  ghost predicate Unchanged(mem0: Memory, ring0: seq<int>, at0: Tables, mem: Memory, ring: seq<int>, at: Tables) {
    Kept(ring0, at0, mem, ring, at) && forall u: nat :: Walk(mem, at0[[]], 4, u) == Walk(mem0, at0[[]], 4, u)
  }

  lemma NothingMapped(mem0: Memory, ring0: seq<int>, at0: Tables, mem: Memory, ring: seq<int>, at: Tables, v: nat,
                      t: Translation)
    requires t.Mapped? && Unchanged(mem0, ring0, at0, mem, ring, at)
    ensures MapsOnly(mem0, ring0, at0, mem, ring, at, v, false, t)
  {
  }

  /** The walk down to the level-(4-k) table of v has met no large entry and changed no translation. */
  ghost predicate Clear(mem0: Memory, ring0: seq<int>, at0: Tables, mem: Memory, ring: seq<int>, at: Tables, v: nat,
                        k: nat)
    requires k <= 3
  {
    && Unchanged(mem0, ring0, at0, mem, ring, at)
    && PathOf(v, 4, k) in at && MeetsOnPath(mem, at[PathOf(v, 4, k)], 4 - k, v) == NoLarge
    && [] in at0 && Paid(ring0, Missing(mem0, at0[[]], 4, v), ring, Missing(mem, at[PathOf(v, 4, k)], 4 - k, v))
  }

  /** Every table made so far took one page, and left one. */
  ghost predicate Paid(ring0: seq<int>, n0: nat, ring: seq<int>, n: nat) {
    n <= n0 && |ring| + n0 == |ring0| + n && (n < n0 ==> |ring| > 0)
  }

  lemma ClearStart(mem: Memory, ring: seq<int>, at: Tables, v: nat)
    requires Tree(mem, at, 4) && (forall p :: p in at ==> at[p] !in ring) && [] in at
    ensures MeetsOnPath(mem, at[[]], 4, v) == NoLarge ==> Clear(mem, ring, at, mem, ring, at, v, 0)
  {
  }

  lemma ClearStep(mem0: Memory, ring0: seq<int>, at0: Tables, mem: Memory, ring: seq<int>, at: Tables, v: nat, k: nat,
                  mem': Memory, ring': seq<int>, pd: bool, r: Result, g: int) returns (at': Tables)
    requires k <= 2 && Clear(mem0, ring0, at0, mem, ring, at, v, k) && (pd ==> k >= 1)
    requires at[PathOf(v, 4, k)] in mem && |mem[at[PathOf(v, 4, k)]]| == 512
    requires Entered(mem, ring, mem', ring', at[PathOf(v, 4, k)], Index(v, 4 - k), pd, r, g)
    ensures r == Ok || r == Fault
    ensures r == Ok ==>
              && Clear(mem0, ring0, at0, mem', ring', at', v, k + 1) && at'[PathOf(v, 4, k + 1)] == g
              && g in mem' && |mem'[g]| == 512
    ensures r == Fault ==> |ring'| <= 1 && Unchanged(mem0, ring0, at0, mem', ring', at')
    ensures r == Fault ==> [] in at0 && !Enough(|ring0|, Missing(mem0, at0[[]], 4, v))
  {
    hide GetFlag, Walk, Tree, MakeEntry, FrameOf, WordOk, Index, Entered, Points, MeetsOnPath, Missing;
    var q, i := PathOf(v, 4, k), Index(v, 4 - k);
    NotLeaf(mem, at[q], 4 - k, v);
    TableFacts(mem, at, 4, q);
    SlotFacts(mem, at, 4, q, i);
    at' := EnterKeeps(mem, ring, mem', ring', at[q], i, pd, r, g, at, 4, q);
    EnteredRing(mem, ring, mem', ring', at[q], i, pd, r, g);
    assert PathOf(v, 4, k + 1) == q + [i];
    MissingNext(mem, ring, mem', ring', at[q], 4 - k, v, pd, r, g);
    if r == Ok {
      MeetsNext(mem, ring, mem', ring', at[q], 4 - k, v, pd, r, g);
      KeptGrows(ring0, at0, mem, ring, at, mem', ring', at');
    }
  }

  lemma ClearEnough(mem0: Memory, ring0: seq<int>, at0: Tables, mem: Memory, ring: seq<int>, at: Tables, v: nat)
    requires Clear(mem0, ring0, at0, mem, ring, at, v, 3)
    ensures [] in at0 && Enough(|ring0|, Missing(mem0, at0[[]], 4, v))
  {
    hide Unchanged, MeetsOnPath, PathOf;
    assert Missing(mem, at[PathOf(v, 4, 3)], 1, v) == 0;
  }

  lemma KeptGrows(ring0: seq<int>, at0: Tables, mem: Memory, ring: seq<int>, at: Tables, mem': Memory, ring': seq<int>,
                  at': Tables)
    requires Kept(ring0, at0, mem, ring, at) && Grown(at, at', ring', ring) && Tree(mem', at', 4)
    requires (forall p :: p in at' ==> at'[p] !in ring') && forall x :: x in ring' ==> x in ring
    ensures Kept(ring0, at0, mem', ring', at')
  {
    hide Tree;
    RootIn(mem', at', 4);
    forall p | p in at' && p !in at0 ensures at'[p] in ring0 {
      var g := at'[p];
      if p in at {
        assert at[p] == g;
      } else {
        assert g in ring;
      }
    }
  }

  lemma NotLeaf(mem: Memory, f: int, l: nat, v: nat)
    requires 2 <= l <= 4 && f in mem && |mem[f]| == 512 && MeetsOnPath(mem, f, l, v) == NoLarge
    ensures !IsLeaf(mem[f][Index(v, l)], l)
  {
    hide Index;
  }

  lemma EnteredRing(mem: Memory, ring: seq<int>, mem': Memory, ring': seq<int>, f: int, i: nat, pd: bool, r: Result,
                    g: int)
    requires f in mem && |mem[f]| == 512 && i < 512 && Entered(mem, ring, mem', ring', f, i, pd, r, g)
    ensures r == Ok || r == Fault ==> forall x :: x in ring' ==> x in ring
    ensures r != Astray
  {
  }

  lemma MeetsNext(mem: Memory, ring: seq<int>, mem': Memory, ring': seq<int>, f: int, l: nat, v: nat, pd: bool,
                  r: Result, g: int)
    requires 2 <= l <= 4 && f in mem && |mem[f]| == 512 && WordOk(mem[f][Index(v, l)]) && f !in ring
    requires MeetsOnPath(mem, f, l, v) == NoLarge && Entered(mem, ring, mem', ring', f, Index(v, l), pd, r, g)
    requires r == Ok
    ensures MeetsOnPath(mem', g, l - 1, v) == NoLarge
  {
    hide Index, MakeEntry, GetFlag, FrameOf, WordOk, PhysicalAddress;
    var w := mem[f][Index(v, l)];
    if GetFlag(w, PRESENT) {
      NotLeaf(mem, f, l, v);
      PresentSlot(w, l);
    } else {
      assert g in ring && mem'[g] == ZeroFrame();
      ZeroWord(l - 1);
    }
  }

  lemma MissingNext(mem: Memory, ring: seq<int>, mem': Memory, ring': seq<int>, f: int, l: nat, v: nat, pd: bool,
                    r: Result, g: int)
    requires 2 <= l <= 4 && f in mem && |mem[f]| == 512 && WordOk(mem[f][Index(v, l)]) && f !in ring
    requires MeetsOnPath(mem, f, l, v) == NoLarge && Entered(mem, ring, mem', ring', f, Index(v, l), pd, r, g)
    ensures r == Ok ==> Paid(ring, Missing(mem, f, l, v), ring', Missing(mem', g, l - 1, v))
    ensures r == Fault ==> |ring| <= 1 && Missing(mem, f, l, v) > 0
  {
    hide Index, MakeEntry, GetFlag, FrameOf, WordOk, PhysicalAddress;
    var w := mem[f][Index(v, l)];
    if GetFlag(w, PRESENT) {
      NotLeaf(mem, f, l, v);
      PresentSlot(w, l);
    } else if r == Ok {
      assert g in ring && mem'[g] == ZeroFrame();
      ZeroWord(l - 1);
    }
  }

  lemma ClearStore(mem0: Memory, ring0: seq<int>, at0: Tables, mem: Memory, ring: seq<int>, at: Tables, v: nat,
                   paddr: nat, wt: bool, cd: bool) returns (at': Tables)
    requires Clear(mem0, ring0, at0, mem, ring, at, v, 3) && paddr % SIZE_4K == 0 && paddr < 0x10_0000_0000_0000
    requires var f := at[PathOf(v, 4, 3)]; f in mem && |mem[f]| == 512
    ensures MapsOnly(mem0, ring0, at0,
                     Write(mem, at[PathOf(v, 4, 3)], Index(v, 1), MakeEntry(paddr, false, wt, cd)), ring, at', v, true,
                     Mapped(paddr, SIZE_4K, wt, cd))
  {
    hide GetFlag, Walk, Tree, MakeEntry, FrameOf, WordOk, Index, Leaf, PageNumber, PathOf, IsLeaf, Points, MeetsOnPath;
    var q, i := PathOf(v, 4, 3), Index(v, 1);
    var w := MakeEntry(paddr, false, wt, cd);
    at' := Pruned(at, q, i);
    SmallLeaf(paddr, wt, cd);
    TreeAfterWrite(mem, at, 4, q, i, w);
    RootIn(mem, at, 4);
    forall u: nat ensures Walk(Write(mem, at[q], i, w), at0[[]], 4, u) ==
                            if PageNumber(u) == PageNumber(v) then Mapped(paddr + u % SIZE_4K, SIZE_4K, wt, cd)
                            else Walk(mem0, at0[[]], 4, u)
    {
      WalkAfterWrite(mem, at, 4, q, i, w, u, 0);
      SamePageSamePath(u, v);
      SmallLeafAt(paddr, wt, cd, u);
    }
  }

  lemma SmallLeaf(paddr: nat, wt: bool, cd: bool)
    requires paddr % SIZE_4K == 0 && paddr < 0x10_0000_0000_0000
    ensures var w := MakeEntry(paddr, false, wt, cd); WordOk(w) && IsLeaf(w, 1) && !Points(w, 1)
  {
    hide MakeEntry;
    EntryFields(paddr, false, wt, cd);
  }

  lemma SmallLeafAt(paddr: nat, wt: bool, cd: bool, u: nat)
    requires paddr % SIZE_4K == 0 && paddr < 0x10_0000_0000_0000
    ensures Here(MakeEntry(paddr, false, wt, cd), 1, u) == Mapped(paddr + u % SIZE_4K, SIZE_4K, wt, cd)
  {
    hide MakeEntry, GetFlag;
    EntryFields(paddr, false, wt, cd);
    SmallLeaf(paddr, wt, cd);
  }

  /** A large entry is never in the top table, so the first step just follows a present slot. */
  lemma LargeBelowTop(mem: Memory, at: Tables, v: nat, ring: seq<int>, mem': Memory, ring': seq<int>, r: Result, g: int)
    requires Tree(mem, at, 4) && at[[]] in mem && |mem[at[[]]]| == 512 && MeetsOnPath(mem, at[[]], 4, v) != NoLarge
    requires Entered(mem, ring, mem', ring', at[[]], Index(v, 4), false, r, g)
    ensures r == Ok && mem' == mem && ring' == ring && g in mem && |mem[g]| == 512
    ensures PathOf(v, 4, 1) in at && at[PathOf(v, 4, 1)] == g
    ensures MeetsOnPath(mem, g, 3, v) == MeetsOnPath(mem, at[[]], 4, v)
  {
    hide Index, GetFlag, FrameOf, WordOk, PhysicalAddress, Tree;
    RootIn(mem, at, 4);
    var i := Index(v, 4);
    SlotFacts(mem, at, 4, [], i);
    TopSlot(mem[at[[]]][i]);
    PresentSlot(mem[at[[]]][i], 4);
    assert PathOf(v, 4, 1) == [] + [i];
    TableFacts(mem, at, 4, [] + [i]);
  }

  lemma Large2MBelow(mem: Memory, at: Tables, v: nat, f: int, ring: seq<int>, mem': Memory, ring': seq<int>, r: Result,
                     g: int)
    requires Tree(mem, at, 4) && PathOf(v, 4, 1) in at && at[PathOf(v, 4, 1)] == f && f in mem && |mem[f]| == 512
    requires MeetsOnPath(mem, f, 3, v) == Large2M && Entered(mem, ring, mem', ring', f, Index(v, 3), false, r, g)
    ensures r == Ok && mem' == mem && ring' == ring && g in mem && |mem[g]| == 512
    ensures MeetsOnPath(mem, g, 2, v) == Large2M
  {
    hide Index, GetFlag, FrameOf, WordOk, PhysicalAddress, Tree;
    var i := Index(v, 3);
    var q := PathOf(v, 4, 1);
    SlotFacts(mem, at, 4, q, i);
    PresentSlot(mem[f][i], 3);
    TableFacts(mem, at, 4, q + [i]);
  }

  lemma Large2MStops(mem: Memory, f: int, v: nat, ring: seq<int>, mem': Memory, ring': seq<int>, r: Result, g: int)
    requires f in mem && |mem[f]| == 512 && MeetsOnPath(mem, f, 2, v) == Large2M
    requires Entered(mem, ring, mem', ring', f, Index(v, 2), true, r, g)
    ensures r == Panic && mem' == mem && ring' == ring
  {
    hide Index;
  }

  // ----- a 1 GB entry on the path

  lemma {:induction false} WalkSize(mem: Memory, f: int, l: nat, v: nat)
    requires 1 <= l <= 4
    ensures var t := Walk(mem, f, l, v);
            t.Mapped? ==> t.size == SIZE_4K || (l >= 2 && t.size == SIZE_2M) || (l >= 3 && t.size == SIZE_1G)
    decreases l
  {
    hide Index, FrameOf, GetFlag;
    if f in mem && |mem[f]| == 512 && Points(mem[f][Index(v, l)], l) {
      WalkSize(mem, FrameOf(mem[f][Index(v, l)]), l - 1, v);
    }
  }

  /** A 1 GB translation is shared by all addresses that agree in the two highest slots. */
  lemma SharedLarge(mem: Memory, f: int, u: nat, v: nat)
    requires Index(u, 4) == Index(v, 4) && Index(u, 3) == Index(v, 3)
    requires Walk(mem, f, 4, u).Mapped? && Walk(mem, f, 4, u).size == SIZE_1G
    ensures Walk(mem, f, 4, v).Mapped? && Walk(mem, f, 4, v).size == SIZE_1G
  {
    hide Index, FrameOf, GetFlag;
    var g := FrameOf(mem[f][Index(u, 4)]);
    assert Walk(mem, f, 4, u) == Walk(mem, g, 3, u);
    var w := mem[g][Index(u, 3)];
    if Points(w, 3) {
      WalkSize(mem, FrameOf(w), 2, u);
    }
  }

  /** The page next to that of v in the same pair of pages. */
  function Neighbour(v: nat): nat {
    if v / SIZE_4K % 2 == 0 then v + SIZE_4K else assert v >= SIZE_4K; v - SIZE_4K
  }

  lemma NeighbourSlots(v: nat)
    ensures var u := Neighbour(v);
            Index(u, 4) == Index(v, 4) && Index(u, 3) == Index(v, 3) && PageNumber(u) != PageNumber(v)
  {
    var x, u := v / SIZE_4K, Neighbour(v);
    var y := if x % 2 == 0 then x + 1 else x - 1;
    DivMod(u, SIZE_4K, y, v % SIZE_4K);
    PairDigits(x, y);
    hide Index;
    IndexDigits(u);
    IndexDigits(v);
  }

  lemma PairDigits(x: nat, y: nat)
    requires y == if x % 2 == 0 then x + 1 else x - 1
    ensures y / 0x4_0000 == x / 0x4_0000 && y % 0x10_0000_0000 != x % 0x10_0000_0000
  {
    var p, b := x / 2, x % 2;
    assert x == 2 * p + b && y == 2 * p + (1 - b);
    var q, r := p / 0x2_0000, p % 0x2_0000;
    DivMod(x, 0x4_0000, q, 2 * r + b);
    DivMod(y, 0x4_0000, q, 2 * r + (1 - b));
    var s, t := p / 0x8_0000_0000, p % 0x8_0000_0000;
    DivMod(x, 0x10_0000_0000, s, 2 * t + b);
    DivMod(y, 0x10_0000_0000, s, 2 * t + (1 - b));
  }

  /** The walk of an address whose path meets a 1 GB entry. */
  lemma Large1GWalk(mem: Memory, f: int, u: nat, v: nat)
    requires MeetsOnPath(mem, f, 4, v) == Large1G && Index(u, 4) == Index(v, 4) && Index(u, 3) == Index(v, 3)
    ensures Walk(mem, f, 4, u).Mapped? && Walk(mem, f, 4, u).size == SIZE_1G
  {
    hide Index, FrameOf, GetFlag;
    TopSlot(mem[f][Index(v, 4)]);
    var g := FrameOf(mem[f][Index(v, 4)]);
    assert MeetsOnPath(mem, g, 3, v) == Large1G;
  }

  /** Below a 1 GB entry no change of memory whatever maps the page of v alone: the page beside it cannot keep
      its 1 GB translation when v gets a 4 KB one. */
  lemma LargeNeverMaps(mem0: Memory, ring0: seq<int>, at0: Tables, v: nat, t: Translation)
    requires [] in at0 && t.Mapped? && t.size == SIZE_4K
    ensures MeetsOnPath(mem0, at0[[]], 4, v) == Large1G ==>
              forall mem, ring, at :: !MapsOnly(mem0, ring0, at0, mem, ring, at, v, true, t)
  {
    hide Walk, MeetsOnPath, Index, PageNumber, Kept;
    if MeetsOnPath(mem0, at0[[]], 4, v) == Large1G {
      var u := Neighbour(v);
      NeighbourSlots(v);
      Large1GWalk(mem0, at0[[]], u, v);
      forall mem, ring, at ensures !MapsOnly(mem0, ring0, at0, mem, ring, at, v, true, t) {
        if MapsOnly(mem0, ring0, at0, mem, ring, at, v, true, t) {
          assert Walk(mem, at0[[]], 4, u) == Walk(mem0, at0[[]], 4, u);
          assert Walk(mem, at0[[]], 4, v).size == SIZE_4K;
          SharedLarge(mem, at0[[]], u, v);
        }
      }
    }
  }

  /** The page at which a 1 GB entry on the path of v starts. */
  ghost function LargeFrame(mem: Memory, at: Tables, v: nat): int
    requires PathOf(v, 4, 1) in at && at[PathOf(v, 4, 1)] in mem && |mem[at[PathOf(v, 4, 1)]]| == 512
  {
    PhysicalAddress(mem[at[PathOf(v, 4, 1)]][Index(v, 3)]) / SIZE_4K
  }

  /** That page is ordinary memory in use, and its word where an entry for v would be says absent. */
  ghost predicate TakenForTable(mem: Memory, ring: seq<int>, at: Tables, v: nat) {
    && PathOf(v, 4, 1) in at && at[PathOf(v, 4, 1)] in mem && |mem[at[PathOf(v, 4, 1)]]| == 512
    && var b := LargeFrame(mem, at, v);
       && b in mem && |mem[b]| == 512 && b !in ring && (forall p :: p in at ==> at[p] != b)
       && !GetFlag(mem[b][Index(v, 2)], PRESENT)
  }

  /** The page has a word changed and no address translates otherwise. */
  ghost predicate OnlyDamages(mem0: Memory, at: Tables, mem: Memory, v: nat) {
    && PathOf(v, 4, 1) in at && at[PathOf(v, 4, 1)] in mem0 && |mem0[at[PathOf(v, 4, 1)]]| == 512
    && LargeFrame(mem0, at, v) in mem0 && LargeFrame(mem0, at, v) in mem
    && mem[LargeFrame(mem0, at, v)] != mem0[LargeFrame(mem0, at, v)]
    && [] in at && forall u: nat :: Walk(mem, at[[]], 4, u) == Walk(mem0, at[[]], 4, u)
  }

  lemma Large1GFollowed(mem: Memory, ring: seq<int>, at: Tables, v: nat, f: int, mem': Memory, ring': seq<int>,
                        r: Result, g: int)
    requires Tree(mem, at, 4) && PathOf(v, 4, 1) in at && at[PathOf(v, 4, 1)] == f && f in mem && |mem[f]| == 512
    requires MeetsOnPath(mem, f, 3, v) == Large1G && Entered(mem, ring, mem', ring', f, Index(v, 3), false, r, g)
    ensures r == Ok && mem' == mem && ring' == ring && g == LargeFrame(mem, at, v)
    ensures TakenForTable(mem, ring, at, v) ==> g in mem && |mem[g]| == 512
  {
    hide Index, FrameOf, WordOk, PhysicalAddress, Tree;
  }

  lemma PageTaken(mem: Memory, ring: seq<int>, at: Tables, v: nat, mem': Memory, ring': seq<int>, r: Result, g: int)
    requires TakenForTable(mem, ring, at, v)
    requires Entered(mem, ring, mem', ring', LargeFrame(mem, at, v), Index(v, 2), true, r, g)
    ensures (r == Ok <==> |ring| > 1) && (r == Ok || r == Fault)
    ensures r == Ok ==> g in ring && 0 <= g < 0x100_0000_0000 && g in mem' && |mem'[g]| == 512 &&
                        mem' == AddTable(mem, LargeFrame(mem, at, v), Index(v, 2), g)
  {
    hide Index, PhysicalAddress, GetFlag, MakeEntry;
  }

  lemma DamageDone(mem: Memory, ring: seq<int>, at: Tables, v: nat, mem': Memory, ring': seq<int>, g: int, w: nat)
    requires Tree(mem, at, 4) && (forall p :: p in at ==> at[p] !in ring) && TakenForTable(mem, ring, at, v)
    requires g in ring && 0 <= g < 0x100_0000_0000 && g in mem' && |mem'[g]| == 512
    requires mem' == AddTable(mem, LargeFrame(mem, at, v), Index(v, 2), g)
    ensures OnlyDamages(mem, at, Write(mem', g, Index(v, 1), w), v)
  {
    hide Index, PhysicalAddress, GetFlag, MakeEntry, FrameOf, WordOk, Tree, Walk, Points;
    var b := LargeFrame(mem, at, v);
    var last := Write(mem', g, Index(v, 1), w);
    TableWord(g, 2);
    AbsentHere(mem[b][Index(v, 2)], 2, v);
    assert last[b][Index(v, 2)] != mem[b][Index(v, 2)];
    RootIn(mem, at, 4);
    forall p | p in at ensures at[p] in last && at[p] in mem && last[at[p]] == mem[at[p]] {
      TableFacts(mem, at, 4, p);
    }
    forall u: nat ensures Walk(last, at[[]], 4, u) == Walk(mem, at[[]], 4, u) {
      WalkAgrees(mem, last, at, 4, u, 0);
    }
  }

  lemma TopSlot(w: nat)
    ensures !IsLeaf(w, 4)
  {
  }

  /** What Enter does: it follows a present slot, testing only page-directory entries for size, and gives an
      absent one a new empty table. */
  ghost predicate Entered(mem: Memory, ring: seq<int>, mem': Memory, ring': seq<int>, f: int, i: nat, pd: bool,
                          r: Result, g: int)
    requires f in mem && |mem[f]| == 512 && i < 512
  {
    var w := mem[f][i];
    if GetFlag(w, PRESENT) then
      && mem' == mem && ring' == ring
      && (if pd && GetFlag(w, HUGE) then r == Panic else r == Ok && g == PhysicalAddress(w) / SIZE_4K)
    else if |ring| <= 1 then r == Fault && mem' == mem && ring' == ring
    else
      && r == Ok && ring == [g] + ring' && 0 <= g < 0x100_0000_0000 && g !in ring'
      && mem' == AddTable(mem, f, i, g)
  }

  /** From a slot that is no leaf, Enter leaves a tree that has the next table, and every address translates
      as before. */
  lemma EnterKeeps(mem: Memory, ring: seq<int>, mem': Memory, ring': seq<int>, f: int, i: nat, pd: bool, r: Result,
                   g: int, at: Tables, top: nat, q: seq<nat>) returns (at': Tables)
    requires Tree(mem, at, top) && (forall p :: p in at ==> at[p] !in ring)
    requires q in at && at[q] == f && |q| + 1 < top && i < 512
    requires f in mem && |mem[f]| == 512 && !IsLeaf(mem[f][i], top - |q|) && (pd ==> top - |q| <= 3)
    requires Entered(mem, ring, mem', ring', f, i, pd, r, g)
    ensures (r == Ok || r == Fault) && Tree(mem', at', top) && (forall p :: p in at' ==> at'[p] !in ring')
    ensures forall v :: Walk(mem', at[[]], top, v) == Walk(mem, at[[]], top, v)
    ensures forall x :: x in mem && x !in ring && x != f ==> x in mem' && mem'[x] == mem[x]
    ensures forall x :: x in ring' ==> x in ring
    ensures r == Fault ==> |ring'| <= 1 && at' == at && ring' == ring && q + [i] !in at
    ensures r == Ok ==> Charged(at, ring, at', ring', q + [i])
    ensures r == Ok ==>
              Grown(at, at', ring', ring) && q + [i] in at' && at'[q + [i]] == g && g in mem' && |mem'[g]| == 512
  {
    hide GetFlag, Walk, Tree, MakeEntry, FrameOf, WordOk, PhysicalAddress;
    RootIn(mem, at, top);
    SlotFacts(mem, at, top, q, i);
    PresentSlot(mem[f][i], top - |q|);
    at' := at;
    if r == Ok {
      if GetFlag(mem[f][i], PRESENT) {
        TableFacts(mem, at, top, q + [i]);
        assert at.Keys + {q + [i]} == at.Keys;
      } else {
        assert g in ring;
        at' := at[q + [i] := g];
        TreeAfterAdd(mem, at, top, q, i, g);
        TableFacts(mem', at', top, q + [i]);
        assert q + [i] !in at;
        assert at'.Keys == at.Keys + {q + [i]};
        forall v ensures Walk(mem', at[[]], top, v) == Walk(mem, at[[]], top, v) {
          WalkAfterAdd(mem, at, top, q, i, g, v, 0);
        }
      }
    }
  }

  /** The table at p is there; if it was not, it took one page and left one. */
  ghost predicate Charged(at: Tables, ring: seq<int>, at': Tables, ring': seq<int>, p: seq<nat>) {
    && at'.Keys == at.Keys + {p} && |ring'| + |at'.Keys| == |ring| + |at.Keys|
    && (p !in at ==> |ring'| > 0)
  }

  /** The tree grew by tables on pages that were free. */
  ghost predicate Grown(at: Tables, at': Tables, ring: seq<int>, was: seq<int>) {
    && (forall p :: p in at ==> p in at' && at'[p] == at[p])
    && (forall p :: p in at' && p !in at ==> at'[p] in was)
    && |was| - 1 <= |ring| <= |was| && was[|was| - |ring|..] == ring
  }

  lemma PresentSlot(w: nat, l: nat)
    requires !IsLeaf(w, l) && WordOk(w)
    ensures Points(w, l) <==> GetFlag(w, PRESENT)
    ensures l <= 3 && GetFlag(w, PRESENT) ==> !GetFlag(w, HUGE)
    ensures PhysicalAddress(w) / SIZE_4K == FrameOf(w)
  {
    hide GetFlag, PhysicalAddress, FrameOf;
    AddressFrame(w);
  }

  lemma AddressFrame(w: nat)
    requires WordOk(w)
    ensures PhysicalAddress(w) / SIZE_4K == FrameOf(w)
  {
    hide GetFlag;
    var k, c := w / SIZE_4K, w % SIZE_4K;
    LowBits(k, c);
    DivMod(w - c, SIZE_4K, k, 0);
    DivMod(k, 0x100_0000_0000, 0, k);
  }

  lemma NewWord(p: nat)
    requires p < 0x100_0000_0000
    ensures var w := SetFlag(SetFlag(p * SIZE_4K, PRESENT, true), READ_WRITE, true);
            && w == MakeEntry(p * SIZE_4K, false, false, false)
            && PhysicalAddress(w) / SIZE_4K == p && !GetFlag(w, HUGE) && GetFlag(w, PRESENT)
  {
    hide GetFlag;
    EntryFields(p * SIZE_4K, false, false, false);
    EntryWord(p * SIZE_4K, false, false, false);
    PlainEntry(p * SIZE_4K);
  }

  lemma PlainEntry(paddr: nat)
    requires paddr % SIZE_4K == 0
    ensures SetFlag(SetFlag(paddr, PRESENT, true), READ_WRITE, true) == paddr + 3
  {
    LowBits(paddr / SIZE_4K, 0);
    LowBits(paddr / SIZE_4K, 1);
  }

  // ----- such an entry, and what MapPage does below it

  const ROOT: nat := 1
  const UPPER: nat := 2
  const DATA: nat := 0x4_0000

  /** Two tables, the lower with a 1 GB entry for the address 1 GB, and zeroed pages of memory. */
  function LargeMemory(): Memory {
    var blank: Memory := map[ROOT := ZeroFrame(), DATA := ZeroFrame(), 5 := ZeroFrame(), 6 := ZeroFrame()];
    Write(AddTable(blank, ROOT, 510, UPPER), UPPER, 1, MakeEntry(SIZE_1G, true, false, false))
  }

  ghost function LargeTables(): Tables {
    map[[] := ROOT, [510] := UPPER]
  }

  lemma LargeTree()
    ensures Tree(LargeMemory(), LargeTables(), 4)
  {
    hide Tree, ZeroFrame, MakeEntry, GetFlag, FrameOf, Index;
    var blank: Memory := map[ROOT := ZeroFrame(), DATA := ZeroFrame(), 5 := ZeroFrame(), 6 := ZeroFrame()];
    OneEmptyTable(blank, ROOT, 4);
    var at: Tables := map[[] := ROOT];
    TableFacts(blank, at, 4, []);
    BlankSlot(510);
    TreeAfterAdd(blank, at, 4, [], 510, UPPER);
    var at' := at[[] + [510] := UPPER];
    assert at' == LargeTables() && [] + [510] == [510];
    var mem := AddTable(blank, ROOT, 510, UPPER);
    TableFacts(mem, at', 4, [510]);
    LargeWord();
    TreeAfterWrite(mem, at', 4, [510], 1, MakeEntry(SIZE_1G, true, false, false));
    assert Pruned(at', [510], 1) == at';
  }

  lemma BlankSlot(i: nat)
    requires i < 512
    ensures !GetFlag(ZeroFrame()[i], PRESENT)
  {
    ZeroWord(1);
  }

  lemma LargeWord()
    ensures var w := MakeEntry(SIZE_1G, true, false, false);
            WordOk(w) && IsLeaf(w, 3) && !Points(w, 3) && PhysicalAddress(w) == SIZE_1G
  {
    EntryFields(SIZE_1G, true, false, false);
  }

  lemma LargeIndex()
    ensures var v := VirtualOf(SIZE_1G); Index(v, 4) == 510 && Index(v, 3) == 1 && Index(v, 2) == 0 && Index(v, 1) == 0
  {
    var v := VirtualOf(SIZE_1G);
    assert v == 0xFFFF_FF00_4000_0000;
    DivMod(v, SIZE_512G, 0x1FF_FFFE, SIZE_1G);
    DivMod(v, SIZE_1G, 0x3_FFFF_FC01, 0);
    DivMod(v, SIZE_2M, 0x7FF_FFF8_0200, 0);
    DivMod(v, SIZE_4K, 0xF_FFFF_F004_0000, 0);
  }

  lemma LargeFrames()
    ensures var mem := LargeMemory();
            && ROOT in mem && |mem[ROOT]| == 512 && mem[ROOT][510] == MakeEntry(UPPER * SIZE_4K, false, false, false)
            && UPPER in mem && |mem[UPPER]| == 512 && mem[UPPER][1] == MakeEntry(SIZE_1G, true, false, false)
            && DATA in mem && mem[DATA] == ZeroFrame() && |mem[DATA]| == 512
            && 5 in mem && |mem[5]| == 512 && 6 in mem && |mem[6]| == 512
  {
    hide MakeEntry;
  }

  /** The path of 1 GB meets its 1 GB entry, and the memory there can be taken for a table. */
  lemma LargeMet(ring: seq<int>)
    requires ROOT !in ring && UPPER !in ring && DATA !in ring
    ensures MeetsOnPath(LargeMemory(), ROOT, 4, VirtualOf(SIZE_1G)) == Large1G
    ensures TakenForTable(LargeMemory(), ring, LargeTables(), VirtualOf(SIZE_1G))
  {
    hide Tree, ZeroFrame, MakeEntry, GetFlag, FrameOf, Index, VirtualOf;
    var v, mem := VirtualOf(SIZE_1G), LargeMemory();
    LargeIndex();
    LargeTree();
    LargeWord();
    TableWord(UPPER, 4);
    TableFacts(mem, LargeTables(), 4, []);
    TableFacts(mem, LargeTables(), 4, [510]);
    BlankSlot(0);
    LargeFrames();
    assert PathOf(v, 4, 0) == [] && PathOf(v, 4, 1) == [510];
    assert MeetsOnPath(mem, UPPER, 3, v) == Large1G;
  }

  method TwoFreePages() returns (mp: MemPages)
    ensures fresh(mp) && fresh(mp.structs) && mp.Valid() && mp.ring == [5, 6] && mp.structs.Length == 8
    ensures mp.structs[5].phyaddr == 5 * SIZE_4K && mp.structs[6].phyaddr == 6 * SIZE_4K
  {
    hide Rings.IsRing;
    mp := new MemPages(8);
    mp.SetPhysical(5, 5 * SIZE_4K);
    mp.SetPhysical(6, 6 * SIZE_4K);
    mp.Append(5, HEAD);
    mp.Append(6, 5);
  }

  lemma LargeOffRing()
    ensures forall p :: p in LargeTables() ==> LargeTables()[p] !in [5, 6]
    ensures [] in LargeTables() && LargeTables()[[]] == ROOT
  {
  }

  /** MapPage of 1 GB there reports nothing and overwrites memory that the entry maps. */
  method MapBelowLarge() returns (r: Result, pm: PhysicalMemory)
    ensures fresh(pm) && r == Ok && OnlyDamages(LargeMemory(), LargeTables(), pm.mem, VirtualOf(SIZE_1G))
  {
    hide Tree, ZeroFrame, MakeEntry, GetFlag, FrameOf, Index, VirtualOf, MeetsOnPath, TakenForTable, OnlyDamages,
         MapsOnly, LargeMemory, LargeTables, MemPages.Valid;
    var mp := TwoFreePages();
    pm := new PhysicalMemory(mp, LargeMemory());
    LargeFrames();
    LargeTree();
    LargeMet(mp.ring);
    LargeOffRing();
    ghost var at';
    r, at' := pm.MapPage(ROOT, SIZE_1G, false, false, LargeTables());
  }
}
