/** kern/mm/allocator.h, kern/mm/allocator.cc: the physical page allocator.

    The free pages are a ring through page_head, threaded through the array of page structs; each struct
    also says, twice, whether its page is free.  The simple object is the sequence of free page numbers. */
module PageAllocator {
  import opened Rings

  const PAGESIZE: nat := 4096
  /** &page_head, and the null Page pointer of a zeroed page_head. */
  const HEAD: int := -1
  const NULL: int := -2

  datatype Page = Page(phyaddr: nat, allocNext: int, allocPrev: int, isFree: bool, isInList: bool,
                       slabPtr: int, slabObjSize: int)

  /** What AllocPages does: a null pointer, a run of pages, or a walk past the end of page_structs. */
  datatype PagesResult = NoPages | Run(start: nat) | Overrun

  /** u64 subtraction. */
  function Sub64(a: nat, b: nat): (r: int)
    requires a < 0x1_0000_0000_0000_0000 && b < 0x1_0000_0000_0000_0000
    ensures 0 <= r < 0x1_0000_0000_0000_0000
  {
    if b <= a then a - b else a - b + 0x1_0000_0000_0000_0000
  }

  ghost function NullWord(x: int): int {
    NULL
  }

  predicate RunAt(ring: seq<int>, s: int, n: int) {
    forall i :: s <= i < s + n ==> i in ring
  }

  /** ring without the pages lo..hi-1, order kept. */
  function Outside(ring: seq<int>, lo: int, hi: int): (r: seq<int>)
    ensures forall x :: x in r <==> x in ring && !(lo <= x < hi)
  {
    if ring == [] then []
    else if lo <= ring[0] < hi then Outside(ring[1..], lo, hi)
    else [ring[0]] + Outside(ring[1..], lo, hi)
  }

  /** p + n - 1, ..., p: the order FreePages leaves n pages in. */
  function Descending(p: int, n: nat): (r: seq<int>)
    ensures |r| == n
    ensures forall i :: 0 <= i < n ==> r[i] == p + n - 1 - i
    ensures forall x :: x in r <==> p <= x < p + n
  {
    if n == 0 then [] else [p + n - 1] + Descending(p, n - 1)
  }

  lemma {:induction false} OutsideNothing(ring: seq<int>, lo: int)
    ensures Outside(ring, lo, lo) == ring
  {
    if ring != [] {
      OutsideNothing(ring[1..], lo);
      assert ring == [ring[0]] + ring[1..];
    }
  }

  /** What is left keeps its order. */
  lemma {:induction false} OutsideOrder(ring: seq<int>, lo: int, hi: int, k: nat, m: nat) returns (i: nat, j: nat)
    requires k < m < |Outside(ring, lo, hi)|
    ensures i < j < |ring| && ring[i] == Outside(ring, lo, hi)[k] && ring[j] == Outside(ring, lo, hi)[m]
  {
    if lo <= ring[0] < hi {
      i, j := OutsideOrder(ring[1..], lo, hi, k, m);
      i, j := i + 1, j + 1;
    } else if k == 0 {
      j := OutsideAt(ring[1..], lo, hi, m - 1);
      i, j := 0, j + 1;
    } else {
      i, j := OutsideOrder(ring[1..], lo, hi, k - 1, m - 1);
      i, j := i + 1, j + 1;
    }
  }

  lemma OutsideAt(ring: seq<int>, lo: int, hi: int, k: nat) returns (i: nat)
    requires k < |Outside(ring, lo, hi)|
    ensures i < |ring| && ring[i] == Outside(ring, lo, hi)[k]
  {
    assert Outside(ring, lo, hi)[k] in Outside(ring, lo, hi);
    i :| i < |ring| && ring[i] == Outside(ring, lo, hi)[k];
  }

  /** Unlinking page hi from what is left after lo..hi-1 are gone. */
  lemma {:induction false} OutsideDrop(ring: seq<int>, lo: int, hi: int, k: nat)
    requires Distinct(ring) && lo <= hi
    requires k < |Outside(ring, lo, hi)| && Outside(ring, lo, hi)[k] == hi
    ensures Drop(Outside(ring, lo, hi), k) == Outside(ring, lo, hi + 1)
  {
    if ring == [] {
    } else if lo <= ring[0] < hi {
      OutsideDrop(ring[1..], lo, hi, k);
    } else if ring[0] == hi {
      assert k == 0 || hi in Outside(ring[1..], lo, hi);
      OutsideSkips(ring[1..], lo, hi);
    } else {
      var rest := Outside(ring[1..], lo, hi);
      OutsideDrop(ring[1..], lo, hi, k - 1);
      assert Drop([ring[0]] + rest, k) == [ring[0]] + Drop(rest, k - 1);
    }
  }

  lemma {:induction false} OutsideSkips(ring: seq<int>, lo: int, hi: int)
    requires hi !in ring && lo <= hi
    ensures Outside(ring, lo, hi + 1) == Outside(ring, lo, hi)
  {
    if ring != [] {
      OutsideSkips(ring[1..], lo, hi);
    }
  }

  lemma UnlinkFromRing(l: Links, ring: seq<int>, k: nat)
    requires IsRing(l, [HEAD] + ring)
    requires k < |ring|
    ensures ring[k] in l.next && ring[k] in l.prev
    ensures l.prev[ring[k]] in [HEAD] + ring && l.next[ring[k]] in [HEAD] + ring
    ensures IsRing(Deleted(l, ring[k]), [HEAD] + Drop(ring, k))
    ensures Deleted(l, ring[k]).next[HEAD] in [HEAD] + Drop(ring, k)
  {
    var c := [HEAD] + ring;
    assert c[k + 1] == ring[k] && c[0] == HEAD;
    DeleteFromRing(l, c, k + 1);
    var d := [HEAD] + Drop(ring, k);
    assert Drop(c, k + 1) == d;
    assert c[k] == l.prev[ring[k]];
    assert l.next[ring[k]] == (if k + 2 < |c| then c[k + 2] else c[0]);
    RingHead(Deleted(l, ring[k]), d);
  }

  lemma RingHead(l: Links, c: seq<int>)
    requires IsRing(l, c)
    ensures l.next[c[0]] in c
  {
    assert l.next[c[0]] == (if |c| > 1 then c[1] else c[0]);
  }

  lemma SingletonRing(l: Links, pg: int)
    requires pg != HEAD && pg in l.next && pg in l.prev && HEAD in l.next && HEAD in l.prev
    requires l.next[pg] == HEAD && l.prev[pg] == HEAD && l.next[HEAD] == pg && l.prev[HEAD] == pg
    ensures IsRing(l, [HEAD] + [pg])
  {
  }

  lemma MembersAfterDrop(ring: seq<int>, k: nat)
    requires Distinct(ring) && k < |ring|
    ensures forall x :: x in Drop(ring, k) <==> x in ring && x != ring[k]
  {
    forall x | x in ring && x != ring[k] ensures x in Drop(ring, k) {
      var j :| 0 <= j < |ring| && ring[j] == x;
      assert x == Drop(ring, k)[if j < k then j else j - 1];
    }
  }

  lemma AppendToRing(l: Links, ring: seq<int>, pg: int)
    requires IsRing(l, [HEAD] + ring)
    requires pg != HEAD && pg !in ring
    ensures HEAD in l.prev && l.prev[HEAD] == if ring == [] then HEAD else ring[|ring| - 1]
    ensures IsRing(InsertedBefore(l, pg, HEAD), [HEAD] + (ring + [pg]))
  {
    var c := [HEAD] + ring;
    assert c[|c| - 1] == if ring == [] then HEAD else ring[|ring| - 1];
    InsertBeforeHead(l, c, pg);
    assert c + [pg] == [HEAD] + (ring + [pg]);
  }

  lemma PushOnRing(l: Links, ring: seq<int>, pg: int)
    requires IsRing(l, [HEAD] + ring)
    requires pg != HEAD && pg !in ring
    ensures HEAD in l.next && l.next[HEAD] in [HEAD] + ring
    ensures IsRing(InsertedAfter(l, pg, HEAD), [HEAD] + ([pg] + ring))
  {
    var c := [HEAD] + ring;
    RingHead(l, c);
    InsertAfterHead(l, c, pg);
    assert [c[0], pg] + c[1..] == [HEAD] + ([pg] + ring);
  }

  class MemPages {
    var headNext: int
    var headPrev: int
    /** page_structs, nr_page_structs of them. */
    const structs: array<Page>
    /** The free pages, in the order of alloc_next from page_head. */
    ghost var ring: seq<int>
    /** The same link words as a store. */
    ghost var links: Links

    /** page_structs after memset: nothing is managed yet. */
    constructor (nr: nat)
      requires nr < 0x1_0000_0000_0000_0000
      ensures Valid() && ring == [] && headNext == NULL && structs.Length == nr && fresh(structs)
    {
      structs := new Page[nr](_ => Page(0, NULL, NULL, false, false, 0, 0));
      headNext, headPrev, ring := NULL, NULL, [];
      links := Links(map x | -1 <= x < nr :: NullWord(x), map x | -1 <= x < nr :: NullWord(x));
    }

    /** The link words of page_head and of every page struct. */
    ghost predicate Linked()
      reads this, structs
    {
      && HEAD in links.next && links.next[HEAD] == headNext
      && HEAD in links.prev && links.prev[HEAD] == headPrev
      && (forall i :: 0 <= i < structs.Length ==> i in links.next && links.next[i] == structs[i].allocNext)
      && (forall i :: 0 <= i < structs.Length ==> i in links.prev && links.prev[i] == structs[i].allocPrev)
    }

    /** The ring through page_head visits exactly the pages flagged free and in the list, each once. */
    ghost predicate Valid()
      reads this, structs
    {
      && structs.Length < 0x1_0000_0000_0000_0000
      && Linked()
      && (if headNext == NULL then headPrev == NULL && ring == [] else IsRing(links, [HEAD] + ring))
      && (forall i :: i in ring ==> 0 <= i < structs.Length)
      && (forall i :: 0 <= i < structs.Length ==> (structs[i].isFree <==> i in ring))
      && (forall i :: 0 <= i < structs.Length ==> (structs[i].isInList <==> i in ring))
    }

    /** Everything but the free list is as it was. */
    twostate predicate KeepsOwners()
      reads structs
    {
      forall i :: 0 <= i < structs.Length ==>
        && structs[i].phyaddr == old(structs[i].phyaddr)
        && structs[i].slabPtr == old(structs[i].slabPtr)
        && structs[i].slabObjSize == old(structs[i].slabObjSize)
    }

    twostate predicate KeepsFlags()
      reads structs
    {
      forall i :: 0 <= i < structs.Length ==>
        structs[i].isFree == old(structs[i].isFree) && structs[i].isInList == old(structs[i].isInList)
    }

    method SetNext(x: int, v: int)
      requires -1 <= x < structs.Length && Linked()
      modifies this`headNext, this`links, structs
      ensures Linked()
      ensures links == Links(old(links).next[x := v], old(links).prev)
      ensures x != HEAD ==> headNext == old(headNext)
      ensures x == HEAD ==> headNext == v
      ensures KeepsOwners() && KeepsFlags()
    {
      if x == HEAD {
        headNext := v;
      } else {
        structs[x] := structs[x].(allocNext := v);
      }
      links := Links(links.next[x := v], links.prev);
    }

    method SetPrev(x: int, v: int)
      requires -1 <= x < structs.Length && Linked()
      modifies this`headPrev, this`links, structs
      ensures Linked()
      ensures links == Links(old(links).next, old(links).prev[x := v])
      ensures x != HEAD ==> headPrev == old(headPrev)
      ensures x == HEAD ==> headPrev == v
      ensures KeepsOwners() && KeepsFlags()
    {
      if x == HEAD {
        headPrev := v;
      } else {
        structs[x] := structs[x].(allocPrev := v);
      }
      links := Links(links.next, links.prev[x := v]);
    }

    method SetPhysical(p: int, a: nat)
      requires Valid() && 0 <= p < structs.Length
      modifies structs
      ensures Valid()
      ensures forall i :: 0 <= i < structs.Length ==>
                structs[i].phyaddr == (if i == p then a else old(structs[i].phyaddr))
    {
      structs[p] := structs[p].(phyaddr := a);
    }

    /** The slab fields of a page struct, which the slab allocator owns. */
    method SetSlab(p: int, slabPtr: int, slabObjSize: int)
      requires Valid() && 0 <= p < structs.Length
      modifies structs
      ensures Valid()
      ensures forall i :: 0 <= i < structs.Length ==>
                && structs[i].phyaddr == old(structs[i].phyaddr)
                && structs[i].slabPtr == (if i == p then slabPtr else old(structs[i].slabPtr))
                && structs[i].slabObjSize == (if i == p then slabObjSize else old(structs[i].slabObjSize))
    {
      structs[p] := structs[p].(slabPtr := slabPtr, slabObjSize := slabObjSize);
    }

    method SetFlags(p: int, free: bool)
      requires 0 <= p < structs.Length && Linked()
      modifies structs
      ensures Linked()
      ensures KeepsOwners()
      ensures forall i :: 0 <= i < structs.Length ==>
                && structs[i].isFree == (if i == p then free else old(structs[i].isFree))
                && structs[i].isInList == (if i == p then free else old(structs[i].isInList))
    {
      structs[p] := structs[p].(isFree := free, isInList := free);
    }

    /** Takes the first page of the ring; with at most one page free it gives a null pointer. */
    method AllocPage() returns (p: int)
      requires Valid()
      modifies this, structs
      ensures Valid() && KeepsOwners()
      ensures p == NULL <==> |old(ring)| <= 1
      ensures p == NULL ==> ring == old(ring)
      ensures p != NULL ==> 0 <= p < structs.Length && old(ring) == [p] + ring && p !in ring
      ensures headNext == NULL <==> old(headNext) == NULL
    {
      FirstAndLast();
      if headNext == headPrev {
        return NULL;
      }
      p := headNext;
      assert p in ring;
      Unlink(p, 0);
    }

    lemma FirstAndLast()
      requires Valid()
      ensures ring == [] ==> headNext == headPrev
      ensures ring != [] ==> headNext == ring[0] && headPrev == ring[|ring| - 1]
      ensures headNext == headPrev <==> |ring| <= 1
    {
      var c := [HEAD] + ring;
      if headNext != NULL {
        assert c[0] == HEAD && c[|c| - 1] in c;
        if ring != [] {
          assert c[1] == ring[0] && c[|c| - 1] == ring[|ring| - 1];
        }
      }
    }

    /** The two pointer writes that take page p, the k-th free page, off the ring, and its flags. */
    method Unlink(p: int, ghost k: nat)
      requires Valid()
      requires k < |ring| && ring[k] == p
      modifies this, structs
      ensures Valid() && KeepsOwners()
      ensures ring == Drop(old(ring), k) && p !in ring
      ensures headNext != NULL && old(headNext) != NULL
    {
      ghost var was := links;
      UnlinkFromRing(was, ring, k);
      DistinctMembers();
      MembersAfterDrop(ring, k);
      assert p in ring;
      var before, after := structs[p].allocPrev, structs[p].allocNext;
      SetNext(before, after);
      SetPrev(after, before);
      SetFlags(p, false);
      ring := Drop(ring, k);
      assert links == Deleted(was, p);
      assert headNext == links.next[HEAD];
    }

    /** Puts page pg at the front of the ring. */
    method FreePage(pg: int)
      requires Valid()
      requires 0 <= pg < structs.Length && pg !in ring
      requires headNext != NULL
      modifies this, structs
      ensures Valid() && KeepsOwners()
      ensures ring == [pg] + old(ring)
      ensures headNext != NULL
    {
      PushOnRing(links, ring, pg);
      Link(pg);
      SetFlags(pg, true);
      ring := [pg] + ring;
    }

    /** The four pointer writes that put page pg after page_head. */
    method Link(pg: int)
      requires Linked() && 0 <= pg < structs.Length && -1 <= headNext < structs.Length && headNext != pg
      modifies this`headNext, this`headPrev, this`links, structs
      ensures Linked() && KeepsOwners() && KeepsFlags()
      ensures links == InsertedAfter(old(links), pg, HEAD)
      ensures headNext == pg
    {
      SetNext(pg, headNext);
      SetPrev(headNext, pg);
      SetNext(HEAD, pg);
      SetPrev(pg, HEAD);
    }

    /** CollectAvailable's pointer writes for a usable page: pg goes to the end of the ring, after last. */
    method Append(pg: int, last: int)
      requires Valid() && 0 <= pg < structs.Length && pg !in ring
      requires last == if ring == [] then HEAD else ring[|ring| - 1]
      modifies this, structs
      ensures Valid() && KeepsOwners()
      ensures ring == old(ring) + [pg]
    {
      ghost var was := links;
      assert ring != [] ==> last in ring;
      if headNext != NULL {
        AppendToRing(links, ring, pg);
      }
      LinkLast(pg, last);
      SetFlags(pg, true);
      ring := ring + [pg];
      if was.next[HEAD] == NULL {
        assert ring == [pg];
        SingletonRing(links, pg);
      } else {
        assert links == InsertedBefore(was, pg, HEAD);
      }
    }

    method LinkLast(pg: int, last: int)
      requires Linked() && 0 <= pg < structs.Length && -1 <= last < structs.Length && last != pg
      modifies this`headNext, this`headPrev, this`links, structs
      ensures Linked() && KeepsOwners() && KeepsFlags()
      ensures links == Links(old(links).next[pg := HEAD][last := pg], old(links).prev[pg := last][HEAD := pg])
    {
      SetNext(pg, HEAD);
      SetPrev(pg, last);
      SetPrev(HEAD, pg);
      SetNext(last, pg);
    }

    /** The search loop of AllocPages: the start it leaves behind, -1 when it found none. */
    method FindRun(n: nat) returns (start: int)
      requires Valid() && 1 < n < 0x8000_0000
      ensures -1 <= start < structs.Length
      ensures n <= structs.Length && start != -1 ==>
                && start + n <= structs.Length && RunAt(ring, start, n)
                && forall s :: 0 <= s < start ==> !RunAt(ring, s, n)
      ensures n <= structs.Length && start == -1 ==>
                forall s :: 0 <= s && s + n <= structs.Length ==> !RunAt(ring, s, n)
      ensures n > structs.Length ==> (start != -1 <==> structs.Length > 0 && structs.Length - 1 in ring)
    {
      start := -1;
      var i := 0;
      while i < structs.Length
        invariant 0 <= i <= structs.Length
        invariant -1 <= start < i
        invariant start == -1 ==> i == 0 || i - 1 !in ring
        invariant start != -1 ==> start > 0 ==> start - 1 !in ring
        invariant start != -1 ==> forall j :: start <= j < i ==> j in ring
        invariant start != -1 ==> i < start + n && (n <= structs.Length ==> start + n <= structs.Length)
        invariant forall s :: 0 <= s < (if start == -1 then i else start) ==> !RunAt(ring, s, n)
      {
        if !structs[i].isFree {
          assert forall s :: s <= i < s + n ==> !RunAt(ring, s, n);
          start := -1;
          i := i + 1;
          continue;
        }
        if start == -1 && i > Sub64(structs.Length, n) {
          break;
        } else if start == -1 {
          start := i;
        }
        if i == start + n - 1 {
          break;
        }
        i := i + 1;
      }
    }

    /** First fit: the lowest run of n free pages leaves the ring; no run, null pointer.  Asked for more
        pages than there are page structs, it runs off the array exactly when the last page is free. */
    method AllocPages(n: nat) returns (r: PagesResult)
      requires Valid() && 1 <= n < 0x8000_0000
      modifies this, structs
      ensures KeepsOwners()
      ensures r.Run? ==> r.start + n <= structs.Length && RunAt(old(ring), r.start, n)
      ensures 1 < n && r.Run? ==> forall s :: 0 <= s < r.start ==> !RunAt(old(ring), s, n)
      ensures 1 < n <= structs.Length ==>
                (r == NoPages <==> forall s :: 0 <= s && s + n <= structs.Length ==> !RunAt(old(ring), s, n))
      ensures n == 1 ==> (r == NoPages <==> |old(ring)| <= 1) && (r.Run? ==> r.start == old(ring)[0])
      ensures r == Overrun <==> 1 < n && n > structs.Length && structs.Length > 0 && structs.Length - 1 in old(ring)
      ensures r.Run? ==> ring == Outside(old(ring), r.start, r.start + n)
      ensures !r.Run? ==> ring == old(ring)
      ensures Valid() && (headNext == NULL <==> old(headNext) == NULL)
    {
      hide IsRing, Linked, Outside;
      if n == 1 {
        var p := AllocPage();
        if p == NULL {
          return NoPages;
        }
        DistinctRing(old(ring), p);
        return Run(p);
      }
      var start := FindRun(n);
      if start == -1 {
        return NoPages;
      }
      if n > structs.Length {
        return Overrun;
      }
      assert start in ring;
      RemoveRun(start, n);
      return Run(start);
    }

    /** The removal loop of AllocPages. */
    method RemoveRun(start: nat, n: nat)
      requires Valid() && headNext != NULL
      requires start + n <= structs.Length && RunAt(ring, start, n)
      modifies this, structs
      ensures Valid() && KeepsOwners() && headNext != NULL
      ensures ring == Outside(old(ring), start, start + n)
    {
      hide Valid, Outside, Distinct;
      OutsideNothing(ring, start);
      DistinctMembers();
      var i := start;
      while i < start + n
        invariant start <= i <= start + n
        invariant Valid() && KeepsOwners() && headNext != NULL
        invariant ring == Outside(old(ring), start, i)
      {
        RemoveNext(i, old(ring), start);
        i := i + 1;
      }
    }

    /** One turn of the removal loop: page i leaves what the earlier turns left of `was`. */
    method RemoveNext(i: int, ghost was: seq<int>, ghost start: int)
      requires Valid()
      requires Distinct(was) && start <= i && i in was && ring == Outside(was, start, i)
      modifies this, structs
      ensures Valid() && KeepsOwners() && headNext != NULL
      ensures ring == Outside(was, start, i + 1)
    {
      hide Valid, Distinct;
      assert i in ring;
      ghost var k :| 0 <= k < |ring| && ring[k] == i;
      OutsideDrop(was, start, i, k);
      Unlink(i, k);
    }

    lemma DistinctMembers()
      requires Valid()
      ensures Distinct(ring)
    {
      var c := [HEAD] + ring;
      if headNext != NULL {
        assert forall i :: 0 <= i < |ring| ==> ring[i] == c[i + 1];
      }
    }

    lemma DistinctRing(was: seq<int>, p: int)
      requires Valid()
      requires was == [p] + ring && p !in ring
      ensures Outside(was, p, p + 1) == ring
    {
      assert was[1..] == ring;
      OutsideNothing(ring, p);
      OutsideSkips(ring, p, p);
    }

    /** Every one of the n pages goes to the front of the ring, the last one ending up first. */
    method FreePages(pg: int, n: nat)
      requires Valid() && 1 <= n
      requires 0 <= pg && pg + n <= structs.Length
      requires forall i :: pg <= i < pg + n ==> i !in ring
      requires headNext != NULL
      modifies this, structs
      ensures Valid() && KeepsOwners() && headNext != NULL
      ensures ring == Descending(pg, n) + old(ring)
    {
      hide Valid;
      if n == 1 {
        FreePage(pg);
        assert Descending(pg, 1) == [pg] + Descending(pg, 0);
        return;
      }
      var i := 0;
      while i < n
        invariant 0 <= i <= n
        invariant Valid() && KeepsOwners() && headNext != NULL
        invariant ring == Descending(pg, i) + old(ring)
      {
        FreePage(pg + i);
        i := i + 1;
      }
    }
  }

  /** Three pages asked of an allocator with two structs: the search runs past the array. */
  method AskForTooMany() returns (r: PagesResult)
    ensures r == Overrun
  {
    hide IsRing;
    var mp := new MemPages(2);
    mp.Append(1, HEAD);
    r := mp.AllocPages(3);
  }
}
