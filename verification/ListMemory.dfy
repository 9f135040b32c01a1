/** kern/libc/list.h: the intrusive ListNode, as link words stored at addresses.

    Nodes are reached by casting addresses of kernel memory, and one word pair can be on the free ring of
    a meta slab at one time and on a slab queue at another, so the nodes live in one store. */
module ListNodes {
  import opened Rings

  /** Every head in `rings` starts a ring of the store with the listed members, and no node is on two rings. */
  ghost predicate Family(l: Links, rings: map<int, seq<int>>) {
    && (forall h :: h in rings ==> IsRing(l, Cycle(rings, h)))
    && (forall g, h, x :: g in rings && h in rings && x in Cycle(rings, g) && x in Cycle(rings, h) ==> g == h)
  }

  ghost function Cycle(rings: map<int, seq<int>>, h: int): seq<int>
    requires h in rings
  {
    [h] + rings[h]
  }

  /** x is no ring's head and no ring's member. */
  ghost predicate Loose(rings: map<int, seq<int>>, x: int) {
    forall h :: h in rings ==> x !in Cycle(rings, h)
  }

  ghost predicate SameWords(l: Links, l': Links, x: int) {
    && (x in l.next <==> x in l'.next)
    && (x in l.prev <==> x in l'.prev)
    && (x in l.next ==> l.next[x] == l'.next[x])
    && (x in l.prev ==> l.prev[x] == l'.prev[x])
  }

  lemma Neighbours(l: Links, c: seq<int>, k: nat)
    requires IsRing(l, c) && k < |c|
    ensures c[k] in l.next && c[k] in l.prev
    ensures l.next[c[k]] in c && l.prev[c[k]] in c
  {
    if k + 1 < |c| {
      assert l.next[c[k]] == c[k + 1];
    }
    if k > 0 {
      assert l.prev[c[k]] == c[k - 1];
    }
  }

  /** A change confined to ring h and nodes on no ring keeps every other ring. */
  lemma ReplaceRing(l: Links, l': Links, rings: map<int, seq<int>>, h: int, members: seq<int>)
    requires Family(l, rings)
    requires IsRing(l', [h] + members)
    requires forall x :: x in [h] + members ==> Loose(rings, x) || (h in rings && x in Cycle(rings, h))
    requires forall x :: !Loose(rings, x) && !(h in rings && x in Cycle(rings, h)) ==> SameWords(l, l', x)
    ensures Family(l', rings[h := members])
  {
    var rings' := rings[h := members];
    forall g | g in rings' ensures IsRing(l', Cycle(rings', g)) {
      if g != h {
        forall x | x in Cycle(rings, g) ensures SameWords(l, l', x) {
          assert !Loose(rings, x);
        }
        assert IsRing(l, Cycle(rings, g));
        RingFrame(l, l', Cycle(rings, g));
      }
    }
    forall f, g, x | f in rings' && g in rings' && x in Cycle(rings', f) && x in Cycle(rings', g)
      ensures f == g
    {
      if f != h && g != h {
        assert x in Cycle(rings, f) && x in Cycle(rings, g);
      }
    }
  }

  lemma DeleteFromFamily(l: Links, rings: map<int, seq<int>>, h: int, k: nat)
    requires Family(l, rings) && h in rings && k < |rings[h]|
    ensures rings[h][k] in l.next && rings[h][k] in l.prev
    ensures Family(Deleted(l, rings[h][k]), rings[h := Drop(rings[h], k)])
    ensures Loose(rings[h := Drop(rings[h], k)], rings[h][k])
  {
    var c := Cycle(rings, h);
    var n := rings[h][k];
    assert IsRing(l, c) && c[k + 1] == n;
    Neighbours(l, c, k + 1);
    DeleteFromRing(l, c, k + 1);
    assert Drop(c, k + 1) == [h] + Drop(rings[h], k);
    assert forall x :: x in Drop(c, k + 1) ==> x in c;
    ReplaceRing(l, Deleted(l, n), rings, h, Drop(rings[h], k));
    var rings' := rings[h := Drop(rings[h], k)];
    forall g | g in rings' ensures n !in Cycle(rings', g) {
      if g != h {
        assert n in Cycle(rings, h);
      }
    }
  }

  lemma InsertAfterInFamily(l: Links, rings: map<int, seq<int>>, h: int, n: int)
    requires Family(l, rings) && h in rings && Loose(rings, n)
    ensures h in l.next
    ensures Family(InsertedAfter(l, n, h), rings[h := [n] + rings[h]])
  {
    var c := Cycle(rings, h);
    assert IsRing(l, c) && c[0] == h;
    Neighbours(l, c, 0);
    InsertAfterHead(l, c, n);
    assert [c[0], n] + c[1..] == [h] + ([n] + rings[h]);
    ReplaceRing(l, InsertedAfter(l, n, h), rings, h, [n] + rings[h]);
  }

  lemma InsertBeforeInFamily(l: Links, rings: map<int, seq<int>>, h: int, n: int)
    requires Family(l, rings) && h in rings && Loose(rings, n)
    ensures h in l.prev
    ensures Family(InsertedBefore(l, n, h), rings[h := rings[h] + [n]])
  {
    var c := Cycle(rings, h);
    assert IsRing(l, c) && c[0] == h;
    Neighbours(l, c, 0);
    InsertBeforeHead(l, c, n);
    assert c + [n] == [h] + (rings[h] + [n]);
    ReplaceRing(l, InsertedBefore(l, n, h), rings, h, rings[h] + [n]);
  }

  lemma InitHeadInFamily(l: Links, rings: map<int, seq<int>>, h: int)
    requires Family(l, rings) && Loose(rings, h)
    ensures Family(Links(l.next[h := h], l.prev[h := h]), rings[h := []])
  {
    ReplaceRing(l, Links(l.next[h := h], l.prev[h := h]), rings, h, []);
  }

  lemma FirstOfFamily(l: Links, rings: map<int, seq<int>>, h: int)
    requires Family(l, rings) && h in rings
    ensures h in l.next
    ensures l.next[h] == if rings[h] == [] then h else rings[h][0]
    ensures l.next[h] == h <==> rings[h] == []
  {
    var c := Cycle(rings, h);
    assert IsRing(l, c) && c[0] == h;
    if rings[h] != [] {
      assert c[1] == rings[h][0];
    }
  }

  class ListMemory {
    var next: map<int, int>
    var prev: map<int, int>
    /** For each ring head, the members in next order. */
    ghost var rings: map<int, seq<int>>

    ghost function Store(): Links
      reads this
    {
      Links(next, prev)
    }

    ghost predicate Valid()
      reads this
    {
      Family(Store(), rings)
    }

    constructor ()
      ensures Valid() && rings == map[]
    {
      next, prev, rings := map[], map[], map[];
    }

    method InitHead(h: int)
      requires Valid() && Loose(rings, h)
      modifies this
      ensures Valid() && rings == old(rings)[h := []]
    {
      InitHeadInFamily(Store(), rings, h);
      next := next[h := h];
      prev := prev[h := h];
      rings := rings[h := []];
    }

    method IsEmpty(h: int) returns (b: bool)
      requires Valid() && h in rings
      ensures b <==> rings[h] == []
    {
      FirstOfFamily(Store(), rings, h);
      b := next[h] == h;
    }

    /** head->next, the first member of a ring that has one. */
    method First(h: int) returns (n: int)
      requires Valid() && h in rings && rings[h] != []
      ensures n == rings[h][0]
    {
      FirstOfFamily(Store(), rings, h);
      n := next[h];
    }

    method Delete(n: int, ghost h: int, ghost k: nat)
      requires Valid() && h in rings && k < |rings[h]| && rings[h][k] == n
      modifies this
      ensures Valid() && rings == old(rings)[h := Drop(old(rings)[h], k)]
      ensures Loose(rings, n)
    {
      DeleteFromFamily(Store(), rings, h, k);
      next := next[prev[n] := next[n]];
      prev := prev[next[n] := prev[n]];
      rings := rings[h := Drop(rings[h], k)];
      assert Store() == Deleted(old(Store()), n);
    }

    method InsertAfter(n: int, h: int)
      requires Valid() && h in rings && Loose(rings, n)
      modifies this
      ensures Valid() && rings == old(rings)[h := [n] + old(rings)[h]]
    {
      InsertAfterInFamily(Store(), rings, h, n);
      assert h in Cycle(rings, h);
      next := next[n := next[h]];
      prev := prev[n := h];
      next := next[prev[n] := n];
      prev := prev[next[n] := n];
      rings := rings[h := [n] + rings[h]];
      assert Store() == InsertedAfter(old(Store()), n, h);
    }

    method InsertBefore(n: int, h: int)
      requires Valid() && h in rings && Loose(rings, n)
      modifies this
      ensures Valid() && rings == old(rings)[h := old(rings)[h] + [n]]
    {
      InsertBeforeInFamily(Store(), rings, h, n);
      assert h in Cycle(rings, h);
      next := next[n := h];
      prev := prev[n := prev[h]];
      prev := prev[h := n];
      next := next[prev[n] := n];
      rings := rings[h := rings[h] + [n]];
      assert Store() == InsertedBefore(old(Store()), n, h);
    }

    /** The page that held a ring's head is given back, so the ring is no longer one of ours. */
    ghost method Forget(h: int)
      requires Valid()
      modifies this
      ensures Valid() && rings == old(rings) - {h}
      ensures next == old(next) && prev == old(prev)
    {
      rings := rings - {h};
    }
  }
}
