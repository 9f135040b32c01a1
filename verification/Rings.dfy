/** Circular doubly linked rings over a store of link words.

    The kernel keeps every list as an intrusive ring: the free pages, the slab queues, the free
    descriptors of a meta slab, the scheduler's queues.  A node is named by its address, so one store
    of next/prev words describes all of them, and a ring is read off as the sequence of addresses met
    from its head. */
module Rings {

  datatype Links = Links(next: map<int, int>, prev: map<int, int>)

  ghost predicate Distinct(s: seq<int>) {
    forall i, j :: 0 <= i < j < |s| ==> s[i] != s[j]
  }

  /** `c` is a whole ring: following next from c[0] visits c in order and comes back, prev undoes next,
      and no node is met twice. */
  ghost predicate IsRing(l: Links, c: seq<int>) {
    && |c| > 0
    && Distinct(c)
    && (forall i :: 0 <= i < |c| ==> c[i] in l.next && c[i] in l.prev)
    && (forall i, j :: 0 <= i < |c| && j == i + 1 && j < |c| ==> l.next[c[i]] == c[j] && l.prev[c[j]] == c[i])
    && l.next[c[|c| - 1]] == c[0]
    && l.prev[c[0]] == c[|c| - 1]
  }

  function Deleted(l: Links, n: int): Links
    requires n in l.next && n in l.prev
  {
    Links(l.next[l.prev[n] := l.next[n]], l.prev[l.next[n] := l.prev[n]])
  }

  function InsertedAfter(l: Links, n: int, parent: int): Links
    requires parent in l.next
  {
    Links(l.next[n := l.next[parent]][parent := n], l.prev[n := parent][l.next[parent] := n])
  }

  function InsertedBefore(l: Links, n: int, child: int): Links
    requires child in l.prev
  {
    Links(l.next[n := child][l.prev[child] := n], l.prev[n := l.prev[child]][child := n])
  }

  function Drop(s: seq<int>, k: nat): (r: seq<int>)
    requires k < |s|
  {
    s[..k] + s[k + 1..]
  }

  /** Two stores that agree on a ring's nodes hold the same ring. */
  lemma RingFrame(l: Links, l': Links, c: seq<int>)
    requires IsRing(l, c)
    requires forall x :: x in c ==> x in l'.next && x in l'.prev && l'.next[x] == l.next[x] && l'.prev[x] == l.prev[x]
    ensures IsRing(l', c)
  {
    assert forall i :: 0 <= i < |c| ==> c[i] in c;
  }

  lemma DeleteFromRing(l: Links, c: seq<int>, k: nat)
    requires IsRing(l, c)
    requires 0 < k < |c|
    ensures IsRing(Deleted(l, c[k]), Drop(c, k))
  {
    var d := Drop(c, k);
    assert forall i :: 0 <= i < |d| ==> d[i] == if i < k then c[i] else c[i + 1];
    assert l.prev[c[k]] == c[k - 1];
    if k + 1 < |c| {
      assert l.next[c[k]] == c[k + 1];
    }
  }

  lemma InsertAfterHead(l: Links, c: seq<int>, n: int)
    requires IsRing(l, c)
    requires n !in c
    ensures IsRing(InsertedAfter(l, n, c[0]), [c[0], n] + c[1..])
  {
    var d := [c[0], n] + c[1..];
    assert forall i :: 2 <= i < |d| ==> d[i] == c[i - 1];
    assert |c| > 1 ==> l.next[c[0]] == c[1];
  }

  lemma InsertBeforeHead(l: Links, c: seq<int>, n: int)
    requires IsRing(l, c)
    requires n !in c
    ensures IsRing(InsertedBefore(l, n, c[0]), c + [n])
  {
    var d := c + [n];
    assert forall i :: 0 <= i < |c| ==> d[i] == c[i];
  }

  /** The links determine the ring: a head has one cycle only. */
  lemma {:induction false} RingAgreesUpTo(l: Links, c: seq<int>, d: seq<int>, k: nat)
    requires IsRing(l, c) && IsRing(l, d) && c[0] == d[0]
    requires k < |c| && k < |d|
    ensures c[k] == d[k]
  {
    if k > 0 {
      RingAgreesUpTo(l, c, d, k - 1);
      assert l.next[c[k - 1]] == c[k] && l.next[d[k - 1]] == d[k];
    }
  }

  lemma RingUnique(l: Links, c: seq<int>, d: seq<int>)
    requires IsRing(l, c) && IsRing(l, d) && c[0] == d[0]
    ensures c == d
  {
    forall k | 0 <= k < |c| && k < |d| ensures c[k] == d[k] {
      RingAgreesUpTo(l, c, d, k);
    }
    if |c| < |d| {
      assert false;
    } else if |d| < |c| {
      assert false;
    }
  }

  lemma ConsDistinct(x: int, s: seq<int>)
    requires Distinct(s) && x !in s
    ensures Distinct([x] + s)
  {
    assert forall i :: 0 <= i < |s| ==> s[i] in s;
  }

  lemma AppendDistinct(s: seq<int>, t: seq<int>)
    requires Distinct(s) && Distinct(t) && forall x :: x in s ==> x !in t
    ensures Distinct(s + t)
  {
    assert forall i :: 0 <= i < |s| ==> s[i] in s;
    assert forall i :: 0 <= i < |t| ==> t[i] in t;
  }
}
