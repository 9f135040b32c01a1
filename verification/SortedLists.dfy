/** Ascending sequences of slot numbers. */
module SortedLists {

  ghost predicate Sorted(f: seq<nat>) {
    forall i, j :: 0 <= i < j < |f| ==> f[i] < f[j]
  }

  function Insert(f: seq<nat>, o: nat): (r: seq<nat>)
    ensures |r| == |f| + 1
    ensures forall x :: x in r <==> x == o || x in f
  {
    if f == [] then [o]
    else if o < f[0] then [o] + f
    else [f[0]] + Insert(f[1..], o)
  }

  lemma {:induction false} InsertSorted(f: seq<nat>, o: nat)
    requires Sorted(f) && o !in f
    ensures Sorted(Insert(f, o))
  {
    if f != [] && f[0] < o {
      InsertSorted(f[1..], o);
      var r := Insert(f[1..], o);
      forall j | 0 <= j < |r| ensures f[0] < r[j] {
        assert r[j] in r;
      }
    }
  }

  lemma SortedTail(f: seq<nat>)
    requires Sorted(f) && f != []
    ensures Sorted(f[1..])
    ensures forall x :: x in f[1..] <==> x in f && x != f[0]
  {
    forall x | x in f && x != f[0] ensures x in f[1..] {
      var i :| 0 <= i < |f| && f[i] == x;
      assert f[1..][i - 1] == x;
    }
  }

  function Ascending(m: nat): (r: seq<nat>)
    ensures |r| == m
    ensures forall i :: 0 <= i < m ==> r[i] == i
  {
    seq(m, i => i)
  }

  ghost predicate HasAll(f: seq<nat>, m: nat) {
    forall x: nat :: x < m ==> x in f
  }

  lemma {:induction false} SortedAtLeast(f: seq<nat>, i: nat)
    requires Sorted(f) && i < |f|
    ensures f[i] >= i
  {
    if i > 0 {
      SortedAtLeast(f, i - 1);
    }
  }

  lemma {:induction false} SortedAtMost(f: seq<nat>, m: nat, i: nat)
    requires Sorted(f) && i < |f| && forall x :: x in f ==> x < m
    ensures f[i] + |f| <= m + i
    decreases |f| - i
  {
    if i + 1 < |f| {
      SortedAtMost(f, m, i + 1);
    } else {
      assert f[i] in f;
    }
  }

  lemma {:induction false} SortedAll(f: seq<nat>, m: nat, k: nat)
    requires Sorted(f) && k < m && HasAll(f, m)
    ensures k < |f| && f[k] == k
  {
    if k > 0 {
      SortedAll(f, m, k - 1);
    }
    assert k in f;
    var p :| 0 <= p < |f| && f[p] == k;
    SortedAtLeast(f, p);
    if p < k {
      SortedAll(f, m, p);
    }
  }

  /** A sorted list below m has at most m members, and m of them only when it is 0, 1, ..., m-1. */
  lemma SortedBelow(f: seq<nat>, m: nat)
    requires Sorted(f) && forall x :: x in f ==> x < m
    ensures |f| <= m
    ensures |f| == m <==> HasAll(f, m)
    ensures |f| == m ==> f == Ascending(m)
  {
    if f != [] {
      SortedAtMost(f, m, 0);
    }
    if |f| == m {
      forall i | 0 <= i < m ensures f[i] == i {
        SortedAtLeast(f, i);
        SortedAtMost(f, m, i);
      }
      forall x: nat | x < m ensures x in f {
        assert f[x] == x;
      }
    }
    if m > 0 && HasAll(f, m) {
      SortedAll(f, m, m - 1);
    }
  }
}
