/** Trees of page tables: which frame serves as which table, and what a write to one slot does to the walk
    of every address. */
module PageTree {
  import opened Arithmetic
  import opened PageWalk

  /** Frames used as tables, by the indices that lead to them from the top table. */
  type Tables = map<seq<nat>, int>

  /** The first k indices of address v, from level top down. */
  function PathOf(v: nat, top: nat, k: nat): (p: seq<nat>)
    requires k <= top <= 4
    ensures |p| == k
  {
    if k == 0 then [] else PathOf(v, top, k - 1) + [Index(v, top - k + 1)]
  }

  lemma {:induction false} PathPrefix(v: nat, top: nat, k: nat, n: nat)
    requires k <= n <= top <= 4
    ensures PathOf(v, top, n)[..k] == PathOf(v, top, k)
  {
    if k < n {
      PathPrefix(v, top, k, n - 1);
    }
  }

  /** The table at path p is a frame of well-formed words, and each word points to a table exactly when the
      tree has that table. */
  ghost predicate TableOk(mem: Memory, at: Tables, top: nat, p: seq<nat>)
    requires p in at
  {
    && |p| < top && 0 <= at[p] < 0x100_0000_0000 && at[p] in mem && |mem[at[p]]| == 512
    && (p != [] ==> p[..|p| - 1] in at && p[|p| - 1] < 512)
    && forall i: nat :: i < 512 ==> SlotOk(mem, at, top, p, i)
  }

  ghost predicate SlotOk(mem: Memory, at: Tables, top: nat, p: seq<nat>, i: nat)
    requires p in at && |p| < top && at[p] in mem && |mem[at[p]]| == 512 && i < 512
  {
    var w := mem[at[p]][i];
    && WordOk(w)
    && (Points(w, top - |p|) <==> p + [i] in at)
    && (p + [i] in at ==> at[p + [i]] == FrameOf(w))
  }

  /** A tree: every table is reached along one path only. */
  ghost predicate Tree(mem: Memory, at: Tables, top: nat) {
    && 1 <= top <= 4 && [] in at
    && (forall p :: p in at ==> TableOk(mem, at, top, p))
    && (forall p, q :: p in at && q in at && at[p] == at[q] ==> p == q)
  }

  function Write(mem: Memory, f: int, i: nat, w: nat): Memory
    requires f in mem && i < |mem[f]|
  {
    var frame: Frame := mem[f][i := w];
    mem[f := frame]
  }

  /** What a slot that points to no table says of v. */
  function Here(w: nat, l: nat, v: nat): Translation
    requires 1 <= l <= 4
  {
    if l <= 3 && IsLeaf(w, l) then Leaf(w, l, v) else Unmapped
  }

  /** One step of the walk. */
  lemma WalkStep(mem: Memory, f: int, l: nat, v: nat)
    requires 1 <= l <= 4 && f in mem && |mem[f]| == 512
    ensures var w := mem[f][Index(v, l)];
            Walk(mem, f, l, v) ==
            if Points(w, l) then (if l == 1 then Unmapped else Walk(mem, FrameOf(w), l - 1, v)) else Here(w, l, v)
  {
  }

  lemma RootIn(mem: Memory, at: Tables, top: nat)
    requires Tree(mem, at, top)
    ensures 1 <= top <= 4 && [] in at
    ensures forall v :: PathOf(v, top, 0) == []
  {
  }

  lemma TableFacts(mem: Memory, at: Tables, top: nat, p: seq<nat>)
    requires Tree(mem, at, top) && p in at
    ensures |p| < top <= 4 && 0 <= at[p] < 0x100_0000_0000 && at[p] in mem && |mem[at[p]]| == 512
  {
    assert TableOk(mem, at, top, p);
  }

  /** What slot i of the table at p holds. */
  lemma SlotFacts(mem: Memory, at: Tables, top: nat, p: seq<nat>, i: nat)
    requires Tree(mem, at, top) && p in at && i < 512
    ensures |p| < top && at[p] in mem && |mem[at[p]]| == 512
    ensures var w := mem[at[p]][i];
            WordOk(w) && (Points(w, top - |p|) <==> p + [i] in at) && (p + [i] in at ==> at[p + [i]] == FrameOf(w))
  {
    assert TableOk(mem, at, top, p) && SlotOk(mem, at, top, p, i);
  }

  lemma SameTable(mem: Memory, at: Tables, top: nat, p: seq<nat>, q: seq<nat>)
    requires Tree(mem, at, top) && p in at && q in at
    ensures at[p] == at[q] <==> p == q
  {
  }

  lemma {:induction false} PrefixInTree(mem: Memory, at: Tables, top: nat, q: seq<nat>, k: nat)
    requires Tree(mem, at, top) && q in at && k <= |q|
    ensures q[..k] in at
    decreases |q|
  {
    assert TableOk(mem, at, top, q);
    if k == |q| {
      assert q[..k] == q;
    } else {
      PrefixInTree(mem, at, top, q[..|q| - 1], k);
      assert q[..|q| - 1][..k] == q[..k];
    }
  }

  /** Address v goes through slot i of the table at q. */
  ghost predicate Through(v: nat, top: nat, q: seq<nat>, i: nat)
    requires |q| < top <= 4
  {
    PathOf(v, top, |q|) == q && Index(v, top - |q|) == i
  }

  lemma {:induction false} WalkAfterWrite(mem: Memory, at: Tables, top: nat, q: seq<nat>, i: nat, w: nat, v: nat,
                                          k: nat)
    requires Tree(mem, at, top) && q in at && |q| < top && i < 512 && !Points(w, top - |q|)
    requires at[q] in mem && |mem[at[q]]| == 512
    requires k < top && PathOf(v, top, k) in at
    ensures Walk(Write(mem, at[q], i, w), at[PathOf(v, top, k)], top - k, v) ==
            if k <= |q| && Through(v, top, q, i) then Here(w, top - |q|, v)
            else Walk(mem, at[PathOf(v, top, k)], top - k, v)
    decreases top - k
  {
    hide Index, GetFlag, FrameOf, WordOk, Walk, Points, Here, SizeOf, Tree;
    TableFacts(mem, at, top, q);
    var p := PathOf(v, top, k);
    var j := Index(v, top - k);
    var mem' := Write(mem, at[q], i, w);
    SlotFacts(mem, at, top, p, j);
    SameTable(mem, at, top, p, q);
    WalkStep(mem, at[p], top - k, v);
    WalkStep(mem', at[p], top - k, v);
    if p == q && j == i {
      assert mem'[at[p]][j] == w;
    } else {
      assert mem'[at[p]][j] == mem[at[p]][j];
      if k < |q| && Through(v, top, q, i) {
        PathPrefix(v, top, k + 1, |q|);
        PrefixInTree(mem, at, top, q, k + 1);
      }
      if p + [j] in at {
        TableFacts(mem, at, top, p + [j]);
        assert PathOf(v, top, k + 1) == p + [j];
        WalkAfterWrite(mem, at, top, q, i, w, v, k + 1);
      }
    }
  }

  /** The tree left when slot i of the table at q no longer points to a table. */
  ghost function Pruned(at: Tables, q: seq<nat>, i: nat): Tables {
    map p | p in at && !(q + [i] <= p) :: at[p]
  }

  lemma TreeAfterWrite(mem: Memory, at: Tables, top: nat, q: seq<nat>, i: nat, w: nat)
    requires Tree(mem, at, top) && q in at && |q| < top && i < 512 && WordOk(w) && !Points(w, top - |q|)
    requires at[q] in mem && |mem[at[q]]| == 512
    ensures Tree(Write(mem, at[q], i, w), Pruned(at, q, i), top)
  {
    var mem' := Write(mem, at[q], i, w);
    var at' := Pruned(at, q, i);
    forall p | p in at' ensures TableOk(mem', at', top, p) {
      assert TableOk(mem, at, top, p);
      if p != [] {
        assert p[..|p| - 1] <= p;
      }
      forall j: nat | j < 512 ensures SlotOk(mem', at', top, p, j) {
        assert SlotOk(mem, at, top, p, j);
        if q + [i] <= p + [j] {
          assert q + [i] == p + [j];
          assert q == p && i == j by {
            assert (q + [i])[..|q|] == q && (p + [j])[..|p|] == p;
          }
        }
        if p == q && i == j {
          assert q + [i] <= p + [j];
        }
      }
    }
  }

  function ZeroFrame(): Frame {
    seq(512, i => 0)
  }

  /** CommonBaseEntry::Allocate: frame g, zeroed, becomes the table behind slot i of the table at q. */
  function AddTable(mem: Memory, f: int, i: nat, g: nat): Memory
    requires f in mem && |mem[f]| == 512 && i < 512
  {
    Write(mem[g := ZeroFrame()], f, i, MakeEntry(g * SIZE_4K, false, false, false))
  }

  lemma TableWord(g: nat, l: nat)
    requires g < 0x100_0000_0000 && 2 <= l <= 4
    ensures var w := MakeEntry(g * SIZE_4K, false, false, false); WordOk(w) && Points(w, l) && FrameOf(w) == g
  {
    EntryFields(g * SIZE_4K, false, false, false);
  }

  lemma ZeroWord(l: nat)
    ensures WordOk(0) && !Points(0, l) && !IsLeaf(0, l) && !GetFlag(0, PRESENT)
  {
  }

  lemma EmptyTable(mem: Memory, g: int, l: nat, v: nat)
    requires 1 <= l <= 4 && g in mem && mem[g] == ZeroFrame()
    ensures Walk(mem, g, l, v) == Unmapped
  {
    ZeroWord(l);
    WalkStep(mem, g, l, v);
  }

  lemma OneEmptyTable(mem: Memory, p: nat, top: nat)
    requires 1 <= top <= 4 && p in mem && mem[p] == ZeroFrame() && p < 0x100_0000_0000
    ensures Tree(mem, map[[] := p], top) && forall v: nat :: Walk(mem, p, top, v) == Unmapped
  {
    var at: Tables := map[[] := p];
    assert TableOk(mem, at, top, []) by {
      forall i: nat | i < 512 ensures SlotOk(mem, at, top, [], i) {
        ZeroWord(top);
        assert [] + [i] !in at;
      }
    }
    forall v: nat ensures Walk(mem, p, top, v) == Unmapped {
      EmptyTable(mem, p, top, v);
    }
  }

  lemma AbsentHere(w: nat, l: nat, v: nat)
    requires 1 <= l <= 4 && !GetFlag(w, PRESENT)
    ensures Here(w, l, v) == Unmapped && !Points(w, l)
  {
  }

  /** An absent slot now leads to an empty table, which maps nothing either. */
  lemma {:induction false} WalkAfterAdd(mem: Memory, at: Tables, top: nat, q: seq<nat>, i: nat, g: nat, v: nat, k: nat)
    requires Tree(mem, at, top) && q in at && |q| + 1 < top && i < 512
    requires at[q] in mem && |mem[at[q]]| == 512 && !GetFlag(mem[at[q]][i], PRESENT)
    requires g < 0x100_0000_0000 && forall p :: p in at ==> at[p] != g
    requires k < top && PathOf(v, top, k) in at
    ensures Walk(AddTable(mem, at[q], i, g), at[PathOf(v, top, k)], top - k, v) ==
            Walk(mem, at[PathOf(v, top, k)], top - k, v)
    decreases top - k
  {
    hide MakeEntry, Index, FrameOf, WordOk, Walk, Here, SizeOf, Tree, ZeroFrame, Points;
    TableFacts(mem, at, top, q);
    var p := PathOf(v, top, k);
    var j := Index(v, top - k);
    var mem' := AddTable(mem, at[q], i, g);
    SlotFacts(mem, at, top, p, j);
    SameTable(mem, at, top, p, q);
    WalkStep(mem, at[p], top - k, v);
    WalkStep(mem', at[p], top - k, v);
    if p == q && j == i {
      TableWord(g, top - k);
      assert mem'[g] == ZeroFrame();
      EmptyTable(mem', g, top - k - 1, v);
      AbsentHere(mem[at[p]][j], top - k, v);
    } else {
      assert mem'[at[p]][j] == mem[at[p]][j];
      if p + [j] in at {
        TableFacts(mem, at, top, p + [j]);
        assert PathOf(v, top, k + 1) == p + [j];
        WalkAfterAdd(mem, at, top, q, i, g, v, k + 1);
      }
    }
  }

  lemma TreeAfterAdd(mem: Memory, at: Tables, top: nat, q: seq<nat>, i: nat, g: nat)
    requires Tree(mem, at, top) && q in at && |q| + 1 < top && i < 512
    requires at[q] in mem && |mem[at[q]]| == 512 && !GetFlag(mem[at[q]][i], PRESENT)
    requires g < 0x100_0000_0000 && forall p :: p in at ==> at[p] != g
    ensures Tree(AddTable(mem, at[q], i, g), at[q + [i] := g], top)
  {
    hide MakeEntry, GetFlag;
    var mem' := AddTable(mem, at[q], i, g);
    var at' := at[q + [i] := g];
    var w := MakeEntry(g * SIZE_4K, false, false, false);
    TableWord(g, top - |q|);
    assert TableOk(mem, at, top, q) && SlotOk(mem, at, top, q, i);
    forall p | p in at' ensures TableOk(mem', at', top, p) {
      if p == q + [i] {
        assert p[..|p| - 1] == q;
        forall j: nat | j < 512 ensures SlotOk(mem', at', top, p, j) {
          ZeroWord(top - |p|);
          assert mem'[g][j] == 0;
          NoDeeper(mem, at, top, q, i, j);
        }
      } else {
        assert TableOk(mem, at, top, p);
        forall j: nat | j < 512 ensures SlotOk(mem', at', top, p, j) {
          assert SlotOk(mem, at, top, p, j);
          if p + [j] == q + [i] {
            assert (q + [i])[..|q|] == q && (p + [j])[..|p|] == p;
          }
        }
      }
    }
  }

  lemma NoDeeper(mem: Memory, at: Tables, top: nat, q: seq<nat>, i: nat, j: nat)
    requires Tree(mem, at, top) && q + [i] !in at
    ensures q + [i] + [j] !in at
  {
    var r := q + [i] + [j];
    assert r[..|r| - 1] == q + [i];
    assert r in at ==> TableOk(mem, at, top, r);
  }

  /** The walk looks at table frames only. */
  lemma {:induction false} WalkAgrees(mem: Memory, mem': Memory, at: Tables, top: nat, v: nat, k: nat)
    requires Tree(mem, at, top) && k < top && PathOf(v, top, k) in at
    requires forall p :: p in at ==> at[p] in mem' && at[p] in mem && mem'[at[p]] == mem[at[p]]
    ensures Walk(mem', at[PathOf(v, top, k)], top - k, v) == Walk(mem, at[PathOf(v, top, k)], top - k, v)
    decreases top - k
  {
    hide Index, FrameOf, WordOk, Walk, Here, SizeOf, Tree, Points;
    RootIn(mem, at, top);
    var p := PathOf(v, top, k);
    var j := Index(v, top - k);
    SlotFacts(mem, at, top, p, j);
    WalkStep(mem, at[p], top - k, v);
    WalkStep(mem', at[p], top - k, v);
    if p + [j] in at {
      TableFacts(mem, at, top, p + [j]);
      assert PathOf(v, top, k + 1) == p + [j];
      WalkAgrees(mem, mem', at, top, v, k + 1);
    }
  }

  lemma {:induction false} WalkAlong(mem: Memory, at: Tables, top: nat, v: nat, k: nat)
    requires Tree(mem, at, top) && k < top && PathOf(v, top, k) in at && [] in at
    ensures Walk(mem, at[[]], top, v) == Walk(mem, at[PathOf(v, top, k)], top - k, v)
  {
    hide Index, FrameOf, WordOk, Walk, Here, SizeOf, Tree, Points;
    RootIn(mem, at, top);
    if k > 0 {
      var q := PathOf(v, top, k);
      PrefixInTree(mem, at, top, q, k - 1);
      var p := PathOf(v, top, k - 1);
      assert q[..k - 1] == p;
      WalkAlong(mem, at, top, v, k - 1);
      SlotFacts(mem, at, top, p, Index(v, top - k + 1));
      WalkStep(mem, at[p], top - k + 1, v);
    }
  }

  /** On the path of an unmapped address there is no leaf. */
  lemma UnmappedNotLeaf(mem: Memory, at: Tables, top: nat, v: nat, k: nat)
    requires Tree(mem, at, top) && top <= 3 && k < top && PathOf(v, top, k) in at && [] in at
    requires Walk(mem, at[[]], top, v) == Unmapped
    requires at[PathOf(v, top, k)] in mem && |mem[at[PathOf(v, top, k)]]| == 512
    ensures !IsLeaf(mem[at[PathOf(v, top, k)]][Index(v, top - k)], top - k)
  {
    hide Index, FrameOf, Tree, Leaf, GetFlag, Walk;
    WalkAlong(mem, at, top, v, k);
    WalkStep(mem, at[PathOf(v, top, k)], top - k, v);
  }

  // ----- addresses and paths

  /** The 36 page-number bits that select entries. */
  function PageNumber(v: nat): nat {
    v / SIZE_4K % 0x10_0000_0000
  }

  lemma Halves(x: nat)
    ensures x % 0x10_0000_0000 == x / 0x4_0000 % 0x4_0000 * 0x4_0000 + x % 0x4_0000
    ensures x % 0x4_0000 == x / 512 % 512 * 512 + x % 512
  {
    var y, z := x / 0x4_0000, x % 0x4_0000;
    DivMod(x, 0x10_0000_0000, y / 0x4_0000, 0x4_0000 * (y % 0x4_0000) + z);
    var s := x / 512;
    DivMod(x, 0x4_0000, s / 512, 512 * (s % 512) + x % 512);
  }

  lemma IndexDigits(v: nat)
    ensures var x := v / SIZE_4K;
            && Index(v, 1) == x % 512 && Index(v, 2) == x / 512 % 512
            && Index(v, 3) == x / 0x4_0000 % 512 && Index(v, 4) == x / 0x4_0000 / 512 % 512
  {
    var x := v / SIZE_4K;
    DivMod(v, SIZE_2M, x / 512, SIZE_4K * (x % 512) + v % SIZE_4K);
    DivMod(v, SIZE_1G, x / 0x4_0000, SIZE_4K * (x % 0x4_0000) + v % SIZE_4K);
    DivMod(v, SIZE_512G, v / SIZE_1G / 512, SIZE_1G * (v / SIZE_1G % 512) + v % SIZE_1G);
  }

  lemma PageDigits(v: nat)
    ensures PageNumber(v) == Number(Index(v, 4), Index(v, 3), Index(v, 2), Index(v, 1))
  {
    hide Index;
    var x := v / SIZE_4K;
    IndexDigits(v);
    Halves(x);
    Halves(x / 0x4_0000);
  }

  function Number(a: nat, b: nat, c: nat, d: nat): nat {
    ((a * 512 + b) * 512 + c) * 512 + d
  }

  lemma DigitsEqual(a: nat, b: nat, c: nat, d: nat, a': nat, b': nat, c': nat, d': nat)
    requires b < 512 && c < 512 && d < 512 && b' < 512 && c' < 512 && d' < 512
    ensures Number(a, b, c, d) == Number(a', b', c', d') <==> a == a' && b == b' && c == c' && d == d'
  {
    LastDigit((a * 512 + b) * 512 + c, d, (a' * 512 + b') * 512 + c', d');
    LastDigit(a * 512 + b, c, a' * 512 + b', c');
    LastDigit(a, b, a', b');
  }

  lemma LastDigit(x: nat, d: nat, x': nat, d': nat)
    requires d < 512 && d' < 512
    ensures x * 512 + d == x' * 512 + d' <==> x == x' && d == d'
  {
  }

  /** Two addresses take the same slots down to the last table exactly when they are on the same page. */
  lemma SamePageSamePath(u: nat, v: nat)
    ensures PathOf(u, 4, 3) == PathOf(v, 4, 3) && Index(u, 1) == Index(v, 1) <==> PageNumber(u) == PageNumber(v)
  {
    hide PathOf, Index, PageNumber, Number;
    PathElements(u);
    PathElements(v);
    PageDigits(u);
    PageDigits(v);
    DigitsEqual(Index(u, 4), Index(u, 3), Index(u, 2), Index(u, 1), Index(v, 4), Index(v, 3), Index(v, 2), Index(v, 1));
  }

  lemma PathElements(v: nat)
    ensures PathOf(v, 4, 3) == [Index(v, 4), Index(v, 3), Index(v, 2)]
    ensures PathOf(v, 4, 2) == [Index(v, 4), Index(v, 3)] && PathOf(v, 4, 1) == [Index(v, 4)] && PathOf(v, 4, 0) == []
    ensures PathOf(v, 3, 2) == [Index(v, 3), Index(v, 2)] && PathOf(v, 3, 1) == [Index(v, 3)] && PathOf(v, 3, 0) == []
  {
  }
}
