/** kern/mm/uslab.cc, BaseBitmapSlab and BitmapSlab: a slab's occupancy as interleaved rows of 64 bits.

    A row is the u64 it is in the source, written as its 64 bits, lowest first; the code only combines
    rows bit by bit and counts trailing zeros.  Object idx * n + row is bit idx of that row.

    The mask is `1 << idx` on an int.  For idx below 31 it is one bit; for idx 31 it is the negative int
    that widens to bits 31 to 63.  So bits 31 to 63 of a row always move together, a row holds 32 objects
    rather than 64, and idx 32, where the shift would be undefined, is never reached. */
module SlabBitmap {
  import opened Arithmetic
  import opened SortedLists

  type Word = w: seq<bool> | |w| == 64 witness seq(64, i => false)

  function Ones(): Word {
    seq(64, i => true)
  }

  function Zeros(): Word {
    seq(64, i => false)
  }

  function Xor(a: Word, b: Word): Word {
    seq(64, i requires 0 <= i < 64 => a[i] != b[i])
  }

  function And(a: Word, b: Word): Word {
    seq(64, i requires 0 <= i < 64 => a[i] && b[i])
  }

  function Or(a: Word, b: Word): Word {
    seq(64, i requires 0 <= i < 64 => a[i] || b[i])
  }

  /** Trailing zeros from bit i on; 64 for a zero word. */
  function CtzFrom(w: Word, i: nat): (r: nat)
    requires i <= 64
    ensures i <= r <= 64
    ensures r < 64 ==> w[r]
    ensures forall j :: i <= j < r ==> !w[j]
    decreases 64 - i
  {
    if i == 64 || w[i] then i else CtzFrom(w, i + 1)
  }

  function Ctz(w: Word): nat {
    CtzFrom(w, 0)
  }

  /** (u64) (1 << idx), the shift done on int. */
  function IntShift(idx: nat): Word
    requires idx < 32
  {
    seq(64, i => if idx < 31 then i == idx else i >= 31)
  }

  /** Object number of bit idx of a row. */
  function Object(n: nat, idx: nat, row: nat): nat {
    idx * n + row
  }

  lemma SameQuotient(n: nat, i: nat, r: nat, j: nat, s: nat)
    requires r < n && s < n && i * n + r == j * n + s
    ensures i == j && r == s
  {
    assert (i + 1) * n == i * n + n && (j + 1) * n == j * n + n;
    if i < j {
      MulLe(i + 1, j, n);
    } else if j < i {
      MulLe(j + 1, i, n);
    }
  }

  lemma ObjectParts(n: nat, idx: nat, row: nat)
    requires row < n
    ensures Object(n, idx, row) / n == idx && Object(n, idx, row) % n == row
  {
    var o := Object(n, idx, row);
    assert o == n * (o / n) + o % n;
    assert n * (o / n) == (o / n) * n;
    SameQuotient(n, o / n, o % n, idx, row);
  }

  lemma ObjectOf(n: nat, o: nat)
    requires n > 0 && o < 32 * n
    ensures o / n < 32 && o % n < n && Object(n, o / n, o % n) == o
  {
    assert o == n * (o / n) + o % n;
    assert n * (o / n) == (o / n) * n;
    if o / n >= 32 {
      MulLe(32, o / n, n);
    }
  }

  /** Objects are ordered by bit first, then by row. */
  lemma ObjectOrder(n: nat, i: nat, r: nat, j: nat, s: nat)
    requires r < n && s < n
    ensures i < j || (i == j && r <= s) ==> Object(n, i, r) <= Object(n, j, s)
  {
    if i < j {
      MulLe(i + 1, j, n);
      assert (i + 1) * n == i * n + n;
    }
  }

  lemma ObjectBelow(n: nat, i: nat, r: nat)
    requires r < n && i < 32
    ensures Object(n, i, r) < 32 * n
  {
    MulLe(i + 1, 32, n);
    assert (i + 1) * n == i * n + n;
  }

  /** Bits 31 to 63 agree in every row. */
  ghost predicate Paired(rows: seq<Word>) {
    forall r, i :: 0 <= r < |rows| && 31 <= i < 64 ==> rows[r][i] == rows[r][31]
  }

  /** The rows say that exactly the objects in the ascending list f are free. */
  ghost predicate Shows(rows: seq<Word>, f: seq<nat>) {
    && |rows| > 0
    && Paired(rows)
    && Sorted(f)
    && (forall o :: o in f ==> o < 32 * |rows|)
    && (forall r, i :: 0 <= r < |rows| && 0 <= i < 32 ==> (rows[r][i] <==> Object(|rows|, i, r) in f))
  }

  method Init(n: nat) returns (rows: seq<Word>)
    requires n > 0
    ensures |rows| == n && Shows(rows, Ascending(32 * n))
  {
    rows := [];
    for i := 0 to n
      invariant |rows| == i && forall r :: 0 <= r < i ==> rows[r] == Ones()
    {
      rows := rows + [Ones()];
    }
    ghost var all := Ascending(32 * n);
    forall r, i | 0 <= r < n && 0 <= i < 32 ensures Object(n, i, r) in all {
      ObjectBelow(n, i, r);
      assert all[Object(n, i, r)] == Object(n, i, r);
    }
  }

  /** The scan of AllocFromBitmapArray: the least trailing-zero count, in the earliest row that has it. */
  method BestRow(rows: seq<Word>) returns (idx: nat, row: nat)
    requires |rows| > 0
    ensures row < |rows| && idx <= 64 && (idx < 64 ==> rows[row][idx])
    ensures forall r :: 0 <= r < |rows| ==> idx <= Ctz(rows[r]) && (Ctz(rows[r]) == idx && idx < 64 ==> row <= r)
  {
    idx, row := 64, 0;
    for i := 0 to |rows|
      invariant row < |rows| && idx <= 64 && (idx < 64 ==> rows[row][idx])
      invariant forall r :: 0 <= r < i ==> idx <= Ctz(rows[r]) && (Ctz(rows[r]) == idx && idx < 64 ==> row <= r)
      invariant row <= i
    {
      var tempIdx := Ctz(rows[i]);
      if tempIdx < idx {
        idx, row := tempIdx, i;
      }
    }
  }

  /** Flipping object (idx, row) with the int mask changes that object and no other of the 32n. */
  lemma Flip(rows: seq<Word>, idx: nat, row: nat)
    requires Paired(rows) && row < |rows| && idx < 32
    ensures Paired(rows[row := Xor(rows[row], IntShift(idx))])
    ensures forall r, i :: 0 <= r < |rows| && 0 <= i < 32 ==>
              rows[row := Xor(rows[row], IntShift(idx))][r][i] == (rows[r][i] != (r == row && i == idx))
  {
  }

  lemma SameObject(n: nat, i: nat, r: nat, j: nat, s: nat)
    requires r < n && s < n
    ensures Object(n, i, r) == Object(n, j, s) <==> i == j && r == s
  {
    ObjectParts(n, i, r);
    ObjectParts(n, j, s);
  }

  /** The bit found is the least free object. */
  lemma LeastFree(rows: seq<Word>, f: seq<nat>, idx: nat, row: nat)
    requires Shows(rows, f) && f != []
    requires row < |rows| && idx <= 64 && (idx < 64 ==> rows[row][idx])
    requires forall r :: 0 <= r < |rows| ==> idx <= Ctz(rows[r]) && (Ctz(rows[r]) == idx && idx < 64 ==> row <= r)
    ensures idx < 32 && Object(|rows|, idx, row) == f[0]
  {
    var n := |rows|;
    assert f[0] in f;
    ObjectOf(n, f[0]);
    var i, r := f[0] / n, f[0] % n;
    assert rows[r][i];
    assert idx <= Ctz(rows[r]) <= i;
    ObjectOrder(n, idx, row, i, r);
    assert Object(n, idx, row) in f;
    var k :| 0 <= k < |f| && f[k] == Object(n, idx, row);
  }

  /** Takes the least free object. */
  method AllocFromBitmapArray(rows: seq<Word>, ghost f: seq<nat>) returns (rows': seq<Word>, obj: nat)
    requires Shows(rows, f) && f != []
    ensures |rows'| == |rows| && obj == f[0] && Shows(rows', f[1..])
  {
    var n := |rows|;
    var idx, row := BestRow(rows);
    LeastFree(rows, f, idx, row);
    rows' := rows[row := Xor(rows[row], IntShift(idx))];
    obj := idx * n + row;
    Flip(rows, idx, row);
    SortedTail(f);
    forall r, i | 0 <= r < n && 0 <= i < 32 ensures rows'[r][i] <==> Object(n, i, r) in f[1..] {
      SameObject(n, i, r, idx, row);
    }
  }

  /** Gives back object obj. */
  method FreeToBitmapArray(rows: seq<Word>, obj: nat, ghost f: seq<nat>) returns (rows': seq<Word>)
    requires Shows(rows, f) && obj < 32 * |rows| && obj !in f
    ensures |rows'| == |rows| && Shows(rows', Insert(f, obj))
  {
    var n := |rows|;
    ObjectOf(n, obj);
    var row, idx := obj % n, obj / n;
    rows' := rows[row := Xor(rows[row], IntShift(idx))];
    Flip(rows, idx, row);
    InsertSorted(f, obj);
    forall r, i | 0 <= r < n && 0 <= i < 32 ensures rows'[r][i] <==> Object(n, i, r) in Insert(f, obj) {
      SameObject(n, i, r, idx, row);
    }
  }

  method IsEmpty(rows: seq<Word>, ghost f: seq<nat>) returns (b: bool)
    requires Shows(rows, f)
    ensures b <==> |f| == 32 * |rows|
  {
    var bitsum := rows[0];
    for i := 1 to |rows|
      invariant forall r, k :: 0 <= r < i && 0 <= k < 64 && !rows[r][k] ==> !bitsum[k]
      invariant AllBits(rows, true) ==> bitsum == Ones()
    {
      bitsum := And(bitsum, rows[i]);
    }
    b := bitsum == Ones();
    EmptyIff(rows, f);
    if b {
      forall r, k | 0 <= r < |rows| && 0 <= k < 64 ensures rows[r][k] == true {
        assert bitsum[k] == Ones()[k];
      }
    }
  }

  method IsFull(rows: seq<Word>, ghost f: seq<nat>) returns (b: bool)
    requires Shows(rows, f)
    ensures b <==> f == []
  {
    var bitsum := rows[0];
    for i := 1 to |rows|
      invariant forall r, k :: 0 <= r < i && 0 <= k < 64 && rows[r][k] ==> bitsum[k]
      invariant AllBits(rows, false) ==> bitsum == Zeros()
    {
      bitsum := Or(bitsum, rows[i]);
    }
    b := bitsum == Zeros();
    FullIff(rows, f);
    if b {
      forall r, k | 0 <= r < |rows| && 0 <= k < 64 ensures rows[r][k] == false {
        assert bitsum[k] == Zeros()[k];
      }
    }
  }

  ghost predicate AllBits(rows: seq<Word>, b: bool) {
    forall r, k :: 0 <= r < |rows| && 0 <= k < 64 ==> rows[r][k] == b
  }

  lemma EmptyIff(rows: seq<Word>, f: seq<nat>)
    requires Shows(rows, f)
    ensures |f| == 32 * |rows| <==> AllBits(rows, true)
  {
    var n := |rows|;
    SortedBelow(f, 32 * n);
    if |f| == 32 * n {
      forall r, k | 0 <= r < n && 0 <= k < 64 ensures rows[r][k] {
        var i := if k < 32 then k else 31;
        ObjectBelow(n, i, r);
        assert rows[r][i];
      }
    } else {
      var o :| 0 <= o < 32 * n && o !in f;
      ObjectOf(n, o);
      assert !rows[o % n][o / n];
    }
  }

  lemma FullIff(rows: seq<Word>, f: seq<nat>)
    requires Shows(rows, f)
    ensures f == [] <==> AllBits(rows, false)
  {
    var n := |rows|;
    if f == [] {
      forall r, k | 0 <= r < n && 0 <= k < 64 ensures !rows[r][k] {
        assert !rows[r][if k < 32 then k else 31];
      }
    } else {
      assert f[0] in f;
      ObjectOf(n, f[0]);
      assert rows[f[0] % n][f[0] / n];
    }
  }

  /** Freeing what was just taken restores the rows. */
  lemma FlipTwice(rows: seq<Word>, idx: nat, row: nat)
    requires row < |rows| && idx < 32
    ensures var once := rows[row := Xor(rows[row], IntShift(idx))];
            once[row := Xor(once[row], IntShift(idx))] == rows
  {
    var m := IntShift(idx);
    assert Xor(Xor(rows[row], m), m) == rows[row];
  }

  /** Of the 64n bits the rows have, taking one object clears that object's bit alone exactly when its
      bit number is not 31; at 31 the other 32 bits above it go too. */
  lemma OneBitIff(w: Word, idx: nat)
    requires idx < 32 && w[idx] && (idx == 31 ==> forall i :: 31 <= i < 64 ==> w[i])
    ensures (forall i :: 0 <= i < 64 && i != idx ==> Xor(w, IntShift(idx))[i] == w[i]) <==> idx != 31
  {
    if idx == 31 {
      assert Xor(w, IntShift(idx))[32] != w[32];
    }
  }

  /** Half the bits are never used: a slab of n rows, with 64n bits, has at most 32n slots free, is empty with
      exactly 32n of them free and full with none, whatever was taken and given back before. */
  lemma HalfTheSlots(rows: seq<Word>, f: seq<nat>)
    requires Shows(rows, f)
    ensures |f| <= 32 * |rows|
    ensures AllBits(rows, true) <==> f == Ascending(32 * |rows|)
    ensures AllBits(rows, false) <==> f == []
    ensures forall r, i :: 0 <= r < |rows| && 31 <= i < 64 ==> (rows[r][i] <==> Object(|rows|, 31, r) in f)
  {
    SortedBelow(f, 32 * |rows|);
    EmptyIff(rows, f);
    FullIff(rows, f);
    forall r, i | 0 <= r < |rows| && 31 <= i < 64 ensures rows[r][i] <==> Object(|rows|, 31, r) in f {
      assert rows[r][i] == rows[r][31];
    }
  }
}
