/** kern/libc/vector.h and vector.cc: a growing array of elements of fixed size, kept as raw bytes. */
module Vectors {
  import opened MemoryCopy

  // ----- bytes and elements

  function Elements(b: seq<Byte>, n: nat, size: nat): (v: seq<seq<Byte>>)
    requires |b| == n * size
    ensures |v| == n
  {
    seq(n, i requires 0 <= i < n => Element(b, n, size, i))
  }

  function Element(b: seq<Byte>, n: nat, size: nat, i: nat): seq<Byte>
    requires |b| == n * size && i < n
  {
    Fits(i, n, size);
    b[i * size..i * size + size]
  }

  lemma Fits(i: nat, n: nat, size: nat)
    requires i < n
    ensures 0 <= i * size && i * size + size <= n * size
  {
    assert n * size == i * size + size + (n - i - 1) * size;
  }

  lemma Ordered(i: nat, n: nat, size: nat)
    requires i <= n
    ensures 0 <= i * size <= n * size && (n - i) * size == n * size - i * size && (i + 1) * size == i * size + size
    ensures (n + 1) * size == n * size + size
  {
  }

  function Inserted<T>(v: seq<T>, pos: nat, x: T): (r: seq<T>)
    requires pos <= |v|
  {
    v[..pos] + [x] + v[pos..]
  }

  lemma GapSlices(b: seq<Byte>, x: seq<Byte>, at: nat, k: nat)
    requires at <= |b|
    ensures var c := b[..at] + x + b[at..]; var size := |x|;
      && (k + size <= at ==> c[k..k + size] == b[k..k + size])
      && (at + size <= k && k + size <= |c| ==> c[k..k + size] == b[k - size..k])
      && (k == at ==> c[k..k + size] == x)
  {
  }

  lemma InsertedElement(b: seq<Byte>, x: seq<Byte>, n: nat, pos: nat, size: nat, i: nat)
    requires |b| == n * size && |x| == size && pos <= n && i <= n
    ensures 0 <= pos * size <= |b|
    ensures |b[..pos * size] + x + b[pos * size..]| == (n + 1) * size
    ensures Element(b[..pos * size] + x + b[pos * size..], n + 1, size, i) ==
            if i < pos then Element(b, n, size, i) else if i == pos then x else Element(b, n, size, i - 1)
  {
    Ordered(pos, n, size);
    Fits(i, n + 1, size);
    GapSlices(b, x, pos * size, i * size);
    if i < pos {
      Fits(i, pos, size);
    } else if i > pos {
      Fits(pos, i, size);
      Ordered(i - 1, i, size);
    }
  }

  /** Opening a gap of one element in the bytes is inserting one element. */
  lemma InsertElements(b: seq<Byte>, x: seq<Byte>, n: nat, pos: nat, size: nat)
    requires |b| == n * size && |x| == size && pos <= n
    ensures 0 <= pos * size <= |b|
    ensures |b[..pos * size] + x + b[pos * size..]| == (n + 1) * size
    ensures Elements(b[..pos * size] + x + b[pos * size..], n + 1, size) == Inserted(Elements(b, n, size), pos, x)
  {
    Ordered(pos, n, size);
    var c := b[..pos * size] + x + b[pos * size..];
    forall i | 0 <= i < n + 1
      ensures Element(c, n + 1, size, i) == Inserted(Elements(b, n, size), pos, x)[i]
    {
      InsertedElement(b, x, n, pos, size, i);
    }
  }

  // ----- growth

  datatype Extent = Extent(len: nat, capacity: nat, copied: nat)

  /** One insertion: the capacity goes 0, 16, 32, 64, ... and a growth copies all the elements there are. */
  function Grown(g: Extent): Extent {
    if g.len < g.capacity then g.(len := g.len + 1)
    else Extent(g.len + 1, if g.capacity == 0 then 16 else 2 * g.capacity, g.copied + g.len)
  }

  function Pushes(k: nat): Extent {
    if k == 0 then Extent(0, 0, 0) else Grown(Pushes(k - 1))
  }

  lemma {:induction false} PushesShape(k: nat)
    ensures var g := Pushes(k);
      && g.len == k <= g.capacity
      && (k == 0 ==> g.capacity == 0 && g.copied == 0)
      && (k > 0 ==> g.copied + 16 == g.capacity && (g.capacity == 16 || g.capacity < 2 * k))
  {
    if k > 0 {
      PushesShape(k - 1);
    }
  }

  /** k insertions into an empty vector copy fewer than 2k elements while growing. */
  lemma PushesCheap(k: nat)
    requires k > 0
    ensures Pushes(k).copied < 2 * k
  {
    PushesShape(k);
  }

  function Overwritten(s: seq<Byte>, at: nat, x: seq<Byte>): seq<Byte>
    requires at + |x| <= |s|
  {
    s[..at] + x + s[at + |x|..]
  }

  /** new (&arr[pos]) T(xref). */
  method WriteAt(a: array<Byte>, at: nat, x: seq<Byte>)
    requires at + |x| <= a.Length
    modifies a
    ensures a[..] == Overwritten(old(a[..]), at, x)
  {
    forall i | 0 <= i < |x| {
      a[at + i] := x[i];
    }
  }

  /** t starts with the first at + n bytes of s, with x put in at `at`. */
  predicate Filled(t: seq<Byte>, s: seq<Byte>, at: nat, n: nat, x: seq<Byte>) {
    at + n <= |s| && at + n + |x| <= |t| && t[..at + n + |x|] == s[..at] + x + s[at..at + n]
  }

  lemma GapFilled(s: seq<Byte>, at: nat, n: nat, x: seq<Byte>)
    requires at + n + |x| <= |s|
    ensures Filled(Overwritten(Moved(s, at + |x|, at, n), at, x), s, at, n, x)
  {
  }

  /** The last n bytes of a run that starts at `at` move up by one element, and x fills the gap. */
  method OpenGapAt(a: array<Byte>, at: nat, n: nat, x: seq<Byte>)
    requires at + n + |x| <= a.Length
    modifies a
    ensures Filled(a[..], old(a[..]), at, n, x)
  {
    hide Filled, Overwritten, Moved, Down;
    ghost var s := a[..];
    MemMove(a, at + |x|, at, n);
    DownExact(s, at + |x|, at, n, n);
    WriteAt(a, at, x);
    GapFilled(s, at, n, x);
  }

  class Vector {
    const size: nat
    var capacity: nat
    var len: nat
    var ptr: array?<Byte>
    /** Elements copied by growth so far. */
    ghost var copied: nat

    ghost function Buffer(): set<object>
      reads this
    {
      if ptr == null then {} else {ptr}
    }

    ghost predicate Valid()
      reads this, Buffer()
    {
      && size > 0 && len <= capacity
      && (ptr == null <==> capacity == 0)
      && (ptr != null ==> ptr.Length == capacity * size)
      && len * size <= capacity * size
    }

    ghost function Bytes(): (b: seq<Byte>)
      requires Valid()
      reads this, Buffer()
      ensures |b| == len * size
    {
      if ptr == null then [] else ptr[..len * size]
    }

    ghost function Contents(): seq<seq<Byte>>
      requires Valid()
      reads this, Buffer()
    {
      Elements(Bytes(), len, size)
    }

    ghost function Size(): Extent
      reads this
    {
      Extent(len, capacity, copied)
    }

    constructor (size: nat)
      requires size > 0
      ensures Valid() && this.size == size && Contents() == [] && Size() == Pushes(0) && ptr == null
    {
      this.size := size;
      capacity, len, ptr, copied := 0, 0, null, 0;
    }

    method ResetPtr(newCapacity: nat)
      requires Valid() && len <= newCapacity
      modifies this
      ensures Valid() && Bytes() == old(Bytes())
      ensures Size() == Extent(old(len), newCapacity, old(copied) + if newCapacity == 0 then 0 else old(len))
      ensures fresh(Buffer())
    {
      var oldPtr := ptr;
      Ordered(len, newCapacity, size);
      Ordered(len, capacity, size);
      if newCapacity == 0 {
        ptr := null;
      } else {
        var buffer := new Byte[newCapacity * size];
        if oldPtr != null {
          MemCpy(buffer, oldPtr, len * size);
        }
        ptr := buffer;
        copied := copied + len;
      }
      capacity := newCapacity;
    }

    /** EnsureSpace(len) and Extend. */
    method EnsureSpace()
      requires Valid()
      modifies this
      ensures Valid() && Bytes() == old(Bytes()) && len == old(len) < capacity
      ensures Size().(len := len + 1) == Grown(old(Size()))
      ensures ptr == old(ptr) || fresh(Buffer())
    {
      if len >= capacity {
        if capacity == 0 {
          ResetPtr(16);
        } else {
          ResetPtr(capacity * 2);
        }
      }
    }

    /** memmove(arr + pos + 1, arr + pos, (len - pos) * sizeof(T)), then the new element in the gap. */
    method Insert(pos: nat, x: seq<Byte>)
      requires Valid() && pos <= len && |x| == size
      modifies this, Buffer()
      ensures Valid() && Contents() == Inserted(old(Contents()), pos, x)
      ensures Size() == Grown(old(Size()))
      ensures ptr == old(ptr) || fresh(Buffer())
    {
      EnsureSpace();
      ghost var b := Bytes();
      InsertElements(b, x, len, pos, size);
      OpenGap(pos, x);
      len := len + 1;
      assert Bytes() == b[..pos * size] + x + b[pos * size..];
    }

    method OpenGap(pos: nat, x: seq<Byte>)
      requires Valid() && pos <= len < capacity && |x| == size
      modifies Buffer()
      ensures pos * size <= len * size && (len + 1) * size <= capacity * size
      ensures ptr[..(len + 1) * size] == old(Bytes())[..pos * size] + x + old(Bytes())[pos * size..]
    {
      Ordered(pos, len, size);
      Ordered(len + 1, capacity, size);
      OpenGapAt(ptr, pos * size, (len - pos) * size, x);
    }

    method PushBack(x: seq<Byte>)
      requires Valid() && |x| == size
      modifies this, Buffer()
      ensures Valid() && Contents() == old(Contents()) + [x]
      ensures Size() == Grown(old(Size()))
      ensures ptr == old(ptr) || fresh(Buffer())
    {
      ghost var v := Contents();
      Insert(len, x);
      assert Inserted(v, |v|, x) == v + [x];
    }
  }

  // ----- Remove

  /** Remove closes a gap of `size` bytes with the n bytes after it: the same copy serves exactly when at most
      one element follows. */
  lemma RemoveIff(total: nat, at: nat, size: nat, n: nat)
    requires size > 0 && at + size + n <= total
    ensures AlwaysMoves(total, at, at + size, n) <==> n <= size
  {
    hide AlwaysMoves, Down, Moved;
    MoveIff(total, at, at + size, n);
  }
}
