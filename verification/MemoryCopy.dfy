/** kern/libc/string.c: memcpy goes up, memmove always goes down, byte by byte over memory. */
module MemoryCopy {

  newtype Byte = x: int | 0 <= x < 256

  /** What both routines are for: the n bytes at src appear at dst and nothing else changes. */
  function Moved(s: seq<Byte>, dst: nat, src: nat, n: nat): (r: seq<Byte>)
    requires dst + n <= |s| && src + n <= |s|
    ensures |r| == |s|
    ensures forall i :: 0 <= i < |s| ==> r[i] == if dst <= i < dst + n then s[src + (i - dst)] else s[i]
  {
    seq(|s|, i requires 0 <= i < |s| => if dst <= i < dst + n then s[src + (i - dst)] else s[i])
  }

  /** What the downward loop leaves: the k highest bytes have been copied, one after the other. */
  function Down(s: seq<Byte>, dst: nat, src: nat, n: nat, k: nat): (r: seq<Byte>)
    requires dst + n <= |s| && src + n <= |s| && k <= n
    ensures |r| == |s|
  {
    if k == 0 then s
    else
      var t := Down(s, dst, src, n, k - 1);
      t[dst + n - k := t[src + n - k]]
  }

  method MemMove(a: array<Byte>, dst: nat, src: nat, n: nat)
    requires dst + n <= a.Length && src + n <= a.Length
    modifies a
    ensures a[..] == Down(old(a[..]), dst, src, n, n)
  {
    var len := n;
    var s, d := src + n - 1, dst + n - 1;
    while len > 0
      invariant 0 <= len <= n && s == src + len - 1 && d == dst + len - 1
      invariant a[..] == Down(old(a[..]), dst, src, n, n - len)
    {
      a[d] := a[s];
      s, d, len := s - 1, d - 1, len - 1;
    }
  }

  method MemCpy(to: array<Byte>, from: array<Byte>, n: nat)
    requires to != from && n <= to.Length && n <= from.Length
    modifies to
    ensures to[..] == from[..n] + old(to[n..])
  {
    var i := 0;
    while i < n
      invariant 0 <= i <= n
      invariant to[..i] == from[..i] && to[i..] == old(to[i..])
    {
      to[i] := from[i];
      i := i + 1;
    }
    assert to[..] == to[..n] + to[n..];
  }

  /** Some of the source is overwritten before it is read. */
  predicate Clobbers(dst: nat, src: nat, n: nat) {
    dst < src < dst + n
  }

  lemma MovedNothing(s: seq<Byte>, dst: nat, src: nat)
    requires dst <= |s| && src <= |s|
    ensures Moved(s, dst, src, 0) == s
  {
  }

  lemma {:induction false} DownExact(s: seq<Byte>, dst: nat, src: nat, n: nat, k: nat)
    requires dst + n <= |s| && src + n <= |s| && k <= n && !Clobbers(dst, src, n)
    ensures Down(s, dst, src, n, k) == Moved(s, dst + n - k, src + n - k, k)
  {
    hide Moved;
    if k == 0 {
      MovedNothing(s, dst + n, src + n);
    } else {
      DownExact(s, dst, src, n, k - 1);
      OneMore(s, dst + n - k, src + n - k, k - 1);
    }
  }

  lemma OneMore(s: seq<Byte>, dst: nat, src: nat, n: nat)
    requires dst + n + 1 <= |s| && src + n + 1 <= |s| && !Clobbers(dst, src, n + 1)
    ensures var t := Moved(s, dst + 1, src + 1, n); t[dst := t[src]] == Moved(s, dst, src, n + 1)
  {
    var t := Moved(s, dst + 1, src + 1, n);
    assert t[src] == s[src];
    assert t[dst := t[src]] == Moved(s, dst, src, n + 1);
  }

  /** The byte written first is read again in place of the one it replaced. */
  lemma {:induction false} FirstByteStays(s: seq<Byte>, dst: nat, src: nat, n: nat, k: nat)
    requires dst + n <= |s| && src + n <= |s| && 0 < k <= n && Clobbers(dst, src, n)
    ensures Down(s, dst, src, n, k)[dst + n - 1] == s[src + n - 1]
    ensures k > src - dst ==> Down(s, dst, src, n, k)[dst + n - 1 - (src - dst)] == s[src + n - 1]
  {
    if k > 1 {
      FirstByteStays(s, dst, src, n, k - 1);
    }
  }

  function Marked(size: nat, at: nat): (s: seq<Byte>)
    requires at < size
    ensures |s| == size && forall i :: 0 <= i < size ==> s[i] == if i == at then 1 else 0
  {
    seq(size, i => if i == at then 1 else 0)
  }

  lemma WrongAt(s: seq<Byte>, dst: nat, src: nat, n: nat)
    requires dst + n <= |s| && src + n <= |s| && Clobbers(dst, src, n)
    requires s[dst + n - 1] != s[src + n - 1]
    ensures Down(s, dst, src, n, n) != Moved(s, dst, src, n)
  {
    hide Down;
    FirstByteStays(s, dst, src, n, n);
    var p := dst + n - 1 - (src - dst);
    assert src + (p - dst) == dst + n - 1;
    assert Moved(s, dst, src, n)[p] == s[dst + n - 1];
  }

  ghost predicate AlwaysMoves(size: nat, dst: nat, src: nat, n: nat)
    requires dst + n <= size && src + n <= size
  {
    forall s: seq<Byte> :: |s| == size ==> Down(s, dst, src, n, n) == Moved(s, dst, src, n)
  }

  /** memmove moves, whatever the memory holds, exactly when the destination does not start below a source it
      overlaps. */
  lemma MoveIff(size: nat, dst: nat, src: nat, n: nat)
    requires dst + n <= size && src + n <= size
    ensures AlwaysMoves(size, dst, src, n) <==> !Clobbers(dst, src, n)
  {
    if Clobbers(dst, src, n) {
      var s := Marked(size, src + n - 1);
      WrongAt(s, dst, src, n);
    } else {
      forall s: seq<Byte> | |s| == size ensures Down(s, dst, src, n, n) == Moved(s, dst, src, n) {
        DownExact(s, dst, src, n, n);
      }
    }
  }
}
