/** kern/mm/uslab.cc, FreeListSlab: a slab's occupancy as a stack of free object numbers. */
module SlabStack {

  const STACK_SIZE: nat := 38

  datatype Stack = Stack(nrFree: nat, nrTotal: nat, freeStack: seq<nat>)

  /** total - 1, ..., 1, 0 shifted up by base: the order in which a fresh slab hands out its objects. */
  function CountDown(base: nat, total: nat): (r: seq<nat>)
    ensures |r| == total
    ensures forall i :: 0 <= i < total ==> r[i] == base + total - 1 - i
  {
    seq(total, i requires 0 <= i < total => base + total - 1 - i)
  }

  /** The stack holds exactly the free objects f, the next to be handed out on top. */
  ghost predicate Shows(s: Stack, f: seq<nat>) {
    && |s.freeStack| == STACK_SIZE
    && s.nrFree == |f| <= s.nrTotal <= STACK_SIZE
    && forall k, j :: 0 <= k < |f| && j == |f| - 1 - k ==> f[k] == s.freeStack[j]
  }

  method Init(total: nat) returns (s: Stack)
    requires total <= STACK_SIZE
    ensures s.nrTotal == total && Shows(s, CountDown(0, total))
  {
    s := Stack(total, total, seq(STACK_SIZE, i => 0));
    for i := 0 to total
      invariant s.nrFree == s.nrTotal == total && |s.freeStack| == STACK_SIZE
      invariant forall j :: 0 <= j < i ==> s.freeStack[j] == j
    {
      s := s.(freeStack := s.freeStack[i := i]);
    }
  }

  method Alloc(s: Stack, ghost f: seq<nat>) returns (s': Stack, obj: nat)
    requires Shows(s, f) && f != []
    ensures s'.nrTotal == s.nrTotal && obj == f[0] && Shows(s', f[1..])
  {
    s' := s.(nrFree := s.nrFree - 1);
    obj := s'.freeStack[s'.nrFree];
  }

  method Free(s: Stack, obj: nat, ghost f: seq<nat>) returns (s': Stack)
    requires Shows(s, f) && |f| < s.nrTotal
    ensures s'.nrTotal == s.nrTotal && Shows(s', [obj] + f)
  {
    s' := s.(freeStack := s.freeStack[s.nrFree := obj], nrFree := s.nrFree + 1);
  }
}
