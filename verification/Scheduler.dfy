/** kern/scheduler.cc: round-robin over a ready ring, with its lists as plain ListNode heads.

    The simple object is three places a thread can be: queued, current, or exited. */
module Scheduling {
  import opened Rings
  import opened ListNodes

  const NULL: int := 0

  /** current is NULL when no thread runs; the latest exit is first. */
  datatype Threads = Threads(ready: seq<int>, current: int, exited: seq<int>)

  function Running(s: Threads): seq<int> {
    if s.current == NULL then [] else [s.current]
  }

  function Dispatched(s: Threads): Threads {
    var queue := s.ready + Running(s);
    if queue == [] then s else Threads(queue[1..], queue[0], s.exited)
  }

  function Exited(s: Threads): Threads {
    Dispatched(Threads(s.ready, NULL, Running(s) + s.exited))
  }

  // ----- runs

  datatype Op = Add(node: int) | Yield | Exit

  datatype Outcome = Done(s: Threads) | Fault

  /** Exit dereferences the current thread, and SwitchToNext the thread just dispatched. */
  function Step(s: Threads, op: Op): Outcome {
    match op
    case Add(n) => Done(s.(ready := s.ready + [n]))
    case Yield => Done(Dispatched(s))
    case Exit => if s.current == NULL || s.ready == [] then Fault else Done(Exited(s))
  }

  function Run(s: Threads, ops: seq<Op>): Outcome {
    if ops == [] then Done(s)
    else
      match Run(s, ops[..|ops| - 1])
      case Fault => Fault
      case Done(t) => Step(t, ops[|ops| - 1])
  }

  /** How often RoundRobin is called. */
  function Dispatches(ops: seq<Op>): nat {
    if ops == [] then 0 else Dispatches(ops[..|ops| - 1]) + if ops[|ops| - 1].Add? then 0 else 1
  }

  function Added(ops: seq<Op>): multiset<int> {
    if ops == [] then multiset{}
    else Added(ops[..|ops| - 1]) + match ops[|ops| - 1] case Add(n) => multiset{n} case _ => multiset{}
  }

  ghost predicate Named(s: Threads) {
    NULL !in s.ready
  }

  lemma StepMoves(s: Threads, op: Op, k: nat)
    requires Named(s) && k < |s.ready| && Step(s, op).Done? && (op.Add? ==> op.node != NULL)
    ensures Named(Step(s, op).s)
    ensures op.Add? ==> k < |Step(s, op).s.ready| && Step(s, op).s.ready[k] == s.ready[k]
    ensures !op.Add? && k > 0 ==> k - 1 < |Step(s, op).s.ready| && Step(s, op).s.ready[k - 1] == s.ready[k]
    ensures !op.Add? && k == 0 ==> Step(s, op).s.current == s.ready[0]
  {
  }

  ghost predicate NodesNamed(ops: seq<Op>) {
    forall i :: 0 <= i < |ops| && ops[i].Add? ==> ops[i].node != NULL
  }

  function Everywhere(s: Threads): multiset<int> {
    multiset(s.ready) + multiset(Running(s)) + multiset(s.exited)
  }

  lemma DispatchKeeps(s: Threads)
    requires Named(s)
    ensures Named(Dispatched(s)) && Everywhere(Dispatched(s)) == Everywhere(s)
  {
    var queue := s.ready + Running(s);
    if queue != [] {
      assert queue == [queue[0]] + queue[1..];
      assert queue[0] != NULL && Running(Dispatched(s)) == [queue[0]];
      assert multiset(queue) == multiset(s.ready) + multiset(Running(s));
    }
  }

  lemma StepKeeps(s: Threads, op: Op)
    requires Named(s) && Step(s, op).Done? && (op.Add? ==> op.node != NULL)
    ensures Named(Step(s, op).s)
    ensures Everywhere(Step(s, op).s) == Everywhere(s) + if op.Add? then multiset{op.node} else multiset{}
  {
    match op
    case Add(n) =>
    case Yield => DispatchKeeps(s);
    case Exit =>
      DispatchKeeps(Threads(s.ready, NULL, Running(s) + s.exited));
  }

  /** No thread is lost and none is made: over every run, the threads queued, current and exited are the ones
      there at the start and the ones added, each as often as before. */
  lemma {:induction false} RunKeeps(s: Threads, ops: seq<Op>)
    requires Named(s) && NodesNamed(ops) && Run(s, ops).Done?
    ensures Named(Run(s, ops).s)
    ensures Everywhere(Run(s, ops).s) == Everywhere(s) + Added(ops)
  {
    if ops != [] {
      RunKeeps(s, ops[..|ops| - 1]);
      StepKeeps(Run(s, ops[..|ops| - 1]).s, ops[|ops| - 1]);
    }
  }

  /** Until RoundRobin has been called more than k times, the thread that was k-th moves up one place at each
      call, whatever is added or exits in between. */
  lemma {:induction false} MovesUp(s: Threads, ops: seq<Op>, k: nat)
    requires Named(s) && NodesNamed(ops) && k < |s.ready| && Run(s, ops).Done? && Dispatches(ops) <= k
    ensures Named(Run(s, ops).s)
    ensures k - Dispatches(ops) < |Run(s, ops).s.ready|
    ensures Run(s, ops).s.ready[k - Dispatches(ops)] == s.ready[k]
  {
    if ops != [] {
      var before := ops[..|ops| - 1];
      MovesUp(s, before, k);
      StepMoves(Run(s, before).s, ops[|ops| - 1], k - Dispatches(before));
    }
  }

  /** The (k+1)-th RoundRobin dispatches it. */
  lemma DispatchedInTurn(s: Threads, ops: seq<Op>, op: Op, k: nat)
    requires Named(s) && NodesNamed(ops) && k < |s.ready|
    requires Run(s, ops).Done? && Dispatches(ops) == k
    requires !op.Add? && Step(Run(s, ops).s, op).Done?
    ensures Run(s, ops + [op]) == Step(Run(s, ops).s, op)
    ensures Run(s, ops + [op]).s.current == s.ready[k]
  {
    MovesUp(s, ops, k);
    StepMoves(Run(s, ops).s, op, 0);
    assert (ops + [op])[..|ops|] == ops;
  }

  /** And a thread that is there once is not dispatched by any of those calls. */
  lemma NotBefore(s: Threads, ops: seq<Op>, k: nat)
    requires Named(s) && NodesNamed(ops) && k < |s.ready| && Run(s, ops).Done? && Dispatches(ops) <= k
    requires Everywhere(s)[s.ready[k]] == 1 && Added(ops)[s.ready[k]] == 0
    ensures Run(s, ops).s.current != s.ready[k]
  {
    MovesUp(s, ops, k);
    RunKeeps(s, ops);
    OnePlaceOnly(Run(s, ops).s, s.ready[k]);
  }

  lemma OnePlaceOnly(s: Threads, n: int)
    requires Everywhere(s)[n] == 1 && n in s.ready && n != NULL
    ensures n != s.current
  {
    assert multiset(s.ready)[n] > 0;
    assert n in Running(s) ==> multiset(Running(s))[n] > 0;
  }

  /** Bounded waiting: of the RoundRobin calls that follow, exactly the (k+1)-th is the first to dispatch the
      thread at position k. */
  lemma BoundedWaiting(s: Threads, ops: seq<Op>, k: nat)
    requires Named(s) && NodesNamed(ops) && k < |s.ready| && Run(s, ops).Done? && Dispatches(ops) <= k + 1
    requires ops != [] && !ops[|ops| - 1].Add?
    requires Everywhere(s)[s.ready[k]] == 1 && Added(ops)[s.ready[k]] == 0
    ensures Run(s, ops).s.current == s.ready[k] <==> Dispatches(ops) == k + 1
  {
    hide Everywhere, Added, Step, Named;
    var before, op := ops[..|ops| - 1], ops[|ops| - 1];
    if Dispatches(ops) == k + 1 {
      DispatchedInTurn(s, before, op, k);
      assert before + [op] == ops;
    } else {
      NotBefore(s, ops, k);
    }
  }

  ghost predicate InReady(s: Threads, n: int) { n in s.ready }
  ghost predicate IsCurrent(s: Threads, n: int) { n != NULL && n == s.current }
  ghost predicate HasExited(s: Threads, n: int) { n in s.exited }

  /** A thread added once is in exactly one of the three places, once. */
  lemma ExactlyOnePlace(ops: seq<Op>, n: int)
    requires NodesNamed(ops) && Run(Threads([], NULL, []), ops).Done? && Added(ops)[n] == 1 && n != NULL
    ensures Everywhere(Run(Threads([], NULL, []), ops).s)[n] == 1
    ensures var s := Run(Threads([], NULL, []), ops).s;
      && (InReady(s, n) || IsCurrent(s, n) || HasExited(s, n))
      && !(InReady(s, n) && IsCurrent(s, n))
      && !(InReady(s, n) && HasExited(s, n))
      && !(IsCurrent(s, n) && HasExited(s, n))
  {
    RunKeeps(Threads([], NULL, []), ops);
    var s := Run(Threads([], NULL, []), ops).s;
    assert n in s.ready <==> multiset(s.ready)[n] > 0;
    assert n in Running(s) <==> multiset(Running(s))[n] > 0;
    assert n in s.exited <==> multiset(s.exited)[n] > 0;
  }

  /** The thread that exits is the latest of the exited, and nothing else joins or leaves them. */
  lemma StepExits(s: Threads, op: Op)
    requires Step(s, op).Done?
    ensures Step(s, op).s.exited == if op.Exit? then [s.current] + s.exited else s.exited
    ensures op.Exit? ==> s.current != NULL
  {
  }

  lemma {:induction false} ExitsGrow(s: Threads, ops: seq<Op>, n: int)
    requires Run(s, ops).Done? && n in s.exited
    ensures n in Run(s, ops).s.exited
  {
    if ops != [] {
      ExitsGrow(s, ops[..|ops| - 1], n);
      StepExits(Run(s, ops[..|ops| - 1]).s, ops[|ops| - 1]);
    }
  }

  /** A thread that has exited is never ready or current again. */
  lemma ExitedForGood(s: Threads, ops: seq<Op>, n: int)
    requires Named(s) && NodesNamed(ops) && Run(s, ops).Done? && n != NULL
    requires n in s.exited && Everywhere(s)[n] == 1 && Added(ops)[n] == 0
    ensures var t := Run(s, ops).s; n in t.exited && n !in t.ready && n != t.current
  {
    hide Everywhere, Added, Run;
    ExitsGrow(s, ops, n);
    RunKeeps(s, ops);
    OnlyExited(Run(s, ops).s, n);
  }

  lemma OnlyExited(t: Threads, n: int)
    requires Everywhere(t)[n] == 1 && n in t.exited && n != NULL
    ensures n !in t.ready && n != t.current
  {
    assert multiset(t.exited)[n] > 0;
    assert n in t.ready ==> multiset(t.ready)[n] > 0;
    assert n in Running(t) ==> multiset(Running(t))[n] > 0;
  }

  // ----- the scheduler over the list nodes

  const READY: int := -1
  const WAITING: int := -2
  const EXIT: int := -3

  class Scheduler {
    const lists: ListMemory
    var curThread: int
    var thr: map<int, int>

    ghost predicate Valid()
      reads this, lists
    {
      && lists.Valid()
      && lists.rings.Keys == {READY, WAITING, EXIT}
      && lists.rings[WAITING] == []
      && NULL !in lists.rings[READY]
      && (curThread != NULL ==> Loose(lists.rings, curThread))
    }

    ghost function State(): Threads
      requires Valid()
      reads this, lists
    {
      Threads(lists.rings[READY], curThread, lists.rings[EXIT])
    }

    /** InitThreadQUeue. */
    constructor ()
      ensures Valid() && State() == Threads([], NULL, []) && fresh(lists)
    {
      hide Family;
      lists := new ListMemory();
      curThread, thr := NULL, map[];
      new;
      lists.InitHead(READY);
      lists.InitHead(WAITING);
      lists.InitHead(EXIT);
    }

    /** node is the storage that Alloc returned. */
    method AddThread(node: int, thread: int)
      requires Valid() && node != NULL && node != curThread && Loose(lists.rings, node)
      modifies this, lists
      ensures Valid() && Step(old(State()), Add(node)) == Done(State())
      ensures thr == old(thr)[node := thread]
    {
      hide Family;
      thr := thr[node := thread];
      lists.InsertBefore(node, READY);
    }

    method RoundRobin() returns (next: int)
      requires Valid()
      modifies this, lists
      ensures Valid() && Step(old(State()), Yield) == Done(State())
      ensures next == if old(State()).ready + Running(old(State())) == [] then NULL else curThread
      ensures thr == old(thr)
    {
      hide Family;
      if curThread != NULL {
        lists.InsertBefore(curThread, READY);
      }
      var empty := lists.IsEmpty(READY);
      if empty {
        return NULL;
      }
      ghost var queue := lists.rings[READY];
      assert queue == old(State()).ready + Running(old(State()));
      curThread := lists.First(READY);
      lists.Delete(curThread, READY, 0);
      assert Drop(queue, 0) == queue[1..];
      next := curThread;
    }

    /** ok is false where the kernel would follow a null pointer: with no current thread before anything
        changes, with no ready thread after the exit. */
    method ExitCurrentThread() returns (ok: bool)
      requires Valid()
      modifies this, lists
      ensures Valid() && thr == old(thr)
      ensures ok <==> Step(old(State()), Exit).Done?
      ensures ok ==> Step(old(State()), Exit) == Done(State())
      ensures !ok ==> State() == if old(curThread) == NULL then old(State()) else Exited(old(State()))
    {
      hide Family;
      if curThread == NULL {
        return false;
      }
      lists.InsertAfter(curThread, EXIT);
      curThread := NULL;
      curThread := RoundRobin();
      ok := curThread != NULL;
    }
  }

  /** The last thread exits: the thread dispatched next is the null pointer. */
  method LastThreadExits() returns (ok: bool)
    ensures !ok && Run(Threads([], NULL, []), [Add(1), Yield, Exit]) == Fault
  {
    hide Family;
    RunOfThree();
    var sched := new Scheduler();
    sched.AddThread(1, 0);
    var next := sched.RoundRobin();
    ok := sched.ExitCurrentThread();
  }

  lemma RunOfThree()
    ensures Run(Threads([], NULL, []), [Add(1), Yield]) == Done(Threads([], 1, []))
    ensures Run(Threads([], NULL, []), [Add(1), Yield, Exit]) == Fault
  {
    var ops := [Add(1), Yield, Exit];
    assert ops[..2] == [Add(1), Yield] && ops[..2][..1] == [Add(1)] && [Add(1)][..0] == [];
    assert Run(Threads([], NULL, []), [Add(1)]) == Done(Threads([1], NULL, []));
  }
}
