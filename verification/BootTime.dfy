/** kern/kvm-clock.cc, the slow path of BootTime: any number of calls, each with the time it computed, raise
    last_boot_time by compare-and-swap.  Their memory accesses interleave in any order. */
module BootTime {

  datatype Call =
    | Waiting
    | Holding(time: nat)
    | Loaded(time: nat, seen: nat)
    | Returned(time: nat, result: nat)

  datatype Answer = Answer(time: nat, result: nat)

  /** log lists the answers in the order in which the calls returned. */
  datatype State = State(last: nat, calls: seq<Call>, log: seq<Answer>)

  ghost predicate Init(s: State) {
    s.last == 0 && s.log == [] && forall i :: 0 <= i < |s.calls| ==> s.calls[i].Waiting?
  }

  ghost predicate Start(s: State, t: State, i: nat, time: nat) {
    i < |s.calls| && s.calls[i].Waiting? && t == s.(calls := s.calls[i := Holding(time)])
  }

  function Leave(s: State, i: nat, time: nat, result: nat): State
    requires i < |s.calls|
  {
    s.(calls := s.calls[i := Returned(time, result)], log := s.log + [Answer(time, result)])
  }

  /** last = last_boot_time; if (time <= last) return last. */
  ghost predicate Load(s: State, t: State, i: nat) {
    && i < |s.calls| && s.calls[i].Holding?
    && t == if s.calls[i].time <= s.last then Leave(s, i, s.calls[i].time, s.last)
            else s.(calls := s.calls[i := Loaded(s.calls[i].time, s.last)])
  }

  /** The compare-and-swap, and going round again when it finds another value. */
  ghost predicate Swap(s: State, t: State, i: nat) {
    && i < |s.calls| && s.calls[i].Loaded?
    && t == if s.last == s.calls[i].seen then Leave(s, i, s.calls[i].time, s.calls[i].time).(last := s.calls[i].time)
            else s.(calls := s.calls[i := Holding(s.calls[i].time)])
  }

  ghost predicate Moves(s: State, t: State, i: nat) {
    (exists time: nat :: Start(s, t, i, time)) || Load(s, t, i) || Swap(s, t, i)
  }

  ghost predicate Next(s: State, t: State) {
    exists i: nat :: Moves(s, t, i)
  }

  ghost predicate IsRun(run: seq<State>) {
    && |run| > 0 && Init(run[0])
    && forall i, j :: 0 <= i < |run| && j == i + 1 && j < |run| ==> Next(run[i], run[j])
  }

  // ----- the simple object: one atomic maximum

  function Max(a: nat, b: nat): nat {
    if a < b then b else a
  }

  /** The greatest time among the first k answers, 0 when there are none. */
  function Greatest(log: seq<Answer>, k: nat): nat
    requires k <= |log|
  {
    if k == 0 then 0 else Max(Greatest(log, k - 1), log[k - 1].time)
  }

  lemma {:induction false} GreatestPrefix(log: seq<Answer>, a: Answer, k: nat)
    requires k <= |log|
    ensures Greatest(log + [a], k) == Greatest(log, k)
  {
    if k > 0 {
      GreatestPrefix(log, a, k - 1);
    }
  }

  ghost predicate CallOk(s: State, c: Call) {
    match c
    case Waiting => true
    case Holding(time) => true
    case Loaded(time, seen) => seen < time && seen <= s.last
    case Returned(time, result) => time <= result <= s.last
  }

  ghost predicate Inv(s: State) {
    && (forall i :: 0 <= i < |s.calls| ==> CallOk(s, s.calls[i]))
    && s.last == Greatest(s.log, |s.log|)
    && (forall k :: 0 <= k < |s.log| ==> s.log[k].result == Greatest(s.log, k + 1))
  }

  /** Each step either leaves the shared word and the answers alone, or is the whole of one atomic maximum
      whose outcome is what the call returns. */
  ghost predicate AtomicMax(s: State, t: State) {
    || (t.last == s.last && t.log == s.log)
    || exists time: nat :: t.last == Max(s.last, time) && t.log == s.log + [Answer(time, Max(s.last, time))]
  }

  lemma StepIsAtomic(s: State, t: State)
    requires Inv(s) && Next(s, t)
    ensures AtomicMax(s, t) && s.last <= t.last
  {
    var i: nat :| Moves(s, t, i);
    assert CallOk(s, s.calls[i]);
    if t.log != s.log {
      var time := s.calls[i].time;
      assert t.last == Max(s.last, time) && t.log == s.log + [Answer(time, Max(s.last, time))];
    }
  }

  lemma NextInv(s: State, t: State)
    requires Inv(s) && Next(s, t)
    ensures Inv(t)
  {
    StepIsAtomic(s, t);
    if t.log != s.log {
      var time: nat :| t.last == Max(s.last, time) && t.log == s.log + [Answer(time, Max(s.last, time))];
      forall k: nat | k <= |s.log| ensures Greatest(t.log, k) == Greatest(s.log, k) {
        GreatestPrefix(s.log, Answer(time, Max(s.last, time)), k);
      }
    }
  }

  lemma {:induction false} RunInv(run: seq<State>, i: nat)
    requires IsRun(run) && i < |run|
    ensures Inv(run[i])
  {
    if i > 0 {
      RunInv(run, i - 1);
      NextInv(run[i - 1], run[i]);
    }
  }

  /** In every run the k-th answer is the greatest of the first k + 1 times, in order of return. */
  lemma RunningMaximum(run: seq<State>, i: nat, k: nat)
    requires IsRun(run) && i < |run| && k < |run[i].log|
    ensures run[i].log[k].result == Greatest(run[i].log, k + 1)
    ensures run[i].last == Greatest(run[i].log, |run[i].log|)
  {
    RunInv(run, i);
  }

  /** last_boot_time never decreases. */
  lemma {:induction false} NeverFalls(run: seq<State>, i: nat, j: nat)
    requires IsRun(run) && i <= j < |run|
    ensures run[i].last <= run[j].last
    decreases j
  {
    if i < j {
      NeverFalls(run, i, j - 1);
      RunInv(run, j - 1);
      StepIsAtomic(run[j - 1], run[j]);
    }
  }

  lemma AnswerStep(s: State, t: State, c: nat)
    requires Inv(s) && Next(s, t) && c < |s.calls|
    ensures |t.calls| == |s.calls|
    ensures t.calls[c].Returned? ==> t.calls[c] == s.calls[c] || s.last <= t.calls[c].result
  {
    var i: nat :| Moves(s, t, i);
    assert CallOk(s, s.calls[i]);
  }

  lemma {:induction false} AnswersFrom(run: seq<State>, a: nat, b: nat, c: nat)
    requires IsRun(run) && a <= b < |run| && c < |run[a].calls| && !run[a].calls[c].Returned?
    ensures c < |run[b].calls|
    ensures run[b].calls[c].Returned? ==> run[a].last <= run[b].calls[c].result
    decreases b
  {
    hide Next, Inv;
    if a < b {
      AnswersFrom(run, a, b - 1, c);
      NeverFalls(run, a, b - 1);
      RunInv(run, b - 1);
      AnswerStep(run[b - 1], run[b], c);
    }
  }

  /** A call that starts after another has returned never returns a smaller value. */
  lemma LaterCallsNotLess(run: seq<State>, a: nat, b: nat, first: nat, second: nat)
    requires IsRun(run) && a <= b < |run|
    requires first < |run[a].calls| && run[a].calls[first].Returned?
    requires second < |run[a].calls| && run[a].calls[second].Waiting?
    requires second < |run[b].calls| && run[b].calls[second].Returned?
    ensures run[a].calls[first].result <= run[b].calls[second].result
  {
    RunInv(run, a);
    assert CallOk(run[a], run[a].calls[first]);
    AnswersFrom(run, a, b, second);
  }

  /** A call keeps the time it came with until it returns, and then returns the greater of that time and what
      last_boot_time was. */
  lemma StepOfCall(s: State, t: State, c: nat)
    requires Inv(s) && Next(s, t) && c < |s.calls| && !s.calls[c].Waiting?
    ensures c < |t.calls| && !t.calls[c].Waiting? && t.calls[c].time == s.calls[c].time
    ensures s.calls[c].Returned? ==> t.calls[c] == s.calls[c]
    ensures !s.calls[c].Returned? && t.calls[c].Returned? ==>
              && t.calls[c].result == Max(s.last, s.calls[c].time) == t.last
              && t.log == s.log + [Answer(s.calls[c].time, t.calls[c].result)]
  {
    var i: nat :| Moves(s, t, i);
    assert CallOk(s, s.calls[i]);
  }

  lemma {:induction false} KeepsTime(run: seq<State>, a: nat, b: nat, c: nat)
    requires IsRun(run) && a <= b < |run| && c < |run[a].calls| && !run[a].calls[c].Waiting?
    ensures c < |run[b].calls| && !run[b].calls[c].Waiting? && run[b].calls[c].time == run[a].calls[c].time
    ensures run[a].calls[c].Returned? ==> run[b].calls[c] == run[a].calls[c]
    decreases b
  {
    hide Next, Inv;
    if a < b {
      KeepsTime(run, a, b - 1, c);
      RunInv(run, b - 1);
      StepOfCall(run[b - 1], run[b], c);
    }
  }

  /** A call returns at least the time it came with, however often it went round, and the log has that time and the
      value it returned. */
  lemma NotBeforeOwnTime(run: seq<State>, a: nat, b: nat, c: nat)
    requires IsRun(run) && a <= b < |run| && c < |run[a].calls| && run[a].calls[c].Holding?
    requires c < |run[b].calls| && run[b].calls[c].Returned?
    ensures run[a].calls[c].time <= run[b].calls[c].result
    ensures Answer(run[a].calls[c].time, run[b].calls[c].result) in run[b].log
    decreases b
  {
    KeepsTime(run, a, b, c);
    RunInv(run, b);
    assert CallOk(run[b], run[b].calls[c]);
    Logged(run, a, b, c);
  }

  lemma {:induction false} Logged(run: seq<State>, a: nat, b: nat, c: nat)
    requires IsRun(run) && a <= b < |run| && c < |run[a].calls| && run[a].calls[c].Holding?
    requires c < |run[b].calls| && run[b].calls[c].Returned?
    ensures Answer(run[a].calls[c].time, run[b].calls[c].result) in run[b].log
    decreases b
  {
    hide Next, Inv, AtomicMax;
    KeepsTime(run, a, b - 1, c);
    RunInv(run, b - 1);
    StepOfCall(run[b - 1], run[b], c);
    StepIsAtomic(run[b - 1], run[b]);
    LogGrows(run[b - 1], run[b]);
    if run[b - 1].calls[c].Returned? {
      Logged(run, a, b - 1, c);
    }
  }

  lemma LogGrows(s: State, t: State)
    requires AtomicMax(s, t)
    ensures forall x :: x in s.log ==> x in t.log
  {
  }

  /** A failed swap is always another call's success: the word has grown since it was loaded, so it never
      comes back to an earlier value. */
  lemma RetryOnlyAfterGrowth(run: seq<State>, i: nat, c: nat)
    requires IsRun(run) && i < |run| && c < |run[i].calls| && run[i].calls[c].Loaded?
    ensures run[i].last != run[i].calls[c].seen <==> run[i].last > run[i].calls[c].seen
  {
    RunInv(run, i);
    assert CallOk(run[i], run[i].calls[c]);
  }
}
