/** kern/kvm-clock.cc, the retry loops of BootClock and BootTime: a reader against the hypervisor, which by
    the MSR_KVM_SYSTEM_TIME_NEW protocol makes the version odd, updates the fields and makes it even again.

    Steps interleave one memory access at a time.  The version the reader sees is a u32.  As written, the loop
    test loads the version a third time for its parity instead of testing the value it compared. */
module Seqlock {

  const TWO32: nat := 0x1_0000_0000

  type Record = seq<int>

  /** from and until are the versions, without the cut to 32 bits, that the first two loads saw. */
  datatype Reader =
    | Idle
    | Reading(v1: nat, from: nat, got: map<nat, int>)
    | Compared(v1: nat, v2: nat, from: nat, until: nat, got: map<nat, int>)
    | Accepted(v1: nat, from: nat, until: nat, got: map<nat, int>)

  /** version counts up without end; history[k] is the record published at version 2k; next is the record
      being written while the version is odd. */
  datatype State = State(version: nat, mem: Record, next: Record, history: seq<Record>, reader: Reader)

  ghost predicate Init(s: State) {
    s.version == 0 && s.history == [s.mem] && s.reader == Idle
  }

  // ----- the hypervisor

  ghost predicate Begin(s: State, t: State) {
    s.version % 2 == 0 && |t.next| == |s.mem| && t == s.(version := s.version + 1, next := t.next)
  }

  ghost predicate WriteField(s: State, t: State, j: nat) {
    s.version % 2 == 1 && j < |s.mem| == |s.next| && t == s.(mem := s.mem[j := s.next[j]])
  }

  ghost predicate Finish(s: State, t: State) {
    s.version % 2 == 1 && s.mem == s.next && t == s.(version := s.version + 1, history := s.history + [s.mem])
  }

  // ----- the reader

  ghost predicate LoadFirst(s: State, t: State) {
    s.reader.Idle? && t == s.(reader := Reading(s.version % TWO32, s.version, map[]))
  }

  /** The fields are loaded in any order. */
  ghost predicate LoadField(s: State, t: State, j: nat) {
    && s.reader.Reading? && j < |s.mem|
    && t == s.(reader := Reading(s.reader.v1, s.reader.from, s.reader.got[j := s.mem[j]]))
  }

  ghost predicate LoadSecond(s: State, t: State) {
    && s.reader.Reading? && (forall j: nat :: j < |s.mem| ==> j in s.reader.got)
    && t == s.(reader := Compared(s.reader.v1, s.version % TWO32, s.reader.from, s.version, s.reader.got))
  }

  /** (version & 1) || v1 != v2, with one more load of the version. */
  ghost predicate LoadThird(s: State, t: State) {
    && s.reader.Compared?
    && t == s.(reader := if s.version % TWO32 % 2 == 1 || s.reader.v1 != s.reader.v2 then Idle
                         else Accepted(s.reader.v1, s.reader.from, s.reader.until, s.reader.got))
  }

  ghost predicate Next(s: State, t: State) {
    || Begin(s, t) || (exists j: nat :: WriteField(s, t, j)) || Finish(s, t)
    || LoadFirst(s, t) || (exists j: nat :: LoadField(s, t, j)) || LoadSecond(s, t) || LoadThird(s, t)
  }

  ghost predicate IsRun(run: seq<State>) {
    && |run| > 0 && Init(run[0])
    && forall i, j :: 0 <= i < |run| && j == i + 1 && j < |run| ==> Next(run[i], run[j])
  }

  // ----- what every step keeps

  ghost predicate WriterOk(s: State) {
    && |s.history| == s.version / 2 + 1
    && (forall k :: 0 <= k < |s.history| ==> |s.history[k]| == |s.mem|)
    && (s.version % 2 == 0 ==> s.mem == s.history[s.version / 2])
    && (s.version % 2 == 1 ==> |s.next| == |s.mem|)
  }

  /** What is read of an unchanged even version is that version's record. */
  ghost predicate GotOk(s: State, from: nat, until: nat, got: map<nat, int>) {
    && from <= until <= s.version
    && (from == until && from % 2 == 0 ==>
          from / 2 < |s.history| && forall j: nat :: j < |s.mem| && j in got ==>
            j < |s.history[from / 2]| && got[j] == s.history[from / 2][j])
  }

  ghost predicate ReaderOk(s: State) {
    match s.reader
    case Idle => true
    case Reading(v1, from, got) => v1 == from % TWO32 && GotOk(s, from, s.version, got)
    case Compared(v1, v2, from, until, got) =>
      && v1 == from % TWO32 && v2 == until % TWO32 && GotOk(s, from, until, got)
      && (forall j: nat :: j < |s.mem| ==> j in got)
    case Accepted(v1, from, until, got) =>
      && v1 == from % TWO32 == until % TWO32 && GotOk(s, from, until, got)
      && (forall j: nat :: j < |s.mem| ==> j in got)
  }

  ghost predicate Inv(s: State) {
    WriterOk(s) && ReaderOk(s)
  }

  lemma NextInv(s: State, t: State)
    requires Inv(s) && Next(s, t)
    ensures Inv(t)
  {
    if LoadFirst(s, t) || LoadSecond(s, t) || LoadThird(s, t) || Begin(s, t) || Finish(s, t) {
    } else if j: nat :| WriteField(s, t, j) {
    } else {
      var j: nat :| LoadField(s, t, j);
    }
  }

  lemma {:induction false} RunInv(run: seq<State>, i: nat)
    requires IsRun(run) && i < |run|
    ensures Inv(run[i])
  {
    if i > 0 {
      RunInv(run, i - 1);
      NextInv(run[i - 1], run[i]);
    }
  }

  /** The record that was read, once every field has been. */
  ghost predicate ReadsAs(got: map<nat, int>, r: Record) {
    forall j: nat :: j < |r| ==> j in got && got[j] == r[j]
  }

  /** The accepted read is the whole of one published record. */
  ghost predicate Whole(s: State)
    requires s.reader.Accepted?
  {
    exists k :: 0 <= k < |s.history| && ReadsAs(s.reader.got, s.history[k])
  }

  /** Safety: in every run, a read accepted with an even first load is the whole of one published record,
      provided fewer than 2^31 updates complete between the two compared loads. */
  lemma AcceptedWhole(run: seq<State>, i: nat)
    requires IsRun(run) && i < |run| && run[i].reader.Accepted?
    requires run[i].reader.v1 % 2 == 0 && run[i].reader.until - run[i].reader.from < TWO32
    ensures Whole(run[i])
  {
    RunInv(run, i);
    var rd := run[i].reader;
    SameVersion(rd.from, rd.until);
    assert ReadsAs(rd.got, run[i].history[rd.from / 2]);
  }

  lemma SameVersion(from: nat, until: nat)
    requires from <= until && until - from < TWO32 && from % TWO32 == until % TWO32
    ensures from == until && from % TWO32 % 2 == from % 2
  {
  }

  // ----- when a read is accepted

  /** While the reader reads, it keeps the version it loaded first; while it waits to compare, both. */
  lemma {:induction false} FirstKept(run: seq<State>, i: nat, k: nat)
    requires IsRun(run) && i < k < |run| && run[i].reader.Idle?
    requires forall m :: i < m <= k ==> run[m].reader.Reading?
    ensures run[k].reader.v1 == run[i].version % TWO32
    decreases k
  {
    assert Next(run[k - 1], run[k]);
    if k - 1 > i {
      FirstKept(run, i, k - 1);
    }
  }

  lemma {:induction false} BothKept(run: seq<State>, i: nat, k: nat, j: nat)
    requires IsRun(run) && i < k < j < |run| && run[i].reader.Idle?
    requires forall m :: i < m <= k ==> run[m].reader.Reading?
    requires forall m :: k < m <= j ==> run[m].reader.Compared?
    ensures run[j].reader.v1 == run[i].version % TWO32 && run[j].reader.v2 == run[k].version % TWO32
    decreases j
  {
    assert Next(run[j - 1], run[j]);
    if j - 1 > k {
      BothKept(run, i, k, j - 1);
    } else {
      FirstKept(run, i, k);
    }
  }

  /** One read, from its first load in state i over its second in state k to its third in state j: it is accepted
      exactly when the first two loads gave the same 32 bits and the version is even at the third; otherwise the
      reader goes round again. */
  lemma ReadOutcome(run: seq<State>, i: nat, k: nat, j: nat)
    requires IsRun(run) && i < k < j && j + 1 < |run| && run[i].reader.Idle?
    requires forall m :: i < m <= k ==> run[m].reader.Reading?
    requires forall m :: k < m <= j ==> run[m].reader.Compared?
    requires !run[j + 1].reader.Compared?
    ensures run[j + 1].reader.Accepted? <==>
            run[i].version % TWO32 == run[k].version % TWO32 && run[j].version % 2 == 0
    ensures run[j + 1].reader.Accepted? || run[j + 1].reader.Idle?
  {
    BothKept(run, i, k, j);
    assert Next(run[j], run[j + 1]);
    Parity(run[j].version);
  }

  lemma Parity(v: nat)
    ensures v % TWO32 % 2 == v % 2
  {
    var q, r := v / TWO32, v % TWO32;
    assert v == 2 * (0x8000_0000 * q) + r;
  }

  /** No read is accepted while an update is under way. */
  lemma AcceptedAtRest(run: seq<State>, i: nat)
    requires IsRun(run) && i + 1 < |run| && run[i + 1].reader.Accepted? && !run[i].reader.Accepted?
    ensures run[i].version == run[i + 1].version && run[i].version % 2 == 0
  {
    assert Next(run[i], run[i + 1]);
    Parity(run[i].version);
  }

  /** So an accepted read that began in an update ended after that update. */
  lemma {:induction false} OddEndsLater(run: seq<State>, i: nat)
    requires IsRun(run) && i < |run| && run[i].reader.Accepted?
    requires run[i].reader.from == run[i].reader.until && run[i].reader.v1 % 2 == 1
    ensures run[i].reader.until < run[i].version
  {
    RunInv(run, i);
    assert i > 0;
    assert Next(run[i - 1], run[i]);
    if run[i - 1].reader.Accepted? {
      OddEndsLater(run, i - 1);
    } else {
      AcceptedAtRest(run, i - 1);
      Parity(run[i].reader.from);
    }
  }

  /** With no step of the writer in between, a read that starts between updates is accepted. */
  lemma QuietReadAccepted(run: seq<State>, i: nat, k: nat, j: nat)
    requires IsRun(run) && i < k < j && j + 1 < |run| && run[i].reader.Idle?
    requires forall m :: i < m <= k ==> run[m].reader.Reading?
    requires forall m :: k < m <= j ==> run[m].reader.Compared?
    requires !run[j + 1].reader.Compared?
    requires forall m :: i <= m <= j ==> run[m].version == run[i].version
    ensures run[j + 1].reader.Accepted? <==> run[i].version % 2 == 0
  {
    ReadOutcome(run, i, k, j);
  }

  /** What a reader holds of a field is what memory held in some state since its first load. */
  lemma {:induction false} FieldSeen(run: seq<State>, i: nat, k: nat, f: nat) returns (m: nat)
    requires IsRun(run) && i < k < |run| && run[i].reader.Idle?
    requires forall m :: i < m <= k ==> run[m].reader.Reading?
    requires f in run[k].reader.got
    ensures i < m < k && f < |run[m].mem| && run[k].reader.got[f] == run[m].mem[f]
    decreases k
  {
    hide IsRun;
    StepOf(run, k - 1);
    m := k - 1;
    if k - 1 > i && f in run[k - 1].reader.got && run[k].reader.got[f] == run[k - 1].reader.got[f] {
      m := FieldSeen(run, i, k - 1, f);
    }
  }

  lemma StepOf(run: seq<State>, i: nat)
    requires IsRun(run) && i + 1 < |run|
    ensures Next(run[i], run[i + 1])
  {
  }

  // ----- and the reads that are not safe

  ghost predicate Reached(s: State) {
    exists run :: IsRun(run) && run[|run| - 1] == s
  }

  lemma Extend(s: State, t: State)
    requires Reached(s) && Next(s, t)
    ensures Reached(t)
  {
    var run :| IsRun(run) && run[|run| - 1] == s;
    assert IsRun(run + [t]);
    assert (run + [t])[|run + [t]| - 1] == t;
  }

  function Copies(r: Record, n: nat): (h: seq<Record>)
    ensures |h| == n && forall k :: 0 <= k < n ==> h[k] == r
  {
    seq(n, i => r)
  }

  /** An update that writes the same record again. */
  lemma Rewrite(s: State)
    requires Reached(s) && s.version % 2 == 0
    ensures Reached(s.(version := s.version + 2, next := s.mem, history := s.history + [s.mem]))
  {
    var t := s.(version := s.version + 1, next := s.mem);
    assert Begin(s, t);
    Extend(s, t);
    assert Finish(t, t.(version := t.version + 1, history := t.history + [t.mem]));
    Extend(t, t.(version := t.version + 1, history := t.history + [t.mem]));
  }

  const ZEROS: Record := [0, 0]
  const ONES: Record := [1, 1]

  lemma {:induction false} QuietAt(k: nat)
    ensures Reached(State(2 * k, ZEROS, ZEROS, Copies(ZEROS, k + 1), Idle))
  {
    if k == 0 {
      var s := State(0, ZEROS, ZEROS, Copies(ZEROS, 1), Idle);
      assert Init(s) by { assert Copies(ZEROS, 1) == [ZEROS]; }
      assert IsRun([s]) && [s][|[s]| - 1] == s;
    } else {
      QuietAt(k - 1);
      Rewrite(State(2 * (k - 1), ZEROS, ZEROS, Copies(ZEROS, k), Idle));
      assert Copies(ZEROS, k) + [ZEROS] == Copies(ZEROS, k + 1);
    }
  }

  const TORN: map<nat, int> := map[0 := 1, 1 := 0]

  lemma TornLoads(k: nat)
    ensures Reached(State(2 * k + 1, [1, 0], ONES, Copies(ZEROS, k + 1), Reading((2 * k + 1) % TWO32, 2 * k + 1, TORN)))
  {
    hide Reached, IsRun;
    QuietAt(k);
    var h, v := Copies(ZEROS, k + 1), (2 * k + 1) % TWO32;
    var s0 := State(2 * k, ZEROS, ZEROS, h, Idle);
    var s1 := State(2 * k + 1, ZEROS, ONES, h, Idle);
    assert Begin(s0, s1);
    Extend(s0, s1);
    var s2 := s1.(mem := [1, 0]);
    assert WriteField(s1, s2, 0);
    Extend(s1, s2);
    var s3 := s2.(reader := Reading(v, 2 * k + 1, map[]));
    assert LoadFirst(s2, s3);
    Extend(s2, s3);
    var s4 := s3.(reader := Reading(v, 2 * k + 1, map[0 := 1]));
    assert LoadField(s3, s4, 0);
    Extend(s3, s4);
    var s5 := s4.(reader := Reading(v, 2 * k + 1, TORN));
    assert s5.reader.got == s4.reader.got[1 := 0];
    assert LoadField(s4, s5, 1);
    Extend(s4, s5);
  }

  /** Started in the middle of an update, the reader compares two equal odd versions, and the third load comes
      after the update: half of each record is accepted. */
  lemma TornAt(k: nat) returns (s: State)
    ensures Reached(s) && s.reader.Accepted? && s.reader.from == s.reader.until == 2 * k + 1
    ensures s.reader.v1 == (2 * k + 1) % TWO32 && !Whole(s)
  {
    hide Reached, IsRun;
    TornLoads(k);
    var h, v := Copies(ZEROS, k + 1), (2 * k + 1) % TWO32;
    var s5 := State(2 * k + 1, [1, 0], ONES, h, Reading(v, 2 * k + 1, TORN));
    var s6 := s5.(reader := Compared(v, v, 2 * k + 1, 2 * k + 1, TORN));
    assert LoadSecond(s5, s6);
    Extend(s5, s6);
    var s7 := s6.(mem := ONES);
    assert WriteField(s6, s7, 1);
    Extend(s6, s7);
    var s8 := s7.(version := 2 * k + 2, history := h + [ONES]);
    assert Finish(s7, s8);
    Extend(s7, s8);
    s := s8.(reader := Accepted(v, 2 * k + 1, 2 * k + 1, TORN));
    assert LoadThird(s8, s);
    Extend(s8, s);
    forall i | 0 <= i < |s.history| ensures !ReadsAs(TORN, s.history[i]) {
      assert s.history[i] == ZEROS || s.history[i] == ONES;
      assert TORN[0] == 1 && TORN[1] == 0;
    }
  }

  /** Every accepted read whose first load gave w is whole. */
  ghost predicate AlwaysWhole(w: nat) {
    forall run, i: nat :: IsRun(run) && i < |run| && AcceptedWith(run[i], w) ==> Whole(run[i])
  }

  ghost predicate AcceptedWith(s: State, w: nat) {
    s.reader.Accepted? && s.reader.v1 == w && s.reader.until - s.reader.from < TWO32
  }

  /** The loop is safe exactly for the first loads that find no update under way. */
  lemma SafeIffEven(w: nat)
    requires w < TWO32
    ensures AlwaysWhole(w) <==> w % 2 == 0
  {
    if w % 2 == 0 {
      forall run, i: nat | IsRun(run) && i < |run| && AcceptedWith(run[i], w) ensures Whole(run[i]) {
        AcceptedWhole(run, i);
      }
    } else {
      var s := TornAt(w / 2);
      var run :| IsRun(run) && run[|run| - 1] == s;
      assert AcceptedWith(run[|run| - 1], w);
    }
  }

  // ----- the 32-bit version

  lemma {:induction false} WaitingAt(k: nat)
    requires k > 0
    ensures Reached(State(2 * k, ONES, ONES, [ZEROS] + Copies(ONES, k), Reading(0, 0, map[0 := 0])))
  {
    hide Reached, IsRun;
    if k == 1 {
      QuietAt(0);
      var s0 := State(0, ZEROS, ZEROS, Copies(ZEROS, 1), Idle);
      var s1 := s0.(reader := Reading(0, 0, map[]));
      assert LoadFirst(s0, s1);
      Extend(s0, s1);
      var s2 := s0.(reader := Reading(0, 0, map[0 := 0]));
      assert LoadField(s1, s2, 0);
      Extend(s1, s2);
      var s3 := s2.(version := 1, next := ONES);
      assert Begin(s2, s3);
      Extend(s2, s3);
      var s4 := s3.(mem := [1, 0]);
      assert WriteField(s3, s4, 0);
      Extend(s3, s4);
      var s5 := s4.(mem := ONES);
      assert WriteField(s4, s5, 1);
      Extend(s4, s5);
      var s6 := s5.(version := 2, history := [ZEROS] + Copies(ONES, 1));
      assert s6.history == s5.history + [ONES];
      assert Finish(s5, s6);
      Extend(s5, s6);
    } else {
      WaitingAt(k - 1);
      Rewrite(State(2 * (k - 1), ONES, ONES, [ZEROS] + Copies(ONES, k - 1), Reading(0, 0, map[0 := 0])));
      assert [ZEROS] + Copies(ONES, k - 1) + [ONES] == [ZEROS] + Copies(ONES, k);
    }
  }

  /** The bound on the updates is needed too: after exactly 2^31 of them the u32 version is back where it
      was, and an even first load does not help. */
  lemma WrapTears() returns (s: State)
    ensures Reached(s) && s.reader.Accepted? && s.reader.v1 == 0 && s.reader.until - s.reader.from == TWO32 && !Whole(s)
  {
    hide Reached, IsRun;
    var k := TWO32 / 2;
    WaitingAt(k);
    var h := [ZEROS] + Copies(ONES, k);
    var s0 := State(2 * k, ONES, ONES, h, Reading(0, 0, map[0 := 0]));
    var torn: map<nat, int> := map[0 := 0, 1 := 1];
    var s1 := s0.(reader := Reading(0, 0, torn));
    assert s1.reader.got == s0.reader.got[1 := 1];
    assert LoadField(s0, s1, 1);
    Extend(s0, s1);
    var s2 := s1.(reader := Compared(0, 0, 0, TWO32, torn));
    assert LoadSecond(s1, s2);
    Extend(s1, s2);
    s := s2.(reader := Accepted(0, 0, TWO32, torn));
    assert LoadThird(s2, s);
    Extend(s2, s);
    forall i | 0 <= i < |s.history| ensures !ReadsAs(torn, s.history[i]) {
      assert s.history[i] == ZEROS || s.history[i] == ONES;
      assert torn[0] == 0 && torn[1] == 1;
    }
  }
}
