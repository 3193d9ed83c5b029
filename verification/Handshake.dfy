/** dune_pthread_create and pthread_entry: the parent waits on a condition variable until the child has
    copied the parent's trap frame and published its thread id.  Every interleaving of the two threads. */
module Handshake {

  /** The parent before each of its shared actions.  Failed: some initialisation or pthread_create failed. */
  datatype Parent =
    | Creating | Locking | Checking | Waiting | Relocking | Unlocking | Destroying
    | Returned(value: int) | Failed

  /** The child before each of its shared actions; Reading(n) has done n of its reads of the parent's frame. */
  datatype Child = Absent | Reading(done: nat) | Acquiring | Publishing | Releasing | Signalling | Entered

  datatype Holder = Nobody | ByParent | ByChild

  /** tid is the shared ta_tid, id the child's thread id; spurious records that a wait ended without a signal. */
  datatype State = State(parent: Parent, child: Child, mutex: Holder, tid: int, id: int, spurious: bool)

  /** ta_tf itself, ARG0, ARG4, ARG2, ARG3, the copy of the frame, its rip and ARG1. */
  const READS: nat := 8

  predicate Init(s: State) {
    s.id > 0 && s == State(Creating, Absent, Nobody, 0, s.id, false)
  }

  predicate ParentStep(s: State, s': State) {
    match s.parent
    case Creating => s' == s.(parent := Failed) || s' == s.(parent := Locking, child := Reading(0))
    case Locking => s.mutex == Nobody && s' == s.(parent := Checking, mutex := ByParent)
    case Checking =>
      if s.tid == 0 then s' == s.(parent := Waiting, mutex := Nobody) else s' == s.(parent := Unlocking)
    case Waiting => false
    case Relocking => s.mutex == Nobody && s' == s.(parent := Unlocking, mutex := ByParent)
    case Unlocking => s' == s.(parent := Destroying, mutex := Nobody)
    case Destroying => s' == s.(parent := Returned(s.tid))
    case Returned(_) => false
    case Failed => false
  }

  predicate ChildStep(s: State, s': State) {
    match s.child
    case Absent => false
    case Reading(n) => s' == s.(child := if n < READS then Reading(n + 1) else Acquiring)
    case Acquiring => s.mutex == Nobody && s' == s.(child := Publishing, mutex := ByChild)
    case Publishing => s' == s.(child := Releasing, tid := s.id)
    case Releasing => s' == s.(child := Signalling, mutex := Nobody)
    case Signalling => s' == s.(child := Entered, parent := if s.parent == Waiting then Relocking else s.parent)
    case Entered => false
  }

  /** A wakeup no signal caused. */
  predicate SpuriousStep(s: State, s': State) {
    s.parent == Waiting && s' == s.(parent := Relocking, spurious := true)
  }

  predicate Next(s: State, s': State) { ParentStep(s, s') || ChildStep(s, s') }

  ghost predicate IsRun(ss: seq<State>, spurious: bool) {
    && |ss| > 0 && Init(ss[0])
    && forall i :: 0 < i < |ss| ==> Next(ss[i - 1], ss[i]) || (spurious && SpuriousStep(ss[i - 1], ss[i]))
  }

  /** The child has not yet published its id. */
  predicate Unpublished(c: Child) { c.Absent? || c.Reading? || c.Acquiring? || c.Publishing? }

  predicate Inv(s: State) {
    && s.id > 0 && !s.spurious
    && s.tid == (if Unpublished(s.child) then 0 else s.id)
    && (s.child.Absent? <==> s.parent.Creating? || s.parent.Failed?)
    && (s.mutex == ByParent <==> s.parent.Checking? || s.parent.Unlocking?)
    && (s.mutex == ByChild <==> s.child.Publishing? || s.child.Releasing?)
    && (s.parent.Waiting? ==> !s.child.Entered?)
    && (s.parent.Relocking? ==> s.child.Entered?)
    && (s.parent.Unlocking? || s.parent.Destroying? ==> s.child.Signalling? || s.child.Entered?)
    && (s.parent.Returned? ==> s.parent.value == s.id && (s.child.Signalling? || s.child.Entered?))
  }

  lemma {:induction false} RunInv(ss: seq<State>, n: nat)
    requires IsRun(ss, false) && n < |ss|
    ensures Inv(ss[n])
  {
    if n > 0 { RunInv(ss, n - 1); }
  }

  /** In every interleaving without spurious wakeups: the call returns the child's id; while the child still reads
      the parent's frame or holds the mutex the parent has not returned nor destroyed anything; and the parent is
      never left waiting after the child has signalled. */
  lemma HandshakeSafe(ss: seq<State>, n: nat)
    requires IsRun(ss, false) && n < |ss|
    ensures ss[n].parent.Returned? ==> ss[n].parent.value == ss[n].id
    ensures ss[n].child.Reading? || ss[n].child.Acquiring? || ss[n].child.Publishing? || ss[n].child.Releasing? ==>
              !ss[n].parent.Returned? && !ss[n].parent.Destroying?
    ensures ss[n].child.Entered? ==> !ss[n].parent.Waiting?
  {
    RunInv(ss, n);
  }

  // ---------- Progress ----------

  predicate Final(s: State) {
    s.parent.Failed? || (s.parent.Returned? && s.child.Entered?)
  }

  ghost predicate Stuck(s: State) { forall s' :: !Next(s, s') }

  function ParentRank(p: Parent): (r: nat) {
    match p
    case Creating => 8 case Locking => 7 case Checking => 6 case Waiting => 5 case Relocking => 4
    case Unlocking => 3 case Destroying => 2 case Returned(_) => 0 case Failed => 0
  }

  function ChildRank(c: Child): (r: nat) {
    match c
    case Absent => READS + 7 case Reading(n) => if n <= READS then READS - n + 6 else 6
    case Acquiring => 5 case Publishing => 4 case Releasing => 3 case Signalling => 2 case Entered => 0
  }

  function Rank(s: State): (r: nat) { ParentRank(s.parent) + ChildRank(s.child) }

  lemma StepDecreases(s: State, s': State)
    requires Inv(s) && Next(s, s') && (s.child.Reading? ==> s.child.done <= READS)
    ensures Rank(s') < Rank(s) && (s'.child.Reading? ==> s'.child.done <= READS)
  {
    if ParentStep(s, s') {
      assert ParentRank(s'.parent) < ParentRank(s.parent);
      assert ChildRank(s'.child) <= ChildRank(s.child);
    } else {
      assert ChildRank(s'.child) < ChildRank(s.child);
      assert ParentRank(s'.parent) <= ParentRank(s.parent);
    }
  }

  /** In a state of the invariant that is not final one of the two threads can move. */
  lemma NeverStuck(s: State) returns (s': State)
    requires Inv(s) && !Final(s)
    ensures Next(s, s')
  {
    if s.mutex == ByParent || s.parent.Creating? || s.parent.Destroying? || s.parent.Checking? {
      match s.parent
      case Creating => s' := s.(parent := Failed);
      case Checking => s' := if s.tid == 0 then s.(parent := Waiting, mutex := Nobody) else s.(parent := Unlocking);
      case Unlocking => s' := s.(parent := Destroying, mutex := Nobody);
      case Destroying => s' := s.(parent := Returned(s.tid));
    } else {
      match s.child
      case Reading(n) => s' := s.(child := if n < READS then Reading(n + 1) else Acquiring);
      case Acquiring => s' := s.(child := Publishing, mutex := ByChild);
      case Publishing => s' := s.(child := Releasing, tid := s.id);
      case Releasing => s' := s.(child := Signalling, mutex := Nobody);
      case Signalling => s' := s.(child := Entered, parent := if s.parent == Waiting then Relocking else s.parent);
      case Entered =>
        if s.parent.Locking? {
          s' := s.(parent := Checking, mutex := ByParent);
        } else {
          s' := s.(parent := Unlocking, mutex := ByParent);
        }
    }
  }

  lemma {:induction false} RunRank(ss: seq<State>, n: nat)
    requires IsRun(ss, false) && n < |ss|
    ensures Rank(ss[n]) + n <= Rank(ss[0]) && (ss[n].child.Reading? ==> ss[n].child.done <= READS)
  {
    if n > 0 {
      hide Inv, Next, Rank;
      RunRank(ss, n - 1);
      RunInv(ss, n - 1);
      StepDecreases(ss[n - 1], ss[n]);
    }
  }

  /** Every run is finite, and one that cannot be extended has ended: creation failed, or the parent returned
      the child's id and the child entered its thread. */
  lemma HandshakeCompletes(ss: seq<State>)
    requires IsRun(ss, false)
    ensures |ss| <= 24
    ensures Stuck(ss[|ss| - 1]) ==>
              var s := ss[|ss| - 1]; s.parent.Failed? || (s.parent == Returned(s.id) && s.child == Entered)
  {
    var n := |ss| - 1;
    RunRank(ss, n);
    RunInv(ss, n);
    if !Final(ss[n]) {
      var s' := NeverStuck(ss[n]);
    }
  }

  /** The wait is guarded by `if`, not by a loop: one spurious wakeup lets the parent return 0 while the child
      has not even read the frame. */
  lemma SpuriousWakeupReturnsZero() returns (ss: seq<State>)
    ensures IsRun(ss, true) && ss[|ss| - 1].parent == Returned(0) && ss[|ss| - 1].child == Reading(0)
  {
    var s := State(Creating, Absent, Nobody, 0, 7, false);
    var t := s.(parent := Locking, child := Reading(0));
    ss := [s, t, t.(parent := Checking, mutex := ByParent), t.(parent := Waiting),
           t.(parent := Relocking, spurious := true), t.(parent := Unlocking, mutex := ByParent, spurious := true),
           t.(parent := Destroying, spurious := true), t.(parent := Returned(0), spurious := true)];
  }

  /** With spurious wakeups the result is still the child's id or 0, and 0 only after such a wakeup. */
  predicate WeakInv(s: State) {
    && s.id > 0 && (s.tid == 0 || s.tid == s.id)
    && (!s.spurious ==> Inv(s))
    && (s.parent.Returned? ==> s.parent.value == s.id || (s.spurious && s.parent.value == 0))
  }

  lemma {:induction false} ReturnedValue(ss: seq<State>, n: nat)
    requires IsRun(ss, true) && n < |ss|
    ensures WeakInv(ss[n])
  {
    if n > 0 { ReturnedValue(ss, n - 1); }
  }

  // ---------- When the call returns the id, spurious wakeups included ----------

  /** What holds in every run, with or without spurious wakeups. */
  predicate Anyway(s: State) {
    && s.id > 0
    && s.tid == (if Unpublished(s.child) then 0 else s.id)
    && (s.child.Absent? <==> s.parent.Creating? || s.parent.Failed?)
    && (s.child.Reading? ==> s.child.done <= READS)
  }

  lemma {:induction false} RunAnyway(ss: seq<State>, n: nat)
    requires IsRun(ss, true) && n < |ss|
    ensures Anyway(ss[n])
  {
    if n > 0 { RunAnyway(ss, n - 1); }
  }

  /** The child has done all its reads of the parent's frame. */
  predicate ReadsDone(c: Child) { !c.Absent? && (c.Reading? ==> c.done == READS) }

  /** In every run in which the call has returned there is the step e at which it read ta_tid.  It returned the
      child's id exactly when the child had published by then, and 0 otherwise.  When it returned the id, the child's
      reads of the frame precede the return. */
  lemma {:induction false} ReturnDecided(ss: seq<State>, n: nat) returns (e: nat)
    requires IsRun(ss, true) && n < |ss| && ss[n].parent.Returned?
    ensures 0 < e <= n && ss[e - 1].parent == Destroying
    ensures ss[e].parent == ss[n].parent && ss[e].child == ss[e - 1].child
    ensures ss[n].parent.value == ss[n].id <==> !Unpublished(ss[e].child)
    ensures ss[n].parent.value == 0 <==> Unpublished(ss[e].child)
    ensures ss[n].parent.value == ss[n].id ==> ReadsDone(ss[e].child)
  {
    RunAnyway(ss, n);
    RunAnyway(ss, n - 1);
    if ss[n - 1].parent.Returned? {
      e := ReturnDecided(ss, n - 1);
    } else {
      e := n;
    }
  }

  /** The state of the child after n of its reads, with the parent waiting. */
  function Waited(n: nat): (s: State) { State(Waiting, Reading(n), Nobody, 0, 7, false) }

  /** The converse fails: 0 can be returned although the reads are done. */
  lemma ReadsDoneYetZero() returns (ss: seq<State>)
    ensures IsRun(ss, true) && ss[|ss| - 1].parent == Returned(0) && ReadsDone(ss[|ss| - 1].child)
  {
    var s := State(Creating, Absent, Nobody, 0, 7, false);
    var t := s.(parent := Locking, child := Reading(0));
    var u := Waited(8).(spurious := true);
    ss := [s, t, t.(parent := Checking, mutex := ByParent),
           Waited(0), Waited(1), Waited(2), Waited(3), Waited(4), Waited(5), Waited(6), Waited(7), Waited(8),
           u.(parent := Relocking), u.(parent := Unlocking, mutex := ByParent), u.(parent := Destroying),
           u.(parent := Returned(0))];
  }
}
