/** The posted-interrupt ping-pong: the main thread sends an interrupt to the second thread's core and spins on
    `wait` until the handler there has cleared it.  Every interleaving, with exactly-once delivery. */
module PostedIpi {

  /** The main thread before each shared action; Spinning and Sending belong to the loop over i. */
  datatype Main = AwaitReady | Sending | Spinning | Rearming | Finishing | Joining

  /** The second thread before each shared action; Gave up: dune_enter failed. */
  datatype Second = Entering | Registering | Announcing | AwaitDone | Exited | GaveUp

  /** pending counts interrupts sent and not yet taken, inHandler one whose handler has not yet cleared `wait`. */
  datatype State = State(
    main: Main, second: Second, i: nat, iterations: nat,
    ready: bool, wait: bool, done: bool,
    registered: bool, pending: nat, inHandler: bool,
    sent: nat, handled: nat)

  predicate Init(s: State) {
    s == State(AwaitReady, Entering, 0, s.iterations, false, true, false, false, 0, false, 0, 0)
  }

  predicate MainStep(s: State, s': State) {
    match s.main
    case AwaitReady => s.ready && s' == s.(main := if s.i < s.iterations then Sending else Finishing)
    case Sending => s' == s.(main := Spinning, pending := s.pending + 1, sent := s.sent + 1)
    case Spinning => !s.wait && s' == s.(main := Rearming)
    case Rearming => s' == s.(wait := true, i := s.i + 1, main := if s.i + 1 < s.iterations then Sending else Finishing)
    case Finishing => s' == s.(done := true, main := Joining)
    case Joining => false
  }

  predicate SecondStep(s: State, s': State) {
    match s.second
    case Entering => s' == s.(second := GaveUp) || s' == s.(second := Registering)
    case Registering => s' == s.(second := Announcing, registered := true)
    case Announcing => s' == s.(second := AwaitDone, ready := true)
    case AwaitDone => s.done && s' == s.(second := Exited)
    case Exited => false
    case GaveUp => false
  }

  /** The interrupt is taken on the second thread's core, then its handler clears `wait`. */
  predicate HandlerStep(s: State, s': State) {
    if s.inHandler then s' == s.(inHandler := false, wait := false, handled := s.handled + 1)
    else s.registered && s.pending > 0 && s' == s.(pending := s.pending - 1, inHandler := true)
  }

  predicate Next(s: State, s': State) { MainStep(s, s') || SecondStep(s, s') || HandlerStep(s, s') }

  ghost predicate IsRun(ss: seq<State>) {
    |ss| > 0 && Init(ss[0]) && forall n :: 0 < n < |ss| ==> Next(ss[n - 1], ss[n])
  }

  function Taken(s: State): (r: nat) { if s.inHandler then 1 else 0 }

  predicate Inv(s: State) {
    && s.sent == s.handled + s.pending + Taken(s)
    && (s.registered <==> s.second.Announcing? || s.ready) && (s.ready <==> s.second.AwaitDone? || s.second.Exited?)
    && (s.second.Exited? ==> s.done)
    && (s.sent > 0 || !s.main.AwaitReady? ==> s.ready)
    && (s.main.AwaitReady? ==> s.i == 0 && s.sent == 0 && s.wait)
    && (s.main.Sending? ==> s.i < s.iterations && s.sent == s.i == s.handled && s.wait)
    && (s.main.Spinning? ==> s.i < s.iterations && s.sent == s.i + 1 && (s.wait <==> s.handled == s.i))
    && (s.main.Rearming? ==> s.i < s.iterations && s.sent == s.i + 1 == s.handled && !s.wait)
    && (s.main.Finishing? || s.main.Joining? ==> s.i == s.iterations == s.sent == s.handled && s.wait)
    && (s.done <==> s.main.Joining?)
    && s.handled <= s.sent <= s.handled + 1
  }

  lemma MainKeepsInv(s: State, s': State)
    requires Inv(s) && MainStep(s, s')
    ensures Inv(s')
  {
  }

  lemma SecondKeepsInv(s: State, s': State)
    requires Inv(s) && SecondStep(s, s')
    ensures Inv(s')
  {
  }

  lemma HandlerKeepsInv(s: State, s': State)
    requires Inv(s) && HandlerStep(s, s')
    ensures Inv(s')
  {
  }

  lemma {:induction false} RunInv(ss: seq<State>, n: nat)
    requires IsRun(ss) && n < |ss|
    ensures Inv(ss[n])
  {
    if n > 0 {
      RunInv(ss, n - 1);
      hide Inv, MainStep, SecondStep, HandlerStep;
      if MainStep(ss[n - 1], ss[n]) {
        MainKeepsInv(ss[n - 1], ss[n]);
      } else if SecondStep(ss[n - 1], ss[n]) {
        SecondKeepsInv(ss[n - 1], ss[n]);
      } else {
        HandlerKeepsInv(ss[n - 1], ss[n]);
      }
    }
  }

  /** In every interleaving: interrupts sent are those handled plus those under way; at most one round is open;
      nothing is sent before the handler is registered; and `done` means every round's interrupt was handled. */
  lemma ProtocolSafe(ss: seq<State>, n: nat)
    requires IsRun(ss) && n < |ss|
    ensures ss[n].sent == ss[n].handled + ss[n].pending + Taken(ss[n])
    ensures ss[n].i <= ss[n].sent <= ss[n].i + 1
    ensures ss[n].sent > 0 ==> ss[n].registered
    ensures ss[n].done ==> ss[n].handled == ss[n].sent == ss[n].iterations && ss[n].pending == 0 && !ss[n].inHandler
  {
    RunInv(ss, n);
  }

  /** No wakeup is lost: a main thread that still waits has its interrupt pending or in the handler, and as long as
      the second thread did not give up someone can move until both are done. */
  lemma NeverStuck(s: State) returns (s': State)
    requires Inv(s) && !s.second.GaveUp? && !(s.main.Joining? && s.second.Exited?)
    ensures Next(s, s')
    ensures s.main.Spinning? && s.wait ==> s.pending > 0 || s.inHandler
  {
    if s.inHandler {
      s' := s.(inHandler := false, wait := false, handled := s.handled + 1);
    } else if s.registered && s.pending > 0 {
      s' := s.(pending := s.pending - 1, inHandler := true);
    } else {
      match s.second
      case Entering => s' := s.(second := Registering);
      case Registering => s' := s.(second := Announcing, registered := true);
      case Announcing => s' := s.(second := AwaitDone, ready := true);
      case AwaitDone =>
        match s.main
        case AwaitReady => s' := s.(main := if s.i < s.iterations then Sending else Finishing);
        case Sending => s' := s.(main := Spinning, pending := s.pending + 1, sent := s.sent + 1);
        case Spinning => s' := s.(main := Rearming);
        case Rearming =>
          s' := s.(wait := true, i := s.i + 1, main := if s.i + 1 < s.iterations then Sending else Finishing);
        case Finishing => s' := s.(done := true, main := Joining);
        case Joining => s' := s.(second := Exited);
    }
  }

  function MainRank(m: Main): (r: int) {
    match m
    case AwaitReady => 3 case Sending => 2 case Spinning => -1
    case Rearming => -2 case Finishing => 1 case Joining => 0
  }

  function SecondRank(t: Second): (r: nat) {
    match t
    case Entering => 4 case Registering => 3 case Announcing => 2
    case AwaitDone => 1 case Exited => 0 case GaveUp => 0
  }

  /** Actions left: every step uses one up, so runs are finite. */
  function Rank(s: State): (r: int) {
    5 * (s.iterations - s.i)
    + MainRank(s.main)
    + 2 * s.pending + Taken(s)
    + SecondRank(s.second)
  }

  lemma StepDecreases(s: State, s': State)
    requires Inv(s) && Next(s, s')
    ensures Rank(s') < Rank(s) && s'.iterations == s.iterations
  {
  }

  lemma RankNatural(s: State)
    requires Inv(s)
    ensures 0 <= Rank(s)
  {
  }

  /** No run is longer than 5 steps for each round and 7 more. */
  lemma {:induction false} RunsAreFinite(ss: seq<State>, n: nat)
    requires IsRun(ss) && n < |ss|
    ensures Rank(ss[n]) <= 5 * ss[0].iterations + 7 - n && n <= 5 * ss[0].iterations + 7
  {
    hide Inv, Next;
    RunInv(ss, n);
    RankNatural(ss[n]);
    if n > 0 {
      hide Rank;
      RunsAreFinite(ss, n - 1);
      RunInv(ss, n - 1);
      StepDecreases(ss[n - 1], ss[n]);
    }
  }
}
