/** The observed states of an instance, the transitions between them, and the status record that takes them. */
module Lifecycle {
  import opened Wrappers
  import opened Bytes

  datatype Desired = ShouldStop | ShouldRun | ShouldPause | ShouldDelete

  datatype Observed =
    | Defined | Stopped | Preparing | StartingWorker | LaunchingGuest | NegotiatingDisplay | GuestBooting
    | AdbConnecting | Ready | Pausing | Paused | Resuming | Stopping | Recovering | Blocked | Failed
    | Deleting | Deleted

  /** The states in which a worker may be running. */
  predicate IsActive(s: Observed) {
    s in {Preparing, StartingWorker, LaunchingGuest, NegotiatingDisplay, GuestBooting, AdbConnecting, Ready,
          Pausing, Paused, Resuming, Stopping, Recovering}
  }

  /** The states that may follow a state, apart from itself. */
  function Successors(s: Observed): set<Observed> {
    match s
    case Defined => {Stopped, Preparing, Deleting}
    case Stopped => {Preparing, Deleting}
    case Preparing => {StartingWorker, Stopping, Blocked, Failed}
    case StartingWorker => {LaunchingGuest, Stopping, Blocked, Failed}
    case LaunchingGuest => {NegotiatingDisplay, Stopping, Blocked, Failed}
    case NegotiatingDisplay => {GuestBooting, Stopping, Blocked, Failed}
    case GuestBooting => {AdbConnecting, Ready, Stopping, Blocked, Failed}
    case AdbConnecting => {Ready, Stopping, Blocked, Failed}
    case Ready => {Pausing, Stopping, Recovering, Failed, Blocked}
    case Pausing => {Ready, Paused, Stopping, Recovering, Failed}
    case Resuming => {Ready, Paused, Stopping, Recovering, Failed}
    case Paused => {Resuming, Stopping, Recovering, Failed}
    case Stopping => {Stopped, Failed}
    case Recovering => {Preparing, StartingWorker, Stopped, Blocked, Failed}
    case Blocked => {Preparing, Stopped, Deleting, Recovering}
    case Failed => {Preparing, Stopped, Deleting, Recovering}
    case Deleting => {Deleted, Failed}
    case Deleted => {}
  }

  predicate CanTransition(from: Observed, to: Observed) {
    from == to || to in Successors(from)
  }

  /**
   Out of which states each state is entered: the same relation, seen from the other side. An instance fails
   out of every active state and out of deletion, and turns to stopping out of every active state but recovery.
   */
  lemma EnteredExactly(from: Observed, to: Observed)
    requires from != to
    ensures CanTransition(from, to) <==>
            match to
            case Defined => false
            case Stopped => from in {Defined, Stopping, Recovering, Blocked, Failed}
            case Preparing => from in {Defined, Stopped, Recovering, Blocked, Failed}
            case StartingWorker => from in {Preparing, Recovering}
            case LaunchingGuest => from == StartingWorker
            case NegotiatingDisplay => from == LaunchingGuest
            case GuestBooting => from == NegotiatingDisplay
            case AdbConnecting => from == GuestBooting
            case Ready => from in {GuestBooting, AdbConnecting, Pausing, Resuming}
            case Pausing => from == Ready
            case Paused => from in {Pausing, Resuming}
            case Resuming => from == Paused
            case Stopping => IsActive(from) && from != Recovering
            case Recovering => from in {Ready, Pausing, Paused, Resuming, Blocked, Failed}
            case Blocked => IsActive(from) && from !in {Pausing, Paused, Resuming, Stopping}
            case Failed => IsActive(from) || from == Deleting
            case Deleting => from in {Defined, Stopped, Blocked, Failed}
            case Deleted => from == Deleting
  {
  }

  // ---------------------------------------------------------------------------------------------
  // Runs
  // ---------------------------------------------------------------------------------------------

  /** The states of an instance in the order in which they were taken. */
  predicate IsRun(states: seq<Observed>) {
    |states| > 0 && forall i :: 0 < i < |states| ==> CanTransition(states[i - 1], states[i])
  }

  /** How far a state is on the way to a running guest. */
  function Stage(s: Observed): nat {
    match s
    case StartingWorker => 1
    case LaunchingGuest => 2
    case NegotiatingDisplay => 3
    case GuestBooting => 4
    case AdbConnecting => 4
    case Ready => 4
    case Pausing => 4
    case Paused => 4
    case Resuming => 4
    case _ => 0
  }

  function Gate(stage: nat): Observed
    requires 1 <= stage <= 4
  {
    [StartingWorker, LaunchingGuest, NegotiatingDisplay, GuestBooting][stage - 1]
  }

  /** A transition goes up by one stage at most, and enters the higher stage by its gate. */
  lemma StagesAreClimbed(from: Observed, to: Observed)
    requires CanTransition(from, to) && Stage(to) > Stage(from)
    ensures Stage(to) == Stage(from) + 1 && to == Gate(Stage(to))
  {
  }

  /** Where a run last entered a stage from below. */
  lemma {:induction false} LastEntry(states: seq<Observed>, end: nat, stage: nat) returns (at: nat)
    requires IsRun(states) && end < |states| && 1 <= stage <= 4
    requires Stage(states[0]) == 0 && Stage(states[end]) >= stage
    ensures 0 < at <= end && states[at] == Gate(stage) && Stage(states[at - 1]) == stage - 1
    decreases end
  {
    assert CanTransition(states[end - 1], states[end]);
    if Stage(states[end - 1]) >= stage {
      at := LastEntry(states, end - 1, stage);
    } else {
      StagesAreClimbed(states[end - 1], states[end]);
      at := end;
    }
  }

  /** The four gates stand at these positions, in this order. */
  predicate GatesPassed(states: seq<Observed>, a: nat, b: nat, c: nat, d: nat) {
    && 0 < a < b < c < d < |states|
    && states[a] == StartingWorker && states[b] == LaunchingGuest
    && states[c] == NegotiatingDisplay && states[d] == GuestBooting
  }

  /**
   A run that starts in a state without a guest and reaches a running guest has started the worker,
   launched the guest, negotiated the display and booted the guest, in this order.
   */
  lemma BootOrder(states: seq<Observed>)
    requires IsRun(states) && Stage(states[0]) == 0 && Stage(states[|states| - 1]) == 4
    ensures exists a, b, c, d :: GatesPassed(states, a, b, c, d)
  {
    var d := LastEntry(states, |states| - 1, 4);
    var c := LastEntry(states, d - 1, 3);
    var b := LastEntry(states, c - 1, 2);
    var a := LastEntry(states, b - 1, 1);
    assert GatesPassed(states, a, b, c, d);
  }

  predicate IsDeletion(s: Observed) {
    s == Deleting || s == Deleted
  }

  /** Where a run that ends in deletion turned to it. */
  lemma {:induction false} DeletionStart(states: seq<Observed>) returns (at: nat)
    requires IsRun(states) && !IsDeletion(states[0]) && IsDeletion(states[|states| - 1])
    ensures at + 1 < |states| && states[at] in {Defined, Stopped, Blocked, Failed}
    ensures forall i :: at < i < |states| ==> IsDeletion(states[i])
    decreases |states|
  {
    var last := |states| - 1;
    assert CanTransition(states[last - 1], states[last]);
    if IsDeletion(states[last - 1]) {
      at := DeletionStart(states[..last]);
    } else {
      at := last - 1;
    }
  }

  /** An instance is only ever deleted out of a state in which no worker is running. */
  lemma DeletedWhenInactive(states: seq<Observed>)
    requires IsRun(states) && !IsDeletion(states[0]) && IsDeletion(states[|states| - 1])
    ensures exists at :: 0 <= at < |states| - 1 && !IsActive(states[at]) && !IsDeletion(states[at])
                         && forall i :: at < i < |states| ==> IsDeletion(states[i])
  {
    var at := DeletionStart(states);
    assert !IsActive(states[at]);
  }

  /** Once deleted, always deleted. */
  lemma {:induction false} DeletedIsFinal(states: seq<Observed>, early: nat, late: nat)
    requires IsRun(states) && early <= late < |states| && states[early] == Deleted
    ensures states[late] == Deleted
    decreases late
  {
    if early < late {
      DeletedIsFinal(states, early, late - 1);
      assert CanTransition(states[late - 1], states[late]);
    }
  }

  /** The shortest way to get rid of an instance. */
  function WayOut(s: Observed): seq<Observed> {
    match s
    case Deleted => [Deleted]
    case Deleting => [Deleting, Deleted]
    case Defined => [Defined, Deleting, Deleted]
    case Stopped => [Stopped, Deleting, Deleted]
    case Blocked => [Blocked, Deleting, Deleted]
    case Failed => [Failed, Deleting, Deleted]
    case _ => [s, Failed, Deleting, Deleted]
  }

  /** No state is a dead end: from each of them an instance can be deleted in at most three transitions. */
  lemma NoDeadEnds(s: Observed)
    ensures IsRun(WayOut(s)) && WayOut(s)[0] == s && WayOut(s)[|WayOut(s)| - 1] == Deleted
  {
  }

  // ---------------------------------------------------------------------------------------------
  // The status record
  // ---------------------------------------------------------------------------------------------

  class InstanceStatus {
    var desired: Desired
    var observed: Observed
    var revision: u64
    var errorCode: Option<string>
    var reason: Option<string>
    var updatedAt: int
    /** The states taken so far, and how often the record was changed. */
    ghost var history: seq<Observed>
    ghost var changes: nat

    ghost predicate Valid()
      reads this
    {
      && IsRun(history) && history[0] == Defined && observed == history[|history| - 1]
      && revision == Min(changes, U64_MAX)
    }

    constructor (now: int)
      ensures Valid() && observed == Defined && desired == ShouldStop && revision == 0
      ensures history == [Defined] && changes == 0
    {
      desired, observed, revision := ShouldStop, Defined, 0;
      errorCode, reason, updatedAt := None, None, now;
      history, changes := [Defined], 0;
    }

    method SetDesired(wanted: Desired, now: int)
      requires Valid()
      modifies this
      ensures Valid() && desired == wanted && history == old(history)
      ensures changes == old(changes) + if wanted == old(desired) then 0 else 1
      ensures updatedAt == if wanted == old(desired) then old(updatedAt) else now
      ensures errorCode == old(errorCode) && reason == old(reason)
    {
      if desired != wanted {
        desired := wanted;
        revision := if revision < U64_MAX then revision + 1 else revision;
        updatedAt := now;
        changes := changes + 1;
      }
    }

    /** A refused transition changes nothing. */
    method Transition(next: Observed, error: Option<string>, why: Option<string>, now: int) returns (accepted: bool)
      requires Valid()
      modifies this
      ensures Valid() && desired == old(desired)
      ensures accepted <==> CanTransition(old(observed), next)
      ensures accepted ==> history == old(history) + [next] && changes == old(changes) + 1
                           && errorCode == error && reason == why && updatedAt == now
      ensures !accepted ==> unchanged(this)
    {
      if !CanTransition(observed, next) {
        return false;
      }
      observed := next;
      revision := if revision < U64_MAX then revision + 1 else revision;
      errorCode, reason, updatedAt := error, why, now;
      history, changes := history + [next], changes + 1;
      accepted := true;
    }
  }
}
