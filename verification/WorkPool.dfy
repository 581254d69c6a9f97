/** Admission and cancellation of background operations, as steps over interleavings. One model
    covers both crates: they differ in how a skipped closure lets go of what it captured. */
module WorkPool {
  import opened Wrappers
  import opened Orders

  datatype Domain = Signature | Sketch

  datatype OpOutcome = QueueFull | Completed | WorkerDropped

  /** Where the caller's future stands. */
  datatype FutureState =
    | Created
    | Waiting                        // admitted, suspended on the active semaphore
    | Awaiting                       // job spawned, suspended on the one-shot receiver
    | Dropping                       // dropped while awaiting: receiver and guard still to go
    | Resolved(outcome: OpOutcome)
    | Gone

  /** Where the spawned closure stands. */
  datatype WorkerState =
    | Unspawned
    | Queued
    | SenderChecked                  // `sender.is_canceled()` was false, the flag is still unread
    | Executing
    | Returned
    | ReleasedRunning
    | ReleasedBoth
    | Skipping
    | Ended

  datatype Op = Op(
    future: FutureState,
    worker: WorkerState,
    holdsAdmitted: bool,
    holdsRunning: bool,
    senderOpen: bool,
    receiverOpen: bool,
    sent: bool,
    flag: bool,
    ran: bool)

  const FRESH: Op := Op(Created, Unspawned, false, false, false, false, false, false, false)

  datatype State = State(
    domain: Domain,
    capacity: nat,
    maxActive: nat,
    freeAdmitted: nat,
    freeRunning: nat,
    ops: seq<Op>)

  datatype Kind =
    | Poll | Acquire | Resolve
    | CheckSender | CheckFlag | FinishBody | ReleaseRunning | ReleaseAdmitted | Send
    | SkipRunning | SkipAdmitted | SkipSender | SkipEnd
    | DropCreated | DropWaiting | DropBegin | CloseReceiver | RaiseFlag | DropEnd

  datatype Step = Step(i: nat, kind: Kind)

  predicate IsDrop(kind: Kind) {
    kind.DropCreated? || kind.DropWaiting? || kind.DropBegin?
  }

  /** `AsyncWorkPool::new`: the admission capacity must fit a `usize`. */
  function NewPool(domain: Domain, maxInFlight: nat, maxPending: nat, operations: nat): Option<State> {
    if maxInFlight + maxPending > U64_MAX then None
    else Some(State(domain, maxInFlight + maxPending, maxInFlight, maxInFlight + maxPending, maxInFlight,
                    seq(operations, _ => FRESH)))
  }

  predicate OpEnabled(s: State, op: Op, kind: Kind) {
    match kind
    case Poll => op.future.Created?
    case Acquire => op.future.Waiting? && s.freeRunning > 0
    case Resolve => op.future.Awaiting? && (op.sent || !op.senderOpen)
    case CheckSender => op.worker.Queued?
    case CheckFlag => op.worker.SenderChecked?
    case FinishBody => op.worker.Executing?
    case ReleaseRunning => op.worker.Returned?
    case ReleaseAdmitted => op.worker.ReleasedRunning?
    case Send => op.worker.ReleasedBoth?
    case SkipRunning => op.worker.Skipping? && op.holdsRunning
    case SkipAdmitted => op.worker.Skipping? && op.holdsAdmitted && (s.domain.Sketch? || !op.holdsRunning)
    case SkipSender => op.worker.Skipping? && op.senderOpen
        && (s.domain.Sketch? || (!op.holdsRunning && !op.holdsAdmitted))
    case SkipEnd => op.worker.Skipping? && !op.holdsRunning && !op.holdsAdmitted && !op.senderOpen
    case DropCreated => op.future.Created?
    case DropWaiting => op.future.Waiting?
    case DropBegin => op.future.Awaiting?
    case CloseReceiver => op.future.Dropping? && op.receiverOpen
    case RaiseFlag => op.future.Dropping? && !op.receiverOpen && !op.flag
    case DropEnd => op.future.Dropping? && !op.receiverOpen && op.flag
  }

  predicate Enabled(s: State, step: Step) {
    step.i < |s.ops| && OpEnabled(s, s.ops[step.i], step.kind)
  }

  /** The operation's own state after a step. */
  function OpNext(s: State, op: Op, kind: Kind): Op {
    match kind
    case Poll =>
      if s.freeAdmitted > 0 then op.(future := Waiting, holdsAdmitted := true)
      else op.(future := Resolved(QueueFull))
    case Acquire =>
      op.(future := Awaiting, worker := Queued, holdsRunning := true, senderOpen := true, receiverOpen := true)
    case Resolve =>
      if op.sent then op.(future := Resolved(Completed))
      else op.(future := Resolved(WorkerDropped), flag := true)
    case CheckSender => op.(worker := if op.receiverOpen then SenderChecked else Skipping)
    case CheckFlag => if op.flag then op.(worker := Skipping) else op.(worker := Executing, ran := true)
    case FinishBody => op.(worker := Returned)
    case ReleaseRunning => op.(worker := ReleasedRunning, holdsRunning := false)
    case ReleaseAdmitted => op.(worker := ReleasedBoth, holdsAdmitted := false)
    case Send => op.(worker := Ended, sent := op.receiverOpen, senderOpen := false)
    case SkipRunning => op.(holdsRunning := false)
    case SkipAdmitted => op.(holdsAdmitted := false)
    case SkipSender => op.(senderOpen := false)
    case SkipEnd => op.(worker := Ended)
    case DropCreated => op.(future := Gone)
    case DropWaiting => op.(future := Gone, holdsAdmitted := false, flag := s.domain.Sketch?)
    case DropBegin => op.(future := Dropping)
    case CloseReceiver => op.(receiverOpen := false)
    case RaiseFlag => op.(flag := true)
    case DropEnd => op.(future := Gone)
  }

  /** Permits taken from and returned to the two semaphores by a step. */
  function AdmittedAfter(s: State, kind: Kind): int {
    match kind
    case Poll => if s.freeAdmitted > 0 then s.freeAdmitted - 1 else 0
    case ReleaseAdmitted => s.freeAdmitted + 1
    case SkipAdmitted => s.freeAdmitted + 1
    case DropWaiting => s.freeAdmitted + 1
    case _ => s.freeAdmitted
  }

  function RunningAfter(s: State, kind: Kind): int {
    match kind
    case Acquire => s.freeRunning - 1
    case ReleaseRunning => s.freeRunning + 1
    case SkipRunning => s.freeRunning + 1
    case _ => s.freeRunning
  }

  function Next(s: State, step: Step): State
    requires Enabled(s, step)
  {
    s.(freeAdmitted := AdmittedAfter(s, step.kind),
       freeRunning := RunningAfter(s, step.kind),
       ops := s.ops[step.i := OpNext(s, s.ops[step.i], step.kind)])
  }

  // ------------------------------------------------------------ the invariant

  function HoldsAdmitted(): Op -> bool { (op: Op) => op.holdsAdmitted }
  function HoldsRunning(): Op -> bool { (op: Op) => op.holdsRunning }
  function IsExecuting(): Op -> bool { (op: Op) => op.worker.Executing? }

  predicate OpInv(domain: Domain, op: Op) {
    && (match op.worker
        case Unspawned => !op.holdsRunning && !op.sent && !op.ran
        case Queued => op.holdsRunning && op.holdsAdmitted && op.senderOpen && !op.sent && !op.ran
        case SenderChecked => op.holdsRunning && op.holdsAdmitted && op.senderOpen && !op.sent && !op.ran
        case Executing => op.holdsRunning && op.holdsAdmitted && op.senderOpen && !op.sent && op.ran
        case Returned => op.holdsRunning && op.holdsAdmitted && op.senderOpen && !op.sent && op.ran
        case ReleasedRunning => !op.holdsRunning && op.holdsAdmitted && op.senderOpen && !op.sent && op.ran
        case ReleasedBoth => !op.holdsRunning && !op.holdsAdmitted && op.senderOpen && !op.sent && op.ran
        case Skipping =>
          && !op.sent && !op.ran
          && (domain.Signature? ==> (op.holdsRunning ==> op.holdsAdmitted))
          && (domain.Signature? ==> (!op.senderOpen ==> !op.holdsAdmitted))
        case Ended => !op.holdsRunning && !op.holdsAdmitted && !op.senderOpen && (op.sent ==> op.ran))
    && (match op.future
        case Created => op == FRESH
        case Waiting => op.worker.Unspawned? && op.holdsAdmitted && !op.flag
        case Awaiting => !op.worker.Unspawned? && !op.worker.Skipping? && op.receiverOpen && !op.flag
                         && (op.worker.Ended? ==> op.sent)
        case Dropping => !op.worker.Unspawned?
        case Resolved(o) =>
          (match o
           case QueueFull => op.worker.Unspawned? && !op.holdsAdmitted
           case Completed => op.worker.Ended? && op.sent
           case WorkerDropped => false)
        case Gone => if op.worker.Unspawned? then !op.holdsAdmitted else !op.receiverOpen && op.flag)
  }

  ghost predicate Inv(s: State) {
    && 1 <= s.maxActive <= s.capacity
    && CountIf(HoldsAdmitted(), s.ops) + s.freeAdmitted == s.capacity
    && CountIf(HoldsRunning(), s.ops) + s.freeRunning == s.maxActive
    && forall i :: 0 <= i < |s.ops| ==> OpInv(s.domain, s.ops[i])
  }

  lemma {:induction false} NothingHeld(p: Op -> bool, n: nat)
    requires !p(FRESH)
    ensures CountIf(p, seq(n, _ => FRESH)) == 0
  {
    if n > 0 {
      assert seq(n, _ => FRESH)[1..] == seq(n - 1, _ => FRESH);
      NothingHeld(p, n - 1);
    }
  }

  lemma InitHolds(domain: Domain, maxInFlight: nat, maxPending: nat, operations: nat)
    requires maxInFlight >= 1
    ensures match NewPool(domain, maxInFlight, maxPending, operations)
            case Some(s) =>
              && Inv(s) && s.capacity == maxInFlight + maxPending && s.maxActive == maxInFlight
              && s.freeAdmitted == s.capacity && s.freeRunning == s.maxActive
              && |s.ops| == operations && forall i :: 0 <= i < operations ==> s.ops[i] == FRESH
            case None => maxInFlight + maxPending > U64_MAX
  {
    NothingHeld(HoldsAdmitted(), operations);
    NothingHeld(HoldsRunning(), operations);
  }

  lemma OpInvKept(s: State, op: Op, kind: Kind)
    requires OpInv(s.domain, op) && OpEnabled(s, op, kind)
    ensures OpInv(s.domain, OpNext(s, op, kind))
  {
  }

  /** A permit leaves a semaphore exactly when an operation takes hold of one, and comes back
      exactly when it lets go. */
  lemma AdmissionFollows(s: State, op: Op, kind: Kind)
    requires OpInv(s.domain, op) && OpEnabled(s, op, kind)
    ensures AdmittedAfter(s, kind) + (if OpNext(s, op, kind).holdsAdmitted then 1 else 0)
              == s.freeAdmitted + (if op.holdsAdmitted then 1 else 0)
  {
    hide RunningAfter;
    match kind {
      case Poll =>
      case ReleaseAdmitted =>
      case SkipAdmitted =>
      case DropWaiting =>
      case _ =>
    }
  }

  lemma RunningFollows(s: State, op: Op, kind: Kind)
    requires OpInv(s.domain, op) && OpEnabled(s, op, kind)
    ensures RunningAfter(s, kind) + (if OpNext(s, op, kind).holdsRunning then 1 else 0)
              == s.freeRunning + (if op.holdsRunning then 1 else 0)
  {
    hide AdmittedAfter;
    match kind {
      case Acquire =>
      case ReleaseRunning =>
      case SkipRunning =>
      case _ =>
    }
  }

  lemma InvKept(s: State, step: Step)
    requires Inv(s) && Enabled(s, step)
    ensures Inv(Next(s, step))
  {
    hide OpInv, OpNext, OpEnabled, AdmittedAfter, RunningAfter;
    var op := s.ops[step.i];
    OpInvKept(s, op, step.kind);
    AdmissionFollows(s, op, step.kind);
    RunningFollows(s, op, step.kind);
    CountIfUpdate(HoldsAdmitted(), s.ops, step.i, OpNext(s, op, step.kind));
    CountIfUpdate(HoldsRunning(), s.ops, step.i, OpNext(s, op, step.kind));
  }

  // --------------------------------------------------------------------- runs

  /** A run: any interleaving of any number of operations from a fresh pool. */
  ghost predicate IsRun(states: seq<State>, steps: seq<Step>) {
    && |states| == |steps| + 1
    && (exists domain, maxInFlight: nat, maxPending: nat, operations: nat ::
          maxInFlight >= 1 && NewPool(domain, maxInFlight, maxPending, operations) == Some(states[0]))
    && forall k :: 0 <= k < |steps| ==> Enabled(states[k], steps[k]) && states[k + 1] == Next(states[k], steps[k])
  }

  lemma {:induction false} RunKeepsInv(states: seq<State>, steps: seq<Step>, k: nat)
    requires IsRun(states, steps) && k < |states|
    ensures Inv(states[k])
    ensures states[k].domain == states[0].domain && |states[k].ops| == |states[0].ops|
    ensures states[k].capacity == states[0].capacity && states[k].maxActive == states[0].maxActive
  {
    hide Inv, OpNext, OpEnabled;
    if k == 0 {
      var domain, maxInFlight: nat, maxPending: nat, operations: nat :|
        maxInFlight >= 1 && NewPool(domain, maxInFlight, maxPending, operations) == Some(states[0]);
      InitHolds(domain, maxInFlight, maxPending, operations);
    } else {
      RunKeepsInv(states, steps, k - 1);
      assert Enabled(states[k - 1], steps[k - 1]);
      InvKept(states[k - 1], steps[k - 1]);
    }
  }

  lemma {:induction false} CountIfMonotone(p: Op -> bool, q: Op -> bool, s: seq<Op>)
    requires forall i :: 0 <= i < |s| && p(s[i]) ==> q(s[i])
    ensures CountIf(p, s) <= CountIf(q, s)
  {
    if s != [] { CountIfMonotone(p, q, s[1..]); }
  }

  /** Safety at every point of every run: both semaphores conserve their permits, at most
      `max_in_flight` bodies execute at once, an active permit is held without an admission permit
      only by a skipped sketch closure, a result can be observed only once both permits of its
      operation are back, and no polled future ever resolves to `WorkerDropped`. */
  lemma AdmissionIsSafe(states: seq<State>, steps: seq<Step>, k: nat)
    requires IsRun(states, steps) && k < |states|
    ensures var s := states[k];
            && CountIf(HoldsAdmitted(), s.ops) + s.freeAdmitted == s.capacity
            && CountIf(HoldsRunning(), s.ops) + s.freeRunning == s.maxActive
            && CountIf(IsExecuting(), s.ops) <= s.maxActive
    ensures forall i :: 0 <= i < |states[k].ops| ==>
              var op := states[k].ops[i];
              && (op.holdsRunning && !op.holdsAdmitted ==> states[k].domain.Sketch? && op.worker.Skipping?)
              && (op.sent || op.future == Resolved(Completed) ==> !op.holdsRunning && !op.holdsAdmitted)
              && op.future != Resolved(WorkerDropped)
  {
    RunKeepsInv(states, steps, k);
    CountIfMonotone(IsExecuting(), HoldsRunning(), states[k].ops);
  }

  /** A poll is refused with `QueueFull` exactly when every admission permit is held. */
  lemma QueueFullExactly(states: seq<State>, steps: seq<Step>, k: nat)
    requires IsRun(states, steps) && k < |steps| && steps[k].kind.Poll?
    ensures var i := steps[k].i;
            i < |states[k].ops| && i < |states[k + 1].ops| &&
            (states[k + 1].ops[i].future == Resolved(QueueFull)
             <==> CountIf(HoldsAdmitted(), states[k].ops) == states[k].capacity)
  {
    RunKeepsInv(states, steps, k);
    assert Enabled(states[k], steps[k]);
  }

  // ------------------------------------------------------ cancelled before start

  /** The body has not started and can no longer start: the future is gone, or the worker's next
      check will see the closed receiver or the raised flag. */
  predicate Doomed(op: Op) {
    !op.ran &&
    match op.worker
    case Unspawned => op.future.Gone?
    case Queued => !op.receiverOpen || op.flag
    case SenderChecked => op.flag
    case Skipping => true
    case Ended => true
    case _ => false
  }

  lemma DoomedStays(s: State, op: Op, kind: Kind)
    requires OpInv(s.domain, op) && OpEnabled(s, op, kind) && Doomed(op)
    ensures Doomed(OpNext(s, op, kind))
  {
  }

  lemma {:induction false} DoomedForever(states: seq<State>, steps: seq<Step>, k: nat, l: nat, i: nat)
    requires IsRun(states, steps) && k <= l < |states| && i < |states[k].ops|
    requires Doomed(states[k].ops[i])
    ensures i < |states[l].ops| && Doomed(states[l].ops[i])
  {
    hide Inv, OpNext, OpEnabled, Doomed, OpInv;
    RunKeepsInv(states, steps, k);
    RunKeepsInv(states, steps, l);
    if k < l {
      DoomedForever(states, steps, k, l - 1, i);
      RunKeepsInv(states, steps, l - 1);
      assert Enabled(states[l - 1], steps[l - 1]);
      if steps[l - 1].i == i {
        InvAt(states[l - 1], i);
        DoomedStays(states[l - 1], states[l - 1].ops[i], steps[l - 1].kind);
      }
    }
  }

  lemma InvAt(s: State, i: nat)
    requires Inv(s) && i < |s.ops|
    ensures OpInv(s.domain, s.ops[i])
  {
  }

  /** A body that has not started when its future is gone never runs, wherever the worker stands
      between its two checks. */
  lemma DroppedBeforeCheckNeverRuns(states: seq<State>, steps: seq<Step>, k: nat, l: nat, i: nat)
    requires IsRun(states, steps) && k <= l < |states| && i < |states[k].ops|
    requires states[k].ops[i].future.Gone? && !states[k].ops[i].ran
    ensures i < |states[l].ops| && !states[l].ops[i].ran
  {
    RunKeepsInv(states, steps, k);
    InvAt(states[k], i);
    DoomedForever(states, steps, k, l, i);
  }

  /** The condition is exact: a body that is not doomed and has not run still can run. */
  lemma UndoomedCanRun(s: State, i: nat) returns (steps: seq<Step>)
    requires Inv(s) && i < |s.ops| && (s.ops[i].worker.Queued? || s.ops[i].worker.SenderChecked?)
    requires !Doomed(s.ops[i])
    ensures 1 <= |steps| <= 2 && Enabled(s, steps[0])
    ensures |steps| == 1 ==> Next(s, steps[0]).ops[i].ran
    ensures |steps| == 2 ==> Enabled(Next(s, steps[0]), steps[1]) && Next(Next(s, steps[0]), steps[1]).ops[i].ran
  {
    InvAt(s, i);
    steps := if s.ops[i].worker.Queued? then [Step(i, CheckSender), Step(i, CheckFlag)] else [Step(i, CheckFlag)];
  }

  // ----------------------------------------------------------------- progress

  predicate Settled(op: Op) {
    (op.future.Resolved? || op.future.Gone?) && (op.worker.Unspawned? || op.worker.Ended?)
  }

  function FutureRank(op: Op): nat {
    match op.future
    case Created => 30
    case Waiting => 20
    case Awaiting => 4
    case Dropping => 1 + (if op.receiverOpen then 1 else 0) + (if op.flag then 0 else 1)
    case Resolved(_) => 0
    case Gone => 0
  }

  function WorkerRank(op: Op): nat {
    match op.worker
    case Unspawned => 0
    case Queued => 11
    case SenderChecked => 10
    case Executing => 9
    case Returned => 8
    case ReleasedRunning => 7
    case ReleasedBoth => 6
    case Skipping =>
      1 + (if op.holdsRunning then 1 else 0) + (if op.holdsAdmitted then 1 else 0) + (if op.senderOpen then 1 else 0)
    case Ended => 0
  }

  function Rank(ops: seq<Op>): nat {
    if ops == [] then 0 else FutureRank(ops[0]) + WorkerRank(ops[0]) + Rank(ops[1..])
  }

  lemma {:induction false} RankUpdate(ops: seq<Op>, i: nat, op: Op)
    requires i < |ops|
    ensures Rank(ops[i := op]) + FutureRank(ops[i]) + WorkerRank(ops[i]) == Rank(ops) + FutureRank(op) + WorkerRank(op)
  {
    if i == 0 {
      assert ops[0 := op][1..] == ops[1..];
    } else {
      assert ops[i := op][1..] == ops[1..][i - 1 := op];
      RankUpdate(ops[1..], i - 1, op);
    }
  }

  lemma OpRankFalls(s: State, op: Op, kind: Kind)
    requires OpInv(s.domain, op) && OpEnabled(s, op, kind)
    ensures var after := OpNext(s, op, kind);
            FutureRank(after) + WorkerRank(after) < FutureRank(op) + WorkerRank(op)
  {
  }

  /** Every step brings the pool strictly closer to rest. */
  lemma RankFalls(s: State, step: Step)
    requires Inv(s) && Enabled(s, step)
    ensures Rank(Next(s, step).ops) < Rank(s.ops)
  {
    hide OpNext, OpEnabled, OpInv, FutureRank, WorkerRank;
    OpRankFalls(s, s.ops[step.i], step.kind);
    RankUpdate(s.ops, step.i, OpNext(s, s.ops[step.i], step.kind));
  }

  /** No run is longer than the rank it starts from. */
  lemma {:induction false} RunsAreBounded(states: seq<State>, steps: seq<Step>, k: nat)
    requires IsRun(states, steps) && k < |states|
    ensures k + Rank(states[k].ops) <= Rank(states[0].ops)
  {
    hide Inv, OpNext, OpEnabled;
    if k > 0 {
      RunsAreBounded(states, steps, k - 1);
      RunKeepsInv(states, steps, k - 1);
      assert Enabled(states[k - 1], steps[k - 1]);
      RankFalls(states[k - 1], steps[k - 1]);
    }
  }

  /** What an unsettled operation can do by itself, other than wait for an active permit. */
  function OwnStep(domain: Domain, op: Op): Kind {
    if op.future.Created? then Poll
    else match op.worker
      case Queued => CheckSender
      case SenderChecked => CheckFlag
      case Executing => FinishBody
      case Returned => ReleaseRunning
      case ReleasedRunning => ReleaseAdmitted
      case ReleasedBoth => Send
      case Skipping =>
        if op.holdsRunning then SkipRunning else if op.holdsAdmitted then SkipAdmitted
        else if op.senderOpen then SkipSender else SkipEnd
      case _ =>
        if op.future.Awaiting? then Resolve
        else if op.receiverOpen then CloseReceiver else if !op.flag then RaiseFlag else DropEnd
  }

  lemma OwnStepEnabled(s: State, i: nat)
    requires Inv(s) && i < |s.ops| && !Settled(s.ops[i]) && !s.ops[i].future.Waiting?
    ensures Enabled(s, Step(i, OwnStep(s.domain, s.ops[i]))) && !IsDrop(OwnStep(s.domain, s.ops[i]))
  {
  }

  /** Progress: while any operation is unsettled, some step that drops nothing is enabled. */
  lemma SomeStepIsEnabled(s: State, i: nat) returns (step: Step)
    requires Inv(s) && i < |s.ops| && !Settled(s.ops[i])
    ensures Enabled(s, step) && !IsDrop(step.kind)
  {
    hide OwnStep, OpNext;
    if !s.ops[i].future.Waiting? {
      OwnStepEnabled(s, i);
      step := Step(i, OwnStep(s.domain, s.ops[i]));
    } else if s.freeRunning > 0 {
      step := Step(i, Acquire);
    } else {
      var j := CountIfWitness(HoldsRunning(), s.ops);
      InvAt(s, j);
      OwnStepEnabled(s, j);
      step := Step(j, OwnStep(s.domain, s.ops[j]));
    }
  }

  /** When no step is left, every operation has settled and every permit is back. */
  lemma RestIsFree(s: State)
    requires Inv(s) && forall step :: !Enabled(s, step)
    ensures s.freeAdmitted == s.capacity && s.freeRunning == s.maxActive
    ensures forall i :: 0 <= i < |s.ops| ==> Settled(s.ops[i])
  {
    hide OpEnabled;
    forall i | 0 <= i < |s.ops| ensures Settled(s.ops[i]) {
      if !Settled(s.ops[i]) {
        var step := SomeStepIsEnabled(s, i);
      }
    }
    NoneHeld(s.ops, HoldsAdmitted());
    NoneHeld(s.ops, HoldsRunning());
  }

  lemma {:induction false} NoneHeld(ops: seq<Op>, p: Op -> bool)
    requires forall i :: 0 <= i < |ops| ==> !p(ops[i])
    ensures CountIf(p, ops) == 0
  {
    if ops != [] { NoneHeld(ops[1..], p); }
  }

  // --------------------------------------------------- what becomes of a caller

  /** The first `k` steps contain no drop of operation `i`. */
  ghost predicate KeptPolling(steps: seq<Step>, k: nat, i: nat) {
    k <= |steps| && forall j :: 0 <= j < k && steps[j].i == i ==> !IsDrop(steps[j].kind)
  }

  predicate Polled(future: FutureState) {
    future.Created? || future.Waiting? || future.Awaiting? || future.Resolved?
  }

  lemma PolledStep(s: State, op: Op, kind: Kind)
    requires OpInv(s.domain, op) && OpEnabled(s, op, kind) && Polled(op.future) && !IsDrop(kind)
    ensures Polled(OpNext(s, op, kind).future)
    ensures op.future.Resolved? ==> OpNext(s, op, kind).future == op.future
    ensures OpNext(s, op, kind).future == Resolved(QueueFull) && op.future != Resolved(QueueFull) ==>
              kind.Poll? && s.freeAdmitted == 0
    ensures kind.Poll? && s.freeAdmitted == 0 ==> OpNext(s, op, kind).future == Resolved(QueueFull)
  {
  }

  /** Its poll found every admission permit held. */
  ghost predicate MetFullAdmission(states: seq<State>, steps: seq<Step>, k: nat, i: nat) {
    exists j :: 0 <= j < k && j < |steps| && j < |states| && steps[j] == Step(i, Poll)
      && CountIf(HoldsAdmitted(), states[j].ops) == states[j].capacity
  }

  /** An operation nobody dropped never loses its future, and is refused exactly by a poll that met
      full admission. */
  lemma {:induction false} UndroppedIsPolled(states: seq<State>, steps: seq<Step>, k: nat, i: nat)
    requires IsRun(states, steps) && k < |states| && i < |states[0].ops| && KeptPolling(steps, k, i)
    ensures i < |states[k].ops| && Polled(states[k].ops[i].future)
    ensures states[k].ops[i].future == Resolved(QueueFull) <==> MetFullAdmission(states, steps, k, i)
  {
    hide Inv, OpNext, OpEnabled, OpInv, AdmittedAfter, RunningAfter;
    RunKeepsInv(states, steps, k);
    if k == 0 {
      StartsCreated(states, steps, i);
    } else {
      UndroppedIsPolled(states, steps, k - 1, i);
      RunKeepsInv(states, steps, k - 1);
      var s, step := states[k - 1], steps[k - 1];
      assert Enabled(s, step);
      PermitsConserved(s);
      if step.i == i {
        InvAt(s, i);
        PolledStep(s, s.ops[i], step.kind);
      }
      MetStep(states, steps, k, i);
    }
  }

  lemma StartsCreated(states: seq<State>, steps: seq<Step>, i: nat)
    requires IsRun(states, steps) && i < |states[0].ops|
    ensures states[0].ops[i] == FRESH
  {
  }

  lemma PermitsConserved(s: State)
    requires Inv(s)
    ensures CountIf(HoldsAdmitted(), s.ops) + s.freeAdmitted == s.capacity
  {
  }

  lemma MetStep(states: seq<State>, steps: seq<Step>, k: nat, i: nat)
    requires 0 < k < |states| && k <= |steps|
    ensures MetFullAdmission(states, steps, k, i) <==>
              MetFullAdmission(states, steps, k - 1, i)
              || (steps[k - 1] == Step(i, Poll)
                  && CountIf(HoldsAdmitted(), states[k - 1].ops) == states[k - 1].capacity)
  {
  }

  /** A caller that sees completion sees it of a body that ran and whose result was sent, with both
      permits back. */
  lemma CompletionIsEarned(states: seq<State>, steps: seq<Step>, k: nat, i: nat)
    requires IsRun(states, steps) && k < |states| && i < |states[k].ops|
    requires states[k].ops[i].future == Resolved(Completed)
    ensures var op := states[k].ops[i]; op.ran && op.sent && !op.holdsRunning && !op.holdsAdmitted
  {
    RunKeepsInv(states, steps, k);
    InvAt(states[k], i);
  }

  /** Every caller that keeps polling gets an answer. Once nothing more can happen, an operation that
      was never dropped has been refused if its poll met full admission, and otherwise it has completed
      with the result of a body that ran. */
  lemma KeptPollingIsAnswered(states: seq<State>, steps: seq<Step>, k: nat, i: nat)
    requires IsRun(states, steps) && k < |states| && i < |states[0].ops| && KeptPolling(steps, k, i)
    requires forall step :: !Enabled(states[k], step)
    ensures i < |states[k].ops|
    ensures var op := states[k].ops[i];
            if MetFullAdmission(states, steps, k, i) then op.future == Resolved(QueueFull) && !op.ran
            else op.future == Resolved(Completed) && op.ran && op.sent
  {
    hide OpNext, OpEnabled, Enabled, MetFullAdmission;
    RunKeepsInv(states, steps, k);
    UndroppedIsPolled(states, steps, k, i);
    RestIsFree(states[k]);
    InvAt(states[k], i);
  }

  /** Spawned, not yet answered, and nobody listening. */
  predicate Unheard(op: Op) {
    !op.worker.Unspawned? && !op.receiverOpen && !op.sent
  }

  lemma UnheardStep(s: State, op: Op, kind: Kind)
    requires OpInv(s.domain, op) && OpEnabled(s, op, kind) && Unheard(op)
    ensures Unheard(OpNext(s, op, kind))
  {
  }

  /** A result is delivered only to a caller that still listens: once the receiver of an unanswered
      operation is closed nothing is ever delivered. */
  lemma {:induction false} ResultNeedsAReceiver(states: seq<State>, steps: seq<Step>, k: nat, l: nat, i: nat)
    requires IsRun(states, steps) && k <= l < |states| && i < |states[k].ops| && Unheard(states[k].ops[i])
    ensures i < |states[l].ops| && !states[l].ops[i].sent && !states[l].ops[i].receiverOpen
    ensures Unheard(states[l].ops[i])
    decreases l
  {
    hide Inv, OpNext, OpEnabled, OpInv, AdmittedAfter, RunningAfter;
    RunKeepsInv(states, steps, k);
    RunKeepsInv(states, steps, l);
    if k < l {
      ResultNeedsAReceiver(states, steps, k, l - 1, i);
      RunKeepsInv(states, steps, l - 1);
      assert Enabled(states[l - 1], steps[l - 1]);
      if steps[l - 1].i == i {
        InvAt(states[l - 1], i);
        UnheardStep(states[l - 1], states[l - 1].ops[i], steps[l - 1].kind);
      }
    }
  }

  /** A caller may drop its operation at any point before it has an answer. */
  lemma DropsAreFree(s: State, i: nat) returns (step: Step)
    requires i < |s.ops| && (s.ops[i].future.Created? || s.ops[i].future.Waiting? || s.ops[i].future.Awaiting?)
    ensures step.i == i && IsDrop(step.kind) && Enabled(s, step)
  {
    step := Step(i, match s.ops[i].future case Created => DropCreated case Waiting => DropWaiting case _ => DropBegin);
  }

  lemma LostStep(s: State, op: Op, kind: Kind)
    requires OpInv(s.domain, op) && OpEnabled(s, op, kind) && (op.future.Dropping? || op.future.Gone?)
    ensures OpNext(s, op, kind).future.Dropping? || OpNext(s, op, kind).future.Gone?
  {
  }

  lemma DropStep(s: State, op: Op, kind: Kind)
    requires IsDrop(kind)
    ensures OpNext(s, op, kind).future.Dropping? || OpNext(s, op, kind).future.Gone?
  {
  }

  lemma {:induction false} DroppedStaysDropped(states: seq<State>, steps: seq<Step>, j: nat, k: nat, i: nat)
    requires IsRun(states, steps) && j < k < |states| && steps[j].i == i && IsDrop(steps[j].kind)
    ensures i < |states[k].ops| && (states[k].ops[i].future.Dropping? || states[k].ops[i].future.Gone?)
    decreases k
  {
    hide Inv, OpNext, OpEnabled, OpInv, AdmittedAfter, RunningAfter;
    RunKeepsInv(states, steps, k);
    RunKeepsInv(states, steps, k - 1);
    var s, step := states[k - 1], steps[k - 1];
    assert Enabled(s, step);
    if j < k - 1 { DroppedStaysDropped(states, steps, j, k - 1, i); }
    if step.i == i {
      InvAt(s, i);
      if IsDrop(step.kind) { DropStep(s, s.ops[i], step.kind); } else { LostStep(s, s.ops[i], step.kind); }
    }
  }

  /** A dropped operation ends with its future gone and both permits back; a body that had been
      spawned by then has been told: its receiver is closed and its cancellation flag is up. */
  lemma DropReachesTheBody(states: seq<State>, steps: seq<Step>, j: nat, k: nat, i: nat)
    requires IsRun(states, steps) && j < k < |states| && steps[j].i == i && IsDrop(steps[j].kind)
    requires forall step :: !Enabled(states[k], step)
    ensures i < |states[k].ops|
    ensures var op := states[k].ops[i];
            && op.future.Gone? && !op.holdsAdmitted && !op.holdsRunning
            && (op.worker.Ended? ==> op.flag && !op.receiverOpen) && (op.worker.Unspawned? ==> !op.ran)
  {
    hide OpNext, OpEnabled, Enabled;
    RunKeepsInv(states, steps, k);
    DroppedStaysDropped(states, steps, j, k, i);
    RestIsFree(states[k]);
    InvAt(states[k], i);
  }

  // --------------------------------------- which pools keep active permits admitted

  lemma Extend(states: seq<State>, steps: seq<Step>, step: Step) returns (more: seq<State>, trace: seq<Step>)
    requires IsRun(states, steps) && Enabled(states[|steps|], step)
    ensures IsRun(more, trace) && |more| == |trace| + 1
    ensures more[0] == states[0] && more[|trace|] == Next(states[|steps|], step)
  {
    hide Enabled, Next;
    more, trace := states + [Next(states[|steps|], step)], steps + [step];
    forall k | 0 <= k < |trace| ensures Enabled(more[k], trace[k]) && more[k + 1] == Next(more[k], trace[k]) {
      assert k < |steps| ==> Enabled(states[k], steps[k]) && states[k + 1] == Next(states[k], steps[k]);
    }
  }

  lemma StartOf(s: State, maxInFlight: nat, maxPending: nat, operations: nat) returns (states: seq<State>, steps: seq<Step>)
    requires maxInFlight >= 1 && NewPool(s.domain, maxInFlight, maxPending, operations) == Some(s)
    ensures IsRun(states, steps) && |states| == |steps| + 1 && states[0] == states[|steps|] == s
  {
    states, steps := [s], [];
  }

  /** In every sketch pool with anything to do, the first operation can end up holding an active
      permit alone: a skipped closure drops its captures in no fixed order, so it can give
      admission back first. */
  lemma SketchSkipCanHoldActiveAlone(s: State, maxInFlight: nat, maxPending: nat, operations: nat)
    returns (states: seq<State>, steps: seq<Step>)
    requires maxInFlight >= 1 && operations >= 1
    requires s.domain.Sketch? && NewPool(s.domain, maxInFlight, maxPending, operations) == Some(s)
    ensures IsRun(states, steps) && |states| == |steps| + 1 && states[0] == s
    ensures |states[|steps|].ops| == operations
    ensures var op := states[|steps|].ops[0]; op.holdsRunning && !op.holdsAdmitted
  {
    hide IsRun;
    states, steps := StartOf(s, maxInFlight, maxPending, operations);
    states, steps := Extend(states, steps, Step(0, Poll));
    states, steps := Extend(states, steps, Step(0, Acquire));
    states, steps := Extend(states, steps, Step(0, DropBegin));
    states, steps := Extend(states, steps, Step(0, CloseReceiver));
    states, steps := Extend(states, steps, Step(0, CheckSender));
    states, steps := Extend(states, steps, Step(0, SkipAdmitted));
  }

  /** Throughout the run, whoever holds an active permit also holds admission. */
  ghost predicate KeepsAdmission(states: seq<State>) {
    forall k, i :: 0 <= k < |states| && 0 <= i < |states[k].ops| ==>
      (states[k].ops[i].holdsRunning ==> states[k].ops[i].holdsAdmitted)
  }

  /** The pools that promise it in every run are exactly those of the signature crate, and those
      without operations. */
  lemma ActiveMeansAdmittedExactly(s: State, maxInFlight: nat, maxPending: nat, operations: nat)
    requires maxInFlight >= 1 && NewPool(s.domain, maxInFlight, maxPending, operations) == Some(s)
    ensures (forall states, steps :: IsRun(states, steps) && states[0] == s ==> KeepsAdmission(states))
       <==> s.domain.Signature? || operations == 0
  {
    if s.domain.Signature? || operations == 0 {
      forall states, steps | IsRun(states, steps) && states[0] == s ensures KeepsAdmission(states) {
        PoolKeepsAdmission(states, steps);
      }
    } else {
      var states, steps := SketchSkipCanHoldActiveAlone(s, maxInFlight, maxPending, operations);
      LastBreaksAdmission(states);
    }
  }

  lemma PoolKeepsAdmission(states: seq<State>, steps: seq<Step>)
    requires IsRun(states, steps) && (states[0].domain.Signature? || |states[0].ops| == 0)
    ensures KeepsAdmission(states)
  {
    hide IsRun;
    forall k, i | 0 <= k < |states| && 0 <= i < |states[k].ops|
      ensures states[k].ops[i].holdsRunning ==> states[k].ops[i].holdsAdmitted
    {
      RunKeepsInv(states, steps, k);
      AdmissionIsSafe(states, steps, k);
    }
  }

  lemma LastBreaksAdmission(states: seq<State>)
    requires states != [] && |states[|states| - 1].ops| > 0
    requires states[|states| - 1].ops[0].holdsRunning && !states[|states| - 1].ops[0].holdsAdmitted
    ensures !KeepsAdmission(states)
  {
  }
}
