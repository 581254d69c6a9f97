/** One command raced against process cancellation: any number of signal handlers calling `request`
    and one poller, interleaved step by step under sequential consistency. */
module Race {
  import opened Wrappers
  import opened Orders

  /** Two handles of one task need not compare equal under `will_wake`. */
  datatype Waker = Waker(task: nat, handle: nat)

  datatype Outcome = Completed | Canceled | Abandoned

  datatype Request =
    | Idle
    | Stored                          // the flag is raised
    | Locked                          // owns the mutex, slot not read yet
    | Taken(waker: Option<Waker>)     // slot emptied, mutex still owned
    | Holding(waker: Option<Waker>)   // mutex released, waker not invoked yet
    | Finished

  datatype Phase =
    | Fresh                           // never polled: no registration exists yet
    | FirstLoad
    | WantSlot
    | Registering                     // owns the mutex
    | SecondLoad                      // owns the mutex
    | UnlockReady                     // owns the mutex
    | UnlockPending                   // owns the mutex
    | PollInner
    | ThirdLoad
    | Suspended
    | WantClear(outcome: Outcome)
    | Clearing(outcome: Outcome)      // owns the mutex
    | UnlockCleared(outcome: Outcome) // owns the mutex
    | Done(outcome: Outcome)

  datatype Owner = Nobody | Poller | Handler(i: nat)

  datatype State = State(
    requested: bool,
    slot: Option<Waker>,
    owner: Owner,
    requests: seq<Request>,
    phase: Phase,
    context: Waker,                   // the waker of the current, or last, poll
    woken: bool)                      // that poll's task has been woken by a request since it began

  datatype Step =
    | Advance(i: nat)
    | StartPoll(waker: Waker)
    | Load
    | Lock
    | Register(keep: bool)
    | Unlock
    | Inner(ready: bool)
    | DropRace
    | Clear

  function Init(handlers: nat, context: Waker): State {
    State(false, None, Nobody, seq(handlers, _ => Idle), Fresh, context, false)
  }

  predicate Enabled(s: State, step: Step) {
    match step
    case Advance(i) =>
      && i < |s.requests| && !s.requests[i].Finished?
      && (s.requests[i].Stored? ==> s.owner.Nobody?)
    case StartPoll(_) => s.phase.Fresh? || s.phase.Suspended?
    case Load => s.phase.FirstLoad? || s.phase.SecondLoad? || s.phase.ThirdLoad?
    case Lock => (s.phase.WantSlot? || s.phase.WantClear?) && s.owner.Nobody?
    // `will_wake` may answer false for any two handles, and true only for handles of one task.
    case Register(keep) => s.phase.Registering? && (keep ==> s.slot.Some? && s.slot.value.task == s.context.task)
    case Unlock => s.phase.UnlockReady? || s.phase.UnlockPending? || s.phase.UnlockCleared?
    case Inner(_) => s.phase.PollInner?
    case DropRace => s.phase.Fresh? || s.phase.Suspended?
    case Clear => s.phase.Clearing?
  }

  function AdvanceRequest(s: State, i: nat): State
    requires i < |s.requests| && !s.requests[i].Finished?
  {
    match s.requests[i]
    case Idle => s.(requested := true, requests := s.requests[i := Stored])
    case Stored => s.(owner := Handler(i), requests := s.requests[i := Locked])
    case Locked => s.(slot := None, requests := s.requests[i := Taken(s.slot)])
    case Taken(w) => s.(owner := Nobody, requests := s.requests[i := Holding(w)])
    case Holding(w) =>
      s.(woken := s.woken || (w.Some? && w.value.task == s.context.task), requests := s.requests[i := Finished])
  }

  function Next(s: State, step: Step): State
    requires Enabled(s, step)
  {
    match step
    case Advance(i) => AdvanceRequest(s, i)
    case StartPoll(w) => s.(phase := FirstLoad, context := w, woken := false)
    case Load =>
      if s.phase.FirstLoad? then s.(phase := if s.requested then WantClear(Canceled) else WantSlot)
      else if s.phase.ThirdLoad? then s.(phase := if s.requested then WantClear(Canceled) else Suspended)
      else if s.requested then s.(phase := UnlockReady, slot := None)
      else s.(phase := UnlockPending)
    case Lock =>
      s.(owner := Poller, phase := if s.phase.WantSlot? then Registering else Clearing(s.phase.outcome))
    case Register(keep) => s.(phase := SecondLoad, slot := if keep then s.slot else Some(s.context))
    case Unlock =>
      s.(owner := Nobody,
         phase := if s.phase.UnlockReady? then WantClear(Canceled)
                  else if s.phase.UnlockPending? then PollInner
                  else Done(s.phase.outcome))
    case Inner(ready) => s.(phase := if ready then WantClear(Completed) else ThirdLoad)
    case DropRace => s.(phase := if s.phase.Fresh? then Done(Abandoned) else WantClear(Abandoned))
    case Clear => s.(slot := None, phase := UnlockCleared(s.phase.outcome))
  }

  // ------------------------------------------------------------ the invariant

  predicate Holds(r: Request) {
    (r.Taken? || r.Holding?) && r.waker.Some?
  }

  predicate PollerOwns(phase: Phase) {
    phase.Registering? || phase.SecondLoad? || phase.UnlockReady? || phase.UnlockPending?
    || phase.Clearing? || phase.UnlockCleared?
  }

  predicate Ending(phase: Phase) {
    phase.WantClear? || phase.Clearing? || phase.UnlockCleared? || phase.Done?
  }

  /** Registered, and the flag was down when last read under the mutex. */
  predicate Armed(phase: Phase) {
    phase.UnlockPending? || phase.PollInner? || phase.ThirdLoad? || phase.Suspended?
  }

  function HoldsWaker(): Request -> bool { (r: Request) => Holds(r) }

  /** Where the one registration of an armed poll is: in the slot, with a request, or spent. */
  function Tokens(s: State): nat {
    (if s.slot.Some? then 1 else 0) + CountIf(HoldsWaker(), s.requests) + (if s.woken then 1 else 0)
  }

  ghost predicate RequestInv(s: State, i: nat)
    requires i < |s.requests|
  {
    var r := s.requests[i];
    && (!r.Idle? ==> s.requested)
    && (s.owner == Handler(i) <==> r.Locked? || r.Taken?)
    && (Armed(s.phase) && Holds(r) ==> r.waker.value.task == s.context.task)
    && (Armed(s.phase) && s.slot.Some? ==> r.Idle? || r.Stored? || r.Locked?)
  }

  ghost predicate Inv(s: State) {
    && (s.owner.Poller? <==> PollerOwns(s.phase))
    && (s.owner.Handler? ==> s.owner.i < |s.requests|)
    && (forall i :: 0 <= i < |s.requests| ==> RequestInv(s, i))
    && (s.requested ==> exists i :: 0 <= i < |s.requests| && !s.requests[i].Idle?)
    && (Armed(s.phase) ==> Tokens(s) == 1)
    && (s.slot.Some? && (Armed(s.phase) || s.phase.SecondLoad?) ==> s.slot.value.task == s.context.task)
    && (s.phase.SecondLoad? ==> s.slot.Some?)
    && (!s.requested ==> !s.woken)
    && (s.phase.Fresh? || s.phase.UnlockCleared? || s.phase.Done? ==> s.slot.None?)
    && (s.phase.UnlockReady? ==> s.requested && s.slot.None?)
    && (Ending(s.phase) && s.phase.outcome.Canceled? ==> s.requested)
  }

  lemma InitHolds(handlers: nat, context: Waker)
    ensures Inv(Init(handlers, context))
  {
  }

  lemma {:induction false} NoneHolds(requests: seq<Request>)
    requires forall i :: 0 <= i < |requests| ==> !Holds(requests[i])
    ensures CountIf(HoldsWaker(), requests) == 0
  {
    if requests != [] { NoneHolds(requests[1..]); }
  }

  lemma AdvanceKeepsInv(s: State, i: nat)
    requires Inv(s) && Enabled(s, Advance(i))
    ensures Inv(AdvanceRequest(s, i))
  {
    hide CountIf;
    var t := AdvanceRequest(s, i);
    assert RequestInv(s, i);
    CountIfUpdate(HoldsWaker(), s.requests, i, t.requests[i]);
    assert t.requests == s.requests[i := t.requests[i]];
    assert !t.requests[i].Idle?;
    forall j | 0 <= j < |t.requests| ensures RequestInv(t, j) {
      assert RequestInv(s, j);
    }
  }

  lemma PollerKeepsInv(s: State, step: Step)
    requires Inv(s) && Enabled(s, step) && !step.Advance?
    ensures Inv(Next(s, step))
  {
    hide CountIf;
    var t := Next(s, step);
    forall j | 0 <= j < |t.requests| ensures RequestInv(t, j) {
      assert RequestInv(s, j);
    }
    if s.phase.SecondLoad? && step.Load? && !s.requested {
      forall j | 0 <= j < |s.requests| ensures !Holds(s.requests[j]) { assert RequestInv(s, j); }
      NoneHolds(s.requests);
    }
  }

  lemma InvKept(s: State, step: Step)
    requires Inv(s) && Enabled(s, step)
    ensures Inv(Next(s, step))
  {
    if step.Advance? { AdvanceKeepsInv(s, step.i); } else { PollerKeepsInv(s, step); }
  }

  // --------------------------------------------------------------------- runs

  ghost predicate IsRun(states: seq<State>, steps: seq<Step>) {
    && |states| == |steps| + 1
    && (exists handlers: nat, context :: states[0] == Init(handlers, context))
    && forall k :: 0 <= k < |steps| ==> Enabled(states[k], steps[k]) && states[k + 1] == Next(states[k], steps[k])
  }

  lemma {:induction false} RunKeepsInv(states: seq<State>, steps: seq<Step>, k: nat)
    requires IsRun(states, steps) && k < |states|
    ensures Inv(states[k])
    ensures |states[k].requests| == |states[0].requests|
  {
    hide Inv;
    if k == 0 {
      var handlers: nat, context :| states[0] == Init(handlers, context);
      InitHolds(handlers, context);
    } else {
      RunKeepsInv(states, steps, k - 1);
      assert Enabled(states[k - 1], steps[k - 1]);
      InvKept(states[k - 1], steps[k - 1]);
    }
  }

  // ------------------------------------------------------- no lost wake-up

  /** At every point of every run: a race suspended as pending after some `request` has finished
      has been woken exactly when no request is still carrying the waker it took. */
  lemma WokenUnlessHandedOver(states: seq<State>, steps: seq<Step>, k: nat, finished: nat)
    requires IsRun(states, steps) && k < |states|
    requires states[k].phase.Suspended?
    requires finished < |states[k].requests| && states[k].requests[finished].Finished?
    ensures states[k].woken <==> forall i :: 0 <= i < |states[k].requests| ==> !Holds(states[k].requests[i])
  {
    hide CountIf;
    RunKeepsInv(states, steps, k);
    var s := states[k];
    assert RequestInv(s, finished);
    assert s.slot.None?;
    if forall i :: 0 <= i < |s.requests| ==> !Holds(s.requests[i]) {
      NoneHolds(s.requests);
    } else {
      var i :| 0 <= i < |s.requests| && Holds(s.requests[i]);
      CountIfPositive(HoldsWaker(), s.requests, i);
    }
  }

  /** When one request has finished and none other carries a waker, the suspended race is awake. */
  lemma NoLostWakeUp(states: seq<State>, steps: seq<Step>, k: nat, finished: nat)
    requires IsRun(states, steps) && k < |states|
    requires states[k].phase.Suspended?
    requires finished < |states[k].requests| && states[k].requests[finished].Finished?
    requires forall i :: 0 <= i < |states[k].requests| && i != finished ==> !Holds(states[k].requests[i])
    ensures states[k].woken
  {
    WokenUnlessHandedOver(states, steps, k, finished);
  }

  predicate UnderWay(r: Request) {
    !r.Idle? && !r.Finished?
  }

  /** Requests come one after the other, as from one handler thread. */
  ghost predicate Serial(s: State) {
    forall i, j :: 0 <= i < j < |s.requests| ==> !UnderWay(s.requests[i]) || !UnderWay(s.requests[j])
  }

  ghost predicate NothingCarried(s: State) {
    (exists i :: 0 <= i < |s.requests| && s.requests[i].Finished?) && Armed(s.phase) ==>
      forall j :: 0 <= j < |s.requests| ==> !Holds(s.requests[j])
  }

  lemma SerialStep(s: State, step: Step)
    requires Inv(s) && Enabled(s, step) && Serial(s) && NothingCarried(s)
    ensures NothingCarried(Next(s, step))
  {
    hide Tokens, CountIf;
    var t := Next(s, step);
    forall i, j | 0 <= i < |t.requests| && t.requests[i].Finished? && Armed(t.phase) && 0 <= j < |t.requests|
      ensures !Holds(t.requests[j])
    {
      assert RequestInv(s, i) && RequestInv(s, j);
    }
  }

  lemma {:induction false} SerialRunCarriesNothing(states: seq<State>, steps: seq<Step>, k: nat)
    requires IsRun(states, steps) && k < |states| && forall l :: 0 <= l < k ==> Serial(states[l])
    ensures NothingCarried(states[k])
  {
    hide Inv, Next, Enabled, Serial, NothingCarried;
    if k == 0 {
      StartCarriesNothing(states, steps);
    } else {
      SerialRunCarriesNothing(states, steps, k - 1);
      RunKeepsInv(states, steps, k - 1);
      assert Enabled(states[k - 1], steps[k - 1]);
      SerialStep(states[k - 1], steps[k - 1]);
    }
  }

  lemma StartCarriesNothing(states: seq<State>, steps: seq<Step>)
    requires IsRun(states, steps)
    ensures NothingCarried(states[0])
  {
  }

  /** The process has one handler thread, which calls `request` serially. Along any run in which at
      most one request is under way at each point, a finished request means that the suspended race
      is awake, with no other condition. */
  lemma SerialRequestsWake(states: seq<State>, steps: seq<Step>, k: nat, finished: nat)
    requires IsRun(states, steps) && k < |states| && forall l :: 0 <= l < k ==> Serial(states[l])
    requires states[k].phase.Suspended?
    requires finished < |states[k].requests| && states[k].requests[finished].Finished?
    ensures states[k].woken
  {
    SerialRunCarriesNothing(states, steps, k);
    NoLostWakeUp(states, steps, k, finished);
  }

  /** A race that is not suspended when a request is made never suspends again: its current poll,
      and every later one, ends it. */
  lemma {:induction false} RequestedRaceNeverSuspends(states: seq<State>, steps: seq<Step>, k: nat, l: nat)
    requires IsRun(states, steps) && k <= l < |states|
    requires states[k].requested && !states[k].phase.Suspended?
    ensures states[l].requested && !states[l].phase.Suspended?
    decreases l
  {
    if k < l {
      RequestedRaceNeverSuspends(states, steps, k, l - 1);
      assert Enabled(states[l - 1], steps[l - 1]);
    }
  }

  // --------------------------------------------------------------- the mutex

  /** A waker is invoked only by a request that does not own the mutex, so a waker that polls the
      race on the spot can lock it. */
  lemma WakersRunUnlocked(states: seq<State>, steps: seq<Step>, k: nat, i: nat)
    requires IsRun(states, steps) && k < |steps| && steps[k] == Advance(i)
    requires i < |states[k].requests| && states[k].requests[i].Holding?
    ensures states[k].owner != Handler(i)
  {
    RunKeepsInv(states, steps, k);
    assert RequestInv(states[k], i);
  }

  /** A step that neither begins a poll nor drops the race. */
  predicate Internal(step: Step) {
    !step.StartPoll? && !step.DropRace?
  }

  function PollerStep(s: State): Step {
    match s.phase
    case FirstLoad => Load
    case WantSlot => Lock
    case Registering => Register(false)
    case SecondLoad => Load
    case UnlockReady => Unlock
    case UnlockPending => Unlock
    case PollInner => Inner(false)
    case ThirdLoad => Load
    case WantClear(_) => Lock
    case Clearing(_) => Clear
    case UnlockCleared(_) => Unlock
    case _ => DropRace
  }

  predicate AtRest(phase: Phase) {
    phase.Fresh? || phase.Suspended? || phase.Done?
  }

  /** The mutex never blocks everybody: while a request is unfinished or the poller is mid-way,
      some internal step is enabled. */
  lemma SomeStepIsEnabled(s: State) returns (step: Step)
    requires Inv(s)
    requires !AtRest(s.phase) || exists i :: 0 <= i < |s.requests| && !s.requests[i].Finished?
    ensures Enabled(s, step) && Internal(step)
  {
    if s.owner.Handler? {
      assert RequestInv(s, s.owner.i);
      step := Advance(s.owner.i);
    } else if !AtRest(s.phase) {
      step := PollerStep(s);
    } else {
      var i: nat :| i < |s.requests| && !s.requests[i].Finished?;
      step := Advance(i);
    }
  }

  lemma OwnersAreMidway(s: State)
    requires Inv(s) && s.owner.Handler?
    ensures s.owner.i < |s.requests| && !s.requests[s.owner.i].Finished?
  {
    assert RequestInv(s, s.owner.i);
  }

  function RequestRank(r: Request): nat {
    match r
    case Idle => 5
    case Stored => 4
    case Locked => 3
    case Taken(_) => 2
    case Holding(_) => 1
    case Finished => 0
  }

  function PhaseRank(phase: Phase): nat {
    match phase
    case FirstLoad => 11
    case WantSlot => 10
    case Registering => 9
    case SecondLoad => 8
    case UnlockReady => 7
    case UnlockPending => 7
    case PollInner => 6
    case ThirdLoad => 5
    case WantClear(_) => 4
    case Clearing(_) => 3
    case UnlockCleared(_) => 2
    case Fresh => 12
    case Suspended => 1
    case Done(_) => 0
  }

  function RequestsRank(requests: seq<Request>): nat {
    if requests == [] then 0 else RequestRank(requests[0]) + RequestsRank(requests[1..])
  }

  function Rank(s: State): nat {
    RequestsRank(s.requests) + PhaseRank(s.phase)
  }

  lemma {:induction false} RankUpdate(requests: seq<Request>, i: nat, r: Request)
    requires i < |requests|
    ensures RequestsRank(requests[i := r]) + RequestRank(requests[i]) == RequestsRank(requests) + RequestRank(r)
  {
    if i == 0 {
      assert requests[0 := r][1..] == requests[1..];
    } else {
      assert requests[i := r][1..] == requests[1..][i - 1 := r];
      RankUpdate(requests[1..], i - 1, r);
    }
  }

  lemma PollerRankFalls(s: State, step: Step)
    requires Enabled(s, step) && Internal(step) && !step.Advance?
    ensures PhaseRank(Next(s, step).phase) < PhaseRank(s.phase) && Next(s, step).requests == s.requests
  {
  }

  /** Internal steps cannot go on for ever. */
  lemma RankFalls(s: State, step: Step)
    requires Enabled(s, step) && Internal(step)
    ensures Rank(Next(s, step)) < Rank(s)
  {
    hide PhaseRank;
    if step.Advance? {
      var t := AdvanceRequest(s, step.i);
      RankUpdate(s.requests, step.i, t.requests[step.i]);
      assert t.requests == s.requests[step.i := t.requests[step.i]];
    } else {
      PollerRankFalls(s, step);
    }
  }

  /** Progress and wake-up together: once only a new poll or a drop can happen, every request has
      finished, the mutex is free, and a suspended race that any request was made for is awake. */
  lemma QuietMeansAwake(states: seq<State>, steps: seq<Step>, k: nat)
    requires IsRun(states, steps) && k < |states|
    requires forall step :: Internal(step) ==> !Enabled(states[k], step)
    ensures states[k].owner.Nobody? && AtRest(states[k].phase)
    ensures forall i :: 0 <= i < |states[k].requests| ==> states[k].requests[i].Finished?
    ensures states[k].phase.Suspended? && |states[k].requests| > 0 ==> states[k].woken
  {
    var s := states[k];
    RunKeepsInv(states, steps, k);
    if !AtRest(s.phase) || exists i :: 0 <= i < |s.requests| && !s.requests[i].Finished? {
      var step := SomeStepIsEnabled(s);
    }
    if s.owner.Handler? { OwnersAreMidway(s); }
    if s.phase.Suspended? && |s.requests| > 0 {
      assert s.requests[0].Finished?;
      WokenUnlessHandedOver(states, steps, k, 0);
    }
  }

  // --------------------------------------------------------------- outcomes

  lemma EndingStep(s: State, step: Step)
    requires Enabled(s, step) && Ending(s.phase)
    ensures Ending(Next(s, step).phase) && Next(s, step).phase.outcome == s.phase.outcome
    ensures s.phase.Done? ==> Next(s, step).phase.Done?
  {
  }

  /** An ending race keeps its outcome, and a race that is over stays over. */
  lemma {:induction false} EndingIsKept(states: seq<State>, steps: seq<Step>, k: nat, l: nat)
    requires IsRun(states, steps) && k <= l < |states| && Ending(states[k].phase)
    ensures Ending(states[l].phase) && states[l].phase.outcome == states[k].phase.outcome
    ensures states[k].phase.Done? ==> states[l].phase.Done?
    decreases l
  {
    hide Ending, Next, Enabled;
    if k < l {
      EndingIsKept(states, steps, k, l - 1);
      assert Enabled(states[l - 1], steps[l - 1]);
      EndingStep(states[l - 1], steps[l - 1]);
    }
  }

  /** A completed inner value wins its final poll whatever requests do meanwhile, and the race
      reports cancellation only if one was requested. */
  lemma CompletedValueWins(states: seq<State>, steps: seq<Step>, k: nat, l: nat)
    requires IsRun(states, steps) && k < |steps| && k < l < |states| && steps[k] == Inner(true)
    ensures Ending(states[l].phase) && states[l].phase.outcome == Completed
  {
    assert Enabled(states[k], steps[k]);
    EndingIsKept(states, steps, k + 1, l);
  }

  lemma EndingBegins(s: State, step: Step)
    requires Enabled(s, step) && !Ending(s.phase) && Ending(Next(s, step).phase)
    ensures match Next(s, step).phase.outcome
            case Completed => step == Inner(true)
            case Abandoned => step == DropRace
            case Canceled => s.phase.UnlockReady? || s.requested
  {
  }

  /** The other way round: what a finished race reports is what happened to it. */
  lemma {:induction false} OutcomesAreEarned(states: seq<State>, steps: seq<Step>, k: nat)
    requires IsRun(states, steps) && k < |states| && Ending(states[k].phase)
    ensures match states[k].phase.outcome
            case Completed => exists j :: 0 <= j < k && steps[j] == Inner(true)
            case Abandoned => exists j :: 0 <= j < k && steps[j] == DropRace
            case Canceled => states[k].requested
  {
    hide Enabled, Next;
    RunKeepsInv(states, steps, k);
    if k > 0 {
      assert Enabled(states[k - 1], steps[k - 1]);
      if Ending(states[k - 1].phase) {
        OutcomesAreEarned(states, steps, k - 1);
        EndingStep(states[k - 1], steps[k - 1]);
      } else {
        EndingBegins(states[k - 1], steps[k - 1]);
      }
    }
  }

  /** A poll that finds the request while it holds the mutex takes its own waker back before it lets
      the mutex go. */
  lemma CanceledPollTakesItsWaker(states: seq<State>, steps: seq<Step>, k: nat)
    requires IsRun(states, steps) && k < |states| && states[k].phase.UnlockReady?
    ensures states[k].requested && states[k].slot.None?
  {
    RunKeepsInv(states, steps, k);
  }

  /** A request made before a poll begins ends that poll as canceled: it registers nothing and never
      polls the inner future. */
  lemma {:induction false} RequestedPollIsCanceled(states: seq<State>, steps: seq<Step>, k: nat, l: nat)
    requires IsRun(states, steps) && k < |steps| && k < l < |states|
    requires steps[k].StartPoll? && states[k].requested
    ensures states[l].requested
    ensures states[l].phase.FirstLoad? || (Ending(states[l].phase) && states[l].phase.outcome == Canceled)
    ensures forall m :: k < m < l ==> !steps[m].Inner? && !steps[m].Register?
    decreases l
  {
    assert Enabled(states[l - 1], steps[l - 1]) && states[l] == Next(states[l - 1], steps[l - 1]);
    if k + 1 < l { RequestedPollIsCanceled(states, steps, k, l - 1); }
  }

  /** The inner future was polled, and found pending, since the current poll began. */
  ghost predicate InnerPolled(steps: seq<Step>, k: nat) {
    k <= |steps| && exists j: nat :: j < k && InnerPolledAt(steps, j, k)
  }

  ghost predicate InnerPolledAt(steps: seq<Step>, j: nat, k: nat)
    requires j < k <= |steps|
  {
    steps[j] == Inner(false) && forall m :: j < m < k ==> !steps[m].StartPoll? && !steps[m].Inner?
  }

  lemma InnerPolledStep(steps: seq<Step>, k: nat)
    requires k < |steps|
    ensures steps[k] == Inner(false) ==> InnerPolled(steps, k + 1)
    ensures InnerPolled(steps, k) && !steps[k].StartPoll? && !steps[k].Inner? ==> InnerPolled(steps, k + 1)
  {
    if steps[k] == Inner(false) { assert InnerPolledAt(steps, k, k + 1); }
    if InnerPolled(steps, k) && !steps[k].StartPoll? && !steps[k].Inner? {
      var j: nat :| j < k && InnerPolledAt(steps, j, k);
      assert InnerPolledAt(steps, j, k + 1);
    }
  }

  /** A race never suspends without having polled the inner future: no poll is lost. */
  lemma {:induction false} SuspendedRacesHavePolled(states: seq<State>, steps: seq<Step>, k: nat)
    requires IsRun(states, steps) && k < |states| && (states[k].phase.Suspended? || states[k].phase.ThirdLoad?)
    ensures InnerPolled(steps, k)
  {
    if k > 0 {
      var before, step := states[k - 1], steps[k - 1];
      assert Enabled(before, step) && states[k] == Next(before, step);
      InnerPolledStep(steps, k - 1);
      if step != Inner(false) { SuspendedRacesHavePolled(states, steps, k - 1); }
    }
  }

  /** What the world may do: poll a race that is fresh or suspended with any waker, or drop it; the
      inner future may be ready or pending; a waker of the same task may be kept or replaced. */
  lemma TheWorldIsFree(s: State, waker: Waker, ready: bool, keep: bool)
    ensures s.phase.Fresh? || s.phase.Suspended? ==> Enabled(s, StartPoll(waker)) && Enabled(s, DropRace)
    ensures s.phase.PollInner? ==> Enabled(s, Inner(ready))
    ensures s.phase.Registering? && s.slot.Some? && s.slot.value.task == s.context.task ==> Enabled(s, Register(keep))
  {
  }

  /** A dropped race is abandoned. */
  lemma DroppedIsAbandoned(states: seq<State>, steps: seq<Step>, k: nat, l: nat)
    requires IsRun(states, steps) && k < |steps| && k < l < |states| && steps[k] == DropRace
    ensures Ending(states[l].phase) && states[l].phase.outcome == Abandoned
  {
    assert Enabled(states[k], steps[k]);
    EndingIsKept(states, steps, k + 1, l);
  }

  /** Once the race is over its slot is empty, and no later `request` finds a waker. */
  lemma FinishedRaceLeavesNoWaker(states: seq<State>, steps: seq<Step>, k: nat, l: nat)
    requires IsRun(states, steps) && k <= l < |states| && states[k].phase.Done?
    ensures states[l].phase.Done? && states[l].slot.None?
  {
    EndingIsKept(states, steps, k, l);
    RunKeepsInv(states, steps, l);
  }

  // --------------------------------------- why the exact condition is needed

  lemma Extend(states: seq<State>, steps: seq<Step>, step: Step) returns (more: seq<State>, trace: seq<Step>)
    requires IsRun(states, steps) && Enabled(states[|steps|], step)
    ensures IsRun(more, trace) && |more| == |trace| + 1 && more[|trace|] == Next(states[|steps|], step)
  {
    hide Enabled, Next;
    more, trace := states + [Next(states[|steps|], step)], steps + [step];
    forall k | 0 <= k < |trace| ensures Enabled(more[k], trace[k]) && more[k + 1] == Next(more[k], trace[k]) {
      assert k < |steps| ==> Enabled(states[k], steps[k]) && states[k + 1] == Next(states[k], steps[k]);
    }
  }

  /** A whole poll of an unrequested race that finds its inner future pending. */
  lemma SuspendedRun(handlers: nat, context: Waker) returns (states: seq<State>, steps: seq<Step>)
    ensures IsRun(states, steps) && |states| == |steps| + 1
    ensures states[|steps|] == Init(handlers, context).(phase := Suspended, slot := Some(context))
  {
    hide IsRun;
    var s := Init(handlers, context);
    states, steps := StartOf(s, handlers);
    states, steps := Extend(states, steps, StartPoll(context));
    states, steps := Extend(states, steps, Load);
    states, steps := Extend(states, steps, Lock);
    states, steps := Extend(states, steps, Register(false));
    states, steps := Extend(states, steps, Load);
    states, steps := Extend(states, steps, Unlock);
    states, steps := Extend(states, steps, Inner(false));
    states, steps := Extend(states, steps, Load);
  }

  lemma StartOf(s: State, handlers: nat) returns (states: seq<State>, steps: seq<Step>)
    requires s == Init(handlers, s.context)
    ensures IsRun(states, steps) && |states| == |steps| + 1 && states[|steps|] == s
  {
    states, steps := [s], [];
  }

  /** With two handlers a `request` can finish while the race sleeps un-woken: the first handler has
      taken the waker and not yet invoked it, so the second finds an empty slot. */
  lemma SecondRequestCanFinishFirst(context: Waker) returns (states: seq<State>, steps: seq<Step>)
    ensures IsRun(states, steps)
    ensures var s := states[|steps|];
            s.phase.Suspended? && !s.woken && s.requests == [Holding(Some(context)), Finished]
  {
    hide IsRun;
    states, steps := SuspendedRun(2, context);
    assert seq(2, _ => Idle) == [Idle, Idle];
    states, steps := Extend(states, steps, Advance(0));
    states, steps := Extend(states, steps, Advance(0));
    states, steps := Extend(states, steps, Advance(0));
    states, steps := Extend(states, steps, Advance(0));
    assert states[|steps|].requests == [Holding(Some(context)), Idle];
    states, steps := Extend(states, steps, Advance(1));
    states, steps := Extend(states, steps, Advance(1));
    states, steps := Extend(states, steps, Advance(1));
    states, steps := Extend(states, steps, Advance(1));
    states, steps := Extend(states, steps, Advance(1));
  }
}
