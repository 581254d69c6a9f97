/** Scratch accounting over whole histories: any number of writers and texts of one meter, opened,
    written, finished, failed and dropped in any order, against one saturating counter. */
module ScratchHistory {
  import opened Wrappers

  const CHUNK: nat := 64 * 1024

  /** What became of one scratch writer: still writing, turned into a text, or dropped. */
  datatype Holder =
    | Writing(reserved: nat, failed: bool)
    | Holding(reserved: nat)
    | Gone

  /** Every holder ever opened, by ticket, and the meter's counter. */
  datatype Scratch = Scratch(holders: seq<Holder>, retained: nat)

  datatype Event =
    | Opened
    | Written(ticket: nat, length: nat, canceled: bool, allocates: bool)
    | Finished(ticket: nat, accepted: bool)
    | Dropped(ticket: nat)

  function Reserved(h: Holder): nat {
    if h.Gone? then 0 else h.reserved
  }

  /** Bytes held by everything alive. */
  function Live(holders: seq<Holder>): nat {
    if holders == [] then 0 else Live(holders[..|holders| - 1]) + Reserved(holders[|holders| - 1])
  }

  predicate Possible(holders: seq<Holder>, event: Event) {
    match event
    case Opened => true
    case Written(t, _, _, _) => t < |holders| && holders[t].Writing?
    case Finished(t, _) => t < |holders| && holders[t].Writing?
    case Dropped(t) => t < |holders| && !holders[t].Gone?
  }

  /** `release_scratch` on behalf of one holder. */
  function Released(s: Scratch, t: nat): Scratch
    requires t < |s.holders|
  {
    Scratch(s.holders[t := Gone], SatSub(s.retained, Reserved(s.holders[t])))
  }

  /** One write: a failed writer stays failed, and an accepted chunk is charged to the counter. No
      allocation takes a buffer past `isize::MAX`. */
  function AfterWrite(limit: nat, s: Scratch, t: nat, length: nat, canceled: bool, allocates: bool): Scratch
    requires t < |s.holders| && s.holders[t].Writing?
  {
    var h, n := s.holders[t], Min(length, CHUNK);
    if h.failed then s
    else if canceled then s.(holders := s.holders[t := h.(failed := true)])
    else if length == 0 then s
    else if SatAdd(s.retained, n) > limit || !allocates || h.reserved + n > ISIZE_MAX
    then s.(holders := s.holders[t := h.(failed := true)])
    else Scratch(s.holders[t := h.(reserved := h.reserved + n)], SatAdd(s.retained, n))
  }

  function After(limit: nat, s: Scratch, event: Event): Scratch {
    if !Possible(s.holders, event) then s
    else match event
      case Opened => s.(holders := s.holders + [Writing(0, false)])
      case Written(t, length, canceled, allocates) => AfterWrite(limit, s, t, length, canceled, allocates)
      case Finished(t, accepted) =>
        if accepted && !s.holders[t].failed then s.(holders := s.holders[t := Holding(s.holders[t].reserved)])
        else Released(s, t)
      case Dropped(t) => Released(s, t)
  }

  function Replay(limit: nat, script: seq<Event>): Scratch {
    if script == [] then Scratch([], 0) else After(limit, Replay(limit, script[..|script| - 1]), script[|script| - 1])
  }

  lemma ReplaySnoc(limit: nat, script: seq<Event>, event: Event)
    ensures Replay(limit, script + [event]) == After(limit, Replay(limit, script), event)
  {
    assert (script + [event])[..|script|] == script;
  }

  lemma {:induction false} LiveUpdate(holders: seq<Holder>, t: nat, h: Holder)
    requires t < |holders|
    ensures Live(holders[t := h]) + Reserved(holders[t]) == Live(holders) + Reserved(h)
    ensures Reserved(holders[t]) <= Live(holders)
  {
    var n := |holders| - 1;
    if t == n {
      assert holders[t := h][..n] == holders[..n];
    } else {
      assert holders[t := h][..n] == holders[..n][t := h];
      LiveUpdate(holders[..n], t, h);
    }
  }

  lemma LiveOpened(holders: seq<Holder>)
    ensures Live(holders + [Writing(0, false)]) == Live(holders)
  {
    assert (holders + [Writing(0, false)])[..|holders|] == holders;
  }

  /** The counter never exceeds its limit or what is alive, and equals what is alive under any
      limit below `u64::MAX`. */
  ghost predicate Balanced(limit: nat, s: Scratch) {
    s.retained <= limit && s.retained <= Live(s.holders) && (limit < U64_MAX ==> s.retained == Live(s.holders))
  }

  lemma AfterBalances(limit: nat, s: Scratch, event: Event)
    requires limit <= U64_MAX && Balanced(limit, s)
    ensures Balanced(limit, After(limit, s, event))
    ensures s.retained == Live(s.holders) && Live(After(limit, s, event).holders) <= U64_MAX ==>
              After(limit, s, event).retained == Live(After(limit, s, event).holders)
  {
    hide Live;
    LiveOpened(s.holders);
    if Possible(s.holders, event) && !event.Opened? {
      var t := event.ticket;
      LiveUpdate(s.holders, t, Gone);
      LiveUpdate(s.holders, t, Holding(Reserved(s.holders[t])));
      if event.Written? {
        var h, n := s.holders[t], Min(event.length, CHUNK);
        LiveUpdate(s.holders, t, h.(failed := true));
        LiveUpdate(s.holders, t, h.(reserved := h.reserved + n));
      }
    }
  }

  lemma {:induction false} EveryScriptBalances(limit: nat, script: seq<Event>)
    requires limit <= U64_MAX
    ensures Balanced(limit, Replay(limit, script))
  {
    hide After, Balanced;
    if script == [] {
      StartBalances(limit);
    } else {
      EveryScriptBalances(limit, script[..|script| - 1]);
      AfterBalances(limit, Replay(limit, script[..|script| - 1]), script[|script| - 1]);
    }
  }

  lemma StartBalances(limit: nat)
    ensures Balanced(limit, Scratch([], 0))
  {
  }

  lemma {:induction false} GoneHoldNothing(holders: seq<Holder>)
    requires forall t :: 0 <= t < |holders| ==> holders[t].Gone?
    ensures Live(holders) == 0
  {
    if holders != [] { GoneHoldNothing(holders[..|holders| - 1]); }
  }

  /** Whatever happened, once every writer and text has gone nothing is retained. */
  lemma AllGoneRetainsNothing(limit: nat, script: seq<Event>)
    requires limit <= U64_MAX
    requires forall t :: 0 <= t < |Replay(limit, script).holders| ==> Replay(limit, script).holders[t].Gone?
    ensures Replay(limit, script).retained == 0
  {
    EveryScriptBalances(limit, script);
    GoneHoldNothing(Replay(limit, script).holders);
  }

  // ------------------------------------------------------- one address space

  /** At every point of the script what is alive fits one address space, as the buffers of a process
      do: they are disjoint ranges of it. */
  ghost predicate FitsMemory(limit: nat, script: seq<Event>) {
    forall k :: 0 <= k <= |script| ==> Live(Replay(limit, script[..k]).holders) <= U64_MAX
  }

  lemma PrefixFits(limit: nat, script: seq<Event>, k: nat)
    requires FitsMemory(limit, script) && k <= |script|
    ensures FitsMemory(limit, script[..k]) && Live(Replay(limit, script[..k]).holders) <= U64_MAX
  {
    hide Replay, Live;
    forall j | 0 <= j <= k ensures Live(Replay(limit, script[..k][..j]).holders) <= U64_MAX {
      assert script[..k][..j] == script[..j];
    }
  }

  /** Under every limit, `u64::MAX` included: retained scratch is the sum of the live reservations,
      and so stays within the limit, after any script whose live bytes fit one address space. */
  lemma {:induction false} FittingScriptBalances(limit: nat, script: seq<Event>)
    requires limit <= U64_MAX && FitsMemory(limit, script)
    ensures Replay(limit, script).retained == Live(Replay(limit, script).holders) <= limit
  {
    EveryScriptBalances(limit, script);
    hide After, Balanced, FitsMemory;
    if script != [] {
      var front := script[..|script| - 1];
      PrefixFits(limit, script, |front|);
      PrefixFits(limit, script, |script|);
      assert script[..|script|] == script;
      FittingScriptBalances(limit, front);
      EveryScriptBalances(limit, front);
      AfterBalances(limit, Replay(limit, front), script[|front|]);
    }
  }

  /** A limit below `u64::MAX` sees to it. */
  lemma LimitKeepsMemory(limit: nat, script: seq<Event>)
    requires limit < U64_MAX
    ensures FitsMemory(limit, script)
  {
    hide Replay, Live;
    forall k | 0 <= k <= |script| ensures Live(Replay(limit, script[..k]).holders) <= U64_MAX {
      EveryScriptBalances(limit, script[..k]);
    }
  }

  /** The condition is exact: retained scratch is the live sum all along a script if and only if the
      live bytes fit one address space all along it. */
  lemma BalancesExactly(limit: nat, script: seq<Event>)
    requires limit <= U64_MAX
    ensures (forall k :: 0 <= k <= |script| ==>
               Replay(limit, script[..k]).retained == Live(Replay(limit, script[..k]).holders))
       <==> FitsMemory(limit, script)
  {
    hide Replay, Live;
    forall k | 0 <= k <= |script|
      ensures Replay(limit, script[..k]).retained <= U64_MAX
      ensures FitsMemory(limit, script) ==>
                Replay(limit, script[..k]).retained == Live(Replay(limit, script[..k]).holders)
    {
      EveryScriptBalances(limit, script[..k]);
      if FitsMemory(limit, script) {
        PrefixFits(limit, script, k);
        FittingScriptBalances(limit, script[..k]);
      }
    }
  }

  /** A release never has more to give back than is retained, so the saturating subtraction is
      exact. */
  lemma ReleaseIsExact(limit: nat, script: seq<Event>, t: nat)
    requires limit <= U64_MAX && (limit < U64_MAX || FitsMemory(limit, script))
    requires t < |Replay(limit, script).holders|
    ensures Reserved(Replay(limit, script).holders[t]) <= Replay(limit, script).retained
  {
    if limit < U64_MAX { LimitKeepsMemory(limit, script); }
    FittingScriptBalances(limit, script);
    LiveUpdate(Replay(limit, script).holders, t, Gone);
  }
}
