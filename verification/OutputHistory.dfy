/** Returned-output accounting over whole histories: direct records and buffer commits of one meter,
    canceled and refused ones included, in any order, against one saturating total. */
module OutputHistory {
  import opened Wrappers

  /** One call on the meter. A commit brings the total its buffer was opened at, the bytes in the
      buffer, and whether they are complete and no checkpoint sees cancellation. */
  datatype OutputEvent =
    | Recorded(bytes: nat, canceled: bool)
    | Committed(starting: nat, bytes: nat, ready: bool)

  /** The total, every length that was charged to it, and the lengths that came back accepted. */
  datatype Output = Output(generated: nat, charged: seq<nat>, returned: seq<nat>)

  function Sum(lengths: seq<nat>): nat {
    if lengths == [] then 0 else Sum(lengths[..|lengths| - 1]) + lengths[|lengths| - 1]
  }

  /** `record` past its checkpoint: the total moves before it is checked. */
  function Charge(limit: nat, o: Output, bytes: nat): Output {
    var total := SatAdd(o.generated, bytes);
    Output(total, o.charged + [bytes], if total <= limit then o.returned + [bytes] else o.returned)
  }

  function AfterOutput(limit: nat, o: Output, event: OutputEvent): Output {
    match event
    case Recorded(bytes, canceled) => if canceled then o else Charge(limit, o, bytes)
    case Committed(starting, bytes, ready) => if ready && starting == o.generated then Charge(limit, o, bytes) else o
  }

  function ReplayOutputs(limit: nat, events: seq<OutputEvent>): Output {
    if events == [] then Output(0, [], [])
    else AfterOutput(limit, ReplayOutputs(limit, events[..|events| - 1]), events[|events| - 1])
  }

  lemma ReplayOutputsSnoc(limit: nat, events: seq<OutputEvent>, event: OutputEvent)
    ensures ReplayOutputs(limit, events + [event]) == AfterOutput(limit, ReplayOutputs(limit, events), event)
  {
    assert (events + [event])[..|events|] == events;
  }

  lemma SumSnoc(lengths: seq<nat>, n: nat)
    ensures Sum(lengths + [n]) == Sum(lengths) + n
  {
    assert (lengths + [n])[..|lengths|] == lengths;
  }

  lemma {:induction false} SumOfPrefix(lengths: seq<nat>, k: nat)
    requires k <= |lengths|
    ensures Sum(lengths[..k]) <= Sum(lengths)
    ensures k < |lengths| ==> Sum(lengths[..k]) + lengths[k] <= Sum(lengths)
  {
    if k < |lengths| {
      var front := lengths[..|lengths| - 1];
      assert front[..k] == lengths[..k];
      SumOfPrefix(front, k);
    } else {
      assert lengths[..k] == lengths;
    }
  }

  // ------------------------------------------------------- what is returned

  /** The longest prefix of the charged lengths that fits the limit. */
  ghost predicate LongestFit(limit: nat, charged: seq<nat>, returned: seq<nat>) {
    && returned <= charged && Sum(returned) <= limit
    && (returned != charged ==> Sum(returned) + charged[|returned|] > limit)
  }

  lemma LongestFitIsUnique(limit: nat, charged: seq<nat>, a: seq<nat>, b: seq<nat>)
    requires LongestFit(limit, charged, a) && LongestFit(limit, charged, b)
    ensures a == b
  {
    if |a| < |b| {
      assert b[..|a|] == a;
      SumOfPrefix(b, |a|);
    } else if |b| < |a| {
      assert a[..|b|] == b;
      SumOfPrefix(a, |b|);
    }
  }

  /** Below `u64::MAX` the longest fitting prefix is returned; at it everything is. */
  ghost predicate Accounted(limit: nat, o: Output) {
    && o.generated == Min(Sum(o.charged), U64_MAX)
    && (if limit < U64_MAX then LongestFit(limit, o.charged, o.returned) else o.returned == o.charged)
  }

  lemma ChargeAccounts(limit: nat, o: Output, bytes: nat)
    requires limit <= U64_MAX && Accounted(limit, o)
    ensures Accounted(limit, Charge(limit, o, bytes))
  {
    hide Sum;
    SumSnoc(o.charged, bytes);
    SumSnoc(o.returned, bytes);
    if o.returned < o.charged {
      assert o.charged[..|o.returned|] == o.returned;
      SumOfPrefix(o.charged, |o.returned|);
    }
  }

  lemma NothingIsAccounted(limit: nat)
    ensures Accounted(limit, Output(0, [], []))
  {
  }

  /** After every history of records and commits the total is the saturated sum of what was charged,
      and what was returned is the longest prefix of it that fits the limit. */
  lemma {:induction false} EveryHistoryIsAccounted(limit: nat, events: seq<OutputEvent>)
    requires limit <= U64_MAX
    ensures Accounted(limit, ReplayOutputs(limit, events))
  {
    hide Accounted, Charge;
    if events == [] {
      NothingIsAccounted(limit);
    } else {
      var before := ReplayOutputs(limit, events[..|events| - 1]);
      EveryHistoryIsAccounted(limit, events[..|events| - 1]);
      ChargeAccounts(limit, before, events[|events| - 1].bytes);
    }
  }

  /** Returned output stays within its limit exactly when the limit is below `u64::MAX` or what was
      charged fits a `u64`; and the total is the sum of the returned lengths exactly when everything
      charged fits the limit. */
  lemma ReturnedWithinLimit(limit: nat, events: seq<OutputEvent>)
    requires limit <= U64_MAX
    ensures var o := ReplayOutputs(limit, events);
            && Sum(o.returned) <= Sum(o.charged)
            && (Sum(o.returned) <= limit <==> limit < U64_MAX || Sum(o.charged) <= U64_MAX)
            && (o.generated == Sum(o.returned) <==> Sum(o.charged) <= limit)
  {
    var o := ReplayOutputs(limit, events);
    EveryHistoryIsAccounted(limit, events);
    hide ReplayOutputs, Sum;
    assert o.charged[..|o.returned|] == o.returned;
    SumOfPrefix(o.charged, |o.returned|);
  }

  /** The next event of a history in sums: either nothing is charged, or its bytes are, and they are
      returned if the moved total is within the limit. */
  lemma RecordedOnce(limit: nat, events: seq<OutputEvent>, event: OutputEvent)
    requires limit <= U64_MAX
    ensures var o, next := ReplayOutputs(limit, events), ReplayOutputs(limit, events + [event]);
            && next == AfterOutput(limit, o, event)
            && (next != o ==> Sum(next.charged) == Sum(o.charged) + event.bytes
                              && next.generated == SatAdd(o.generated, event.bytes)
                              && Sum(next.returned) == Sum(o.returned)
                                 + (if next.generated <= limit then event.bytes else 0))
            && next.generated == Min(Sum(next.charged), U64_MAX) && Sum(next.returned) <= Sum(next.charged)
            && (limit < U64_MAX ==> Sum(next.returned) <= limit)
            && (Sum(next.returned) == Sum(next.charged) ==> next.generated <= limit)
  {
    var o := ReplayOutputs(limit, events);
    ReplayOutputsSnoc(limit, events, event);
    EveryHistoryIsAccounted(limit, events + [event]);
    ReturnedWithinLimit(limit, events + [event]);
    SumSnoc(o.charged, event.bytes);
    SumSnoc(o.returned, event.bytes);
  }

  /** A ready commit at the unmoved total is a record of its bytes; any other changes nothing. */
  lemma CommitIsRecord(limit: nat, events: seq<OutputEvent>, commit: OutputEvent)
    requires commit.Committed?
    ensures ReplayOutputs(limit, events + [commit])
         == if commit.ready && commit.starting == ReplayOutputs(limit, events).generated
            then ReplayOutputs(limit, events + [Recorded(commit.bytes, false)]) else ReplayOutputs(limit, events)
  {
    ReplayOutputsSnoc(limit, events, commit);
    ReplayOutputsSnoc(limit, events, Recorded(commit.bytes, false));
  }

  // ------------------------------------------------------ refused for ever

  lemma {:induction false} TotalNeverFalls(limit: nat, events: seq<OutputEvent>, more: seq<OutputEvent>)
    requires limit <= U64_MAX
    ensures ReplayOutputs(limit, events).generated <= ReplayOutputs(limit, events + more).generated
  {
    EveryHistoryIsAccounted(limit, events + more);
    if more == [] {
      assert events + more == events;
    } else {
      var front := more[..|more| - 1];
      assert events + more == (events + front) + [more[|more| - 1]];
      TotalNeverFalls(limit, events, front);
      EveryHistoryIsAccounted(limit, events + front);
      ReplayOutputsSnoc(limit, events + front, more[|more| - 1]);
    }
  }

  /** Once the total is over its limit nothing is returned any more, not even an empty output. */
  lemma {:induction false} OverdrawnReturnsNothing(limit: nat, events: seq<OutputEvent>, more: seq<OutputEvent>)
    requires limit <= U64_MAX && ReplayOutputs(limit, events).generated > limit
    ensures ReplayOutputs(limit, events + more).returned == ReplayOutputs(limit, events).returned
  {
    if more == [] {
      assert events + more == events;
    } else {
      var front := more[..|more| - 1];
      assert events + more == (events + front) + [more[|more| - 1]];
      OverdrawnReturnsNothing(limit, events, front);
      TotalNeverFalls(limit, events, more);
      ReplayOutputsSnoc(limit, events + front, more[|more| - 1]);
    }
  }

  /** A buffer opened before another output moved the total can never be committed. */
  lemma StaleForEver(limit: nat, events: seq<OutputEvent>, more: seq<OutputEvent>, commit: OutputEvent)
    requires limit <= U64_MAX && commit.Committed? && commit.starting < ReplayOutputs(limit, events).generated
    ensures ReplayOutputs(limit, events + more + [commit]) == ReplayOutputs(limit, events + more)
  {
    TotalNeverFalls(limit, events, more);
    ReplayOutputsSnoc(limit, events + more, commit);
  }
}
