/** Exact-line matching of a snippet in a source: overlapping occurrences, the best misaligned
    candidate, and the work budgets both searches draw on. */
module Matching {
  import opened Wrappers
  import opened Normalize
  import opened Lines

  type Text = seq<seq<Byte>>

  // --------------------------------------------------------------- work budgets

  /** A saturating counter under a limit after `cost` more units: `None` when a unit crossed the
      limit. A limit of `u64::MAX` is never crossed. */
  function Charged(before: nat, cost: nat, limit: nat): Option<nat> {
    if before + cost <= limit then Some(before + cost)
    else if limit >= U64_MAX then Some(U64_MAX)
    else None
  }

  lemma ChargedInSteps(before: nat, a: nat, b: nat, limit: nat)
    requires before <= limit <= U64_MAX
    ensures Charged(before, a + b, limit) == match Charged(before, a, limit)
                                             case Some(middle) => Charged(middle, b, limit)
                                             case None => None
  {
  }

  lemma ChargedWithin(before: nat, cost: nat, limit: nat)
    requires before <= limit <= U64_MAX
    ensures Charged(before, cost, limit).Some? ==> Charged(before, cost, limit).value <= limit
  {
  }

  /** A reading of the two work counters and their limits. */
  datatype Ledger = Ledger(compared: nat, hit: nat, limits: MatchingLimits)

  class MatchingUsage {
    const limits: MatchingLimits
    var lineComparisons: nat
    var occurrenceCandidates: nat

    constructor (limits: MatchingLimits)
      ensures this.limits == limits && lineComparisons == 0 && occurrenceCandidates == 0
    {
      this.limits := limits;
      lineComparisons := 0;
      occurrenceCandidates := 0;
    }

    /** Both limits are `u64`s and neither has been crossed. */
    predicate Valid()
      reads this
    {
      lineComparisons <= limits.lineComparisons <= U64_MAX
      && occurrenceCandidates <= limits.occurrenceCandidates <= U64_MAX
    }

    function Reading(): Ledger
      reads this
    {
      Ledger(lineComparisons, occurrenceCandidates, limits)
    }

    method RecordLineComparison(file: CatalogPath) returns (r: Result<(), LimitExceeded>)
      requires Valid()
      modifies this`lineComparisons
      ensures r.Success? <==> old(lineComparisons) + 1 <= limits.lineComparisons || limits.lineComparisons == U64_MAX
      ensures r.Failure? ==>
                r.error == LimitExceeded(MatchingLineComparisons, limits.lineComparisons, limits.lineComparisons + 1, Some(file))
      ensures match Charged(old(lineComparisons), 1, limits.lineComparisons)
              case Some(n) => r == Success(()) && lineComparisons == n
              case None => r == Failure(ComparisonOverrun(limits, file))
    {
      lineComparisons := SatAdd(lineComparisons, 1);
      if lineComparisons > limits.lineComparisons {
        return Failure(LimitExceeded(MatchingLineComparisons, limits.lineComparisons, lineComparisons, Some(file)));
      }
      r := Success(());
    }

    method RecordOccurrenceCandidate(file: CatalogPath) returns (r: Result<(), LimitExceeded>)
      requires Valid()
      modifies this`occurrenceCandidates
      ensures r.Success? <==> old(occurrenceCandidates) + 1 <= limits.occurrenceCandidates || limits.occurrenceCandidates == U64_MAX
      ensures r.Failure? ==>
                r.error == LimitExceeded(OccurrenceCandidateCount, limits.occurrenceCandidates, limits.occurrenceCandidates + 1, Some(file))
      ensures match Charged(old(occurrenceCandidates), 1, limits.occurrenceCandidates)
              case Some(n) => r == Success(()) && occurrenceCandidates == n
              case None => r == Failure(OccurrenceOverrun(limits, file))
    {
      occurrenceCandidates := SatAdd(occurrenceCandidates, 1);
      if occurrenceCandidates > limits.occurrenceCandidates {
        return Failure(
            LimitExceeded(OccurrenceCandidateCount, limits.occurrenceCandidates, occurrenceCandidates, Some(file)));
      }
      r := Success(());
    }
  }

  function ComparisonOverrun(limits: MatchingLimits, file: CatalogPath): LimitExceeded {
    LimitExceeded(MatchingLineComparisons, limits.lineComparisons, limits.lineComparisons + 1, Some(file))
  }

  function OccurrenceOverrun(limits: MatchingLimits, file: CatalogPath): LimitExceeded {
    LimitExceeded(OccurrenceCandidateCount, limits.occurrenceCandidates, limits.occurrenceCandidates + 1, Some(file))
  }

  // ------------------------------------------------------------ one alignment

  predicate Room(e: Text, s: Text, start: nat) {
    e != [] && start + |e| <= |s|
  }

  /** The snippet occurs at `start`. */
  predicate Occurs(e: Text, s: Text, start: nat) {
    Room(e, s, start) && s[start..start + |e|] == e
  }

  /** Line `i` of the snippet, laid at `start`, is the source line beneath it. */
  ghost predicate LineAgrees(e: Text, s: Text, start: nat, i: nat) {
    i < |e| && start + i < |s| && s[start + i] == e[i]
  }

  lemma OccursMeans(e: Text, s: Text, start: nat)
    ensures Occurs(e, s, start) <==> e != [] && forall i: nat :: i < |e| ==> LineAgrees(e, s, start, i)
  {
    if Occurs(e, s, start) {
      forall i: nat | i < |e| ensures LineAgrees(e, s, start, i) { assert s[start..start + |e|][i] == s[start + i]; }
    }
    if e != [] && forall i: nat :: i < |e| ==> LineAgrees(e, s, start, i) {
      assert LineAgrees(e, s, start, |e| - 1);
      forall i: nat | i < |e| ensures s[start..start + |e|][i] == e[i] { assert LineAgrees(e, s, start, i); }
    }
  }

  /** Comparisons from line `i` up to and including the first that differs. */
  function CostFrom(e: Text, s: Text, start: nat, i: nat): nat
    requires start + |e| <= |s|
    decreases |e| - i
  {
    if i >= |e| then 0 else if e[i] != s[start + i] then 1 else 1 + CostFrom(e, s, start, i + 1)
  }

  function Cost(e: Text, s: Text, start: nat): nat {
    if Room(e, s, start) then CostFrom(e, s, start, 0) else 0
  }

  lemma {:induction false} CostFromMeans(e: Text, s: Text, start: nat, i: nat)
    requires start + |e| <= |s| && i <= |e|
    ensures var n := CostFrom(e, s, start, i);
            && i + n <= |e| && (i < |e| ==> n > 0)
            && (forall j :: i <= j < i + n - 1 ==> e[j] == s[start + j])
            && (i + n < |e| ==> n > 0 && e[i + n - 1] != s[start + i + n - 1])
    decreases |e| - i
  {
    if i < |e| && e[i] == s[start + i] { CostFromMeans(e, s, start, i + 1); }
  }

  /** At each start where the snippet has room, every line up to the first difference is compared once,
      the differing one included; elsewhere none is. */
  lemma CostMeans(e: Text, s: Text, start: nat)
    ensures var n := Cost(e, s, start);
            if e == [] || start + |e| > |s| then n == 0
            else && 1 <= n <= |e| && (forall j :: 0 <= j < n - 1 ==> e[j] == s[start + j])
                 && (n < |e| ==> e[n - 1] != s[start + n - 1])
  {
    if Room(e, s, start) { CostFromMeans(e, s, start, 0); }
  }

  /** `matches_at`: one comparison is charged per line looked at. */
  method MatchesAt(expected: Normalized, source: Normalized, start: nat, file: CatalogPath, usage: MatchingUsage)
    returns (r: Result<bool, LimitExceeded>)
    requires usage.Valid()
    modifies usage`lineComparisons
    ensures match Charged(old(usage.lineComparisons), Cost(LinesOf(expected), LinesOf(source), start),
                          usage.limits.lineComparisons)
            case Some(n) =>
              r == Success(Occurs(LinesOf(expected), LinesOf(source), start)) && usage.lineComparisons == n
            case None => r == Failure(ComparisonOverrun(usage.limits, file))
  {
    hide LineAt, NumLines, LinesOf, IsEmpty, Charged;
    IndexReadsLines(expected);
    IndexReadsLines(source);
    ghost var e, s, limit := LinesOf(expected), LinesOf(source), usage.limits.lineComparisons;
    ghost var first := usage.lineComparisons;
    ChargeNothing(first, limit);
    if NumLines(expected) == 0 || start > NumLines(source)
       || NumLines(expected) > NumLines(source) - start {
      return Success(false);
    }
    var i := 0;
    while i < NumLines(expected)
      invariant 0 <= i <= |e| && usage.Valid()
      invariant Charged(first, CostFrom(e, s, start, 0), limit)
             == Charged(usage.lineComparisons, CostFrom(e, s, start, i), limit)
      invariant forall j :: 0 <= j < i ==> e[j] == s[start + j]
    {
      ghost var before := usage.lineComparisons;
      ChargedInSteps(before, 1, CostFrom(e, s, start, i) - 1, limit);
      ChargedWithin(before, 1, limit);
      var recorded := usage.RecordLineComparison(file);
      if recorded.Failure? { return Failure(recorded.error); }
      ChargeNothing(usage.lineComparisons, limit);
      if LineAt(expected, i) != LineAt(source, start + i) {
        assert s[start..start + |e|][i] == s[start + i];
        return Success(false);
      }
      i := i + 1;
    }
    ChargeNothing(usage.lineComparisons, limit);
    assert s[start..start + |e|] == e;
    r := Success(true);
  }

  lemma ChargeNothing(before: nat, limit: nat)
    requires before <= limit
    ensures Charged(before, 0, limit) == Some(before)
  {
  }

  // ---------------------------------------------------------------- occurrences

  datatype Occurrence = AtLeastOne | ExactlyOne

  /** One-based, inclusive. */
  datatype Span = Span(first: nat, last: nat)

  datatype Evaluation =
    | Satisfied
    | Missing
    | OccurrenceMismatch(actual: nat, spans: seq<Span>, truncated: bool)

  /** Starts below `n` where the snippet occurs. */
  function Hits(e: Text, s: Text, n: nat): (r: seq<nat>)
    ensures forall k :: 0 <= k < |r| ==> r[k] < n
  {
    if n == 0 then [] else Hits(e, s, n - 1) + (if Occurs(e, s, n - 1) then [n - 1] else [])
  }

  /** Every start is found, overlapping ones included, once and in order. */
  lemma {:induction false} HitsAreOccurrences(e: Text, s: Text, n: nat)
    ensures forall i, j :: 0 <= i < j < |Hits(e, s, n)| ==> Hits(e, s, n)[i] < Hits(e, s, n)[j]
    ensures forall start: nat :: start in Hits(e, s, n) <==> start < n && Occurs(e, s, start)
  {
    if n > 0 { HitsAreOccurrences(e, s, n - 1); }
  }

  lemma {:induction false} HitsExtend(e: Text, s: Text, m: nat, n: nat)
    requires m <= n
    ensures Hits(e, s, m) <= Hits(e, s, n)
    ensures forall k :: |Hits(e, s, m)| <= k < |Hits(e, s, n)| ==> m <= Hits(e, s, n)[k]
    decreases n
  {
    if m < n { HitsExtend(e, s, m, n - 1); }
  }

  function SpanOf(e: Text, start: nat): Span {
    Span(start + 1, start + |e|)
  }

  function Spans(e: Text, starts: seq<nat>): (r: seq<Span>)
    ensures |r| == |starts|
    ensures forall k :: 0 <= k < |r| ==> r[k] == SpanOf(e, starts[k])
  {
    seq(|starts|, k requires 0 <= k < |starts| => SpanOf(e, starts[k]))
  }

  /** What a check of one sketch must say: any occurrence will do, or exactly one, counting
      overlapping ones; a mismatch lists the first `retained` of them. */
  function Evaluate(e: Text, s: Text, occurrence: Occurrence, retained: nat): Evaluation {
    var hits := Hits(e, s, |s|);
    if hits == [] then Missing
    else if occurrence.AtLeastOne? || |hits| == 1 then Satisfied
    else OccurrenceMismatch(|hits|, Spans(e, hits[..Min(retained, |hits|)]), retained < |hits|)
  }

  /** Starts the scan visits: it stops after the first hit when one is enough. */
  function Visited(e: Text, s: Text, occurrence: Occurrence): nat {
    var hits := Hits(e, s, |s|);
    if occurrence.AtLeastOne? && hits != [] then hits[0] + 1 else |s|
  }

  /** Line comparisons spent on the first `n` starts. */
  function Compared(e: Text, s: Text, n: nat): nat {
    if n == 0 then 0 else Compared(e, s, n - 1) + Cost(e, s, n - 1)
  }

  lemma {:induction false} ComparedGrows(e: Text, s: Text, m: nat, n: nat)
    requires m <= n
    ensures Compared(e, s, m) <= Compared(e, s, n) && |Hits(e, s, m)| <= |Hits(e, s, n)|
    decreases n
  {
    if m < n { ComparedGrows(e, s, m, n - 1); }
  }

  predicate Affordable(ledger: Ledger, e: Text, s: Text, compared: nat, hits: nat) {
    Charged(ledger.compared, Compared(e, s, compared), ledger.limits.lineComparisons).Some?
    && Charged(ledger.hit, |Hits(e, s, hits)|, ledger.limits.occurrenceCandidates).Some?
  }

  /** The budget that gives out first, and at which start. */
  predicate Overruns(ledger: Ledger, e: Text, s: Text, n: nat, file: CatalogPath, error: LimitExceeded) {
    Affordable(ledger, e, s, n, n) &&
    if error == ComparisonOverrun(ledger.limits, file) then !Affordable(ledger, e, s, n + 1, n)
    else error == OccurrenceOverrun(ledger.limits, file)
         && Affordable(ledger, e, s, n + 1, n) && !Affordable(ledger, e, s, n + 1, n + 1)
  }

  /** Where a scan stands before looking at `start`. */
  ghost predicate Scanning(ledger: Ledger, e: Text, s: Text, occurrence: Occurrence, retained: nat, start: nat,
      after: Ledger, actual: nat, spans: seq<Span>)
  {
    && start <= |s| && after.limits == ledger.limits && Within(ledger) && Within(after)
    && Charged(ledger.compared, Compared(e, s, start), ledger.limits.lineComparisons) == Some(after.compared)
    && Charged(ledger.hit, |Hits(e, s, start)|, ledger.limits.occurrenceCandidates) == Some(after.hit)
    && actual == |Hits(e, s, start)| && (occurrence.AtLeastOne? ==> actual == 0)
    && spans == Spans(e, Hits(e, s, start)[..Min(retained, actual)])
  }

  predicate Within(ledger: Ledger) {
    ledger.compared <= ledger.limits.lineComparisons <= U64_MAX
    && ledger.hit <= ledger.limits.occurrenceCandidates <= U64_MAX
  }

  /** The result of a whole scan: what `Evaluate` says and exactly the work it took, if the budgets
      allow all of it; otherwise the budget that gives out first. */
  ghost predicate ScanResult(ledger: Ledger, e: Text, s: Text, occurrence: Occurrence, retained: nat,
      file: CatalogPath, after: Ledger, r: Result<Evaluation, LimitExceeded>)
  {
    var stop := Visited(e, s, occurrence);
    if Affordable(ledger, e, s, stop, stop) then
      && r == Success(Evaluate(e, s, occurrence, retained))
      && Charged(ledger.compared, Compared(e, s, stop), ledger.limits.lineComparisons) == Some(after.compared)
      && Charged(ledger.hit, |Hits(e, s, stop)|, ledger.limits.occurrenceCandidates) == Some(after.hit)
    else
      r.Failure? && exists n: nat :: n < stop && Overruns(ledger, e, s, n, file, r.error)
  }

  lemma ScanBegins(ledger: Ledger, e: Text, s: Text, occurrence: Occurrence, retained: nat)
    requires Within(ledger)
    ensures Scanning(ledger, e, s, occurrence, retained, 0, ledger, 0, [])
  {
  }

  lemma StartIsVisited(e: Text, s: Text, occurrence: Occurrence, start: nat)
    requires start < |s| && (occurrence.AtLeastOne? ==> Hits(e, s, start) == [])
    ensures start < Visited(e, s, occurrence)
    ensures occurrence.AtLeastOne? && Occurs(e, s, start) ==> Visited(e, s, occurrence) == start + 1
  {
    HitsExtend(e, s, start, |s|);
    HitsExtend(e, s, start + 1, |s|);
  }

  lemma ComparisonFails(ledger: Ledger, e: Text, s: Text, occurrence: Occurrence, retained: nat, start: nat,
      after: Ledger, actual: nat, spans: seq<Span>, file: CatalogPath)
    requires Scanning(ledger, e, s, occurrence, retained, start, after, actual, spans) && start < |s|
    requires Charged(after.compared, Cost(e, s, start), ledger.limits.lineComparisons).None?
    ensures forall end ::
              ScanResult(ledger, e, s, occurrence, retained, file, end, Failure(ComparisonOverrun(ledger.limits, file)))
  {
    hide Cost, Occurs, Charged, Visited;
    ChargedInSteps(ledger.compared, Compared(e, s, start), Cost(e, s, start), ledger.limits.lineComparisons);
    StartIsVisited(e, s, occurrence, start);
    var stop := Visited(e, s, occurrence);
    StaysUnaffordable(ledger, e, s, start + 1, start, stop, stop);
    assert Overruns(ledger, e, s, start, file, ComparisonOverrun(ledger.limits, file));
  }

  lemma HitFails(ledger: Ledger, e: Text, s: Text, occurrence: Occurrence, retained: nat, start: nat,
      after: Ledger, actual: nat, spans: seq<Span>, file: CatalogPath)
    requires Scanning(ledger, e, s, occurrence, retained, start, after, actual, spans) && start < |s|
    requires Charged(after.compared, Cost(e, s, start), ledger.limits.lineComparisons).Some?
    requires Occurs(e, s, start) && Charged(after.hit, 1, ledger.limits.occurrenceCandidates).None?
    ensures forall end ::
              ScanResult(ledger, e, s, occurrence, retained, file, end, Failure(OccurrenceOverrun(ledger.limits, file)))
  {
    hide Cost, Occurs, Charged, Visited;
    ChargedInSteps(ledger.compared, Compared(e, s, start), Cost(e, s, start), ledger.limits.lineComparisons);
    ChargedInSteps(ledger.hit, actual, 1, ledger.limits.occurrenceCandidates);
    StartIsVisited(e, s, occurrence, start);
    var stop := Visited(e, s, occurrence);
    StaysUnaffordable(ledger, e, s, start + 1, start + 1, stop, stop);
    assert Overruns(ledger, e, s, start, file, OccurrenceOverrun(ledger.limits, file));
  }

  lemma StaysUnaffordable(ledger: Ledger, e: Text, s: Text, c: nat, h: nat, c': nat, h': nat)
    requires c <= c' && h <= h' && !Affordable(ledger, e, s, c, h)
    ensures !Affordable(ledger, e, s, c', h')
  {
    ComparedGrows(e, s, c, c');
    ComparedGrows(e, s, h, h');
  }

  lemma ScanMisses(ledger: Ledger, e: Text, s: Text, occurrence: Occurrence, retained: nat, start: nat,
      after: Ledger, actual: nat, spans: seq<Span>, compared: nat)
    requires Scanning(ledger, e, s, occurrence, retained, start, after, actual, spans) && start < |s|
    requires Charged(after.compared, Cost(e, s, start), ledger.limits.lineComparisons) == Some(compared)
    requires !Occurs(e, s, start)
    ensures Scanning(ledger, e, s, occurrence, retained, start + 1, after.(compared := compared), actual, spans)
  {
  }

  lemma ScanHits(ledger: Ledger, e: Text, s: Text, occurrence: Occurrence, retained: nat, start: nat,
      after: Ledger, actual: nat, spans: seq<Span>, compared: nat, hit: nat)
    requires Scanning(ledger, e, s, occurrence, retained, start, after, actual, spans) && start < |s|
    requires Charged(after.compared, Cost(e, s, start), ledger.limits.lineComparisons) == Some(compared)
    requires Occurs(e, s, start) && Charged(after.hit, 1, ledger.limits.occurrenceCandidates) == Some(hit)
    ensures var end := after.(compared := compared, hit := hit);
            if occurrence.AtLeastOne? then
              forall file :: ScanResult(ledger, e, s, occurrence, retained, file, end, Success(Satisfied))
            else
              Scanning(ledger, e, s, occurrence, retained, start + 1, end, actual + 1,
                       if |spans| < retained then spans + [SpanOf(e, start)] else spans)
  {
    hide Cost, Occurs, Charged, Visited;
    ChargedInSteps(ledger.compared, Compared(e, s, start), Cost(e, s, start), ledger.limits.lineComparisons);
    ChargedInSteps(ledger.hit, actual, 1, ledger.limits.occurrenceCandidates);
    ChargedWithin(after.compared, Cost(e, s, start), ledger.limits.lineComparisons);
    ChargedWithin(after.hit, 1, ledger.limits.occurrenceCandidates);
    StartIsVisited(e, s, occurrence, start);
    HitsExtend(e, s, start + 1, |s|);
  }

  lemma ScanEnds(ledger: Ledger, e: Text, s: Text, occurrence: Occurrence, retained: nat, after: Ledger,
      actual: nat, spans: seq<Span>, file: CatalogPath)
    requires Scanning(ledger, e, s, occurrence, retained, |s|, after, actual, spans)
    ensures ScanResult(ledger, e, s, occurrence, retained, file, after, Success(
                       if actual == 0 then Missing else if actual == 1 then Satisfied
                       else OccurrenceMismatch(actual, spans, actual > |spans|)))
  {
  }

  /** `MatchScan::evaluate`. */
  method EvaluateScan(expected: Normalized, source: Normalized, occurrence: Occurrence, retained: nat,
      file: CatalogPath, usage: MatchingUsage)
    returns (r: Result<Evaluation, LimitExceeded>)
    requires usage.Valid()
    modifies usage
    ensures ScanResult(old(usage.Reading()), LinesOf(expected), LinesOf(source), occurrence, retained, file,
                       usage.Reading(), r)
    ensures r.Success? ==> usage.Valid()
  {
    hide LineAt, NumLines, LinesOf, IsEmpty, Charged, Occurs, Cost, Scanning, ScanResult;
    IndexReadsLines(expected);
    IndexReadsLines(source);
    ghost var e, s, ledger := LinesOf(expected), LinesOf(source), usage.Reading();
    var actual: nat, spans: seq<Span>, start := 0, [], 0;
    ScanBegins(ledger, e, s, occurrence, retained);
    while start < NumLines(source)
      invariant 0 <= start <= |s| && usage.Valid()
      invariant Scanning(ledger, e, s, occurrence, retained, start, usage.Reading(), actual, spans)
    {
      ghost var before := usage.Reading();
      ChargedWithin(before.compared, Cost(e, s, start), usage.limits.lineComparisons);
      ChargedWithin(before.hit, 1, usage.limits.occurrenceCandidates);
      var matched := MatchesAt(expected, source, start, file, usage);
      if matched.Failure? {
        ComparisonFails(ledger, e, s, occurrence, retained, start, before, actual, spans, file);
        return Failure(matched.error);
      }
      if matched.value {
        ghost var compared := usage.lineComparisons;
        var recorded := usage.RecordOccurrenceCandidate(file);
        if recorded.Failure? {
          HitFails(ledger, e, s, occurrence, retained, start, before, actual, spans, file);
          return Failure(recorded.error);
        }
        ScanHits(ledger, e, s, occurrence, retained, start, before, actual, spans, compared, usage.occurrenceCandidates);
        if occurrence.AtLeastOne? {
          return Success(Satisfied);
        }
        if |spans| < retained {
          spans := spans + [Span(start + 1, start + NumLines(expected))];
        }
        actual := actual + 1;
      } else {
        ScanMisses(ledger, e, s, occurrence, retained, start, before, actual, spans, usage.lineComparisons);
      }
      start := start + 1;
    }
    ScanEnds(ledger, e, s, occurrence, retained, usage.Reading(), actual, spans, file);
    r := Success(if actual == 0 then Missing else if actual == 1 then Satisfied
                 else OccurrenceMismatch(actual, spans, actual > |spans|));
  }

  // ------------------------------------------------------------- best candidate

  datatype Position = Position(start: nat, end: nat, firstDifference: nat)

  /** Line `i` of the snippet, laid at `start`, agrees with the source line beneath it. */
  predicate Aligned(e: Text, s: Text, start: nat, i: nat)
    requires i < |e|
  {
    start + i < |s| && e[i] == s[start + i]
  }

  /** Agreeing lines among the first `n`. */
  function Score(e: Text, s: Text, start: nat, n: nat): (r: nat)
    requires n <= |e|
    ensures r <= n
  {
    if n == 0 then 0 else Score(e, s, start, n - 1) + (if Aligned(e, s, start, n - 1) then 1 else 0)
  }

  function FullScore(e: Text, s: Text, start: nat): nat {
    Score(e, s, start, |e|)
  }

  function BestStart(e: Text, s: Text, n: nat): (r: nat)
    requires n > 0
    ensures r < n
  {
    if n == 1 then 0
    else
      var best := BestStart(e, s, n - 1);
      if FullScore(e, s, n - 1) > FullScore(e, s, best) then n - 1 else best
  }

  function FirstDifference(e: Text, s: Text, start: nat, i: nat): (r: nat)
    requires i <= |e|
    ensures i <= r <= |e| && (r < |e| ==> !Aligned(e, s, start, r))
    ensures forall j :: i <= j < r ==> Aligned(e, s, start, j)
    decreases |e| - i
  {
    if i == |e| || !Aligned(e, s, start, i) then i else FirstDifference(e, s, start, i + 1)
  }

  function BestCandidate(e: Text, s: Text): Option<Position> {
    if e == [] || s == [] then None
    else
      var start := BestStart(e, s, |s|);
      var difference := FirstDifference(e, s, start, 0);
      if difference == |e| then None else Some(Position(start, Min(start + |e|, |s|), difference))
  }

  /** Snippet lines that agree with the source beneath them when the snippet is laid at `start`. */
  ghost function Agreeing(e: Text, s: Text, start: nat, n: nat): set<nat> {
    set i: nat | i < n && LineAgrees(e, s, start, i)
  }

  lemma {:induction false} ScoreMeans(e: Text, s: Text, start: nat, n: nat)
    requires n <= |e|
    ensures Score(e, s, start, n) == |Agreeing(e, s, start, n)|
  {
    if n > 0 {
      ScoreMeans(e, s, start, n - 1);
      assert Agreeing(e, s, start, n)
          == Agreeing(e, s, start, n - 1) + (if Aligned(e, s, start, n - 1) then {n - 1} else {});
    } else {
      assert Agreeing(e, s, start, 0) == {};
    }
  }

  /** The earliest start of maximal aligned score. */
  ghost predicate EarliestBest(e: Text, s: Text, n: nat, best: nat) {
    && best < n
    && (forall start: nat :: start < n ==> FullScore(e, s, start) <= FullScore(e, s, best))
    && (forall start: nat :: start < best ==> FullScore(e, s, start) < FullScore(e, s, best))
  }

  lemma {:induction false} BestStartIsEarliestBest(e: Text, s: Text, n: nat)
    requires n > 0
    ensures EarliestBest(e, s, n, BestStart(e, s, n))
  {
    if n > 1 { BestStartIsEarliestBest(e, s, n - 1); }
  }

  /** A candidate, read without the algorithm: the earliest best start, the window cut at the end
      of the source, and the first line that does not agree. */
  ghost predicate IsCandidate(e: Text, s: Text, p: Position) {
    && e != [] && s != [] && EarliestBest(e, s, |s|, p.start)
    && p.end == Min(p.start + |e|, |s|)
    && p.firstDifference < |e| && !Aligned(e, s, p.start, p.firstDifference)
    && forall j :: 0 <= j < p.firstDifference ==> Aligned(e, s, p.start, j)
  }

  lemma CandidateIsExactly(e: Text, s: Text, p: Position)
    ensures BestCandidate(e, s) == Some(p) <==> IsCandidate(e, s, p)
  {
    if e != [] && s != [] {
      var best := BestStart(e, s, |s|);
      BestStartIsEarliestBest(e, s, |s|);
      if IsCandidate(e, s, p) {
        assert p.start == best by {
          assert p.start < best ==> FullScore(e, s, best) <= FullScore(e, s, p.start);
        }
        var d := FirstDifference(e, s, best, 0);
        assert d >= p.firstDifference;
      }
    }
  }

  /** A sketch reported missing from a nonempty source always comes with a candidate. */
  lemma MissingHasCandidate(e: Text, s: Text, occurrence: Occurrence, retained: nat)
    requires e != [] && s != [] && Evaluate(e, s, occurrence, retained) == Missing
    ensures BestCandidate(e, s).Some?
  {
    HitsAreOccurrences(e, s, |s|);
    var best := BestStart(e, s, |s|);
    if FirstDifference(e, s, best, 0) == |e| {
      PerfectStartOccurs(e, s, best);
    }
  }

  lemma PerfectStartOccurs(e: Text, s: Text, start: nat)
    requires e != [] && FirstDifference(e, s, start, 0) == |e|
    ensures Occurs(e, s, start)
  {
    assert Aligned(e, s, start, |e| - 1);
    forall j | 0 <= j < |e| ensures s[start..start + |e|][j] == e[j] { assert Aligned(e, s, start, j); }
  }

  function SourceSpan(p: Position): Span {
    Span(p.start + 1, p.end)
  }

  function SourceLine(p: Position): nat {
    p.start + p.firstDifference + 1
  }

  /** The reported span lies in the source, the expected line exists, and the actual line is absent
      exactly when the reported source line is one past the end. */
  lemma CandidateReportsRealLines(expected: Normalized, source: Normalized, p: Position)
    requires BestCandidate(LinesOf(expected), LinesOf(source)) == Some(p)
    ensures 1 <= SourceSpan(p).first <= SourceSpan(p).last <= NumLines(source)
    ensures LineAt(expected, p.firstDifference).Some?
    ensures LineAt(source, p.start + p.firstDifference).None? <==> SourceLine(p) == NumLines(source) + 1
    ensures LineAt(source, p.start + p.firstDifference) != LineAt(expected, p.firstDifference)
  {
    IndexReadsLines(expected);
    IndexReadsLines(source);
    var e, s := LinesOf(expected), LinesOf(source);
    if p.firstDifference > 0 {
      assert Aligned(e, s, p.start, p.firstDifference - 1);
    }
  }

  function Cells(rows: nat, width: nat): nat {
    rows * width
  }

  lemma OneRowLess(rows: nat, width: nat)
    ensures rows > 0 ==> Cells(rows, width) == width + Cells(rows - 1, width)
    ensures rows == 0 || width == 0 ==> Cells(rows, width) == 0
  {
  }

  /** The inner loop of `best_candidate`: one row of comparisons. */
  method ScoreAt(expected: Normalized, source: Normalized, start: nat, file: CatalogPath, usage: MatchingUsage)
    returns (r: Result<nat, LimitExceeded>)
    requires usage.Valid() && !IsEmpty(source)
    modifies usage`lineComparisons
    ensures var e, s := LinesOf(expected), LinesOf(source);
            match Charged(old(usage.lineComparisons), |e|, usage.limits.lineComparisons)
            case Some(n) => r == Success(FullScore(e, s, start)) && usage.lineComparisons == n
            case None => r == Failure(ComparisonOverrun(usage.limits, file))
  {
    hide LineAt, NumLines, LinesOf, IsEmpty, Charged;
    IndexReadsLines(expected);
    IndexReadsLines(source);
    ghost var e, s, limit := LinesOf(expected), LinesOf(source), usage.limits.lineComparisons;
    ghost var first := usage.lineComparisons;
    var score, i := 0, 0;
    while i < NumLines(expected)
      invariant 0 <= i <= |e| && usage.Valid() && score == Score(e, s, start, i)
      invariant Charged(first, |e|, limit) == Charged(usage.lineComparisons, |e| - i, limit)
    {
      ChargedInSteps(usage.lineComparisons, 1, |e| - i - 1, limit);
      ChargedWithin(usage.lineComparisons, 1, limit);
      var recorded := usage.RecordLineComparison(file);
      if recorded.Failure? { return Failure(recorded.error); }
      if LineAt(expected, i) == LineAt(source, start + i) {
        score := score + 1;
      }
      i := i + 1;
    }
    ChargeNothing(usage.lineComparisons, limit);
    r := Success(score);
  }

  /** `MatchScan::best_candidate`: every pair of a source start and a snippet line is charged. */
  method FindBestCandidate(expected: Normalized, source: Normalized, file: CatalogPath, usage: MatchingUsage)
    returns (r: Result<Option<Position>, LimitExceeded>)
    requires usage.Valid()
    modifies usage`lineComparisons
    ensures var e, s := LinesOf(expected), LinesOf(source);
            match Charged(old(usage.lineComparisons), Cells(|s|, |e|), usage.limits.lineComparisons)
            case Some(n) => r == Success(BestCandidate(e, s)) && usage.lineComparisons == n
            case None => r == Failure(ComparisonOverrun(usage.limits, file))
  {
    hide LineAt, NumLines, LinesOf, IsEmpty, Charged, FullScore, Cells;
    IndexReadsLines(expected);
    IndexReadsLines(source);
    ghost var e, s, limit := LinesOf(expected), LinesOf(source), usage.limits.lineComparisons;
    ghost var first := usage.lineComparisons;
    ChargeNothing(first, limit);
    OneRowLess(|s|, |e|);
    if IsEmpty(expected) || IsEmpty(source) {
      return Success(None);
    }
    var bestStart, bestScore, hasCandidate, start := 0, 0, false, 0;
    while start < NumLines(source)
      invariant 0 <= start <= |s| && usage.Valid()
      invariant Charged(first, Cells(|s|, |e|), limit)
             == Charged(usage.lineComparisons, Cells(|s| - start, |e|), limit)
      invariant hasCandidate == (start > 0)
      invariant hasCandidate ==> bestStart == BestStart(e, s, start) && bestScore == FullScore(e, s, bestStart)
      invariant !hasCandidate ==> bestStart == 0
    {
      OneRowLess(|s| - start, |e|);
      ChargedInSteps(usage.lineComparisons, |e|, Cells(|s| - start - 1, |e|), limit);
      ChargedWithin(usage.lineComparisons, |e|, limit);
      var score := ScoreAt(expected, source, start, file, usage);
      if score.Failure? { return Failure(score.error); }
      if !hasCandidate || score.value > bestScore {
        bestStart, bestScore, hasCandidate := start, score.value, true;
      }
      start := start + 1;
    }
    OneRowLess(0, |e|);
    ChargeNothing(usage.lineComparisons, limit);
    var difference := 0;
    while difference < NumLines(expected) && LineAt(expected, difference) == LineAt(source, bestStart + difference)
      invariant 0 <= difference <= |e|
      invariant FirstDifference(e, s, bestStart, 0) == FirstDifference(e, s, bestStart, difference)
    {
      difference := difference + 1;
    }
    if difference == NumLines(expected) {
      return Success(None);
    }
    r := Success(Some(Position(bestStart, Min(bestStart + NumLines(expected), NumLines(source)), difference)));
  }
}
