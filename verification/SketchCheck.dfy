/** A whole sketch check: sketches grouped by source file, judged one by one under shared budgets,
    and their diagnostics sorted. */
module SketchCheck {
  import opened Wrappers
  import opened Orders
  import opened Normalize
  import opened Lines
  import opened Matching
  import opened SketchReport
  import Evidence

  /** One parsed sketch; `exact_lines_v1` is the only normalisation there is. */
  datatype SketchContract = SketchContract(
    id: seq<Byte>,
    contractFile: CatalogPath,
    documentIndex: nat,
    file: CatalogPath,
    occurrence: Occurrence,
    snippet: Normalized)

  /** What a check is given besides its contracts. */
  datatype World = World(
    sources: map<CatalogPath, Slice>,
    matching: MatchingLimits,
    countLimit: nat,
    byteLimit: nat,
    excerptMaximum: nat)

  ghost predicate ValidWorld(w: World) {
    && w.matching.lineComparisons <= U64_MAX && w.matching.occurrenceCandidates <= U64_MAX
    && w.countLimit <= U64_MAX && w.byteLimit <= U64_MAX
  }

  // --------------------------------------------------------- one sketch, directly

  function LocationOf(c: SketchContract): Location {
    Location(c.id, c.contractFile, c.documentIndex, c.file)
  }

  function SourceOf(w: World, file: CatalogPath): Normalized
    requires file in w.sources
  {
    SnippetOf(Normal(w.sources[file]))
  }

  function CandidateOf(expected: Normalized, source: Normalized, p: Position, maximum: nat): Candidate {
    Candidate(SourceSpan(p), p.firstDifference + 1, SourceLine(p),
              Evidence.ExcerptOf(LineAt(expected, p.firstDifference), maximum),
              Evidence.ExcerptOf(LineAt(source, p.start + p.firstDifference), maximum))
  }

  function CandidateFor(w: World, expected: Normalized, source: Normalized): Option<Candidate> {
    match BestCandidate(LinesOf(expected), LinesOf(source))
    case None => None
    case Some(p) => Some(CandidateOf(expected, source, p, w.excerptMaximum))
  }

  function Judged(w: World, c: SketchContract): Evaluation
    requires c.file in w.sources
  {
    Evaluate(LinesOf(c.snippet), LinesOf(SourceOf(w, c.file)), c.occurrence, w.matching.retainedOccurrenceSpans)
  }

  /** The verdict on one sketch by itself: `None` when it is satisfied. */
  function Verdict(w: World, c: SketchContract): Option<Diagnostic> {
    if c.file !in w.sources then Some(MissingFile(LocationOf(c)))
    else match Judged(w, c)
      case Satisfied => None
      case Missing => Some(NotMatched(LocationOf(c), CandidateFor(w, c.snippet, SourceOf(w, c.file))))
      case OccurrenceMismatch(actual, spans, truncated) =>
        Some(Mismatch(LocationOf(c), c.occurrence, actual, spans, truncated))
  }

  /** Diagnostics of a direct loop over the sketches. */
  function Diagnostics(w: World, cs: seq<SketchContract>): seq<Diagnostic> {
    if cs == [] then []
    else
      Diagnostics(w, cs[..|cs| - 1]) + Reported(w, cs[|cs| - 1])
  }

  function Reported(w: World, c: SketchContract): seq<Diagnostic> {
    match Verdict(w, c) case None => [] case Some(d) => [d]
  }

  // ------------------------------------------------------------------ its budget

  datatype Totals = Totals(compared: nat, hits: nat, failed: nat, bytes: nat)

  function Plus(a: Totals, b: Totals): Totals {
    Totals(a.compared + b.compared, a.hits + b.hits, a.failed + b.failed, a.bytes + b.bytes)
  }

  const NOTHING: Totals := Totals(0, 0, 0, 0)

  /** Work one sketch costs: comparisons and hits of its scan, the candidate search when it is
      missing, and its diagnostic. */
  function Work(w: World, c: SketchContract): Totals {
    var failed := match Verdict(w, c) case None => 0 case Some(_) => 1;
    var bytes := match Verdict(w, c) case None => 0 case Some(d) => DiagnosticSize(d);
    if c.file !in w.sources then Totals(0, 0, failed, bytes)
    else
      var e, s := LinesOf(c.snippet), LinesOf(SourceOf(w, c.file));
      var stop := Visited(e, s, c.occurrence);
      var search := if Judged(w, c).Missing? then Cells(|s|, |e|) else 0;
      Totals(Compared(e, s, stop) + search, |Hits(e, s, stop)|, failed, bytes)
  }

  function TotalOf(w: World, cs: seq<SketchContract>): Totals {
    if cs == [] then NOTHING else Plus(TotalOf(w, cs[..|cs| - 1]), Work(w, cs[|cs| - 1]))
  }

  /** Commas between diagnostics count too. */
  function ArrayBytes(t: Totals): nat {
    t.bytes + if t.failed > 0 then t.failed - 1 else 0
  }

  /** Every budget covers the totals. */
  predicate Payable(w: World, t: Totals) {
    && Charged(0, t.compared, w.matching.lineComparisons).Some?
    && Charged(0, t.hits, w.matching.occurrenceCandidates).Some?
    && Charged(0, t.failed, w.countLimit).Some?
    && 2 <= w.byteLimit && Charged(2, ArrayBytes(t), w.byteLimit).Some?
  }

  /** A source file, if it exists, normalises within the source limits. */
  predicate FileLegible(w: World, file: CatalogPath) {
    file in w.sources ==>
      && |Normal(w.sources[file])| <= w.matching.normalizedSourceBytes
      && LineCount(Normal(w.sources[file])) <= w.matching.normalizedSourceLines
  }

  predicate Legible(w: World, cs: seq<SketchContract>) {
    forall c :: c in cs ==> FileLegible(w, c.file)
  }

  lemma PayableShrinks(w: World, a: Totals, b: Totals)
    requires ValidWorld(w) && Payable(w, Plus(a, b))
    ensures Payable(w, a)
  {
  }

  lemma TotalSnoc(w: World, cs: seq<SketchContract>, c: SketchContract)
    ensures TotalOf(w, cs + [c]) == Plus(TotalOf(w, cs), Work(w, c))
    ensures Diagnostics(w, cs + [c]) == Diagnostics(w, cs) + Reported(w, c)
  {
  }

  lemma {:induction false} TotalAppend(w: World, a: seq<SketchContract>, b: seq<SketchContract>)
    ensures TotalOf(w, a + b) == Plus(TotalOf(w, a), TotalOf(w, b))
    ensures Diagnostics(w, a + b) == Diagnostics(w, a) + Diagnostics(w, b)
  {
    hide TotalOf, Diagnostics, Reported, Work;
    TotalNone(w);
    if b == [] {
      assert a + b == a;
      assert Diagnostics(w, a) + [] == Diagnostics(w, a);
    } else {
      var front, last := b[..|b| - 1], b[|b| - 1];
      assert b == front + [last] && a + b == a + front + [last];
      TotalAppend(w, a, front);
      TotalSnoc(w, a + front, last);
      TotalSnoc(w, front, last);
      assert Diagnostics(w, a + b) == Diagnostics(w, a) + (Diagnostics(w, front) + Reported(w, last));
    }
  }

  lemma TotalNone(w: World)
    ensures TotalOf(w, []) == NOTHING && Diagnostics(w, []) == []
  {
  }

  /** One contract taken out of the middle. */
  lemma TotalWithout(w: World, cs: seq<SketchContract>, k: nat)
    requires k < |cs|
    ensures var rest := cs[..k] + cs[k + 1..];
            && multiset(rest) == multiset(cs) - multiset{cs[k]}
            && TotalOf(w, cs) == Plus(TotalOf(w, rest), TotalOf(w, [cs[k]]))
            && multiset(Diagnostics(w, cs)) == multiset(Diagnostics(w, rest)) + multiset(Diagnostics(w, [cs[k]]))
  {
    hide TotalOf, Diagnostics;
    var front, back := cs[..k], cs[k + 1..];
    assert cs == front + ([cs[k]] + back);
    TotalAppend(w, front, [cs[k]] + back);
    TotalAppend(w, [cs[k]], back);
    TotalAppend(w, front, back);
  }

  /** Totals and diagnostics do not depend on the order of the contracts. */
  lemma {:induction false} TotalPermutation(w: World, a: seq<SketchContract>, b: seq<SketchContract>)
    requires multiset(a) == multiset(b)
    ensures TotalOf(w, a) == TotalOf(w, b)
    ensures multiset(Diagnostics(w, a)) == multiset(Diagnostics(w, b))
    decreases |a|
  {
    hide TotalOf, Diagnostics;
    if a == [] {
      assert |multiset(b)| == |b|;
    } else {
      assert a[0] in multiset(b);
      var k :| 0 <= k < |b| && b[k] == a[0];
      TotalWithout(w, a, 0);
      TotalWithout(w, b, k);
      TotalPermutation(w, a[..0] + a[1..], b[..k] + b[k + 1..]);
    }
  }

  lemma ElementsSnoc(ds: seq<Diagnostic>, d: Diagnostic)
    ensures |ElementsJson(ds + [d])| == |ElementsJson(ds)| + (if ds == [] then 0 else 1) + DiagnosticSize(d)
  {
    hide DiagnosticJson;
    assert (ds + [d])[..|ds|] == ds;
  }

  /** The charged total is the exact length of the serialised array of the diagnostics. */
  lemma {:induction false} TotalIsSerialised(w: World, cs: seq<SketchContract>)
    ensures |ReportJson(Diagnostics(w, cs))| == 2 + ArrayBytes(TotalOf(w, cs))
    ensures |Diagnostics(w, cs)| == TotalOf(w, cs).failed <= |cs|
    ensures TotalOf(w, cs).failed == 0 ==> TotalOf(w, cs).bytes == 0
  {
    hide ElementsJson, DiagnosticSize, Verdict, TotalOf, Diagnostics;
    TotalNone(w);
    if cs == [] {
      NoElements();
    } else {
      var front, last := cs[..|cs| - 1], cs[|cs| - 1];
      assert cs == front + [last];
      TotalIsSerialised(w, front);
      TotalSnoc(w, front, last);
      if Verdict(w, last).Some? {
        ElementsSnoc(Diagnostics(w, front), Verdict(w, last).value);
      } else {
        assert Diagnostics(w, cs) == Diagnostics(w, front);
      }
    }
  }

  lemma NoElements()
    ensures ElementsJson([]) == []
  {
  }

  // ------------------------------------------------------------------- sorting

  /** `SketchDiagnostic::compare`: the complete location, then the kind. */
  function DiagnosticKey(d: Diagnostic): seq<seq<int>> {
    var l := d.location;
    [l.sketchId, l.contractFile, [l.documentIndex], l.sourceFile, [KindRank(d)]]
  }

  function KindRank(d: Diagnostic): nat {
    match d
    case MissingFile(_) => 0
    case NotMatched(_, _) => 1
    case Mismatch(_, _, _, _, _) => 2
  }

  predicate DiagnosticLeq(a: Diagnostic, b: Diagnostic) {
    KeyLeq(DiagnosticKey(a), DiagnosticKey(b))
  }

  /** The stable sort of the comparison constructor. */
  function SortDiagnostics(ds: seq<Diagnostic>): (r: seq<Diagnostic>)
    ensures multiset(r) == multiset(ds)
  {
    Sort(DiagnosticLeq, ds)
  }

  function Keys(ds: seq<Diagnostic>): seq<seq<seq<int>>> {
    MapSeq(DiagnosticKey, ds)
  }

  lemma {:induction false} PlaceKeys(d: Diagnostic, ds: seq<Diagnostic>)
    ensures Keys(Place(DiagnosticLeq, d, ds)) == Place(KeyLeq, DiagnosticKey(d), Keys(ds))
  {
    hide KeyLeq, DiagnosticKey;
    if ds == [] {
    } else if DiagnosticLeq(d, ds[0]) {
      MapSeqCons(DiagnosticKey, [d] + ds);
      assert ([d] + ds)[1..] == ds;
    } else {
      MapSeqCons(DiagnosticKey, ds);
      PlaceKeys(d, ds[1..]);
      var r := Place(DiagnosticLeq, d, ds[1..]);
      MapSeqCons(DiagnosticKey, [ds[0]] + r);
      assert ([ds[0]] + r)[1..] == r;
      assert Keys(ds)[1..] == Keys(ds[1..]);
    }
  }

  lemma {:induction false} SortKeys(ds: seq<Diagnostic>)
    ensures Keys(SortDiagnostics(ds)) == Sort(KeyLeq, Keys(ds))
  {
    hide KeyLeq, DiagnosticKey;
    if ds != [] {
      SortKeys(ds[1..]);
      PlaceKeys(ds[0], Sort(DiagnosticLeq, ds[1..]));
      MapSeqCons(DiagnosticKey, ds);
      assert Keys(ds)[1..] == Keys(ds[1..]);
    }
  }

  ghost predicate KeysTell(ds: seq<Diagnostic>) {
    forall x, y :: x in ds && y in ds && DiagnosticKey(x) == DiagnosticKey(y) ==> x == y
  }

  /** Diagnostics whose keys tell them apart sort to one list, whatever order they came in. */
  lemma SortIgnoresOrder(a: seq<Diagnostic>, b: seq<Diagnostic>)
    requires multiset(a) == multiset(b) && KeysTell(a)
    ensures SortDiagnostics(a) == SortDiagnostics(b)
  {
    hide KeyLeq, DiagnosticKey, Sort, MapSeq;
    var x, y := SortDiagnostics(a), SortDiagnostics(b);
    MapSeqPermutation(DiagnosticKey, a, b);
    KeyLeqIsTotal();
    SortIsCanonical(KeyLeq, Keys(a), Keys(b));
    SortKeys(a);
    SortKeys(b);
    assert Keys(x) == Keys(y);
    assert |x| == |Keys(x)| && |y| == |Keys(y)|;
    forall k | 0 <= k < |x| ensures x[k] == y[k] {
      assert x[k] in multiset(x) && y[k] in multiset(y);
      assert x[k] in multiset(a) && y[k] in multiset(a);
      KeyAt(x, k);
      KeyAt(y, k);
    }
  }

  lemma KeyAt(ds: seq<Diagnostic>, k: nat)
    requires k < |ds|
    ensures k < |Keys(ds)| && Keys(ds)[k] == DiagnosticKey(ds[k])
  {
  }

  /** Sketch identifiers are unique across the whole catalog. */
  predicate UniqueIds(cs: seq<SketchContract>) {
    forall i, j :: 0 <= i < j < |cs| ==> cs[i].id != cs[j].id
  }

  lemma {:induction false} DiagnosticOrigin(w: World, cs: seq<SketchContract>,
      d: Diagnostic) returns (c: SketchContract)
    requires d in Diagnostics(w, cs)
    ensures c in cs && Verdict(w, c) == Some(d)
  {
    var last := cs[|cs| - 1];
    if d in Diagnostics(w, cs[..|cs| - 1]) {
      c := DiagnosticOrigin(w, cs[..|cs| - 1], d);
    } else {
      c := last;
    }
  }

  /** At most one diagnostic comes from each sketch, and its key names the sketch. */
  lemma UniqueIdsTell(w: World, cs: seq<SketchContract>)
    requires UniqueIds(cs)
    ensures KeysTell(Diagnostics(w, cs))
  {
    hide DiagnosticKey, Verdict;
    var ds := Diagnostics(w, cs);
    forall x, y | x in ds && y in ds && DiagnosticKey(x) == DiagnosticKey(y) ensures x == y {
      var a := DiagnosticOrigin(w, cs, x);
      var b := DiagnosticOrigin(w, cs, y);
      KeyNamesSketch(w, a, x);
      KeyNamesSketch(w, b, y);
      var i :| 0 <= i < |cs| && cs[i] == a;
      var j :| 0 <= j < |cs| && cs[j] == b;
      assert i == j;
    }
  }

  lemma KeyNamesSketch(w: World, c: SketchContract, d: Diagnostic)
    requires Verdict(w, c) == Some(d)
    ensures |DiagnosticKey(d)| > 0 && DiagnosticKey(d)[0] == c.id
  {
  }

  /** With unique identifiers the sorted diagnostics, the totals and the legibility of a check do
      not depend on the order of the contracts. */
  lemma ContractOrderDoesNotMatter(w: World, a: seq<SketchContract>, b: seq<SketchContract>)
    requires multiset(a) == multiset(b) && UniqueIds(a)
    ensures SortDiagnostics(Diagnostics(w, a)) == SortDiagnostics(Diagnostics(w, b))
    ensures Legible(w, a) <==> Legible(w, b)
    ensures Payable(w, TotalOf(w, a)) <==> Payable(w, TotalOf(w, b))
  {
    hide Diagnostics, TotalOf, FileLegible, KeysTell;
    TotalPermutation(w, a, b);
    UniqueIdsTell(w, a);
    SortIgnoresOrder(Diagnostics(w, a), Diagnostics(w, b));
    assert forall c :: c in a <==> c in multiset(a);
    assert forall c :: c in b <==> c in multiset(b);
  }

  // ------------------------------------------------------- the diagnostics ledger

  datatype Reservation = Reservation(nextCount: nat, nextBytes: nat)

  lemma SaturatingSum(a: nat, b: nat, limit: nat)
    requires limit <= U64_MAX
    ensures Charged(a, b, limit) == if SatAdd(a, Min(b, U64_MAX)) > limit then None else Some(SatAdd(a, Min(b, U64_MAX)))
  {
  }

  lemma AddedIsMeasured(expected: Evidence.Excerpt, actual: Evidence.Excerpt, a: nat, b: nat)
    requires a == Min(Added(expected), U64_MAX) && b == Min(Added(actual), U64_MAX)
    ensures SatAdd(a, b) == Min(Added(expected) + Added(actual), U64_MAX)
  {
  }

  /** The two excerpts of one candidate. */
  class MatchCandidateEvidence {
    const source: Span
    const expectedLine: nat
    const sourceLine: nat
    const expected: Evidence.DiagnosticExcerptEvidence
    const actual: Evidence.DiagnosticExcerptEvidence
    ghost const full: Candidate

    ghost predicate Valid() {
      && expected != actual && expected.Valid() && actual.Valid()
      && full == Candidate(source, expectedLine, sourceLine,
                           Evidence.ExcerptOf(expected.bytes, expected.maximum),
                           Evidence.ExcerptOf(actual.bytes, actual.maximum))
    }

    constructor (e: Normalized, s: Normalized, p: Position, maximum: nat)
      ensures Valid() && full == CandidateOf(e, s, p, maximum) && fresh(expected) && fresh(actual)
      ensures expected.additionalJsonBytes == 0 && actual.additionalJsonBytes == 0
    {
      source, expectedLine, sourceLine := SourceSpan(p), p.firstDifference + 1, SourceLine(p);
      expected := new Evidence.DiagnosticExcerptEvidence(LineAt(e, p.firstDifference), maximum);
      actual := new Evidence.DiagnosticExcerptEvidence(LineAt(s, p.start + p.firstDifference), maximum);
      full := CandidateOf(e, s, p, maximum);
    }

    method SkeletonCandidate() returns (c: Candidate)
      requires Valid()
      ensures c == Skeleton(full)
    {
      c := Candidate(source, expectedLine, sourceLine, expected.Skeleton(), actual.Skeleton());
    }

    method Measure() returns (additional: nat)
      requires Valid() && expected.additionalJsonBytes == 0 && actual.additionalJsonBytes == 0
      modifies expected, actual
      ensures additional == Min(Added(full.expected) + Added(full.actual), U64_MAX)
    {
      expected.Measure();
      actual.Measure();
      AddedIsMeasured(full.expected, full.actual, expected.additionalJsonBytes, actual.additionalJsonBytes);
      additional := SatAdd(expected.additionalJsonBytes, actual.additionalJsonBytes);
    }

    method Materialize() returns (c: Candidate)
      requires Valid()
      ensures c == full
    {
      var e := expected.Materialize();
      var a := actual.Materialize();
      c := Candidate(source, expectedLine, sourceLine, e, a);
    }
  }

  function CountRefusal(w: World, file: CatalogPath): LimitExceeded {
    LimitExceeded(DiagnosticCount, w.countLimit, w.countLimit + 1, Some(file))
  }

  function BytesRefusal(w: World, file: CatalogPath): LimitExceeded {
    LimitExceeded(DiagnosticBytes, w.byteLimit, w.byteLimit + 1, Some(file))
  }

  /** What refuses a diagnostic that does not fit after `count` others: the count goes first. */
  function ReportRefusal(w: World, file: CatalogPath, count: nat): LimitExceeded {
    if Charged(count, 1, w.countLimit).None? then CountRefusal(w, file) else BytesRefusal(w, file)
  }

  /** What refuses a missing sketch: the count, then the candidate search, then the bytes. */
  function MissingRefusal(w: World, c: SketchContract, count: nat, compared: nat, cells: nat,
      limits: MatchingLimits): LimitExceeded
  {
    if Charged(count, 1, w.countLimit).None? then CountRefusal(w, c.contractFile)
    else if Charged(compared, cells, limits.lineComparisons).None? then ComparisonOverrun(limits, c.file)
    else BytesRefusal(w, c.contractFile)
  }

  lemma MissingRefusalMeans(w: World, c: SketchContract, count: nat, compared: nat, rows: nat, width: nat,
      limits: MatchingLimits)
    requires w.countLimit <= U64_MAX && limits.lineComparisons <= U64_MAX
    ensures Charged(count, 1, w.countLimit).None? <==> count + 1 > w.countLimit && w.countLimit < U64_MAX
    ensures MissingRefusal(w, c, count, compared, Cells(rows, width), limits)
         == if count + 1 > w.countLimit && w.countLimit < U64_MAX
            then LimitExceeded(DiagnosticCount, w.countLimit, w.countLimit + 1, Some(c.contractFile))
            else if compared + rows * width > limits.lineComparisons && limits.lineComparisons < U64_MAX
            then LimitExceeded(MatchingLineComparisons, limits.lineComparisons, limits.lineComparisons + 1, Some(c.file))
            else LimitExceeded(DiagnosticBytes, w.byteLimit, w.byteLimit + 1, Some(c.contractFile))
  {
  }

  /** Collected diagnostics, with the serialised array they will make. */
  class SketchDiagnostics {
    const w: World
    var entries: seq<Diagnostic>
    var count: nat
    var total: nat

    constructor (w: World)
      ensures this.w == w && entries == [] && count == 0 && total == 2
    {
      this.w := w;
      entries, count, total := [], 0, 2;
    }

    predicate Valid()
      reads this
    {
      count <= w.countLimit <= U64_MAX && total <= w.byteLimit <= U64_MAX
    }

    function Comma(): nat
      reads this
    {
      if count > 0 then 1 else 0
    }

    /** One more diagnostic of `bytes` serialised bytes fits. */
    predicate Fitting(bytes: nat)
      reads this
    {
      Charged(count, 1, w.countLimit).Some? && Charged(total, Comma() + bytes, w.byteLimit).Some?
    }

    method PreflightCount(file: CatalogPath) returns (r: Result<nat, LimitExceeded>)
      requires Valid()
      ensures match Charged(count, 1, w.countLimit)
              case Some(n) => r == Success(n)
              case None => r == Failure(CountRefusal(w, file))
    {
      var next := SatAdd(count, 1);
      if next > w.countLimit {
        return Failure(LimitExceeded(DiagnosticCount, w.countLimit, next, Some(file)));
      }
      r := Success(next);
    }

    method Reserve(diagnostic: Diagnostic, file: CatalogPath) returns (r: Result<Reservation, LimitExceeded>)
      requires Valid()
      ensures r.Success? <==> Fitting(DiagnosticSize(diagnostic))
      ensures r.Success? ==> Charged(count, 1, w.countLimit) == Some(r.value.nextCount)
      ensures r.Success? ==> Charged(total, Comma() + DiagnosticSize(diagnostic), w.byteLimit) == Some(r.value.nextBytes)
      ensures r.Failure? ==> r.error == ReportRefusal(w, file, count)
      ensures r.Failure? ==>
                r.error == if count + 1 > w.countLimit && w.countLimit < U64_MAX
                           then LimitExceeded(DiagnosticCount, w.countLimit, w.countLimit + 1, Some(file))
                           else LimitExceeded(DiagnosticBytes, w.byteLimit, w.byteLimit + 1, Some(file))
    {
      hide DiagnosticSize;
      var next := PreflightCount(file);
      if next.Failure? { return Failure(next.error); }
      var counted := SatAdd(total, if count > 0 then 1 else 0);
      if counted <= w.byteLimit {
        counted := SatAdd(counted, Min(DiagnosticSize(diagnostic), U64_MAX));
      }
      if counted > w.byteLimit {
        return Failure(LimitExceeded(DiagnosticBytes, w.byteLimit, w.byteLimit + 1, Some(file)));
      }
      r := Success(Reservation(next.value, counted));
    }

    method Commit(diagnostic: Diagnostic, reservation: Reservation)
      modifies this
      ensures entries == old(entries) + [diagnostic]
      ensures count == reservation.nextCount && total == reservation.nextBytes
    {
      entries := entries + [diagnostic];
      count, total := reservation.nextCount, reservation.nextBytes;
    }

    method Push(diagnostic: Diagnostic) returns (r: Result<(), LimitExceeded>)
      requires Valid()
      modifies this
      ensures r.Success? <==> old(Fitting(DiagnosticSize(diagnostic)))
      ensures r.Success? ==> Pushed(diagnostic, old(entries), old(count), old(total))
      ensures r.Failure? ==> r.error == ReportRefusal(w, diagnostic.location.contractFile, old(count))
    {
      hide DiagnosticSize;
      var reservation := Reserve(diagnostic, diagnostic.location.contractFile);
      if reservation.Failure? { return Failure(reservation.error); }
      Commit(diagnostic, reservation.value);
      r := Success(());
    }

    /** The collection after one more diagnostic. */
    ghost predicate Pushed(d: Diagnostic, entriesBefore: seq<Diagnostic>, countBefore: nat, totalBefore: nat)
      reads this
    {
      && entries == entriesBefore + [d]
      && Charged(countBefore, 1, w.countLimit) == Some(count)
      && Charged(totalBefore, (if countBefore > 0 then 1 else 0) + DiagnosticSize(d), w.byteLimit) == Some(total)
    }

    /** The excerpts of a candidate are charged before their text is built, at exactly its size. */
    method PushCandidate(c: SketchContract, source: Normalized, p: Position) returns (r: Result<(), LimitExceeded>)
      requires Valid()
      modifies this
      ensures var d := NotMatched(LocationOf(c), Some(CandidateOf(c.snippet, source, p, w.excerptMaximum)));
              && (r.Success? <==> old(Fitting(DiagnosticSize(d))))
              && (r.Success? ==> Pushed(d, old(entries), old(count), old(total)))
              && (r.Failure? ==> r.error == ReportRefusal(w, c.contractFile, old(count)))
    {
      hide Charged, CandidateOf, Added, Skeleton, LocationOf, DiagnosticSize;
      ghost var full := CandidateOf(c.snippet, source, p, w.excerptMaximum);
      var evidence := new MatchCandidateEvidence(c.snippet, source, p, w.excerptMaximum);
      SkeletonCost(w, LocationOf(c), full, count, total);
      var skeleton := evidence.SkeletonCandidate();
      var reservation := Reserve(NotMatched(LocationOf(c), Some(skeleton)), c.contractFile);
      if reservation.Failure? { return Failure(reservation.error); }
      var additional := evidence.Measure();
      SaturatingSum(reservation.value.nextBytes, Added(full.expected) + Added(full.actual), w.byteLimit);
      var nextBytes := SatAdd(reservation.value.nextBytes, additional);
      if nextBytes > w.byteLimit {
        return Failure(LimitExceeded(DiagnosticBytes, w.byteLimit, w.byteLimit + 1, Some(c.contractFile)));
      }
      var candidate := evidence.Materialize();
      Commit(NotMatched(LocationOf(c), Some(candidate)), reservation.value.(nextBytes := nextBytes));
      r := Success(());
    }

    /** `push_not_matched`: the candidate search runs only if one more diagnostic may be reported. */
    method PushNotMatched(c: SketchContract, source: Normalized, usage: MatchingUsage)
      returns (r: Result<(), LimitExceeded>)
      requires Valid() && usage.Valid()
      modifies this, usage`lineComparisons
      ensures var d := NotMatched(LocationOf(c), CandidateFor(w, c.snippet, source));
              var cells := Cells(|LinesOf(source)|, |LinesOf(c.snippet)|);
              && (r.Success?
                  <==> (old(Fitting(DiagnosticSize(d)))
                        && Charged(old(usage.lineComparisons), cells, usage.limits.lineComparisons).Some?))
              && (r.Success? ==>
                    Pushed(d, old(entries), old(count), old(total))
                    && Charged(old(usage.lineComparisons), cells, usage.limits.lineComparisons)
                         == Some(usage.lineComparisons))
              && (r.Failure? ==> r.error == MissingRefusal(w, c, old(count), old(usage.lineComparisons), cells,
                                                           usage.limits))
      ensures old(count) + 1 > w.countLimit && w.countLimit < U64_MAX ==>
                && r == Failure(LimitExceeded(DiagnosticCount, w.countLimit, w.countLimit + 1, Some(c.contractFile)))
                && usage.lineComparisons == old(usage.lineComparisons)
      ensures r.Failure? && (old(count) + 1 <= w.countLimit || w.countLimit == U64_MAX) ==>
                var spent, limit := |LinesOf(source)| * |LinesOf(c.snippet)|, usage.limits.lineComparisons;
                r.error == if old(usage.lineComparisons) + spent > limit && limit < U64_MAX
                           then LimitExceeded(MatchingLineComparisons, limit, limit + 1, Some(c.file))
                           else LimitExceeded(DiagnosticBytes, w.byteLimit, w.byteLimit + 1, Some(c.contractFile))
    {
      hide Charged, Cells, LinesOf, BestCandidate, CandidateOf, DiagnosticSize;
      MissingRefusalMeans(w, c, count, usage.lineComparisons, |LinesOf(source)|, |LinesOf(c.snippet)|, usage.limits);
      var preflight := PreflightCount(c.contractFile);
      if preflight.Failure? { return Failure(preflight.error); }
      var search := FindBestCandidate(c.snippet, source, c.file, usage);
      if search.Failure? { return Failure(search.error); }
      if search.value.None? {
        r := Push(NotMatched(LocationOf(c), None));
      } else {
        r := PushCandidate(c, source, search.value.value);
      }
    }
  }

  lemma SkeletonCost(w: World, location: Location, c: Candidate, count: nat, total: nat)
    requires total <= w.byteLimit <= U64_MAX
    ensures var comma := if count > 0 then 1 else 0;
            Charged(total, comma + DiagnosticSize(NotMatched(location, Some(c))), w.byteLimit)
            == match Charged(total, comma + DiagnosticSize(NotMatched(location, Some(Skeleton(c)))), w.byteLimit)
               case Some(n) => Charged(n, Added(c.expected) + Added(c.actual), w.byteLimit)
               case None => None
  {
    hide DiagnosticSize, Added;
    SkeletonGrows(location, c);
    var comma := if count > 0 then 1 else 0;
    ChargedInSteps(total, comma + DiagnosticSize(NotMatched(location, Some(Skeleton(c)))),
                   Added(c.expected) + Added(c.actual), w.byteLimit);
  }
}
