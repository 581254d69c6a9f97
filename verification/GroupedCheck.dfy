/** `SketchMatcher::check`: grouping by source file, one normalisation per group, shared budgets.
    It refines the direct loop over the sketches. */
module GroupedCheck {
  import opened Wrappers
  import opened Orders
  import opened Normalize
  import opened Lines
  import opened Matching
  import opened SketchReport
  import opened SketchCheck
  import opened SketchMeaning

  // --------------------------------------------------------- progress of a check

  /** Budgets spent and diagnostics collected once exactly `done` has been judged. */
  ghost predicate Reached(w: World, done: seq<SketchContract>, reading: Ledger, entries: seq<Diagnostic>,
      count: nat, total: nat)
  {
    var t := TotalOf(w, done);
    && reading.limits == w.matching && entries == Diagnostics(w, done)
    && Charged(0, t.compared, w.matching.lineComparisons) == Some(reading.compared)
    && Charged(0, t.hits, w.matching.occurrenceCandidates) == Some(reading.hit)
    && Charged(0, t.failed, w.countLimit) == Some(count)
    && 2 <= w.byteLimit && Charged(2, ArrayBytes(t), w.byteLimit) == Some(total)
  }

  /** Bytes the report of one sketch adds to an array of `count` diagnostics. */
  function ReportBytes(w: World, c: SketchContract, count: nat): nat {
    match Verdict(w, c)
    case None => 0
    case Some(d) => (if count > 0 then 1 else 0) + DiagnosticSize(d)
  }

  /** The budgets left cover one more sketch. */
  predicate Pays(w: World, c: SketchContract, reading: Ledger, count: nat, total: nat) {
    && Charged(reading.compared, Work(w, c).compared, w.matching.lineComparisons).Some?
    && Charged(reading.hit, Work(w, c).hits, w.matching.occurrenceCandidates).Some?
    && Charged(count, Work(w, c).failed, w.countLimit).Some?
    && Charged(total, ReportBytes(w, c, count), w.byteLimit).Some?
  }

  lemma ArrayGrows(w: World, done: seq<SketchContract>, c: SketchContract, count: nat)
    requires Charged(0, TotalOf(w, done).failed, w.countLimit) == Some(count) && w.countLimit <= U64_MAX
    ensures ArrayBytes(TotalOf(w, done + [c])) == ArrayBytes(TotalOf(w, done)) + ReportBytes(w, c, count)
  {
    hide TotalOf, DiagnosticSize, Verdict;
    TotalSnoc(w, done, c);
    TotalIsSerialised(w, done);
  }

  /** A counter after `cost` units that its limit allowed. */
  function Spent(cost: nat, limit: nat): nat {
    match Charged(0, cost, limit) case Some(n) => n case None => 0
  }

  /** The work counters, and the number of diagnostics, once `done` has been judged. */
  function ReadingAfter(w: World, done: seq<SketchContract>): Ledger {
    var t := TotalOf(w, done);
    Ledger(Spent(t.compared, w.matching.lineComparisons), Spent(t.hits, w.matching.occurrenceCandidates), w.matching)
  }

  function CountAfter(w: World, done: seq<SketchContract>): nat {
    Spent(TotalOf(w, done).failed, w.countLimit)
  }

  /** The error of judging a sketch that the budgets left do not cover: the scan's own, by its first
      start that cannot be paid for; else for a missing sketch the count, the candidate search and
      the bytes in turn; else the count and the bytes. */
  ghost predicate Refused(w: World, c: SketchContract, reading: Ledger, count: nat, error: LimitExceeded) {
    if c.file !in w.sources then error == ReportRefusal(w, c.contractFile, count)
    else
      var e, s := LinesOf(c.snippet), LinesOf(SourceOf(w, c.file));
      var stop := Visited(e, s, c.occurrence);
      if !Affordable(reading, e, s, stop, stop) then
        exists n: nat :: n < stop && Overruns(reading, e, s, n, c.file, error)
      else if !Judged(w, c).Missing? then error == ReportRefusal(w, c.contractFile, count)
      else if Charged(count, 1, w.countLimit).None? then error == CountRefusal(w, c.contractFile)
      else if Charged(reading.compared, Work(w, c).compared, w.matching.lineComparisons).None?
      then error == ComparisonOverrun(w.matching, c.file)
      else error == BytesRefusal(w, c.contractFile)
  }

  ghost predicate RefusedAfter(w: World, done: seq<SketchContract>, c: SketchContract, error: LimitExceeded) {
    Refused(w, c, ReadingAfter(w, done), CountAfter(w, done), error)
  }

  lemma ReachedWithin(w: World, done: seq<SketchContract>, reading: Ledger, entries: seq<Diagnostic>,
      count: nat, total: nat)
    requires ValidWorld(w) && Reached(w, done, reading, entries, count, total)
    ensures Within(reading) && count <= w.countLimit && total <= w.byteLimit
    ensures reading == ReadingAfter(w, done) && count == CountAfter(w, done)
  {
    hide TotalOf, Diagnostics;
  }

  lemma OneMorePays(w: World, done: seq<SketchContract>, c: SketchContract, reading: Ledger,
      entries: seq<Diagnostic>, count: nat, total: nat)
    requires ValidWorld(w) && Reached(w, done, reading, entries, count, total)
    ensures Payable(w, TotalOf(w, done + [c])) <==> Pays(w, c, reading, count, total)
  {
    hide TotalOf, Diagnostics, Work, Charged, ReportBytes, ArrayBytes;
    var t := TotalOf(w, done);
    TotalSnoc(w, done, c);
    ArrayGrows(w, done, c, count);
    ChargedInSteps(0, t.compared, Work(w, c).compared, w.matching.lineComparisons);
    ChargedInSteps(0, t.hits, Work(w, c).hits, w.matching.occurrenceCandidates);
    ChargedInSteps(0, t.failed, Work(w, c).failed, w.countLimit);
    ChargedInSteps(2, ArrayBytes(t), ReportBytes(w, c, count), w.byteLimit);
  }

  lemma OneMoreReached(w: World, done: seq<SketchContract>, c: SketchContract, reading: Ledger,
      entries: seq<Diagnostic>, count: nat, total: nat,
      reading': Ledger, entries': seq<Diagnostic>, count': nat, total': nat)
    requires ValidWorld(w) && Reached(w, done, reading, entries, count, total)
    requires reading'.limits == reading.limits && entries' == entries + Reported(w, c)
    requires Charged(reading.compared, Work(w, c).compared, w.matching.lineComparisons) == Some(reading'.compared)
    requires Charged(reading.hit, Work(w, c).hits, w.matching.occurrenceCandidates) == Some(reading'.hit)
    requires Charged(count, Work(w, c).failed, w.countLimit) == Some(count')
    requires Charged(total, ReportBytes(w, c, count), w.byteLimit) == Some(total')
    ensures Reached(w, done + [c], reading', entries', count', total')
  {
    hide TotalOf, Diagnostics, Work, Charged, ReportBytes, ArrayBytes, Reported;
    var t := TotalOf(w, done);
    TotalSnoc(w, done, c);
    ArrayGrows(w, done, c, count);
    ChargedInSteps(0, t.compared, Work(w, c).compared, w.matching.lineComparisons);
    ChargedInSteps(0, t.hits, Work(w, c).hits, w.matching.occurrenceCandidates);
    ChargedInSteps(0, t.failed, Work(w, c).failed, w.countLimit);
    ChargedInSteps(2, ArrayBytes(t), ReportBytes(w, c, count), w.byteLimit);
  }

  // ------------------------------------------------------------- judging a sketch

  ghost predicate Ready(w: World, done: seq<SketchContract>, usage: MatchingUsage, out: SketchDiagnostics)
    reads usage, out
  {
    && ValidWorld(w) && out.w == w && usage.limits == w.matching
    && Reached(w, done, usage.Reading(), out.entries, out.count, out.total)
  }

  /** A sketch whose source file is absent. */
  method JudgeAbsent(w: World, c: SketchContract, usage: MatchingUsage, out: SketchDiagnostics,
      ghost done: seq<SketchContract>)
    returns (r: Result<(), LimitExceeded>)
    requires Ready(w, done, usage, out) && c.file !in w.sources
    modifies out
    ensures r.Success? <==> Payable(w, TotalOf(w, done + [c]))
    ensures r.Success? ==> Ready(w, done + [c], usage, out)
    ensures r.Failure? ==> RefusedAfter(w, done, c, r.error)
  {
    hide Reached, TotalOf, Diagnostics, Charged, DiagnosticSize, ReadingAfter, CountAfter;
    ghost var reading, entries, count, total := usage.Reading(), out.entries, out.count, out.total;
    ReachedWithin(w, done, reading, entries, count, total);
    OneMorePays(w, done, c, reading, entries, count, total);
    ChargeNothing(reading.compared, w.matching.lineComparisons);
    ChargeNothing(reading.hit, w.matching.occurrenceCandidates);
    r := out.Push(MissingFile(LocationOf(c)));
    if r.Success? {
      OneMoreReached(w, done, c, reading, entries, count, total, reading, out.entries, out.count, out.total);
    }
  }

  /** What the scan of one sketch leaves behind, in terms of its work. */
  lemma ScanPays(w: World, c: SketchContract, before: Ledger, after: Ledger, r: Result<Evaluation, LimitExceeded>)
    requires c.file in w.sources && Within(before) && before.limits == w.matching
    requires ScanResult(before, LinesOf(c.snippet), LinesOf(SourceOf(w, c.file)), c.occurrence,
                        w.matching.retainedOccurrenceSpans, c.file, after, r)
    ensures r.Failure? ==> Charged(before.compared, Work(w, c).compared, w.matching.lineComparisons).None?
                           || Charged(before.hit, Work(w, c).hits, w.matching.occurrenceCandidates).None?
    ensures r.Success? ==> r.value == Judged(w, c)
    ensures r.Success? ==> Charged(before.hit, Work(w, c).hits, w.matching.occurrenceCandidates) == Some(after.hit)
    ensures r.Success? ==>
              var search := if Judged(w, c).Missing? then Cells(|LinesOf(SourceOf(w, c.file))|, |LinesOf(c.snippet)|) else 0;
              Charged(before.compared, Work(w, c).compared, w.matching.lineComparisons)
              == Charged(after.compared, search, w.matching.lineComparisons)
  {
    hide Charged, Cells, Compared, Hits, Visited, Evaluate, LinesOf, SourceOf, Overruns, DiagnosticSize;
    var e, s := LinesOf(c.snippet), LinesOf(SourceOf(w, c.file));
    var search := if Judged(w, c).Missing? then Cells(|s|, |e|) else 0;
    ChargedInSteps(before.compared, Compared(e, s, Visited(e, s, c.occurrence)), search, w.matching.lineComparisons);
  }

  /** A failed scan says which budget gave out, and a report refused after a finished one too. */
  lemma ScanRefuses(w: World, c: SketchContract, before: Ledger, after: Ledger, count: nat,
      r: Result<Evaluation, LimitExceeded>, error: LimitExceeded)
    requires c.file in w.sources && Within(before) && before.limits == w.matching
    requires ScanResult(before, LinesOf(c.snippet), LinesOf(SourceOf(w, c.file)), c.occurrence,
                        w.matching.retainedOccurrenceSpans, c.file, after, r)
    requires match r
             case Failure(e) => error == e
             case Success(evaluation) =>
               if evaluation.Missing?
               then error == MissingRefusal(w, c, count, after.compared,
                                            Cells(|LinesOf(SourceOf(w, c.file))|, |LinesOf(c.snippet)|), w.matching)
               else error == ReportRefusal(w, c.contractFile, count)
    ensures Refused(w, c, before, count, error)
  {
    ScanPays(w, c, before, after, r);
    hide Charged, Cells, Compared, Hits, Visited, Evaluate, LinesOf, SourceOf, Overruns, Work;
  }

  /** One sketch of a present source: evaluate, then report what failed. */
  method JudgeOne(w: World, c: SketchContract, source: Normalized, usage: MatchingUsage, out: SketchDiagnostics,
      ghost done: seq<SketchContract>)
    returns (r: Result<bool, LimitExceeded>)
    requires Ready(w, done, usage, out) && c.file in w.sources && source == SourceOf(w, c.file)
    modifies usage, out
    ensures r.Success? <==> Payable(w, TotalOf(w, done + [c]))
    ensures r.Success? ==> Ready(w, done + [c], usage, out)
    ensures r.Success? ==> r.value == Verdict(w, c).None?
    ensures r.Failure? ==> RefusedAfter(w, done, c, r.error)
  {
    hide Reached, TotalOf, Diagnostics, Charged, Evaluate, LinesOf, Cells, ScanResult, SourceOf, DiagnosticSize, Refused;
    hide ReadingAfter, CountAfter;
    ghost var reading, entries, count, total := usage.Reading(), out.entries, out.count, out.total;
    ReachedWithin(w, done, reading, entries, count, total);
    OneMorePays(w, done, c, reading, entries, count, total);
    ChargeNothing(count, w.countLimit);
    ChargeNothing(total, w.byteLimit);
    var evaluated :=
      EvaluateScan(c.snippet, source, c.occurrence, w.matching.retainedOccurrenceSpans, c.file, usage);
    ghost var scanned := usage.Reading();
    ScanPays(w, c, reading, scanned, evaluated);
    if evaluated.Failure? {
      ScanRefuses(w, c, reading, scanned, count, evaluated, evaluated.error);
      return Failure(evaluated.error);
    }
    ChargeNothing(scanned.compared, w.matching.lineComparisons);
    var reported: Result<(), LimitExceeded>;
    match evaluated.value {
      case Satisfied =>
        reported := Success(());
      case Missing =>
        reported := out.PushNotMatched(c, source, usage);
      case OccurrenceMismatch(actual, spans, truncated) =>
        reported := out.Push(Mismatch(LocationOf(c), c.occurrence, actual, spans, truncated));
    }
    if reported.Failure? {
      ScanRefuses(w, c, reading, scanned, count, evaluated, reported.error);
      return Failure(reported.error);
    }
    OneMoreReached(w, done, c, reading, entries, count, total, usage.Reading(), out.entries, out.count, out.total);
    r := Success(evaluated.value.Satisfied?);
  }

  // --------------------------------------------------------------------- a group

  /** What refuses a source that does not fit: its bytes if they cross their limit before the lines do. */
  function SourceRefusal(w: World, file: CatalogPath): LimitExceeded
    requires file in w.sources
  {
    var n, bytes, lines := Normal(w.sources[file]), w.matching.normalizedSourceBytes, w.matching.normalizedSourceLines;
    if |n| > bytes && LineCount(n[..bytes]) <= lines
    then LimitExceeded(NormalizedSourceBytes, bytes, bytes + 1, Some(file))
    else LimitExceeded(NormalizedSourceLines, lines, lines + 1, Some(file))
  }

  lemma PrefixPays(w: World, done: seq<SketchContract>, sketches: seq<SketchContract>, n: nat)
    requires ValidWorld(w) && n <= |sketches| && Payable(w, TotalOf(w, done + sketches))
    ensures Payable(w, TotalOf(w, done + sketches[..n]))
  {
    hide TotalOf, Payable;
    assert done + sketches == (done + sketches[..n]) + sketches[n..];
    TotalAppend(w, done + sketches[..n], sketches[n..]);
    PayableShrinks(w, TotalOf(w, done + sketches[..n]), TotalOf(w, sketches[n..]));
  }

  /** The group is refused at its sketch `i`: everything before is covered, it is not, and the error
      is that of judging it. */
  ghost predicate RefusedAt(w: World, done: seq<SketchContract>, sketches: seq<SketchContract>, i: nat,
      error: LimitExceeded)
  {
    && i < |sketches| && Payable(w, TotalOf(w, done + sketches[..i]))
    && !Payable(w, TotalOf(w, done + sketches[..i + 1]))
    && RefusedAfter(w, done + sketches[..i], sketches[i], error)
  }

  /** The error of a refused group: its source's, or that of the first sketch not covered. */
  ghost predicate GroupRefused(w: World, done: seq<SketchContract>, file: CatalogPath, sketches: seq<SketchContract>,
      error: LimitExceeded)
  {
    if !FileLegible(w, file) then error == SourceRefusal(w, file)
    else exists i: nat :: RefusedAt(w, done, sketches, i, error)
  }

  lemma SketchRefused(w: World, done: seq<SketchContract>, sketches: seq<SketchContract>, i: nat,
      error: LimitExceeded)
    requires i < |sketches| && ValidWorld(w)
    requires Payable(w, TotalOf(w, done + sketches[..i]))
    requires !Payable(w, TotalOf(w, done + sketches[..i] + [sketches[i]]))
    requires RefusedAfter(w, done + sketches[..i], sketches[i], error)
    ensures RefusedAt(w, done, sketches, i, error) && !Payable(w, TotalOf(w, done + sketches))
  {
    hide TotalOf, Payable, RefusedAfter;
    assert done + sketches[..i + 1] == done + sketches[..i] + [sketches[i]];
    if Payable(w, TotalOf(w, done + sketches)) { PrefixPays(w, done, sketches, i + 1); }
  }

  /** A group whose source file is absent: every sketch of it is reported. */
  method AppendAbsent(w: World, file: CatalogPath, sketches: seq<SketchContract>, usage: MatchingUsage,
      out: SketchDiagnostics, ghost done: seq<SketchContract>)
    returns (r: Result<nat, LimitExceeded>)
    requires Ready(w, done, usage, out) && file !in w.sources && forall c :: c in sketches ==> c.file == file
    modifies out
    ensures r.Success? <==> Payable(w, TotalOf(w, done + sketches))
    ensures r.Success? ==> Ready(w, done + sketches, usage, out)
    ensures r.Success? ==> r.value == 0 && |out.entries| == |old(out.entries)| + |sketches|
    ensures r.Failure? ==> GroupRefused(w, done, file, sketches, r.error)
  {
    hide Payable, Ready, TotalOf, Diagnostics, Verdict, RefusedAfter, RefusedAt;
    var i := 0;
    assert done + sketches[..0] == done;
    EntriesAre(w, done, usage, out);
    while i < |sketches|
      invariant 0 <= i <= |sketches|
      invariant Ready(w, done + sketches[..i], usage, out)
      invariant |out.entries| == |old(out.entries)| + i
    {
      assert done + sketches[..i + 1] == (done + sketches[..i]) + [sketches[i]];
      EntriesAre(w, done + sketches[..i], usage, out);
      ReadyWorld(w, done + sketches[..i], usage, out);
      EmptyPays(w, done + sketches[..i], usage, out);
      var pushed := JudgeAbsent(w, sketches[i], usage, out, done + sketches[..i]);
      if pushed.Failure? {
        SketchRefused(w, done, sketches, i, pushed.error);
        return Failure(pushed.error);
      }
      EntriesAre(w, done + sketches[..i + 1], usage, out);
      EntriesGrow(w, done + sketches[..i], sketches[i]);
      AbsentFails(w, sketches[i]);
      i := i + 1;
    }
    assert sketches[..i] == sketches;
    EmptyPays(w, done + sketches, usage, out);
    r := Success(0);
  }

  lemma AbsentFails(w: World, c: SketchContract)
    requires c.file !in w.sources
    ensures Verdict(w, c).Some?
  {
  }

  lemma ReadyWorld(w: World, done: seq<SketchContract>, usage: MatchingUsage, out: SketchDiagnostics)
    requires Ready(w, done, usage, out)
    ensures ValidWorld(w)
  {
  }

  /** `append_diagnostics`: the group's source is normalised once, then every sketch is judged. */
  method AppendDiagnostics(w: World, file: CatalogPath, sketches: seq<SketchContract>, usage: MatchingUsage,
      out: SketchDiagnostics, ghost done: seq<SketchContract>)
    returns (r: Result<nat, LimitExceeded>)
    requires Ready(w, done, usage, out) && forall c :: c in sketches ==> c.file == file
    modifies usage, out
    ensures r.Success? <==> FileLegible(w, file) && Payable(w, TotalOf(w, done + sketches))
    ensures r.Success? ==> Ready(w, done + sketches, usage, out)
    ensures r.Success? ==> r.value + |out.entries| == |old(out.entries)| + |sketches|
    ensures r.Failure? ==> GroupRefused(w, done, file, sketches, r.error)
  {
    hide Payable, Normal, Fits, Ready, TotalOf, Diagnostics, Verdict, RefusedAfter, RefusedAt;
    if file !in w.sources {
      r := AppendAbsent(w, file, sketches, usage, out, done);
      return;
    }
    var source := NormalizeSource(w.sources[file], w.matching, file);
    if source.Failure? { return Failure(source.error); }
    var matched: nat, i: nat := 0, 0;
    assert done + sketches[..0] == done;
    while i < |sketches|
      invariant 0 <= i <= |sketches|
      invariant Ready(w, done + sketches[..i], usage, out)
      invariant matched + |out.entries| == |old(out.entries)| + i
    {
      assert done + sketches[..i + 1] == (done + sketches[..i]) + [sketches[i]];
      EntriesAre(w, done + sketches[..i], usage, out);
      ReadyWorld(w, done + sketches[..i], usage, out);
      EmptyPays(w, done + sketches[..i], usage, out);
      var judged := JudgeOne(w, sketches[i], source.value, usage, out, done + sketches[..i]);
      if judged.Failure? {
        SketchRefused(w, done, sketches, i, judged.error);
        return Failure(judged.error);
      }
      EntriesAre(w, done + sketches[..i + 1], usage, out);
      EntriesGrow(w, done + sketches[..i], sketches[i]);
      if judged.value { matched := matched + 1; }
      i := i + 1;
    }
    assert sketches[..i] == sketches;
    EmptyPays(w, done + sketches, usage, out);
    r := Success(matched);
  }

  lemma EntriesGrow(w: World, done: seq<SketchContract>, c: SketchContract)
    ensures |Diagnostics(w, done + [c])| == |Diagnostics(w, done)| + if Verdict(w, c).None? then 0 else 1
  {
  }

  /** What has been reached has been paid. */
  lemma EmptyPays(w: World, done: seq<SketchContract>, usage: MatchingUsage, out: SketchDiagnostics)
    requires Ready(w, done, usage, out)
    ensures Payable(w, TotalOf(w, done))
  {
  }

  // -------------------------------------------------------------------- grouping

  /** The sketches of one file, in contract order. */
  function Select(cs: seq<SketchContract>, file: CatalogPath): (r: seq<SketchContract>)
    ensures forall c :: c in r ==> c.file == file
  {
    if cs == [] then []
    else Select(cs[..|cs| - 1], file) + (if cs[|cs| - 1].file == file then [cs[|cs| - 1]] else [])
  }

  function FilesOf(cs: seq<SketchContract>): set<CatalogPath> {
    set c | c in cs :: c.file
  }

  /** `SourceCatalog::groups`: one pass that pushes each sketch to its file's group. */
  method Groups(contracts: seq<SketchContract>) returns (grouped: map<CatalogPath, seq<SketchContract>>)
    ensures grouped.Keys == FilesOf(contracts)
    ensures forall file :: file in grouped ==> grouped[file] == Select(contracts, file)
  {
    hide Select;
    grouped := map[];
    var i := 0;
    assert contracts[..0] == [];
    while i < |contracts|
      invariant 0 <= i <= |contracts|
      invariant grouped.Keys == FilesOf(contracts[..i])
      invariant forall file :: file in grouped ==> grouped[file] == Select(contracts[..i], file)
    {
      var c := contracts[i];
      assert contracts[..i + 1] == contracts[..i] + [c];
      GroupsSnoc(contracts[..i], c);
      var group := if c.file in grouped then grouped[c.file] else [];
      grouped := grouped[c.file := group + [c]];
      i := i + 1;
    }
    assert contracts[..i] == contracts;
  }

  lemma SelectSnoc(cs: seq<SketchContract>, c: SketchContract, file: CatalogPath)
    ensures Select(cs + [c], file) == if c.file == file then Select(cs, file) + [c] else Select(cs, file)
  {
    assert (cs + [c])[..|cs|] == cs;
  }

  lemma GroupsSnoc(cs: seq<SketchContract>, c: SketchContract)
    ensures FilesOf(cs + [c]) == FilesOf(cs) + {c.file}
    ensures forall file :: Select(cs + [c], file) == if c.file == file then Select(cs, file) + [c] else Select(cs, file)
    ensures c.file !in FilesOf(cs) ==> Select(cs, c.file) == []
  {
    hide Select;
    forall file
      ensures Select(cs + [c], file) == if c.file == file then Select(cs, file) + [c] else Select(cs, file)
    {
      SelectSnoc(cs, c, file);
    }
    if c.file !in FilesOf(cs) { SelectNothing(cs, c.file); }
  }

  lemma {:induction false} SelectNothing(cs: seq<SketchContract>, file: CatalogPath)
    requires forall c :: c in cs ==> c.file != file
    ensures Select(cs, file) == []
  {
    if cs != [] { SelectNothing(cs[..|cs| - 1], file); }
  }

  predicate PathLeq(a: CatalogPath, b: CatalogPath) {
    BytesLeq(a, b)
  }

  lemma PathLeqIsTotal()
    ensures TotalOrder(PathLeq)
  {
    hide LexBy;
    BytesLeqIsTotal();
  }

  /** The order in which a check visits the sketches. */
  function Flatten(files: seq<CatalogPath>, cs: seq<SketchContract>): seq<SketchContract> {
    if files == [] then [] else Flatten(files[..|files| - 1], cs) + Select(cs, files[|files| - 1])
  }

  lemma FlattenSnoc(files: seq<CatalogPath>, cs: seq<SketchContract>, n: nat)
    requires n < |files|
    ensures Flatten(files[..n + 1], cs) == Flatten(files[..n], cs) + Select(cs, files[n])
  {
    assert files[..n + 1][..n] == files[..n];
  }

  lemma {:induction false} SelectCounts(cs: seq<SketchContract>, file: CatalogPath, c: SketchContract)
    ensures multiset(Select(cs, file))[c] == if c.file == file then multiset(cs)[c] else 0
  {
    if cs != [] {
      assert cs == cs[..|cs| - 1] + [cs[|cs| - 1]];
      SelectCounts(cs[..|cs| - 1], file, c);
    }
  }

  lemma {:induction false} FlattenCounts(files: seq<CatalogPath>, cs: seq<SketchContract>, c: SketchContract)
    requires Distinct(files)
    ensures multiset(Flatten(files, cs))[c] == if c.file in files then multiset(cs)[c] else 0
  {
    hide Select;
    if files != [] {
      var front, last := files[..|files| - 1], files[|files| - 1];
      assert files == front + [last];
      FlattenCounts(front, cs, c);
      SelectCounts(cs, last, c);
    }
  }

  /** Grouping loses and repeats no sketch. */
  lemma FlattenIsPermutation(files: seq<CatalogPath>, cs: seq<SketchContract>)
    requires Distinct(files) && forall file :: file in files <==> file in FilesOf(cs)
    ensures multiset(Flatten(files, cs)) == multiset(cs)
  {
    forall c ensures multiset(Flatten(files, cs))[c] == multiset(cs)[c] {
      FlattenCounts(files, cs, c);
      if c in cs { assert c.file in FilesOf(cs); }
    }
  }

  lemma {:induction false} PrefixFiles(files: seq<CatalogPath>, cs: seq<SketchContract>,
      n: nat) returns (rest: seq<SketchContract>)
    requires n <= |files|
    ensures Flatten(files, cs) == Flatten(files[..n], cs) + rest
  {
    hide Select;
    if n == |files| {
      assert files[..n] == files;
      rest := [];
    } else {
      var front := files[..|files| - 1];
      assert front[..n] == files[..n];
      var before := PrefixFiles(front, cs, n);
      rest := before + Select(cs, files[|files| - 1]);
    }
  }

  // ------------------------------------------------------------- the whole check

  datatype Comparison = Comparison(sketches: nat, matched: nat, failed: nat, diagnostics: seq<Diagnostic>)

  lemma LegibleByFile(w: World, cs: seq<SketchContract>, files: seq<CatalogPath>)
    requires forall file :: file in files <==> file in FilesOf(cs)
    ensures Legible(w, cs) <==> forall file :: file in files ==> FileLegible(w, file)
  {
    if Legible(w, cs) {
      forall file | file in files ensures FileLegible(w, file) {
        var c :| c in cs && c.file == file;
      }
    } else {
      var c :| c in cs && !FileLegible(w, c.file);
      assert c.file in FilesOf(cs) && !FileLegible(w, c.file);
    }
  }

  /** The check is refused at its group `j`: the groups before it are legible and covered. */
  ghost predicate GroupRefusedAt(w: World, files: seq<CatalogPath>, contracts: seq<SketchContract>, j: nat,
      error: LimitExceeded)
  {
    && j < |files| && (forall k :: 0 <= k < j ==> FileLegible(w, files[k]))
    && Payable(w, TotalOf(w, Flatten(files[..j], contracts)))
    && GroupRefused(w, Flatten(files[..j], contracts), files[j], Select(contracts, files[j]), error)
  }

  /** The error of a refused check, groups visited in file order. */
  ghost predicate CheckRefused(w: World, files: seq<CatalogPath>, contracts: seq<SketchContract>,
      error: LimitExceeded)
  {
    if w.byteLimit < 2 then error == LimitExceeded(DiagnosticBytes, w.byteLimit, 2, None)
    else exists j: nat :: GroupRefusedAt(w, files, contracts, j, error)
  }

  /** The loop of `check` over the groups, in file order. */
  method JudgeGroups(w: World, contracts: seq<SketchContract>, files: seq<CatalogPath>,
      grouped: map<CatalogPath, seq<SketchContract>>, usage: MatchingUsage, out: SketchDiagnostics)
    returns (r: Result<nat, LimitExceeded>)
    requires Ready(w, [], usage, out)
    requires forall file :: file in files ==> file in grouped && grouped[file] == Select(contracts, file)
    modifies usage, out
    ensures r.Success? <==>
              (forall file :: file in files ==> FileLegible(w, file))
              && Payable(w, TotalOf(w, Flatten(files, contracts)))
    ensures r.Success? ==> Ready(w, Flatten(files, contracts), usage, out)
    ensures r.Success? ==> r.value + |out.entries| == |Flatten(files, contracts)|
    ensures r.Failure? ==> exists j: nat :: GroupRefusedAt(w, files, contracts, j, r.error)
  {
    hide Payable, FileLegible, Flatten, Select, Diagnostics, TotalOf, Reached, GroupRefused;
    FlattenNothing(contracts);
    assert files[..0] == [];
    EntriesAre(w, [], usage, out);
    TotalNone(w);
    var matched: nat, i: nat := 0, 0;
    while i < |files|
      invariant 0 <= i <= |files|
      invariant Ready(w, Flatten(files[..i], contracts), usage, out)
      invariant matched + |out.entries| == |Flatten(files[..i], contracts)|
      invariant forall k :: 0 <= k < i ==> FileLegible(w, files[k])
    {
      FlattenSnoc(files, contracts, i);
      EmptyPays(w, Flatten(files[..i], contracts), usage, out);
      var group :=
        AppendDiagnostics(w, files[i], grouped[files[i]], usage, out, Flatten(files[..i], contracts));
      if group.Failure? {
        if Payable(w, TotalOf(w, Flatten(files, contracts))) {
          var rest := PrefixFiles(files, contracts, i + 1);
          TotalAppend(w, Flatten(files[..i + 1], contracts), rest);
          PayableShrinks(w, TotalOf(w, Flatten(files[..i + 1], contracts)), TotalOf(w, rest));
        }
        assert GroupRefusedAt(w, files, contracts, i, group.error);
        return Failure(group.error);
      }
      matched := matched + group.value;
      i := i + 1;
    }
    assert files[..i] == files;
    EmptyPays(w, Flatten(files, contracts), usage, out);
    r := Success(matched);
  }

  /** By location and kind; only reports of one location and kind may stand in any order. */
  ghost predicate InReportOrder(ds: seq<Diagnostic>) {
    forall i, j :: 0 <= i < j < |ds| ==> ReportedBefore(ds[i], ds[j]) || DiagnosticKey(ds[i]) == DiagnosticKey(ds[j])
  }

  lemma SortedReports(ds: seq<Diagnostic>)
    requires Sorted(KeyLeq, Keys(ds))
    ensures InReportOrder(ds)
  {
    hide KeyLeq, DiagnosticKey, ReportedBefore;
    forall i, j | 0 <= i < j < |ds|
      ensures ReportedBefore(ds[i], ds[j]) || DiagnosticKey(ds[i]) == DiagnosticKey(ds[j])
    {
      KeyAt(ds, i);
      KeyAt(ds, j);
      DiagnosticLeqMeans(ds[i], ds[j]);
    }
  }

  /** The grouped check against the direct loop: it succeeds exactly when every referenced source
      normalises and the budgets cover the direct loop's totals; matched and failed sketches add up
      to all of them; and its diagnostics are those of the direct loop, sorted, each showing what
      `VerdictMeans` says of its sketch. */
  method Check(w: World, contracts: seq<SketchContract>) returns (r: Result<Comparison, LimitExceeded>)
    requires ValidWorld(w)
    ensures r.Success? <==> Legible(w, contracts) && Payable(w, TotalOf(w, contracts))
    ensures r.Success? ==>
              && r.value.sketches == |contracts| && r.value.matched + r.value.failed == |contracts|
              && r.value.failed == |r.value.diagnostics| == |Diagnostics(w, contracts)|
              && multiset(r.value.diagnostics) == multiset(Diagnostics(w, contracts))
              && Sorted(KeyLeq, Keys(r.value.diagnostics))
              && ReportMeans(w, contracts, r.value.diagnostics) && InReportOrder(r.value.diagnostics)
    ensures r.Success? && UniqueIds(contracts) ==>
              r.value.diagnostics == SortDiagnostics(Diagnostics(w, contracts))
    ensures r.Failure? ==> CheckRefused(w, Ascending(PathLeq, FilesOf(contracts)), contracts, r.error)
  {
    hide GroupRefusedAt, ReportMeans, InReportOrder;
    hide Payable, Legible, FileLegible, Flatten, Select, FilesOf, Diagnostics, TotalOf, Sort, UniqueIds, Keys;
    if w.byteLimit < 2 {
      NeedsFraming(w, TotalOf(w, contracts));
      return Failure(LimitExceeded(DiagnosticBytes, w.byteLimit, 2, None));
    }
    var out := new SketchDiagnostics(w);
    var usage := new MatchingUsage(w.matching);
    var grouped := Groups(contracts);
    PathLeqIsTotal();
    var files := Enumerate(PathLeq, grouped.Keys);
    FlattenIsPermutation(files, contracts);
    LegibleByFile(w, contracts, files);
    ghost var all := Flatten(files, contracts);
    TotalPermutation(w, all, contracts);
    StartReached(w, usage, out);
    var judged := JudgeGroups(w, contracts, files, grouped, usage, out);
    if judged.Failure? { return Failure(judged.error); }
    EntriesAre(w, all, usage, out);
    SortsByKey(out.entries);
    SameSize(all, contracts);
    SameSize(Diagnostics(w, all), Diagnostics(w, contracts));
    if UniqueIds(contracts) {
      UniqueIdsTell(w, contracts);
      SortIgnoresOrder(Diagnostics(w, contracts), Diagnostics(w, all));
    }
    ghost var sorted := SortDiagnostics(out.entries);
    DiagnosticsMean(w, contracts, sorted);
    SortedReports(sorted);
    r := Success(Comparison(|contracts|, judged.value, |out.entries|, SortDiagnostics(out.entries)));
  }

  lemma NeedsFraming(w: World, t: Totals)
    requires w.byteLimit < 2
    ensures !Payable(w, t)
  {
  }

  lemma FlattenNothing(cs: seq<SketchContract>)
    ensures Flatten([], cs) == []
  {
  }

  lemma StartReached(w: World, usage: MatchingUsage, out: SketchDiagnostics)
    requires ValidWorld(w) && 2 <= w.byteLimit && out.w == w && usage.limits == w.matching
    requires usage.Reading() == Ledger(0, 0, w.matching) && out.entries == [] && out.count == 0 && out.total == 2
    ensures Ready(w, [], usage, out)
  {
  }

  lemma EntriesAre(w: World, done: seq<SketchContract>, usage: MatchingUsage, out: SketchDiagnostics)
    requires Ready(w, done, usage, out)
    ensures out.entries == Diagnostics(w, done)
  {
  }

  lemma SortsByKey(ds: seq<Diagnostic>)
    ensures Sorted(KeyLeq, Keys(SortDiagnostics(ds))) && |SortDiagnostics(ds)| == |ds|
  {
    hide KeyLeq, DiagnosticKey;
    KeyLeqIsTotal();
    SortKeys(ds);
    SortSorts(KeyLeq, Keys(ds));
  }

  // --------------------------------------------------------- one error, no choice

  lemma OverrunIsUnique(ledger: Ledger, e: Text, s: Text, m: nat, n: nat, file: CatalogPath,
      a: LimitExceeded, b: LimitExceeded)
    requires Overruns(ledger, e, s, m, file, a) && Overruns(ledger, e, s, n, file, b)
    ensures a == b
  {
    hide Affordable;
    if m < n {
      OverrunEndsAffording(ledger, e, s, m, n, file, a);
    } else if n < m {
      OverrunEndsAffording(ledger, e, s, n, m, file, b);
    }
  }

  lemma OverrunEndsAffording(ledger: Ledger, e: Text, s: Text, m: nat, n: nat, file: CatalogPath, error: LimitExceeded)
    requires Overruns(ledger, e, s, m, file, error) && m < n
    ensures !Affordable(ledger, e, s, n, n)
  {
    hide Affordable;
    if !Affordable(ledger, e, s, m + 1, m) {
      StaysUnaffordable(ledger, e, s, m + 1, m, n, n);
    } else {
      StaysUnaffordable(ledger, e, s, m + 1, m + 1, n, n);
    }
  }

  lemma RefusedIsUnique(w: World, c: SketchContract, reading: Ledger, count: nat, a: LimitExceeded, b: LimitExceeded)
    requires Refused(w, c, reading, count, a) && Refused(w, c, reading, count, b)
    ensures a == b
  {
    hide Affordable, Overruns, Work, Charged, Judged, Visited, LinesOf, SourceOf;
    if c.file in w.sources {
      var e, s := LinesOf(c.snippet), LinesOf(SourceOf(w, c.file));
      var stop := Visited(e, s, c.occurrence);
      if !Affordable(reading, e, s, stop, stop) {
        var m: nat :| m < stop && Overruns(reading, e, s, m, c.file, a);
        var n: nat :| n < stop && Overruns(reading, e, s, n, c.file, b);
        OverrunIsUnique(reading, e, s, m, n, c.file, a, b);
      }
    }
  }

  lemma RefusedAtIsUnique(w: World, done: seq<SketchContract>, sketches: seq<SketchContract>, i: nat, j: nat,
      a: LimitExceeded, b: LimitExceeded)
    requires ValidWorld(w) && RefusedAt(w, done, sketches, i, a) && RefusedAt(w, done, sketches, j, b)
    ensures a == b
  {
    hide Payable, TotalOf, Refused;
    if i < j {
      assert sketches[..j][..i + 1] == sketches[..i + 1];
      PrefixPays(w, done, sketches[..j], i + 1);
    } else if j < i {
      assert sketches[..i][..j + 1] == sketches[..j + 1];
      PrefixPays(w, done, sketches[..i], j + 1);
    } else {
      RefusedIsUnique(w, sketches[i], ReadingAfter(w, done + sketches[..i]), CountAfter(w, done + sketches[..i]), a, b);
    }
  }

  lemma GroupRefusedIsUnique(w: World, done: seq<SketchContract>, file: CatalogPath, sketches: seq<SketchContract>,
      a: LimitExceeded, b: LimitExceeded)
    requires ValidWorld(w) && GroupRefused(w, done, file, sketches, a) && GroupRefused(w, done, file, sketches, b)
    ensures a == b
  {
    hide RefusedAt, FileLegible, SourceRefusal;
    if FileLegible(w, file) {
      var i: nat :| RefusedAt(w, done, sketches, i, a);
      var j: nat :| RefusedAt(w, done, sketches, j, b);
      RefusedAtIsUnique(w, done, sketches, i, j, a, b);
    }
  }

  /** A refused group is the last one a check can reach. */
  lemma RefusedGroupIsLast(w: World, files: seq<CatalogPath>, contracts: seq<SketchContract>, j: nat, k: nat,
      error: LimitExceeded)
    requires ValidWorld(w) && GroupRefusedAt(w, files, contracts, j, error) && j < k < |files|
    requires FileLegible(w, files[j])
    ensures !Payable(w, TotalOf(w, Flatten(files[..k], contracts)))
  {
    hide Payable, TotalOf, RefusedAfter, FileLegible, Flatten, Select;
    var done, sketches := Flatten(files[..j], contracts), Select(contracts, files[j]);
    var i: nat :| RefusedAt(w, done, sketches, i, error);
    var rest := PrefixFiles(files[..k], contracts, j + 1);
    assert files[..k][..j + 1] == files[..j + 1];
    FlattenSnoc(files, contracts, j);
    var tail := sketches + rest;
    assert Flatten(files[..k], contracts) == done + tail;
    assert tail[..i + 1] == sketches[..i + 1];
    if Payable(w, TotalOf(w, done + tail)) { PrefixPays(w, done, tail, i + 1); }
  }

  /** A refused check has exactly one error it can return. */
  lemma CheckRefusedIsUnique(w: World, files: seq<CatalogPath>, contracts: seq<SketchContract>,
      a: LimitExceeded, b: LimitExceeded)
    requires ValidWorld(w) && CheckRefused(w, files, contracts, a) && CheckRefused(w, files, contracts, b)
    ensures a == b
  {
    hide Payable, TotalOf, GroupRefused, FileLegible, Flatten, Select;
    if w.byteLimit >= 2 {
      var j: nat :| GroupRefusedAt(w, files, contracts, j, a);
      var k: nat :| GroupRefusedAt(w, files, contracts, k, b);
      if j < k {
        RefusedGroupIsLast(w, files, contracts, j, k, a);
      } else if k < j {
        RefusedGroupIsLast(w, files, contracts, k, j, b);
      } else {
        GroupRefusedIsUnique(w, Flatten(files[..j], contracts), files[j], Select(contracts, files[j]), a, b);
      }
    }
  }

  // --------------------------------------------------------- what an error names

  lemma {:induction false} SelectedFrom(cs: seq<SketchContract>, file: CatalogPath, c: SketchContract)
    requires c in Select(cs, file)
    ensures c in cs && c.file == file
  {
    if cs != [] && c in Select(cs[..|cs| - 1], file) { SelectedFrom(cs[..|cs| - 1], file, c); }
  }

  /** The limit that refuses a check on account of sketch `c`, one past it, and the file at fault: the
      source file for normalisation and matching, the contract file for the report. */
  ghost predicate NamesLimit(w: World, c: SketchContract, error: LimitExceeded) {
    var m := w.matching;
    || error == LimitExceeded(NormalizedSourceBytes, m.normalizedSourceBytes, m.normalizedSourceBytes + 1, Some(c.file))
    || error == LimitExceeded(NormalizedSourceLines, m.normalizedSourceLines, m.normalizedSourceLines + 1, Some(c.file))
    || error == LimitExceeded(MatchingLineComparisons, m.lineComparisons, m.lineComparisons + 1, Some(c.file))
    || error == LimitExceeded(OccurrenceCandidateCount, m.occurrenceCandidates, m.occurrenceCandidates + 1, Some(c.file))
    || error == LimitExceeded(DiagnosticCount, w.countLimit, w.countLimit + 1, Some(c.contractFile))
    || error == LimitExceeded(DiagnosticBytes, w.byteLimit, w.byteLimit + 1, Some(c.contractFile))
  }

  lemma RefusedNames(w: World, c: SketchContract, reading: Ledger, count: nat, error: LimitExceeded)
    requires Refused(w, c, reading, count, error) && reading.limits == w.matching
    ensures NamesLimit(w, c, error)
  {
    hide Affordable, Charged, Visited, LinesOf, SourceOf, Judged, Work;
  }

  /** A refused check names a limit of its own, exceeded by one, and a file of one of its sketches, or
      has no room even for the brackets of an empty report. */
  lemma RefusalNamesItsLimit(w: World, contracts: seq<SketchContract>, error: LimitExceeded)
    requires ValidWorld(w) && CheckRefused(w, Ascending(PathLeq, FilesOf(contracts)), contracts, error)
    ensures || (w.byteLimit < 2 && error == LimitExceeded(DiagnosticBytes, w.byteLimit, 2, None))
            || exists c :: c in contracts && NamesLimit(w, c, error)
  {
    hide Payable, TotalOf, FileLegible, Flatten, Refused, NamesLimit, Select;
    if w.byteLimit >= 2 {
      var files := Ascending(PathLeq, FilesOf(contracts));
      var j: nat :| GroupRefusedAt(w, files, contracts, j, error);
      var done, sketches := Flatten(files[..j], contracts), Select(contracts, files[j]);
      if !FileLegible(w, files[j]) {
        assert files[j] in files;
        var c :| c in contracts && c.file == files[j];
        SourceNames(w, c, error);
      } else {
        var i: nat :| RefusedAt(w, done, sketches, i, error);
        assert sketches[i] in sketches;
        SelectedFrom(contracts, files[j], sketches[i]);
        RefusedNames(w, sketches[i], ReadingAfter(w, done + sketches[..i]), CountAfter(w, done + sketches[..i]), error);
      }
    }
  }

  lemma SourceNames(w: World, c: SketchContract, error: LimitExceeded)
    requires !FileLegible(w, c.file) && error == SourceRefusal(w, c.file)
    ensures NamesLimit(w, c, error)
  {
  }

  // ------------------------------------------------------------- the visiting order

  /** Positions of the sketches of `visited` in the contract. */
  ghost predicate Positions(cs: seq<SketchContract>, visited: seq<SketchContract>, ks: seq<nat>) {
    |ks| == |visited| && forall i :: 0 <= i < |ks| ==> ks[i] < |cs| && visited[i] == cs[ks[i]]
  }

  lemma {:induction false} SelectPositions(cs: seq<SketchContract>, file: CatalogPath) returns (ks: seq<nat>)
    ensures Positions(cs, Select(cs, file), ks)
    ensures forall i, j :: 0 <= i < j < |ks| ==> ks[i] < ks[j]
  {
    if cs == [] {
      ks := [];
    } else {
      var n := |cs| - 1;
      ks := SelectPositions(cs[..n], file);
      if cs[n].file == file { ks := ks + [n]; }
    }
  }

  /** By source file in path order, and within a file in contract order. */
  ghost predicate VisitsInOrder(cs: seq<SketchContract>, visited: seq<SketchContract>, ks: seq<nat>) {
    && Positions(cs, visited, ks)
    && forall i, j :: 0 <= i < j < |ks| ==>
         BytesBefore(visited[i].file, visited[j].file) || (visited[i].file == visited[j].file && ks[i] < ks[j])
  }

  lemma VisitsThen(cs: seq<SketchContract>, done: seq<SketchContract>, before: seq<nat>, group: seq<SketchContract>,
      own: seq<nat>, file: CatalogPath)
    requires VisitsInOrder(cs, done, before) && Positions(cs, group, own)
    requires forall i, j :: 0 <= i < j < |own| ==> own[i] < own[j]
    requires forall i :: 0 <= i < |done| ==> BytesBefore(done[i].file, file)
    requires forall i :: 0 <= i < |group| ==> group[i].file == file
    ensures VisitsInOrder(cs, done + group, before + own)
  {
    hide BytesBefore;
    var visited, ks := done + group, before + own;
    forall i, j | 0 <= i < j < |ks|
      ensures BytesBefore(visited[i].file, visited[j].file) || (visited[i].file == visited[j].file && ks[i] < ks[j])
    {
      if j >= |before| {
        assert visited[j] == group[j - |before|];
      }
    }
  }

  lemma EarlierFile(files: seq<CatalogPath>, n: nat, file: CatalogPath)
    requires Sorted(PathLeq, files) && Distinct(files) && n < |files| && file in files[..n]
    ensures BytesBefore(file, files[n])
  {
    var k :| 0 <= k < n && files[k] == file;
    BytesLeqMeans(files[k], files[n]);
  }

  lemma PrefixInOrder(files: seq<CatalogPath>, n: nat)
    requires Sorted(PathLeq, files) && Distinct(files) && n <= |files|
    ensures Sorted(PathLeq, files[..n]) && Distinct(files[..n])
  {
  }

  lemma {:induction false} FlattenPositions(files: seq<CatalogPath>, cs: seq<SketchContract>) returns (ks: seq<nat>)
    requires Sorted(PathLeq, files) && Distinct(files)
    ensures VisitsInOrder(cs, Flatten(files, cs), ks)
    ensures forall c :: c in Flatten(files, cs) ==> c.file in files
  {
    hide BytesBefore, Select, Sorted, Distinct, Positions;
    if files == [] {
      ks := [];
      NothingVisited(cs);
    } else {
      var n := |files| - 1;
      PrefixInOrder(files, n);
      var before := FlattenPositions(files[..n], cs);
      var own := SelectPositions(cs, files[n]);
      var done, group := Flatten(files[..n], cs), Select(cs, files[n]);
      ks := before + own;
      forall i | 0 <= i < |done| ensures BytesBefore(done[i].file, files[n]) {
        assert done[i] in done;
        EarlierFile(files, n, done[i].file);
      }
      forall i | 0 <= i < |group| ensures group[i].file == files[n] { assert group[i] in group; }
      VisitsThen(cs, done, before, group, own, files[n]);
    }
  }

  lemma NothingVisited(cs: seq<SketchContract>)
    ensures VisitsInOrder(cs, [], [])
  {
  }

  /** A check visits each sketch once: by source file in path order, and within a file in contract
      order. The first of them that cannot be judged decides its error. */
  lemma ChecksVisitInOrder(contracts: seq<SketchContract>) returns (ks: seq<nat>)
    ensures var visited := Flatten(Ascending(PathLeq, FilesOf(contracts)), contracts);
            VisitsInOrder(contracts, visited, ks) && multiset(visited) == multiset(contracts)
  {
    hide VisitsInOrder, Flatten, FilesOf;
    PathLeqIsTotal();
    var files := Ascending(PathLeq, FilesOf(contracts));
    AscendingIsSorted(PathLeq, FilesOf(contracts));
    AscendingIsDistinct(PathLeq, FilesOf(contracts));
    FlattenIsPermutation(files, contracts);
    ks := FlattenPositions(files, contracts);
  }
}
