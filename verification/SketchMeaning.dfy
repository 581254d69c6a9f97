/** What the verdict on a sketch shows, told on the lines of the snippet and of the source. */
module SketchMeaning {
  import opened Wrappers
  import opened Orders
  import opened Normalize
  import opened Lines
  import opened Matching
  import opened SketchReport
  import opened SketchCheck
  import Evidence

  /** Every snippet line, laid at `start`, is the source line beneath it. */
  ghost predicate IsStart(e: Text, s: Text, start: nat) {
    e != [] && forall i: nat :: i < |e| ==> LineAgrees(e, s, start, i)
  }

  ghost function Starts(e: Text, s: Text): set<nat> {
    set start: nat | start < |s| && IsStart(e, s, start)
  }

  lemma StartsAreHits(e: Text, s: Text)
    ensures forall start: nat :: start in Starts(e, s) <==> start in Hits(e, s, |s|)
    ensures |Starts(e, s)| == |Hits(e, s, |s|)|
  {
    hide Occurs, LineAgrees;
    var hits := Hits(e, s, |s|);
    HitsAreOccurrences(e, s, |s|);
    forall start: nat ensures start in Starts(e, s) <==> start in hits { OccursMeans(e, s, start); }
    AscendingSet(hits);
    assert Starts(e, s) == Elements(hits);
  }

  ghost function Elements(s: seq<nat>): set<nat> {
    set x | x in s
  }

  lemma ElementsSnoc(front: seq<nat>, last: nat)
    requires last !in front
    ensures |Elements(front + [last])| == |Elements(front)| + 1
  {
    assert Elements(front + [last]) == Elements(front) + {last};
  }

  lemma {:induction false} AscendingSet(hits: seq<nat>)
    requires forall i, j :: 0 <= i < j < |hits| ==> hits[i] < hits[j]
    ensures |Elements(hits)| == |hits|
  {
    hide Elements;
    if hits != [] {
      var front, last := hits[..|hits| - 1], hits[|hits| - 1];
      assert hits == front + [last];
      AscendingSet(front);
      ElementsSnoc(front, last);
    } else {
      EmptyElements();
    }
  }

  lemma EmptyElements()
    ensures Elements([]) == {}
  {
  }

  // ------------------------------------------------------------ what is shown

  ghost predicate LocationMeans(c: SketchContract, l: Location) {
    && l.sketchId == c.id && l.contractFile == c.contractFile
    && l.documentIndex == c.documentIndex && l.sourceFile == c.file
  }

  /** An excerpt of a line: its first `maximum` bytes, escaped so that they can be read back, and
      flagged when there are more; missing exactly when there is no line. */
  ghost predicate ExcerptMeans(x: Evidence.Excerpt, line: Option<seq<Byte>>, maximum: nat) {
    match line
    case None => x.Missing?
    case Some(bytes) =>
      x.Bytes? && Evidence.Unescaped(x.escaped) == Some(bytes[..Min(|bytes|, maximum)])
      && (x.truncated <==> |bytes| > maximum)
  }

  /** The candidate of a snippet that occurs nowhere: laid where most lines agree, the earliest such
      start, it shows the first line that does not, the snippet's as expected and the source's as
      actual, by one-based numbers. */
  ghost predicate CandidateMeans(e: Text, s: Text, maximum: nat, c: Candidate) {
    && 1 <= c.source.first <= |s| && 1 <= c.expectedLine <= |e|
    && var start, d := c.source.first - 1, c.expectedLine - 1;
       && c.source.last == Min(start + |e|, |s|) && c.sourceLine == start + d + 1
       && (forall t: nat :: t < |s| ==> |Agreeing(e, s, t, |e|)| <= |Agreeing(e, s, start, |e|)|)
       && (forall t: nat :: t < start ==> |Agreeing(e, s, t, |e|)| < |Agreeing(e, s, start, |e|)|)
       && !LineAgrees(e, s, start, d) && (forall i: nat :: i < d ==> LineAgrees(e, s, start, i))
       && ExcerptMeans(c.expected, Some(e[d]), maximum)
       && ExcerptMeans(c.actual, if start + d < |s| then Some(s[start + d]) else None, maximum)
  }

  /** The first occurrences, at most `retained` of them, as one-based inclusive spans. */
  ghost predicate SpansMean(e: Text, s: Text, retained: nat, spans: seq<Span>) {
    && |spans| == Min(retained, |Starts(e, s)|)
    && (forall k :: 0 <= k < |spans| ==>
          spans[k].first >= 1 && spans[k].first - 1 in Starts(e, s) && spans[k].last == spans[k].first - 1 + |e|)
    && (forall j, k :: 0 <= j < k < |spans| ==> spans[j].first < spans[k].first)
    && forall start, k :: start in Starts(e, s) && 0 <= k < |spans| && start < spans[k].first ==>
         ListedBy(spans, k, start)
  }

  ghost predicate ListedBy(spans: seq<Span>, k: int, start: nat) {
    exists j :: 0 <= j <= k && j < |spans| && spans[j].first == start + 1
  }

  /** The verdict on one sketch, satisfied or reported. */
  ghost predicate VerdictMeans(w: World, c: SketchContract, v: Option<Diagnostic>) {
    if c.file !in w.sources then
      v.Some? && v.value.MissingFile? && LocationMeans(c, v.value.location)
    else
      var e, s := LinesOf(c.snippet), LinesOf(SourceOf(w, c.file));
      match v
      case None => if c.occurrence.AtLeastOne? then Starts(e, s) != {} else |Starts(e, s)| == 1
      case Some(NotMatched(l, candidate)) =>
        && LocationMeans(c, l) && Starts(e, s) == {}
        && (candidate.None? <==> e == [] || s == [])
        && (candidate.Some? ==> CandidateMeans(e, s, w.excerptMaximum, candidate.value))
      case Some(Mismatch(l, occurrence, actual, spans, truncated)) =>
        && LocationMeans(c, l) && occurrence == c.occurrence && occurrence.ExactlyOne?
        && actual == |Starts(e, s)| && actual >= 2
        && SpansMean(e, s, w.matching.retainedOccurrenceSpans, spans)
        && (truncated <==> |spans| < actual)
      case Some(MissingFile(_)) => false
  }

  lemma ExcerptIs(line: Option<seq<Byte>>, maximum: nat)
    ensures ExcerptMeans(Evidence.ExcerptOf(line, maximum), line, maximum)
  {
    if line.Some? { Evidence.EscapedReads(line.value[..Min(|line.value|, maximum)]); }
  }

  lemma BestAgrees(e: Text, s: Text, start: nat)
    requires EarliestBest(e, s, |s|, start)
    ensures start < |s|
    ensures forall t: nat :: t < |s| ==> |Agreeing(e, s, t, |e|)| <= |Agreeing(e, s, start, |e|)|
    ensures forall t: nat :: t < start ==> |Agreeing(e, s, t, |e|)| < |Agreeing(e, s, start, |e|)|
  {
    hide Agreeing, Score;
    forall t: nat ensures |Agreeing(e, s, t, |e|)| == FullScore(e, s, t) { ScoreMeans(e, s, t, |e|); }
  }

  lemma CandidateIs(e: Normalized, s: Normalized, p: Position, maximum: nat)
    requires BestCandidate(LinesOf(e), LinesOf(s)) == Some(p)
    ensures CandidateMeans(LinesOf(e), LinesOf(s), maximum, CandidateOf(e, s, p, maximum))
  {
    hide LinesOf, LineAt, IsEmpty, NumLines, ExcerptMeans, BestCandidate, Score, Agreeing, EarliestBest;
    var x, y := LinesOf(e), LinesOf(s);
    IndexReadsLines(e);
    IndexReadsLines(s);
    CandidateIsExactly(x, y, p);
    ExcerptIs(LineAt(e, p.firstDifference), maximum);
    ExcerptIs(LineAt(s, p.start + p.firstDifference), maximum);
    BestAgrees(x, y, p.start);
    forall i: nat | i < p.firstDifference ensures LineAgrees(x, y, p.start, i) {
      assert Aligned(x, y, p.start, i);
    }
  }

  lemma HitsMean(e: Text, s: Text)
    ensures forall start: nat :: start in Starts(e, s) <==> start in Hits(e, s, |s|)
    ensures |Starts(e, s)| == |Hits(e, s, |s|)|
    ensures forall i, j :: 0 <= i < j < |Hits(e, s, |s|)| ==> Hits(e, s, |s|)[i] < Hits(e, s, |s|)[j]
  {
    StartsAreHits(e, s);
    HitsAreOccurrences(e, s, |s|);
  }

  lemma ListedInOrder(e: Text, hits: seq<nat>, n: nat, k: nat, j: nat)
    requires k < n <= |hits| && j < |hits| && forall i, l :: 0 <= i < l < |hits| ==> hits[i] < hits[l]
    requires hits[j] < Spans(e, hits[..n])[k].first
    ensures ListedBy(Spans(e, hits[..n]), k, hits[j])
  {
    assert Spans(e, hits[..n])[k] == SpanOf(e, hits[k]);
    assert j <= k;
    assert Spans(e, hits[..n])[j] == SpanOf(e, hits[j]);
  }

  lemma SpansAre(e: Text, s: Text, retained: nat)
    ensures var hits := Hits(e, s, |s|); SpansMean(e, s, retained, Spans(e, hits[..Min(retained, |hits|)]))
  {
    hide Starts, Hits, ListedBy;
    var hits := Hits(e, s, |s|);
    HitsMean(e, s);
    var n := Min(retained, |hits|);
    var spans := Spans(e, hits[..n]);
    forall k | 0 <= k < |spans| ensures spans[k] == SpanOf(e, hits[k]) && hits[k] in hits {}
    forall start, k | start in Starts(e, s) && 0 <= k < |spans| && start < spans[k].first
      ensures ListedBy(spans, k, start)
    {
      var j :| 0 <= j < |hits| && hits[j] == start;
      ListedInOrder(e, hits, n, k, j);
    }
  }

  /** Whether a sketch is satisfied, and what is reported of it if not. */
  lemma VerdictIs(w: World, c: SketchContract)
    ensures VerdictMeans(w, c, Verdict(w, c))
  {
    hide LinesOf, CandidateMeans, SpansMean, CandidateOf, BestCandidate, Starts;
    if c.file in w.sources {
      var e, s := LinesOf(c.snippet), LinesOf(SourceOf(w, c.file));
      StartsAreHits(e, s);
      SpansAre(e, s, w.matching.retainedOccurrenceSpans);
      if Judged(w, c).Missing? {
        NoneIsEmpty(e, s, c.occurrence, w.matching.retainedOccurrenceSpans);
        match BestCandidate(e, s) {
          case Some(p) => CandidateIs(c.snippet, SourceOf(w, c.file), p, w.excerptMaximum);
          case None =>
        }
      }
    }
  }

  lemma NoneIsEmpty(e: Text, s: Text, occurrence: Occurrence, retained: nat)
    requires Evaluate(e, s, occurrence, retained).Missing?
    ensures BestCandidate(e, s).None? <==> e == [] || s == []
  {
    if e != [] && s != [] { MissingHasCandidate(e, s, occurrence, retained); }
  }

  // --------------------------------------------------------------- what it costs

  predicate Covers(limit: nat, n: nat) {
    n <= limit || limit == U64_MAX
  }

  /** The budgets cover a check exactly when each limit does: comparisons, occurrences, diagnostics, and
      the bytes of the serialised array with its brackets and commas. A limit of `u64::MAX` covers all. */
  lemma PayableMeans(w: World, t: Totals)
    requires ValidWorld(w)
    ensures Payable(w, t) <==>
              && Covers(w.matching.lineComparisons, t.compared) && Covers(w.matching.occurrenceCandidates, t.hits)
              && Covers(w.countLimit, t.failed) && 2 <= w.byteLimit && Covers(w.byteLimit, 2 + ArrayBytes(t))
  {
  }

  /** Line comparisons at the starts below `n`. */
  ghost function ComparedBelow(e: Text, s: Text, n: nat): nat {
    if n == 0 then 0 else ComparedBelow(e, s, n - 1) + Cost(e, s, n - 1)
  }

  lemma {:induction false} ComparedIs(e: Text, s: Text, n: nat)
    ensures Compared(e, s, n) == ComparedBelow(e, s, n)
  {
    if n > 0 { ComparedIs(e, s, n - 1); }
  }

  /** Starts looked at: all of them, or up to the first occurrence where one is enough. */
  ghost predicate LookedAt(e: Text, s: Text, occurrence: Occurrence, stop: nat) {
    if occurrence.AtLeastOne? && Starts(e, s) != {}
    then stop > 0 && stop - 1 in Starts(e, s) && forall start :: start in Starts(e, s) ==> stop - 1 <= start
    else stop == |s|
  }

  /** What one sketch is charged: the comparisons at every start looked at, one occurrence for each
      start found, and for a sketch found nowhere one more comparison for every pair of a source line
      and a snippet line. */
  lemma WorkMeans(w: World, c: SketchContract)
    requires c.file in w.sources
    ensures var e, s := LinesOf(c.snippet), LinesOf(SourceOf(w, c.file));
            exists stop: nat :: LookedAt(e, s, c.occurrence, stop)
              && Work(w, c).compared == ComparedBelow(e, s, stop) + (if Starts(e, s) == {} then |s| * |e| else 0)
              && Work(w, c).hits == (if c.occurrence.AtLeastOne? && Starts(e, s) != {} then 1 else |Starts(e, s)|)
  {
    hide LinesOf, Starts, Hits, Compared, DiagnosticSize;
    var e, s := LinesOf(c.snippet), LinesOf(SourceOf(w, c.file));
    var stop := Visited(e, s, c.occurrence);
    HitsMean(e, s);
    ComparedIs(e, s, stop);
    if c.occurrence.AtLeastOne? && Hits(e, s, |s|) != [] {
      OneHit(e, s);
      assert Hits(e, s, |s|)[0] in Hits(e, s, |s|);
    }
    assert LookedAt(e, s, c.occurrence, stop);
  }

  lemma OneHit(e: Text, s: Text)
    requires Hits(e, s, |s|) != []
    ensures |Hits(e, s, Hits(e, s, |s|)[0] + 1)| == 1
  {
    var first := Hits(e, s, |s|)[0];
    HitsAreOccurrences(e, s, |s|);
    HitsAreOccurrences(e, s, first);
    HitsExtend(e, s, first, |s|);
    if Hits(e, s, first) != [] { assert false; }
    assert first in Hits(e, s, |s|);
  }

  // ------------------------------------------------------------- the whole report

  /** Every sketch is satisfied or reported, and everything reported is a sketch's. */
  ghost predicate ReportMeans(w: World, cs: seq<SketchContract>, ds: seq<Diagnostic>) {
    && (forall d :: d in ds ==> exists c :: c in cs && VerdictMeans(w, c, Some(d)))
    && (forall c :: c in cs ==> VerdictMeans(w, c, None) || exists d :: d in ds && VerdictMeans(w, c, Some(d)))
  }

  lemma {:induction false} ReportHas(w: World, cs: seq<SketchContract>, c: SketchContract)
    requires c in cs && Verdict(w, c).Some?
    ensures Verdict(w, c).value in Diagnostics(w, cs)
  {
    hide Verdict;
    var front, last := cs[..|cs| - 1], cs[|cs| - 1];
    assert cs == front + [last];
    if c in front { ReportHas(w, front, c); }
  }

  lemma DiagnosticsMean(w: World, cs: seq<SketchContract>, ds: seq<Diagnostic>)
    requires multiset(ds) == multiset(Diagnostics(w, cs))
    ensures ReportMeans(w, cs, ds)
  {
    hide Verdict, VerdictMeans, Diagnostics;
    forall d | d in ds ensures exists c :: c in cs && VerdictMeans(w, c, Some(d)) {
      assert d in multiset(ds) && d in multiset(Diagnostics(w, cs));
      var c := DiagnosticOrigin(w, cs, d);
      VerdictIs(w, c);
    }
    forall c | c in cs ensures VerdictMeans(w, c, None) || exists d :: d in ds && VerdictMeans(w, c, Some(d)) {
      VerdictIs(w, c);
      if Verdict(w, c).Some? {
        ReportHas(w, cs, c);
        assert Verdict(w, c).value in multiset(Diagnostics(w, cs)) && Verdict(w, c).value in multiset(ds);
      }
    }
  }

  /** Reports are ordered by sketch id, contract file, document, source file and kind, in turn. */
  ghost predicate ReportedBefore(a: Diagnostic, b: Diagnostic) {
    var x, y := a.location, b.location;
    if x.sketchId != y.sketchId then BytesBefore(x.sketchId, y.sketchId)
    else if x.contractFile != y.contractFile then BytesBefore(x.contractFile, y.contractFile)
    else if x.documentIndex != y.documentIndex then x.documentIndex < y.documentIndex
    else if x.sourceFile != y.sourceFile then BytesBefore(x.sourceFile, y.sourceFile)
    else (a.MissingFile? && !b.MissingFile?) || (a.NotMatched? && b.Mismatch?)
  }

  lemma DiagnosticLeqMeans(a: Diagnostic, b: Diagnostic)
    ensures DiagnosticLeq(a, b) <==> DiagnosticKey(a) == DiagnosticKey(b) || ReportedBefore(a, b)
    ensures DiagnosticKey(a) == DiagnosticKey(b) ==> a.location == b.location
  {
    var x, y := DiagnosticKey(a), DiagnosticKey(b);
    KeyLeqMeans(x, y);
    KeyLeqMeans(x[1..], y[1..]);
    KeyLeqMeans(x[2..], y[2..]);
    KeyLeqMeans(x[3..], y[3..]);
    KeyLeqMeans(x[4..], y[4..]);
    SingleBefore(a.location.documentIndex, b.location.documentIndex);
    SingleBefore(KindRank(a), KindRank(b));
    if x == y { assert x[0] == y[0] && x[1] == y[1] && x[2] == y[2] && x[2][0] == y[2][0] && x[3] == y[3]; }
  }

  lemma SingleBefore(m: int, n: int)
    ensures BytesBefore([m], [n]) <==> m < n
  {
    BeforeCons([m], [n]);
    if m < n { assert [m][..0] == [n][..0]; }
  }
}
