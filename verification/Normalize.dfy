/** `exact_lines_v1` normalisation: one pass that folds CRLF, drops the final terminator, records
    line ranges and enforces two budgets. */
module Normalize {
  import opened Wrappers

  const LF: Byte := 10
  const CR: Byte := 13

  /** A catalog path, ordered as a byte string. */
  type CatalogPath = seq<Byte>

  datatype Resource =
    | SnippetBytes
    | SnippetLines
    | NormalizedSourceBytes
    | NormalizedSourceLines
    | MatchingLineComparisons
    | OccurrenceCandidateCount
    | DiagnosticCount
    | DiagnosticBytes

  datatype LimitExceeded = LimitExceeded(resource: Resource, limit: nat, observedAtLeast: nat, file: Option<CatalogPath>)

  datatype Budget = Budget(
    byteLimit: nat,
    lineLimit: nat,
    byteResource: Resource,
    lineResource: Resource,
    file: CatalogPath)

  datatype Range = Range(start: nat, end: nat)

  datatype Snippet = Snippet(bytes: seq<Byte>, lines: seq<Range>)

  // ---------------------------------------------------------- the two-phase form

  /** Phase one: each CRLF becomes LF, left to right. A lone CR is kept. */
  function Fold(b: seq<Byte>): (r: seq<Byte>)
    ensures b != [] ==> r != []
  {
    if b == [] then []
    else if b[0] == CR && |b| > 1 && b[1] == LF then [LF] + Fold(b[2..])
    else [b[0]] + Fold(b[1..])
  }

  function Last(b: seq<Byte>): Byte
    requires b != []
  {
    b[|b| - 1]
  }

  function Front(b: seq<Byte>): seq<Byte>
    requires b != []
  {
    b[..|b| - 1]
  }

  /** Phase two: at most one final LF goes. */
  function Normal(b: seq<Byte>): seq<Byte> {
    var folded := Fold(b);
    if folded != [] && Last(folded) == LF then Front(folded) else folded
  }

  function LfCount(b: seq<Byte>): nat {
    if b == [] then 0 else LfCount(Front(b)) + (if Last(b) == LF then 1 else 0)
  }

  /** Lines of a normalised value: none when it is empty. */
  function LineCount(b: seq<Byte>): nat {
    if b == [] then 0 else 1 + LfCount(b)
  }

  predicate Fits(n: seq<Byte>, budget: Budget) {
    |n| <= budget.byteLimit && LineCount(n) <= budget.lineLimit
  }

  /** The bound crossed first as the value grows byte by byte; bytes go first on a tie. */
  function FirstCrossing(n: seq<Byte>, budget: Budget): LimitExceeded {
    if |n| > budget.byteLimit && LineCount(n[..budget.byteLimit]) <= budget.lineLimit
    then LimitExceeded(budget.byteResource, budget.byteLimit, budget.byteLimit + 1, Some(budget.file))
    else LimitExceeded(budget.lineResource, budget.lineLimit, budget.lineLimit + 1, Some(budget.file))
  }

  // ------------------------------------------------------------------ line ranges

  function LineStart(b: seq<Byte>): (r: nat)
    ensures r <= |b|
  {
    if b == [] then 0 else if Last(b) == LF then |b| else LineStart(Front(b))
  }

  /** Ranges of the lines that an LF of `b` ends. */
  function Terminated(b: seq<Byte>): seq<Range> {
    if b == [] then []
    else if Last(b) == LF then Terminated(Front(b)) + [Range(LineStart(Front(b)), |b| - 1)]
    else Terminated(Front(b))
  }

  function LineRanges(b: seq<Byte>): seq<Range> {
    Terminated(b) + [Range(LineStart(b), |b|)]
  }

  function SnippetOf(b: seq<Byte>): Snippet {
    Snippet(b, LineRanges(b))
  }

  // ---------------------------------------------------------------- the one pass

  lemma FoldStep(b: seq<Byte>, done: seq<Byte>, index: nat)
    requires index < |b| && Fold(b) == done + Fold(b[index..])
    ensures var crlf := b[index] == CR && index + 1 < |b| && b[index + 1] == LF;
            var consumed := if crlf then 2 else 1;
            index + consumed <= |b|
            && Fold(b) == done + [if crlf then LF else b[index]] + Fold(b[index + consumed..])
  {
    var rest := b[index..];
    assert rest[1..] == b[index + 1..];
    if |rest| > 1 { assert rest[2..] == b[index + 2..]; }
  }

  lemma {:induction false} LineCountGrows(p: seq<Byte>, n: seq<Byte>)
    requires p <= n
    ensures LineCount(p) <= LineCount(n) && LfCount(p) <= LfCount(n)
  {
    if |p| == |n| {
      assert p == n;
    } else {
      assert p == Front(n)[..|p|];
      LineCountGrows(p, Front(n));
    }
  }

  lemma SnocFacts(b: seq<Byte>, byte: Byte)
    ensures LfCount(b + [byte]) == LfCount(b) + (if byte == LF then 1 else 0)
    ensures LineCount(b + [byte]) == (if b == [] then 1 else LineCount(b)) + (if byte == LF then 1 else 0)
    ensures LineStart(b + [byte]) == if byte == LF then |b| + 1 else LineStart(b)
    ensures Terminated(b + [byte]) == if byte == LF then Terminated(b) + [Range(LineStart(b), |b|)] else Terminated(b)
  {
  }

  lemma BytesCross(n: seq<Byte>, done: seq<Byte>, byte: Byte, budget: Budget)
    requires done + [byte] <= n && Fits(done, budget) && |done| + 1 > budget.byteLimit
    ensures !Fits(n, budget)
    ensures FirstCrossing(n, budget) == LimitExceeded(budget.byteResource, budget.byteLimit, |done| + 1, Some(budget.file))
  {
    assert |n| >= |done| + 1;
    assert n[..budget.byteLimit] == done;
  }

  lemma LinesCross(n: seq<Byte>, done: seq<Byte>, byte: Byte, budget: Budget)
    requires done + [byte] <= n && |done| + 1 <= budget.byteLimit && LineCount(done + [byte]) > budget.lineLimit
    ensures !Fits(n, budget)
    ensures FirstCrossing(n, budget) == LimitExceeded(budget.lineResource, budget.lineLimit, budget.lineLimit + 1, Some(budget.file))
  {
    LineCountGrows(done + [byte], n);
    if |n| > budget.byteLimit {
      LineCountGrows(done + [byte], n[..budget.byteLimit]);
    }
  }

  /** `NormalizedSnippet::from_bytes`: the fused scan computes the two-phase form exactly, accepts
      exactly the values that fit both budgets, and otherwise reports the bound crossed first. */
  method FromBytes(bytes: Slice, budget: Budget) returns (r: Result<Snippet, LimitExceeded>)
    ensures r == if Fits(Normal(bytes), budget) then Success(SnippetOf(Normal(bytes)))
                 else Failure(FirstCrossing(Normal(bytes), budget))
  {
    hide Fold, Normal, LfCount, LineCount, LineStart, Terminated, FirstCrossing, Fits;
    var normalized: seq<Byte>, lines: seq<Range> := [], [];
    var lineCount, lineStart, index := 0, 0, 0;
    assert bytes[0..] == bytes && [] + Fold(bytes) == Fold(bytes);
    EmptyFacts(budget);
    while index < |bytes|
      invariant 0 <= index <= |bytes|
      invariant Fold(bytes) == normalized + Fold(bytes[index..])
      invariant index == |bytes| && normalized != [] ==> Last(normalized) != LF
      invariant lineCount == LineCount(normalized) && Fits(normalized, budget)
      invariant lines == Terminated(normalized) && lineStart == LineStart(normalized)
    {
      FoldStep(bytes, normalized, index);
      var byte, consumed := bytes[index], 1;
      if bytes[index] == CR && index + 1 < |bytes| && bytes[index + 1] == LF {
        byte, consumed := LF, 2;
      }
      ghost var rest := Fold(bytes[index + consumed..]);
      if byte == LF && index + consumed == |bytes| {
        DropsFinalLf(bytes, normalized, index + consumed);
        return Success(Snippet(normalized, lines + [Range(lineStart, |normalized|)]));
      }
      NormalExtends(bytes, normalized, byte, index + consumed);
      SnocFacts(normalized, byte);
      FitsFacts(normalized, budget);
      if |normalized| + 1 > budget.byteLimit {
        BytesCross(Normal(bytes), normalized, byte, budget);
        return Failure(LimitExceeded(budget.byteResource, budget.byteLimit, |normalized| + 1, Some(budget.file)));
      }
      if lineCount == 0 {
        lineCount := 1;
        if lineCount > budget.lineLimit {
          LinesCross(Normal(bytes), normalized, byte, budget);
          return Failure(LimitExceeded(budget.lineResource, budget.lineLimit, lineCount, Some(budget.file)));
        }
      }
      if byte == LF {
        var nextLines := lineCount + 1;
        if nextLines > budget.lineLimit {
          LinesCross(Normal(bytes), normalized, byte, budget);
          return Failure(LimitExceeded(budget.lineResource, budget.lineLimit, nextLines, Some(budget.file)));
        }
        lineCount := nextLines;
        lines := lines + [Range(lineStart, |normalized|)];
        normalized := normalized + [byte];
        lineStart := |normalized|;
      } else {
        normalized := normalized + [byte];
      }
      FitsFacts(normalized, budget);
      index := index + consumed;
    }
    KeepsAll(bytes, normalized);
    r := Success(Snippet(normalized, lines + [Range(lineStart, |normalized|)]));
  }

  lemma EmptyFacts(budget: Budget)
    ensures LineCount([]) == 0 && Fits([], budget) && Terminated([]) == [] && LineStart([]) == 0
  {
  }

  lemma FitsFacts(n: seq<Byte>, budget: Budget)
    ensures Fits(n, budget) <==> |n| <= budget.byteLimit && LineCount(n) <= budget.lineLimit
    ensures LineCount(n) == 0 <==> n == []
  {
  }

  /** What has been scanned, and the byte in hand unless it is the final LF, stays. */
  lemma NormalExtends(bytes: seq<Byte>, done: seq<Byte>, byte: Byte, next: nat)
    requires next <= |bytes| && Fold(bytes) == done + [byte] + Fold(bytes[next..])
    requires byte != LF || next < |bytes|
    ensures done + [byte] <= Normal(bytes)
  {
  }

  lemma DropsFinalLf(bytes: seq<Byte>, done: seq<Byte>, next: nat)
    requires next == |bytes| && Fold(bytes) == done + [LF] + Fold(bytes[next..])
    ensures Normal(bytes) == done
  {
  }

  lemma KeepsAll(bytes: seq<Byte>, done: seq<Byte>)
    requires Fold(bytes) == done + Fold(bytes[|bytes|..]) && (done != [] ==> Last(done) != LF)
    ensures Normal(bytes) == done
  {
  }

  // ------------------------------------------------------------ the two callers

  datatype MatchingLimits = MatchingLimits(
    snippetBytes: nat,
    snippetLines: nat,
    normalizedSourceBytes: nat,
    normalizedSourceLines: nat,
    lineComparisons: nat,
    occurrenceCandidates: nat,
    retainedOccurrenceSpans: nat)

  function SnippetBudget(limits: MatchingLimits, file: CatalogPath): Budget {
    Budget(limits.snippetBytes, limits.snippetLines, SnippetBytes, SnippetLines, file)
  }

  function SourceBudget(limits: MatchingLimits, file: CatalogPath): Budget {
    Budget(limits.normalizedSourceBytes, limits.normalizedSourceLines, NormalizedSourceBytes, NormalizedSourceLines,
           file)
  }

  /** A snippet is also charged for its raw bytes, before anything is folded. */
  method NormalizeSnippet(bytes: Slice, limits: MatchingLimits, file: CatalogPath)
    returns (r: Result<Snippet, LimitExceeded>)
    ensures r.Success? <==> |bytes| <= limits.snippetBytes && LineCount(Normal(bytes)) <= limits.snippetLines
    ensures r.Success? ==> r.value == SnippetOf(Normal(bytes))
    ensures r.Failure? && |bytes| > limits.snippetBytes ==>
              r.error == LimitExceeded(SnippetBytes, limits.snippetBytes, |bytes|, Some(file))
    ensures r.Failure? && |bytes| <= limits.snippetBytes ==>
              r.error == LimitExceeded(SnippetLines, limits.snippetLines, limits.snippetLines + 1, Some(file))
  {
    if |bytes| > limits.snippetBytes {
      return Failure(LimitExceeded(SnippetBytes, limits.snippetBytes, |bytes|, Some(file)));
    }
    r := FromBytes(bytes, SnippetBudget(limits, file));
    NormalShrinks(bytes);
  }

  /** A source is judged by its normalised form alone: accepted when bytes and lines fit; else the
      bytes are reported if they cross their limit before the lines do, and otherwise the lines. */
  method NormalizeSource(bytes: Slice, limits: MatchingLimits, file: CatalogPath)
    returns (r: Result<Snippet, LimitExceeded>)
    ensures r.Success? <==>
              |Normal(bytes)| <= limits.normalizedSourceBytes && LineCount(Normal(bytes)) <= limits.normalizedSourceLines
    ensures r.Success? ==> r.value == SnippetOf(Normal(bytes))
    ensures r.Failure? ==>
              r.error == if |Normal(bytes)| > limits.normalizedSourceBytes
                            && LineCount(Normal(bytes)[..limits.normalizedSourceBytes]) <= limits.normalizedSourceLines
                         then LimitExceeded(NormalizedSourceBytes, limits.normalizedSourceBytes,
                                            limits.normalizedSourceBytes + 1, Some(file))
                         else LimitExceeded(NormalizedSourceLines, limits.normalizedSourceLines,
                                            limits.normalizedSourceLines + 1, Some(file))
  {
    r := FromBytes(bytes, SourceBudget(limits, file));
  }

  lemma {:induction false} FoldShrinks(b: seq<Byte>)
    ensures |Fold(b)| <= |b|
  {
    if b == [] {
    } else if b[0] == CR && |b| > 1 && b[1] == LF {
      FoldShrinks(b[2..]);
    } else {
      FoldShrinks(b[1..]);
    }
  }

  lemma NormalShrinks(b: seq<Byte>)
    ensures |Normal(b)| <= |b|
  {
    FoldShrinks(b);
  }
}
