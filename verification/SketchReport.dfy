/** Diagnostics of a sketch check and the JSON they are charged as. */
module SketchReport {
  import opened Wrappers
  import opened Normalize
  import opened Matching
  import Digest
  import Evidence

  datatype Location = Location(
    sketchId: seq<Byte>,
    contractFile: CatalogPath,
    documentIndex: nat,
    sourceFile: CatalogPath)

  datatype Candidate = Candidate(
    source: Span,
    expectedLine: nat,
    sourceLine: nat,
    expected: Evidence.Excerpt,
    actual: Evidence.Excerpt)

  datatype Diagnostic =
    | MissingFile(location: Location)
    | NotMatched(location: Location, candidate: Option<Candidate>)
    | Mismatch(location: Location, expected: Occurrence, actual: nat, spans: seq<Span>, truncated: bool)

  // ------------------------------------------------------------------------ JSON

  function Literal(text: string): seq<Byte> {
    Digest.Ascii(text)
  }

  function Decimal(n: nat): seq<Byte> {
    if n < 10 then [48 + n] else Decimal(n / 10) + [48 + n % 10]
  }

  function Truth(b: bool): seq<Byte> {
    if b then Literal("true") else Literal("false")
  }

  function LocationJson(l: Location): seq<Byte> {
    Literal("{\"sketch_id\":") + Evidence.JsonString(l.sketchId)
    + Literal(",\"contract_file\":") + Evidence.JsonString(l.contractFile)
    + Literal(",\"document_index\":") + Decimal(l.documentIndex)
    + Literal(",\"source_file\":") + Evidence.JsonString(l.sourceFile) + Literal("}")
  }

  function SpanJson(s: Span): seq<Byte> {
    Literal("{\"start\":") + Decimal(s.first) + Literal(",\"end\":") + Decimal(s.last) + Literal("}")
  }

  function SpansJson(spans: seq<Span>): seq<Byte> {
    if spans == [] then []
    else if |spans| == 1 then SpanJson(spans[0])
    else SpanJson(spans[0]) + Literal(",") + SpansJson(spans[1..])
  }

  function OccurrenceJson(o: Occurrence): seq<Byte> {
    if o.AtLeastOne? then Literal("\"at_least_one\"") else Literal("\"exactly_one\"")
  }

  function ExcerptJson(x: Evidence.Excerpt): seq<Byte> {
    match x
    case Missing => Literal("\"Missing\"")
    case Bytes(escaped, truncated) =>
      Literal("{\"Bytes\":{\"escaped\":") + Evidence.JsonString(escaped)
      + Literal(",\"truncated\":") + Truth(truncated) + Literal("}}")
  }

  function CandidateJson(c: Candidate): seq<Byte> {
    Literal("{\"source\":") + SpanJson(c.source)
    + Literal(",\"expected_line\":") + Decimal(c.expectedLine)
    + Literal(",\"source_line\":") + Decimal(c.sourceLine)
    + Literal(",\"expected\":") + ExcerptJson(c.expected)
    + Literal(",\"actual\":") + ExcerptJson(c.actual) + Literal("}")
  }

  /** The derived serialisation: variants by name, fields in order, no spaces. */
  function DiagnosticJson(d: Diagnostic): seq<Byte> {
    match d
    case MissingFile(l) => Literal("{\"MissingFile\":{\"sketch\":") + LocationJson(l) + Literal("}}")
    case NotMatched(l, candidate) =>
      Literal("{\"NotMatched\":{\"sketch\":") + LocationJson(l)
      + Literal(",\"normalization\":\"exact_lines_v1\",\"candidate\":")
      + (match candidate case None => Literal("null") case Some(c) => CandidateJson(c)) + Literal("}}")
    case Mismatch(l, expected, actual, spans, truncated) =>
      Literal("{\"OccurrenceMismatch\":{\"sketch\":") + LocationJson(l)
      + Literal(",\"expected\":") + OccurrenceJson(expected)
      + Literal(",\"actual\":") + Decimal(actual)
      + Literal(",\"spans\":[") + SpansJson(spans)
      + Literal("],\"spans_truncated\":") + Truth(truncated) + Literal("}}")
  }

  function DiagnosticSize(d: Diagnostic): nat {
    |DiagnosticJson(d)|
  }

  /** Diagnostics separated by commas. */
  function ElementsJson(ds: seq<Diagnostic>): seq<Byte> {
    if ds == [] then []
    else if |ds| == 1 then DiagnosticJson(ds[0])
    else ElementsJson(ds[..|ds| - 1]) + [Evidence.COMMA] + DiagnosticJson(ds[|ds| - 1])
  }

  /** The whole serialised array. */
  function ReportJson(ds: seq<Diagnostic>): seq<Byte> {
    [Evidence.OPEN] + ElementsJson(ds) + [Evidence.CLOSE]
  }

  // ------------------------------------------------------------------- skeletons

  /** The candidate with both excerpt texts left empty. */
  function Skeleton(c: Candidate): Candidate {
    c.(expected := Emptied(c.expected), actual := Emptied(c.actual))
  }

  function Emptied(x: Evidence.Excerpt): Evidence.Excerpt {
    match x
    case Missing => Evidence.Excerpt.Missing
    case Bytes(_, truncated) => Evidence.Bytes([], truncated)
  }

  /** Bytes the excerpt texts add to their empty strings. */
  function Added(x: Evidence.Excerpt): nat {
    match x
    case Missing => 0
    case Bytes(escaped, _) => |Evidence.JsonString(escaped)| - 2
  }

  lemma ExcerptGrows(x: Evidence.Excerpt)
    ensures |ExcerptJson(x)| == |ExcerptJson(Emptied(x))| + Added(x)
  {
    assert Evidence.JsonBody([]) == [];
  }

  /** A diagnostic is its skeleton grown by the two excerpt texts, byte for byte. */
  lemma SkeletonGrows(location: Location, c: Candidate)
    ensures DiagnosticSize(NotMatched(location, Some(c)))
         == DiagnosticSize(NotMatched(location, Some(Skeleton(c)))) + Added(c.expected) + Added(c.actual)
  {
    hide ExcerptJson, Added, Emptied, SpanJson, LocationJson, Decimal;
    ExcerptGrows(c.expected);
    ExcerptGrows(c.actual);
  }
}
