/** Measured bytes are serialised bytes: JSON text accounting that never builds the JSON, and the
    two-pass excerpt of a failed sketch match. */
module Evidence {
  import opened Wrappers
  import Digest

  const QUOTE: Byte := 34
  const APOSTROPHE: Byte := 39
  const COMMA: Byte := 44
  const OPEN: Byte := 91
  const BACKSLASH: Byte := 92
  const CLOSE: Byte := 93

  // ------------------------------------------------------------------- JSON text

  /** The letter of a two-character escape, if the byte has one. */
  function ShortEscape(b: Byte): Option<Byte> {
    if b == QUOTE then Some(QUOTE)
    else if b == BACKSLASH then Some(BACKSLASH)
    else if b == 8 then Some(98)
    else if b == 9 then Some(116)
    else if b == 10 then Some(110)
    else if b == 12 then Some(102)
    else if b == 13 then Some(114)
    else None
  }

  /** One byte of a JSON string, as section 7 of RFC 8259 allows and `serde_json` writes it. */
  function JsonByte(b: Byte): seq<Byte> {
    if ShortEscape(b).Some? then [BACKSLASH, ShortEscape(b).value]
    else if b < 32 then [BACKSLASH, 117, 48, 48, Digest.HexDigit(b / 16), Digest.HexDigit(b % 16)]
    else [b]
  }

  function JsonBody(text: seq<Byte>): seq<Byte> {
    if text == [] then [] else JsonByte(text[0]) + JsonBody(text[1..])
  }

  function JsonString(text: seq<Byte>): seq<Byte> {
    [QUOTE] + JsonBody(text) + [QUOTE]
  }

  /** The elements of an array, separated by commas (section 5 of RFC 8259). */
  function JsonElements(texts: seq<seq<Byte>>): seq<Byte> {
    if texts == [] then []
    else if |texts| == 1 then JsonString(texts[0])
    else JsonString(texts[0]) + [COMMA] + JsonElements(texts[1..])
  }

  function JsonArray(texts: seq<seq<Byte>>): seq<Byte> {
    [OPEN] + JsonElements(texts) + [CLOSE]
  }

  // ------------------------------------------------------- reading the text back

  function ShortValue(letter: Byte): Option<Byte> {
    if letter == QUOTE then Some(QUOTE)
    else if letter == BACKSLASH then Some(BACKSLASH)
    else if letter == 98 then Some(8)
    else if letter == 116 then Some(9)
    else if letter == 110 then Some(10)
    else if letter == 102 then Some(12)
    else if letter == 114 then Some(13)
    else None
  }

  /** The next byte of a string body and what follows it; `None` at the closing quote and at
      anything the encoder does not write. */
  function ReadByte(b: seq<Byte>): (r: Option<(Byte, seq<Byte>)>)
    ensures r.Some? ==> |r.value.1| < |b|
  {
    if b == [] || b[0] == QUOTE || b[0] < 32 then None
    else if b[0] != BACKSLASH then Some((b[0], b[1..]))
    else if |b| < 2 then None
    else if ShortValue(b[1]).Some? then Some((ShortValue(b[1]).value, b[2..]))
    else if |b| < 6 || b[1..4] != [117, 48, 48] || Digest.HexValue(b[4]).None? || Digest.HexValue(b[5]).None? then None
    else Some((Digest.HexValue(b[4]).value * 16 + Digest.HexValue(b[5]).value, b[6..]))
  }

  /** A string body up to its closing quote, and what follows the quote. */
  function ReadBody(b: seq<Byte>): (r: Option<(seq<Byte>, seq<Byte>)>)
    ensures r.Some? ==> |r.value.1| < |b|
    decreases |b|
  {
    if b == [] then None
    else if b[0] == QUOTE then Some(([], b[1..]))
    else match ReadByte(b)
      case None => None
      case Some((byte, rest)) =>
        match ReadBody(rest)
        case None => None
        case Some((text, after)) => Some(([byte] + text, after))
  }

  function ReadElements(b: seq<Byte>): Option<seq<seq<Byte>>>
    decreases |b|
  {
    if b == [] || b[0] != QUOTE then None
    else match ReadBody(b[1..])
      case None => None
      case Some((text, rest)) =>
        if rest == [CLOSE] then Some([text])
        else if rest == [] || rest[0] != COMMA then None
        else match ReadElements(rest[1..])
          case None => None
          case Some(texts) => Some([text] + texts)
  }

  function ReadArray(b: seq<Byte>): Option<seq<seq<Byte>>> {
    if b == [OPEN, CLOSE] then Some([])
    else if b == [] || b[0] != OPEN then None
    else ReadElements(b[1..])
  }

  lemma JsonByteReads(b: Byte, rest: seq<Byte>)
    ensures ReadByte(JsonByte(b) + rest) == Some((b, rest))
    ensures JsonByte(b) != [] && JsonByte(b)[0] != QUOTE
  {
  }

  lemma {:induction false} JsonBodyReads(text: seq<Byte>, rest: seq<Byte>)
    ensures ReadBody(JsonBody(text) + [QUOTE] + rest) == Some((text, rest))
  {
    hide JsonByte, ReadByte;
    var b := JsonBody(text) + [QUOTE] + rest;
    if text == [] {
      assert b == [QUOTE] + rest;
    } else {
      assert b == JsonByte(text[0]) + (JsonBody(text[1..]) + [QUOTE] + rest);
      JsonByteReads(text[0], JsonBody(text[1..]) + [QUOTE] + rest);
      JsonBodyReads(text[1..], rest);
      assert [text[0]] + text[1..] == text;
    }
  }

  lemma ReadOneElement(text: seq<Byte>, rest: seq<Byte>)
    ensures var b := JsonString(text) + rest;
            ReadElements(b) == if rest == [CLOSE] then Some([text])
                               else if rest == [] || rest[0] != COMMA then None
                               else match ReadElements(rest[1..])
                                    case None => None
                                    case Some(texts) => Some([text] + texts)
  {
    hide ReadBody, JsonBody;
    var b := JsonString(text) + rest;
    assert b[1..] == JsonBody(text) + [QUOTE] + rest;
    JsonBodyReads(text, rest);
  }

  lemma {:induction false} JsonElementsRead(texts: seq<seq<Byte>>)
    requires texts != []
    ensures ReadElements(JsonElements(texts) + [CLOSE]) == Some(texts)
  {
    hide ReadElements, JsonString;
    if |texts| == 1 {
      ReadOneElement(texts[0], [CLOSE]);
      assert [texts[0]] == texts;
    } else {
      var rest := [COMMA] + (JsonElements(texts[1..]) + [CLOSE]);
      assert JsonElements(texts) + [CLOSE] == JsonString(texts[0]) + rest;
      ReadOneElement(texts[0], rest);
      assert rest[1..] == JsonElements(texts[1..]) + [CLOSE];
      JsonElementsRead(texts[1..]);
      assert rest != [CLOSE] && [texts[0]] + texts[1..] == texts;
    }
  }

  /** The array is real JSON of the texts: reading it gives every text back. */
  lemma JsonArrayReads(texts: seq<seq<Byte>>)
    ensures ReadArray(JsonArray(texts)) == Some(texts)
  {
    if texts != [] {
      JsonElementsRead(texts);
      assert JsonArray(texts)[1..] == JsonElements(texts) + [CLOSE];
      assert JsonElements(texts)[0] == QUOTE;
    }
  }

  // ---------------------------------------------------------- the evidence ledger

  function EncodedBytes(b: Byte): nat {
    if b == 34 || b == 92 || b == 8 || b == 9 || b == 10 || b == 12 || b == 13 then 2
    else if b <= 31 then 6
    else 1
  }

  lemma {:induction false} JsonBodySnoc(text: seq<Byte>, b: Byte)
    ensures JsonBody(text + [b]) == JsonBody(text) + JsonByte(b)
  {
    if text == [] {
      assert [] + [b] == [b] && [b][1..] == [];
    } else {
      assert (text + [b])[1..] == text[1..] + [b];
      JsonBodySnoc(text[1..], b);
    }
  }

  /** `serialized_text_bytes`: the serialised length of one text, or `u64::MAX` beyond it. */
  method SerializedTextBytes(text: Slice) returns (bytes: nat)
    ensures bytes == Min(|JsonString(text)|, U64_MAX)
  {
    hide JsonByte;
    bytes := 2;
    var i := 0;
    while i < |text|
      invariant 0 <= i <= |text|
      invariant bytes == Min(2 + |JsonBody(text[..i])|, U64_MAX)
    {
      assert text[..i + 1] == text[..i] + [text[i]];
      JsonBodySnoc(text[..i], text[i]);
      EncodedLength(text[i]);
      bytes := SatAdd(bytes, EncodedBytes(text[i]));
      i := i + 1;
    }
    assert text[..i] == text;
  }

  lemma EncodedLength(b: Byte)
    ensures EncodedBytes(b) == |JsonByte(b)|
  {
  }

  lemma {:induction false} JsonElementsSnoc(texts: seq<seq<Byte>>, text: seq<Byte>)
    ensures |JsonElements(texts + [text])|
         == |JsonElements(texts)| + (if texts == [] then 0 else 1) + |JsonString(text)|
  {
    if texts != [] {
      assert (texts + [text])[1..] == texts[1..] + [text];
      JsonElementsSnoc(texts[1..], text);
    }
  }

  datatype EvidenceError = CountLimit(limit: nat, observed: nat) | BytesLimit(limit: nat, observed: nat)

  class DiagnosticEvidenceUsage {
    const countLimit: nat
    const byteLimit: nat
    var count: nat
    var retainedBytes: nat
    /** The texts accepted so far. */
    ghost var texts: seq<seq<Byte>>

    /** The counters are the array's exact length and size, up to saturation. */
    ghost predicate Valid()
      reads this
    {
      count == Min(|texts|, U64_MAX) && retainedBytes == Min(|JsonArray(texts)|, U64_MAX)
    }

    constructor (countLimit: nat, byteLimit: nat)
      ensures Valid() && texts == [] && this.countLimit == countLimit && this.byteLimit == byteLimit
    {
      this.countLimit, this.byteLimit := countLimit, byteLimit;
      count, retainedBytes := 0, 2;
      texts := [];
    }

    /** `record_text`: a text is accepted exactly when the array with it fits both limits, and a
        refusal names the first limit it breaks and changes nothing. */
    method RecordText(text: Slice) returns (r: Result<(), EvidenceError>)
      requires Valid()
      modifies this
      ensures Valid()
      ensures r.Success? ==> texts == old(texts) + [text]
      ensures r.Failure? ==> texts == old(texts)
      ensures var n, bytes := Min(|old(texts)| + 1, U64_MAX), Min(|JsonArray(old(texts) + [text])|, U64_MAX);
              r == if n > countLimit then Failure(CountLimit(countLimit, n))
                   else if bytes > byteLimit then Failure(BytesLimit(byteLimit, bytes))
                   else Success(())
    {
      JsonElementsSnoc(texts, text);
      var nextCount := SatAdd(count, 1);
      if nextCount > countLimit {
        return Failure(CountLimit(countLimit, nextCount));
      }
      var separator := if count > 0 then 1 else 0;
      var serialized := SerializedTextBytes(text);
      var nextBytes := SatAdd(SatAdd(retainedBytes, separator), serialized);
      if nextBytes > byteLimit {
        return Failure(BytesLimit(byteLimit, nextBytes));
      }
      count, retainedBytes := nextCount, nextBytes;
      texts := texts + [text];
      r := Success(());
    }
  }

  // ------------------------------------------------------------- match excerpts

  /** `std::ascii::escape_default`. */
  function EscapeByte(b: Byte): seq<Byte> {
    if b == 9 then [BACKSLASH, 116]
    else if b == 13 then [BACKSLASH, 114]
    else if b == 10 then [BACKSLASH, 110]
    else if b == APOSTROPHE || b == QUOTE || b == BACKSLASH then [BACKSLASH, b]
    else if 32 <= b <= 126 then [b]
    else [BACKSLASH, 120, Digest.HexDigit(b / 16), Digest.HexDigit(b % 16)]
  }

  function EscapeAll(line: seq<Byte>): seq<Byte> {
    if line == [] then [] else EscapeAll(line[..|line| - 1]) + EscapeByte(line[|line| - 1])
  }

  /** Characters that JSON doubles in turn. */
  function JsonDoubled(text: seq<Byte>): nat {
    if text == [] then 0 else (if text[0] == QUOTE || text[0] == BACKSLASH then 1 else 0) + JsonDoubled(text[1..])
  }

  lemma {:induction false} JsonDoubledAppend(a: seq<Byte>, b: seq<Byte>)
    ensures JsonDoubled(a + b) == JsonDoubled(a) + JsonDoubled(b)
  {
    if a == [] {
      assert a + b == b;
    } else {
      assert (a + b)[1..] == a[1..] + b;
      JsonDoubledAppend(a[1..], b);
    }
  }

  predicate Printable(text: seq<Byte>) {
    forall k :: 0 <= k < |text| ==> 32 <= text[k] <= 126
  }

  lemma {:induction false} EscapedIsPrintable(line: seq<Byte>)
    ensures Printable(EscapeAll(line))
  {
    if line != [] { EscapedIsPrintable(line[..|line| - 1]); }
  }

  lemma {:induction false} PrintableJsonLength(text: seq<Byte>)
    requires Printable(text)
    ensures |JsonBody(text)| == |text| + JsonDoubled(text)
  {
    if text != [] { PrintableJsonLength(text[1..]); }
  }

  datatype Excerpt = Bytes(escaped: seq<Byte>, truncated: bool) | Missing

  /** The excerpt of a line under a retention limit. */
  function ExcerptOf(line: Option<seq<Byte>>, maximum: nat): Excerpt {
    match line
    case None => Missing
    case Some(bytes) => Bytes(EscapeAll(bytes[..Min(|bytes|, maximum)]), |bytes| > maximum)
  }

  /** Bytes of the excerpt's text in the serialised report. */
  function ExcerptJsonBytes(excerpt: Excerpt): nat {
    match excerpt
    case Missing => 0
    case Bytes(escaped, _) => |JsonString(escaped)|
  }

  const CHUNK: nat := 64 * 1024

  class DiagnosticExcerptEvidence {
    const bytes: Option<seq<Byte>>
    const retainedBytes: nat
    const truncated: bool
    const maximum: nat
    var escapedBytes: nat
    var additionalJsonBytes: nat

    constructor (bytes: Option<seq<Byte>>, maximum: nat)
      ensures this.bytes == bytes && this.maximum == maximum && Valid()
      ensures escapedBytes == 0 && additionalJsonBytes == 0
    {
      this.bytes, this.maximum := bytes, maximum;
      retainedBytes := if bytes.Some? then Min(|bytes.value|, maximum) else 0;
      truncated := bytes.Some? && |bytes.value| > maximum;
      escapedBytes, additionalJsonBytes := 0, 0;
    }

    ghost predicate Valid() {
      match bytes
      case None => retainedBytes == 0 && !truncated
      case Some(b) => retainedBytes == Min(|b|, maximum) && truncated == (|b| > maximum)
    }

    function Skeleton(): Excerpt {
      if bytes.Some? then Bytes([], truncated) else Missing
    }

    /** The measuring pass builds nothing, yet ends with the length of the text the second pass
        builds, and with the JSON bytes that text adds to the skeleton's empty string. */
    method Measure()
      requires Valid()
      modifies this
      ensures bytes.None? ==> escapedBytes == old(escapedBytes) && additionalJsonBytes == old(additionalJsonBytes)
      ensures bytes.Some? ==>
                escapedBytes == Min(|ExcerptOf(bytes, maximum).escaped|, U64_MAX)
                && additionalJsonBytes
                   == Min(ExcerptJsonBytes(ExcerptOf(bytes, maximum)) - ExcerptJsonBytes(Skeleton()), U64_MAX)
    {
      hide EscapeByte, JsonBody, JsonDoubled;
      if bytes.None? { return; }
      var retained := bytes.value[..retainedBytes];
      var escaped, jsonEscapes, start := 0, 0, 0;
      assert EscapeAll([]) == [];
      EmptyText();
      while start < |retained|
        invariant 0 <= start <= |retained|
        invariant escaped == Min(|EscapeAll(retained[..start])|, U64_MAX)
        invariant jsonEscapes == Min(JsonDoubled(EscapeAll(retained[..start])), U64_MAX)
      {
        var end := Min(start + CHUNK, |retained|);
        var i := start;
        while i < end
          invariant start <= i <= end
          invariant escaped == Min(|EscapeAll(retained[..i])|, U64_MAX)
          invariant jsonEscapes == Min(JsonDoubled(EscapeAll(retained[..i])), U64_MAX)
        {
          var counted, doubled := MeasureByte(retained[i], escaped, jsonEscapes);
          assert retained[..i + 1][..i] == retained[..i];
          JsonDoubledAppend(EscapeAll(retained[..i]), EscapeByte(retained[i]));
          escaped, jsonEscapes := counted, doubled;
          i := i + 1;
        }
        start := end;
      }
      assert retained[..start] == retained;
      EscapedIsPrintable(retained);
      PrintableJsonLength(EscapeAll(retained));
      escapedBytes := escaped;
      additionalJsonBytes := SatAdd(escaped, jsonEscapes);
    }

    /** The materialising pass. */
    method Materialize() returns (excerpt: Excerpt)
      requires Valid()
      ensures excerpt == ExcerptOf(bytes, maximum)
    {
      hide EscapeByte;
      if bytes.None? { return Missing; }
      var retained := bytes.value[..retainedBytes];
      var escaped: seq<Byte>, start := [], 0;
      while start < |retained|
        invariant 0 <= start <= |retained|
        invariant escaped == EscapeAll(retained[..start])
      {
        var end := Min(start + CHUNK, |retained|);
        var i := start;
        while i < end
          invariant start <= i <= end
          invariant escaped == EscapeAll(retained[..i])
        {
          assert retained[..i + 1][..i] == retained[..i];
          escaped := escaped + EscapeByte(retained[i]);
          i := i + 1;
        }
        start := end;
      }
      assert retained[..start] == retained;
      excerpt := Bytes(escaped, truncated);
    }
  }

  lemma EmptyText()
    ensures JsonDoubled([]) == 0 && JsonBody([]) == []
  {
  }

  /** The characters of one escaped byte, counted one by one. */
  method MeasureByte(b: Byte, escapedBefore: nat, doubledBefore: nat) returns (escaped: nat, doubled: nat)
    requires escapedBefore <= U64_MAX && doubledBefore <= U64_MAX
    ensures escaped == SatAdd(escapedBefore, |EscapeByte(b)|)
    ensures doubled == SatAdd(doubledBefore, JsonDoubled(EscapeByte(b)))
  {
    hide EscapeByte;
    var code := EscapeByte(b);
    escaped, doubled := escapedBefore, doubledBefore;
    var k := 0;
    while k < |code|
      invariant 0 <= k <= |code|
      invariant escaped == SatAdd(escapedBefore, k)
      invariant doubled == SatAdd(doubledBefore, JsonDoubled(code[..k]))
    {
      assert code[..k + 1] == code[..k] + [code[k]];
      JsonDoubledAppend(code[..k], [code[k]]);
      escaped := SatAdd(escaped, 1);
      if code[k] == QUOTE || code[k] == BACKSLASH {
        doubled := SatAdd(doubled, 1);
      }
      k := k + 1;
    }
    assert code[..k] == code;
  }

  // ------------------------------------------------------ excerpts lose nothing

  /** Reads one escaped byte off the front. */
  function ReadEscaped(b: seq<Byte>): (r: Option<(Byte, seq<Byte>)>)
    ensures r.Some? ==> |r.value.1| < |b|
  {
    if b == [] then None
    else if b[0] != BACKSLASH then Some((b[0], b[1..]))
    else if |b| < 2 then None
    else if b[1] == 116 then Some((9, b[2..]))
    else if b[1] == 114 then Some((13, b[2..]))
    else if b[1] == 110 then Some((10, b[2..]))
    else if b[1] == 120 then
      if |b| < 4 || Digest.HexValue(b[2]).None? || Digest.HexValue(b[3]).None? then None
      else Some((Digest.HexValue(b[2]).value * 16 + Digest.HexValue(b[3]).value, b[4..]))
    else Some((b[1], b[2..]))
  }

  lemma EscapeByteReads(b: Byte, rest: seq<Byte>)
    ensures ReadEscaped(EscapeByte(b) + rest) == Some((b, rest)) && EscapeByte(b) != []
  {
  }

  lemma {:induction false} EscapeAllCons(b: Byte, line: seq<Byte>)
    ensures EscapeAll([b] + line) == EscapeByte(b) + EscapeAll(line)
  {
    hide EscapeByte;
    if line == [] {
      assert [b] + line == [b] && [b][..0] == [];
    } else {
      assert ([b] + line)[..|line|] == [b] + line[..|line| - 1];
      EscapeAllCons(b, line[..|line| - 1]);
    }
  }

  /** A whole escaped text read byte by byte. */
  function Unescaped(text: seq<Byte>): Option<seq<Byte>>
    decreases |text|
  {
    if text == [] then Some([])
    else match ReadEscaped(text)
      case None => None
      case Some((b, rest)) =>
        match Unescaped(rest)
        case None => None
        case Some(line) => Some([b] + line)
  }

  /** Reading an escaped text gives back the bytes. */
  lemma {:induction false} EscapedReads(line: seq<Byte>)
    ensures Unescaped(EscapeAll(line)) == Some(line)
  {
    hide EscapeByte, ReadEscaped, EscapeAll;
    if line == [] {
      EscapeNothing();
    } else {
      EscapeAllCons(line[0], line[1..]);
      assert [line[0]] + line[1..] == line;
      EscapeByteReads(line[0], EscapeAll(line[1..]));
      EscapedReads(line[1..]);
    }
  }

  /** A byte stands for itself exactly when it is printable and neither a quote nor a backslash. */
  lemma PlainBytes(b: Byte)
    ensures EscapeByte(b) == [b] <==> 32 <= b <= 126 && b != QUOTE && b != APOSTROPHE && b != BACKSLASH
    ensures EscapeByte(b) == [b] || EscapeByte(b)[0] == BACKSLASH
  {
  }

  /** Escaped excerpts of different retained bytes are different. */
  lemma {:induction false} EscapeIsInjective(a: seq<Byte>, b: seq<Byte>)
    requires EscapeAll(a) == EscapeAll(b)
    ensures a == b
  {
    hide EscapeByte, ReadEscaped, EscapeAll;
    if a != [] {
      EscapeAllCons(a[0], a[1..]);
      assert [a[0]] + a[1..] == a;
      EscapeByteReads(a[0], EscapeAll(a[1..]));
    }
    if b != [] {
      EscapeAllCons(b[0], b[1..]);
      assert [b[0]] + b[1..] == b;
      EscapeByteReads(b[0], EscapeAll(b[1..]));
    }
    EscapeNothing();
    if a != [] && b != [] {
      EscapeIsInjective(a[1..], b[1..]);
    }
  }

  lemma EscapeNothing()
    ensures EscapeAll([]) == []
  {
  }
}
