/** What normalised values mean as lists of lines: ranges are the LF split, line-wise equality is
    byte equality, and printing a value line by line and reading it back changes nothing. */
module Lines {
  import opened Wrappers
  import opened Normalize

  // ------------------------------------------------------- an independent reading

  /** The LF split, read from the left. */
  function Split(b: seq<Byte>): (r: seq<seq<Byte>>)
    ensures r != []
  {
    if b == [] then [[]]
    else if b[0] == LF then [[]] + Split(b[1..])
    else [[b[0]] + Split(b[1..])[0]] + Split(b[1..])[1..]
  }

  /** Lines with a terminator between each two. */
  function Join(lines: seq<seq<Byte>>, terminator: seq<Byte>): seq<Byte>
    requires lines != []
  {
    if |lines| == 1 then lines[0] else lines[0] + terminator + Join(lines[1..], terminator)
  }

  predicate NoLf(line: seq<Byte>) {
    LF !in line
  }

  lemma {:induction false} SplitHasNoLf(b: seq<Byte>)
    ensures forall k :: 0 <= k < |Split(b)| ==> NoLf(Split(b)[k])
  {
    if b != [] { SplitHasNoLf(b[1..]); }
  }

  lemma JoinCons(head: seq<Byte>, rest: seq<seq<Byte>>)
    requires rest != []
    ensures Join([head] + rest, [LF]) == head + [LF] + Join(rest, [LF])
  {
  }

  lemma JoinExtend(byte: Byte, rest: seq<seq<Byte>>)
    requires rest != []
    ensures Join([[byte] + rest[0]] + rest[1..], [LF]) == [byte] + Join(rest, [LF])
  {
  }

  /** Joining the lines gives the text back, and no line contains a terminator. */
  lemma {:induction false} SplitIsLines(b: seq<Byte>)
    ensures Join(Split(b), [LF]) == b
    ensures forall k :: 0 <= k < |Split(b)| ==> NoLf(Split(b)[k])
  {
    hide Join;
    SplitHasNoLf(b);
    if b == [] {
      JoinOne([]);
    } else {
      SplitIsLines(b[1..]);
      JoinCons([], Split(b[1..]));
      JoinExtend(b[0], Split(b[1..]));
      assert b == [b[0]] + b[1..];
    }
  }

  lemma JoinOne(line: seq<Byte>)
    ensures Join([line], [LF]) == line
  {
  }

  lemma {:induction false} SplitLine(line: seq<Byte>)
    requires NoLf(line)
    ensures Split(line) == [line]
  {
    if line != [] {
      SplitLine(line[1..]);
      assert [line[0]] + line[1..] == line;
    }
  }

  lemma {:induction false} SplitAtLf(line: seq<Byte>, rest: seq<Byte>)
    requires NoLf(line)
    ensures Split(line + [LF] + rest) == [line] + Split(rest)
  {
    var b := line + [LF] + rest;
    if line == [] {
      assert b[1..] == rest;
    } else {
      assert b[1..] == line[1..] + [LF] + rest;
      SplitAtLf(line[1..], rest);
      assert [line[0]] + line[1..] == line;
      assert ([line[1..]] + Split(rest))[1..] == Split(rest);
    }
  }

  /** The converse: any list of lines is the split of its join. */
  lemma {:induction false} SplitJoin(lines: seq<seq<Byte>>)
    requires lines != [] && forall k :: 0 <= k < |lines| ==> NoLf(lines[k])
    ensures Split(Join(lines, [LF])) == lines
  {
    if |lines| == 1 {
      SplitLine(lines[0]);
    } else {
      SplitAtLf(lines[0], Join(lines[1..], [LF]));
      SplitJoin(lines[1..]);
    }
  }

  /** The lines after one more byte at the end. */
  function Snoc(lines: seq<seq<Byte>>, byte: Byte): seq<seq<Byte>>
    requires lines != []
  {
    var n := |lines| - 1;
    if byte == LF then lines + [[]] else lines[..n] + [lines[n] + [byte]]
  }

  lemma {:induction false} SplitSnoc(b: seq<Byte>, byte: Byte)
    ensures Split(b + [byte]) == Snoc(Split(b), byte)
  {
    if b == [] {
      assert [] + [byte] == [byte] && [byte][1..] == [];
      assert Split([]) == [[]] && [byte] + [] == [byte];
      assert Split([byte]) == if byte == LF then [[]] + [[]] else [[byte] + []] + [];
    } else {
      assert (b + [byte])[1..] == b[1..] + [byte];
      SplitSnoc(b[1..], byte);
      SnocAfterHead(b[0], Split(b[1..]), byte);
    }
  }

  lemma SnocAfterHead(head: Byte, rest: seq<seq<Byte>>, byte: Byte)
    requires rest != []
    ensures [[]] + Snoc(rest, byte) == Snoc([[]] + rest, byte)
    ensures [[head] + Snoc(rest, byte)[0]] + Snoc(rest, byte)[1..] == Snoc([[head] + rest[0]] + rest[1..], byte)
  {
    if byte != LF && |rest| == 1 {
      assert [head] + (rest[0] + [byte]) == [head] + rest[0] + [byte];
    }
  }

  // ---------------------------------------------------------------------- ranges

  function LineOf(b: seq<Byte>, range: Range): seq<Byte>
    requires range.start <= range.end <= |b|
  {
    b[range.start..range.end]
  }

  /** The ranges tile the buffer: they start at 0, end at its end, and between each two lies
      exactly one byte, an LF. */
  ghost predicate Tiles(b: seq<Byte>, ranges: seq<Range>) {
    && ranges != [] && ranges[0].start == 0 && ranges[|ranges| - 1].end == |b|
    && (forall k :: 0 <= k < |ranges| ==> ranges[k].start <= ranges[k].end <= |b|)
    && (forall k :: 0 <= k < |ranges| - 1 ==>
          ranges[k].end < |b| && b[ranges[k].end] == LF && ranges[k + 1].start == ranges[k].end + 1)
  }

  ghost predicate RangesRead(b: seq<Byte>, ranges: seq<Range>, lines: seq<seq<Byte>>) {
    && Tiles(b, ranges) && |ranges| == |lines|
    && forall k :: 0 <= k < |ranges| ==> LineOf(b, ranges[k]) == lines[k]
  }

  /** The recorded ranges are exactly the LF split, and tile the buffer. */
  lemma {:induction false} RangesAreTheSplit(b: seq<Byte>)
    ensures RangesRead(b, LineRanges(b), Split(b))
    ensures |LineRanges(b)| == LfCount(b) + 1
  {
    if b != [] {
      var front, byte := Front(b), Last(b);
      assert b == front + [byte];
      RangesAreTheSplit(front);
      SplitSnoc(front, byte);
      SnocFacts(front, byte);
      RangesGrow(front, byte);
    }
  }

  lemma RangesGrow(front: seq<Byte>, byte: Byte)
    requires RangesRead(front, LineRanges(front), Split(front))
    ensures RangesRead(front + [byte], LineRanges(front + [byte]), Snoc(Split(front), byte))
  {
    hide Split, LineStart, Terminated, RangesRead;
    SnocFacts(front, byte);
    var before, n := LineRanges(front), |Terminated(front)|;
    assert before[..n] == Terminated(front) && before[n] == Range(LineStart(front), |front|);
    if byte == LF {
      RangesBreak(front, before, Split(front));
    } else {
      RangesStretch(front, before, Split(front), byte);
      assert |before| == |Split(front)| by { RangesPair(front, before, Split(front)); }
      assert LineRanges(front + [byte]) == before[..n] + [Range(before[n].start, |front| + 1)];
    }
  }

  lemma RangesPair(b: seq<Byte>, ranges: seq<Range>, lines: seq<seq<Byte>>)
    requires RangesRead(b, ranges, lines)
    ensures |ranges| == |lines|
  {
  }

  lemma RangesBreak(front: seq<Byte>, ranges: seq<Range>, lines: seq<seq<Byte>>)
    requires RangesRead(front, ranges, lines)
    ensures RangesRead(front + [LF], ranges + [Range(|front| + 1, |front| + 1)], lines + [[]])
  {
  }

  lemma RangesStretch(front: seq<Byte>, ranges: seq<Range>, lines: seq<seq<Byte>>, byte: Byte)
    requires RangesRead(front, ranges, lines)
    ensures var n := |ranges| - 1;
            RangesRead(front + [byte], ranges[..n] + [Range(ranges[n].start, |front| + 1)],
                       lines[..n] + [lines[n] + [byte]])
  {
  }

  // -------------------------------------------------------------------- equality

  /** `PartialEq`: the same number of ranges, and equal bytes in each. */
  predicate MatchesLines(a: Snippet, b: Snippet)
    requires forall k :: 0 <= k < |a.lines| ==> a.lines[k].start <= a.lines[k].end <= |a.bytes|
    requires forall k :: 0 <= k < |b.lines| ==> b.lines[k].start <= b.lines[k].end <= |b.bytes|
  {
    |a.lines| == |b.lines|
    && forall k :: 0 <= k < |a.lines| ==> LineOf(a.bytes, a.lines[k]) == LineOf(b.bytes, b.lines[k])
  }

  /** Line-wise equality of normalised values is equality of their bytes. */
  lemma EqualityIsByteEquality(a: seq<Byte>, b: seq<Byte>)
    ensures RangesRead(a, LineRanges(a), Split(a)) && RangesRead(b, LineRanges(b), Split(b))
    ensures MatchesLines(SnippetOf(a), SnippetOf(b)) <==> a == b
  {
    RangesAreTheSplit(a);
    RangesAreTheSplit(b);
    if MatchesLines(SnippetOf(a), SnippetOf(b)) {
      assert Split(a) == Split(b);
      SplitIsLines(a);
      SplitIsLines(b);
    }
  }

  // ------------------------------------------------------------ reading by index

  /** What `from_bytes` builds: bytes with the ranges of their own split. */
  type Normalized = s: Snippet | s == SnippetOf(s.bytes) witness SnippetOf([])

  function LineAt(s: Normalized, index: nat): Option<seq<Byte>> {
    RangesAreTheSplit(s.bytes);
    if index < |s.lines| then Some(LineOf(s.bytes, s.lines[index])) else None
  }

  predicate IsEmpty(s: Normalized) {
    RangesAreTheSplit(s.bytes);
    |s.lines| == 1 && LineOf(s.bytes, s.lines[0]) == []
  }

  function NumLines(s: Normalized): nat {
    if IsEmpty(s) then 0 else |s.lines|
  }

  /** The lines a value stands for: none when it is empty, otherwise its LF split. */
  function LinesOf(s: Normalized): seq<seq<Byte>> {
    if s.bytes == [] then [] else Split(s.bytes)
  }

  /** The index functions read `LinesOf`: the count, every line, and nothing past the end of a
      nonempty value. */
  lemma IndexReadsLines(s: Normalized)
    ensures NumLines(s) == |LinesOf(s)| == LineCount(s.bytes)
    ensures IsEmpty(s) <==> LinesOf(s) == []
    ensures forall i: nat :: i < |LinesOf(s)| ==> LineAt(s, i) == Some(LinesOf(s)[i])
    ensures !IsEmpty(s) ==> forall i: nat :: i >= |LinesOf(s)| ==> LineAt(s, i) == None
  {
    RangesAreTheSplit(s.bytes);
    if |s.lines| == 1 {
      assert LineOf(s.bytes, s.lines[0]) == s.bytes;
    } else {
      assert s.bytes != [];
    }
  }

  // ----------------------------------------------------------------- round trips

  lemma {:induction false} FoldKeepsLine(line: seq<Byte>, terminator: seq<Byte>, rest: seq<Byte>)
    requires NoLf(line) && (terminator == [CR, LF] || (terminator == [LF] && (line != [] ==> Last(line) != CR)))
    ensures Fold(line + terminator + rest) == line + [LF] + Fold(rest)
  {
    var b := line + terminator + rest;
    if line == [] {
      assert b[|terminator|..] == rest;
    } else {
      assert b[1..] == line[1..] + terminator + rest;
      FoldKeepsLine(line[1..], terminator, rest);
      assert [b[0]] + (line[1..] + [LF] + Fold(rest)) == line + [LF] + Fold(rest);
    }
  }

  /** Every line followed by CRLF. */
  function PrintLines(lines: seq<seq<Byte>>): seq<Byte> {
    if lines == [] then [] else lines[0] + [CR, LF] + PrintLines(lines[1..])
  }

  /** The canonical raw form of a normalised value; an empty one prints a bare terminator. */
  function Print(n: seq<Byte>): seq<Byte> {
    if n == [] then [CR, LF] else PrintLines(Split(n))
  }

  lemma {:induction false} FoldPrinted(lines: seq<seq<Byte>>)
    requires lines != [] && forall k :: 0 <= k < |lines| ==> NoLf(lines[k])
    ensures Fold(PrintLines(lines)) == Join(lines, [LF]) + [LF]
  {
    FoldKeepsLine(lines[0], [CR, LF], PrintLines(lines[1..]));
    if |lines| == 1 {
      assert PrintLines(lines[1..]) == [];
    } else {
      FoldPrinted(lines[1..]);
    }
  }

  /** Print then normalise: every byte string is its own normal form again, lines ending in CR and
      the empty value included. */
  lemma PrintedNormalises(n: seq<Byte>)
    ensures Normal(Print(n)) == n
  {
    SplitIsLines(n);
    FoldPrinted(Split(n));
    if n == [] {
      assert Fold([CR, LF]) == [LF] by { assert [CR, LF][2..] == []; }
    } else {
      assert Fold(Print(n)) == n + [LF];
    }
  }

  /** Normalising, printing and normalising again gives an equal value, from any input at all. */
  lemma NormaliseIsStable(raw: seq<Byte>)
    ensures SnippetOf(Normal(Print(Normal(raw)))) == SnippetOf(Normal(raw))
  {
    PrintedNormalises(Normal(raw));
  }

  lemma {:induction false} FoldJoined(lines: seq<seq<Byte>>, terminator: seq<Byte>)
    requires lines != [] && (terminator == [CR, LF] || terminator == [LF])
    requires forall k :: 0 <= k < |lines| ==> NoLf(lines[k])
    requires terminator == [LF] ==> forall k :: 0 <= k < |lines| - 1 ==> lines[k] != [] ==> Last(lines[k]) != CR
    ensures Fold(Join(lines, terminator)) == Join(lines, [LF])
  {
    if |lines| == 1 {
      FoldsToItself(lines[0]);
    } else {
      FoldKeepsLine(lines[0], terminator, Join(lines[1..], terminator));
      FoldJoined(lines[1..], terminator);
    }
  }

  lemma {:induction false} FoldsToItself(line: seq<Byte>)
    requires NoLf(line)
    ensures Fold(line) == line
  {
    if line != [] { FoldsToItself(line[1..]); }
  }

  predicate EndsInCr(line: seq<Byte>) {
    line != [] && Last(line) == CR
  }

  /** Terminated lines that end in CR: each of them spells a CRLF in the LF text. */
  function CrEnds(lines: seq<seq<Byte>>): nat {
    if |lines| <= 1 then 0 else (if EndsInCr(lines[0]) then 1 else 0) + CrEnds(lines[1..])
  }

  lemma {:induction false} CrEndsCounts(lines: seq<seq<Byte>>)
    ensures CrEnds(lines) == 0 <==> forall k :: 0 <= k < |lines| - 1 ==> !EndsInCr(lines[k])
  {
    if |lines| > 1 {
      CrEndsCounts(lines[1..]);
      if CrEnds(lines) == 0 {
        forall k | 0 <= k < |lines| - 1 ensures !EndsInCr(lines[k]) {
          if k > 0 { assert lines[k] == lines[1..][k - 1]; }
        }
      } else if CrEnds(lines[1..]) != 0 {
        var k :| 0 <= k < |lines[1..]| - 1 && EndsInCr(lines[1..][k]);
        assert EndsInCr(lines[k + 1]);
      }
    }
  }

  lemma FoldDropsCr(line: seq<Byte>, rest: seq<Byte>)
    requires NoLf(line) && EndsInCr(line)
    ensures |Fold(line + [LF] + rest)| == |line| + |Fold(rest)|
  {
    var body := Front(line);
    assert line + [LF] + rest == body + [CR, LF] + rest;
    FoldKeepsLine(body, [CR, LF], rest);
  }

  /** Folding an LF text loses one byte for each of its lines that ends in CR. */
  lemma {:induction false} FoldLosesCrs(lines: seq<seq<Byte>>)
    requires lines != [] && forall k :: 0 <= k < |lines| ==> NoLf(lines[k])
    ensures |Fold(Join(lines, [LF]))| + CrEnds(lines) == |Join(lines, [LF])|
  {
    if |lines| == 1 {
      FoldsToItself(lines[0]);
    } else {
      FoldLosesCrs(lines[1..]);
      if EndsInCr(lines[0]) {
        FoldDropsCr(lines[0], Join(lines[1..], [LF]));
      } else {
        FoldKeepsLine(lines[0], [LF], Join(lines[1..], [LF]));
      }
    }
  }

  lemma {:induction false} FoldKeepsFinalLf(b: seq<Byte>)
    requires b != []
    ensures Last(Fold(b)) == LF <==> Last(b) == LF
  {
    if b[0] == CR && |b| > 1 && b[1] == LF {
      if |b| > 2 { FoldKeepsFinalLf(b[2..]); }
    } else if |b| > 1 {
      FoldKeepsFinalLf(b[1..]);
    }
  }

  /** How far normalising shortens a text: the folded bytes, and a final LF if the text has one. */
  lemma NormalLength(b: seq<Byte>)
    ensures |Normal(b)| == |Fold(b)| - if b != [] && Last(b) == LF then 1 else 0
  {
    if b != [] { FoldKeepsFinalLf(b); }
  }

  /** CRLF and LF texts of the same lines normalise alike exactly when no terminated line ends in
      CR, that is, when the LF text does not itself spell a CRLF. */
  lemma LineEndingsDoNotMatter(lines: seq<seq<Byte>>)
    requires lines != [] && forall k :: 0 <= k < |lines| ==> NoLf(lines[k])
    ensures Normal(Join(lines, [CR, LF])) == Normal(Join(lines, [LF]))
       <==> forall k :: 0 <= k < |lines| - 1 ==> !EndsInCr(lines[k])
  {
    hide Fold, Normal;
    var crlf, lf := Join(lines, [CR, LF]), Join(lines, [LF]);
    CrEndsCounts(lines);
    FoldJoined(lines, [CR, LF]);
    FoldLosesCrs(lines);
    if CrEnds(lines) == 0 {
      FoldJoined(lines, [LF]);
      SameFoldSameNormal(crlf, lf);
    } else {
      NormalLength(crlf);
      NormalLength(lf);
      JoinsEndAlike(lines);
    }
  }

  lemma SameFoldSameNormal(a: seq<Byte>, b: seq<Byte>)
    requires Fold(a) == Fold(b)
    ensures Normal(a) == Normal(b)
  {
  }

  lemma {:induction false} JoinsEndAlike(lines: seq<seq<Byte>>)
    requires lines != []
    ensures var crlf, lf := Join(lines, [CR, LF]), Join(lines, [LF]);
            (crlf != [] && Last(crlf) == LF) == (lf != [] && Last(lf) == LF)
  {
    if |lines| > 1 { JoinsEndAlike(lines[1..]); }
  }

  /** The condition is needed: `a` CR, then `b`. */
  lemma CarriageReturnMatters()
    ensures Normal(Join([[97, CR], [98]], [CR, LF])) == [97, CR, LF, 98]
    ensures Normal(Join([[97, CR], [98]], [LF])) == [97, LF, 98]
  {
    var lines: seq<seq<Byte>> := [[97, CR], [98]];
    assert lines[1..] == [[98]];
    FoldJoined(lines, [CR, LF]);
    assert Join(lines, [LF]) == [97, CR, LF, 98];
    assert Join(lines, [LF]) == [97] + [CR, LF] + [98];
    FoldKeepsLine([97], [CR, LF], [98]);
    FoldsToItself([98]);
  }
}
