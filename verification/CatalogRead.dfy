/** Bounded reads of opened files under three interacting limits, from readers that may return as
    little as they like. */
module CatalogRead {
  import opened Wrappers

  const CHUNK: nat := 64 * 1024

  datatype Resource = EntryCount | TotalBytes | FileBytes

  datatype ReadError =
    | LimitExceeded(resource: Resource, limit: nat, observedAtLeast: nat)
    | Io
    | Canceled

  datatype FileRead = Complete(bytes: seq<Byte>) | CeilingExceeded

  datatype Limits = Limits(entryCount: nat, totalBytes: nat, perFileBytes: nat)

  // ------------------------------------------------------------------ the reader

  /** An opened file. What each call returns is up to `sizes`: any positive number of bytes that the
      buffer and the file allow, none only at the end; `fails` picks the calls that fail. */
  class Reader {
    const content: Slice
    const sizes: nat -> nat
    const fails: nat -> bool
    var pos: nat
    var calls: nat

    constructor (content: Slice, sizes: nat -> nat, fails: nat -> bool)
      ensures this.content == content && this.sizes == sizes && this.fails == fails && pos == 0 && calls == 0
    {
      this.content, this.sizes, this.fails, pos, calls := content, sizes, fails, 0, 0;
    }

    predicate Valid()
      reads this
    {
      pos <= |content|
    }

    method Read(capacity: nat) returns (r: Result<seq<Byte>, ()>)
      requires Valid() && capacity > 0
      modifies this
      ensures Valid() && calls == old(calls) + 1
      ensures r.Failure? <==> fails(old(calls))
      ensures r.Failure? ==> pos == old(pos)
      ensures r.Success? ==> old(pos) <= pos <= old(pos) + capacity && r.value == content[old(pos)..pos]
      ensures r.Success? ==> (pos == old(pos) <==> old(pos) == |content|)
    {
      calls := calls + 1;
      if fails(calls - 1) { return Failure(()); }
      var available := Min(capacity, |content| - pos);
      var count := if available == 0 then 0 else 1 + sizes(calls - 1) % available;
      r := Success(content[pos..pos + count]);
      pos := pos + count;
    }
  }

  // --------------------------------------------------- what a read must come to

  /** How a file of `n` bytes is received: `Whole` of so many bytes, past the external ceiling, or
      past one of the two budgets. */
  datatype Reception = Whole(bytes: nat) | PastCeiling | PastBudget(error: ReadError)

  function Remaining(limits: Limits, total: nat): nat {
    SatSub(limits.totalBytes, total)
  }

  /** Decided by the length alone: the ceiling binds if neither budget is tighter, then the tighter
      budget. Under a total limit of `u64::MAX` the saturated total is never over. */
  function Received(limits: Limits, total: nat, n: nat, ceiling: nat): Reception {
    var remaining := Remaining(limits, total);
    if n > ceiling && ceiling <= limits.perFileBytes && ceiling <= remaining then PastCeiling
    else if n > limits.perFileBytes && limits.perFileBytes <= remaining then
      PastBudget(LimitExceeded(FileBytes, limits.perFileBytes, limits.perFileBytes + 1))
    else if n > remaining && limits.totalBytes < U64_MAX then
      PastBudget(LimitExceeded(TotalBytes, limits.totalBytes, limits.totalBytes + 1))
    else if n > remaining then Whole(remaining + 1)
    else Whole(n)
  }

  /** Below `u64::MAX` the whole file is received exactly when it fits the ceiling, the file limit and
      what is left of the total; else the tightest of the three decides, the ceiling before the file
      limit and the file limit before the total on a tie. */
  lemma ReceivedMeans(limits: Limits, total: nat, n: nat, ceiling: nat)
    requires total <= limits.totalBytes < U64_MAX
    ensures Received(limits, total, n, ceiling) == Whole(n)
       <==> n <= ceiling && n <= limits.perFileBytes && total + n <= limits.totalBytes
    ensures Received(limits, total, n, ceiling) == PastCeiling
       <==> n > ceiling && ceiling <= limits.perFileBytes && total + ceiling <= limits.totalBytes
    ensures Received(limits, total, n, ceiling)
              == PastBudget(LimitExceeded(FileBytes, limits.perFileBytes, limits.perFileBytes + 1))
       <==> n > limits.perFileBytes && limits.perFileBytes < ceiling && total + limits.perFileBytes <= limits.totalBytes
    ensures Received(limits, total, n, ceiling)
              == PastBudget(LimitExceeded(TotalBytes, limits.totalBytes, limits.totalBytes + 1))
       <==> total + n > limits.totalBytes && limits.totalBytes < total + limits.perFileBytes
            && limits.totalBytes < total + ceiling
  {
  }

  /** A completed read carries the whole content, except when the running total cannot grow: with a
      total limit of `u64::MAX` and fewer than `n` bytes left below it. */
  lemma CompleteIsWhole(limits: Limits, total: nat, n: nat, ceiling: nat)
    requires total <= limits.totalBytes <= U64_MAX && limits.perFileBytes <= U64_MAX
    requires n <= ISIZE_MAX && ceiling <= U64_MAX && Received(limits, total, n, ceiling).Whole?
    ensures Received(limits, total, n, ceiling).bytes <= n
    ensures Received(limits, total, n, ceiling).bytes == n <==> limits.totalBytes < U64_MAX || total + n <= U64_MAX + 1
  {
  }

  /** The early metadata check agrees with the read it guards, a length passing one exactly when a
      file of that length is received by the other, exactly in these cases: the total limit is below
      `u64::MAX`, or the length fits the per-file limit, or that limit is no looser than what is
      left of the total. */
  lemma PreflightAgrees(limits: Limits, total: nat, n: nat)
    requires total <= limits.totalBytes <= U64_MAX && n <= U64_MAX
    ensures (Preflight(limits, total, n).Success? <==> Received(limits, total, n, U64_MAX).Whole?)
       <==> (limits.totalBytes < U64_MAX || n <= limits.perFileBytes || limits.perFileBytes <= Remaining(limits, total))
  {
  }

  function Preflight(limits: Limits, total: nat, bytes: nat): Result<nat, ReadError> {
    if bytes > limits.perFileBytes then Failure(LimitExceeded(FileBytes, limits.perFileBytes, bytes))
    else if SatAdd(total, bytes) > limits.totalBytes then
      Failure(LimitExceeded(TotalBytes, limits.totalBytes, SatAdd(total, bytes)))
    else Success(SatAdd(total, bytes))
  }

  /** Bytes a read may consume: one past the tightest limit, as evidence. */
  function ReadCap(limits: Limits, total: nat, ceiling: nat): nat {
    Min(Min(SatAdd(limits.perFileBytes, 1), SatAdd(Remaining(limits, total), 1)), SatAdd(ceiling, 1))
  }

  /** Consuming up to the cap and then committing is being received. */
  lemma CapDecides(limits: Limits, total: nat, n: nat, ceiling: nat)
    requires total <= limits.totalBytes <= U64_MAX && limits.perFileBytes <= U64_MAX
    requires n <= ISIZE_MAX && ceiling <= U64_MAX
    ensures var taken := Min(n, ReadCap(limits, total, ceiling));
            if taken > ceiling then Received(limits, total, n, ceiling) == PastCeiling
            else Received(limits, total, n, ceiling) == match Preflight(limits, total, taken)
                                                       case Success(_) => Whole(taken)
                                                       case Failure(e) => PastBudget(e)
  {
  }

  // ------------------------------------------------------------------ the budget

  class CatalogReadBudget {
    const limits: Limits
    var entries: nat
    var totalBytes: nat

    constructor (limits: Limits)
      requires limits.entryCount <= U64_MAX && limits.totalBytes <= U64_MAX && limits.perFileBytes <= U64_MAX
      ensures this.limits == limits && entries == 0 && totalBytes == 0 && Valid()
    {
      this.limits, entries, totalBytes := limits, 0, 0;
    }

    predicate Valid()
      reads this
    {
      && entries <= limits.entryCount <= U64_MAX && totalBytes <= limits.totalBytes <= U64_MAX
      && limits.perFileBytes <= U64_MAX
    }

    method BeginEntry() returns (r: Result<(), ReadError>)
      requires Valid()
      modifies this`entries
      ensures Valid() && (r.Success? ==> entries == Min(old(entries) + 1, U64_MAX))
      ensures r.Failure? ==> entries == old(entries)
      ensures r == if Min(old(entries) + 1, U64_MAX) <= limits.entryCount then Success(())
                   else Failure(LimitExceeded(EntryCount, limits.entryCount, limits.entryCount + 1))
    {
      var next := SatAdd(entries, 1);
      if next > limits.entryCount {
        return Failure(LimitExceeded(EntryCount, limits.entryCount, next));
      }
      entries := next;
      r := Success(());
    }

    /** `finish_file`: commits the bytes, or changes nothing. */
    method FinishFile(bytes: nat) returns (r: Result<(), ReadError>)
      requires Valid()
      modifies this`totalBytes
      ensures Valid()
      ensures match Preflight(limits, old(totalBytes), bytes)
              case Success(total) => r == Success(()) && totalBytes == total
              case Failure(e) => r == Failure(e) && totalBytes == old(totalBytes)
      ensures r == if bytes > limits.perFileBytes then Failure(LimitExceeded(FileBytes, limits.perFileBytes, bytes))
                   else if Min(old(totalBytes) + bytes, U64_MAX) > limits.totalBytes
                   then Failure(LimitExceeded(TotalBytes, limits.totalBytes, Min(old(totalBytes) + bytes, U64_MAX)))
                   else Success(())
    {
      if bytes > limits.perFileBytes {
        return Failure(LimitExceeded(FileBytes, limits.perFileBytes, bytes));
      }
      var total := SatAdd(totalBytes, bytes);
      if total > limits.totalBytes {
        return Failure(LimitExceeded(TotalBytes, limits.totalBytes, total));
      }
      totalBytes := total;
      r := Success(());
    }

    /** `record_entry_bytes`: an already-decoded entry is charged by the same rules as a read of it;
        the entry stays counted when its bytes are refused. */
    method RecordEntryBytes(bytes: nat, canceled: bool) returns (r: Result<(), ReadError>)
      requires Valid() && bytes <= U64_MAX
      modifies this`entries, this`totalBytes
      ensures Valid()
      ensures r.Success? <==>
                !canceled && Min(old(entries) + 1, U64_MAX) <= limits.entryCount
                && bytes <= limits.perFileBytes && SatAdd(old(totalBytes), bytes) <= limits.totalBytes
      ensures totalBytes == if r.Success? then SatAdd(old(totalBytes), bytes) else old(totalBytes)
      ensures !canceled ==> entries == Min(Min(old(entries) + 1, U64_MAX), limits.entryCount)
      ensures r.Failure? ==>
                r.error == if canceled then Canceled
                           else if Min(old(entries) + 1, U64_MAX) > limits.entryCount
                           then LimitExceeded(EntryCount, limits.entryCount, limits.entryCount + 1)
                           else if bytes > limits.perFileBytes then LimitExceeded(FileBytes, limits.perFileBytes, bytes)
                           else LimitExceeded(TotalBytes, limits.totalBytes, Min(old(totalBytes) + bytes, U64_MAX))
    {
      if canceled { return Failure(Canceled); }
      var begun := BeginEntry();
      if begun.Failure? { return begun; }
      var preflight := Preflight(limits, totalBytes, bytes);
      if preflight.Failure? { return Failure(preflight.error); }
      r := FinishFile(bytes);
    }

    /** `read_file_with_ceiling`: whatever sizes the reader returns, the outcome is `Received` of the
        length, at most one byte past the tightest limit is consumed, and only a complete read is
        committed. A read stopped by cancellation or an I/O error commits nothing. */
    method ReadFileWithCeiling(reader: Reader, ceiling: nat, cancels: nat -> bool)
      returns (r: Result<FileRead, ReadError>)
      requires Valid() && reader.Valid() && reader.pos == 0 && ceiling <= U64_MAX
      modifies this`totalBytes, reader
      ensures Valid() && reader.Valid() && reader.pos <= ReadCap(limits, old(totalBytes), ceiling)
      ensures reader.pos <= limits.perFileBytes + 1 && old(totalBytes) + reader.pos <= limits.totalBytes + 1
      ensures reader.pos <= ceiling + 1
      ensures r == Failure(Io) || r == Failure(Canceled) ==>
                (exists k: nat :: old(reader.calls) <= k <= reader.calls && (cancels(k) || reader.fails(k)))
                && totalBytes == old(totalBytes)
      ensures r != Failure(Io) && r != Failure(Canceled) ==>
                match Received(limits, old(totalBytes), |reader.content|, ceiling)
                case Whole(n) =>
                  n <= |reader.content| && r == Success(Complete(reader.content[..n]))
                  && totalBytes == SatAdd(old(totalBytes), n)
                case PastCeiling => r == Success(CeilingExceeded) && totalBytes == old(totalBytes)
                case PastBudget(e) => r == Failure(e) && totalBytes == old(totalBytes)
    {
      hide Received, Preflight, ReadCap;
      var limit := Min(ReadLimit(), SatAdd(ceiling, 1));
      CapIs(limits, totalBytes, ceiling);
      CapDecides(limits, totalBytes, |reader.content|, ceiling);
      PreflightTotal(limits, totalBytes, Min(|reader.content|, limit));
      var bytes: seq<Byte> := [];
      while |bytes| < limit
        invariant reader.Valid() && reader.pos == |bytes| <= limit && bytes == reader.content[..|bytes|]
        invariant |bytes| <= ceiling && old(reader.calls) <= reader.calls && totalBytes == old(totalBytes)
        decreases limit - |bytes|
      {
        if cancels(reader.calls) { return Failure(Canceled); }
        ghost var call := reader.calls;
        var read := reader.Read(Min(limit - |bytes|, CHUNK));
        if read.Failure? {
          assert reader.fails(call);
          return Failure(Io);
        }
        if read.value == [] { break; }
        bytes := bytes + read.value;
        if |bytes| > ceiling { return Success(CeilingExceeded); }
      }
      assert |bytes| == Min(|reader.content|, limit);
      if cancels(reader.calls) { return Failure(Canceled); }
      var finished := FinishFile(|bytes|);
      if finished.Failure? { return Failure(finished.error); }
      r := Success(Complete(bytes));
    }

    function ReadLimit(): nat
      reads this
    {
      Min(SatAdd(limits.perFileBytes, 1), SatAdd(SatSub(limits.totalBytes, totalBytes), 1))
    }

    /** `read_file`: no external ceiling. */
    method ReadFile(reader: Reader, cancels: nat -> bool) returns (r: Result<seq<Byte>, ReadError>)
      requires Valid() && reader.Valid() && reader.pos == 0
      modifies this`totalBytes, reader
      ensures Valid()
      ensures r == Failure(Io) || r == Failure(Canceled) ==>
                (exists k: nat :: old(reader.calls) <= k <= reader.calls && (cancels(k) || reader.fails(k)))
                && totalBytes == old(totalBytes)
      ensures r != Failure(Io) && r != Failure(Canceled) ==>
                match Received(limits, old(totalBytes), |reader.content|, U64_MAX)
                case Whole(n) =>
                  n <= |reader.content| && r == Success(reader.content[..n])
                  && totalBytes == SatAdd(old(totalBytes), n)
                case PastCeiling => false
                case PastBudget(e) => r == Failure(e) && totalBytes == old(totalBytes)
    {
      NoCeiling(limits, totalBytes, |reader.content|);
      hide Received, ReadCap;
      var read := ReadFileWithCeiling(reader, U64_MAX, cancels);
      r := if read.Failure? then Failure(read.error)
           else if read.value.Complete? then Success(read.value.bytes) else Failure(Io);
    }

    /** `compare_file` is `read_file` followed by equality: the same lengths are accepted and
        refused, the same bytes are committed, and the answer is whether the bytes that `read_file`
        would return equal the expected ones. */
    method CompareFile(reader: Reader, expected: Slice, cancels: nat -> bool) returns (r: Result<bool, ReadError>)
      requires Valid() && reader.Valid() && reader.pos == 0
      modifies this`totalBytes, reader
      ensures Valid() && reader.Valid() && reader.pos <= ReadCap(limits, old(totalBytes), U64_MAX)
      ensures reader.pos <= limits.perFileBytes + 1 && old(totalBytes) + reader.pos <= limits.totalBytes + 1
      ensures r == Failure(Io) || r == Failure(Canceled) ==>
                (exists k: nat :: old(reader.calls) <= k <= reader.calls && (cancels(k) || reader.fails(k)))
                && totalBytes == old(totalBytes)
      ensures r != Failure(Io) && r != Failure(Canceled) ==>
                match Received(limits, old(totalBytes), |reader.content|, U64_MAX)
                case Whole(n) =>
                  n <= |reader.content| && r == Success(reader.content[..n] == expected)
                  && totalBytes == SatAdd(old(totalBytes), n)
                case PastCeiling => false
                case PastBudget(e) => r == Failure(e) && totalBytes == old(totalBytes)
    {
      NoCeiling(limits, totalBytes, |reader.content|);
      CapDecides(limits, totalBytes, |reader.content|, U64_MAX);
      CapIs(limits, totalBytes, U64_MAX);
      hide Received, Preflight, ReadCap;
      var limit := ReadLimit();
      PreflightTotal(limits, totalBytes, Min(|reader.content|, limit));
      var bytesRead, matches := 0, true;
      while bytesRead < limit
        invariant reader.Valid() && reader.pos == bytesRead <= limit && totalBytes == old(totalBytes)
        invariant old(reader.calls) <= reader.calls
        invariant matches <==> bytesRead <= |expected| && expected[..bytesRead] == reader.content[..bytesRead]
        decreases limit - bytesRead
      {
        if cancels(reader.calls) { return Failure(Canceled); }
        ghost var call := reader.calls;
        var read := reader.Read(Min(limit - bytesRead, CHUNK));
        if read.Failure? {
          assert reader.fails(call);
          return Failure(Io);
        }
        if read.value == [] { break; }
        var end := bytesRead + |read.value|;
        PrefixGrows(expected, reader.content, bytesRead, end);
        matches := matches && end <= |expected| && expected[bytesRead..end] == read.value;
        bytesRead := end;
      }
      assert bytesRead == Min(|reader.content|, limit);
      if cancels(reader.calls) { return Failure(Canceled); }
      var finished := FinishFile(bytesRead);
      if finished.Failure? { return Failure(finished.error); }
      r := Success(matches && bytesRead == |expected|);
    }
  }

  /** The exception to `CompleteIsWhole` is reached: after three decoded entries that add up to
      `u64::MAX`, a two-byte file is begun and completes as its first byte, however it is read. */
  method SaturatedTotalTruncates(content: Slice, sizes: nat -> nat) returns (read: Result<FileRead, ReadError>)
    requires |content| == 2
    ensures read == Success(Complete(content[..1]))
  {
    var budget := new CatalogReadBudget(Limits(4, U64_MAX, U64_MAX));
    var first := budget.RecordEntryBytes(ISIZE_MAX, false);
    var second := budget.RecordEntryBytes(ISIZE_MAX, false);
    var third := budget.RecordEntryBytes(1, false);
    var begun := budget.BeginEntry();
    var reader := new Reader(content, sizes, _ => false);
    read := budget.ReadFileWithCeiling(reader, U64_MAX, _ => false);
  }

  /** So is the exception to `PreflightAgrees`: after four decoded entries, each of the most a file
      may have, the metadata check refuses a longer file that the read accepts as its first byte. */
  method PreflightRefusesWhatIsRead(content: Slice, sizes: nat -> nat)
    returns (metadata: Result<nat, ReadError>, read: Result<FileRead, ReadError>)
    requires |content| > 0x4000_0000_0000_0000
    ensures metadata == Failure(LimitExceeded(FileBytes, 0x4000_0000_0000_0000, |content|))
    ensures read == Success(Complete(content[..1]))
  {
    var most := 0x4000_0000_0000_0000;
    var budget := new CatalogReadBudget(Limits(5, U64_MAX, most));
    var first := budget.RecordEntryBytes(most, false);
    var second := budget.RecordEntryBytes(most, false);
    var third := budget.RecordEntryBytes(most, false);
    var fourth := budget.RecordEntryBytes(most, false);
    var begun := budget.BeginEntry();
    metadata := Preflight(budget.limits, budget.totalBytes, |content|);
    var reader := new Reader(content, sizes, _ => false);
    read := budget.ReadFileWithCeiling(reader, U64_MAX, _ => false);
  }

  lemma NoCeiling(limits: Limits, total: nat, n: nat)
    requires n <= U64_MAX
    ensures !Received(limits, total, n, U64_MAX).PastCeiling?
    ensures Received(limits, total, n, U64_MAX).PastBudget? ==> Received(limits, total, n, U64_MAX).error.LimitExceeded?
  {
  }

  lemma PrefixGrows(a: seq<Byte>, b: seq<Byte>, m: nat, n: nat)
    requires m <= n <= |b|
    ensures (n <= |a| && a[..n] == b[..n]) <==> (m <= |a| && a[..m] == b[..m] && n <= |a| && a[m..n] == b[m..n])
  {
  }

  lemma CapIs(limits: Limits, total: nat, ceiling: nat)
    ensures ReadCap(limits, total, ceiling)
         == Min(Min(SatAdd(limits.perFileBytes, 1), SatAdd(SatSub(limits.totalBytes, total), 1)), SatAdd(ceiling, 1))
  {
  }

  lemma PreflightTotal(limits: Limits, total: nat, n: nat)
    ensures Preflight(limits, total, n).Success? ==> Preflight(limits, total, n).value == SatAdd(total, n)
    ensures Preflight(limits, total, n).Failure? ==> Preflight(limits, total, n).error.LimitExceeded?
  {
  }
}
