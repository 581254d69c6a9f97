/** Resource ledgers of generated output: scratch reservations shared by many live writers and
    texts, and returned-output buffers committed against one running total. */
module Ledgers {
  import opened OutputHistory
  import opened ScratchHistory
  import opened Wrappers

  datatype OutputError =
    | Canceled
    | Stale
    | GeneratedLimit(limit: nat, observedAtLeast: nat)
    | ScratchLimit(limit: nat, observedAtLeast: nat)
    | WriteFailed

  class GeneratedOutputMeter {
    const generatedLimit: nat
    const scratchLimit: nat
    var generatedBytes: nat
    var retainedScratch: nat

    /** Everything that happened to scratch writers and texts of this meter. */
    ghost var script: seq<Event>
    /** Every record and commit of this meter, the bytes recorded, and the bytes of the outputs that
        were returned. */
    ghost var outputs: seq<OutputEvent>
    ghost var recorded: nat
    ghost var committed: nat

    constructor (generatedLimit: nat, scratchLimit: nat)
      requires generatedLimit <= U64_MAX && scratchLimit <= U64_MAX
      ensures this.generatedLimit == generatedLimit && this.scratchLimit == scratchLimit
      ensures generatedBytes == recorded == committed == 0 && script == [] && outputs == []
      ensures ScratchValid() && OutputValid()
    {
      this.generatedLimit, this.scratchLimit := generatedLimit, scratchLimit;
      generatedBytes, retainedScratch, recorded, committed, script, outputs := 0, 0, 0, 0, [], [];
    }

    /** The counter is what the history of holders makes it; `ScratchHistory` says what that is. */
    ghost predicate ScratchValid()
      reads this
    {
      scratchLimit <= U64_MAX && retainedScratch == Replay(scratchLimit, script).retained
    }

    ghost function Holders(): seq<Holder>
      reads this
    {
      Replay(scratchLimit, script).holders
    }

    /** The total, and what was recorded and returned, are what the history of records and commits
        makes them. What is returned stays within any limit below `u64::MAX`, failed direct records
        or not; while nothing recorded was refused the total is within its limit too. */
    ghost predicate OutputValid()
      reads this
    {
      && generatedLimit <= U64_MAX && generatedBytes == ReplayOutputs(generatedLimit, outputs).generated
      && recorded == Sum(ReplayOutputs(generatedLimit, outputs).charged)
      && committed == Sum(ReplayOutputs(generatedLimit, outputs).returned)
      && generatedBytes == Min(recorded, U64_MAX) && committed <= recorded
      && (generatedLimit < U64_MAX ==> committed <= generatedLimit)
      && (committed == recorded ==> generatedBytes <= generatedLimit)
    }

    // ------------------------------------------------------------ returned output

    /** `record`: the total moves before it is checked. */
    method Record(bytes: nat, canceled: bool) returns (r: Result<(), OutputError>)
      requires OutputValid()
      modifies this`generatedBytes, this`outputs, this`recorded, this`committed
      ensures OutputValid() && outputs == old(outputs) + [Recorded(bytes, canceled)]
      ensures canceled ==>
                r == Failure(Canceled) && generatedBytes == old(generatedBytes)
                && recorded == old(recorded) && committed == old(committed)
      ensures !canceled ==>
                recorded == old(recorded) + bytes && generatedBytes == SatAdd(old(generatedBytes), bytes)
      ensures !canceled && generatedBytes > generatedLimit ==>
                r == Failure(GeneratedLimit(generatedLimit, generatedBytes)) && committed == old(committed)
      ensures !canceled && generatedBytes <= generatedLimit ==>
                r == Success(()) && committed == old(committed) + bytes
    {
      hide Sum, ReplayOutputs;
      RecordedOnce(generatedLimit, outputs, Recorded(bytes, canceled));
      outputs := outputs + [Recorded(bytes, canceled)];
      if canceled { return Failure(Canceled); }
      generatedBytes := SatAdd(generatedBytes, bytes);
      recorded := recorded + bytes;
      if generatedBytes > generatedLimit {
        return Failure(GeneratedLimit(generatedLimit, generatedBytes));
      }
      committed := committed + bytes;
      r := Success(());
    }

    method ReturnedBuffer() returns (buffer: ReturnedOutputBuffer)
      requires OutputValid()
      ensures fresh(buffer) && buffer.Valid() && buffer.limit == generatedLimit
      ensures buffer.startingBytes == generatedBytes && buffer.bytes == [] && buffer.offered == [] && buffer.intact
    {
      buffer := new ReturnedOutputBuffer(generatedLimit, generatedBytes);
    }

    /** `commit_returned_buffer`, outcome by outcome; `cancels` says what its three checkpoints see.
        A buffer opened before another output was recorded is refused as stale; an accepted one is
        returned whole; a refused commit changes nothing; and the final `record` of a fresh, intact
        buffer reports a limit exactly when the meter was over it already. */
    method CommitReturnedBuffer(buffer: ReturnedOutputBuffer, written: bool, cancels: (bool, bool, bool))
      returns (r: Result<seq<Byte>, OutputError>)
      requires OutputValid() && buffer.Valid() && buffer.limit == generatedLimit
      modifies this`generatedBytes, this`outputs, this`recorded, this`committed
      ensures OutputValid()
      ensures outputs == old(outputs)
                + [Committed(buffer.startingBytes, |buffer.bytes|,
                             cancels == (false, false, false) && written && buffer.intact)]
      ensures r.Success? <==>
                cancels == (false, false, false) && written && buffer.intact
                && buffer.startingBytes == old(generatedBytes) && old(generatedBytes) <= generatedLimit
      ensures r.Success? ==>
                r.value == buffer.offered && recorded == old(recorded) + |r.value|
                && committed == old(committed) + |r.value|
      ensures r.Failure? ==>
                generatedBytes == old(generatedBytes) && recorded == old(recorded) && committed == old(committed)
      ensures !cancels.0 && buffer.startingBytes != old(generatedBytes) ==> r == Failure(Stale)
      ensures cancels == (false, false, false) && buffer.startingBytes == old(generatedBytes) && written && buffer.intact ==>
                (r.Failure? <==> old(generatedBytes) > generatedLimit)
                && (r.Failure? ==> r.error == GeneratedLimit(generatedLimit, old(generatedBytes)) && buffer.offered == [])
    {
      hide Sum, ReplayOutputs;
      ghost var before := outputs;
      ghost var ready := cancels == (false, false, false) && written && buffer.intact;
      ghost var event := Committed(buffer.startingBytes, |buffer.bytes|, ready);
      CommitIsRecord(generatedLimit, before, event);
      outputs := before + [event];
      if cancels.0 { return Failure(Canceled); }
      if buffer.startingBytes != generatedBytes { return Failure(Stale); }
      var bytes := buffer.Finish(written, cancels.1);
      if bytes.Failure? { return Failure(bytes.error); }
      outputs := before;
      var recordedOk := Record(|bytes.value|, cancels.2);
      outputs := before + [event];
      if recordedOk.Failure? { return Failure(recordedOk.error); }
      r := Success(bytes.value);
    }

    // -------------------------------------------------------------------- scratch

    method OpenScratchWriter(canceled: bool) returns (r: Result<ScratchWriter, OutputError>)
      requires ScratchValid()
      modifies this`script
      ensures ScratchValid()
      ensures canceled ==> r == Failure(Canceled) && script == old(script)
      ensures !canceled ==> script == old(script) + [Opened]
      ensures !canceled ==> r.Success? && fresh(r.value) && r.value.meter == this && r.value.Valid()
      ensures !canceled ==> r.value.ticket == |old(Holders())| && r.value.bytes == [] && r.value.failure.None?
    {
      if canceled { return Failure(Canceled); }
      ReplaySnoc(scratchLimit, script, Opened);
      script := script + [Opened];
      var writer := new ScratchWriter(this, |Holders()| - 1);
      r := Success(writer);
    }

    method ReleaseScratch(released: nat)
      modifies this`retainedScratch
      ensures retainedScratch == SatSub(old(retainedScratch), released)
    {
      retainedScratch := SatSub(retainedScratch, released);
    }
  }

  /** A file-local buffer that refuses the first write beyond the aggregate budget. */
  class ReturnedOutputBuffer {
    const limit: nat
    const startingBytes: nat
    var bytes: seq<Byte>
    var observedAtLeast: Option<nat>
    var canceled: bool

    /** Everything ever offered to the buffer, and whether all of it was taken. */
    ghost var offered: seq<Byte>
    ghost var intact: bool

    constructor (limit: nat, startingBytes: nat)
      requires limit <= U64_MAX && startingBytes <= U64_MAX
      ensures this.limit == limit && this.startingBytes == startingBytes
      ensures bytes == [] && offered == [] && intact && Valid()
    {
      this.limit, this.startingBytes := limit, startingBytes;
      bytes, observedAtLeast, canceled, offered, intact := [], None, false, [], true;
    }

    /** An intact buffer holds exactly what was offered, and what it holds fits the budget. */
    ghost predicate Valid()
      reads this
    {
      && limit <= U64_MAX && startingBytes <= U64_MAX
      && (intact <==> observedAtLeast.None? && !canceled)
      && (intact ==> bytes == offered)
      && (observedAtLeast.Some? ==> observedAtLeast == Some(SatAdd(limit, 1)))
      && (bytes != [] ==> SatAdd(startingBytes, |bytes|) <= limit)
    }

    /** The chunk loop of `write`: cancellation is observed once per 64 KiB, and `taken` bytes
        have been copied when it stops. */
    method TakeChunks(input: Slice, cancels: nat -> bool) returns (ok: bool, ghost taken: nat)
      modifies this`bytes
      ensures taken <= |input| && bytes == old(bytes) + input[..taken]
      ensures ok ==> taken == |input|
      ensures ok <==> forall k: nat :: k * CHUNK < |input| ==> !cancels(k)
    {
      var k, start := 0, 0;
      while start < |input|
        invariant 0 <= k && start == Min(k * CHUNK, |input|)
        invariant bytes == old(bytes) + input[..start]
        invariant forall j: nat :: j < k ==> !cancels(j)
        decreases |input| - start
      {
        if cancels(k) { return false, start; }
        var end := Min(start + CHUNK, |input|);
        bytes := bytes + input[start..end];
        assert input[..start] + input[start..end] == input[..end];
        k, start := k + 1, end;
      }
      ok, taken := true, start;
    }

    /** `write`: all of the input, or a failure that `finish` will report. */
    method Write(input: Slice, cancels: nat -> bool) returns (r: Result<nat, ()>, ghost taken: nat)
      requires Valid()
      modifies this
      ensures Valid() && offered == old(offered) + input
      ensures taken <= |input| && bytes == old(bytes) + input[..taken]
      ensures r.Success? ==> r.value == taken == |input| && intact == old(intact)
      ensures r.Failure? ==> !intact
      ensures r.Success? <==>
                SatAdd(startingBytes, |old(bytes)| + |input|) <= limit
                && forall k: nat :: k * CHUNK < |input| ==> !cancels(k)
    {
      offered := offered + input;
      var observed := SatAdd(SatAdd(startingBytes, |bytes|), |input|);
      if observed > limit {
        observedAtLeast, intact := Some(SatAdd(limit, 1)), false;
        return Failure(()), 0;
      }
      var ok;
      ok, taken := TakeChunks(input, cancels);
      if !ok {
        canceled, intact := true, false;
        return Failure(()), taken;
      }
      assert input[..taken] == input;
      r := Success(|input|);
    }

    /** `checkpoint_format`. */
    method CheckpointFormat(canceledNow: bool) returns (ok: bool)
      requires Valid()
      modifies this`canceled, this`intact
      ensures Valid() && ok == !canceledNow && intact == (old(intact) && !canceledNow)
    {
      if canceledNow { canceled, intact := true, false; }
      ok := !canceledNow;
    }

    /** `finish`: the first failure on record wins; success returns every byte ever offered. */
    method Finish(written: bool, canceledNow: bool) returns (r: Result<seq<Byte>, OutputError>)
      requires Valid()
      ensures r == if canceledNow || canceled then Failure(Canceled)
                   else if observedAtLeast.Some? then Failure(GeneratedLimit(limit, SatAdd(limit, 1)))
                   else if !written then Failure(WriteFailed)
                   else Success(offered)
      ensures r.Success? <==> !canceledNow && intact && written
    {
      if canceledNow || canceled { return Failure(Canceled); }
      if observedAtLeast.Some? { return Failure(GeneratedLimit(limit, observedAtLeast.value)); }
      if !written { return Failure(WriteFailed); }
      r := Success(bytes);
    }
  }

  /** A direct `record` that fails leaves the meter over its limit, and from then on even an empty
      fresh buffer is refused. */
  method OverdrawnMeterRefusesEmptyOutput()
    returns (direct: Result<(), OutputError>, commit: Result<seq<Byte>, OutputError>)
    ensures direct == Failure(GeneratedLimit(1, 2)) && commit == Failure(GeneratedLimit(1, 2))
  {
    var meter := new GeneratedOutputMeter(1, 0);
    direct := meter.Record(2, false);
    var buffer := meter.ReturnedBuffer();
    commit := meter.CommitReturnedBuffer(buffer, true, (false, false, false));
  }

  /** Under a limit of `u64::MAX` nothing is refused: three records of slices of the greatest length
      return more than the limit. */
  method SaturatedMeterReturnsPastLimit() returns (meter: GeneratedOutputMeter, records: seq<Result<(), OutputError>>)
    ensures meter.OutputValid() && meter.generatedLimit == U64_MAX
    ensures records == [Success(()), Success(()), Success(())]
    ensures meter.committed == 3 * ISIZE_MAX > meter.generatedLimit
  {
    meter := new GeneratedOutputMeter(U64_MAX, 0);
    var first := meter.Record(ISIZE_MAX, false);
    var second := meter.Record(ISIZE_MAX, false);
    var third := meter.Record(ISIZE_MAX, false);
    records := [first, second, third];
  }

  /** At every moment of every meter's life: what is returned is within the limit exactly when the
      limit is below `u64::MAX` or what was recorded fits a `u64`, and the total is what is returned
      exactly when everything recorded fits the limit. */
  lemma CommittedIsReturned(meter: GeneratedOutputMeter)
    requires meter.OutputValid()
    ensures meter.committed <= meter.generatedLimit <==> meter.generatedLimit < U64_MAX || meter.recorded <= U64_MAX
    ensures meter.generatedBytes == meter.committed <==> meter.recorded <= meter.generatedLimit
  {
    ReturnedWithinLimit(meter.generatedLimit, meter.outputs);
  }

  datatype ScratchFailure = ScratchCanceled | ScratchExceeded(observedAtLeast: nat) | AllocationFailed

  class ScratchWriter {
    const meter: GeneratedOutputMeter
    var bytes: Slice
    var reserved: nat
    var failure: Option<ScratchFailure>
    ghost const ticket: nat

    constructor (meter: GeneratedOutputMeter, ghost ticket: nat)
      requires meter.ScratchValid() && ticket < |meter.Holders()| && meter.Holders()[ticket] == Writing(0, false)
      ensures this.meter == meter && this.ticket == ticket && bytes == [] && failure.None? && Valid()
    {
      this.meter, this.ticket := meter, ticket;
      bytes, reserved, failure := [], 0, None;
    }

    /** The meter's history holds this writer's bytes and failure under its ticket. */
    ghost predicate Valid()
      reads this, meter
    {
      && meter.ScratchValid() && ticket < |meter.Holders()|
      && meter.Holders()[ticket] == Writing(reserved, failure.Some?) && reserved == |bytes|
    }

    /** `write`: at most 64 KiB, charged as it is retained. It is one event of the meter's history;
        a failure sticks, and a refused write retains nothing. No buffer grows past `isize::MAX`. */
    method Write(input: Slice, canceled: bool, allocates: bool) returns (r: Result<nat, ()>)
      requires Valid()
      modifies this, meter`retainedScratch, meter`script
      ensures Valid() && meter.script == old(meter.script) + [Written(ticket, |input|, canceled, allocates)]
      ensures old(failure).Some? ==> r.Failure? && failure == old(failure)
      ensures r.Success? <==>
                old(failure).None? && !canceled
                && (input == []
                    || (SatAdd(old(meter.retainedScratch), Min(|input|, CHUNK)) <= meter.scratchLimit
                        && allocates && |old(bytes)| + Min(|input|, CHUNK) <= ISIZE_MAX))
      ensures r.Success? ==> r.value == Min(|input|, CHUNK) && bytes == old(bytes) + input[..r.value] && failure.None?
      ensures r.Failure? ==> bytes == old(bytes) && failure.Some?
      ensures r.Failure? && old(failure).None? ==> failure == Some(
                if canceled then ScratchCanceled
                else if SatAdd(old(meter.retainedScratch), Min(|input|, CHUNK)) > meter.scratchLimit
                then ScratchExceeded(SatAdd(meter.scratchLimit, 1)) else AllocationFailed)
    {
      hide Replay;
      ReplaySnoc(meter.scratchLimit, meter.script, Written(ticket, |input|, canceled, allocates));
      meter.script := meter.script + [Written(ticket, |input|, canceled, allocates)];
      if failure.Some? { return Failure(()); }
      if canceled {
        failure := Some(ScratchCanceled);
        return Failure(());
      }
      if input == [] {
        assert bytes == bytes + input[..0];
        return Success(0);
      }
      var length := Min(|input|, CHUNK);
      var next := SatAdd(meter.retainedScratch, length);
      if next > meter.scratchLimit {
        failure := Some(ScratchExceeded(SatAdd(meter.scratchLimit, 1)));
        return Failure(());
      }
      if !allocates || |bytes| + length > ISIZE_MAX {
        failure := Some(AllocationFailed);
        return Failure(());
      }
      bytes := bytes + input[..length];
      meter.retainedScratch := next;
      reserved := reserved + length;
      r := Success(length);
    }

    /** `write_all`, as the serialisers call it: everything is retained and charged, or a prefix is
        and the failure sticks. */
    method WriteAll(input: Slice, cancels: nat -> bool, allocates: nat -> bool)
      returns (r: Result<(), ()>, ghost events: seq<Event>, ghost taken: nat)
      requires Valid()
      modifies this, meter`retainedScratch, meter`script
      ensures Valid() && meter.script == old(meter.script) + events
      ensures forall e :: e in events ==> e.Written? && e.ticket == ticket
      ensures taken <= |input| && bytes == old(bytes) + input[..taken]
      ensures r.Success? ==> taken == |input| && failure == old(failure)
      ensures r.Failure? ==> failure.Some?
    {
      var start, calls := 0, 0;
      events := [];
      assert bytes == old(bytes) + input[..0];
      while start < |input|
        invariant 0 <= start <= |input| && 0 <= calls && Valid()
        invariant bytes == old(bytes) + input[..start] && failure == old(failure)
        invariant meter.script == old(meter.script) + events
        invariant forall e :: e in events ==> e.Written? && e.ticket == ticket
        decreases |input| - start
      {
        events := events + [Written(ticket, |input| - start, cancels(calls), allocates(calls))];
        var written := Write(input[start..], cancels(calls), allocates(calls));
        if written.Failure? { return Failure(()), events, start; }
        assert input[..start] + input[start..][..written.value] == input[..start + written.value];
        start, calls := start + written.value, calls + 1;
      }
      assert input[..start] == input;
      r, taken := Success(()), start;
    }

    /** `finish_text`: the reservation moves to the text unchanged, or is released with the writer. */
    method FinishText(written: bool, utf8: bool, canceled: bool) returns (r: Result<ScratchText, OutputError>)
      requires Valid()
      modifies this, meter`retainedScratch, meter`script
      ensures meter.ScratchValid()
      ensures meter.script == old(meter.script) + [Finished(ticket, written && utf8 && !canceled)]
      ensures r.Success? <==> !canceled && old(failure).None? && written && utf8
      ensures r.Success? ==>
                && fresh(r.value) && r.value.Valid() && r.value.meter == meter && r.value.ticket == ticket
                && r.value.text == old(bytes) && meter.retainedScratch == old(meter.retainedScratch)
      ensures r.Failure? ==>
                ticket < |meter.Holders()| && meter.Holders()[ticket].Gone?
                && meter.retainedScratch == SatSub(old(meter.retainedScratch), |old(bytes)|)
      ensures r.Failure? ==>
                r.error == if canceled || old(failure) == Some(ScratchCanceled) then Canceled
                           else if old(failure).Some? && old(failure).value.ScratchExceeded?
                           then ScratchLimit(meter.scratchLimit, old(failure).value.observedAtLeast)
                           else WriteFailed
    {
      hide Replay;
      ghost var event := Finished(ticket, written && utf8 && !canceled);
      ReplaySnoc(meter.scratchLimit, meter.script, event);
      meter.script := meter.script + [event];
      if canceled || failure.Some? || !written || !utf8 {
        r := Failure(FinishError(canceled, failure));
        meter.ReleaseScratch(reserved);
        bytes, reserved := [], 0;
        return;
      }
      var text := new ScratchText(meter, bytes, reserved, ticket);
      bytes, reserved := [], 0;
      meter.ReleaseScratch(reserved);
      r := Success(text);
    }

    /** The first failure on record, in the order `finish_text` looks. */
    function FinishError(canceled: bool, failed: Option<ScratchFailure>): OutputError {
      if canceled || failed == Some(ScratchCanceled) then Canceled
      else if failed.Some? && failed.value.ScratchExceeded?
      then ScratchLimit(meter.scratchLimit, failed.value.observedAtLeast)
      else WriteFailed
    }

    /** Dropping the writer gives back exactly what it reserved. */
    method Drop()
      requires Valid()
      modifies this, meter`retainedScratch, meter`script
      ensures meter.ScratchValid() && meter.script == old(meter.script) + [Dropped(ticket)]
      ensures ticket < |meter.Holders()| && meter.Holders()[ticket].Gone?
      ensures meter.retainedScratch == SatSub(old(meter.retainedScratch), |old(bytes)|)
    {
      hide Replay;
      ReplaySnoc(meter.scratchLimit, meter.script, Dropped(ticket));
      meter.script := meter.script + [Dropped(ticket)];
      meter.ReleaseScratch(reserved);
      bytes, reserved := [], 0;
    }
  }

  class ScratchText {
    const meter: GeneratedOutputMeter
    const text: seq<Byte>
    const reserved: nat
    ghost const ticket: nat

    constructor (meter: GeneratedOutputMeter, text: seq<Byte>, reserved: nat, ghost ticket: nat)
      requires meter.ScratchValid() && ticket < |meter.Holders()|
      requires meter.Holders()[ticket] == Holding(reserved) && reserved == |text|
      ensures this.meter == meter && this.text == text && this.ticket == ticket && Valid()
    {
      this.meter, this.text, this.reserved, this.ticket := meter, text, reserved, ticket;
    }

    ghost predicate Valid()
      reads meter
    {
      meter.ScratchValid() && ticket < |meter.Holders()| && meter.Holders()[ticket] == Holding(reserved) && reserved == |text|
    }

    method Drop()
      requires Valid()
      modifies meter`retainedScratch, meter`script
      ensures meter.ScratchValid() && meter.script == old(meter.script) + [Dropped(ticket)]
      ensures ticket < |meter.Holders()| && meter.Holders()[ticket].Gone?
      ensures meter.retainedScratch == SatSub(old(meter.retainedScratch), |text|)
    {
      hide Replay;
      ReplaySnoc(meter.scratchLimit, meter.script, Dropped(ticket));
      meter.script := meter.script + [Dropped(ticket)];
      meter.ReleaseScratch(reserved);
    }
  }

  predicate Touches(event: Event, ticket: nat) {
    !event.Opened? && event.ticket == ticket
  }

  /** Nothing one holder does disturbs another: an event of a different ticket leaves every other
      live writer and text of the meter in charge of its own reservation. */
  twostate lemma HoldersDoNotInterfere(meter: GeneratedOutputMeter, event: Event, writer: ScratchWriter,
      text: ScratchText)
    requires old(writer.Valid()) && writer.meter == meter && !Touches(event, writer.ticket) && unchanged(writer)
    requires old(text.Valid()) && text.meter == meter && !Touches(event, text.ticket)
    requires meter.ScratchValid() && meter.script == old(meter.script) + [event]
    ensures writer.Valid() && text.Valid()
  {
    hide Replay;
    ReplaySnoc(meter.scratchLimit, old(meter.script), event);
  }

  /** At every moment of every meter's life: retained scratch is within its limit, never more than
      what live writers and texts hold, and exactly that as long as what they hold has fitted one
      address space, as under any limit below `u64::MAX` it must. */
  lemma RetainedIsLive(meter: GeneratedOutputMeter)
    requires meter.ScratchValid()
    ensures meter.retainedScratch <= meter.scratchLimit && meter.retainedScratch <= Live(meter.Holders())
    ensures FitsMemory(meter.scratchLimit, meter.script) ==> meter.retainedScratch == Live(meter.Holders())
    ensures meter.scratchLimit < U64_MAX ==> meter.retainedScratch == Live(meter.Holders())
  {
    EveryScriptBalances(meter.scratchLimit, meter.script);
    if FitsMemory(meter.scratchLimit, meter.script) {
      FittingScriptBalances(meter.scratchLimit, meter.script);
    }
  }

  /** Once every writer and text of a meter has gone it retains nothing. */
  lemma AllDroppedIsEmpty(meter: GeneratedOutputMeter)
    requires meter.ScratchValid()
    requires forall t :: 0 <= t < |meter.Holders()| ==> meter.Holders()[t].Gone?
    ensures meter.retainedScratch == 0
  {
    forall t | 0 <= t < |Replay(meter.scratchLimit, meter.script).holders|
      ensures Replay(meter.scratchLimit, meter.script).holders[t].Gone?
    {
      assert meter.Holders()[t].Gone?;
    }
    AllGoneRetainsNothing(meter.scratchLimit, meter.script);
  }
}
