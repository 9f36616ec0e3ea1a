/** A whole measurement run, from records to the final re-validation
    (scripts/process-tree-memory.py). */
module MeasurementRun {
  import opened Common
  import opened Packing
  import opened SegmentNames
  import opened SegmentWriter
  import opened SegmentCheck
  import opened Summary
  import Decimal
  import opened SummaryDetails
  import RawStream
  import IdleControl
  import Measurements
  import SamplingLoop

  /** What a run is given: the names and bounds of its evidence, its summary's details, and the
      libraries it calls. `matched` is what the directory's glob finds for the prefix. */
  datatype Job = Job(
    prefix: Name, selected: Name, reserved: set<Name>, samples: int, bytes: int,
    platform: Platform, exitCode: int, capacity: Option<Capacity>,
    encode: Record -> Line, decode: Decoder, spell: Manifest -> seq<Byte>, parse: seq<Byte> -> Option<Manifest>,
    sha: seq<Byte> -> Digest, matched: Name -> bool)

  datatype RunOutcome =
    | DestinationExists
    | OpenFailed(openError: OpenError)
    | WriteFailed(error: WriteError)
    | StreamRefused
    | CapacityRefused
    | SummaryExists
    | Finished(manifest: Manifest, files: Directory, revalidated: bool)

  // -------------------------------------------------------------- the destination

  const STAR: Byte := 0x2A
  const QUESTION: Byte := 0x3F
  const BRACKET: Byte := 0x5B
  const DOT: Byte := 0x2E

  /** A prefix that the glob takes literally. */
  predicate Literal(prefix: Name) {
    STAR !in prefix && QUESTION !in prefix && BRACKET !in prefix
  }

  /** `{prefix}-*.ndjson`, taken literally. */
  predicate Globbed(prefix: Name, name: Name) {
    prefix + [DASH] <= name && EndsWith(name, SUFFIX) && |name| >= |prefix| + 1 + |SUFFIX|
  }

  /** A name that stands for the directory itself or the one above, which are there. */
  predicate NamesDirectory(name: Name) {
    name == [] || name == [DOT] || name == [DOT, DOT]
  }

  /** The destination check: the summary, a file of a reserved name, the bare prefix, or a file
      that the glob finds. */
  predicate Taken(job: Job, directory: Directory) {
    || NamesDirectory(job.selected) || NamesDirectory(job.prefix)
    || exists n :: n in directory && (n == job.selected || n in job.reserved || n == job.prefix || job.matched(n))
  }

  /** What is assumed of the JSON library, of SHA-256 and of the glob. */
  ghost predicate Libraries(job: Job) {
    && Codec(job.encode, job.decode)
    && (forall m :: job.parse(job.spell(m)) == Some(m) && job.spell(m) != [])
    && (forall x :: |job.sha(x)| == 64)
    && (Literal(job.prefix) ==> forall n :: job.matched(n) <==> Globbed(job.prefix, n))
  }

  // ------------------------------------------------------------------ the records

  /** The records as the writer numbers them. */
  function Numbered(produced: seq<Record>): (r: seq<Record>)
    ensures |r| == |produced|
    ensures forall i :: 0 <= i < |r| ==> r[i] == produced[i].(sequence := i)
  {
    seq(|produced|, i requires 0 <= i < |produced| => produced[i].(sequence := i))
  }

  /** The lines of the numbered records. */
  function Encoded(produced: seq<Record>, encode: Record -> Line): (lines: seq<Line>)
    ensures |lines| == |produced|
    ensures forall i :: 0 <= i < |lines| ==> lines[i] == encode(produced[i].(sequence := i))
  {
    seq(|produced|, i requires 0 <= i < |produced| => encode(produced[i].(sequence := i)))
  }

  lemma EncodedSnoc(produced: seq<Record>, encode: Record -> Line, i: nat)
    requires i < |produced|
    ensures Encoded(produced, encode)[..i + 1]
            == Encoded(produced, encode)[..i] + [encode(produced[i].(sequence := i))]
  {
  }

  lemma NumberedSnoc(produced: seq<Record>, i: nat)
    requires i < |produced|
    ensures Numbered(produced)[..i + 1] == Numbered(produced)[..i] + [Numbered(produced)[i]]
    ensures Numbered(produced)[i] == produced[i].(sequence := i)
  {
  }

  lemma EncodesSnoc(lines: seq<Line>, records: seq<Record>, line: Line, record: Record, encode: Record -> Line,
                    decode: Decoder)
    requires Encodes(lines, records, decode) && Codec(encode, decode)
    requires line == encode(record)
    ensures Encodes(lines + [line], records + [record], decode)
  {
    hide CodecOn;
    assert CodecOn(record, encode(record), decode);
  }

  // ------------------------------------------------- when a run ends, and how it reads

  /** How many segments the lines need. */
  function SegmentsNeeded(lines: seq<Line>, samples: nat, bytes: nat): nat {
    |Pack(lines, samples, bytes).Pieces()|
  }

  /** The segments that the lines need are not there, and none of them is the summary. */
  predicate NamesFree(job: Job, directory: Directory, n: nat) {
    forall k :: 0 <= k < n ==> SegmentName(job.prefix, k) !in directory && SegmentName(job.prefix, k) != job.selected
  }

  /** The writer takes all the lines. */
  ghost predicate Writable(job: Job, directory: Directory, lines: seq<Line>)
    requires job.samples >= 0 && job.bytes >= 0
  {
    && Packable(lines, job.samples, job.bytes) && CanSplit(lines, job.samples, job.bytes, MAX_SEGMENTS)
    && NamesFree(job, directory, SegmentsNeeded(lines, job.samples, job.bytes))
  }

  /** The run gets through: the destination is free, the bounds are legal, the writer takes every
      record, the records are a complete run, and the capacity identity is sound. */
  ghost predicate GetsThrough(job: Job, directory: Directory, produced: seq<Record>) {
    && !Taken(job, directory) && InBounds(job.prefix, job.samples, job.bytes, MAX_SEGMENTS)
    && Writable(job, directory, Encoded(produced, job.encode))
    && RawStream.CompleteRun(Numbered(produced), Measured())
    && CapacityOk(job.capacity)
  }

  function DetailsOf(job: Job): Details {
    Details(job.platform, ExitStatus(job.exitCode), job.exitCode, job.capacity)
  }

  /** The summary of a run that gets through. */
  function ManifestFor(job: Job, produced: seq<Record>): Manifest
    requires job.samples >= 0 && job.bytes >= 0
  {
    var lines := Encoded(produced, job.encode);
    ManifestOf(job.prefix, job.samples, job.bytes, lines, Pack(lines, job.samples, job.bytes).Pieces(),
               Numbered(produced), job.sha, DetailsOf(job))
  }

  /** Reading back accepts: the prefix names raw segments and no other raw segment and nothing of
      another kind is there; the summary's own name is of no such kind either; no line and not
      the summary is longer than the reader takes; and the platform is described in full. */
  predicate ReadsBack(job: Job, directory: Directory, lines: seq<Line>, manifest: Manifest) {
    && RawPrefix(job.prefix) && RawNames(directory) == {} && Alone(directory, job.selected)
    && !Forbidden(job.selected, job.selected) && !IsRawName(job.selected)
    && Short(lines) && |job.spell(manifest)| <= MAX_SUMMARY_BYTES && PlatformOk(job.platform)
  }

  /** What is known of a run that stops on the way. */
  ghost predicate Stopped(r: RunOutcome, job: Job, directory: Directory, produced: seq<Record>)
    requires job.samples >= 0 && job.bytes >= 0
  {
    var lines := Encoded(produced, job.encode);
    match r
    case WriteFailed(TooLarge) => !Packable(lines, job.samples, job.bytes)
    case WriteFailed(TooManySegments) =>
      Packable(lines, job.samples, job.bytes) ==> !CanSplit(lines, job.samples, job.bytes, MAX_SEGMENTS)
    case WriteFailed(FileExists) =>
      exists k :: 0 <= k < SegmentsNeeded(lines, job.samples, job.bytes) && k < MAX_SEGMENTS
                  && SegmentName(job.prefix, k) in directory
    case StreamRefused => !RawStream.CompleteRun(Numbered(produced), Measured())
    case CapacityRefused => !CapacityOk(job.capacity)
    case SummaryExists =>
      exists k :: 0 <= k < SegmentsNeeded(lines, job.samples, job.bytes) && SegmentName(job.prefix, k) == job.selected
    case _ => false
  }

  /** What a finished run leaves: the segments and the summary beside what was there, and whether
      they are accepted on reading back. */
  ghost predicate Concluded(r: RunOutcome, job: Job, directory: Directory, produced: seq<Record>)
    requires r.Finished? && job.samples >= 0 && job.bytes >= 0
  {
    var lines, manifest := Encoded(produced, job.encode), ManifestFor(job, produced);
    && r.manifest == manifest
    && Stored(r.files, directory[job.selected := job.spell(manifest)], job.prefix,
              Pack(lines, job.samples, job.bytes).Pieces())
    && (r.revalidated <==> Validates(job.selected, r.files, job.parse, job.decode, job.sha))
    && (r.revalidated <==> ReadsBack(job, directory, lines, manifest))
  }

  /** The writer, the stream validator and the accumulator each take every record, as in
      `run_measurement`; at the end the summary is written and the evidence is read back. The run
      finishes exactly when it gets through, and every other end has its cause. What is read back
      is accepted exactly under `ReadsBack`: the destination check does not look for other
      artifacts, nor the writer at what the reader will take. */
  method RunMeasurement(job: Job, directory: Directory, produced: seq<Record>) returns (r: RunOutcome)
    requires Libraries(job)
    ensures r == DestinationExists <==> Taken(job, directory)
    ensures r == OpenFailed(BadNameOrBounds) <==>
              !Taken(job, directory) && !InBounds(job.prefix, job.samples, job.bytes, MAX_SEGMENTS)
    ensures r == OpenFailed(SegmentExists) <==>
              !Taken(job, directory) && InBounds(job.prefix, job.samples, job.bytes, MAX_SEGMENTS)
              && SegmentName(job.prefix, 0) in directory
    ensures r.Finished? <==> GetsThrough(job, directory, produced)
    ensures r.Finished? ==> Concluded(r, job, directory, produced)
    // Its summary describes the records' own fields, and each record is sound by itself.
    ensures r.Finished? ==> SummaryTells(r.manifest, job, Numbered(produced))
    ensures !r.Finished? && !r.DestinationExists? && !r.OpenFailed? ==>
              InBounds(job.prefix, job.samples, job.bytes, MAX_SEGMENTS) && Stopped(r, job, directory, produced)
    // Where the glob takes the prefix literally, it finds every segment that is in the way.
    ensures Literal(job.prefix) ==> r != WriteFailed(FileExists) && r != OpenFailed(SegmentExists)
  {
    hide Libraries, Writable, RawStream.CompleteRun, SegmentName, Concluded, Untouched, PlainName, Literal, Stopped,
         SummaryTells;
    if NamesDirectory(job.selected) || NamesDirectory(job.prefix)
       || exists n :: n in directory && (n == job.selected || n in job.reserved || n == job.prefix || job.matched(n)) {
      return DestinationExists;
    }
    FreeIsUntouched(job, directory);
    var attempt := SegmentedRawWriter.Open(job.prefix, job.samples, job.bytes, MAX_SEGMENTS, job.encode, job.sha,
                                           directory);
    if attempt.Err? {
      if SegmentName(job.prefix, 0) in directory {
        FirstIsNeeded(job, directory, produced);
      }
      return OpenFailed(attempt.error);
    }
    r := Measure(job, attempt.value, produced);
    if !r.Finished? {
      StoppedIsNotThrough(r, job, directory, produced);
    } else {
      ConcludedTells(r, job, directory, produced);
    }
  }

  /** What a summary says of the run and its records. */
  ghost predicate SummaryTells(m: Manifest, job: Job, records: seq<Record>) {
    && DetailsTell(m.details) && m.details.exitCode == job.exitCode && m.details.capacity == job.capacity
    && m.details.platform == job.platform && m.rawRecordCount == |records|
    && StatisticsTell(m.parts, records) && EventsTell(m.parts.events, records)
    && (forall i :: 0 <= i < |records| ==> RawStream.RecordTells(records[i]) && records[i].sequence == i)
  }

  lemma DetailsAreTold(job: Job)
    requires CapacityOk(job.capacity)
    ensures DetailsTell(DetailsOf(job))
  {
    DetailsIff(DetailsOf(job));
  }

  lemma ConcludedTells(r: RunOutcome, job: Job, directory: Directory, produced: seq<Record>)
    requires r.Finished? && job.samples >= 0 && job.bytes >= 0 && Concluded(r, job, directory, produced)
    requires RawStream.CompleteRun(Numbered(produced), Measured()) && CapacityOk(job.capacity)
    ensures SummaryTells(r.manifest, job, Numbered(produced))
  {
    hide RawStream.CompleteRun, RawStream.RecordTells, RawStream.Accepts, Encoded, Numbered, Pack, Stored, Validates,
         ReadsBack, BatchSummary, StatisticsTell, EventsTell, Entries, Size, DetailsTell;
    var records := Numbered(produced);
    DetailsAreTold(job);
    BatchSummaryTells(records);
    RawStream.AcceptsExactlyCompleteRuns(records, Measured());
    forall i | 0 <= i < |records|
      ensures RawStream.RecordTells(records[i]) && records[i].sequence == i
    {
      RawStream.AcceptedRecordTells(records, Measured(), i);
    }
  }

  /** None of the segment names was there before. */
  ghost predicate Untouched(prefix: Name, start: Directory) {
    forall k: nat :: k < MAX_SEGMENTS ==> SegmentName(prefix, k) !in start
  }

  lemma FreeIsUntouched(job: Job, directory: Directory)
    requires Libraries(job) && !Taken(job, directory)
    ensures Literal(job.prefix) ==> Untouched(job.prefix, directory) && SegmentName(job.prefix, 0) !in directory
  {
    hide SegmentName, Globbed, Codec;
    if Literal(job.prefix) {
      forall k: nat | k < MAX_SEGMENTS
        ensures SegmentName(job.prefix, k) !in directory
      {
        SegmentIsGlobbed(job.prefix, k);
      }
    }
  }

  lemma SegmentIsGlobbed(prefix: Name, k: nat)
    ensures Globbed(prefix, SegmentName(prefix, k))
  {
  }

  lemma FirstIsNeeded(job: Job, directory: Directory, produced: seq<Record>)
    requires SegmentName(job.prefix, 0) in directory
    ensures !GetsThrough(job, directory, produced)
  {
    hide SegmentName, Pack, CanSplit, Packable, RawStream.CompleteRun;
  }

  lemma StoppedIsNotThrough(r: RunOutcome, job: Job, directory: Directory, produced: seq<Record>)
    requires job.samples >= 0 && job.bytes >= 0 && Stopped(r, job, directory, produced)
    ensures !r.DestinationExists? && !r.OpenFailed? && !GetsThrough(job, directory, produced)
    ensures r == WriteFailed(FileExists) ==> !Untouched(job.prefix, directory)
  {
    hide SegmentName, SegmentsNeeded, CanSplit, Packable, RawStream.CompleteRun, Taken;
  }

  /** The writer that was opened for a run. */
  ghost predicate OpenedFor(job: Job, writer: SegmentedRawWriter)
    reads writer
  {
    OpenedConstants(job, writer) && writer.Valid()
  }

  /** The part of that which writing does not touch. */
  ghost predicate OpenedConstants(job: Job, writer: SegmentedRawWriter) {
    && job.samples >= 0 && job.bytes >= 0 && InBounds(job.prefix, job.samples, job.bytes, MAX_SEGMENTS)
    && writer.prefix == job.prefix && writer.encode == job.encode && writer.sha == job.sha
    && writer.maximumSegmentSamples == job.samples && writer.maximumSegmentBytes == job.bytes
    && writer.maximumSegments == MAX_SEGMENTS && job.selected !in writer.start
  }

  /** The run, once the writer is open. */
  method Measure(job: Job, writer: SegmentedRawWriter, produced: seq<Record>) returns (r: RunOutcome)
    requires Libraries(job) && OpenedFor(job, writer) && writer.lines == []
    modifies writer
    ensures !r.Finished? ==> Stopped(r, job, writer.start, produced)
    ensures r.Finished? ==>
              && Writable(job, writer.start, Encoded(produced, job.encode))
              && RawStream.CompleteRun(Numbered(produced), Measured()) && CapacityOk(job.capacity)
              && Concluded(r, job, writer.start, produced)
  {
    hide Libraries, Numbered, RawStream.Finishes, Pack, Stored, Codec, Encodes, SegmentName, RawStream.Fold,
         RawStream.CompleteRun, InStep, Entries, Size, TotalLines, PlainName, Encoded, Stopped, Writable, Concluded;
    var validator := new RawStream.RawRecordStreamValidator(Measured());
    var accumulator := new StreamingSummaryAccumulator();
    ghost var records: seq<Record> := [];
    StartsInStep(validator, accumulator);
    NothingEncoded(job.decode);
    for i := 0 to |produced|
      invariant |records| == i && records == Numbered(produced)[..i]
      invariant OpenedFor(job, writer) && writer.lines == Encoded(produced, job.encode)[..i]
      invariant Together(writer, validator, accumulator, job.decode, records) && validator.maximum == Measured()
      invariant fresh(validator) && fresh(accumulator)
    {
      NumberedSnoc(produced, i);
      EncodedSnoc(produced, job.encode, i);
      var failure := TakeRecord(job, writer, validator, accumulator, produced[i], records);
      if failure.Some? {
        StoppedEarly(failure.value, job, writer.start, produced, i);
        return failure.value;
      }
      records := records + [Numbered(produced)[i]];
    }
    assert records == Numbered(produced) && writer.lines == Encoded(produced, job.encode);
    if !RawStream.Finishes(validator.Now()) {
      UnfinishedIsRefused(validator, accumulator, records);
      RefusedStops(job, writer.start, produced);
      return StreamRefused;
    }
    r := Publish(job, writer, validator, accumulator, produced);
  }

  /** A record that is refused refuses the run. */
  lemma StoppedEarly(r: RunOutcome, job: Job, directory: Directory, produced: seq<Record>, i: nat)
    requires job.samples > 0 && job.bytes >= 0 && i < |produced|
    requires RecordStops(r, job, directory, Numbered(produced)[..i + 1], Encoded(produced, job.encode)[..i + 1])
    ensures Stopped(r, job, directory, produced)
  {
    hide Numbered, Encoded, RawStream.CompleteRun, RawStream.Fold, SegmentName, Pack, CanSplit;
    var lines := Encoded(produced, job.encode);
    match r
    case WriteFailed(TooLarge) =>
      assert lines[..i + 1][i] == lines[i];
    case WriteFailed(TooManySegments) =>
      if Packable(lines, job.samples, job.bytes) {
        MoreNeedsMore(lines, i + 1, job.samples, job.bytes);
      }
    case WriteFailed(FileExists) =>
      PackGrows(lines, i + 1, job.samples, job.bytes);
      GreedyIsOptimal(lines[..i + 1], job.samples, job.bytes, MAX_SEGMENTS);
      assert 0 <= SegmentsNeeded(lines[..i + 1], job.samples, job.bytes) - 1 < MAX_SEGMENTS;
    case StreamRefused =>
      RefusedForGood(Numbered(produced), i + 1);
    case _ =>
  }

  /** Lines that cannot be split do not become splittable by more lines. */
  lemma MoreNeedsMore(lines: seq<Line>, n: nat, samples: nat, bytes: nat)
    requires 0 < n <= |lines| && Packable(lines, samples, bytes) && !CanSplit(lines[..n], samples, bytes, MAX_SEGMENTS)
    ensures !CanSplit(lines, samples, bytes, MAX_SEGMENTS)
  {
    hide Pack, CanSplit;
    GreedyIsOptimal(lines, samples, bytes, MAX_SEGMENTS);
    GreedyIsOptimal(lines[..n], samples, bytes, MAX_SEGMENTS);
    PackGrows(lines, n, samples, bytes);
  }

  lemma RefusedForGood(records: seq<Record>, n: nat)
    requires n <= |records| && RawStream.Fold(records[..n], Measured()).None?
    ensures !RawStream.CompleteRun(records, Measured())
  {
    hide RawStream.Step, RawStream.CompleteRun;
    RawStream.FoldFailsEarly(records, n, Measured());
    RawStream.AcceptsExactlyCompleteRuns(records, Measured());
  }

  lemma UnfinishedIsRefused(validator: RawStream.RawRecordStreamValidator, accumulator: StreamingSummaryAccumulator,
                            records: seq<Record>)
    requires InStep(validator, accumulator, records) && !RawStream.Finishes(validator.Now())
    ensures !RawStream.CompleteRun(records, validator.maximum)
  {
    hide RawStream.Fold, RawStream.Finishes, RawStream.CompleteRun;
    RawStream.AcceptsExactlyCompleteRuns(records, validator.maximum);
  }

  lemma RefusedStops(job: Job, directory: Directory, produced: seq<Record>)
    requires job.samples >= 0 && job.bytes >= 0 && !RawStream.CompleteRun(Numbered(produced), Measured())
    ensures Stopped(StreamRefused, job, directory, produced)
  {
  }

  /** The three consumers of the record stream hold the same records. */
  ghost predicate Together(writer: SegmentedRawWriter, validator: RawStream.RawRecordStreamValidator,
                           accumulator: StreamingSummaryAccumulator, decode: Decoder, records: seq<Record>)
    reads writer, validator, accumulator
  {
    && writer.Valid() && InStep(validator, accumulator, records) && Encodes(writer.lines, records, decode)
  }

  /** Why the last of these records is not taken. */
  ghost predicate RecordStops(r: RunOutcome, job: Job, directory: Directory, records: seq<Record>, lines: seq<Line>)
    requires job.samples >= 0 && job.bytes >= 0
  {
    match r
    case WriteFailed(TooLarge) => lines != [] && |lines[|lines| - 1]| > job.bytes
    case WriteFailed(TooManySegments) => !CanSplit(lines, job.samples, job.bytes, MAX_SEGMENTS)
    case WriteFailed(FileExists) =>
      CanSplit(lines, job.samples, job.bytes, MAX_SEGMENTS) && Packable(lines, job.samples, job.bytes) && lines != []
      && SegmentName(job.prefix, SegmentsNeeded(lines, job.samples, job.bytes) - 1) in directory
    case StreamRefused => RawStream.Fold(records, Measured()).None?
    case _ => false
  }

  /** One record goes to the writer, the validator and the accumulator. */
  method TakeRecord(job: Job, writer: SegmentedRawWriter, validator: RawStream.RawRecordStreamValidator,
                    accumulator: StreamingSummaryAccumulator, produced: Record, ghost records: seq<Record>)
    returns (failure: Option<RunOutcome>)
    requires Together(writer, validator, accumulator, job.decode, records) && validator.maximum == Measured()
    requires Libraries(job) && OpenedFor(job, writer)
    modifies writer, validator, accumulator
    ensures var record := produced.(sequence := |records|);
            && (failure.None? ==>
                  && OpenedFor(job, writer) && writer.lines == old(writer.lines) + [job.encode(record)]
                  && Together(writer, validator, accumulator, job.decode, records + [record]))
            && (failure.Some? ==> RecordStops(failure.value, job, writer.start, records + [record],
                                              old(writer.lines) + [job.encode(record)]))
  {
    hide RawStream.Fold, RawStream.Step, Codec, Encodes, OpenedFor, RawStream.Advance, CanSplit, SegmentName,
         SegmentedRawWriter.Valid, Packable;
    EncodesCounts(writer.lines, records, job.decode);
    ghost var record := produced.(sequence := |records|);
    ghost var before := writer.lines;
    var numbered := NumberedBy(writer, produced);
    var failed := WriteRecord(job, writer, produced);
    if failed.Some? {
      return Some(WriteFailed(failed.value));
    }
    EncodesSnoc(before, records, job.encode(record), record, job.encode, job.decode);
    FoldSnoc(records, record, validator.maximum);
    var ok := validator.Observe(numbered);
    if !ok {
      return Some(StreamRefused);
    }
    accumulator.Observe(numbered);
    return None;
  }

  /** The record with the number that the writer puts into it. */
  method NumberedBy(writer: SegmentedRawWriter, produced: Record) returns (record: Record)
    requires writer.Valid()
    ensures record == produced.(sequence := |writer.lines|)
  {
    return produced.(sequence := writer.count);
  }

  method WriteRecord(job: Job, writer: SegmentedRawWriter, produced: Record) returns (failed: Option<WriteError>)
    requires OpenedFor(job, writer)
    modifies writer
    ensures var line := job.encode(produced.(sequence := |old(writer.lines)|));
            && (failed.None? ==> OpenedFor(job, writer) && writer.Valid() && writer.lines == old(writer.lines) + [line])
            && (failed.Some? ==>
                  RecordStops(WriteFailed(failed.value), job, writer.start, [], old(writer.lines) + [line]))
  {
    hide *;
    ghost var before := writer.lines;
    OpenedFacts(job, writer);
    failed := writer.Write(produced);
    if failed.Some? {
      WriteStops(job, writer, failed.value, before, job.encode(produced.(sequence := |before|)));
    } else {
      StillOpened(job, writer);
    }
  }

  lemma OpenedFacts(job: Job, writer: SegmentedRawWriter)
    requires OpenedFor(job, writer)
    ensures writer.Valid() && job.samples >= 0 && job.bytes >= 0 && writer.count == |writer.lines|
    ensures writer.encode == job.encode && writer.maximumSegmentSamples == job.samples
    ensures writer.maximumSegmentBytes == job.bytes && writer.maximumSegments == MAX_SEGMENTS
    ensures OpenedConstants(job, writer) && Packable(writer.lines, job.samples, job.bytes)
  {
    hide Pack, Packable, Stored, PlainName, SegmentedRawWriter.Agrees;
  }

  lemma StillOpened(job: Job, writer: SegmentedRawWriter)
    requires OpenedConstants(job, writer) && writer.Valid()
    ensures OpenedFor(job, writer)
  {
    hide SegmentedRawWriter.Valid, InBounds;
  }

  /** The writer's refusal of a line behind others. */
  lemma WriteStops(job: Job, writer: SegmentedRawWriter, error: WriteError, lines: seq<Line>, line: Line)
    requires OpenedConstants(job, writer) && Packable(lines, job.samples, job.bytes)
    requires error == TooLarge <==> |line| > job.bytes
    requires error == TooManySegments ==> !CanSplit(lines + [line], job.samples, job.bytes, MAX_SEGMENTS)
    requires error == FileExists ==> CanSplit(lines + [line], job.samples, job.bytes, MAX_SEGMENTS)
                                     && writer.LastName(lines + [line]) in writer.start
    ensures RecordStops(WriteFailed(error), job, writer.start, [], lines + [line])
  {
    hide Pack, CanSplit, SegmentName, InBounds, RawStream.Fold;
    assert (lines + [line])[|lines + [line]| - 1] == line;
  }

  /** `finish`, the summary, and reading the evidence back. */
  method Publish(job: Job, writer: SegmentedRawWriter, validator: RawStream.RawRecordStreamValidator,
                 accumulator: StreamingSummaryAccumulator, ghost produced: seq<Record>)
    returns (r: RunOutcome)
    requires Libraries(job) && OpenedFor(job, writer) && writer.lines == Encoded(produced, job.encode)
    requires Together(writer, validator, accumulator, job.decode, Numbered(produced))
    requires validator.maximum == Measured() && RawStream.Finishes(validator.Now())
    modifies writer
    ensures !r.Finished? ==> Stopped(r, job, writer.start, produced)
    ensures r.Finished? ==>
              && Writable(job, writer.start, Encoded(produced, job.encode))
              && RawStream.CompleteRun(Numbered(produced), Measured()) && CapacityOk(job.capacity)
              && Concluded(r, job, writer.start, produced)
  {
    hide *;
    ReadyToPublish(job, writer, validator, accumulator, produced);
    var manifest := FinishedManifest(job, writer, accumulator, produced);
    if !CapacityOk(job.capacity) {
      CapacityStops(job, writer.start, produced);
      return CapacityRefused;
    }
    if job.selected in writer.files {
      SummaryStops(job, writer.files, writer.start, Numbered(produced), produced);
      return SummaryExists;
    }
    var files := writer.files[job.selected := job.spell(manifest)];
    var ok := ValidateSegmentedEvidence(job.selected, files, job.parse, job.decode, job.sha);
    r := Finished(manifest, files, ok);
    PublishedIff(job, produced, writer.files, writer.start);
    RunConcludes(r, job, writer.files, writer.start, produced);
  }

  /** What is known once every record is taken. */
  lemma ReadyToPublish(job: Job, writer: SegmentedRawWriter, validator: RawStream.RawRecordStreamValidator,
                       accumulator: StreamingSummaryAccumulator, produced: seq<Record>)
    requires Libraries(job) && OpenedFor(job, writer) && writer.lines == Encoded(produced, job.encode)
    requires Together(writer, validator, accumulator, job.decode, Numbered(produced))
    requires validator.maximum == Measured() && RawStream.Finishes(validator.Now())
    ensures RawStream.Accepts(Numbered(produced), Measured()) && RawStream.CompleteRun(Numbered(produced), Measured())
    ensures job.samples >= 0 && job.bytes >= 0 && job.selected !in writer.start && writer.lines != []
    ensures InBounds(job.prefix, job.samples, job.bytes, MAX_SEGMENTS)
    ensures accumulator.Valid() && accumulator.seen == Numbered(produced)
    ensures WrittenFor(job, Encoded(produced, job.encode), Numbered(produced), writer.files, writer.start)
    ensures job.selected !in writer.files ==> Writable(job, writer.start, Encoded(produced, job.encode))
  {
    hide RawStream.Fold, RawStream.CompleteRun, RawStream.Accepts, Encodes, Numbered, Encoded, Codec,
         Writable, WrittenFor, SegmentedRawWriter.Valid, PlainName, RawStream.Finishes;
    var records := Numbered(produced);
    StepAccepts(validator, accumulator, records);
    RawStream.AcceptsExactlyCompleteRuns(records, Measured());
    AcceptedWithOwnCount(records, Measured());
    EncodesCounts(writer.lines, records, job.decode);
    PackedIsWritten(job, writer, records);
    WrittenIsWritable(job, writer.lines, records, writer.files, writer.start);
  }

  /** The summary that `finish`, the totals and the accumulator make. */
  method FinishedManifest(job: Job, writer: SegmentedRawWriter, accumulator: StreamingSummaryAccumulator,
                          ghost produced: seq<Record>)
    returns (manifest: Manifest)
    requires OpenedFor(job, writer) && writer.lines == Encoded(produced, job.encode) && writer.lines != []
    requires accumulator.Valid() && accumulator.seen == Numbered(produced)
    modifies writer`segments
    ensures job.samples >= 0 && job.bytes >= 0 && manifest == ManifestFor(job, produced)
  {
    hide Pack, Stored, BatchSummary, SegmentName, PlainName, Entries, Concat, Size;
    var segments := writer.Finish();
    var parts := accumulator.Parts();
    return Manifest(writer.prefix, writer.maximumSegmentSamples, writer.maximumSegmentBytes, MAX_SEGMENTS,
                    writer.count, writer.bytesWritten, writer.sha(writer.digest), segments.value, parts,
                    DetailsOf(job));
  }

  /** Raw segments are never forbidden, so writing them forbids nothing. */
  lemma AloneAfterWriting(files: Directory, start: Directory, prefix: Name, pieces: seq<seq<Line>>, selected: Name)
    requires Stored(files, start, prefix, pieces) && |pieces| <= MAX_SEGMENTS
    ensures RawPrefix(prefix) ==> (Alone(files, selected) <==> Alone(start, selected))
  {
    hide SegmentName, RawPrefix, Forbidden, IsRawName;
    if RawPrefix(prefix) {
      forall n | n in files && n !in start
        ensures !Forbidden(n, selected)
      {
        var k :| 0 <= k < |pieces| && n == SegmentName(prefix, k);
        SegmentNameIsRaw(prefix, k);
        RawIsNotForbidden(n, selected);
      }
    }
  }

  lemma StepAccepts(validator: RawStream.RawRecordStreamValidator, accumulator: StreamingSummaryAccumulator,
                    records: seq<Record>)
    requires InStep(validator, accumulator, records) && RawStream.Finishes(validator.Now())
    ensures RawStream.Accepts(records, validator.maximum)
  {
    hide RawStream.Fold, RawStream.Finishes;
  }

  /** The files of a run against its records, as the writer leaves them. */
  ghost predicate WrittenFor(job: Job, lines: seq<Line>, records: seq<Record>, files: Directory, start: Directory)
    requires job.samples >= 0 && job.bytes >= 0
  {
    Written(job.prefix, job.samples, job.bytes, lines, Pack(lines, job.samples, job.bytes).Pieces(), records, files,
            start, job.decode, job.sha)
  }

  lemma PackedIsWritten(job: Job, writer: SegmentedRawWriter, records: seq<Record>)
    requires Libraries(job) && OpenedFor(job, writer) && writer.lines != []
    requires Encodes(writer.lines, records, job.decode)
    ensures WrittenFor(job, writer.lines, records, writer.files, writer.start)
    ensures Packable(writer.lines, job.samples, job.bytes)
  {
    hide Pack, Stored, Encodes, Codec, PlainName;
    PackHolds(writer.lines, writer.maximumSegmentSamples, writer.maximumSegmentBytes);
  }

  lemma WrittenIsWritable(job: Job, lines: seq<Line>, records: seq<Record>, files: Directory, start: Directory)
    requires job.samples >= 0 && job.bytes >= 0 && lines != [] && Packable(lines, job.samples, job.bytes)
    requires WrittenFor(job, lines, records, files, start)
    ensures job.selected !in files ==> Writable(job, start, lines)
  {
    hide Pack, Encodes, SegmentName, CanSplit, Packable;
    GreedyIsOptimal(lines, job.samples, job.bytes, MAX_SEGMENTS);
  }

  lemma CapacityStops(job: Job, directory: Directory, produced: seq<Record>)
    requires job.samples >= 0 && job.bytes >= 0 && !CapacityOk(job.capacity)
    ensures Stopped(CapacityRefused, job, directory, produced)
  {
  }

  /** A summary name that is there now, and was not, is that of a segment. */
  lemma SummaryStops(job: Job, files: Directory, start: Directory, records: seq<Record>, produced: seq<Record>)
    requires job.samples >= 0 && job.bytes >= 0 && job.selected in files && job.selected !in start
    requires WrittenFor(job, Encoded(produced, job.encode), records, files, start)
    ensures Stopped(SummaryExists, job, start, produced)
  {
    hide Pack, Encodes, SegmentName, Encoded;
    var k :| 0 <= k < |Pack(Encoded(produced, job.encode), job.samples, job.bytes).Pieces()|
             && job.selected == SegmentName(job.prefix, k);
  }

  /** With the summary beside them, the segments are still the only new files. */
  lemma StoredBesideSummary(files: Directory, start: Directory, prefix: Name, pieces: seq<seq<Line>>, selected: Name,
                            text: seq<Byte>)
    requires Stored(files, start, prefix, pieces) && selected !in files
    ensures Stored(files[selected := text], start[selected := text], prefix, pieces)
  {
    hide SegmentName, Concat;
  }

  /** What the summary's own name adds to the directory. */
  lemma NamesBesideSummary(start: Directory, selected: Name, text: seq<Byte>)
    requires selected !in start
    ensures RawNames(start[selected := text]) == {} <==> RawNames(start) == {} && !IsRawName(selected)
    ensures Alone(start[selected := text], selected) <==> Alone(start, selected) && !Forbidden(selected, selected)
  {
    hide IsRawName, Forbidden;
    var more := start[selected := text];
    assert selected in more && forall n :: n in start ==> n in more;
    assert RawNames(more) == RawNames(start) + if IsRawName(selected) then {selected} else {};
    if IsRawName(selected) {
      assert selected in RawNames(more);
    }
  }

  /** What reading back a written run with its summary decides. */
  lemma PublishedIff(job: Job, produced: seq<Record>, files: Directory, start: Directory)
    requires InBounds(job.prefix, job.samples, job.bytes, MAX_SEGMENTS) && Libraries(job)
    requires job.selected !in files && job.selected !in start
    requires WrittenFor(job, Encoded(produced, job.encode), Numbered(produced), files, start)
    requires RawStream.Accepts(Numbered(produced), Measured()) && CapacityOk(job.capacity)
    ensures var m := ManifestFor(job, produced);
            var text, lines := job.spell(m), Encoded(produced, job.encode);
            && Stored(files[job.selected := text], start[job.selected := text], job.prefix,
                      Pack(lines, job.samples, job.bytes).Pieces())
            && (Validates(job.selected, files[job.selected := text], job.parse, job.decode, job.sha)
                <==> ReadsBack(job, start, lines, m))
  {
    hide RawStream.Accepts, RawPrefix, RawNames, PlainName, Short, Alone, Accepts, ManifestOf, Stored, IsSplit,
         Encodes, Pack, Forbidden, IsRawName, Codec, CapacityOk, PlatformOk, Encoded, Numbered;
    var lines := Encoded(produced, job.encode);
    var pieces := Pack(lines, job.samples, job.bytes).Pieces();
    var m := ManifestFor(job, produced);
    var text := job.spell(m);
    var files', start' := files[job.selected := text], start[job.selected := text];
    StoredBesideSummary(files, start, job.prefix, pieces, job.selected, text);
    NamesBesideSummary(start, job.selected, text);
    WrittenRunIsAcceptedIff(job.prefix, job.samples, job.bytes, lines, pieces, Numbered(produced), files', start',
                            job.decode, job.sha, DetailsOf(job), Measured());
    AloneAfterWriting(files', start', job.prefix, pieces, job.selected);
    assert files'[job.selected] == text && job.parse(text) == Some(m) && text != [];
  }

  lemma RunConcludes(r: RunOutcome, job: Job, files: Directory, start: Directory, produced: seq<Record>)
    requires r.Finished? && job.samples >= 0 && job.bytes >= 0
    requires r.manifest == ManifestFor(job, produced) && r.files == files[job.selected := job.spell(r.manifest)]
    requires Stored(r.files, start[job.selected := job.spell(r.manifest)], job.prefix,
                    Pack(Encoded(produced, job.encode), job.samples, job.bytes).Pieces())
    requires r.revalidated <==> Validates(job.selected, r.files, job.parse, job.decode, job.sha)
    requires r.revalidated <==> ReadsBack(job, start, Encoded(produced, job.encode), r.manifest)
    ensures Concluded(r, job, start, produced)
  {
    hide Stored, Pack, Encoded, Validates, ReadsBack, ManifestFor;
  }

  /** The validator's own bound in a live run is the largest byte count. */
  function Measured(): int {
    0x7FFF_FFFF_FFFF_FFFF
  }

  lemma NothingEncoded(decode: Decoder)
    ensures Encodes([], [], decode)
  {
  }

  /** The records that the idle control and the sampling loop make are numbered as the writer
      numbers them, and a run of them is refused only for a loop that starts at the very reading
      of the last idle sample, or that takes a single sample. */
  lemma SampledRunIff(idle: seq<Record>, idleStart: int, snapshots: seq<IdleControl.Snapshot>, rs: seq<Record>,
                      turns: seq<SamplingLoop.Turn>, start: int, target: SamplingLoop.Target)
    requires SamplingLoop.Stream(idle, idleStart, snapshots, rs, turns, start, target)
    requires SamplingLoop.Last(turns[|rs| - 1]) && |idle + rs| <= Measured()
    ensures Numbered(idle + rs) == idle + rs
    ensures RawStream.CompleteRun(Numbered(idle + rs), Measured())
            <==> start > idle[RawStream.IDLE_SAMPLES - 1].actual && |rs| >= 2
  {
    hide RawStream.Accepts, RawStream.CompleteRun, SamplingLoop.TypedTurns, SamplingLoop.Produced,
         IdleControl.OnSchedule;
    RawStream.AcceptsExactlyCompleteRuns(idle + rs, Measured());
    SampledAreNumbered(idle, idleStart, snapshots, rs, turns, start, target);
    SamplingLoop.LoopRunIff(idle, idleStart, snapshots, rs, turns, start, target, Measured());
  }

  lemma SampledAreNumbered(idle: seq<Record>, idleStart: int, snapshots: seq<IdleControl.Snapshot>, rs: seq<Record>,
                           turns: seq<SamplingLoop.Turn>, start: int, target: SamplingLoop.Target)
    requires SamplingLoop.Stream(idle, idleStart, snapshots, rs, turns, start, target)
    ensures Numbered(idle + rs) == idle + rs
  {
    hide SamplingLoop.TypedTurns, SamplingLoop.TurnRecord, SamplingLoop.LoopAfter, IdleControl.TypedSnapshot;
    var all := idle + rs;
    forall i | 0 <= i < |all|
      ensures all[i].sequence == i
    {
      if i < |idle| {
        assert idle[i] == IdleControl.IdleRecord(i, idleStart + i * Measurements.CADENCE_NS, idle[i].actual,
                                                 snapshots[i]);
      } else {
        SamplingLoop.ProducedRecord(rs, turns, RawStream.IDLE_SAMPLES, start, target, i - |idle|);
      }
    }
  }

  // ------------------------------------------------------------ runs that read badly

  /** "capacity" and "host-smoke", which name two kinds of run. */
  const CAPACITY: Name := [0x63, 0x61, 0x70, 0x61, 0x63, 0x69, 0x74, 0x79]
  const HOST_SMOKE: Name := [0x68, 0x6F, 0x73, 0x74, 0x2D, 0x73, 0x6D, 0x6F, 0x6B, 0x65]

  /** The names that such a run gives its evidence. */
  predicate NamedFor(job: Job, kind: Name) {
    job.prefix == kind + GENERATION && job.selected == kind + SUMMARY_V2
  }

  lemma KindMakesNames(kind: Name)
    requires kind != [] && SLASH !in kind && BACKSLASH !in kind
    ensures RawPrefix(kind + GENERATION)
    ensures !Forbidden(kind + SUMMARY_V2, kind + SUMMARY_V2) && !IsRawName(kind + SUMMARY_V2)
  {
    var prefix, selected := kind + GENERATION, kind + SUMMARY_V2;
    assert prefix[|prefix| - |GENERATION|..] == GENERATION;
    OtherEnding(selected, SUMMARY_V1, 5);
    OtherEnding(selected, RAW_V1, 4);
    OtherEnding(selected, SUFFIX, 4);
  }

  /** A character that differs keeps a name from ending so. */
  lemma OtherEnding(name: Name, ending: Name, k: nat)
    requires k < |name| && k < |ending| && name[|name| - 1 - k] != ending[|ending| - 1 - k]
    ensures !EndsWith(name, ending)
  {
    if EndsWith(name, ending) {
      CharFromEnd(name, ending, k);
    }
  }

  /** The names of both kinds pass on reading back. */
  lemma UsualNamesPass(kind: Name)
    requires kind == CAPACITY || kind == HOST_SMOKE
    ensures RawPrefix(kind + GENERATION)
    ensures !Forbidden(kind + SUMMARY_V2, kind + SUMMARY_V2) && !IsRawName(kind + SUMMARY_V2)
  {
    KindMakesNames(kind);
  }

  /** The destination check of a run of one kind does not see a segment left by the other, and
      that segment makes reading back refuse. */
  lemma OtherSegmentIsNotSeen(job: Job, lines: seq<Line>, manifest: Manifest)
    requires Libraries(job) && NamedFor(job, CAPACITY) && SegmentName(HOST_SMOKE + GENERATION, 0) !in job.reserved
    ensures var directory: Directory := map[SegmentName(HOST_SMOKE + GENERATION, 0) := []];
            !Taken(job, directory) && !ReadsBack(job, directory, lines, manifest)
  {
    hide *;
    var other := SegmentName(HOST_SMOKE + GENERATION, 0);
    UsualNamesPass(HOST_SMOKE);
    SegmentIsRawName(HOST_SMOKE + GENERATION, job, lines, manifest);
    CapacityIsNoDirectory(job);
    StartsWithKind(HOST_SMOKE);
    DifferentKinds();
    NotGlobbed(job.prefix, other);
    OneFileIsFree(job, other);
  }

  /** A raw segment that stands alone in the directory makes reading back refuse. */
  lemma SegmentIsRawName(prefix: Name, job: Job, lines: seq<Line>, manifest: Manifest)
    requires RawPrefix(prefix)
    ensures !ReadsBack(job, map[SegmentName(prefix, 0) := []], lines, manifest)
  {
    hide RawPrefix, SegmentName, ReadsBack;
    SegmentNameIsRaw(prefix, 0);
    RawNameRefuses(job, SegmentName(prefix, 0), lines, manifest);
  }

  lemma RawNameRefuses(job: Job, name: Name, lines: seq<Line>, manifest: Manifest)
    requires IsRawName(name)
    ensures !ReadsBack(job, map[name := []], lines, manifest)
  {
    hide IsRawName, RawPrefix, Alone, Forbidden, Short, PlatformOk;
    assert name in RawNames(map[name := []]);
  }

  lemma CapacityIsNoDirectory(job: Job)
    requires NamedFor(job, CAPACITY)
    ensures !NamesDirectory(job.prefix) && !NamesDirectory(job.selected) && Literal(job.prefix)
    ensures job.prefix != [] && job.selected != [] && job.prefix[0] == job.selected[0] == CAPACITY[0]
  {
  }

  lemma DifferentKinds()
    ensures CAPACITY != [] && HOST_SMOKE != [] && CAPACITY[0] != HOST_SMOKE[0]
  {
  }

  lemma NotGlobbed(prefix: Name, name: Name)
    requires prefix != [] && name != [] && prefix[0] != name[0]
    ensures !Globbed(prefix, name)
  {
    assert (prefix + [DASH])[0] == prefix[0];
  }

  /** A directory of one file of an unrelated name is free. */
  lemma OneFileIsFree(job: Job, name: Name)
    requires !NamesDirectory(job.prefix) && !NamesDirectory(job.selected) && Literal(job.prefix) && Libraries(job)
    requires !Globbed(job.prefix, name) && name !in job.reserved
    requires name != job.prefix && name != job.selected
    ensures !Taken(job, map[name := []])
  {
    hide Globbed, NamesDirectory, Literal, Codec;
  }

  lemma StartsWithKind(kind: Name)
    requires kind != []
    ensures SegmentName(kind + GENERATION, 0) != [] && SegmentName(kind + GENERATION, 0)[0] == kind[0]
  {
  }

  /** A summary whose own name is of another generation, or a segment's, is never accepted, not
      even in a directory that was empty. */
  lemma SummaryRefusesItself(job: Job, kind: Name, lines: seq<Line>, manifest: Manifest)
    requires kind != [] && SLASH !in kind && BACKSLASH !in kind
    requires job.selected in {kind + SUMMARY_V1, kind + RAW_V1, SegmentName(kind + GENERATION, 0)}
    requires !NamesDirectory(job.prefix)
    ensures !Taken(job, map[]) && !ReadsBack(job, map[], lines, manifest)
  {
    hide PlatformOk, Short, RawPrefix, IsRawName, SegmentName, RawNames, Forbidden, Alone;
    OtherKindIsForbidden(kind);
    KindMakesNames(kind);
    SegmentNameIsRaw(kind + GENERATION, 0);
    LongName(kind);
  }

  lemma OtherKindIsForbidden(kind: Name)
    requires kind != [] && SLASH !in kind && BACKSLASH !in kind
    ensures Forbidden(kind + SUMMARY_V1, kind + SUMMARY_V1) && Forbidden(kind + RAW_V1, kind + RAW_V1)
  {
    var v1, raw := kind + SUMMARY_V1, kind + RAW_V1;
    assert v1[|v1| - |SUMMARY_V1|..] == SUMMARY_V1 && raw[|raw| - |RAW_V1|..] == RAW_V1;
  }

  lemma LongName(kind: Name)
    ensures |SegmentName(kind + GENERATION, 0)| > 2
  {
  }

  /** How a name's byte is spelt in ASCII JSON: six bytes for a control character without a
      short form. */
  function SpeltByte(b: Byte): nat {
    if b in {0x08, 0x09, 0x0A, 0x0C, 0x0D, 0x22, 0x5C} then 2 else if b < 0x20 then 6 else 1
  }

  function SpeltLength(name: Name): nat {
    if name == [] then 0 else SpeltLength(name[..|name| - 1]) + SpeltByte(name[|name| - 1])
  }

  function SpeltPaths(entries: seq<Entry>): nat {
    if entries == [] then 0 else SpeltPaths(entries[..|entries| - 1]) + SpeltLength(entries[|entries| - 1].path)
  }

  /** A run of as many segments as there may be, named by a prefix of control characters that is
      still a legal file name, has a summary that is too long to be read back. */
  lemma LongNamesRefuse(job: Job, directory: Directory, produced: seq<Record>)
    requires job.samples >= 0 && job.bytes >= 0
    requires job.prefix == Repeat<Byte>(1, 200) + GENERATION
    requires SegmentsNeeded(Encoded(produced, job.encode), job.samples, job.bytes) == MAX_SEGMENTS
    requires |job.spell(ManifestFor(job, produced))| >= SpeltPaths(ManifestFor(job, produced).segments)
    ensures !ReadsBack(job, directory, Encoded(produced, job.encode), ManifestFor(job, produced))
    ensures forall k :: 0 <= k < MAX_SEGMENTS ==> |SegmentName(job.prefix, k)| <= 255
  {
    hide Encoded, Pack, PlatformOk, Short, RawPrefix, RawNames, Alone, Forbidden, IsRawName, SpeltPaths, BatchSummary;
    var lines := Encoded(produced, job.encode);
    PathsAreLong(job.prefix, Pack(lines, job.samples, job.bytes).Pieces(), job.sha);
    Million();
  }

  lemma {:induction false} PathsAreLong(prefix: Name, pieces: seq<seq<Line>>, sha: seq<Byte> -> Digest)
    requires prefix == Repeat<Byte>(1, 200) + GENERATION
    ensures SpeltPaths(Entries(prefix, pieces, sha)) >= 1200 * |pieces|
  {
    hide SpeltLength, TotalLines, Size, Concat;
    if pieces != [] {
      var front, n := pieces[..|pieces| - 1], |pieces| - 1;
      PathsAreLong(prefix, front, sha);
      var entries := Entries(prefix, pieces, sha);
      assert entries[..n] == Entries(prefix, front, sha);
      PathIsLong(prefix, n);
    }
  }

  lemma PathIsLong(prefix: Name, k: nat)
    requires prefix == Repeat<Byte>(1, 200) + GENERATION
    ensures SpeltLength(SegmentName(prefix, k)) >= 1200
  {
    hide SpeltLength;
    var rest := GENERATION + [DASH] + Decimal.Filled(k, 6) + SUFFIX;
    assert SegmentName(prefix, k) == Repeat<Byte>(1, 200) + rest;
    SpeltAppend(Repeat<Byte>(1, 200), rest);
    ControlsSpelt(200);
  }

  lemma {:induction false} SpeltAppend(a: Name, b: Name)
    ensures SpeltLength(a + b) == SpeltLength(a) + SpeltLength(b)
  {
    if b == [] {
      assert a + b == a;
    } else {
      assert (a + b)[..|a + b| - 1] == a + b[..|b| - 1];
      SpeltAppend(a, b[..|b| - 1]);
    }
  }

  lemma {:induction false} ControlsSpelt(n: nat)
    ensures SpeltLength(Repeat<Byte>(1, n)) == 6 * n
  {
    if n > 0 {
      assert Repeat<Byte>(1, n)[..n - 1] == Repeat<Byte>(1, n - 1);
      ControlsSpelt(n - 1);
    }
  }
}
