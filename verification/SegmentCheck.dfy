/** The manifest loop that re-reads segments, and its agreement with the writer
    (scripts/process-tree-memory.py). */
module SegmentCheck {
  import opened Common
  import opened Packing
  import opened SegmentNames
  import opened SegmentWriter
  import RawStream
  import opened Summary
  import opened SummaryDetails

  type Record = RawStream.Record

  const MAX_RAW_RECORD_BYTES := 8 * 1024 * 1024
  const MAX_SUMMARY_BYTES := 1024 * 1024
  const LF: Byte := 10
  const CR: Byte := 13

  /** The parts of the segmented summary that are not constant. */
  datatype Manifest = Manifest(
    prefix: Name, maximumSamples: int, maximumBytes: int, maximumSegments: int,
    rawRecordCount: int, rawByteLength: int, rawSha: Digest, segments: seq<Entry>, parts: SummaryParts,
    details: Details)

  // ---------------------------------------------------------------- lines of a file

  /** Iterating over a binary file: lines keep their LF; the last one may lack it. */
  function ReadLines(content: seq<Byte>): (lines: seq<Line>)
    ensures Concat(lines) == content
  {
    if content == [] then []
    else
      var end := LineEnd(content);
      var rest := ReadLines(content[end..]);
      assert content == content[..end] + content[end..];
      [content[..end]] + rest
  }

  /** Just past the first LF, or the end. */
  function LineEnd(content: seq<Byte>): (n: nat)
    requires content != []
    ensures 0 < n <= |content|
    ensures LF !in content[..n - 1]
    ensures content[n - 1] == LF || n == |content|
  {
    if content[0] == LF || |content| == 1 then 1 else 1 + LineEnd(content[1..])
  }

  /** A line the loop takes: bounded, LF-terminated but not CR LF, not empty. */
  predicate LineOk(line: Line) {
    && |line| <= MAX_RAW_RECORD_BYTES && line != []
    && line[|line| - 1] == LF && line != [LF]
    && !(|line| >= 2 && line[|line| - 2] == CR)
  }

  /** A line with exactly one LF, at its end. */
  predicate OneLine(line: Line) {
    line != [] && line[|line| - 1] == LF && LF !in line[..|line| - 1]
  }

  lemma {:induction false} LineEndOfOneLine(line: Line, rest: seq<Byte>)
    requires OneLine(line)
    ensures LineEnd(line + rest) == |line|
    decreases |line|
  {
    if |line| > 1 {
      assert line[..|line| - 1][0] == line[0];
      assert line[..|line| - 1][1..] == line[1..][..|line| - 2];
      assert (line + rest)[1..] == line[1..] + rest;
      LineEndOfOneLine(line[1..], rest);
    }
  }

  /** Reading back the concatenation of lines yields the lines. */
  lemma {:induction false} ReadLinesOfLines(lines: seq<Line>)
    requires forall line :: line in lines ==> OneLine(line)
    ensures ReadLines(Concat(lines)) == lines
  {
    if lines != [] {
      var rest := Concat(lines[1..]);
      assert lines[0] in lines;
      LineEndOfOneLine(lines[0], rest);
      ReadLinesOfLines(lines[1..]);
      assert (lines[0] + rest)[|lines[0]|..] == rest && (lines[0] + rest)[..|lines[0]|] == lines[0];
    }
  }

  // ------------------------------------------------------------- the specification

  type Decoder = Line -> Option<Record>

  /** The records of the lines, if each is well made and decodes. */
  function Decoded(lines: seq<Line>, decode: Decoder): (r: Option<seq<Record>>)
    ensures r.Some? ==> |r.value| == |lines|
  {
    if lines == [] then Some([])
    else
      var last := lines[|lines| - 1];
      match Decoded(lines[..|lines| - 1], decode)
      case None => None
      case Some(before) =>
        if !LineOk(last) then None
        else match decode(last) case None => None case Some(record) => Some(before + [record])
  }

  /** Every line is at most 8 MiB long with its LF, holds something, and does not end in CR LF, and
      it decodes to the record at its place. */
  predicate LinesTell(lines: seq<Line>, decode: Decoder, records: seq<Record>) {
    && |lines| == |records|
    && forall i :: 0 <= i < |lines| ==> LineTells(lines[i]) && decode(lines[i]) == Some(records[i])
  }

  predicate LineTells(line: Line) {
    2 <= |line| <= 8_388_608 && line[|line| - 1] == 10 && line[|line| - 2] != 13
  }

  lemma LineIff(line: Line)
    ensures LineOk(line) <==> LineTells(line)
  {
    if line != [] && line[|line| - 1] == LF {
      assert line != [LF] <==> |line| >= 2 by {
        if |line| == 1 {
          assert line == [LF];
        }
      }
    }
  }

  lemma {:induction false} DecodedIff(lines: seq<Line>, decode: Decoder, records: seq<Record>)
    ensures Decoded(lines, decode) == Some(records) <==> LinesTell(lines, decode, records)
  {
    hide LineOk, LineTells;
    if lines != [] {
      var n := |lines| - 1;
      LineIff(lines[n]);
      if Decoded(lines, decode) == Some(records) {
        DecodedIff(lines[..n], decode, records[..n]);
        assert records == Decoded(lines[..n], decode).value + [records[n]];
      }
      if LinesTell(lines, decode, records) {
        DecodedIff(lines[..n], decode, records[..n]);
        assert records == records[..n] + [records[n]];
      }
    }
  }

  /** The identity and bound checks on one manifest entry. */
  predicate EntryOk(m: Manifest, order: nat, next: int, entry: Entry) {
    && entry.path == SegmentName(m.prefix, order) && entry.order == order
    && entry.first == next && 0 < entry.recordCount <= m.maximumSamples && entry.last == next + entry.recordCount - 1
    && 0 < entry.byteLength <= m.maximumBytes && |entry.sha| == 64
  }

  /** What the loop reads from one segment: its bytes and records, if every check passes. */
  function ReadSegment(m: Manifest, order: nat, next: int, files: Directory, decode: Decoder, sha: seq<Byte> -> Digest)
    : (r: Option<(seq<Byte>, seq<Record>)>)
    requires order < |m.segments|
  {
    var entry := m.segments[order];
    if !EntryOk(m, order, next, entry) || entry.path !in files then None
    else
      var content := files[entry.path];
      if |content| != entry.byteLength then None
      else match Decoded(ReadLines(content), decode)
        case None => None
        case Some(records) =>
          if sha(content) != entry.sha || |records| != entry.recordCount then None else Some((content, records))
  }

  /** The bytes and records of the first `n` segments. */
  function ReadSegments(m: Manifest, n: nat, files: Directory, decode: Decoder, sha: seq<Byte> -> Digest)
    : (r: Option<(seq<Byte>, seq<Record>)>)
    requires n <= |m.segments|
  {
    if n == 0 then Some(([], []))
    else match ReadSegments(m, n - 1, files, decode, sha)
      case None => None
      case Some((bytes, records)) =>
        match ReadSegment(m, n - 1, |records|, files, decode, sha)
        case None => None
        case Some((content, more)) => Some((bytes + content, records + more))
  }

  predicate HeaderOk(m: Manifest) {
    && PlainName(m.prefix)
    && 0 < m.maximumSamples <= RawStream.MAX_RAW_SAMPLES && 0 < m.maximumBytes <= MAX_RAW_BYTES
    && m.maximumSegments == MAX_SEGMENTS && 0 < |m.segments| <= MAX_SEGMENTS
    && m.rawRecordCount > 0 && DetailsOk(m.details)
  }

  /** The segment names that the manifest expects, and those that the directory has. */
  function ExpectedNames(prefix: Name, n: nat): set<Name> {
    set k | 0 <= k < n :: SegmentName(prefix, k)
  }

  function RawNames(files: Directory): set<Name> {
    set n | n in files && IsRawName(n)
  }

  predicate Accepts(m: Manifest, files: Directory, decode: Decoder, sha: seq<Byte> -> Digest) {
    && HeaderOk(m)
    && match ReadSegments(m, |m.segments|, files, decode, sha)
       case None => false
       case Some((bytes, records)) =>
         && RawNames(files) == ExpectedNames(m.prefix, |m.segments|)
         && RawStream.Accepts(records, m.rawRecordCount)
         && m.rawRecordCount == |records| && m.rawByteLength == |bytes| && m.rawSha == sha(bytes)
         && m.parts == BatchSummary(records)
  }

  // -------------------------------------------------------------------- the program

  /** The records that the validator and the accumulator have taken so far. */
  ghost predicate InStep(validator: RawStream.RawRecordStreamValidator, accumulator: StreamingSummaryAccumulator,
                         records: seq<Record>)
    reads validator, accumulator
  {
    && accumulator.Valid() && accumulator.seen == records
    && RawStream.Fold(records, validator.maximum) == Some(validator.Now())
  }

  /** What taking one more line yields. */
  function TakeOne(seen: seq<Record>, line: Line, decode: Decoder, maximum: int): Option<Record> {
    if !LineOk(line) then None
    else match decode(line)
      case None => None
      case Some(record) => if RawStream.Fold(seen + [record], maximum).Some? then Some(record) else None
  }

  /** One turn of the line loop. */
  method CheckLine(line: Line, decode: Decoder, validator: RawStream.RawRecordStreamValidator,
                   accumulator: StreamingSummaryAccumulator, ghost seen: seq<Record>)
    returns (record: Option<Record>)
    requires InStep(validator, accumulator, seen)
    modifies validator, accumulator
    ensures record == TakeOne(seen, line, decode, validator.maximum)
    ensures record.Some? ==> InStep(validator, accumulator, seen + [record.value])
  {
    hide RawStream.Step, RawStream.Fold, LineOk;
    if !LineOk(line) {
      return None;
    }
    record := decode(line);
    if record.None? {
      return None;
    }
    FoldSnoc(seen, record.value, validator.maximum);
    var observed := validator.Observe(record.value);
    if !observed {
      return None;
    }
    accumulator.Observe(record.value);
  }

  /** The line loop over one segment's content. */
  method CheckLines(content: seq<Byte>, decode: Decoder, validator: RawStream.RawRecordStreamValidator,
                    accumulator: StreamingSummaryAccumulator, ghost before: seq<Record>)
    returns (ok: bool, bytes: nat, count: nat)
    requires InStep(validator, accumulator, before)
    modifies validator, accumulator
    ensures var decoded := Decoded(ReadLines(content), decode);
            ok <==> decoded.Some? && RawStream.Fold(before + decoded.value, validator.maximum).Some?
    ensures ok ==> InStep(validator, accumulator, before + Decoded(ReadLines(content), decode).value)
    ensures ok ==> bytes == |content| && count == |ReadLines(content)|
  {
    hide RawStream.Step, RawStream.Fold, LineOk, LineEnd, Decoded, TakeOne, InStep;
    var lines := ReadLines(content);
    bytes, count := 0, 0;
    ghost var taken: seq<Record> := [];
    NothingDecoded(decode);
    assert before + taken == before;
    for i := 0 to |lines|
      invariant Decoded(lines[..i], decode) == Some(taken) && count == i && bytes == |Concat(lines[..i])|
      invariant InStep(validator, accumulator, before + taken)
    {
      TakingOne(before, taken, lines, i, decode, validator.maximum);
      var record := CheckLine(lines[i], decode, validator, accumulator, before + taken);
      if record.None? {
        return false, bytes, count;
      }
      taken := taken + [record.value];
      bytes := bytes + |lines[i]|;
      count := count + 1;
    }
    assert lines[..|lines|] == lines;
    InStepFolds(validator, accumulator, before + taken);
    return true, bytes, count;
  }

  /** Decoding and streaming advance together, or have failed for good. */
  lemma TakingOne(before: seq<Record>, taken: seq<Record>, lines: seq<Line>, i: nat, decode: Decoder, maximum: int)
    requires i < |lines| && Decoded(lines[..i], decode) == Some(taken)
    ensures var record := TakeOne(before + taken, lines[i], decode, maximum);
            if record.Some? then
              Decoded(lines[..i + 1], decode) == Some(taken + [record.value])
              && before + taken + [record.value] == before + (taken + [record.value])
            else Decoded(lines, decode).Some? ==> RawStream.Fold(before + Decoded(lines, decode).value, maximum).None?
    ensures |Concat(lines[..i + 1])| == |Concat(lines[..i])| + |lines[i]|
  {
    hide RawStream.Step, RawStream.Fold, LineOk, Decoded;
    DecodedSnoc(lines, i, decode);
    ConcatSnoc(lines[..i], lines[i]);
    assert lines[..i + 1] == lines[..i] + [lines[i]];
    if !LineOk(lines[i]) || decode(lines[i]).None? {
      DecodingFailed(lines, i + 1, decode);
    } else {
      var record := decode(lines[i]).value;
      assert before + taken + [record] == before + (taken + [record]);
      if RawStream.Fold(before + taken + [record], maximum).None? {
        StreamFailed(before, taken + [record], lines, i + 1, decode, maximum);
      }
    }
  }

  lemma NothingDecoded(decode: Decoder)
    ensures Decoded([], decode) == Some([])
  {
  }

  lemma DecodedSnoc(lines: seq<Line>, i: nat, decode: Decoder)
    requires i < |lines|
    ensures Decoded(lines[..i + 1], decode) ==
              match Decoded(lines[..i], decode)
              case None => None
              case Some(before) =>
                if !LineOk(lines[i]) then None
                else match decode(lines[i]) case None => None case Some(record) => Some(before + [record])
  {
    hide LineOk;
    assert lines[..i + 1][..i] == lines[..i];
  }

  lemma {:induction false} DecodingFailed(lines: seq<Line>, n: nat, decode: Decoder)
    requires n <= |lines| && Decoded(lines[..n], decode).None?
    ensures Decoded(lines, decode).None?
    decreases |lines| - n
  {
    hide Decoded, LineOk;
    if n == |lines| {
      assert lines[..n] == lines;
    } else {
      DecodedSnoc(lines, n, decode);
      DecodingFailed(lines, n + 1, decode);
    }
  }

  lemma FoldSnoc(records: seq<Record>, r: Record, maximum: int)
    ensures RawStream.Fold(records + [r], maximum) ==
              match RawStream.Fold(records, maximum) case None => None case Some(st) => RawStream.Step(st, maximum, r)
  {
    hide RawStream.Step;
    assert (records + [r])[..|records|] == records;
  }

  /** Once the validator refuses, no continuation is accepted. */
  lemma {:induction false} StreamFailed(before: seq<Record>, taken: seq<Record>, lines: seq<Line>, n: nat,
                                        decode: Decoder, maximum: int)
    requires n <= |lines| && Decoded(lines[..n], decode) == Some(taken)
    requires RawStream.Fold(before + taken, maximum).None?
    ensures Decoded(lines, decode).Some? ==> RawStream.Fold(before + Decoded(lines, decode).value, maximum).None?
    decreases |lines| - n
  {
    hide Decoded, LineOk, RawStream.Fold, RawStream.Step;
    if n == |lines| {
      assert lines[..n] == lines;
    } else {
      DecodedSnoc(lines, n, decode);
      if Decoded(lines[..n + 1], decode).None? {
        DecodingFailed(lines, n + 1, decode);
      } else {
        var record := decode(lines[n]).value;
        FoldSnoc(before + taken, record, maximum);
        assert before + (taken + [record]) == before + taken + [record];
        StreamFailed(before, taken + [record], lines, n + 1, decode, maximum);
      }
    }
  }

  /** The specification, with the stream validator already applied to what was read. */
  predicate SegmentsPass(m: Manifest, n: nat, files: Directory, decode: Decoder, sha: seq<Byte> -> Digest)
    requires n <= |m.segments|
  {
    match ReadSegments(m, n, files, decode, sha)
    case None => false
    case Some((_, records)) => RawStream.Fold(records, m.rawRecordCount).Some?
  }

  /** One turn of the segment loop. */
  method CheckSegment(m: Manifest, order: nat, files: Directory, decode: Decoder, sha: seq<Byte> -> Digest,
                      validator: RawStream.RawRecordStreamValidator, accumulator: StreamingSummaryAccumulator,
                      next: nat, ghost bytes: seq<Byte>, ghost records: seq<Record>)
    returns (r: Option<seq<Byte>>, count: nat, ghost more: seq<Record>)
    requires order < |m.segments| && validator.maximum == m.rawRecordCount && next == |records|
    requires ReadSegments(m, order, files, decode, sha) == Some((bytes, records))
    requires InStep(validator, accumulator, records)
    modifies validator, accumulator
    ensures r.Some? <==> SegmentsPass(m, order + 1, files, decode, sha)
    ensures r.Some? ==> ReadSegments(m, order + 1, files, decode, sha) == Some((bytes + r.value, records + more))
    ensures r.Some? ==> InStep(validator, accumulator, records + more) && count == |more|
  {
    hide RawStream.Fold, Decoded, ReadLines, InStep, EntryOk;
    more, count := [], 0;
    var entry := m.segments[order];
    if !EntryOk(m, order, next, entry) || entry.path !in files {
      return None, count, more;
    }
    var content := files[entry.path];
    if |content| != entry.byteLength {
      return None, count, more;
    }
    var ok, segmentBytes, segmentRecords := CheckLines(content, decode, validator, accumulator, records);
    count := segmentRecords;
    if !ok {
      return None, count, more;
    }
    more := Decoded(ReadLines(content), decode).value;
    InStepFolds(validator, accumulator, records + more);
    if segmentBytes != entry.byteLength || sha(content) != entry.sha || segmentRecords != entry.recordCount {
      return None, count, more;
    }
    return Some(content), count, more;
  }

  lemma InStepFolds(validator: RawStream.RawRecordStreamValidator, accumulator: StreamingSummaryAccumulator,
                    records: seq<Record>)
    requires InStep(validator, accumulator, records)
    ensures RawStream.Fold(records, validator.maximum).Some?
  {
  }

  /** A failed segment or a refused record is final. */
  lemma {:induction false} SegmentsFailed(m: Manifest, n: nat, k: nat, files: Directory, decode: Decoder,
                                          sha: seq<Byte> -> Digest)
    requires n <= k <= |m.segments| && !SegmentsPass(m, n, files, decode, sha)
    ensures !SegmentsPass(m, k, files, decode, sha)
    decreases k
  {
    hide ReadSegment, RawStream.Fold;
    if n < k {
      SegmentsFailed(m, n, k - 1, files, decode, sha);
      match ReadSegments(m, k - 1, files, decode, sha) {
        case None =>
        case Some((bytes, records)) =>
          match ReadSegment(m, k - 1, |records|, files, decode, sha) {
            case None =>
            case Some((_, more)) => FoldFails(records, more, m.rawRecordCount);
          }
      }
    }
  }

  lemma FoldFails(records: seq<Record>, more: seq<Record>, maximum: int)
    requires RawStream.Fold(records, maximum).None?
    ensures RawStream.Fold(records + more, maximum).None?
  {
    assert (records + more)[..|records|] == records;
    RawStream.FoldFailsEarly(records + more, |records|, maximum);
  }

  /** Nothing of another generation and no other summary stands in the directory. */
  predicate Alone(files: Directory, selected: Name) {
    forall n :: n in files ==> !Forbidden(n, selected)
  }

  lemma AloneIffNoneForbidden(files: Directory, selected: Name, forbidden: set<Name>)
    requires forall n :: n in forbidden <==> n in files && Forbidden(n, selected)
    ensures Alone(files, selected) <==> forbidden == {}
  {
    hide Forbidden;
    if forbidden == {} {
      forall n | n in files
        ensures n !in forbidden
      {
      }
    } else {
      var n :| n in forbidden;
    }
  }

  /** The summary of a directory, if there is one within its bound and it parses. */
  function SummaryAt(selected: Name, files: Directory, parse: seq<Byte> -> Option<Manifest>): Option<Manifest> {
    if selected in files && 0 < |files[selected]| <= MAX_SUMMARY_BYTES then parse(files[selected]) else None
  }

  /** What `validate_segmented_evidence` demands of a directory and its summary. */
  predicate Validates(selected: Name, files: Directory, parse: seq<Byte> -> Option<Manifest>, decode: Decoder,
                      sha: seq<Byte> -> Digest) {
    && Alone(files, selected)
    && SummaryAt(selected, files, parse).Some?
    && Accepts(SummaryAt(selected, files, parse).value, files, decode, sha)
  }

  /** `validate_segmented_evidence` for the summary named `selected`. */
  method ValidateSegmentedEvidence(selected: Name, files: Directory, parse: seq<Byte> -> Option<Manifest>,
                                   decode: Decoder, sha: seq<Byte> -> Digest)
    returns (ok: bool)
    ensures ok <==> Validates(selected, files, parse, decode, sha)
  {
    hide Accepts, Forbidden;
    var forbidden := set n | n in files && Forbidden(n, selected);
    AloneIffNoneForbidden(files, selected, forbidden);
    hide Alone;
    if forbidden != {} {
      return false;
    }
    if selected !in files || |files[selected]| <= 0 || |files[selected]| > MAX_SUMMARY_BYTES {
      return false;
    }
    var summary := parse(files[selected]);
    if summary.None? {
      return false;
    }
    ok := ValidateManifest(summary.value, files, decode, sha);
  }

  /** The rest of `validate_segmented_evidence`, for the parsed summary `m`. */
  method ValidateManifest(m: Manifest, files: Directory, decode: Decoder, sha: seq<Byte> -> Digest)
    returns (ok: bool)
    ensures ok <==> Accepts(m, files, decode, sha)
  {
    hide RawStream.Fold, ReadSegments, IsRawName, SegmentName, InStep, SegmentsPass, BatchSummary, RawStream.Accepts,
         ExpectedNames;
    assert Accepts(m, files, decode, sha) ==> HeaderOk(m);
    hide Accepts, HeaderOk, RawNames;
    var header := ValidateHeader(m);
    if !header {
      return false;
    }
    var validator := new RawStream.RawRecordStreamValidator(m.rawRecordCount);
    var accumulator := new StreamingSummaryAccumulator();
    StartsInStep(validator, accumulator);
    NoSegmentsRead(m, files, decode, sha);
    var whole: seq<Byte> := [];
    var expected: set<Name> := {};
    ghost var records: seq<Record> := [];
    var nextSequence := 0;
    for order := 0 to |m.segments|
      invariant ReadSegments(m, order, files, decode, sha) == Some((whole, records)) && nextSequence == |records|
      invariant validator.maximum == m.rawRecordCount && InStep(validator, accumulator, records)
      invariant expected == ExpectedNames(m.prefix, order)
    {
      NamesStep(m.prefix, order);
      expected := expected + {SegmentName(m.prefix, order)};
      var content, count, more := CheckSegment(m, order, files, decode, sha, validator, accumulator, nextSequence,
                                               whole, records);
      if content.None? {
        SegmentsFailed(m, order + 1, |m.segments|, files, decode, sha);
        FoldNeeded(m, files, decode, sha);
        return false;
      }
      whole := whole + content.value;
      records := records + more;
      nextSequence := nextSequence + count;
    }
    AcceptsWhatIsRead(m, files, decode, sha, whole, records);
    ok := Conclude(m, files, sha, validator, accumulator, whole, expected, records);
  }

  /** The checks before any segment is read. */
  method ValidateHeader(m: Manifest) returns (ok: bool)
    ensures ok <==> HeaderOk(m)
  {
    hide PlatformOk, CapacityOk;
    if !PlainName(m.prefix) || m.maximumSamples <= 0 || m.maximumSamples > RawStream.MAX_RAW_SAMPLES
       || m.maximumBytes <= 0 || m.maximumBytes > MAX_RAW_BYTES || m.maximumSegments != MAX_SEGMENTS
       || |m.segments| == 0 || |m.segments| > MAX_SEGMENTS {
      return false;
    }
    var platform := ValidatePlatform(m.details.platform);
    if !platform || m.details.exitStatus != (if m.details.exitCode == 0 then "clean" else "failed") {
      return false;
    }
    return m.rawRecordCount > 0 && CapacityOk(m.details.capacity);
  }

  lemma StartsInStep(validator: RawStream.RawRecordStreamValidator, accumulator: StreamingSummaryAccumulator)
    requires validator.Now() == RawStream.START && accumulator.Valid() && accumulator.seen == []
    ensures InStep(validator, accumulator, [])
  {
  }

  lemma NamesStep(prefix: Name, n: nat)
    ensures ExpectedNames(prefix, n + 1) == ExpectedNames(prefix, n) + {SegmentName(prefix, n)}
  {
    hide SegmentName;
  }

  lemma NoSegmentsRead(m: Manifest, files: Directory, decode: Decoder, sha: seq<Byte> -> Digest)
    ensures ReadSegments(m, 0, files, decode, sha) == Some(([], []))
    ensures ExpectedNames(m.prefix, 0) == {}
  {
  }

  lemma AcceptsWhatIsRead(m: Manifest, files: Directory, decode: Decoder, sha: seq<Byte> -> Digest,
                          whole: seq<Byte>, records: seq<Record>)
    requires HeaderOk(m) && ReadSegments(m, |m.segments|, files, decode, sha) == Some((whole, records))
    ensures Accepts(m, files, decode, sha)
            <==> && RawNames(files) == ExpectedNames(m.prefix, |m.segments|)
                 && RawStream.Accepts(records, m.rawRecordCount)
                 && m.rawRecordCount == |records| && m.rawByteLength == |whole| && m.rawSha == sha(whole)
                 && m.parts == BatchSummary(records)
  {
    hide HeaderOk, ReadSegments, RawStream.Accepts, RawNames, ExpectedNames, BatchSummary;
  }

  lemma FoldNeeded(m: Manifest, files: Directory, decode: Decoder, sha: seq<Byte> -> Digest)
    requires !SegmentsPass(m, |m.segments|, files, decode, sha)
    ensures !Accepts(m, files, decode, sha)
  {
    hide ReadSegments, RawStream.Fold, HeaderOk;
  }

  /** The checks after the loop. */
  method Conclude(m: Manifest, files: Directory, sha: seq<Byte> -> Digest,
                  validator: RawStream.RawRecordStreamValidator, accumulator: StreamingSummaryAccumulator,
                  whole: seq<Byte>, expected: set<Name>, ghost records: seq<Record>)
    returns (ok: bool)
    requires validator.maximum == m.rawRecordCount && InStep(validator, accumulator, records)
    ensures ok <==>
              && RawNames(files) == expected
              && RawStream.Accepts(records, m.rawRecordCount)
              && m.rawRecordCount == |records| && m.rawByteLength == |whole| && m.rawSha == sha(whole)
              && m.parts == BatchSummary(records)
  {
    hide RawStream.Fold, IsRawName, BatchSummary;
    if RawNames(files) != expected || !RawStream.Finishes(validator.Now()) {
      return false;
    }
    RawStream.FoldIsChained(records, m.rawRecordCount);
    var parts := accumulator.Parts();
    return m.rawRecordCount == validator.count && m.rawByteLength == |whole| && m.rawSha == sha(whole)
           && m.parts == parts;
  }

  // ------------------------------------------------------- what is written is accepted

  /** What is assumed of the JSON library: records survive encoding, and an encoded record
      is one LF-terminated line that does not end in CR LF. */
  ghost predicate Codec(encode: Record -> Line, decode: Decoder) {
    forall r: Record :: CodecOn(r, encode(r), decode)
  }

  ghost predicate CodecOn(r: Record, line: Line, decode: Decoder) {
    decode(line) == Some(r) && OneLine(line) && |line| >= 2 && line[|line| - 2] != CR
  }

  /** Lines that are the records' encodings. */
  ghost predicate Encodes(lines: seq<Line>, records: seq<Record>, decode: Decoder) {
    |lines| == |records| && forall i :: 0 <= i < |lines| ==> CodecOn(records[i], lines[i], decode)
  }

  /** Every line is within the bound that the reader puts on one line. */
  predicate Short(lines: seq<Line>) {
    forall i :: 0 <= i < |lines| ==> |lines[i]| <= MAX_RAW_RECORD_BYTES
  }

  lemma {:induction false} EncodedLinesDecode(lines: seq<Line>, records: seq<Record>, decode: Decoder)
    requires Encodes(lines, records, decode) && Short(lines)
    ensures Decoded(lines, decode) == Some(records)
  {
    if lines != [] {
      var n := |lines| - 1;
      EncodedLinesDecode(lines[..n], records[..n], decode);
      assert CodecOn(records[n], lines[n], decode);
      assert records == records[..n] + [records[n]];
    }
  }

  /** A segment is a slice of all the lines. */
  lemma {:induction false} PieceIsSlice(pieces: seq<seq<Line>>, k: nat)
    requires k < |pieces|
    ensures var from, all := TotalLines(pieces[..k]), Concat(pieces);
            from + |pieces[k]| <= |all| && pieces[k] == all[from..from + |pieces[k]|]
    ensures TotalLines(pieces[..k + 1]) == TotalLines(pieces[..k]) + |pieces[k]|
  {
    assert pieces == pieces[..k] + [pieces[k]] + pieces[k + 1..];
    ConcatAppend(pieces[..k] + [pieces[k]], pieces[k + 1..]);
    ConcatSnoc(pieces[..k], pieces[k]);
    CountLines(pieces[..k]);
    TotalLinesSnoc(pieces[..k], pieces[k]);
    assert pieces[..k + 1] == pieces[..k] + [pieces[k]];
  }

  lemma {:induction false} CountLines(pieces: seq<seq<Line>>)
    ensures |Concat(pieces)| == TotalLines(pieces)
  {
    if pieces != [] {
      var front, last := pieces[..|pieces| - 1], pieces[|pieces| - 1];
      assert front + [last] == pieces;
      ConcatSnoc(front, last);
      CountLines(front);
    }
  }

  lemma {:induction false} EntriesAt(prefix: Name, pieces: seq<seq<Line>>, sha: seq<Byte> -> Digest, k: nat)
    requires k < |pieces|
    ensures Entries(prefix, pieces, sha)[k] == EntryOf(prefix, k, TotalLines(pieces[..k]), pieces[k], sha)
    decreases |pieces|
  {
    var front := pieces[..|pieces| - 1];
    if k < |front| {
      EntriesAt(prefix, front, sha, k);
      assert front[..k] == pieces[..k];
    } else {
      assert pieces[..k] == front;
    }
  }

  lemma {:induction false} SizeIsLength(lines: seq<Line>)
    ensures Size(lines) == |Concat(lines)|
  {
    if lines != [] {
      var front, last := lines[..|lines| - 1], lines[|lines| - 1];
      assert front + [last] == lines;
      ConcatSnoc(front, last);
      SizeIsLength(front);
    }
  }

  /** The manifest of a finished run. */
  function ManifestOf(prefix: Name, samples: nat, bytes: nat, lines: seq<Line>, pieces: seq<seq<Line>>,
                      records: seq<Record>, sha: seq<Byte> -> Digest, details: Details): Manifest
  {
    Manifest(prefix, samples, bytes, MAX_SEGMENTS, |records|, Size(lines), sha(Concat(lines)),
             Entries(prefix, pieces, sha), BatchSummary(records), details)
  }

  /** The hypotheses about a finished run's segments. */
  ghost predicate Written(prefix: Name, samples: nat, bytes: nat, lines: seq<Line>, pieces: seq<seq<Line>>,
                          records: seq<Record>, files: Directory, start: Directory, decode: Decoder,
                          sha: seq<Byte> -> Digest)
  {
    && IsSplit(pieces, lines, samples, bytes) && 0 < |pieces| <= MAX_SEGMENTS
    && Stored(files, start, prefix, pieces)
    && Encodes(lines, records, decode) && (forall x :: |sha(x)| == 64)
  }

  lemma WrittenSegmentReads(prefix: Name, samples: nat, bytes: nat, lines: seq<Line>, pieces: seq<seq<Line>>,
                            records: seq<Record>, files: Directory, start: Directory, decode: Decoder,
                            sha: seq<Byte> -> Digest, details: Details, k: nat)
    requires Written(prefix, samples, bytes, lines, pieces, records, files, start, decode, sha)
    requires k < |pieces| && Short(lines)
    ensures var m := ManifestOf(prefix, samples, bytes, lines, pieces, records, sha, details);
            var from := TotalLines(pieces[..k]);
            from + |pieces[k]| <= |records|
            && ReadSegment(m, k, from, files, decode, sha)
               == Some((Concat(pieces[k]), records[from..from + |pieces[k]|]))
  {
    hide SegmentName, Entries, BatchSummary, CodecOn, Stored, LineEnd;
    var piece := pieces[k];
    var from := TotalLines(pieces[..k]);
    assert piece in pieces;
    PieceIsSlice(pieces, k);
    EntriesAt(prefix, pieces, sha, k);
    SizeIsLength(piece);
    StoredAt(files, start, prefix, pieces, k);
    var own := records[from..from + |piece|];
    SliceEncodes(lines, records, decode, from, piece);
    EncodedLinesDecode(piece, own, decode);
    EncodedAreLines(piece, own, decode);
    ReadLinesOfLines(piece);
    assert |piece[0]| <= Size(piece) && piece[0] != [] by { FirstLineCounts(piece, own, decode); }
  }

  lemma StoredAt(files: Directory, start: Directory, prefix: Name, pieces: seq<seq<Line>>, k: nat)
    requires Stored(files, start, prefix, pieces) && k < |pieces|
    ensures SegmentName(prefix, k) in files && files[SegmentName(prefix, k)] == Concat(pieces[k])
  {
  }

  lemma SliceEncodes(lines: seq<Line>, records: seq<Record>, decode: Decoder, from: nat, piece: seq<Line>)
    requires Encodes(lines, records, decode) && from + |piece| <= |lines| && piece == lines[from..from + |piece|]
    ensures Encodes(piece, records[from..from + |piece|], decode) && (Short(lines) ==> Short(piece))
  {
    hide CodecOn;
    var own := records[from..from + |piece|];
    forall i | 0 <= i < |piece|
      ensures CodecOn(own[i], piece[i], decode) && piece[i] == lines[from + i]
    {
      assert own[i] == records[from + i] && piece[i] == lines[from + i];
    }
  }

  lemma EncodedAreLines(lines: seq<Line>, records: seq<Record>, decode: Decoder)
    requires Encodes(lines, records, decode)
    ensures forall line :: line in lines ==> OneLine(line)
  {
    forall line | line in lines ensures OneLine(line) {
      var i :| 0 <= i < |lines| && lines[i] == line;
      assert CodecOn(records[i], lines[i], decode);
    }
  }

  lemma FirstLineCounts(lines: seq<Line>, records: seq<Record>, decode: Decoder)
    requires Encodes(lines, records, decode) && lines != []
    ensures lines[0] != [] && |lines[0]| <= Size(lines)
  {
    assert CodecOn(records[0], lines[0], decode);
    SizeIsLength(lines);
  }

  lemma {:induction false} WrittenSegmentsRead(prefix: Name, samples: nat, bytes: nat, lines: seq<Line>,
                                               pieces: seq<seq<Line>>,
                                               records: seq<Record>, files: Directory, start: Directory,
                                               decode: Decoder,
                                               sha: seq<Byte> -> Digest, details: Details, k: nat)
    requires Written(prefix, samples, bytes, lines, pieces, records, files, start, decode, sha)
    requires k <= |pieces| && Short(lines)
    ensures var m := ManifestOf(prefix, samples, bytes, lines, pieces, records, sha, details);
            var count := TotalLines(pieces[..k]);
            count <= |records|
            && ReadSegments(m, k, files, decode, sha) == Some((Concat(Concat(pieces[..k])), records[..count]))
  {
    hide ReadSegment, Written, BatchSummary, Entries, Size, Concat, TotalLines;
    var m := ManifestOf(prefix, samples, bytes, lines, pieces, records, sha, details);
    if k > 0 {
      WrittenSegmentsRead(prefix, samples, bytes, lines, pieces, records, files, start, decode, sha, details, k - 1);
      WrittenSegmentReads(prefix, samples, bytes, lines, pieces, records, files, start, decode, sha, details, k - 1);
      BytesStep(pieces, k - 1);
      var from := TotalLines(pieces[..k - 1]);
      assert records[..from] + records[from..from + |pieces[k - 1]|] == records[..from + |pieces[k - 1]|];
    } else {
      BytesStart(pieces);
    }
  }

  lemma {:induction false} DecodedAreShort(lines: seq<Line>, decode: Decoder)
    ensures Decoded(lines, decode).Some? ==> Short(lines)
  {
    if lines != [] && Decoded(lines, decode).Some? {
      DecodedAreShort(lines[..|lines| - 1], decode);
      assert forall i :: 0 <= i < |lines| - 1 ==> lines[i] == lines[..|lines| - 1][i];
    }
  }

  /** A segment with a longer line is refused, wherever it stands. */
  lemma LongSegmentFails(prefix: Name, samples: nat, bytes: nat, lines: seq<Line>, pieces: seq<seq<Line>>,
                         records: seq<Record>, files: Directory, start: Directory, decode: Decoder,
                         sha: seq<Byte> -> Digest, details: Details, k: nat, next: int)
    requires Written(prefix, samples, bytes, lines, pieces, records, files, start, decode, sha)
    requires k < |pieces| && !Short(pieces[k])
    ensures var m := ManifestOf(prefix, samples, bytes, lines, pieces, records, sha, details);
            ReadSegment(m, k, next, files, decode, sha).None?
  {
    hide SegmentName, Entries, BatchSummary, CodecOn, Stored, Decoded, ReadLines, Short;
    var piece := pieces[k];
    var from := TotalLines(pieces[..k]);
    PieceIsSlice(pieces, k);
    StoredAt(files, start, prefix, pieces, k);
    EntriesAt(prefix, pieces, sha, k);
    EncodesCounts(lines, records, decode);
    SliceEncodes(lines, records, decode, from, piece);
    EncodedAreLines(piece, records[from..from + |piece|], decode);
    ReadLinesOfLines(piece);
    DecodedAreShort(piece, decode);
  }

  lemma {:induction false} ReadSegmentsFail(m: Manifest, n: nat, k: nat, files: Directory, decode: Decoder,
                                            sha: seq<Byte> -> Digest)
    requires k < n <= |m.segments| && forall next :: ReadSegment(m, k, next, files, decode, sha).None?
    ensures ReadSegments(m, n, files, decode, sha).None?
    decreases n
  {
    hide ReadSegment;
    if k < n - 1 {
      ReadSegmentsFail(m, n - 1, k, files, decode, sha);
    }
  }

  /** So a written run is read back in full only if every line is short. */
  lemma LongLineFails(prefix: Name, samples: nat, bytes: nat, lines: seq<Line>, pieces: seq<seq<Line>>,
                      records: seq<Record>, files: Directory, start: Directory, decode: Decoder,
                      sha: seq<Byte> -> Digest, details: Details)
    requires Written(prefix, samples, bytes, lines, pieces, records, files, start, decode, sha) && !Short(lines)
    ensures var m := ManifestOf(prefix, samples, bytes, lines, pieces, records, sha, details);
            |m.segments| == |pieces| && ReadSegments(m, |pieces|, files, decode, sha).None?
  {
    hide ReadSegment, ReadSegments, Stored, Encodes, BatchSummary, Entries;
    var m := ManifestOf(prefix, samples, bytes, lines, pieces, records, sha, details);
    var k := LongPiece(pieces);
    forall next
      ensures ReadSegment(m, k, next, files, decode, sha).None?
    {
      LongSegmentFails(prefix, samples, bytes, lines, pieces, records, files, start, decode, sha, details, k, next);
    }
    ReadSegmentsFail(m, |pieces|, k, files, decode, sha);
  }

  lemma {:induction false} LongPiece(pieces: seq<seq<Line>>) returns (k: nat)
    requires !Short(Concat(pieces))
    ensures k < |pieces| && !Short(pieces[k])
  {
    var last := |pieces| - 1;
    assert pieces == pieces[..last] + [pieces[last]];
    ConcatSnoc(pieces[..last], pieces[last]);
    ShortAppend(Concat(pieces[..last]), pieces[last]);
    if Short(pieces[last]) {
      k := LongPiece(pieces[..last]);
    } else {
      k := last;
    }
  }

  lemma ShortAppend(a: seq<Line>, b: seq<Line>)
    ensures Short(a) && Short(b) ==> Short(a + b)
  {
  }

  lemma BytesStart(pieces: seq<seq<Line>>)
    ensures Concat(Concat(pieces[..0])) == [] && TotalLines(pieces[..0]) == 0
  {
  }

  lemma BytesStep(pieces: seq<seq<Line>>, k: nat)
    requires k < |pieces|
    ensures TotalLines(pieces[..k + 1]) == TotalLines(pieces[..k]) + |pieces[k]|
    ensures Concat(Concat(pieces[..k + 1])) == Concat(Concat(pieces[..k])) + Concat(pieces[k])
  {
    PieceIsSlice(pieces, k);
    assert pieces[..k + 1] == pieces[..k] + [pieces[k]];
    ConcatSnoc(pieces[..k], pieces[k]);
    ConcatAppend(Concat(pieces[..k]), pieces[k]);
  }

  lemma WrittenNames(files: Directory, start: Directory, prefix: Name, pieces: seq<seq<Line>>)
    requires Stored(files, start, prefix, pieces) && |pieces| <= MAX_SEGMENTS && RawPrefix(prefix)
             && RawNames(start) == {}
    ensures RawNames(files) == ExpectedNames(prefix, |pieces|)
  {
    hide IsRawName, SegmentName, RawPrefix;
    forall n | n in RawNames(files) ensures n in ExpectedNames(prefix, |pieces|) {
      assert n in start ==> n in RawNames(start);
    }
    forall n | n in ExpectedNames(prefix, |pieces|) ensures n in RawNames(files) {
      var k :| 0 <= k < |pieces| && n == SegmentName(prefix, k);
      SegmentNameIsRaw(prefix, k);
    }
  }

  /** The directory has just the expected raw names if and only if the prefix is one whose
      segments count and no other raw name was there before. */
  lemma NamesDecide(files: Directory, start: Directory, prefix: Name, pieces: seq<seq<Line>>)
    requires Stored(files, start, prefix, pieces) && 0 < |pieces| <= MAX_SEGMENTS
    ensures RawNames(files) == ExpectedNames(prefix, |pieces|) <==> RawPrefix(prefix) && RawNames(start) == {}
  {
    hide IsRawName, SegmentName, RawPrefix;
    if RawPrefix(prefix) && RawNames(start) == {} {
      WrittenNames(files, start, prefix, pieces);
    }
    if RawNames(files) == ExpectedNames(prefix, |pieces|) {
      assert SegmentName(prefix, 0) in ExpectedNames(prefix, |pieces|);
      OnlyRawPrefixes(prefix, 0);
      forall n | n in RawNames(start)
        ensures n !in ExpectedNames(prefix, |pieces|)
      {
      }
      assert forall n :: n in RawNames(start) ==> n in RawNames(files);
    }
  }

  /** Producer and consumer agree: the files and manifest of a run that was written without
      an error, whose records the stream validator accepts, pass the manifest loop if and only
      if the prefix names raw segments, no other raw segment stood in the directory, every line
      is within the reader's bound, and the summary's details are well formed. */
  lemma WrittenRunIsAcceptedIff(prefix: Name, samples: nat, bytes: nat, lines: seq<Line>, pieces: seq<seq<Line>>,
                                records: seq<Record>, files: Directory, start: Directory, decode: Decoder,
                                sha: seq<Byte> -> Digest, details: Details, maximum: int)
    requires Written(prefix, samples, bytes, lines, pieces, records, files, start, decode, sha)
    requires 0 < samples <= RawStream.MAX_RAW_SAMPLES && 0 < bytes <= MAX_RAW_BYTES
    requires PlainName(prefix) && RawStream.Accepts(records, maximum)
    ensures Accepts(ManifestOf(prefix, samples, bytes, lines, pieces, records, sha, details), files, decode, sha)
            <==> RawPrefix(prefix) && RawNames(start) == {} && Short(lines) && DetailsOk(details)
  {
    hide ReadSegments, RawStream.Accepts, BatchSummary, RawNames, ExpectedNames, RawPrefix, PlainName, Stored,
         Encodes, Short, DetailsOk;
    if !Short(lines) {
      LongLineFails(prefix, samples, bytes, lines, pieces, records, files, start, decode, sha, details);
      return;
    }
    WrittenSegmentsRead(prefix, samples, bytes, lines, pieces, records, files, start, decode, sha, details, |pieces|);
    assert pieces[..|pieces|] == pieces;
    CountLines(pieces);
    assert |lines| == |records| by { assert Encodes(lines, records, decode); EncodesCounts(lines, records, decode); }
    assert records[..|records|] == records;
    SizeIsLength(lines);
    NamesDecide(files, start, prefix, pieces);
    AcceptedWithOwnCount(records, maximum);
  }

  lemma EncodesCounts(lines: seq<Line>, records: seq<Record>, decode: Decoder)
    requires Encodes(lines, records, decode)
    ensures |lines| == |records|
  {
  }

  lemma AcceptedWithOwnCount(records: seq<Record>, maximum: int)
    requires RawStream.Accepts(records, maximum)
    ensures RawStream.Accepts(records, |records|) && |records| > 0
  {
    hide RawStream.Accepts, RawStream.ChurnConsistent, RawStream.WellFormed;
    RawStream.AcceptsExactlyCompleteRuns(records, maximum);
    RawStream.AcceptsExactlyCompleteRuns(records, |records|);
  }

  // ------------------------------------------------------- what acceptance means

  /** The files of the first `n` segments, in declared order. */
  function DeclaredBytes(m: Manifest, n: nat, files: Directory): seq<Byte>
    requires n <= |m.segments|
  {
    if n == 0 then []
    else DeclaredBytes(m, n - 1, files)
         + (if m.segments[n - 1].path in files then files[m.segments[n - 1].path] else [])
  }

  lemma {:induction false} ReadIsDeclared(m: Manifest, n: nat, files: Directory, decode: Decoder,
                                          sha: seq<Byte> -> Digest)
    requires n <= |m.segments| && ReadSegments(m, n, files, decode, sha).Some?
    ensures var (bytes, records) := ReadSegments(m, n, files, decode, sha).value;
            && bytes == DeclaredBytes(m, n, files)
            && (forall k :: 0 <= k < n ==> SegmentHolds(m, k, files, decode, sha, records))
            && (n > 0 ==> m.segments[n - 1].last == |records| - 1)
  {
    hide ReadSegment, SegmentHolds;
    if n > 0 {
      ReadIsDeclared(m, n - 1, files, decode, sha);
      var (bytes, records) := ReadSegments(m, n - 1, files, decode, sha).value;
      var (content, more) := ReadSegment(m, n - 1, |records|, files, decode, sha).value;
      ReadHolds(m, n - 1, records, files, decode, sha);
      forall k | 0 <= k < n ensures SegmentHolds(m, k, files, decode, sha, records + more) {
        if k < n - 1 {
          HoldsLonger(m, k, files, decode, sha, records, more);
        }
      }
    }
  }

  lemma ReadHolds(m: Manifest, k: nat, records: seq<Record>, files: Directory, decode: Decoder,
                  sha: seq<Byte> -> Digest)
    requires k < |m.segments| && ReadSegment(m, k, |records|, files, decode, sha).Some?
    ensures var (content, more) := ReadSegment(m, k, |records|, files, decode, sha).value;
            && SegmentHolds(m, k, files, decode, sha, records + more)
            && m.segments[k].path in files && content == files[m.segments[k].path]
            && m.segments[k].last == |records + more| - 1 && m.segments[k].first == |records|
  {
    hide Decoded, ReadLines, SegmentName, LinesTell;
    var (content, more) := ReadSegment(m, k, |records|, files, decode, sha).value;
    DecodedIff(ReadLines(content), decode, more);
    assert (records + more)[|records|..|records| + |more|] == more;
  }

  /** Segment `k`'s file has the declared name, length and digest, and its lines decode to
      exactly the records of its declared range. */
  predicate SegmentHolds(m: Manifest, k: nat, files: Directory, decode: Decoder, sha: seq<Byte> -> Digest,
                         records: seq<Record>)
    requires k < |m.segments|
  {
    var e := m.segments[k];
    && e.path == SegmentName(m.prefix, k) && e.path in files
    && |files[e.path]| == e.byteLength <= m.maximumBytes
    && sha(files[e.path]) == e.sha && |e.sha| == 64
    && 0 < e.recordCount <= m.maximumSamples
    && 0 <= e.first <= e.last < |records| && e.recordCount == e.last - e.first + 1
    && LinesTell(ReadLines(files[e.path]), decode, records[e.first..e.last + 1])
  }

  lemma HoldsLonger(m: Manifest, k: nat, files: Directory, decode: Decoder, sha: seq<Byte> -> Digest,
                    records: seq<Record>, more: seq<Record>)
    requires k < |m.segments| && SegmentHolds(m, k, files, decode, sha, records)
    ensures SegmentHolds(m, k, files, decode, sha, records + more)
  {
    hide LinesTell, ReadLines, SegmentName;
    var e := m.segments[k];
    assert (records + more)[e.first..e.last + 1] == records[e.first..e.last + 1];
  }

  /** An accepted manifest's files, concatenated in declared order, are a complete run of
      records numbered from zero, with the declared totals; each file holds just its range;
      no other raw file is there; and the summary is the batch summary of those records. */
  lemma AcceptedMeansCompleteRun(m: Manifest, files: Directory, decode: Decoder, sha: seq<Byte> -> Digest)
    returns (records: seq<Record>)
    requires Accepts(m, files, decode, sha)
    ensures |records| == m.rawRecordCount && RawStream.CompleteRun(records, m.rawRecordCount)
    ensures forall k :: 0 <= k < |m.segments| ==> SegmentHolds(m, k, files, decode, sha, records)
    ensures m.segments[0].first == 0 && m.segments[|m.segments| - 1].last == |records| - 1
    ensures forall k :: 0 < k < |m.segments| ==> m.segments[k].first == m.segments[k - 1].last + 1
    ensures var bytes := DeclaredBytes(m, |m.segments|, files);
            m.rawByteLength == |bytes| && m.rawSha == sha(bytes)
    ensures m.parts == BatchSummary(records)
    ensures StatisticsTell(m.parts, records) && EventsTell(m.parts.events, records)
    ensures RawNames(files) == ExpectedNames(m.prefix, |m.segments|)
    ensures DetailsTell(m.details) && PlatformOk(m.details.platform)
    ensures 0 < m.maximumSamples <= 200_000 && 0 < m.maximumBytes <= 536_870_912 && 0 < |m.segments| <= 1024
  {
    DetailsIff(m.details);
    records := ReadSegments(m, |m.segments|, files, decode, sha).value.1;
    hide ReadSegments, RawStream.Accepts, RawStream.CompleteRun, SegmentHolds, BatchSummary, IsRawName, SegmentName,
         StatisticsTell, EventsTell;
    BatchSummaryTells(records);
    ReadIsDeclared(m, |m.segments|, files, decode, sha);
    RawStream.AcceptsExactlyCompleteRuns(records, m.rawRecordCount);
    forall k | 0 < k < |m.segments| ensures m.segments[k].first == m.segments[k - 1].last + 1 {
      RangesTile(m, k, |m.segments|, files, decode, sha);
    }
    RangesTile(m, 0, |m.segments|, files, decode, sha);
  }

  lemma {:induction false} RangesTile(m: Manifest, k: nat, n: nat, files: Directory, decode: Decoder,
                                      sha: seq<Byte> -> Digest)
    requires k < n <= |m.segments| && ReadSegments(m, n, files, decode, sha).Some?
    ensures m.segments[k].first == if k == 0 then 0 else m.segments[k - 1].last + 1
    decreases n
  {
    hide ReadSegment, SegmentHolds;
    if k < n - 1 {
      RangesTile(m, k, n - 1, files, decode, sha);
    } else {
      ReadIsDeclared(m, k, files, decode, sha);
      ReadHolds(m, k, ReadSegments(m, k, files, decode, sha).value.1, files, decode, sha);
    }
  }
}
