/** The segmented raw writer (scripts/process-tree-memory.py). */
module SegmentWriter {
  import opened Common
  import opened Packing
  import opened SegmentNames
  import opened RawStream

  /** Files of the evidence directory, by name. */
  type Directory = map<Name, seq<Byte>>

  type Digest = seq<Byte>

  /** One element of the manifest's segment list. */
  datatype Entry = Entry(path: Name, order: int, first: int, last: int, recordCount: int, byteLength: int, sha: Digest)

  datatype WriteError = TooLarge | TooManySegments | FileExists

  datatype OpenError = BadNameOrBounds | SegmentExists

  predicate InBounds(prefix: Name, samples: int, bytes: int, segments: int) {
    PlainName(prefix) && 0 < samples <= MAX_RAW_SAMPLES && 0 < bytes <= MAX_RAW_BYTES && 0 < segments <= MAX_SEGMENTS
  }

  function TotalLines(pieces: seq<seq<Line>>): nat {
    if pieces == [] then 0 else TotalLines(pieces[..|pieces| - 1]) + |pieces[|pieces| - 1]|
  }

  function EntryOf(prefix: Name, order: nat, first: nat, piece: seq<Line>, sha: seq<Byte> -> Digest): Entry {
    Entry(SegmentName(prefix, order), order, first, first + |piece| - 1, |piece|, Size(piece), sha(Concat(piece)))
  }

  /** The manifest entries of a list of segments: their ranges tile 0, 1, 2, ... */
  function Entries(prefix: Name, pieces: seq<seq<Line>>, sha: seq<Byte> -> Digest): (r: seq<Entry>)
    ensures |r| == |pieces|
  {
    if pieces == [] then []
    else
      var front := pieces[..|pieces| - 1];
      Entries(prefix, front, sha) + [EntryOf(prefix, |front|, TotalLines(front), pieces[|pieces| - 1], sha)]
  }

  lemma TotalLinesSnoc(pieces: seq<seq<Line>>, piece: seq<Line>)
    ensures TotalLines(pieces + [piece]) == TotalLines(pieces) + |piece|
  {
    assert (pieces + [piece])[..|pieces|] == pieces;
  }

  lemma EntriesSnoc(prefix: Name, pieces: seq<seq<Line>>, piece: seq<Line>, sha: seq<Byte> -> Digest)
    ensures Entries(prefix, pieces + [piece], sha)
         == Entries(prefix, pieces, sha) + [EntryOf(prefix, |pieces|, TotalLines(pieces), piece, sha)]
  {
    hide EntryOf, TotalLines;
    assert (pieces + [piece])[..|pieces|] == pieces;
  }

  /** The directory holds these segments, which are new, and its other files are those of `start`. */
  ghost predicate Stored(files: Directory, start: Directory, prefix: Name, pieces: seq<seq<Line>>) {
    && (forall k :: 0 <= k < |pieces| ==>
          SegmentName(prefix, k) in files && files[SegmentName(prefix, k)] == Concat(pieces[k]))
    && (forall k :: 0 <= k < |pieces| ==> SegmentName(prefix, k) !in start)
    && (forall n :: n in files ==> (n in start && files[n] == start[n]) || exists k ::
          0 <= k < |pieces| && n == SegmentName(prefix, k))
    && (forall n :: n in start ==> n in files)
  }

  lemma StoredAppend(files: Directory, start: Directory, prefix: Name, closed: seq<seq<Line>>, current: seq<Line>,
                     line: Line)
    requires |closed| < MAX_SEGMENTS && Stored(files, start, prefix, closed + [current])
    requires SegmentName(prefix, |closed|) in files
    ensures var name := SegmentName(prefix, |closed|);
            Stored(files[name := files[name] + line], start, prefix, closed + [current + [line]])
  {
    hide SegmentName, Concat;
    var name := SegmentName(prefix, |closed|);
    var pieces := closed + [current];
    assert pieces[|closed|] == current;
    ConcatSnoc(current, line);
    forall k | 0 <= k < |closed| ensures SegmentName(prefix, k) != name {
      if SegmentName(prefix, k) == name {
        SegmentNamesDiffer(prefix, k, |closed|);
      }
    }
    assert forall k :: 0 <= k < |closed| ==> (closed + [current + [line]])[k] == pieces[k];
  }

  lemma StoredOpen(files: Directory, start: Directory, prefix: Name, pieces: seq<seq<Line>>)
    requires |pieces| < MAX_SEGMENTS && Stored(files, start, prefix, pieces)
    requires SegmentName(prefix, |pieces|) !in files
    ensures Stored(files[SegmentName(prefix, |pieces|) := []], start, prefix, pieces + [[]])
  {
    hide SegmentName;
    var more := pieces + [[]];
    assert forall k :: 0 <= k < |pieces| ==> more[k] == pieces[k];
    assert more[|pieces|] == [];
  }

  /** `SegmentedRawWriter`. The hash objects are the bytes they were fed. */
  class SegmentedRawWriter {
    const prefix: Name
    const maximumSegmentSamples: nat
    const maximumSegmentBytes: nat
    const maximumSegments: nat
    const encode: Record -> Line
    const sha: seq<Byte> -> Digest
    var files: Directory
    var count: nat
    var bytesWritten: nat
    var digest: seq<Byte>
    var segments: seq<Entry>
    var segmentOrder: nat
    var segmentCount: nat
    var segmentBytes: nat
    var segmentDigest: seq<Byte>
    var path: Name
    ghost const start: Directory
    ghost var lines: seq<Line>

    ghost function Packed(): Packed
      reads this
    {
      Pack(lines, maximumSegmentSamples, maximumSegmentBytes)
    }

    ghost predicate Bounds()
    {
      && 0 < maximumSegmentSamples <= MAX_RAW_SAMPLES && 0 < maximumSegmentBytes
      && 0 < maximumSegments <= MAX_SEGMENTS
    }

    /** The name of the file that the last of these lines goes to. */
    ghost function LastName(lines: seq<Line>): Name {
      SegmentName(prefix, |Pack(lines, maximumSegmentSamples, maximumSegmentBytes).closed|)
    }

    /** The fields of the segment being filled, against a packing. */
    ghost predicate Agrees(p: Packed)
      reads this
    {
      && segments == Entries(prefix, p.closed, sha)
      && segmentOrder == |p.closed| && segmentCount == |p.current| && segmentBytes == Size(p.current)
      && segmentDigest == Concat(p.current) && path == SegmentName(prefix, segmentOrder)
      && count == TotalLines(p.closed) + |p.current|
      && |p.closed| < maximumSegments
      && Stored(files, start, prefix, p.Pieces())
    }

    ghost predicate Valid()
      reads this
    {
      && Bounds() && Packable(lines, maximumSegmentSamples, maximumSegmentBytes)
      && count == |lines| && bytesWritten == Size(lines) && digest == Concat(lines)
      && Agrees(Packed())
    }

    /** `__init__`: check the name and the bounds, then create the first segment's file. */
    static method Open(prefix: Name, samples: int, bytes: int, segments: int, encode: Record -> Line,
                       sha: seq<Byte> -> Digest, directory: Directory)
      returns (r: Result<SegmentedRawWriter, OpenError>)
      ensures r.Ok? <==> InBounds(prefix, samples, bytes, segments) && SegmentName(prefix, 0) !in directory
      ensures r.Err? ==> r.error == if InBounds(prefix, samples, bytes, segments) then SegmentExists
              else BadNameOrBounds
      ensures r.Ok? ==> fresh(r.value) && r.value.Valid() && r.value.lines == [] && r.value.start == directory
      ensures r.Ok? ==> r.value.prefix == prefix && r.value.encode == encode && r.value.sha == sha
      ensures r.Ok? ==> r.value.maximumSegmentSamples == samples && r.value.maximumSegmentBytes == bytes
                        && r.value.maximumSegments == segments
    {
      hide PlainName, SegmentName;
      if !PlainName(prefix) || samples <= 0 || samples > MAX_RAW_SAMPLES || bytes <= 0 || bytes > MAX_RAW_BYTES
         || segments <= 0 || segments > MAX_SEGMENTS {
        return Err(BadNameOrBounds);
      }
      if SegmentName(prefix, 0) in directory {
        return Err(SegmentExists);
      }
      var writer := new SegmentedRawWriter(prefix, samples, bytes, segments, encode, sha, directory);
      return Ok(writer);
    }

    /** A writer with its first segment open and empty. */
    constructor (prefix: Name, samples: nat, bytes: nat, segments: nat, encode: Record -> Line,
                 sha: seq<Byte> -> Digest, directory: Directory)
      requires 0 < samples <= MAX_RAW_SAMPLES && 0 < bytes && 0 < segments <= MAX_SEGMENTS
      requires SegmentName(prefix, 0) !in directory
      ensures Valid() && lines == [] && start == directory
      ensures this.prefix == prefix && maximumSegmentSamples == samples && maximumSegmentBytes == bytes
      ensures maximumSegments == segments && this.encode == encode && this.sha == sha
    {
      this.prefix := prefix;
      this.maximumSegmentSamples := samples;
      this.maximumSegmentBytes := bytes;
      this.maximumSegments := segments;
      this.encode := encode;
      this.sha := sha;
      this.count, this.bytesWritten, this.digest := 0, 0, [];
      this.segments, this.segmentOrder, this.segmentCount, this.segmentBytes, this.segmentDigest := [], 0, 0, 0, [];
      this.path := SegmentName(prefix, 0);
      this.files := directory[SegmentName(prefix, 0) := []];
      this.start := directory;
      this.lines := [];
      new;
      StoredOpen(directory, directory, prefix, []);
      var none: seq<seq<Line>> := [];
      assert Packed() == Packing.Packed([], []) && none + [[]] == Packed().Pieces();
    }

    /** `_rollover`: close the segment being filled and open the next file. */
    method Rollover(ghost p: Packed) returns (r: Option<WriteError>)
      requires Bounds() && Agrees(p) && p.current != []
      modifies this`segments, this`segmentOrder, this`segmentCount, this`segmentBytes, this`segmentDigest, this`path,
      this`files
      ensures r == Some(TooManySegments) <==> |p.Pieces()| >= maximumSegments
      ensures r == Some(TooManySegments) ==> unchanged(this)
      ensures r == Some(FileExists) <==>
                |p.Pieces()| < maximumSegments && SegmentName(prefix, |p.Pieces()|) in start
      ensures r != Some(TooLarge)
      ensures r.None? ==> Agrees(Packing.Packed(p.Pieces(), []))
    {
      hide Stored, SegmentName, Entries, TotalLines, IsRawName;
      if segmentOrder + 1 >= maximumSegments {
        return Some(TooManySegments);
      }
      TotalLinesSnoc(p.closed, p.current);
      CloseEntry(p);
      segmentOrder := segmentOrder + 1;
      segmentCount := 0;
      segmentBytes := 0;
      segmentDigest := [];
      path := SegmentName(prefix, segmentOrder);
      NextIsNew(p);
      if path in files {
        return Some(FileExists);
      }
      StoredOpen(files, start, prefix, p.Pieces());
      files := files[path := []];
      return None;
    }

    /** `_finish_segment`: append the manifest entry of the segment being filled. */
    method CloseEntry(ghost p: Packed)
      requires Agrees(p) && p.current != []
      modifies this`segments
      ensures segments == Entries(prefix, p.Pieces(), sha)
    {
      hide Stored, SegmentName, TotalLines;
      EntriesSnoc(prefix, p.closed, p.current, sha);
      var firstSequence := count - segmentCount;
      segments := segments + [Entry(path, segmentOrder, firstSequence, count - 1, segmentCount, segmentBytes,
                                    sha(segmentDigest))];
    }

    /** The next segment's file is there only if it was from the start. */
    lemma NextIsNew(p: Packed)
      requires Stored(files, start, prefix, p.Pieces()) && |p.Pieces()| < MAX_SEGMENTS
      ensures SegmentName(prefix, |p.Pieces()|) in files <==> SegmentName(prefix, |p.Pieces()|) in start
    {
      var n := SegmentName(prefix, |p.Pieces()|);
      if n in files && n !in start {
        var k :| 0 <= k < |p.Pieces()| && n == SegmentName(prefix, k);
        SegmentNamesDiffer(prefix, k, |p.Pieces()|);
      }
    }

    lemma PathIsStored(p: Packed)
      requires Stored(files, start, prefix, p.Pieces())
      ensures SegmentName(prefix, |p.closed|) in files && SegmentName(prefix, |p.closed|) !in start
    {
      assert p.Pieces()[|p.closed|] == p.current;
    }

    /** Append an encoded record to the segment being filled. */
    method Append(ghost p: Packed, line: Line)
      requires Bounds() && Agrees(p)
      modifies this`files, this`digest, this`segmentDigest, this`count, this`bytesWritten, this`segmentCount,
      this`segmentBytes
      ensures Agrees(Packing.Packed(p.closed, p.current + [line]))
      ensures digest == old(digest) + line && count == old(count) + 1 && bytesWritten == old(bytesWritten) + |line|
    {
      hide Stored, SegmentName, Entries, TotalLines;
      PathIsStored(p);
      StoredAppend(files, start, prefix, p.closed, p.current, line);
      SizeSnoc(p.current, line);
      ConcatSnoc(p.current, line);
      files := files[path := files[path] + line];
      digest := digest + line;
      segmentDigest := segmentDigest + line;
      count := count + 1;
      bytesWritten := bytesWritten + |line|;
      segmentCount := segmentCount + 1;
      segmentBytes := segmentBytes + |line|;
    }

    /** `write`: number the record, encode it, and roll over when it does not fit. */
    method Write(record: Record) returns (r: Option<WriteError>)
      requires Valid()
      modifies this
      ensures r == Some(TooLarge) <==> |encode(record.(sequence := old(count)))| > maximumSegmentBytes
      ensures r.None? ==> Valid() && lines == old(lines) + [encode(record.(sequence := old(count)))]
      // The count is refused just when no split of all the lines fits in the bound.
      ensures var more := old(lines) + [encode(record.(sequence := old(count)))];
              var fits := |encode(record.(sequence := old(count)))| <= maximumSegmentBytes;
              && (r == Some(TooManySegments) <==>
                    fits && !CanSplit(more, maximumSegmentSamples, maximumSegmentBytes, maximumSegments))
              // A file of the next segment's name was there from the start.
              && (r == Some(FileExists) <==>
                    fits && CanSplit(more, maximumSegmentSamples, maximumSegmentBytes, maximumSegments)
                    && LastName(more) in start)
      ensures r == Some(TooLarge) || r == Some(TooManySegments) ==> unchanged(this)
    {
      hide Stored, SegmentName, Entries, TotalLines, Pack, Size, Concat, CanSplit, LastName;
      var line := encode(record.(sequence := count));
      if |line| > maximumSegmentBytes {
        return Some(TooLarge);
      }
      ghost var p := Packed();
      ghost var more := lines + [line];
      WriteFacts(line);
      if segmentCount >= maximumSegmentSamples || segmentBytes + |line| > maximumSegmentBytes {
        r := Rollover(p);
        if r.Some? {
          return;
        }
        p := Packing.Packed(p.Pieces(), []);
      }
      Append(p, line);
      assert [] + [line] == [line];
      lines := more;
      return None;
    }

    lemma WriteFacts(line: Line)
      requires Valid() && |line| <= maximumSegmentBytes
      ensures var p, more := Packed(), lines + [line];
              && Packable(more, maximumSegmentSamples, maximumSegmentBytes)
              && Pack(more, maximumSegmentSamples, maximumSegmentBytes)
                 == Put(p, line, maximumSegmentSamples, maximumSegmentBytes)
              && Concat(more) == digest + line && Size(more) == bytesWritten + |line|
              && (NeedsRollover(p, line, maximumSegmentSamples, maximumSegmentBytes) ==> p.current != [])
              && (if NeedsRollover(p, line, maximumSegmentSamples, maximumSegmentBytes) then
                    && LastName(more) == SegmentName(prefix, |p.Pieces()|)
                    && (CanSplit(more, maximumSegmentSamples, maximumSegmentBytes, maximumSegments)
                        <==> |p.Pieces()| < maximumSegments)
                  else
                    && LastName(more) !in start
                    && CanSplit(more, maximumSegmentSamples, maximumSegmentBytes, maximumSegments))
    {
      hide Pack, Put, Agrees, CanSplit;
      var p, more := Packed(), lines + [line];
      assert more[..|lines|] == lines;
      assert Pack(more, maximumSegmentSamples, maximumSegmentBytes)
             == Put(p, line, maximumSegmentSamples, maximumSegmentBytes) by {
        PackSnoc(lines, line, maximumSegmentSamples, maximumSegmentBytes);
      }
      ConcatSnoc(lines, line);
      SizeSnoc(lines, line);
      PackHolds(lines, maximumSegmentSamples, maximumSegmentBytes);
      PutHolds(p, lines, line, maximumSegmentSamples, maximumSegmentBytes);
      GreedyIsOptimal(more, maximumSegmentSamples, maximumSegmentBytes, maximumSegments);
      PutCloses(p, line, maximumSegmentSamples, maximumSegmentBytes);
      NewNames(p);
    }

    lemma NewNames(p: Packed)
      requires Agrees(p)
      ensures |p.Pieces()| <= maximumSegments && SegmentName(prefix, |p.closed|) !in start
    {
      hide Stored, Entries, TotalLines, SegmentName;
      PathIsStored(p);
    }

    /** `finish`: the manifest's segments; `None` is the empty-segment error. */
    method Finish() returns (r: Option<seq<Entry>>)
      requires Valid()
      modifies this`segments
      ensures r.None? <==> lines == []
      ensures r.Some? ==> r.value == Entries(prefix, Packed().Pieces(), sha)
    {
      PackHolds(lines, maximumSegmentSamples, maximumSegmentBytes);
      if segmentCount == 0 {
        return None;
      }
      CloseEntry(Packed());
      return Some(segments);
    }
  }

  lemma PutCloses(p: Packed, line: Line, samples: nat, bytes: nat)
    ensures |Put(p, line, samples, bytes).closed|
            == if NeedsRollover(p, line, samples, bytes) then |p.Pieces()| else |p.closed|
  {
  }

  lemma PackSnoc(lines: seq<Line>, line: Line, samples: nat, bytes: nat)
    ensures Pack(lines + [line], samples, bytes) == Put(Pack(lines, samples, bytes), line, samples, bytes)
  {
    hide Put;
    assert (lines + [line])[..|lines|] == lines;
  }
}
