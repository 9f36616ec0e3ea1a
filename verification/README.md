# Verified model of Atlas's evidence, framing, paging and package-gate logic

Atlas ships a small number of algorithms that other people rely on without re-reading them: the
pipeline that measures the memory of a process tree and hands over evidence, the framing of its
MCP transport, the pages and verdicts of compiled contexts, the gate over the published package,
the writer lease, the broker's selection, and the scripts that clean up artifacts and run paired
campaigns. This project models them in Dafny and proves what they are for.

The modules follow the program's files.

* `Framing`, `Utf8` (bin/atlas-mcp.rs): the bounded newline reader as a resumable object over a
  buffered stream. The whole receive loop yields the messages of the lines that fit, whatever the
  chunks and wherever the await is interrupted.
* `RawStream`, `IdleControl`, `Churn`, `Descendants`, `Measurements`, `Summary`, `Sorting`,
  `Progress`, `SamplingLoop`, `Packing`, `SegmentNames`, `SegmentWriter`, `SummaryDetails`,
  `SegmentCheck`, `MeasurementRun` (scripts/process-tree-memory.py): records, their stream validator, the idle
  control, process churn, statistics, progress lines, the sampling loop, the segmented writer and
  the reader of its evidence. The samplers, the writer and the reader meet in `MeasurementRun`.
* `RustTokens`, `Tar`, `PackageText` (scripts/check-distribution-readiness.py): the tokenizer, the
  tar reader, the line-ending rule and the self-describing length.
* `Paging`, `Verdict` (src/context_application.rs): pages under a changing table, and capability
  verdicts.
* `Calendar`, `Lease` (src/catalogue.rs): timestamps, and the lease as a protocol.
* `Broker` (src/broker.rs): ranking and selection.
* `Cleanup` (scripts/local-artifact-cleanup.py): what the walk proposes and what applying removes.
* `Campaign` (scripts/local-atlas-ab.py) and `Export` (scripts/benchmark-evidence-export.py): the
  harness, every state its directory can be left in, and what the exporter says of each.
* `Common`, `Decimal`: shared vocabulary, numerals and dictionary order.

Code that changes fields or loops is a class or a method proved against a function; what the
function is worth is proved as lemmas. Inputs from outside are parameters: clocks are lists of
readings, the file system is a map or a tree, tables are sets of rows, SHA-256 is a function
(injective where a theorem needs that), and a JSON codec is a pair of functions of which the
second inverts the first.

What a function computes that two sides of a theorem share is stated a second time, on record
fields, table columns, characters and bytes alone, and the two are proved to agree; such members are
named `...Tells` or `...Iff`.

Results that are not what one might expect of the code:

* A measurement run finishes exactly when its destination is free, its bounds are legal, the
  writer takes every record, the records are a complete run and the capacity identity is sound.
  What it wrote is then accepted on reading back if and only if the prefix names raw segments, the
  directory held no other raw segment and no artifact of another kind, the summary's own name is
  of neither kind, no record and not the summary is longer than the reader takes, and the platform
  is described in full (`MeasurementRun.RunMeasurement`). The run itself looks for none of these
  beforehand (`MeasurementRun.OtherSegmentIsNotSeen`, `MeasurementRun.SummaryRefusesItself`,
  `MeasurementRun.LongNamesRefuse`).
* The idle control and the sampling loop make a stream that the validator accepts exactly when the
  loop's first clock reading is later than the last idle reading: an equal one is refused; and the
  loop must take two samples (`SamplingLoop.LoopStreamIff`, `SamplingLoop.LoopRunIff`).
* Replacing white space or comments behind a token keeps the lexemes exactly when a lone quote or
  a slash does not come to stand differently (`RustTokens.BlanksAreInert`, three
  counterexamples). The list of tokens stays the same in one more case: a block comment behind a
  slash, if the lines after its first bring the slash and the old tokens again
  (`RustTokens.BlanksKeepTokensIff`, `RustTokens.HarmlessSlashClash`). Removing a blank is covered
  by the same rule (`RustTokens.TokensKeptIff`, `RustTokens.RemovalKeepsTokensIff`).
* In a sample of valid measurements of different processes, a retained process ends exactly when
  it is dropped if and only if the sample mentions it consistently
  (`Churn.BalancedIffMentioned`). One that is not mentioned is reported as exited, and is reported
  so again in each further sample that does not mention it
  (`Churn.UnmentionedProcessExitsRepeatedly`). The two samplers and the final sweep only yield
  samples that do (`Churn.SampledRunIsFaithful`).
* A takeover of the lease leaves the old holder in the row. At most one holder has a grant at all
  times if and only if no takeover happens (`Lease.ExclusionIffNoTakeover`).
* The lease is taken over exactly when the age of the heartbeat and the fraction of a millisecond
  that its stored string lost together exceed the limit, so up to a millisecond early
  (`Lease.TakeoverIff`).
* The first page of contexts never shows a row whose creation time and id are both empty
  (`Paging.OnlyTheEmptyKeyIsHidden`).
* String order is time order for years of equally many digits. Otherwise the shorter year comes
  first exactly when it is at most the leading digits of the longer one
  (`Calendar.StampOrderIff`): all of 10000 sorts before all earlier years
  (`Calendar.StampOrderEndsAt10000`).
* The least self-describing length need not be the only one (`PackageText.TwoLengthsCanDescribe`).
* The ranking is independent of the hash map's order exactly when no empty symbol key ties with
  the path candidate of the same file (`Broker.DeterminedIffNoTie`).
* A file whose deletion cannot be verified, or whose path another file took meanwhile, is reported
  as refused although the file seen is gone, and an item met when the workspace itself is gone is
  neither deleted nor reported (`Cleanup.Workspace.Unlink`, `Cleanup.Audit.Apply`).

## Model

| member | source | states |
|---|---|---|
| `Framing.FramesAreLineVerdicts` | bin/atlas-mcp.rs:931-961 | For every text, the frames owed are the verdicts of its newline-terminated lines in order and then the end; an unterminated tail is dropped. |
| `Framing.EveryTextHasLines` | bin/atlas-mcp.rs:931-961 | Every byte string is such a text. |
| `Framing.ChunkingAndCancellationIrrelevant` | bin/atlas-mcp.rs:931-961 | Any cut of the text into chunks, with interruptions of the await anywhere, owes the same frames. |
| `Framing.FramesAfterChunk` | bin/atlas-mcp.rs:939-960 | One pass over a chunk either extends the pending line or ends it with its verdict. |
| `Framing.Transport.FillBuf` | bin/atlas-mcp.rs:932-938 | The only await loses no byte: an interrupted read leaves the input as it was. |
| `Framing.Transport.Absorb` | bin/atlas-mcp.rs:942-947 | Copying into the frame or discarding keeps the line read so far and the bound of MAX+1 bytes on the frame. |
| `Framing.Transport.Consume` | bin/atlas-mcp.rs:939-949 | Bytes before the newline change nothing that is owed; the newline hands over exactly the verdict of the line. |
| `Framing.Transport.EndLine` | bin/atlas-mcp.rs:949-959 | A line is complete iff it has at most MAX bytes, or MAX+1 with a final CR, and the frame then holds the line; otherwise it is oversized. |
| `Framing.Transport.ReadFrame` | bin/atlas-mcp.rs:931-961 | Each result takes exactly the next frame off what is owed; an interrupted call takes nothing. |
| `Framing.Transport.Next` | bin/atlas-mcp.rs:977-997 | Skips oversized and unparsable lines and delivers the next parsed message, or the end, or is interrupted without loss. |
| `Framing.Transport.ReceiveAll` | bin/atlas-mcp.rs:1026-1031 | Receiving until the end returns all messages owed before the end. |
| `Framing.DeliveriesOfVerdicts` | bin/atlas-mcp.rs:977-997 | The messages delivered for a list of verdicts are those of the lines that fit and parse. |
| `Framing.MessagesOfAnyScript` | bin/atlas-mcp.rs:931-997 | For every chunking and every interruption, each message comes from a line that carries it, these lines come in order, and no other line carries one. |
| `Framing.CarriesIff` | bin/atlas-mcp.rs:984-993 | The message of a line is told by its bytes: the line is not empty and fits, and what is left without a final CR and then a leading byte order mark parses as it. |
| `Utf8.ValidPrefixIffBoundary` | bin/atlas-mcp.rs:408-419 | A prefix of valid UTF-8 text (RFC 3629) is valid exactly when it is cut at a character boundary. |
| `Utf8.BoundaryIsNear` | bin/atlas-mcp.rs:408-419 | A boundary lies at most three bytes back. |
| `Utf8.ValidIff` | bin/atlas-mcp.rs:408-419 | Text is valid exactly when it is the concatenation of the encodings of some Unicode scalar values (section 3 of RFC 3629). |
| `Utf8.CappedAdditiveError` | bin/atlas-mcp.rs:408-419 | The result is the longest valid prefix within 1024 bytes, and at most three bytes short of it. |
| `RawStream.RawRecordStreamValidator.Observe` | scripts/process-tree-memory.py:1604-1716 | One record moves the validator by its step function or is refused; a record that is taken has, field by field, the labels, times, gaps, PIDs, totals and statuses that its parts demand. |
| `RawStream.RawRecordStreamValidator.Update` | scripts/process-tree-memory.py:1604-1716 | Given a well-formed record in order, it is taken exactly when it follows the state. |
| `RawStream.RawRecordStreamValidator.ObserveCampaign` | scripts/process-tree-memory.py:1684-1709 | A campaign record is taken iff its Atlas identity, churn events and retained processes agree with what came before. |
| `RawStream.ValidateRawRecords` | scripts/process-tree-memory.py:1740-1751 | Accepts iff the bound is legal and the whole stream is accepted. |
| `RawStream.FoldIsChained` | scripts/process-tree-memory.py:1604-1716 | The validator gets through a stream exactly when neighbouring records link, one identity is shown and the churn is consistent. |
| `RawStream.AcceptsExactlyCompleteRuns` | scripts/process-tree-memory.py:1604-1737 | An accepted stream is exactly 101 idle records and then at least two campaign records, each phase on an exact 50 ms grid, with non-decreasing times never before schedule and one Atlas identity; and every such stream is accepted. |
| `RawStream.AcceptedRecordTells` | scripts/process-tree-memory.py:1604-1716 | Every record of an accepted stream has its place as sequence number, valid measurements, its lateness by the 50 ms cadence, providers in PID order, and, in the campaign, the totals and the status that Atlas, the tree and the providers demand. |
| `RawStream.WellFormedIff` | scripts/process-tree-memory.py:1604-1716 | The checks that look at one record alone hold exactly when it tells all this: version and kind, six bounded labels, times and lateness, the tree with its error, valid measurements, the ascending PIDs of exactly its providers, and in either phase what belongs to it and nothing else. |
| `Measurements.ConcurrentTotalsIff` | scripts/process-tree-memory.py:1035-1071 | For resident and private memory alike: the Atlas total is there exactly when Atlas is observed and has the field; the provider total exactly when the tree and every provider are observed and each has the field, and is their sum; the sum of both exactly when both are there; the status is Observed exactly when Atlas, the tree and all providers are. There is no aggregate exactly when one of these sums exceeds 2^63 - 1. |
| `Measurements.TotalLaws` | scripts/process-tree-memory.py:1050-1068 | The total of nothing is zero, and one more value or a second list adds to it. |
| `Measurements.TotalOfReordered` | scripts/process-tree-memory.py:1050-1068 | The total does not depend on the order. |
| `Measurements.SamplingGapTells` | scripts/process-tree-memory.py:1115-1123 | A deadline is missed exactly when the sample is at least 50 ms late, lateness is never negative, and the missed intervals are the whole cadences in it. |
| `IdleControl.WaitUntilScheduled` | scripts/process-tree-memory.py:1158-1164 | Returns the first clock reading at or past the schedule, having used all before it. |
| `IdleControl.ReadingsLastIff` | scripts/process-tree-memory.py:1158-1197 | Under a clock that does not go back the readings last for n samples on the grid exactly when there are n and each of the last n is at or past the schedule of its sample. |
| `IdleControl.CollectIdleControl` | scripts/process-tree-memory.py:1167-1197 | Under any clock that does not go back it yields 101 records on schedule, exactly when the readings last and every observer measurement is valid. |
| `IdleControl.IdleControlIsAccepted` | scripts/process-tree-memory.py:1167-1197 | Those records are an idle prefix that the stream validator accepts and that satisfies the idle part of its final check. |
| `Descendants.BuildChildren` | scripts/process-tree-memory.py:301-313 | The child lists hold exactly the parent edges of the table, or the table has an illegal row. |
| `Descendants.DescendantPids` | scripts/process-tree-memory.py:301-323 | For every table, cycles and duplicates included: the sorted, duplicate-free set of all PIDs reachable from the root without the root and PID 0; each error exactly on its cause, the bound error iff that set is too large. |
| `Descendants.DescendantsAreListed` | scripts/process-tree-memory.py:301-323 | The set of descendants, which is taken from the rows of the table, loses no process reachable from the root. |
| `Descendants.ClosedHoldsReachable` | scripts/process-tree-memory.py:313-323 | A set closed under children that holds the root holds whatever is reachable. |
| `Descendants.WalkVisits` | scripts/process-tree-memory.py:315-322 | Visiting a new PID keeps the walk's invariant. |
| `Descendants.WalkStarts` | scripts/process-tree-memory.py:313-314 | The walk starts at the root's children. |
| `Descendants.WalkPops` | scripts/process-tree-memory.py:315-318 | Popping keeps the invariant; a seen PID is skipped. |
| `Descendants.FoundAreAll` | scripts/process-tree-memory.py:315-323 | When nothing is pending, what was found is all descendants. |
| `Churn.RetainedDescendantIdentities` | scripts/process-tree-memory.py:458-479 | The loop computes the retained map of a sample. |
| `Churn.DescendantEventsOf` | scripts/process-tree-memory.py:1074-1112 | The loop computes the churn events of a sample. |
| `Churn.TrackedProcessMeasurements` | scripts/process-tree-memory.py:413-455 | Measures every current or retained process once, in PID order. |
| `Churn.MeasureAll` | scripts/process-tree-memory.py:429-455 | One measurement per PID, or the error for an illegal PID. |
| `Churn.AppendVanished` | scripts/process-tree-memory.py:1109-1111 | An exit for every retained process that the sample does not identify. |
| `Churn.TrackedIsFaithful` | scripts/process-tree-memory.py:413-455 | Every sample it yields mentions each retained process once and does not invent others. |
| `Churn.TreeFailureIsFaithful` | scripts/process-tree-memory.py:482-496 | So does a failed tree observation. |
| `Churn.TreeFailureEndsNothing` | scripts/process-tree-memory.py:482-496 | A failed tree observation never yields an exit and keeps every retained process. |
| `Churn.TrackedTells` | scripts/process-tree-memory.py:413-455 | For each member and each retained process, what the look at it showed decides its one event with its identities, whether and as whom it is retained, and its measurement: gone is an exit of the old identity, another identity is a reuse of the old by the new, the same is none, a failed look is a gap that keeps it. Nobody else has any. |
| `Churn.FailureTells` | scripts/process-tree-memory.py:482-496 | When the tree cannot be observed each retained process has a gap with the cause and stays as it was. |
| `Churn.SweepFate` | scripts/process-tree-memory.py:2593-2600 | In the final sweep each retained process exits under its own identity, and nothing else happens. |
| `Churn.SampleEndsExactlyTheDropped` | scripts/process-tree-memory.py:458-479 | In one such sample a process leaves the retained map just when exactly one exit or reuse event ends it; nobody else gets one. |
| `Churn.EpisodesBalance` | scripts/process-tree-memory.py:1074-1112 | Over any run, per PID, episodes begun equal episodes ended by exactly one event plus the one still open. |
| `Churn.BalancedIffMentioned` | scripts/process-tree-memory.py:458-479 | For any sample of valid measurements of different processes, a retained process ends exactly when it is dropped, and otherwise keeps its identity, if and only if the sample mentions it by an ending, without an identity or with the retained one. |
| `Churn.UnmentionedExits` | scripts/process-tree-memory.py:1109-1111 | A retained process that a sample does not mention is reported as exited once and stays retained. |
| `Churn.UnmentionedProcessExitsRepeatedly` | scripts/process-tree-memory.py:1074-1112 | So over any samples that never mention it, it exits once for each of them and is still retained. |
| `Churn.SampledIsFaithful` | scripts/process-tree-memory.py:413-496 | Whatever tree the sampler is shown, its sample is of that kind. |
| `Churn.SweepIsFaithful` | scripts/process-tree-memory.py:2593-2600 | So is the final sweep, which leaves no process retained. |
| `Churn.SampledRunIsFaithful` | scripts/process-tree-memory.py:413-496 | Every run made of the two samplers and the sweep consists of such samples. |
| `Churn.SampledEpisodesBalance` | scripts/process-tree-memory.py:1074-1112 | So in every run of the samplers, per PID, episodes begun equal episodes ended plus the one still open, and none is open after the sweep. |
| `Churn.EndsAreDrops` | scripts/process-tree-memory.py:1074-1112 | Such a sample has as many ending events as processes that leave the retained map. |
| `Churn.RetainedCount` | scripts/process-tree-memory.py:458-479 | Over a run, the processes retained are those at the start and those added, less the ending events. |
| `Summary.NearestRank` | scripts/process-tree-memory.py:1200-1207 | p50 and p95 are true nearest-rank values: at least ceil(p*n/100) values are at or below, fewer are strictly below. |
| `Summary.PeakIsGreatest` | scripts/process-tree-memory.py:1200-1207 | The peak is the greatest value. |
| `Summary.SelectIsBatch` | scripts/process-tree-memory.py:1298-1346 | For every stream, each query of the accumulator's table yields the values that the batch code collects. |
| `Summary.StreamingSummaryAccumulator.Observe` | scripts/process-tree-memory.py:1298-1346 | One record more in the table, the high-water marks and the event counts. |
| `Summary.StreamingSummaryAccumulator.StatisticsOf` | scripts/process-tree-memory.py:1348-1367 | Count, two offsets into the ordered values and the maximum are the batch statistics. |
| `Summary.StreamingSummaryAccumulator.Parts` | scripts/process-tree-memory.py:1369-1392 | The streaming summary is the batch summary of the records seen. Each of its ten statistics counts the records with that field, its peak is one of these values and bounds them, and p50 and p95 are nearest ranks among them; each event count is the number of such events in these records. |
| `Summary.BatchSummaryTells` | scripts/process-tree-memory.py:1201-1270 | So does the batch summary of any records, the values taken from the fields of idle and campaign records alone, and the provider high-water marks told by PID and identity. |
| `Summary.StreamingSummaryAccumulator.MetricValues` | scripts/process-tree-memory.py:1299-1331 | The rows stored for one record. |
| `Summary.StreamingSummaryAccumulator.CountChildEvents` | scripts/process-tree-memory.py:1339-1345 | The events counted for one record. |
| `Sorting.SortSorts` | scripts/process-tree-memory.py:1200-1207 | Sorting sorts; with its multiset it is the only such list (next row). |
| `Sorting.SortedIsUnique` | scripts/process-tree-memory.py:1348-1367 | SQL's order and the batch sort list the same values in the same way. |
| `Progress.RunNeverRegresses` | scripts/process-tree-memory.py:142-157 | Accepted observations keep one total, never go back, keep one phase per ordinal and do not change once complete. |
| `Progress.ProgressReporter.Observe` | scripts/process-tree-memory.py:133-173 | Refuses exactly what does not follow, and everything after the stop; the lines stay in the current phase, less than an interval behind, at least an interval apart within a phase, and say complete once and last. |
| `Progress.ProgressReporter.Record` | scripts/process-tree-memory.py:158-173 | A taken observation gets a line exactly when it is due. |
| `Progress.LineIsDue` | scripts/process-tree-memory.py:158-173 | Printing when a line is due keeps the report sparse and current. |
| `Progress.NoLineIsDue` | scripts/process-tree-memory.py:158-173 | So does not printing when none is due. |
| `Progress.ProgressReporter.Finish` | scripts/process-tree-memory.py:175-184 | An incomplete run is reported stopped, once, and a clean exit forbids that. |
| `SamplingLoop.TakeTurn` | scripts/process-tree-memory.py:2564-2613 | One pass of the loop body yields the record that the turn, the known identity and the retained processes demand, field by field; it fails exactly when one of the totals overflows or too many processes would have to be measured. |
| `SamplingLoop.RecordedTurnTells` | scripts/process-tree-memory.py:2564-2613 | The record of a turn tells what was shown: Atlas, the tree and each provider as seen, replaced or failed, the totals and status of these, the churn events, and the schedule. |
| `SamplingLoop.ProducedTells` | scripts/process-tree-memory.py:2559-2613 | So does every record of the loop, for the state that the turns before it left. |
| `SamplingLoop.SampleUntilGone` | scripts/process-tree-memory.py:2559-2620 | It ends exactly when some turn ends the loop, no turn up to there overflows its totals or the process bound, and the readings last; the records are those of these turns, each on the 50 ms grid of the loop's own first reading, never early, times in order. |
| `SamplingLoop.SampleRun` | scripts/process-tree-memory.py:2534-2620 | Idle control and loop on one clock yield such a stream, each loop record telling its turn, exactly when the readings last for both, some turn ends the loop and no turn overflows its totals. |
| `SamplingLoop.ProvidersInOrder` | scripts/process-tree-memory.py:2591-2609 | The providers of every turn, the exit sweep included, are valid and in PID order, and retaining them keeps the bound on processes. |
| `SamplingLoop.TurnIsWellFormed` | scripts/process-tree-memory.py:2477-2493 | A recorded turn passes every check that looks at one record alone. |
| `SamplingLoop.IdentityStays` | scripts/process-tree-memory.py:2576-2582 | Once Atlas's identity is known it never changes. |
| `SamplingLoop.RetainedAlike` | scripts/process-tree-memory.py:2614-2617 | The validator retains the same processes as the loop after every record. |
| `SamplingLoop.LoopStreamIff` | scripts/process-tree-memory.py:2553-2624 | For every clock that does not go back and everything the samplers can be shown, the validator takes idle control and loop records exactly when the loop starts after the last idle reading. |
| `SamplingLoop.LoopRunIff` | scripts/process-tree-memory.py:2553-2624 | A loop that ended makes an accepted run exactly when it also took two samples. |
| `Packing.PackHolds` | scripts/process-tree-memory.py:2433-2464 | Greedy pieces are non-empty, within both bounds and concatenate to the lines. |
| `Packing.GreedyStaysAhead` | scripts/process-tree-memory.py:2444-2464 | After every line greedy is ahead of any other split. |
| `Packing.GreedyIsOptimal` | scripts/process-tree-memory.py:2433-2464 | A split into at most `limit` segments exists just when greedy uses at most `limit`. |
| `Packing.PackGrows` | scripts/process-tree-memory.py:2444-2464 | More lines never need fewer segments. |
| `Packing.PutHolds` | scripts/process-tree-memory.py:2444-2464 | One more line keeps the pieces non-empty and within bounds, and a rollover never closes an empty piece. |
| `SegmentNames.SegmentNamesDiffer` | scripts/process-tree-memory.py:2413-2414 | Segments have different names. |
| `SegmentNames.SegmentNameIsRaw` | scripts/process-tree-memory.py:1923-1944 | A raw prefix makes names that count as raw segments. |
| `SegmentNames.OnlyRawPrefixes` | scripts/process-tree-memory.py:1923-1944 | No other prefix does. |
| `SegmentNames.RawIsNotForbidden` | scripts/process-tree-memory.py:1923-1944 | A raw segment is never taken for an artifact of another kind. |
| `SegmentNames.RawNameIff` | scripts/process-tree-memory.py:1934-1943 | A name counts as a raw segment exactly when it has no separator and is a stem, `-memory-raw-v2-`, six digits and `.ndjson`. |
| `SegmentNames.ForbiddenIff` | scripts/process-tree-memory.py:1924-1933 | It is one of another kind exactly when it has no separator and is a stem and `-memory-summary-v1.json`, `-memory-raw-v1.ndjson`, or, unless it is the selected one, `-memory-summary-v2.json`. |
| `SegmentWriter.SegmentedRawWriter.Open` | scripts/process-tree-memory.py:2377-2411 | Each error exactly on its cause, else an empty writer. |
| `SegmentWriter.SegmentedRawWriter.constructor` | scripts/process-tree-memory.py:2395-2411 | The first segment is open and empty. |
| `SegmentWriter.SegmentedRawWriter.Rollover` | scripts/process-tree-memory.py:2433-2442 | Never closes an empty segment; refuses exactly at the segment bound, or when a file of the next name was there from the start. |
| `SegmentWriter.SegmentedRawWriter.CloseEntry` | scripts/process-tree-memory.py:2416-2431 | The manifest entries tile 0..count-1 with each segment's size and digest. |
| `SegmentWriter.SegmentedRawWriter.Append` | scripts/process-tree-memory.py:2458-2464 | The encoded record is appended to the open file and to all counters and digests. |
| `SegmentWriter.SegmentedRawWriter.Write` | scripts/process-tree-memory.py:2444-2464 | The files hold exactly the encoded records, packed greedily; "too large" iff the record alone does not fit, "too many segments" iff no contiguous split does, "file exists" iff the next segment's name was there from the start. |
| `SegmentWriter.SegmentedRawWriter.Finish` | scripts/process-tree-memory.py:2466-2468 | The manifest of all segments, or the error for an empty one, which is that nothing was written. |
| `SegmentCheck.ReadLinesOfLines` | scripts/process-tree-memory.py:2148-2157 | Reading back the concatenation of lines yields the lines. |
| `SegmentCheck.CheckLines` | scripts/process-tree-memory.py:2148-2166 | The line loop takes a segment iff every line decodes and the stream validator takes every record. |
| `SegmentCheck.CheckSegment` | scripts/process-tree-memory.py:2100-2180 | One segment passes iff its entry, bytes, digest, count and records do. |
| `SegmentCheck.Conclude` | scripts/process-tree-memory.py:2181-2214 | The final checks: names, completeness, totals, digest and batch summary. |
| `SegmentCheck.ValidateSegmentedEvidence` | scripts/process-tree-memory.py:1983-2214 | Accepts iff no foreign artifact is there, the summary is there within 1 MiB and parses, and its declarations all hold. |
| `SegmentCheck.ValidateManifest` | scripts/process-tree-memory.py:2006-2214 | For a parsed summary: accepts iff its header, platform, exit, capacity, segments, names and totals all hold. |
| `SegmentCheck.ValidateHeader` | scripts/process-tree-memory.py:2017-2086 | The checks before any segment is read: prefix, bounds, platform, exit, count and capacity identity. |
| `SummaryDetails.ShardsCoverThePlan` | scripts/process-tree-memory.py:1401-1440 | The four shards of a capacity plan take its rows and attempts between them. |
| `SummaryDetails.ValidatePlatform` | scripts/process-tree-memory.py:2046-2071 | The checks on the platform, one after the other. |
| `SummaryDetails.DetailsIff` | scripts/process-tree-memory.py:1401-1440 | Exit and capacity identity pass exactly when the status is clean for code 0 and failed otherwise, and an identity names a plan of 64 hexadecimal digits with 360 rows and 135,000 attempts, or one of its four shards with 90 rows and 33,750 attempts. |
| `SegmentCheck.NamesDecide` | scripts/process-tree-memory.py:2181-2187 | After writing, the raw names are the expected ones iff the prefix is raw and no other raw name was there. |
| `SegmentCheck.WrittenRunIsAcceptedIff` | scripts/process-tree-memory.py:2097-2214 | What the writer wrote and the stream validator accepts passes the manifest loop, under exactly that condition on names, if no line is longer than the reader takes, and if the details are well formed. |
| `SegmentCheck.LongLineFails` | scripts/process-tree-memory.py:2148-2157 | A longer line makes the segments unreadable, wherever it stands. |
| `SegmentCheck.AcceptedMeansCompleteRun` | scripts/process-tree-memory.py:2097-2214 | An accepted manifest's files, in declared order, are records 0..n-1 of a complete run with the declared totals, each file holding its range, no other raw file being there; the summary's statistics and event counts are those of these records, field by field. Exit, capacity identity, platform and bounds are sound. |
| `SegmentCheck.RangesTile` | scripts/process-tree-memory.py:2100-2122 | The declared ranges tile without gap or overlap. |
| `SegmentCheck.WrittenSegmentReads` | scripts/process-tree-memory.py:2100-2180 | Each segment that the writer stored, its lines within the bound, passes on its own and yields its slice of the records. |
| `SegmentCheck.CheckLine` | scripts/process-tree-memory.py:2148-2163 | One line is taken iff it is well made, decodes and the stream goes on. |
| `SegmentCheck.DecodedIff` | scripts/process-tree-memory.py:2148-2160 | Lines yield these records exactly when each is at most 8 MiB long, holds something before its LF, does not end in CR LF, and decodes to the record at its place. |
| `MeasurementRun.TakeRecord` | scripts/process-tree-memory.py:2614-2616 | Writer, validator and accumulator stay in step record by record, or one of them has its reason to refuse. |
| `MeasurementRun.Measure` | scripts/process-tree-memory.py:2553-2651 | From the open writer on: a run that stops has a cause, and a run that finishes met every condition and left segments and summary as specified. |
| `MeasurementRun.Publish` | scripts/process-tree-memory.py:2625-2651 | Finishing, writing the summary beside the segments and reading back: accepted exactly under the run's condition. |
| `MeasurementRun.RunMeasurement` | scripts/process-tree-memory.py:2511-2652 | Finishes iff the destination is free, the bounds are legal, all lines fit and can be split within 1024 segments under free names, the records are a complete run and the capacity identity is sound; each other end has its cause. A finished run leaves the greedy segments and the summary, and reading back accepts them iff prefix, directory, summary name, line and summary lengths and platform are as the reader wants. The summary of a finished run tells its records, field by field, with the run's own platform, exit and capacity identity. |
| `MeasurementRun.ConcludedTells` | scripts/process-tree-memory.py:2630-2652 | In a run that was concluded every record tells its parts, and the summary's statistics and event counts are counted over exactly these records. |
| `MeasurementRun.PublishedIff` | scripts/process-tree-memory.py:2645-2651 | With the summary in the directory, reading back accepts exactly under that condition. |
| `MeasurementRun.StoppedIsNotThrough` | scripts/process-tree-memory.py:2553-2651 | Each cause to stop contradicts a condition for finishing. |
| `MeasurementRun.UsualNamesPass` | scripts/process-tree-memory.py:42-43 | The names that runs are given by default and for the host smoke meet the conditions on names. |
| `MeasurementRun.SummaryRefusesItself` | scripts/process-tree-memory.py:1955-1980 | A summary named like a first-generation artifact or like a segment passes the destination check and is never accepted, not even in an empty directory. |
| `MeasurementRun.LongNamesRefuse` | scripts/process-tree-memory.py:1994-1998 | 1024 segments under a legal prefix of control characters make a summary too long to be read back. |
| `MeasurementRun.SampledRunIff` | scripts/process-tree-memory.py:2553-2624 | The records of idle control and loop are numbered as the writer numbers them, and the validator rejects them only for a loop that starts at the last idle reading or takes a single sample. |
| `MeasurementRun.OtherSegmentIsNotSeen` | scripts/process-tree-memory.py:2526-2533 | The destination check does not see another run's segment, and that segment makes reading back refuse. |
| `RustTokens.LexPartitions` | scripts/check-distribution-readiness.py:271-337 | The lexemes partition the source in order, none empty. |
| `RustTokens.JumpIsScan` | scripts/check-distribution-readiness.py:282-296 | Jumping from marker to marker is the character-by-character scan of nesting depth. |
| `RustTokens.CommentIsNested` | scripts/check-distribution-readiness.py:282-296 | A block comment ends where the grammar of nested comments has it end, whatever way its body is read, and is unterminated exactly when none does. |
| `RustTokens.BlockComment` | scripts/check-distribution-readiness.py:282-296 | A nested block comment ends at the first return to depth zero, or is unterminated. |
| `RustTokens.Quoted` | scripts/check-distribution-readiness.py:312-328 | A quoted literal ends at the first closing quote with an even run of backslashes before it, or is unterminated exactly when there is none. |
| `RustTokens.QuotedEndIff` | scripts/check-distribution-readiness.py:312-328 | A literal ends at n exactly when the character before n is the quote, the run of backslashes in front of it within the literal is even, and no earlier place has both. |
| `RustTokens.QuotedNeverEnds` | scripts/check-distribution-readiness.py:312-328 | It is unterminated exactly when no place has both. |
| `RustTokens.NextTells` | scripts/check-distribution-readiness.py:274-336 | The first lexeme of any text, told by its characters: white space, line comment, nested comment, raw literal up to the quote with as many hashes, quoted literal, longest name, else one character. |
| `RustTokens.LexemeIsOne` | scripts/check-distribution-readiness.py:274-336 | No other lexeme fits that description. |
| `RustTokens.TokenLength` | scripts/check-distribution-readiness.py:297-336 | The literal, identifier and single-character branches. |
| `RustTokens.LexemeAt` | scripts/check-distribution-readiness.py:274-336 | The branches in the order they are tried. |
| `RustTokens.RustTokens` | scripts/check-distribution-readiness.py:271-337 | The loop ends and returns the tokens of the one list of lexemes that so describes the source, or fails exactly when there is none, which is that some lexeme is unterminated. |
| `RustTokens.LexIff` | scripts/check-distribution-readiness.py:271-337 | A list of lexemes is the one read exactly when it is the source cut up, each told by its characters. |
| `RustTokens.TokensTellIff` | scripts/check-distribution-readiness.py:271-337 | A list of tokens is returned exactly when it is that of such a list of lexemes, and none is exactly when there is no such list. |
| `RustTokens.TokenTextsTell` | scripts/check-distribution-readiness.py:330-337 | The tokens are the texts of the lexemes that are no blanks, each at its place in order. |
| `RustTokens.NextStable` | scripts/check-distribution-readiness.py:274-336 | The lexeme at a place does not depend on what follows it, short of the clashes. |
| `RustTokens.TriviaHasNoTokens` | scripts/check-distribution-readiness.py:275-296 | White space and comments in front change nothing. |
| `RustTokens.ClashBreaks` | scripts/check-distribution-readiness.py:278-336 | A clash does change the lexeme read. |
| `RustTokens.BlanksAreInert` | scripts/check-distribution-readiness.py:271-337 | Replacing a blank after a token keeps the lexemes before it if and only if the new blank does not clash with that token, and then no token changes. |
| `RustTokens.TokensTell` | scripts/check-distribution-readiness.py:271-337 | If some lexeme is read differently, the list of tokens is another, unless that is a slash that becomes a comment. |
| `RustTokens.TokensKeptIff` | scripts/check-distribution-readiness.py:271-337 | Any text with the same tokens put in place of another behind a token keeps all tokens if and only if every lexeme in front is read as it was, or a slash there becomes a comment that leaves a slash and the old tokens again. |
| `RustTokens.RemovalKeepsTokensIff` | scripts/check-distribution-readiness.py:271-337 | The same for removing a blank altogether, where tokens may merge. |
| `RustTokens.NameMergesIff` | scripts/check-distribution-readiness.py:297-333 | Removing the blank behind a name keeps the tokens if and only if what follows neither continues the name nor makes it the prefix of a literal. |
| `RustTokens.SlashClashIff` | scripts/check-distribution-readiness.py:278-296 | When a slash becomes a comment, the list of tokens stays the same exactly when the comment leaves a slash and then the old tokens. |
| `RustTokens.BlanksKeepTokensIff` | scripts/check-distribution-readiness.py:271-337 | Replacing a blank after a token, a last line comment included, keeps the list of tokens if and only if the new blank does not clash with that token or is such a block comment; for a blank that starts with white space, if and only if it does not clash. |
| `RustTokens.HarmlessSlashClash` | scripts/check-distribution-readiness.py:278-296 | There is such a block comment. |
| `RustTokens.SlashClash` | scripts/check-distribution-readiness.py:278-296 | A slash before a comment is such a clash. |
| `RustTokens.QuoteClash` | scripts/check-distribution-readiness.py:306-328 | A lone quote around one blank is another. |
| `RustTokens.EmptyCharacterClash` | scripts/check-distribution-readiness.py:306-328 | An empty character literal is a third. |
| `Tar.CanonicalOctalIff` | scripts/check-distribution-readiness.py:1243-1247 | A field is read as n exactly when it is the canonical spelling of n. |
| `Tar.CanonicalStringIff` | scripts/check-distribution-readiness.py:1236-1240 | A field is read as a text exactly when it is that NUL-free UTF-8 text, NUL-padded. |
| `Tar.ChecksumFitsSevenDigits` | scripts/check-distribution-readiness.py:1565-1568 | Seven octal digits always hold the checksum. |
| `Tar.RawHeaderWithChecksum` | scripts/check-distribution-readiness.py:1565-1568 | The header is changed in its checksum field only, to the canonical checksum. |
| `Tar.HeaderIff` | scripts/check-distribution-readiness.py:1250-1275 | A header block is accepted as h exactly when it is the canonical block of h. |
| `Tar.ReadMember` | scripts/check-distribution-readiness.py:1283-1323 | One turn of the loop reads exactly the member at the offset. |
| `Tar.RawTarPaths` | scripts/check-distribution-readiness.py:1278-1326 | The loop over an advancing offset is the archive grammar; every path returned is clean. |
| `Tar.CanonicalPathIff` | scripts/check-distribution-readiness.py:1309-1314 | A name is canonical exactly when it starts with the prefix, has no backslash, and goes on, not empty, as a clean path: a lone dot, or after no, one or two slashes only components that are neither empty nor a dot; one or two slashes may stand alone. |
| `Tar.PosixTextIff` | scripts/check-distribution-readiness.py:1312-1313 | A path is what normalizing it gives exactly when it is clean in this sense. |
| `Tar.AcceptedBlockTells` | scripts/check-distribution-readiness.py:1251-1274 | An accepted header block spells name, mode, size, kind and checksum at their places, the checksum being the sum of its bytes with blanks for the field, and zeros elsewhere. |
| `Tar.OctalValueTells` | scripts/check-distribution-readiness.py:1243-1247 | The value of octal digits by their places. |
| `Tar.WrittenArchiveParses` | scripts/check-distribution-readiness.py:1278-1326 | Reading inverts writing. |
| `Tar.AcceptedArchiveIsCanonical` | scripts/check-distribution-readiness.py:1278-1326 | Every byte of an accepted archive is accounted for. |
| `Tar.AcceptsExactlyCanonicalArchives` | scripts/check-distribution-readiness.py:1278-1326 | Accepted iff it is a concatenation of canonical header, data and zero padding, then exactly two zero blocks; the paths are the entries' names. |
| `Tar.EncodedEntryParses` | scripts/check-distribution-readiness.py:1283-1323 | One written entry in front of anything is read as itself. |
| `Tar.WithChecksumIff` | scripts/check-distribution-readiness.py:1565-1568 | It is the one block that agrees with the header outside the field and carries its own checksum in it. |
| `PackageText.EquivalentIffCrlfConversion` | scripts/check-distribution-readiness.py:1062-1080 | Equivalent iff equal, or, under the LF policy, a complete CRLF conversion of a UTF-8 text without NUL or CR. |
| `PackageText.PaxRecord` | scripts/check-distribution-readiness.py:1596-1603 | The record's length counts its own digits, and is the least that does. |
| `PackageText.TwoLengthsCanDescribe` | scripts/check-distribution-readiness.py:1596-1603 | It need not be the only one. |
| `Paging.CollectRows` | src/context_application.rs:2467-2493 | The row loop returns the rows fetched, or fails on the first invalid one. |
| `Paging.ShowCompiledContext` | src/context_application.rs:2309-2535 | One page of the table, or the error. Every row shown is a valid row of the table with the workspace and the session asked for, version 1.0.0 and a rowid within the watermark, in order behind the cursor, and none that is due is passed over. A cursor is stale exactly when the row at it is gone or the rows that it counted and digested are not the same. |
| `Paging.ShowPageTells` | src/context_application.rs:2388-2535 | So does the answer as a function, with the conditions written out on the rows. |
| `Paging.FreshIff` | src/context_application.rs:2388-2416 | The freshness checks hold exactly when some row of the scope within the watermark has the key of the cursor, and the rows of the scope within the watermark, all and those up to that key, have the count and the digests that it carries. |
| `Decimal.LessIff` | src/context_application.rs:2388-2535 | Texts are ordered by the first byte in which they differ, or by which ends first. |
| `Paging.OrderedCut` | src/context_application.rs:2450-2456 | Rows after and through a key are the two parts of the ordered listing. |
| `Paging.FirstCursorIsAtStart` | src/context_application.rs:2416-2446 | Without a cursor the snapshot is every matching row. |
| `Paging.PageIsNextSlice` | src/context_application.rs:2447-2535 | A page is the next slice of the snapshot, and its cursor stands after it. |
| `Paging.RestAfterCursor` | src/context_application.rs:2450-2456 | The rows after a cursor are the rest of its snapshot. |
| `Paging.ThroughLast` | src/context_application.rs:2501-2508 | The prefix digested for the next cursor ends with the page's last row. |
| `Paging.FreshIffUnchanged` | src/context_application.rs:2388-2414 | A cursor is fresh exactly when the rows up to its watermark are those of its snapshot. |
| `Paging.PagesAreTheSnapshot` | src/context_application.rs:2309-2535 | Under any changes between reads and any limits, the rows so far are a prefix of the first snapshot, in order, without skip or repeat, and the whole of it when no cursor is left. |
| `Paging.RunTells` | src/context_application.rs:2309-2535 | A run of pages returns each row of the first table with its workspace, session and version and a key that is not empty at most once and in order, no other row, and once its cursor is gone all of them. |
| `Paging.NextPage` | src/context_application.rs:2388-2414 | Stale exactly when the snapshot's rows have changed, else the next slice. |
| `Paging.RowsBeyondWatermarkAreInvisible` | src/context_application.rs:2169-2211 | Rows added after the watermark neither appear nor cause Stale. |
| `Paging.OnlyTheEmptyKeyIsHidden` | src/context_application.rs:2435-2456 | The first page hides a row exactly when its creation time and id are both empty. |
| `Verdict.PreferredJudges` | src/context_application.rs:1115-1140 | Taking in one more reason keeps the highest-priority one. |
| `Verdict.PartCountsInFull` | src/context_application.rs:1420-1455 | A verdict over part of the evidence counts as all of that part. |
| `Verdict.OrderIsIrrelevant` | src/context_application.rs:1128-1140 | Reordering or repeating evidence changes no verdict. |
| `Verdict.OneVerdictPerSet` | src/context_application.rs:1115-1140 | The verdict is determined by the set of reasons. |
| `Verdict.RequirementDeficit` | src/context_application.rs:1174-1198 | The preferred one of a state's and an omission's reasons. |
| `Verdict.RoleCapabilityOutcome` | src/context_application.rs:1223-1258 | The highest-priority reason of the role's entry and items, none iff there is none. |
| `Verdict.ExactSourceOutcome` | src/context_application.rs:1260-1322 | The same for exact source. |
| `Verdict.RelationshipOutcome` | src/context_application.rs:1324-1354 | The same for relationships. |
| `Verdict.EffectOutcome` | src/context_application.rs:1356-1371 | The same for effects. |
| `Verdict.CoverageOutcome` | src/context_application.rs:1373-1400 | The same for coverage. |
| `Verdict.ValidationOutcome` | src/context_application.rs:1402-1418 | The same for validation, the role included. |
| `Verdict.RequiredRoles` | src/context_application.rs:1420-1441 | The reasons of all required roles, and whether there is one. |
| `Verdict.RequiredRoleClosureOutcome` | src/context_application.rs:1420-1455 | The highest-priority reason over every required role, exact source and validation. |
| `Verdict.DeepCapabilityOutcome` | src/context_application.rs:1457-1480 | Each capability is judged by its own evidence: satisfied exactly when the document shows no reason against it, else with the gravest that it shows. |
| `Verdict.DispatchRealDeep` | src/context_application.rs:1566-1614 | Each request is either satisfied, by the caller or because the document shows no reason against it, or in deficit with the gravest reason that it shows; the route completes iff all are covered. |
| `Verdict.ShowsIff` | src/context_application.rs:1115-1480 | The reasons that count against a capability are those that the fields of the document show: states, omission reasons, evidence, sources, resolutions, budgets and missing parts. |
| `Verdict.JudgedTells` | src/context_application.rs:1115-1124 | A verdict is the gravest reason shown, in the order conflicting, stale, ambiguous, unsupported, omitted for budget, unavailable. |
| `Verdict.RoleSatisfiedIff` | src/context_application.rs:1223-1258 | A role is satisfied iff its entry is met without a reason and every named item is there with sound evidence. |
| `Verdict.ExactSourceSatisfiedIff` | src/context_application.rs:1260-1322 | Exact source is satisfied iff required so, some source is there and each is verified, revalidated, unchanged and confined. |
| `Verdict.ClosureSatisfiedIff` | src/context_application.rs:1420-1455 | The closure is satisfied iff a role is required and every required role, exact source and validation are. |
| `Calendar.CivilIsValid` | src/catalogue.rs:209-218 | Every day count gives a valid Gregorian date (section 5.7 of RFC 3339). |
| `Calendar.CivilSteps` | src/catalogue.rs:209-218 | Consecutive days give consecutive dates. |
| `Calendar.CivilRoundTrip` | src/catalogue.rs:209-218 | Counting the days of the date by the calendar's rule gives the day count back. |
| `Calendar.StampReads` | src/catalogue.rs:194-222 | Every string is a date and a time of day of the form of section 5.6 of RFC 3339, and counting them by the calendar's rule gives the clock reading back. |
| `Calendar.CivilIncreases` | src/catalogue.rs:209-218 | Later days have later dates. |
| `Calendar.StampOrderIff` | src/catalogue.rs:194-222 | For any two times, string order is time order if the years have equally many digits; else the shorter year comes first iff it is at most the leading digits of the longer. |
| `Calendar.StampOrder` | src/catalogue.rs:194-222 | For years up to 9999 string order is time order (section 5.6 of RFC 3339). |
| `Calendar.StampOrderEndsAt10000` | src/catalogue.rs:218-222 | The strings of the year 10000 come before those of all years up to 9999. |
| `Lease.Catalogue.AcquireWriterLease` | src/catalogue.rs:90-146 | Granted iff there is no row, it is the holder's own, or its heartbeat is stale; the upsert keeps the old holder. |
| `Lease.Catalogue.HeartbeatWriterLease` | src/catalogue.rs:149-170 | Succeeds iff the row names the holder. |
| `Lease.Catalogue.ReleaseWriterLease` | src/catalogue.rs:173-179 | Removes the row iff it names the holder. |
| `Lease.Perform` | src/catalogue.rs:90-179 | One call moves the row of its workspace by one step, grants exactly when the step does, and leaves other workspaces alone. |
| `Lease.Replay` | src/catalogue.rs:90-179 | A run of calls leaves the row and the unreleased grants of the run of steps. |
| `Lease.HolderIsFixed` | src/catalogue.rs:126-137 | While the row exists its holder never changes. |
| `Lease.HeartbeatIsCut` | src/catalogue.rs:194-222 | The stored heartbeat is the true one cut to the millisecond. |
| `Lease.TakeoverIff` | src/catalogue.rs:225-233 | Another holder is granted exactly when the heartbeat's age and the fraction of a millisecond that its string lost exceed the limit together; early exactly when the fraction makes the difference. |
| `Lease.TakeoverNeedsStaleness` | src/catalogue.rs:225-233 | So never before the limit less one millisecond, and never early for a heartbeat on a whole millisecond. |
| `Lease.StalenessIsEarlyByTheCut` | src/catalogue.rs:225-233 | A run in which the fraction makes it early. |
| `Lease.ExclusionIffNoTakeover` | src/catalogue.rs:90-179 | Over every interleaving, at most one holder has an unreleased grant at all times iff there was no takeover. |
| `Lease.ExclusionUntilTakeover` | src/catalogue.rs:90-179 | Without a takeover every grant outstanding is the row's holder's. |
| `Lease.StepKeepsExclusion` | src/catalogue.rs:90-179 | Each step keeps that, except a takeover, which makes two. |
| `Lease.AfterTakeover` | src/catalogue.rs:126-179 | After a takeover the new holder can neither refresh nor release, and the old one is granted at once. |
| `Broker.AddOrBump` | src/broker.rs:658-665 | Bumps one key's score, creating it first if new, and leaves all others. |
| `Broker.RankKeeps` | src/broker.rs:410-423 | Ranking loses and invents nothing. |
| `Broker.RankOrders` | src/broker.rs:411-423 | Candidates that the order tells apart are strictly ordered. |
| `Broker.RankTells` | src/broker.rs:411-423 | Along the ranking scores never rise, at equal scores distances never fall, and then paths and symbol keys never fall. |
| `Broker.EntriesTieIff` | src/broker.rs:411-423 | Two entries of a scored map tie exactly when they are an empty symbol key and the path candidate of the same file, at equal score and distance. |
| `Broker.RankingIsDetermined` | src/broker.rs:410-423 | From a fixed scored map without such a tie the ranking is strictly ordered and does not depend on iteration order. |
| `Broker.NoEmptySymbolNoTie` | src/broker.rs:418-423 | Without an empty symbol key there is no tie. |
| `Broker.TieIsUndetermined` | src/broker.rs:410-423 | With a tie, two iteration orders rank differently. |
| `Broker.DeterminedIffNoTie` | src/broker.rs:410-423 | The ranking is independent of iteration order if and only if there is no tie. |
| `Broker.EmptySymbolIsUndetermined` | src/broker.rs:418-423 | A map with such a tie and two orders that show it. |
| `Broker.SelectWithinBudget` | src/broker.rs:425-511 | The selection loop. |
| `Broker.SelectionAccounts` | src/broker.rs:425-511 | The ranking splits into ordered selected and unselected parts, the omitted count is the unselected number, at most 9*max/10 records are kept, and bytes equal the texts returned and respect both limits. |
| `Broker.LeftOutOnlyForBudget` | src/broker.rs:434-471 | A candidate joins the unselected exactly when nine tenths of the record budget are selected before it, or its verified text on top of the bytes used would break the byte limit, the token limit or the integer range; else it joins the selected. |
| `Broker.SelectionGrows` | src/broker.rs:434-511 | Along the ranking both lists, the excerpts and the bytes used only grow. |
| `Broker.ExcerptsTell` | src/broker.rs:434-511 | Every excerpt is of a selected candidate, with the hash that was indexed and the one observed; its status tells them apart, and it holds no text but a verified one. |
| `Broker.SelectedAreExcerpted` | src/broker.rs:434-511 | Every selected candidate of an indexed file has its excerpt, unless only a map is asked for. |
| `Broker.NothingMoreFits` | src/broker.rs:425-511 | No candidate left out could be added to the final selection within the limits. |
| `Broker.CapIsFinal` | src/broker.rs:434-439 | Once the cap is reached nothing more is selected. |
| `Cleanup.EvidenceSuffixIff` | scripts/local-artifact-cleanup.py:212-215 | A scratch file counts as evidence just when its name is longer than one of the extensions and ends in it, in any case. |
| `Cleanup.RetainedAtAnyDepth` | scripts/local-artifact-cleanup.py:162-184 | The recursive test holds iff a verdict file, link or unreadable entry stands somewhere below. |
| `Cleanup.EveryPathIsFiledOnce` | scripts/local-artifact-cleanup.py:187-253 | Every path is filed exactly as its kind and the directories above it demand, once, in one list. |
| `Cleanup.EveryFileIsInOneList` | scripts/local-artifact-cleanup.py:187-253 | Each regular file reached is in exactly one list with its size, and under a preserving directory in the protected one. |
| `Cleanup.ProposedIff` | scripts/local-artifact-cleanup.py:208-234 | A path is proposed iff it is a file that nothing above shields, whose name is not protected and whose class lets it go. |
| `Cleanup.GoesIff` | scripts/local-artifact-cleanup.py:136-234 | A file goes exactly when no directory above it holds an entry named `.atlas-preserve` that can be seen, none above it in a fixture or scratch tree is kept for a verdict, link or unreadable entry, and its name and kind let it go. |
| `Cleanup.KeeperStopsEverything` | scripts/local-artifact-cleanup.py:238-243 | A fixture or scratch tree with a verdict, link or unreadable entry at any depth proposes nothing. |
| `Cleanup.Audit.CollectCandidate` | scripts/local-artifact-cleanup.py:187-253 | The walk appends to the three lists and the identities just what the filing says. |
| `Cleanup.FirstAmbiguous` | scripts/local-artifact-cleanup.py:269-281 | The first directory above a candidate that is a link, no directory or cannot be inspected, unless one before it is absent. |
| `Cleanup.Audit.AmbiguousAncestor` | scripts/local-artifact-cleanup.py:269-281 | The loop finds that directory. |
| `Cleanup.Audit.CollectAll` | scripts/local-artifact-cleanup.py:430-441 | Each candidate is walked, or the ambiguous directory above it is filed instead. |
| `Cleanup.Workspace.Unlink` | scripts/local-artifact-cleanup.py:284-388 | The very file expected goes or no file does, and it is called deleted exactly when nothing went wrong; each other outcome has its cause. |
| `Cleanup.Audit.Apply` | scripts/local-artifact-cleanup.py:450-479 | Exactly the proposed files with an unchanged identity and no hazard are called deleted, each once; the files left are as specified; every other item is reported, or passed over because the workspace itself is gone. |
| `Cleanup.ApplyRemovesExactly` | scripts/local-artifact-cleanup.py:430-479 | Short of hazards a file goes iff some candidate that is reached lets it go, by markers, verdicts and names alone, and it is still the very file seen. |
| `Campaign.SlotCount` | scripts/local-atlas-ab.py:631 | The plan has 2 * tasks * repetitions runs. |
| `Campaign.Harness.WriteManifest` | scripts/local-atlas-ab.py:592-606 | A temporary file and a replacement; both states are recoverable. |
| `Campaign.Harness.RunArm` | scripts/local-atlas-ab.py:680-713 | One record is appended and then described by the manifest. |
| `Campaign.Harness.RunPair` | scripts/local-atlas-ab.py:679-713 | Both arms of one repetition, off first. |
| `Campaign.Harness.RunTask` | scripts/local-atlas-ab.py:677-713 | All repetitions of one task. |
| `Campaign.Harness.Run` | scripts/local-atlas-ab.py:674-719 | The raw file is the whole plan in nested order; every state on the way is recoverable; complete iff the executables are unchanged. |
| `Export.ExpectedPairs` | scripts/benchmark-evidence-export.py:393-400 | The exporter's expected list is the same plan. |
| `Export.AllDistinct` | scripts/benchmark-evidence-export.py:346 | Tasks are distinct. |
| `Export.ReadRecords` | scripts/benchmark-evidence-export.py:401-436 | The record loop fails iff records contradict the manifest or one another. |
| `Export.IdentitySidecar` | scripts/benchmark-evidence-export.py:506-536 | Accepts iff manifest and raw file agree, the hash error exactly when the hash differs, and reports whether the pairing holds. |
| `Export.EveryMomentExports` | scripts/local-atlas-ab.py:674-719 | A crash between any two writes leaves a manifest at most one record behind; then the exporter reports a hash mismatch, else it accepts, with complete pairing exactly for even lengths and "complete" only for all records. |
| `Export.ProvenanceMeansWholePairs` | scripts/benchmark-evidence-export.py:438-449 | Provenance means whole pairs, both arms of a repetition side by side, and no run twice. |
| `Export.CompleteHasEveryRun` | scripts/benchmark-evidence-export.py:438-449 | Complete provenance has every task, repetition and arm. |
| `Campaign.PlanIsPairs` | scripts/local-atlas-ab.py:676-680 | The nested loops go pair by pair: at every even place the arm without, then the same run with. |
| `Campaign.PlanAt` | scripts/local-atlas-ab.py:676-680 | The place of every run in the plan: task by task, repetition by repetition, off and then on. |
| `Campaign.PlanRepeatsNothing` | scripts/local-atlas-ab.py:676-680 | With distinct tasks no run occurs twice. |
| `Export.MomentExports` | scripts/benchmark-evidence-export.py:506-536 | What the exporter says of one recoverable directory. |
| `Export.WholePrefixExports` | scripts/benchmark-evidence-export.py:438-449 | Any described prefix of the plan is accepted, with complete pairing exactly when its length is even. |

## Left out

- Operating system: handles, fsync, links, job objects, processes, sockets and threads; a write of one record or one manifest is one step, so a write torn in the middle is not a state.
- Libraries: SHA-256, JSON, SQLite, rfc3339 parsing and regular expressions; malformed JSON types, missing fields and extra fields are the decoder's refusal.
- MeasurementRun.RunMeasurement: takes the records as a list; that they are those of `SamplingLoop.SampleRun` is joined by `MeasurementRun.SampledRunIff` and not by one call. Errors of progress reports, of the sampled process and of the clock end a run before it gets through and are not among its outcomes. The prefix and the summary's name are taken without path separators, and names are compared byte by byte. Of a glob that does not take the prefix literally (`*`, `?` or `[` in it) nothing is assumed.
- SamplingLoop.SampleRun: what the samplers are shown in one turn is a value; its measurements are valid, its error texts not empty and its labels within bounds, as the code that makes them demands.
- SegmentCheck.ValidateSegmentedEvidence: the parts of the summary that are constant, the digest of the tool itself among them, are part of parsing it; files do not change while they are read, and are regular files with one link.
- Framing.Transport.ReceiveAll: an interruption is a future dropped at the await; an input error, which the service takes for the end, is not modelled, nor is the first message that start-up reads ahead.
- Paging.ShowCompiledContext: does not model the text form, checksum and identity binding of a cursor, nor the lookup by a single context id, whose page is one row.
- Lease.Catalogue.AcquireWriterLease: a stored timestamp that cannot be parsed is not modelled, nor two processes inside one call, since it runs in one transaction.
- Broker.SelectWithinBudget: scores are integers where the source adds floating-point constants, the cap is 9*max/10, and seed expansion and text mentions, which feed the scored map, are not modelled.
- Cleanup.Audit.CollectCandidate: the tree does not change during the walk, names are lower-cased in ASCII, and directories list their children in name order.
- Cleanup.Audit.Apply: the order in which reports are sorted and the removal of duplicate unknown items are not modelled; what can go wrong at a path is an input and stays the same while the proposal is applied.
- Verdict.DispatchRealDeep: compiling the document and the counters copied from it are not modelled, nor the LIGHT route, whose counters are sums.
- Campaign.Harness.Run: the result file of each arm is not modelled, and what the runner says is a function of the run.
- Export.IdentitySidecar: fields that are missing or of the wrong type, capacity summaries and executable provenance are not modelled.
- Progress.ProgressReporter.Observe: the set of phases is a parameter.
- Tar.AcceptsExactlyCanonicalArchives: gzip and the second reader over the same archive are not part of this model.
- Unregister preview paging: it slices a list under the same kind of cursor as compiled contexts, over a manifest that is read whole.
- Applying an unregistration, MCP dispatch, configuration, workflow and version text checks: single branches and constants.
