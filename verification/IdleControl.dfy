/** The five-second idle control that starts every run (scripts/process-tree-memory.py). */
module IdleControl {
  import opened Common
  import opened Measurements
  import opened Churn
  import opened RawStream

  datatype Snapshot = Snapshot(observer: Measurement, tree: TreeObservation)

  const IDLE_LABELS: map<string, string> := map[
    "phase" := "idle-control", "filesystem_cache_state" := "uncontrolled",
    "serving_state" := "not-applicable", "provider_cache_install_state" := "not-applicable",
    "build_state" := "sampler-idle", "catalogue_state" := "not-applicable"]

  function IdleRecord(sequence: int, scheduled: int, actual: int, s: Snapshot): Record {
    Record(SCHEMA_VERSION, RAW_KIND, sequence, Idle, scheduled, actual, None, [], IDLE_LABELS, s.observer,
           NotApplicableMeasurement("idle-control"), [], IdleAggregate, SamplingGapOf(scheduled, actual), [], s.tree)
  }

  /** A snapshot as `observe_tree` builds it: a status of observed or gap, a typed error with a gap. */
  predicate TypedSnapshot(s: Snapshot) {
    ValidTree(s.tree) && !s.tree.status.NotApplicable?
  }

  predicate NonDecreasing(readings: seq<int>) {
    forall i, j :: 0 <= i <= j < |readings| ==> readings[i] <= readings[j]
  }

  lemma NeverBack(readings: seq<int>, i: nat, j: nat)
    requires NonDecreasing(readings) && i <= j < |readings|
    ensures readings[i] <= readings[j]
  {
  }

  /** How many readings are used once one at or past the schedule is found, if there is one. */
  function Waited(readings: seq<int>, clock: nat, scheduled: int): (next: Option<nat>)
    ensures next.Some? ==> clock < next.value <= |readings| && readings[next.value - 1] >= scheduled
                           && forall k :: clock <= k < next.value - 1 ==> readings[k] < scheduled
    ensures next.None? ==> forall k :: clock <= k < |readings| ==> readings[k] < scheduled
    decreases |readings| - clock
  {
    if clock >= |readings| then None
    else if readings[clock] >= scheduled then Some(clock + 1)
    else Waited(readings, clock + 1, scheduled)
  }

  /** How many are used once `n` samples in a row, from a schedule on, were waited for. */
  function Waits(readings: seq<int>, clock: nat, scheduled: int, n: nat): (next: Option<nat>)
    ensures next.Some? ==> clock <= next.value && (n > 0 ==> clock < next.value <= |readings|)
    decreases n
  {
    if n == 0 then Some(clock)
    else match Waited(readings, clock, scheduled)
      case None => None
      case Some(next) => Waits(readings, next, scheduled + CADENCE_NS, n - 1)
  }

  lemma WaitsStep(readings: seq<int>, clock: nat, scheduled: int, n: nat)
    requires n > 0
    ensures Waits(readings, clock, scheduled, n)
            == match Waited(readings, clock, scheduled)
               case None => None
               case Some(next) => Waits(readings, next, scheduled + CADENCE_NS, n - 1)
  {
    hide Waited;
  }

  /** The readings last for `n` samples exactly when there are that many and each of the last `n`
      is at or past the schedule of its sample. */
  lemma {:induction false} ReadingsLastIff(readings: seq<int>, clock: nat, scheduled: int, n: nat)
    requires NonDecreasing(readings) && clock <= |readings|
    ensures Waits(readings, clock, scheduled, n).Some? <==>
              clock + n <= |readings|
              && forall k :: |readings| - n <= k < |readings| ==>
                   readings[k] >= scheduled + (k - (|readings| - n)) * CADENCE_NS
    decreases n
  {
    hide Waited, NonDecreasing;
    if n > 0 {
      WaitsStep(readings, clock, scheduled, n);
      match Waited(readings, clock, scheduled)
      case Some(next) =>
        ReadingsLastIff(readings, next, scheduled + CADENCE_NS, n - 1);
        if next + (n - 1) <= |readings| {
          NeverBack(readings, next - 1, |readings| - n);
        } else if clock + n <= |readings| {
          assert readings[|readings| - n] < scheduled;
        }
      case None =>
        if clock + n <= |readings| {
          assert readings[|readings| - n] < scheduled;
        }
    }
  }

  /** `wait_until_scheduled`: read the clock until the schedule is reached. `next` is the number
      of readings used; `None` means that the readings given ran out. */
  method WaitUntilScheduled(scheduled: int, readings: seq<int>, clock: nat) returns (actual: Option<int>, next: nat)
    requires clock <= |readings|
    ensures clock <= next <= |readings|
    ensures actual.Some? ==> clock < next && actual.value == readings[next - 1] && actual.value >= scheduled
    ensures actual.Some? ==> forall k :: clock <= k < next - 1 ==> readings[k] < scheduled
    ensures actual.None? ==> next == |readings| && forall k :: clock <= k < |readings| ==> readings[k] < scheduled
    ensures Waited(readings, clock, scheduled) == if actual.Some? then Some(next) else None
  {
    next := clock;
    while next < |readings|
      invariant clock <= next <= |readings|
      invariant forall k :: clock <= k < next ==> readings[k] < scheduled
    {
      next := next + 1;
      if readings[next - 1] >= scheduled {
        return Some(readings[next - 1]), next;
      }
    }
    return None, next;
  }

  /** Idle records on the grid that starts at `start`, never early, times in order. */
  ghost predicate OnSchedule(rs: seq<Record>, start: int, snapshots: seq<Snapshot>) {
    && |rs| <= |snapshots|
    && (forall i :: 0 <= i < |rs| ==>
          rs[i] == IdleRecord(i, start + i * CADENCE_NS, rs[i].actual, snapshots[i])
          && rs[i].actual >= start + i * CADENCE_NS && ValidMeasurement(snapshots[i].observer))
    && (forall i :: 0 < i < |rs| ==> rs[i - 1].actual <= rs[i].actual)
  }

  lemma NothingOnSchedule(start: int, snapshots: seq<Snapshot>)
    ensures OnSchedule([], start, snapshots) && IDLE_SAMPLES > 0
  {
  }

  lemma OneMoreOnSchedule(rs: seq<Record>, start: int, snapshots: seq<Snapshot>, actual: int)
    requires OnSchedule(rs, start, snapshots) && |rs| < |snapshots|
    requires actual >= start + |rs| * CADENCE_NS && ValidMeasurement(snapshots[|rs|].observer)
    requires rs == [] || rs[|rs| - 1].actual <= actual
    ensures var r := IdleRecord(|rs|, start + |rs| * CADENCE_NS, actual, snapshots[|rs|]);
            r.actual == actual && OnSchedule(rs + [r], start, snapshots)
  {
    hide ValidMeasurement;
  }

  /** `collect_idle_control` from sequence zero. `None` is the readings running out, or
      an observer measurement that is not valid. `clock` is how many readings were used. */
  method CollectIdleControl(readings: seq<int>, snapshots: seq<Snapshot>) returns (r: Option<seq<Record>>, clock: nat)
    requires NonDecreasing(readings) && |readings| > 0 && |snapshots| == IDLE_SAMPLES
    ensures r.Some? ==> |r.value| == IDLE_SAMPLES && OnSchedule(r.value, readings[0], snapshots)
    ensures r.Some? ==> 0 < clock <= |readings| && r.value[IDLE_SAMPLES - 1].actual == readings[clock - 1]
    ensures r.Some? ==> Waits(readings, 1, readings[0], |snapshots|) == Some(clock)
    ensures r.Some? <==> AllObservable(snapshots) && Waits(readings, 1, readings[0], |snapshots|).Some?
  {
    hide *;
    NothingOnSchedule(readings[0], snapshots);
    var start := readings[0];
    clock := 1;
    var records: seq<Record> := [];
    for index := 0 to IDLE_SAMPLES
      invariant |records| == index && 0 < clock <= |readings| && OnSchedule(records, start, snapshots)
      invariant index > 0 ==> records[index - 1].actual == readings[clock - 1]
      invariant Waits(readings, 1, start, |snapshots|)
                == Waits(readings, clock, start + index * CADENCE_NS, |snapshots| - index)
    {
      var scheduled := start + index * CADENCE_NS;
      var actual, next := WaitUntilScheduled(scheduled, readings, clock);
      WaitsStep(readings, clock, scheduled, |snapshots| - index);
      if actual.None? {
        return None, clock;
      }
      NeverBack(readings, clock - 1, next - 1);
      clock := next;
      var snapshot := snapshots[index];
      if !ValidMeasurement(snapshot.observer) {
        assert !AllObservable(snapshots) by { Observable(snapshots, index); }
        return None, clock;
      }
      OneMoreOnSchedule(records, start, snapshots, actual.value);
      records := records + [IdleRecord(index, scheduled, actual.value, snapshot)];
    }
    WaitsNone(readings, clock, start + IDLE_SAMPLES * CADENCE_NS);
    ScheduledAreObservable(records, start, snapshots);
    return Some(records), clock;
  }

  lemma Observable(snapshots: seq<Snapshot>, i: nat)
    requires i < |snapshots|
    ensures AllObservable(snapshots) ==> ValidMeasurement(snapshots[i].observer)
  {
    hide ValidMeasurement;
  }

  lemma ScheduledAreObservable(rs: seq<Record>, start: int, snapshots: seq<Snapshot>)
    requires OnSchedule(rs, start, snapshots) && |rs| == |snapshots|
    ensures AllObservable(snapshots)
  {
    hide ValidMeasurement, IdleRecord;
  }

  lemma WaitsNone(readings: seq<int>, clock: nat, scheduled: int)
    ensures Waits(readings, clock, scheduled, 0) == Some(clock)
  {
  }

  predicate AllObservable(snapshots: seq<Snapshot>) {
    forall i :: 0 <= i < |snapshots| ==> ValidMeasurement(snapshots[i].observer)
  }

  lemma IdleRecordIsWellFormed(sequence: int, scheduled: int, actual: int, s: Snapshot)
    requires 0 <= scheduled <= actual && ValidMeasurement(s.observer) && TypedSnapshot(s)
    ensures WellFormed(IdleRecord(sequence, scheduled, actual, s))
  {
    assert forall k :: k in IDLE_LABELS ==> 0 < |IDLE_LABELS[k]| <= 256 && '\0' !in IDLE_LABELS[k];
    assert PidsOf([]) == [];
  }

  /** Under any clock that does not go back, the idle control is a prefix that the stream
      validator accepts, and it meets the idle part of `finish`. */
  lemma IdleControlIsAccepted(rs: seq<Record>, start: int, snapshots: seq<Snapshot>, maximum: int)
    requires OnSchedule(rs, start, snapshots) && |rs| == IDLE_SAMPLES && start >= 0 && maximum >= IDLE_SAMPLES
    requires forall s :: s in snapshots ==> TypedSnapshot(s)
    ensures Fold(rs, maximum).Some?
    ensures var st := Fold(rs, maximum).value;
            st.idleCount == IDLE_SAMPLES && st.firstIdle == Some(start) && st.lastIdle == Some(start + IDLE_DURATION_NS)
  {
    hide WellFormed, ValidMeasurement, TypedSnapshot, Step;
    IdleIsChained(rs, start, snapshots, maximum);
    FoldIsChained(rs, maximum);
    IdlesCounts(rs, IDLE_SAMPLES);
  }

  lemma IdleIsChained(rs: seq<Record>, start: int, snapshots: seq<Snapshot>, maximum: int)
    requires OnSchedule(rs, start, snapshots) && |rs| <= maximum && start >= 0
    requires forall s :: s in snapshots ==> TypedSnapshot(s)
    ensures Chained(rs, maximum)
  {
    hide WellFormed, ValidMeasurement, TypedSnapshot, FirstShown, RetainedBy;
    forall i | 0 <= i < |rs| ensures rs[i].sequence == i && WellFormed(rs[i]) {
      assert snapshots[i] in snapshots;
      IdleRecordIsWellFormed(i, start + i * CADENCE_NS, rs[i].actual, snapshots[i]);
    }
    forall i | 0 < i < |rs| ensures Link(rs[i - 1], rs[i]) {
      assert rs[i].scheduled - rs[i - 1].scheduled == CADENCE_NS;
    }
  }
}
