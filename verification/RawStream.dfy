/** Raw memory records and the validator that reads them one by one
    (scripts/process-tree-memory.py). */
module RawStream {
  import opened Common
  import opened Measurements
  import opened Churn
  import opened Sorting

  const SCHEMA_VERSION := "1.0.0"
  const RAW_KIND := "process-tree-memory-sample"
  const IDLE_DURATION_NS := 5_000_000_000
  const IDLE_SAMPLES := 101
  const MAX_RAW_SAMPLES := 200_000

  const LABEL_KEYS := {"phase", "filesystem_cache_state", "serving_state",
                       "provider_cache_install_state", "build_state", "catalogue_state"}

  datatype Control = Idle | Campaign

  datatype TreeObservation = TreeObservation(status: Status, error: Option<ErrorInfo>)

  datatype RecordAggregate = IdleAggregate | CampaignAggregate(totals: Aggregate)

  datatype Record = Record(
    schemaVersion: string, kind: string, sequence: int, control: Control,
    scheduled: int, actual: int, atlasPid: Option<int>, descendantPids: seq<int>,
    labels: map<string, string>, observer: Measurement, atlas: Measurement, providers: seq<Measurement>,
    aggregate: RecordAggregate, samplingGap: SamplingGap, childEvents: seq<Event>, tree: TreeObservation)

  // --------------------------------------------------- checks on one record alone

  predicate ValidLabels(labels: map<string, string>) {
    && labels.Keys == LABEL_KEYS
    && forall k :: k in labels ==> 0 < |labels[k]| <= 256 && '\0' !in labels[k]
  }

  function PidsOf(ms: seq<Measurement>): seq<int> {
    if ms == [] then [] else (match ms[0].pid case Some(p) => [p] case None => []) + PidsOf(ms[1..])
  }

  predicate ValidTree(tree: TreeObservation) {
    if tree.status.Gap? then tree.error.Some? && tree.error.value.kind != "" && tree.error.value.detail != ""
    else tree.error.None?
  }

  /** The checks `observe` makes on a record without looking at earlier ones. */
  predicate WellFormed(r: Record) {
    && r.schemaVersion == SCHEMA_VERSION && r.kind == RAW_KIND
    && 0 <= r.scheduled <= r.actual
    && ValidLabels(r.labels) && ValidMeasurement(r.observer) && ValidMeasurement(r.atlas) && AllValid(r.providers)
    && r.descendantPids == PidsOf(r.providers) && StrictlySorted(r.descendantPids)
    && ValidTree(r.tree)
    && r.samplingGap == SamplingGapOf(r.scheduled, r.actual)
    && match r.control
       case Idle =>
         && r.atlasPid.None? && r.atlas.status.NotApplicable? && r.providers == []
         && !r.tree.status.NotApplicable? && r.aggregate.IdleAggregate? && r.childEvents == []
       case Campaign =>
         && r.atlasPid.Some? && r.atlasPid.value > 0 && r.atlasPid == r.atlas.pid
         && ConcurrentTotals(r.atlas, r.providers, r.tree.status.Observed?).Some?
         && r.aggregate == CampaignAggregate(ConcurrentTotals(r.atlas, r.providers, r.tree.status.Observed?).value)
  }

  /** The identity a campaign record shows for Atlas, when it observed it. */
  function ShownIdentity(r: Record): Option<string> {
    if r.control.Campaign? && r.atlas.status.Observed? then r.atlas.identity else None
  }

  // ------------------------------------------------------------------ the validator

  datatype State = State(
    count: nat, previousTime: int, previousScheduled: int, previousProviders: Identities,
    previousControl: Option<Control>, atlasIdentity: Option<string>, idleCount: nat, campaignCount: nat,
    firstIdle: Option<int>, lastIdle: Option<int>, finalAtlas: Option<Measurement>)

  const START := State(0, -1, -1, map[], None, None, 0, 0, None, None, None)

  /** The order of controls and times. */
  predicate Ordered(st: State, r: Record) {
    && (st.campaignCount > 0 ==> r.control.Campaign?)
    && r.actual >= st.previousTime
    && (st.previousScheduled >= 0 ==>
          if Some(r.control) == st.previousControl then r.scheduled - st.previousScheduled == CADENCE_NS
          else r.scheduled > st.previousTime)
  }

  /** What `observe` demands of a record after what it has seen. */
  predicate Follows(st: State, maximum: int, r: Record) {
    && st.count < maximum && r.sequence == st.count && Ordered(st, r)
    && (ShownIdentity(r).Some? && st.atlasIdentity.Some? ==> ShownIdentity(r) == st.atlasIdentity)
    && (r.control.Campaign? ==>
          r.childEvents == DescendantEvents(st.previousProviders, r.providers)
          && Retained(st.previousProviders, r.providers).Some?)
  }

  function Advance(st: State, r: Record): State {
    State(st.count + 1, r.actual, r.scheduled,
          if r.control.Campaign? then RetainAll(st.previousProviders, r.providers) else st.previousProviders,
          Some(r.control),
          if st.atlasIdentity.None? then ShownIdentity(r) else st.atlasIdentity,
          if r.control.Idle? then st.idleCount + 1 else st.idleCount,
          if r.control.Campaign? then st.campaignCount + 1 else st.campaignCount,
          if r.control.Idle? && st.firstIdle.None? then Some(r.scheduled) else st.firstIdle,
          if r.control.Idle? then Some(r.scheduled) else st.lastIdle,
          Some(r.atlas))
  }

  /** `observe`; `None` is any of its errors. */
  function Step(st: State, maximum: int, r: Record): Option<State> {
    if Follows(st, maximum, r) && WellFormed(r) then Some(Advance(st, r)) else None
  }

  function Fold(records: seq<Record>, maximum: int): Option<State> {
    if records == [] then Some(START)
    else match Fold(records[..|records| - 1], maximum)
      case None => None
      case Some(st) => Step(st, maximum, records[|records| - 1])
  }

  /** `finish` */
  predicate Finishes(st: State) {
    && st.count > 0 && st.idleCount == IDLE_SAMPLES
    && st.firstIdle.Some? && st.lastIdle.Some? && st.lastIdle.value - st.firstIdle.value == IDLE_DURATION_NS
    && st.campaignCount >= 2
    && st.finalAtlas.Some? && st.finalAtlas.value.status.Gap? && Ends(st.finalAtlas.value)
  }

  /** `validate_raw_records` */
  predicate Accepts(records: seq<Record>, maximum: int) {
    Fold(records, maximum).Some? && Finishes(Fold(records, maximum).value)
  }

  class RawRecordStreamValidator {
    const maximum: int
    var count: nat
    var previousTime: int
    var previousScheduled: int
    var previousProviders: Identities
    var previousControl: Option<Control>
    var atlasIdentity: Option<string>
    var idleCount: nat
    var campaignCount: nat
    var firstIdle: Option<int>
    var lastIdle: Option<int>
    var finalAtlas: Option<Measurement>

    function Now(): State
      reads this
    {
      State(count, previousTime, previousScheduled, previousProviders, previousControl, atlasIdentity,
            idleCount, campaignCount, firstIdle, lastIdle, finalAtlas)
    }

    constructor (maximum: int)
      ensures Now() == START && this.maximum == maximum
    {
      this.maximum := maximum;
      count, previousTime, previousScheduled, previousProviders := 0, -1, -1, map[];
      previousControl, atlasIdentity, idleCount, campaignCount := None, None, 0, 0;
      firstIdle, lastIdle, finalAtlas := None, None, None;
    }

    /** `observe`: false is any of its errors, after which the run is abandoned. */
    method Observe(r: Record) returns (ok: bool)
      modifies this
      ensures Step(old(Now()), maximum, r) == if ok then Some(Now()) else None
      ensures ok ==> RecordTells(r)
    {
      WellFormedIff(r);
      hide WellFormed, Advance, DescendantEvents, Retained, RecordTells;
      if !InOrder(r) || !WellFormed(r) {
        return false;
      }
      ok := Update(r);
    }

    method Update(r: Record) returns (ok: bool)
      requires InOrder(r) && WellFormed(r)
      modifies this
      ensures ok == Follows(old(Now()), maximum, r)
      ensures ok ==> Now() == Advance(old(Now()), r)
    {
      hide WellFormed, DescendantEvents, Retained, RetainAll;
      ObservedIsIdentified(r);
      previousTime, previousScheduled, previousControl := r.actual, r.scheduled, Some(r.control);
      if r.control.Idle? {
        idleCount := idleCount + 1;
        if firstIdle.None? {
          firstIdle := Some(r.scheduled);
        }
        lastIdle := Some(r.scheduled);
      } else {
        var consistent := ObserveCampaign(r);
        if !consistent {
          return false;
        }
      }
      finalAtlas := Some(r.atlas);
      count := count + 1;
      return true;
    }

    /** The ordering checks at the head of `observe`. */
    predicate InOrder(r: Record)
      reads this
    {
      && count < maximum && r.sequence == count
      && !(campaignCount > 0 && r.control.Idle?)
      && r.actual >= previousTime
      && (previousScheduled >= 0 ==>
            && (Some(r.control) == previousControl ==> r.scheduled - previousScheduled == CADENCE_NS)
            && (Some(r.control) != previousControl ==> r.scheduled > previousTime))
    }

    /** The campaign branch of `observe`. */
    method ObserveCampaign(r: Record) returns (ok: bool)
      requires r.control.Campaign? && (r.atlas.status.Observed? ==> r.atlas.identity.Some?)
      modifies this`campaignCount, this`atlasIdentity, this`previousProviders
      ensures ok <==>
                (ShownIdentity(r).Some? && old(atlasIdentity).Some? ==> ShownIdentity(r) == old(atlasIdentity))
                && r.childEvents == DescendantEvents(old(previousProviders), r.providers)
                && Retained(old(previousProviders), r.providers).Some?
      ensures ok ==> campaignCount == old(campaignCount) + 1
      ensures ok ==> atlasIdentity == if old(atlasIdentity).None? then ShownIdentity(r) else old(atlasIdentity)
      ensures ok ==> previousProviders == RetainAll(old(previousProviders), r.providers)
    {
      hide DescendantEvents, RetainAll;
      campaignCount := campaignCount + 1;
      if r.atlas.status.Observed? {
        if atlasIdentity.None? {
          atlasIdentity := r.atlas.identity;
        } else if r.atlas.identity != atlasIdentity {
          return false;
        }
      }
      var expected := DescendantEventsOf(previousProviders, r.providers);
      if r.childEvents != expected {
        return false;
      }
      var retained := RetainedDescendantIdentities(previousProviders, r.providers);
      if retained.None? {
        return false;
      }
      previousProviders := retained.value;
      return true;
    }
  }

  lemma ObservedIsIdentified(r: Record)
    requires WellFormed(r)
    ensures r.atlas.status.Observed? ==> r.atlas.identity.Some?
  {
  }

  method ValidateRawRecords(records: seq<Record>, maximum: int, enforceLimit: bool) returns (ok: bool)
    ensures ok <==> maximum > 0 && (enforceLimit ==> maximum <= MAX_RAW_SAMPLES) && Accepts(records, maximum)
  {
    if maximum <= 0 || (enforceLimit && maximum > MAX_RAW_SAMPLES) {
      return false;
    }
    var validator := new RawRecordStreamValidator(maximum);
    for i := 0 to |records|
      invariant Fold(records[..i], maximum) == Some(validator.Now()) && validator.maximum == maximum
    {
      assert records[..i + 1][..i] == records[..i];
      var observed := validator.Observe(records[i]);
      if !observed {
        FoldFailsEarly(records, i + 1, maximum);
        return false;
      }
    }
    assert records[..|records|] == records;
    return Finishes(validator.Now());
  }

  lemma {:induction false} FoldFailsEarly(records: seq<Record>, n: nat, maximum: int)
    requires n <= |records| && Fold(records[..n], maximum).None?
    ensures Fold(records, maximum).None?
    decreases |records| - n
  {
    if n < |records| {
      assert records[..n + 1][..n] == records[..n];
      FoldFailsEarly(records, n + 1, maximum);
    } else {
      assert records[..n] == records;
    }
  }

  // ----------------------------------------------- what an accepted stream looks like

  /** The retained map after the campaign records of a stream. */
  function RetainedBy(records: seq<Record>): Identities {
    if records == [] then map[]
    else
      var before := RetainedBy(records[..|records| - 1]);
      var last := records[|records| - 1];
      if last.control.Campaign? then RetainAll(before, last.providers) else before
  }

  /** The first identity that a stream shows for Atlas. */
  function FirstShown(records: seq<Record>): Option<string> {
    if records == [] then None
    else
      var before := FirstShown(records[..|records| - 1]);
      if before.None? then ShownIdentity(records[|records| - 1]) else before
  }

  function Idles(records: seq<Record>): (n: nat)
    ensures n <= |records|
  {
    if records == [] then 0
    else Idles(records[..|records| - 1]) + if records[|records| - 1].control.Idle? then 1 else 0
  }

  predicate Link(a: Record, b: Record) {
    && (a.control.Campaign? ==> b.control.Campaign?)
    && a.actual <= b.actual
    && (if a.control == b.control then b.scheduled - a.scheduled == CADENCE_NS else b.scheduled > a.actual)
  }

  predicate ChurnConsistent(before: Identities, r: Record) {
    r.control.Campaign? ==>
      r.childEvents == DescendantEvents(before, r.providers) && |RetainAll(before, r.providers)| <= MAX_PROCESSES
  }

  /** Each record against the one before it, and against the churn and identity so far. */
  ghost predicate Chained(records: seq<Record>, maximum: int) {
    && (records != [] ==> |records| <= maximum)
    && (forall i :: 0 <= i < |records| ==> records[i].sequence == i && WellFormed(records[i]))
    && (forall i :: 0 < i < |records| ==> Link(records[i - 1], records[i]))
    && (forall i ::
          0 <= i < |records| && ShownIdentity(records[i]).Some? ==> ShownIdentity(records[i]) == FirstShown(records))
    && (forall i :: 0 <= i < |records| ==> ChurnConsistent(RetainedBy(records[..i]), records[i]))
  }

  /** The idle records are the first ones. */
  lemma {:induction false} IdlesComeFirst(records: seq<Record>)
    requires forall i :: 0 < i < |records| ==> Link(records[i - 1], records[i])
    ensures forall i :: 0 <= i < |records| ==> (records[i].control.Idle? <==> i < Idles(records))
  {
    if records != [] {
      var front := records[..|records| - 1];
      IdlesComeFirst(front);
      if front != [] {
        assert Link(records[|front| - 1], records[|front|]);
      }
    }
  }

  predicate Holds(st: State, records: seq<Record>) {
    && st.count == |records| && st.idleCount == Idles(records) && st.campaignCount == |records| - Idles(records)
    && st.previousProviders == RetainedBy(records) && st.atlasIdentity == FirstShown(records)
    && (if records == [] then st == START
        else
          var last := records[|records| - 1];
          && st.previousTime == last.actual && st.previousScheduled == last.scheduled
          && st.previousControl == Some(last.control) && st.finalAtlas == Some(last.atlas))
    && st.firstIdle == (if Idles(records) > 0 then Some(records[0].scheduled) else None)
    && st.lastIdle == (if Idles(records) > 0 then Some(records[Idles(records) - 1].scheduled) else None)
  }

  lemma ChainedSplits(records: seq<Record>, maximum: int)
    requires records != []
    ensures var front, last := records[..|records| - 1], records[|records| - 1];
            Chained(records, maximum) <==>
              Chained(front, maximum) && |records| <= maximum && last.sequence == |front| && WellFormed(last)
              && (front != [] ==> Link(front[|front| - 1], last))
              && (FirstShown(front).Some? && ShownIdentity(last).Some? ==> ShownIdentity(last) == FirstShown(front))
              && ChurnConsistent(RetainedBy(front), last)
  {
    hide WellFormed, Link, ChurnConsistent, RetainedBy;
    var front, last := records[..|records| - 1], records[|records| - 1];
    assert forall i :: 0 <= i < |front| ==> front[..i] == records[..i];
    ShownNeedsFirst(front);
    if Chained(records, maximum) {
      assert forall i :: 0 <= i < |front| ==> front[i] == records[i];
      assert ChurnConsistent(RetainedBy(records[..|front|]), records[|front|]);
      assert front != [] ==> Link(records[|front| - 1], records[|front|]);
    }
  }

  lemma {:induction false} ShownNeedsFirst(records: seq<Record>)
    ensures FirstShown(records).None? ==> forall i :: 0 <= i < |records| ==> ShownIdentity(records[i]).None?
  {
    if records != [] {
      ShownNeedsFirst(records[..|records| - 1]);
    }
  }

  lemma OrderedIsLink(front: seq<Record>, last: Record, st: State)
    requires Holds(st, front)
    requires forall i :: 0 <= i < |front| ==> (front[i].control.Idle? <==> i < Idles(front))
    requires forall i :: 0 <= i < |front| ==> front[i].scheduled >= 0
    requires last.actual >= 0
    ensures Ordered(st, last) <==> (front != [] ==> Link(front[|front| - 1], last))
  {
    hide RetainedBy, FirstShown, Idles;
    if front != [] {
      var a := front[|front| - 1];
      assert a.control.Campaign? <==> st.campaignCount > 0;
    }
  }

  lemma FollowsIsLink(front: seq<Record>, last: Record, st: State, maximum: int)
    requires Holds(st, front)
    requires Ordered(st, last) <==> (front != [] ==> Link(front[|front| - 1], last))
    ensures Follows(st, maximum, last) <==>
              |front| < maximum && last.sequence == |front|
              && (front != [] ==> Link(front[|front| - 1], last))
              && (FirstShown(front).Some? && ShownIdentity(last).Some? ==> ShownIdentity(last) == FirstShown(front))
              && ChurnConsistent(RetainedBy(front), last)
  {
    hide Ordered, Link, RetainAll, DescendantEvents, RetainedBy, FirstShown, ShownIdentity, Idles;
  }

  lemma WellFormedIsLate(r: Record)
    requires WellFormed(r)
    ensures 0 <= r.scheduled <= r.actual
  {
  }

  lemma AdvanceHolds(front: seq<Record>, last: Record, st: State)
    requires Holds(st, front)
    requires forall i :: 0 <= i < |front| ==> (front[i].control.Idle? <==> i < Idles(front))
    requires front != [] && front[|front| - 1].control.Campaign? ==> last.control.Campaign?
    ensures Holds(Advance(st, last), front + [last])
  {
    hide RetainAll, ShownIdentity, RetainedBy, FirstShown, Idles;
    SummariesStep(front, last);
    if front != [] && last.control.Idle? {
      assert Idles(front) == |front|;
    }
  }

  lemma SummariesStep(front: seq<Record>, last: Record)
    ensures RetainedBy(front + [last])
         == if last.control.Campaign? then RetainAll(RetainedBy(front), last.providers) else RetainedBy(front)
    ensures FirstShown(front + [last]) == if FirstShown(front).None? then ShownIdentity(last) else FirstShown(front)
    ensures Idles(front + [last]) == Idles(front) + if last.control.Idle? then 1 else 0
  {
    hide RetainAll, ShownIdentity;
    assert (front + [last])[..|front|] == front;
  }

  /** The validator's state after a chained stream, and its next step. */
  lemma StepMatches(front: seq<Record>, last: Record, st: State, maximum: int)
    requires Chained(front, maximum) && Holds(st, front)
    ensures Step(st, maximum, last).Some? <==> Chained(front + [last], maximum)
    ensures Step(st, maximum, last).Some? ==> Holds(Step(st, maximum, last).value, front + [last])
  {
    hide *;
    var records := front + [last];
    assert records[..|front|] == front && records[|front|] == last && |records| == |front| + 1;
    ChainedSplits(records, maximum);
    if WellFormed(last) {
      FollowsIffChains(front, last, st, maximum);
      if Follows(st, maximum, last) {
        AdvanceAfterFollows(front, last, st, maximum);
      }
    }
    StepIs(st, maximum, last);
  }

  lemma StepIs(st: State, maximum: int, r: Record)
    ensures Step(st, maximum, r) == if Follows(st, maximum, r) && WellFormed(r) then Some(Advance(st, r)) else None
  {
    hide Follows, WellFormed, Advance;
  }

  lemma FollowsIffChains(front: seq<Record>, last: Record, st: State, maximum: int)
    requires Chained(front, maximum) && Holds(st, front) && WellFormed(last)
    ensures Follows(st, maximum, last) <==>
              |front| < maximum && last.sequence == |front|
              && (front != [] ==> Link(front[|front| - 1], last))
              && (FirstShown(front).Some? && ShownIdentity(last).Some? ==> ShownIdentity(last) == FirstShown(front))
              && ChurnConsistent(RetainedBy(front), last)
  {
    ChainedTimes(front, maximum);
    ChainedIdles(front, maximum);
    WellFormedIsLate(last);
    hide *;
    OrderedIsLink(front, last, st);
    FollowsIsLink(front, last, st, maximum);
  }

  lemma AdvanceAfterFollows(front: seq<Record>, last: Record, st: State, maximum: int)
    requires Chained(front, maximum) && Holds(st, front) && WellFormed(last) && Follows(st, maximum, last)
    ensures Holds(Advance(st, last), front + [last])
  {
    hide *;
    FollowsIffChains(front, last, st, maximum);
    ChainedIdles(front, maximum);
    LinkKeepsCampaign(front, last);
    AdvanceHolds(front, last, st);
  }

  lemma ChainedIdles(records: seq<Record>, maximum: int)
    requires Chained(records, maximum)
    ensures forall i :: 0 <= i < |records| ==> (records[i].control.Idle? <==> i < Idles(records))
  {
    hide WellFormed, Idles, ChurnConsistent;
    IdlesComeFirst(records);
  }

  lemma LinkKeepsCampaign(front: seq<Record>, last: Record)
    requires front != [] ==> Link(front[|front| - 1], last)
    ensures front != [] && front[|front| - 1].control.Campaign? ==> last.control.Campaign?
  {
  }

  lemma ChainedTimes(records: seq<Record>, maximum: int)
    requires Chained(records, maximum)
    ensures forall i :: 0 <= i < |records| ==> 0 <= records[i].scheduled <= records[i].actual
  {
    forall i | 0 <= i < |records| ensures 0 <= records[i].scheduled <= records[i].actual {
      WellFormedIsLate(records[i]);
    }
  }

  /** The validator goes through a stream exactly when it is chained. */
  lemma {:induction false} FoldIsChained(records: seq<Record>, maximum: int)
    ensures Fold(records, maximum).Some? <==> Chained(records, maximum)
    ensures Fold(records, maximum).Some? ==> Holds(Fold(records, maximum).value, records)
  {
    hide Step, Holds, Chained;
    if records == [] {
      EmptyIsChained(maximum);
    } else {
      var front, last := records[..|records| - 1], records[|records| - 1];
      assert front + [last] == records;
      FoldIsChained(front, maximum);
      FrontIsChained(records, maximum);
      if Fold(front, maximum).Some? {
        StepMatches(front, last, Fold(front, maximum).value, maximum);
      }
    }
  }

  lemma EmptyIsChained(maximum: int)
    ensures Chained([], maximum) && Holds(START, [])
  {
  }

  lemma FrontIsChained(records: seq<Record>, maximum: int)
    requires records != []
    ensures Chained(records, maximum) ==> Chained(records[..|records| - 1], maximum)
  {
    hide Chained;
    ChainedSplits(records, maximum);
  }

  /** A complete run, said position by position. */
  ghost predicate CompleteRun(rs: seq<Record>, maximum: int) {
    // 101 idle records, then at least two campaign records, numbered from zero.
    && IDLE_SAMPLES + 2 <= |rs| <= maximum
    && (forall i :: 0 <= i < |rs| ==> rs[i].sequence == i && WellFormed(rs[i]))
    && (forall i :: 0 <= i < |rs| ==> (rs[i].control.Idle? <==> i < IDLE_SAMPLES))
    // Each phase is on an exact 50 ms grid, and the second starts after the first ended.
    && OnGrid(rs, 0, IDLE_SAMPLES) && OnGrid(rs, IDLE_SAMPLES, |rs|)
    && rs[IDLE_SAMPLES].scheduled > rs[IDLE_SAMPLES - 1].actual
    // Actual times never decrease.
    && (forall i, j :: 0 <= i <= j < |rs| ==> rs[i].actual <= rs[j].actual)
    // Atlas shows one identity.
    && (forall i, j :: 0 <= i < |rs| && 0 <= j < |rs| && ShownIdentity(rs[i]).Some? && ShownIdentity(rs[j]).Some?
          ==> ShownIdentity(rs[i]) == ShownIdentity(rs[j]))
    // Each record's events are those of the descendants retained before it.
    && (forall i :: 0 <= i < |rs| ==> ChurnConsistent(RetainedBy(rs[..i]), rs[i]))
    // The last record is Atlas's exit, or the reuse of its PID.
    && rs[|rs| - 1].atlas.status.Gap? && Ends(rs[|rs| - 1].atlas)
  }

  ghost predicate OnGrid(rs: seq<Record>, lo: nat, hi: nat)
    requires lo <= hi <= |rs|
  {
    forall i :: lo <= i < hi ==> rs[i].scheduled == rs[lo].scheduled + (i - lo) * CADENCE_NS
  }

  lemma {:induction false} LinksMakeGrid(rs: seq<Record>, lo: nat, hi: nat, control: Control)
    requires lo <= hi <= |rs|
    requires forall i :: 0 < i < |rs| ==> Link(rs[i - 1], rs[i])
    requires forall i :: lo <= i < hi ==> rs[i].control == control
    ensures OnGrid(rs, lo, hi)
    decreases hi - lo
  {
    if lo + 1 < hi {
      LinksMakeGrid(rs, lo, hi - 1, control);
      assert Link(rs[hi - 2], rs[hi - 1]);
    }
  }

  lemma {:induction false} LinksOrderTimes(rs: seq<Record>, i: nat, j: nat)
    requires i <= j < |rs|
    requires forall k :: 0 < k < |rs| ==> Link(rs[k - 1], rs[k])
    ensures rs[i].actual <= rs[j].actual
    decreases j - i
  {
    if i < j {
      LinksOrderTimes(rs, i, j - 1);
      assert Link(rs[j - 1], rs[j]);
    }
  }

  lemma {:induction false} FirstShownIsShown(rs: seq<Record>)
    ensures FirstShown(rs).Some? ==> exists i :: 0 <= i < |rs| && ShownIdentity(rs[i]) == FirstShown(rs)
  {
    hide ShownIdentity;
    if rs != [] && FirstShown(rs).Some? {
      var front := rs[..|rs| - 1];
      FirstShownIsShown(front);
      if FirstShown(front).Some? {
        var i :| 0 <= i < |front| && ShownIdentity(front[i]) == FirstShown(front);
        assert ShownIdentity(rs[i]) == FirstShown(rs);
      } else {
        assert ShownIdentity(rs[|rs| - 1]) == FirstShown(rs);
      }
    }
  }

  lemma {:induction false} IdlesCounts(rs: seq<Record>, n: nat)
    requires n <= |rs| && forall i :: 0 <= i < |rs| ==> (rs[i].control.Idle? <==> i < n)
    ensures Idles(rs) == n
  {
    if rs != [] {
      IdlesCounts(rs[..|rs| - 1], if n == |rs| then n - 1 else n);
    }
  }

  lemma AcceptedIsComplete(rs: seq<Record>, maximum: int)
    requires Accepts(rs, maximum)
    ensures CompleteRun(rs, maximum)
  {
    hide WellFormed, ChurnConsistent, ShownIdentity, RetainedBy, Step, FirstShown, Link;
    FoldIsChained(rs, maximum);
    ChainedIdles(rs, maximum);
    LinksMakeGrid(rs, 0, IDLE_SAMPLES, Idle);
    LinksMakeGrid(rs, IDLE_SAMPLES, |rs|, Campaign);
    forall i, j | 0 <= i <= j < |rs| ensures rs[i].actual <= rs[j].actual {
      LinksOrderTimes(rs, i, j);
    }
    PhaseChange(rs[IDLE_SAMPLES - 1], rs[IDLE_SAMPLES]);
  }

  lemma PhaseChange(a: Record, b: Record)
    requires a.control.Idle? && b.control.Campaign?
    ensures Link(a, b) <==> a.actual <= b.actual && b.scheduled > a.actual
  {
  }

  lemma CompleteIsLinked(rs: seq<Record>, maximum: int)
    requires CompleteRun(rs, maximum)
    ensures forall i :: 0 < i < |rs| ==> Link(rs[i - 1], rs[i])
  {
    hide WellFormed, ChurnConsistent, ShownIdentity;
    forall i | 0 < i < |rs| ensures Link(rs[i - 1], rs[i]) {
      assert rs[i - 1].actual <= rs[i].actual;
    }
  }

  lemma CompleteIsAccepted(rs: seq<Record>, maximum: int)
    requires CompleteRun(rs, maximum)
    ensures Accepts(rs, maximum)
  {
    hide WellFormed, ChurnConsistent, ShownIdentity, RetainedBy, Step, FirstShown, Link;
    CompleteIsLinked(rs, maximum);
    FirstShownIsShown(rs);
    ShownNeedsFirst(rs);
    assert Chained(rs, maximum);
    FoldIsChained(rs, maximum);
    IdlesCounts(rs, IDLE_SAMPLES);
    assert rs[IDLE_SAMPLES - 1].scheduled == rs[0].scheduled + (IDLE_SAMPLES - 1) * CADENCE_NS;
  }

  /** The stream validator accepts exactly the complete runs. */
  lemma AcceptsExactlyCompleteRuns(rs: seq<Record>, maximum: int)
    ensures Accepts(rs, maximum) <==> CompleteRun(rs, maximum)
  {
    hide *;
    if Accepts(rs, maximum) {
      AcceptedIsComplete(rs, maximum);
    }
    if CompleteRun(rs, maximum) {
      CompleteIsAccepted(rs, maximum);
    }
  }

  // --------------------------------------------------- what one accepted record says

  /** What a measurement may say: an observed process is named and has its memory, a gap has an
      error and no memory, and no number is negative or too large. */
  predicate MeasurementTells(m: Measurement) {
    && (m.status == Observed ==>
          m.pid.Some? && m.pid.value >= 1 && m.identity.Some? && |m.identity.value| > 0 && m.resident.Some?
          && m.error == None)
    && (m.status == Gap ==> m.error.Some? && |m.error.value.kind| > 0 && |m.error.value.detail| > 0)
    && (m.status == NotApplicable ==> m.pid == None && m.identity == None && m.error == None)
    && (m.status != Observed ==> m.resident == m.private == m.highWater == None)
    && (forall n :: n in {m.resident, m.private, m.highWater} && n.Some? ==> 0 <= n.value < 0x8000_0000_0000_0000)
    && |m.collector| > 0
  }

  /** The six labels, each of at most 256 characters. */
  ghost predicate LabelsTell(labels: map<string, string>) {
    && (forall key :: key in labels <==>
          key in ["phase", "filesystem_cache_state", "serving_state", "provider_cache_install_state", "build_state",
                  "catalogue_state"])
    && forall key :: key in labels ==>
         1 <= |labels[key]| <= 256 && forall i :: 0 <= i < |labels[key]| ==> labels[key][i] != '\0'
  }

  /** The PIDs of the providers that have one, in ascending order like the providers themselves. */
  ghost predicate PidsTell(pids: seq<int>, providers: seq<Measurement>) {
    && (forall i, j :: 0 <= i < j < |providers| && providers[i].pid.Some? && providers[j].pid.Some? ==>
          providers[i].pid.value < providers[j].pid.value)
    && (forall i, j :: 0 <= i < j < |pids| ==> pids[i] < pids[j])
    && forall p :: p in pids <==> exists i :: 0 <= i < |providers| && providers[i].pid == Some(p)
  }

  predicate TreeTells(tree: TreeObservation) {
    && (tree.status == Gap ==> tree.error.Some? && |tree.error.value.kind| > 0 && |tree.error.value.detail| > 0)
    && (tree.status != Gap ==> tree.error == None)
  }

  predicate GapTells(gap: SamplingGap, lateness: int) {
    && (gap.missedDeadline <==> lateness >= 50_000_000) && gap.latenessNs == lateness
    && gap.missedIntervals * 50_000_000 <= lateness < (gap.missedIntervals + 1) * 50_000_000
  }

  /** What a record says of its time, its processes and their totals. */
  ghost predicate RecordTells(r: Record) {
    && r.schemaVersion == "1.0.0" && r.kind == "process-tree-memory-sample"
    && 0 <= r.scheduled <= r.actual && GapTells(r.samplingGap, r.actual - r.scheduled)
    && LabelsTell(r.labels) && TreeTells(r.tree) && MeasurementTells(r.observer) && MeasurementTells(r.atlas)
    && (forall i :: 0 <= i < |r.providers| ==> MeasurementTells(r.providers[i]))
    && PidsTell(r.descendantPids, r.providers)
    && (r.control == Idle ==>
          r.atlasPid == None && r.atlas.status == NotApplicable && r.providers == [] && r.childEvents == []
          && r.aggregate == IdleAggregate && r.tree.status != NotApplicable)
    && (r.control == Campaign ==>
          r.atlas.pid.Some? && r.atlas.pid.value >= 1 && r.atlasPid == r.atlas.pid && r.aggregate.CampaignAggregate?
          && TotalsTell(r.aggregate.totals, r.atlas, r.providers, r.tree.status == Observed)
          && !TotalsOverflow(r.atlas, r.providers, r.tree.status == Observed))
  }

  lemma {:induction false} PidsAscend(ms: seq<Measurement>, i: nat, j: nat)
    requires i < j < |ms| && ms[i].pid.Some? && ms[j].pid.Some? && StrictlySorted(PidsOf(ms))
    ensures ms[i].pid.value < ms[j].pid.value
  {
    var head := match ms[0].pid case Some(p) => [p] case None => [];
    var rest := PidsOf(ms[1..]);
    assert PidsOf(ms) == head + rest;
    forall x, y | 0 <= x < y < |rest| ensures rest[x] < rest[y] {
      assert PidsOf(ms)[|head| + x] == rest[x] && PidsOf(ms)[|head| + y] == rest[y];
    }
    if i > 0 {
      PidsAscend(ms[1..], i - 1, j - 1);
    } else {
      PidIsListed(ms[1..], j - 1);
      var k :| 0 <= k < |rest| && rest[k] == ms[j].pid.value;
      assert PidsOf(ms)[0] == ms[0].pid.value && PidsOf(ms)[1 + k] == rest[k];
    }
  }

  lemma {:induction false} PidIsListed(ms: seq<Measurement>, i: nat)
    requires i < |ms| && ms[i].pid.Some?
    ensures ms[i].pid.value in PidsOf(ms)
  {
    if i > 0 {
      PidIsListed(ms[1..], i - 1);
    }
  }

  lemma {:induction false} ListedPid(ms: seq<Measurement>, p: int) returns (i: nat)
    requires p in PidsOf(ms)
    ensures i < |ms| && ms[i].pid == Some(p)
  {
    if ms[0].pid == Some(p) {
      i := 0;
    } else {
      var k := ListedPid(ms[1..], p);
      i := k + 1;
    }
  }

  lemma ListedIff(ms: seq<Measurement>)
    ensures forall p :: p in PidsOf(ms) <==> exists i :: 0 <= i < |ms| && ms[i].pid == Some(p)
  {
    hide PidsOf;
    forall p
      ensures p in PidsOf(ms) <==> exists i :: 0 <= i < |ms| && ms[i].pid == Some(p)
    {
      if p in PidsOf(ms) {
        var i := ListedPid(ms, p);
      }
      if i :| 0 <= i < |ms| && ms[i].pid == Some(p) {
        PidIsListed(ms, i);
      }
    }
  }

  lemma {:induction false} AscendingPids(ms: seq<Measurement>)
    requires forall i, j :: 0 <= i < j < |ms| && ms[i].pid.Some? && ms[j].pid.Some? ==>
                              ms[i].pid.value < ms[j].pid.value
    ensures StrictlySorted(PidsOf(ms))
  {
    if ms != [] {
      var rest := ms[1..];
      AscendingPids(rest);
      var head := match ms[0].pid case Some(p) => [p] case None => [];
      var all := head + PidsOf(rest);
      assert PidsOf(ms) == all;
      forall p | p in PidsOf(rest) && ms[0].pid.Some?
        ensures ms[0].pid.value < p
      {
        var i := ListedPid(rest, p);
        assert ms[i + 1] == rest[i];
      }
      forall x, y | 0 <= x < y < |all|
        ensures all[x] < all[y]
      {
        var later := PidsOf(rest)[y - |head|];
        assert all[y] == later && later in PidsOf(rest);
        if x >= |head| {
          assert all[x] == PidsOf(rest)[x - |head|];
        }
      }
    }
  }

  lemma {:induction false} SameAscending(a: seq<int>, b: seq<int>)
    requires StrictlySorted(a) && StrictlySorted(b) && forall p :: p in a <==> p in b
    ensures a == b
  {
    SomeElement(a);
    SomeElement(b);
    if a != [] && b != [] {
      assert a[0] in b && b[0] in a;
      assert a[0] == b[0];
      forall p
        ensures p in a[1..] <==> p in b[1..]
      {
        assert p in a[1..] <==> p in a && p != a[0];
        assert p in b[1..] <==> p in b && p != b[0];
      }
      SameAscending(a[1..], b[1..]);
      assert a == [a[0]] + a[1..] && b == [b[0]] + b[1..];
    }
  }

  lemma SomeElement(s: seq<int>)
    ensures s != [] ==> exists x :: x in s
  {
    if s != [] {
      var x := s[0];
      assert x in s;
    }
  }

  lemma PidsIff(pids: seq<int>, ms: seq<Measurement>)
    ensures pids == PidsOf(ms) && StrictlySorted(pids) <==> PidsTell(pids, ms)
  {
    hide PidsOf;
    ListedIff(ms);
    if pids == PidsOf(ms) && StrictlySorted(pids) {
      forall i, j | 0 <= i < j < |ms| && ms[i].pid.Some? && ms[j].pid.Some?
        ensures ms[i].pid.value < ms[j].pid.value
      {
        PidsAscend(ms, i, j);
      }
    }
    if PidsTell(pids, ms) {
      AscendingPids(ms);
      SameAscending(pids, PidsOf(ms));
    }
  }

  lemma ValidTells(m: Measurement)
    ensures ValidMeasurement(m) <==> MeasurementTells(m)
  {
  }

  lemma LabelsIff(labels: map<string, string>)
    ensures ValidLabels(labels) <==> LabelsTell(labels)
  {
    assert forall key :: key in LABEL_KEYS <==>
                           key in ["phase", "filesystem_cache_state", "serving_state", "provider_cache_install_state",
                                   "build_state", "catalogue_state"];
    assert forall key :: key in labels <==> key in labels.Keys;
  }

  lemma GapIff(gap: SamplingGap, scheduled: int, actual: int)
    requires scheduled <= actual
    ensures gap == SamplingGapOf(scheduled, actual) <==> GapTells(gap, actual - scheduled)
  {
  }

  lemma TotalsIff(r: Record)
    requires r.aggregate.CampaignAggregate?
    ensures ConcurrentTotals(r.atlas, r.providers, r.tree.status.Observed?) == Some(r.aggregate.totals) <==>
            && TotalsTell(r.aggregate.totals, r.atlas, r.providers, r.tree.status == Observed)
            && !TotalsOverflow(r.atlas, r.providers, r.tree.status == Observed)
  {
    hide ConcurrentTotals, TotalsTell, TotalsOverflow;
    ConcurrentTotalsIff(r.atlas, r.providers, r.tree.status.Observed?, r.aggregate.totals);
  }

  lemma AllValidTells(ms: seq<Measurement>)
    ensures AllValid(ms) <==> forall i :: 0 <= i < |ms| ==> MeasurementTells(ms[i])
  {
    hide MeasurementTells, ValidMeasurement;
    forall i | 0 <= i < |ms|
      ensures ms[i] in ms && (ValidMeasurement(ms[i]) <==> MeasurementTells(ms[i]))
    {
      ValidTells(ms[i]);
    }
  }

  /** The checks on one record alone hold exactly when it tells all this. */
  lemma WellFormedIff(r: Record)
    ensures WellFormed(r) <==> RecordTells(r)
  {
    hide ConcurrentTotals, TotalsTell, TotalsOverflow, MeasurementTells, ValidMeasurement, AllValid, StrictlySorted,
         PidsOf, PidsTell, ValidLabels, LabelsTell, SamplingGapOf, GapTells;
    ValidTells(r.observer);
    ValidTells(r.atlas);
    AllValidTells(r.providers);
    PidsIff(r.descendantPids, r.providers);
    LabelsIff(r.labels);
    if r.scheduled <= r.actual {
      GapIff(r.samplingGap, r.scheduled, r.actual);
    }
    if r.aggregate.CampaignAggregate? {
      TotalsIff(r);
    }
  }

  /** Every record of an accepted stream says so of itself. */
  lemma AcceptedRecordTells(records: seq<Record>, maximum: int, i: nat)
    requires Accepts(records, maximum) && i < |records|
    ensures RecordTells(records[i]) && records[i].sequence == i
  {
    hide RecordTells, WellFormed, Accepts, Fold, ChurnConsistent, RetainedBy;
    AcceptsExactlyCompleteRuns(records, maximum);
    WellFormedIff(records[i]);
  }
}
