/** Batch statistics of a run, and the streaming accumulator that must agree with them
    (scripts/process-tree-memory.py). */
module Summary {
  import opened Common
  import opened Measurements
  import opened Churn
  import opened RawStream
  import opened Sorting

  // --------------------------------------------------------------- statistics

  datatype Statistic = Statistic(count: nat, p50: Option<int>, p95: Option<int>, peak: Option<int>)

  /** Zero-based position of the percentile in `n` ordered values. */
  function RankIndex(percentile: nat, n: nat): (i: nat)
    requires n > 0 && percentile <= 100
    ensures i < n
  {
    var rank := (percentile * n + 99) / 100;
    (if rank < 1 then 1 else rank) - 1
  }

  /** `statistics` */
  function Statistics(values: seq<int>): Statistic {
    if values == [] then Statistic(0, None, None, None)
    else
      var ordered := Sort(values);
      Statistic(|ordered|, Some(ordered[RankIndex(50, |ordered|)]), Some(ordered[RankIndex(95, |ordered|)]),
                Some(ordered[|ordered| - 1]))
  }

  /** How many values are at most `x`, and how many are below it. */
  function AtMost(values: seq<int>, x: int): nat {
    if values == [] then 0 else (if values[0] <= x then 1 else 0) + AtMost(values[1..], x)
  }

  function Below(values: seq<int>, x: int): nat {
    AtMost(values, x - 1)
  }

  lemma {:induction false} AtMostOfInsert(y: int, s: seq<int>, x: int)
    ensures AtMost(Insert(y, s), x) == AtMost(s, x) + if y <= x then 1 else 0
  {
    if s != [] {
      if y <= s[0] {
        assert ([y] + s)[1..] == s;
      } else {
        AtMostOfInsert(y, s[1..], x);
        assert ([s[0]] + Insert(y, s[1..]))[1..] == Insert(y, s[1..]);
      }
    }
  }

  lemma {:induction false} AtMostOfSort(values: seq<int>, x: int)
    ensures AtMost(Sort(values), x) == AtMost(values, x)
  {
    if values != [] {
      AtMostOfSort(values[1..], x);
      AtMostOfInsert(values[0], Sort(values[1..]), x);
    }
  }

  /** In a sorted list, the values at most `x` are a prefix. */
  lemma {:induction false} AtMostOfSorted(s: seq<int>, x: int)
    requires Sorted(s)
    ensures AtMost(s, x) <= |s|
    ensures forall i :: 0 <= i < |s| ==> (s[i] <= x <==> i < AtMost(s, x))
  {
    if s != [] {
      AtMostOfSorted(s[1..], x);
      assert forall i :: 0 < i < |s| ==> s[i] == s[1..][i - 1];
      if s[0] > x {
        NoneAtMost(s, x);
      }
    }
  }

  lemma {:induction false} NoneAtMost(s: seq<int>, x: int)
    requires Sorted(s) && (s != [] ==> s[0] > x)
    ensures AtMost(s, x) == 0
  {
    if s != [] {
      NoneAtMost(s[1..], x);
    }
  }

  lemma RankOfSorted(ordered: seq<int>, percentile: nat)
    requires Sorted(ordered) && ordered != [] && 0 < percentile <= 100
    ensures var r := ordered[RankIndex(percentile, |ordered|)];
            var ceiling := (percentile * |ordered| + 99) / 100;
            AtMost(ordered, r) >= ceiling && AtMost(ordered, r - 1) < ceiling
  {
    hide Sorted, AtMost;
    var i := RankIndex(percentile, |ordered|);
    var r := ordered[i];
    AtMostOfSorted(ordered, r);
    AtMostOfSorted(ordered, r - 1);
    assert percentile * |ordered| >= 1;
    assert i + 1 == (percentile * |ordered| + 99) / 100;
  }

  /** The value at a percentile's rank is the true nearest-rank value: at least
      ceil(percentile * n / 100) values are at or below it, and fewer are below it. */
  lemma NearestRank(values: seq<int>, percentile: nat)
    requires values != [] && 0 < percentile <= 100
    ensures var n := |values|;
            var r := Sort(values)[RankIndex(percentile, n)];
            var ceiling := (percentile * n + 99) / 100;
            r in values && AtMost(values, r) >= ceiling && Below(values, r) < ceiling
  {
    hide Sort, Sorted, AtMost, RankIndex;
    var ordered := Sort(values);
    SortSorts(values);
    RankOfSorted(ordered, percentile);
    var r := ordered[RankIndex(percentile, |values|)];
    SameElements(values);
    assert r in ordered;
    AtMostOfSort(values, r);
    AtMostOfSort(values, r - 1);
  }

  lemma PeakIsGreatest(values: seq<int>)
    requires values != []
    ensures var peak := Statistics(values).peak.value;
            peak in values && forall v :: v in values ==> v <= peak
  {
    var ordered := Sort(values);
    SortSorts(values);
    SameElements(values);
    assert ordered[|ordered| - 1] in ordered;
    forall v | v in values ensures v <= ordered[|ordered| - 1] {
      assert v in ordered;
    }
  }

  // --------------------------------------------------------------- batch values

  datatype Field = ResidentBytes | PrivateBytes | HighWaterBytes
  datatype Category = AtlasOnly | ProviderOnly | ConcurrentAggregate
  datatype Metric = Baseline(field: Field) | InCampaign(category: Category, field: Field)

  function Keep(v: Option<int>): seq<int> {
    match v case Some(n) => [n] case None => []
  }

  function FieldOf(m: Measurement, field: Field): Option<int> {
    match field
    case ResidentBytes => m.resident
    case PrivateBytes => m.private
    case HighWaterBytes => m.highWater
  }

  function ObservedField(m: Measurement, field: Field): seq<int> {
    if m.status.Observed? then Keep(FieldOf(m, field)) else []
  }

  function AllObservedField(ms: seq<Measurement>, field: Field): seq<int> {
    if ms == [] then []
    else AllObservedField(ms[..|ms| - 1], field) + ObservedField(ms[|ms| - 1], field)
  }

  /** `aggregate.get(prefix + field)` */
  function AggregateField(aggregate: RecordAggregate, category: Category, field: Field): Option<int> {
    if aggregate.IdleAggregate? then None
    else
      var totals := if field.ResidentBytes? then aggregate.totals.resident else aggregate.totals.private;
      match category
      case AtlasOnly => totals.atlas
      case ProviderOnly => totals.provider
      case ConcurrentAggregate => totals.both
  }

  function OfControl(records: seq<Record>, control: Control): seq<Record> {
    if records == [] then []
    else
      var last := records[|records| - 1];
      OfControl(records[..|records| - 1], control) + if last.control == control then [last] else []
  }

  /** The value list that the batch summaries give to `statistics`, over records of the
      metric's own phase. */
  function BatchValues(records: seq<Record>, metric: Metric): seq<int> {
    if records == [] then []
    else BatchValues(records[..|records| - 1], metric) + BatchValue(records[|records| - 1], metric)
  }

  function BatchValue(r: Record, metric: Metric): seq<int> {
    match metric
    case Baseline(field) => ObservedField(r.observer, field)
    case InCampaign(AtlasOnly, HighWaterBytes) => ObservedField(r.atlas, HighWaterBytes)
    case InCampaign(ProviderOnly, HighWaterBytes) => AllObservedField(r.providers, HighWaterBytes)
    case InCampaign(category, field) => Keep(AggregateField(r.aggregate, category, field))
  }

  datatype BaselineSummary = BaselineSummary(resident: Statistic, private: Statistic)
  datatype CampaignSummary = CampaignSummary(
    atlasResident: Statistic, atlasPrivate: Statistic, atlasHighWater: Statistic,
    providerResident: Statistic, providerPrivate: Statistic, providerHighWater: Statistic,
    bothResident: Statistic, bothPrivate: Statistic)
  datatype EventCounts = EventCounts(samplingGaps: nat, exits: nat, measurementGaps: nat, reuses: nat, treeGaps: nat)

  /** `_baseline_summary` */
  function BatchBaseline(idle: seq<Record>): BaselineSummary {
    BaselineSummary(Statistics(BatchValues(idle, Baseline(ResidentBytes))),
                    Statistics(BatchValues(idle, Baseline(PrivateBytes))))
  }

  function BatchStatistic(campaign: seq<Record>, category: Category, field: Field): Statistic {
    Statistics(BatchValues(campaign, InCampaign(category, field)))
  }

  /** `_campaign_summary` */
  function BatchCampaign(campaign: seq<Record>): CampaignSummary {
    CampaignSummary(
      BatchStatistic(campaign, AtlasOnly, ResidentBytes), BatchStatistic(campaign, AtlasOnly, PrivateBytes),
      BatchStatistic(campaign, AtlasOnly, HighWaterBytes),
      BatchStatistic(campaign, ProviderOnly, ResidentBytes), BatchStatistic(campaign, ProviderOnly, PrivateBytes),
      BatchStatistic(campaign, ProviderOnly, HighWaterBytes),
      BatchStatistic(campaign, ConcurrentAggregate, ResidentBytes),
      BatchStatistic(campaign, ConcurrentAggregate, PrivateBytes))
  }

  function CountEvent(e: Event, counts: EventCounts): EventCounts {
    match e
    case DescendantExited(_, _) => counts.(exits := counts.exits + 1)
    case MeasurementGap(_, _) => counts.(measurementGaps := counts.measurementGaps + 1)
    case PidReuse(_, _, _) => counts.(reuses := counts.reuses + 1)
  }

  function CountEvents(events: seq<Event>, counts: EventCounts): EventCounts {
    if events == [] then counts else CountEvents(events[1..], CountEvent(events[0], counts))
  }

  function CountRecord(r: Record, counts: EventCounts): EventCounts {
    var gaps := if r.samplingGap.missedDeadline then counts.(samplingGaps := counts.samplingGaps + 1) else counts;
    var trees := if r.tree.status.Gap? then gaps.(treeGaps := gaps.treeGaps + 1) else gaps;
    CountEvents(r.childEvents, trees)
  }

  const NO_EVENTS := EventCounts(0, 0, 0, 0, 0)

  /** `_event_counts` */
  function BatchEvents(records: seq<Record>): EventCounts {
    if records == [] then NO_EVENTS else CountRecord(records[|records| - 1], BatchEvents(records[..|records| - 1]))
  }

  datatype SummaryParts = SummaryParts(baseline: BaselineSummary, campaign: CampaignSummary, events: EventCounts)

  /** What the batch functions say about a whole record list. */
  function BatchSummary(records: seq<Record>): SummaryParts {
    SummaryParts(BatchBaseline(OfControl(records, Idle)), BatchCampaign(OfControl(records, Campaign)),
                 BatchEvents(records))
  }

  // ------------------------------------------- what the summary says of the records

  /** `v` is the nearest-rank percentile of some samples: it is one of them, at least that share
      of them is at or below it, and less than that share is below it. */
  ghost predicate IsPercentile<K>(samples: map<K, int>, percentile: nat, v: int) {
    && (exists k :: k in samples && samples[k] == v)
    && 100 * |set k | k in samples && samples[k] <= v| >= percentile * |samples|
    && 100 * |set k | k in samples && samples[k] < v| < percentile * |samples|
  }

  /** A statistic describes samples that are told apart by some key. */
  ghost predicate Describes<K>(s: Statistic, samples: map<K, int>) {
    && s.count == |samples|
    && (|samples| == 0 ==> s.p50 == None && s.p95 == None && s.peak == None)
    && (|samples| > 0 ==>
          && s.p50.Some? && IsPercentile(samples, 50, s.p50.value)
          && s.p95.Some? && IsPercentile(samples, 95, s.p95.value)
          && s.peak.Some? && (exists k :: k in samples && samples[k] == s.peak.value)
          && (forall k :: k in samples ==> samples[k] <= s.peak.value))
  }

  /** The high-water marks of the providers observed in campaign records, by record and place. */
  ghost function ProviderMarks(records: seq<Record>): map<(nat, nat), int> {
    map i: nat, j: nat | i < |records| && j < |records[i].providers| && records[i].control == Campaign
                         && records[i].providers[j].status == Observed && records[i].providers[j].highWater.Some?
      :: (i, j) := records[i].providers[j].highWater.value
  }

  /** The values that a reading of the records shows, by record. */
  ghost function Shown(records: seq<Record>, reading: Record -> Option<int>): map<nat, int> {
    map i: nat | i < |records| && reading(records[i]).Some? :: reading(records[i]).value
  }

  // What each statistic but one reads off a record.

  function IdleResident(r: Record): Option<int> {
    if r.control == Idle && r.observer.status == Observed then r.observer.resident else None
  }

  function IdlePrivate(r: Record): Option<int> {
    if r.control == Idle && r.observer.status == Observed then r.observer.private else None
  }

  function AtlasHighWater(r: Record): Option<int> {
    if r.control == Campaign && r.atlas.status == Observed then r.atlas.highWater else None
  }

  function AtlasResident(r: Record): Option<int> {
    if r.control == Campaign && r.aggregate.CampaignAggregate? then r.aggregate.totals.resident.atlas else None
  }

  function AtlasPrivate(r: Record): Option<int> {
    if r.control == Campaign && r.aggregate.CampaignAggregate? then r.aggregate.totals.private.atlas else None
  }

  function ProviderResident(r: Record): Option<int> {
    if r.control == Campaign && r.aggregate.CampaignAggregate? then r.aggregate.totals.resident.provider else None
  }

  function ProviderPrivate(r: Record): Option<int> {
    if r.control == Campaign && r.aggregate.CampaignAggregate? then r.aggregate.totals.private.provider else None
  }

  function BothResident(r: Record): Option<int> {
    if r.control == Campaign && r.aggregate.CampaignAggregate? then r.aggregate.totals.resident.both else None
  }

  function BothPrivate(r: Record): Option<int> {
    if r.control == Campaign && r.aggregate.CampaignAggregate? then r.aggregate.totals.private.both else None
  }

  /** Each statistic of a summary, against the fields of the records it reads. */
  ghost predicate StatisticsTell(p: SummaryParts, records: seq<Record>) {
    && Describes(p.baseline.resident, Shown(records, IdleResident))
    && Describes(p.baseline.private, Shown(records, IdlePrivate))
    && Describes(p.campaign.atlasResident, Shown(records, AtlasResident))
    && Describes(p.campaign.atlasPrivate, Shown(records, AtlasPrivate))
    && Describes(p.campaign.atlasHighWater, Shown(records, AtlasHighWater))
    && Describes(p.campaign.providerResident, Shown(records, ProviderResident))
    && Describes(p.campaign.providerPrivate, Shown(records, ProviderPrivate))
    && Describes(p.campaign.providerHighWater, ProviderMarks(records))
    && Describes(p.campaign.bothResident, Shown(records, BothResident))
    && Describes(p.campaign.bothPrivate, Shown(records, BothPrivate))
  }

  predicate IsExit(e: Event) {
    e.DescendantExited?
  }

  predicate IsMeasurementGap(e: Event) {
    e.MeasurementGap?
  }

  predicate IsReuse(e: Event) {
    e.PidReuse?
  }

  /** The child events of some kind, by record and place. */
  ghost function Places(records: seq<Record>, kind: Event -> bool): set<(nat, nat)> {
    set i: nat, j: nat | i < |records| && j < |records[i].childEvents| && kind(records[i].childEvents[j]) :: (i, j)
  }

  predicate IsLate(r: Record) {
    r.samplingGap.missedDeadline
  }

  predicate IsBlind(r: Record) {
    r.tree.status == Gap
  }

  /** The records of some kind. */
  ghost function RecordsWith(records: seq<Record>, kind: Record -> bool): set<nat> {
    set i: nat | i < |records| && kind(records[i])
  }

  /** Each count of a summary, against the records and their child events. */
  ghost predicate EventsTell(events: EventCounts, records: seq<Record>) {
    && events.samplingGaps == |RecordsWith(records, IsLate)|
    && events.treeGaps == |RecordsWith(records, IsBlind)|
    && events.exits == |Places(records, IsExit)|
    && events.measurementGaps == |Places(records, IsMeasurementGap)|
    && events.reuses == |Places(records, IsReuse)|
  }

  /** A list of values holds just the samples. */
  ghost predicate Holds<K>(values: seq<int>, samples: map<K, int>) {
    && |values| == |samples|
    && (forall x :: AtMost(values, x) == |set k | k in samples && samples[k] <= x|)
    && (forall v :: v in values <==> exists k :: k in samples && samples[k] == v)
  }

  lemma HeldAreDescribed<K>(values: seq<int>, samples: map<K, int>)
    requires Holds(values, samples)
    ensures Describes(Statistics(values), samples)
  {
    hide Sort, AtMost, RankIndex;
    if values != [] {
      NearestRank(values, 50);
      NearestRank(values, 95);
      PeakIsGreatest(values);
      HeldPercentile(values, samples, 50, Statistics(values).p50.value);
      HeldPercentile(values, samples, 95, Statistics(values).p95.value);
      forall k | k in samples
        ensures samples[k] <= Statistics(values).peak.value
      {
        var v := samples[k];
        assert v in values;
      }
    }
  }

  lemma HeldPercentile<K>(values: seq<int>, samples: map<K, int>, percentile: nat, v: int)
    requires Holds(values, samples) && v in values && 0 < percentile <= 100
    requires AtMost(values, v) >= (percentile * |values| + 99) / 100
    requires AtMost(values, v - 1) < (percentile * |values| + 99) / 100
    ensures IsPercentile(samples, percentile, v)
  {
    hide AtMost;
    assert (set k | k in samples && samples[k] < v) == (set k | k in samples && samples[k] <= v - 1);
  }

  lemma NothingHeld<K>(none: map<K, int>)
    requires none == map[]
    ensures Holds([], none)
  {
    assert none.Keys == {};
  }

  /** One more sample. */
  lemma HeldGrow<K>(values: seq<int>, samples: map<K, int>, key: K, v: int)
    requires Holds(values, samples) && key !in samples
    ensures Holds(values + [v], samples[key := v])
  {
    var more := samples[key := v];
    assert |more| == |samples| + 1 by { assert more.Keys == samples.Keys + {key}; }
    forall x
      ensures AtMost(values + [v], x) == |set k | k in more && more[k] <= x|
    {
      AtMostSnoc(values, v, x);
      var low := set k | k in samples && samples[k] <= x;
      assert (set k | k in more && more[k] <= x) == if v <= x then low + {key} else low;
    }
    forall w
      ensures w in values + [v] <==> exists k :: k in more && more[k] == w
    {
      if w in values {
        var k :| k in samples && samples[k] == w;
        assert more[k] == w;
      }
      assert more[key] == v;
    }
  }

  lemma {:induction false} AtMostSnoc(values: seq<int>, v: int, x: int)
    ensures AtMost(values + [v], x) == AtMost(values, x) + if v <= x then 1 else 0
  {
    if values != [] {
      assert (values + [v])[1..] == values[1..] + [v];
      AtMostSnoc(values[1..], v, x);
    } else {
      assert [] + [v] == [v] && [v][1..] == [];
    }
  }

  lemma ShownGrows(front: seq<Record>, r: Record, reading: Record -> Option<int>)
    ensures |front| !in Shown(front, reading)
    ensures Shown(front + [r], reading)
            == match reading(r) case Some(v) => Shown(front, reading)[|front| := v] case None => Shown(front, reading)
  {
  }

  /** The values of a metric, over the records of its phase. */
  function ValuesOf(records: seq<Record>, metric: Metric): seq<int> {
    BatchValues(OfControl(records, Phase(metric)), metric)
  }

  /** The values of one more record. */
  lemma OneMoreValue(front: seq<Record>, last: Record, metric: Metric)
    ensures ValuesOf(front + [last], metric)
            == ValuesOf(front, metric) + if last.control == Phase(metric) then BatchValue(last, metric) else []
  {
    hide BatchValue, Phase;
    var own := OfControl(front, Phase(metric));
    var values := BatchValues(own, metric);
    assert (front + [last])[..|front|] == front;
    assert (own + [last])[..|own|] == own && own + [] == own && values + [] == values;
  }

  lemma NothingOf(metric: Metric)
    ensures ValuesOf([], metric) == []
  {
  }

  lemma HeldGrowBy<K>(values: seq<int>, samples: map<K, int>, key: K, v: Option<int>)
    requires Holds(values, samples) && key !in samples
    ensures Holds(values + Keep(v), match v case Some(n) => samples[key := n] case None => samples)
  {
    hide Holds;
    assert values + [] == values;
    if v.Some? {
      HeldGrow(values, samples, key, v.value);
    }
  }

  /** The values of a metric are those that a reading shows, if it reads the metric's value. */
  lemma {:induction false} BatchIsShown(records: seq<Record>, metric: Metric, reading: Record -> Option<int>)
    requires forall r: Record :: Keep(reading(r)) == if r.control == Phase(metric) then BatchValue(r, metric) else []
    ensures Holds(ValuesOf(records, metric), Shown(records, reading))
  {
    hide Holds, BatchValue, Phase, Keep, ValuesOf;
    if records == [] {
      NothingOf(metric);
      NothingHeld(Shown(records, reading));
    } else {
      var front, last := records[..|records| - 1], records[|records| - 1];
      assert records == front + [last];
      hide *;
      BatchIsShown(front, metric, reading);
      OneMoreValue(front, last, metric);
      ShownGrows(front, last, reading);
      var key: nat := |front|;
      HeldGrowBy(ValuesOf(front, metric), Shown(front, reading), key, reading(last));
    }
  }

  lemma ReadingIsDescribed(records: seq<Record>, metric: Metric, reading: Record -> Option<int>)
    requires forall r: Record :: Keep(reading(r)) == if r.control == Phase(metric) then BatchValue(r, metric) else []
    ensures Describes(Statistics(ValuesOf(records, metric)), Shown(records, reading))
  {
    hide *;
    BatchIsShown(records, metric, reading);
    HeldAreDescribed(ValuesOf(records, metric), Shown(records, reading));
  }

  lemma BaselineIsTold(records: seq<Record>)
    ensures Describes(Statistics(ValuesOf(records, Baseline(ResidentBytes))), Shown(records, IdleResident))
    ensures Describes(Statistics(ValuesOf(records, Baseline(PrivateBytes))), Shown(records, IdlePrivate))
  {
    hide Describes, Statistics, Shown, ValuesOf;
    ReadingIsDescribed(records, Baseline(ResidentBytes), IdleResident);
    ReadingIsDescribed(records, Baseline(PrivateBytes), IdlePrivate);
  }

  lemma AtlasIsTold(records: seq<Record>)
    ensures Describes(Statistics(ValuesOf(records, InCampaign(AtlasOnly, ResidentBytes))),
                      Shown(records, AtlasResident))
    ensures Describes(Statistics(ValuesOf(records, InCampaign(AtlasOnly, PrivateBytes))),
                      Shown(records, AtlasPrivate))
    ensures Describes(Statistics(ValuesOf(records, InCampaign(AtlasOnly, HighWaterBytes))),
                      Shown(records, AtlasHighWater))
  {
    hide Describes, Statistics, Shown, ValuesOf;
    ReadingIsDescribed(records, InCampaign(AtlasOnly, ResidentBytes), AtlasResident);
    ReadingIsDescribed(records, InCampaign(AtlasOnly, PrivateBytes), AtlasPrivate);
    ReadingIsDescribed(records, InCampaign(AtlasOnly, HighWaterBytes), AtlasHighWater);
  }

  lemma ProvidersAreTold(records: seq<Record>)
    ensures Describes(Statistics(ValuesOf(records, InCampaign(ProviderOnly, ResidentBytes))),
                      Shown(records, ProviderResident))
    ensures Describes(Statistics(ValuesOf(records, InCampaign(ProviderOnly, PrivateBytes))),
                      Shown(records, ProviderPrivate))
  {
    hide Describes, Statistics, Shown, ValuesOf;
    ReadingIsDescribed(records, InCampaign(ProviderOnly, ResidentBytes), ProviderResident);
    ReadingIsDescribed(records, InCampaign(ProviderOnly, PrivateBytes), ProviderPrivate);
  }

  lemma BothAreTold(records: seq<Record>)
    ensures Describes(Statistics(ValuesOf(records, InCampaign(ConcurrentAggregate, ResidentBytes))),
                      Shown(records, BothResident))
    ensures Describes(Statistics(ValuesOf(records, InCampaign(ConcurrentAggregate, PrivateBytes))),
                      Shown(records, BothPrivate))
  {
    hide Describes, Statistics, Shown, ValuesOf;
    ReadingIsDescribed(records, InCampaign(ConcurrentAggregate, ResidentBytes), BothResident);
    ReadingIsDescribed(records, InCampaign(ConcurrentAggregate, PrivateBytes), BothPrivate);
  }

  /** A record with only its first providers. */
  function WithProviders(r: Record, n: nat): Record
    requires n <= |r.providers|
  {
    r.(providers := r.providers[..n])
  }

  const MARKS := InCampaign(ProviderOnly, HighWaterBytes)

  /** The mark of one provider. */
  function MarkOf(r: Record, j: nat): Option<int>
    requires j < |r.providers|
  {
    if r.control == Campaign && r.providers[j].status == Observed then r.providers[j].highWater else None
  }

  lemma MarksByPlace(records: seq<Record>, i: nat, j: nat)
    ensures (i, j) in ProviderMarks(records)
            <==> i < |records| && j < |records[i].providers| && MarkOf(records[i], j).Some?
    ensures (i, j) in ProviderMarks(records) ==> ProviderMarks(records)[(i, j)] == MarkOf(records[i], j).value
  {
  }

  lemma OneMoreMark(front: seq<Record>, r: Record, n: nat)
    requires n < |r.providers|
    ensures var key: (nat, nat) := (|front|, n);
            var before := ProviderMarks(front + [WithProviders(r, n)]);
            && key !in before
            && ProviderMarks(front + [WithProviders(r, n + 1)])
               == match MarkOf(r, n) case Some(v) => before[key := v] case None => before
  {
    hide ProviderMarks;
    var shorter, longer := front + [WithProviders(r, n)], front + [WithProviders(r, n + 1)];
    var key: (nat, nat) := (|front|, n);
    var before, after := ProviderMarks(shorter), ProviderMarks(longer);
    var expected := match MarkOf(r, n) case Some(v) => before[key := v] case None => before;
    MarksByPlace(shorter, |front|, n);
    forall p: (nat, nat)
      ensures (p in after <==> p in expected) && (p in after ==> after[p] == expected[p])
    {
      MarksByPlace(shorter, p.0, p.1);
      MarksByPlace(longer, p.0, p.1);
      if p.0 <= |front| {
        SameMarks(front, r, n, p.0, p.1);
      }
    }
  }

  /** Every other place shows the same. */
  lemma SameMarks(front: seq<Record>, r: Record, n: nat, i: nat, j: nat)
    requires n < |r.providers| && i <= |front|
    ensures var shorter, longer := front + [WithProviders(r, n)], front + [WithProviders(r, n + 1)];
            && (i < |front| ==> shorter[i] == longer[i] == front[i])
            && (i == |front| ==>
                  |shorter[i].providers| == n && |longer[i].providers| == n + 1
                  && (j < n ==> MarkOf(shorter[i], j) == MarkOf(longer[i], j))
                  && MarkOf(longer[i], n) == MarkOf(r, n))
  {
  }

  lemma NoMoreMarks(front: seq<Record>, r: Record)
    ensures ProviderMarks(front + [WithProviders(r, 0)]) == ProviderMarks(front)
    ensures WithProviders(r, |r.providers|) == r
  {
    assert r.providers[..|r.providers|] == r.providers;
  }

  lemma OneMoreMarkValue(front: seq<Record>, r: Record, n: nat)
    requires n < |r.providers|
    ensures ValuesOf(front + [WithProviders(r, n + 1)], MARKS)
            == ValuesOf(front + [WithProviders(r, n)], MARKS)
               + if r.control == Campaign then ObservedField(r.providers[n], HighWaterBytes) else []
    ensures ValuesOf(front + [WithProviders(r, 0)], MARKS) == ValuesOf(front, MARKS)
  {
    hide ValuesOf, ObservedField;
    OneMoreValue(front, WithProviders(r, n + 1), MARKS);
    OneMoreValue(front, WithProviders(r, n), MARKS);
    OneMoreValue(front, WithProviders(r, 0), MARKS);
    assert r.providers[..n + 1][..n] == r.providers[..n];
    assert ValuesOf(front, MARKS) + [] == ValuesOf(front, MARKS);
    assert ValuesOf(front + [WithProviders(r, n)], MARKS) + [] == ValuesOf(front + [WithProviders(r, n)], MARKS);
  }

  lemma NoMarkValues(front: seq<Record>, r: Record)
    ensures ValuesOf(front + [WithProviders(r, 0)], MARKS) == ValuesOf(front, MARKS)
  {
    hide ValuesOf;
    OneMoreValue(front, WithProviders(r, 0), MARKS);
    assert ValuesOf(front, MARKS) + [] == ValuesOf(front, MARKS);
  }

  lemma {:induction false} RecordMarksAreHeld(front: seq<Record>, r: Record, n: nat)
    requires n <= |r.providers| && Holds(ValuesOf(front, MARKS), ProviderMarks(front))
    ensures Holds(ValuesOf(front + [WithProviders(r, n)], MARKS), ProviderMarks(front + [WithProviders(r, n)]))
  {
    hide Holds, ProviderMarks, ValuesOf;
    if n == 0 {
      NoMoreMarks(front, r);
      NoMarkValues(front, r);
    } else {
      RecordMarksAreHeld(front, r, n - 1);
      OneMoreMark(front, r, n - 1);
      OneMoreMarkValue(front, r, n - 1);
      var m := r.providers[n - 1];
      var key: (nat, nat) := (|front|, n - 1);
      HeldGrowBy(ValuesOf(front + [WithProviders(r, n - 1)], MARKS), ProviderMarks(front + [WithProviders(r, n - 1)]),
                 key, if r.control == Campaign && m.status == Observed then m.highWater else None);
    }
  }

  lemma {:induction false} MarksAreHeld(records: seq<Record>)
    ensures Holds(ValuesOf(records, MARKS), ProviderMarks(records))
  {
    hide Holds, ValuesOf;
    if records == [] {
      NothingOf(MARKS);
      NothingHeld(ProviderMarks(records));
    } else {
      var front, last := records[..|records| - 1], records[|records| - 1];
      MarksAreHeld(front);
      RecordMarksAreHeld(front, last, |last.providers|);
      NoMoreMarks(front, last);
      assert records == front + [last];
    }
  }

  /** A record with only its first child events. */
  function WithEvents(r: Record, n: nat): Record
    requires n <= |r.childEvents|
  {
    r.(childEvents := r.childEvents[..n])
  }

  lemma OneMorePlace(front: seq<Record>, r: Record, n: nat, kind: Event -> bool)
    requires n < |r.childEvents|
    ensures |Places(front + [WithEvents(r, n + 1)], kind)|
            == |Places(front + [WithEvents(r, n)], kind)| + if kind(r.childEvents[n]) then 1 else 0
  {
    var key: (nat, nat) := (|front|, n);
    var before := Places(front + [WithEvents(r, n)], kind);
    assert key !in before;
    assert Places(front + [WithEvents(r, n + 1)], kind) == if kind(r.childEvents[n]) then before + {key} else before;
  }

  lemma NoMorePlaces(front: seq<Record>, r: Record, kind: Event -> bool)
    ensures Places(front + [WithEvents(r, 0)], kind) == Places(front, kind)
    ensures WithEvents(r, |r.childEvents|) == r
  {
    assert r.childEvents[..|r.childEvents|] == r.childEvents;
  }

  lemma {:induction false} CountEventsSnoc(events: seq<Event>, e: Event, counts: EventCounts)
    ensures CountEvents(events + [e], counts) == CountEvent(e, CountEvents(events, counts))
  {
    hide CountEvent;
    if events == [] {
      assert events + [e] == [e] && [e][1..] == [];
    } else {
      assert (events + [e])[1..] == events[1..] + [e];
      CountEventsSnoc(events[1..], e, CountEvent(events[0], counts));
    }
  }

  /** The three counts of child events, over the records and a part of one more. */
  ghost predicate PlacesTell(events: EventCounts, records: seq<Record>) {
    && events.exits == |Places(records, IsExit)|
    && events.measurementGaps == |Places(records, IsMeasurementGap)|
    && events.reuses == |Places(records, IsReuse)|
  }

  lemma {:induction false} RecordEventsTell(front: seq<Record>, r: Record, n: nat, counts: EventCounts)
    requires n <= |r.childEvents| && PlacesTell(counts, front)
    ensures var after := CountEvents(r.childEvents[..n], counts);
            && PlacesTell(after, front + [WithEvents(r, n)])
            && after.samplingGaps == counts.samplingGaps && after.treeGaps == counts.treeGaps
  {
    hide Places;
    if n == 0 {
      NoMorePlaces(front, r, IsExit);
      NoMorePlaces(front, r, IsMeasurementGap);
      NoMorePlaces(front, r, IsReuse);
    } else {
      RecordEventsTell(front, r, n - 1, counts);
      var e := r.childEvents[n - 1];
      assert r.childEvents[..n] == r.childEvents[..n - 1] + [e];
      CountEventsSnoc(r.childEvents[..n - 1], e, counts);
      OneMorePlace(front, r, n - 1, IsExit);
      OneMorePlace(front, r, n - 1, IsMeasurementGap);
      OneMorePlace(front, r, n - 1, IsReuse);
    }
  }

  lemma OneMoreRecordWith(front: seq<Record>, r: Record, kind: Record -> bool)
    ensures |RecordsWith(front + [r], kind)| == |RecordsWith(front, kind)| + if kind(r) then 1 else 0
  {
    var n: nat := |front|;
    var before := RecordsWith(front, kind);
    assert n !in before;
    assert RecordsWith(front + [r], kind) == if kind(r) then before + {n} else before;
  }

  lemma {:induction false} BatchEventsTell(records: seq<Record>)
    ensures EventsTell(BatchEvents(records), records)
  {
    hide Places, CountEvents, RecordsWith;
    if records == [] {
      NoPlaces(records);
    } else {
      var front, last := records[..|records| - 1], records[|records| - 1];
      assert records == front + [last];
      BatchEventsTell(front);
      OneMoreRecordWith(front, last, IsLate);
      OneMoreRecordWith(front, last, IsBlind);
      var gaps := BatchEvents(front);
      var late := if last.samplingGap.missedDeadline then gaps.(samplingGaps := gaps.samplingGaps + 1) else gaps;
      var blind := if last.tree.status.Gap? then late.(treeGaps := late.treeGaps + 1) else late;
      RecordEventsTell(front, last, |last.childEvents|, blind);
      NoMorePlaces(front, last, IsExit);
      assert last.childEvents[..|last.childEvents|] == last.childEvents;
    }
  }

  lemma NoPlaces(records: seq<Record>)
    requires records == []
    ensures EventsTell(NO_EVENTS, records)
  {
    assert Places(records, IsExit) == {} && Places(records, IsMeasurementGap) == {} && Places(records, IsReuse) == {};
    assert RecordsWith(records, IsLate) == {} && RecordsWith(records, IsBlind) == {};
  }

  /** The summary of any records describes the fields it is of. */
  lemma BatchSummaryTells(records: seq<Record>)
    ensures StatisticsTell(BatchSummary(records), records) && EventsTell(BatchSummary(records).events, records)
  {
    BaselineIsTold(records);
    AtlasIsTold(records);
    ProvidersAreTold(records);
    BothAreTold(records);
    MarksAreHeld(records);
    HeldAreDescribed(ValuesOf(records, MARKS), ProviderMarks(records));
    BatchEventsTell(records);
    hide Statistics, BatchValues, OfControl, Describes, Shown, ProviderMarks, BatchEvents, EventsTell, Holds;
  }

  // ----------------------------------------------------- the streaming accumulator

  type Row = (Metric, int)

  function Tagged(metric: Metric, values: seq<int>): (rows: seq<Row>)
    ensures |rows| == |values|
  {
    seq(|values|, i requires 0 <= i < |values| => (metric, values[i]))
  }

  /** The rows that `observe` inserts for one record, in its order. */
  function RowsOf(r: Record): seq<Row> {
    if r.control.Idle? then
      Tagged(Baseline(ResidentBytes), ObservedField(r.observer, ResidentBytes))
      + Tagged(Baseline(PrivateBytes), ObservedField(r.observer, PrivateBytes))
    else
      AggregateRows(r, AtlasOnly) + AggregateRows(r, ProviderOnly) + AggregateRows(r, ConcurrentAggregate)
      + Tagged(InCampaign(AtlasOnly, HighWaterBytes), ObservedField(r.atlas, HighWaterBytes))
      + Tagged(InCampaign(ProviderOnly, HighWaterBytes), AllObservedField(r.providers, HighWaterBytes))
  }

  function AggregateRows(r: Record, category: Category): seq<Row> {
    Tagged(InCampaign(category, ResidentBytes), Keep(AggregateField(r.aggregate, category, ResidentBytes)))
    + Tagged(InCampaign(category, PrivateBytes), Keep(AggregateField(r.aggregate, category, PrivateBytes)))
  }

  function AllRows(records: seq<Record>): seq<Row> {
    if records == [] then [] else AllRows(records[..|records| - 1]) + RowsOf(records[|records| - 1])
  }

  /** `SELECT value FROM metric WHERE name = ?` */
  function Select(table: seq<Row>, metric: Metric): seq<int> {
    if table == [] then []
    else (if table[0].0 == metric then [table[0].1] else []) + Select(table[1..], metric)
  }

  /** The metrics that the summary reports. */
  predicate Reported(metric: Metric) {
    match metric
    case Baseline(field) => !field.HighWaterBytes?
    case InCampaign(category, field) => !(category.ConcurrentAggregate? && field.HighWaterBytes?)
  }

  function Phase(metric: Metric): Control {
    if metric.Baseline? then Idle else Campaign
  }

  lemma {:induction false} SelectAppend(a: seq<Row>, b: seq<Row>, metric: Metric)
    ensures Select(a + b, metric) == Select(a, metric) + Select(b, metric)
  {
    if a == [] {
      assert a + b == b;
    } else {
      assert (a + b)[1..] == a[1..] + b && (a + b)[0] == a[0];
      var first := if a[0].0 == metric then [a[0].1] else [];
      assert Select(a, metric) == first + Select(a[1..], metric);
      assert Select(a + b, metric) == first + Select(a[1..] + b, metric);
      hide Select;
      SelectAppend(a[1..], b, metric);
    }
  }

  lemma {:induction false} SelectTagged(tag: Metric, values: seq<int>, metric: Metric)
    ensures Select(Tagged(tag, values), metric) == if tag == metric then values else []
  {
    if values != [] {
      assert Tagged(tag, values)[1..] == Tagged(tag, values[1..]);
      SelectTagged(tag, values[1..], metric);
    }
  }

  lemma SelectTwo(tag1: Metric, values1: seq<int>, tag2: Metric, values2: seq<int>, metric: Metric)
    requires tag1 != tag2
    ensures Select(Tagged(tag1, values1) + Tagged(tag2, values2), metric)
         == if metric == tag1 then values1 else if metric == tag2 then values2 else []
  {
    hide Select;
    SelectAppend(Tagged(tag1, values1), Tagged(tag2, values2), metric);
    SelectTagged(tag1, values1, metric);
    SelectTagged(tag2, values2, metric);
  }

  lemma SelectAggregateRows(r: Record, category: Category, metric: Metric)
    ensures Select(AggregateRows(r, category), metric)
         == if metric.InCampaign? && metric.category == category && !metric.field.HighWaterBytes?
            then Keep(AggregateField(r.aggregate, category, metric.field)) else []
  {
    hide Select, Keep, AggregateField;
    SelectTwo(InCampaign(category, ResidentBytes), Keep(AggregateField(r.aggregate, category, ResidentBytes)),
              InCampaign(category, PrivateBytes), Keep(AggregateField(r.aggregate, category, PrivateBytes)), metric);
  }

  lemma SelectRowsOf(r: Record, metric: Metric)
    requires Reported(metric)
    ensures Select(RowsOf(r), metric) == if r.control == Phase(metric) then BatchValue(r, metric) else []
  {
    hide Select, Keep, AggregateField, ObservedField, AllObservedField, AggregateRows;
    if r.control.Idle? {
      SelectTwo(Baseline(ResidentBytes), ObservedField(r.observer, ResidentBytes),
                Baseline(PrivateBytes), ObservedField(r.observer, PrivateBytes), metric);
    } else {
      var a, p, c := AggregateRows(r, AtlasOnly), AggregateRows(r, ProviderOnly), AggregateRows(r, ConcurrentAggregate);
      var ah := Tagged(InCampaign(AtlasOnly, HighWaterBytes), ObservedField(r.atlas, HighWaterBytes));
      var ph := Tagged(InCampaign(ProviderOnly, HighWaterBytes), AllObservedField(r.providers, HighWaterBytes));
      SelectAppend(a + p + c + ah, ph, metric);
      SelectAppend(a + p + c, ah, metric);
      SelectAppend(a + p, c, metric);
      SelectAppend(a, p, metric);
      SelectAggregateRows(r, AtlasOnly, metric);
      SelectAggregateRows(r, ProviderOnly, metric);
      SelectAggregateRows(r, ConcurrentAggregate, metric);
      SelectTagged(InCampaign(AtlasOnly, HighWaterBytes), ObservedField(r.atlas, HighWaterBytes), metric);
      SelectTagged(InCampaign(ProviderOnly, HighWaterBytes), AllObservedField(r.providers, HighWaterBytes), metric);
    }
  }

  /** For every stream, each query of the table yields the values the batch code collects. */
  lemma {:induction false} SelectIsBatch(records: seq<Record>, metric: Metric)
    requires Reported(metric)
    ensures Select(AllRows(records), metric) == BatchValues(OfControl(records, Phase(metric)), metric)
  {
    hide RowsOf, BatchValue, Reported, Phase;
    if records != [] {
      var front, last := records[..|records| - 1], records[|records| - 1];
      SelectIsBatch(front, metric);
      SelectAppend(AllRows(front), RowsOf(last), metric);
      SelectRowsOf(last, metric);
      var own := OfControl(front, Phase(metric));
      assert (own + [last])[..|own|] == own;
      assert own + [] == own;
    }
  }

  lemma TableStatistic(records: seq<Record>, metric: Metric)
    requires Reported(metric)
    ensures Statistics(Select(AllRows(records), metric))
            == Statistics(BatchValues(OfControl(records, Phase(metric)), metric))
  {
    hide *;
    SelectIsBatch(records, metric);
  }

  /** `SELECT MAX(value)` */
  function MaxOf(values: seq<int>): (m: int)
    requires values != []
    ensures m in values && forall v :: v in values ==> v <= m
  {
    if |values| == 1 then values[0]
    else
      var rest := MaxOf(values[1..]);
      assert values == [values[0]] + values[1..];
      if values[0] > rest then values[0] else rest
  }

  lemma MaxIsPeak(values: seq<int>)
    requires values != []
    ensures Statistics(values).peak == Some(MaxOf(values))
  {
    hide Sort, MaxOf;
    PeakIsGreatest(values);
  }

  lemma TaggedAppend(tag: Metric, a: seq<int>, b: seq<int>)
    ensures Tagged(tag, a + b) == Tagged(tag, a) + Tagged(tag, b)
  {
  }

  lemma OneMoreRecord(records: seq<Record>, r: Record)
    ensures AllRows(records + [r]) == AllRows(records) + RowsOf(r)
    ensures BatchEvents(records + [r]) == CountRecord(r, BatchEvents(records))
  {
    hide RowsOf, CountRecord;
    assert (records + [r])[..|records|] == records;
  }

  class StreamingSummaryAccumulator {
    var table: seq<Row>
    var recordCount: nat
    var events: EventCounts
    ghost var seen: seq<Record>

    /** The table and the counts are those of the records seen. */
    ghost predicate Valid()
      reads this
    {
      && recordCount == |seen|
      && table == AllRows(seen)
      && events == BatchEvents(seen)
    }

    constructor ()
      ensures Valid() && seen == []
    {
      table, recordCount, events, seen := [], 0, NO_EVENTS, [];
    }

    method Observe(r: Record)
      requires Valid()
      modifies this
      ensures Valid() && seen == old(seen) + [r]
    {
      hide RowsOf, CountEvents, AllRows, BatchEvents;
      OneMoreRecord(seen, r);
      var values := MetricValues(r);
      table := table + values;
      if r.samplingGap.missedDeadline {
        events := events.(samplingGaps := events.samplingGaps + 1);
      }
      if r.tree.status.Gap? {
        events := events.(treeGaps := events.treeGaps + 1);
      }
      CountChildEvents(r.childEvents);
      recordCount := recordCount + 1;
      seen := seen + [r];
    }

    /** The tuples handed to `executemany`. */
    method MetricValues(r: Record) returns (values: seq<Row>)
      ensures values == RowsOf(r)
    {
      hide Keep, AggregateRows, AllObservedField;
      values := [];
      if r.control.Idle? {
        if r.observer.status.Observed? {
          values := values + Tagged(Baseline(ResidentBytes), Keep(r.observer.resident));
          values := values + Tagged(Baseline(PrivateBytes), Keep(r.observer.private));
        }
        return;
      }
      values := AggregateRows(r, AtlasOnly) + AggregateRows(r, ProviderOnly) + AggregateRows(r, ConcurrentAggregate);
      if r.atlas.status.Observed? {
        values := values + Tagged(InCampaign(AtlasOnly, HighWaterBytes), Keep(r.atlas.highWater));
      }
      var highWater := HighWaterRows(r.providers);
      values := values + highWater;
    }

    method HighWaterRows(providers: seq<Measurement>) returns (values: seq<Row>)
      ensures values == Tagged(InCampaign(ProviderOnly, HighWaterBytes), AllObservedField(providers, HighWaterBytes))
    {
      hide Tagged, Keep;
      var tag := InCampaign(ProviderOnly, HighWaterBytes);
      values := Tagged(tag, []);
      for i := 0 to |providers|
        invariant values == Tagged(tag, AllObservedField(providers[..i], HighWaterBytes))
      {
        ghost var before := AllObservedField(providers[..i], HighWaterBytes);
        assert providers[..i + 1][..i] == providers[..i];
        if providers[i].status.Observed? {
          values := values + Tagged(tag, Keep(providers[i].highWater));
          TaggedAppend(tag, before, Keep(providers[i].highWater));
        } else {
          assert before + [] == before;
        }
      }
      assert providers[..|providers|] == providers;
    }

    method CountChildEvents(childEvents: seq<Event>)
      modifies this`events
      ensures events == CountEvents(childEvents, old(events))
    {
      for i := 0 to |childEvents|
        invariant CountEvents(childEvents[i..], events) == CountEvents(childEvents, old(events))
      {
        assert childEvents[i..][1..] == childEvents[i + 1..];
        match childEvents[i] {
          case DescendantExited(_, _) => events := events.(exits := events.exits + 1);
          case MeasurementGap(_, _) => events := events.(measurementGaps := events.measurementGaps + 1);
          case PidReuse(_, _, _) => events := events.(reuses := events.reuses + 1);
        }
      }
    }

    /** `_statistics`: count, two offsets into the ordered values, and the maximum. */
    method StatisticsOf(metric: Metric) returns (s: Statistic)
      ensures s == Statistics(Select(table, metric))
    {
      hide Select, Sort, MaxOf, RankIndex;
      var values := Select(table, metric);
      var count := |values|;
      if count == 0 {
        return Statistic(0, None, None, None);
      }
      var ordered := Sort(values);
      MaxIsPeak(values);
      return Statistic(count, Some(ordered[RankIndex(50, count)]), Some(ordered[RankIndex(95, count)]),
                       Some(MaxOf(values)));
    }

    /** `summary_parts` is the batch summary of the records seen. */
    method Parts() returns (parts: SummaryParts)
      requires Valid()
      ensures parts == BatchSummary(seen)
      ensures StatisticsTell(parts, seen) && EventsTell(parts.events, seen)
    {
      BatchSummaryTells(seen);
      hide StatisticsTell, EventsTell;
      hide Statistics, BatchValues, Select, AllRows, OfControl;
      var br := StatisticsOf(Baseline(ResidentBytes));
      var bp := StatisticsOf(Baseline(PrivateBytes));
      var ar := StatisticsOf(InCampaign(AtlasOnly, ResidentBytes));
      var ap := StatisticsOf(InCampaign(AtlasOnly, PrivateBytes));
      var ah := StatisticsOf(InCampaign(AtlasOnly, HighWaterBytes));
      var pr := StatisticsOf(InCampaign(ProviderOnly, ResidentBytes));
      var pp := StatisticsOf(InCampaign(ProviderOnly, PrivateBytes));
      var ph := StatisticsOf(InCampaign(ProviderOnly, HighWaterBytes));
      var cr := StatisticsOf(InCampaign(ConcurrentAggregate, ResidentBytes));
      var cp := StatisticsOf(InCampaign(ConcurrentAggregate, PrivateBytes));
      forall metric | Reported(metric)
        ensures Statistics(Select(table, metric)) == Statistics(BatchValues(OfControl(seen, Phase(metric)), metric))
      {
        TableStatistic(seen, metric);
      }
      return SummaryParts(BaselineSummary(br, bp), CampaignSummary(ar, ap, ah, pr, pp, ph, cr, cp), events);
    }
  }
}
