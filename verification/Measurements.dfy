/** Process measurements and their totals (scripts/process-tree-memory.py). */
module Measurements {
  import opened Common

  const MAX_BYTES := 0x7FFF_FFFF_FFFF_FFFF
  const MAX_PROCESSES := 4096

  const EXITED := "exited"
  const PID_REUSE := "pid_reuse"
  const UNAVAILABLE := "unavailable"

  datatype Status = Observed | Gap | NotApplicable

  datatype ErrorInfo = ErrorInfo(kind: string, detail: string)

  datatype Measurement = Measurement(
    status: Status, pid: Option<int>, identity: Option<string>,
    resident: Option<int>, private: Option<int>, highWater: Option<int>,
    collector: string, error: Option<ErrorInfo>)

  predicate ByteCount(n: Option<int>) {
    n.Some? ==> 0 <= n.value <= MAX_BYTES
  }

  predicate NoMemory(m: Measurement) {
    m.resident.None? && m.private.None? && m.highWater.None?
  }

  /** `validate_measurement`; the JSON types themselves are the datatype's. */
  predicate ValidMeasurement(m: Measurement) {
    && m.collector != ""
    && ByteCount(m.resident) && ByteCount(m.private) && ByteCount(m.highWater)
    && match m.status
       case Observed =>
         && m.pid.Some? && m.pid.value > 0 && m.identity.Some? && m.identity.value != ""
         && m.error.None? && m.resident.Some?
       case Gap =>
         m.error.Some? && m.error.value.kind != "" && m.error.value.detail != "" && NoMemory(m)
       case NotApplicable =>
         m.pid.None? && m.identity.None? && m.error.None? && NoMemory(m)
  }

  predicate AllValid(ms: seq<Measurement>) {
    forall m :: m in ms ==> ValidMeasurement(m)
  }

  /** The kind of a measurement's error, if it has one. */
  function Kind(m: Measurement): Option<string> {
    match m.error case Some(e) => Some(e.kind) case None => None
  }

  function NotApplicableMeasurement(collector: string): Measurement {
    Measurement(NotApplicable, None, None, None, None, None, collector, None)
  }

  function GapMeasurement(pid: int, kind: string, detail: string, collector: string,
                          identity: Option<string>): Measurement {
    Measurement(Gap, Some(pid), identity, None, None, None, collector, Some(ErrorInfo(kind, detail)))
  }

  // ------------------------------------------------------------------ totals

  datatype Totals = Totals(atlas: Option<int>, provider: Option<int>, both: Option<int>)

  datatype Aggregate = Aggregate(status: Status, resident: Totals, private: Totals)

  function Sum(values: seq<Option<int>>): Option<int> {
    if values == [] then Some(0)
    else match (values[0], Sum(values[1..]))
      case (Some(v), Some(rest)) => Some(v + rest)
      case _ => None
  }

  predicate AllObserved(ms: seq<Measurement>) {
    forall m :: m in ms ==> m.status.Observed?
  }

  /** One field of `concurrent_totals`; `None` is its overflow error. */
  function FieldTotals(atlas: Option<int>, providers: seq<Option<int>>, atlasObserved: bool,
                       providersObserved: bool): Option<Totals> {
    var atlasTotal := if atlasObserved then atlas else None;
    var providerTotal := if providersObserved then Sum(providers) else None;
    if providerTotal.Some? && providerTotal.value > MAX_BYTES then None
    else
      var both := if atlasObserved && providersObserved && atlasTotal.Some? && providerTotal.Some?
                  then Some(atlasTotal.value + providerTotal.value) else None;
      if both.Some? && both.value > MAX_BYTES then None else Some(Totals(atlasTotal, providerTotal, both))
  }

  function Residents(ms: seq<Measurement>): seq<Option<int>> {
    seq(|ms|, i requires 0 <= i < |ms| => ms[i].resident)
  }

  function Privates(ms: seq<Measurement>): seq<Option<int>> {
    seq(|ms|, i requires 0 <= i < |ms| => ms[i].private)
  }

  /** `concurrent_totals` of valid measurements. */
  function ConcurrentTotals(atlas: Measurement, providers: seq<Measurement>, treeComplete: bool): Option<Aggregate> {
    var providersObserved := treeComplete && AllObserved(providers);
    var atlasObserved := atlas.status.Observed?;
    var status := if atlasObserved && providersObserved then Observed else Gap;
    match (FieldTotals(atlas.resident, Residents(providers), atlasObserved, providersObserved),
           FieldTotals(atlas.private, Privates(providers), atlasObserved, providersObserved))
    case (Some(resident), Some(private)) => Some(Aggregate(status, resident, private))
    case _ => None
  }

  // -------------------------------------------------- what the totals say of the processes

  /** The sum of a list, by its last element. */
  function Total(values: seq<int>): int {
    if values == [] then 0 else Total(values[..|values| - 1]) + values[|values| - 1]
  }

  /** What makes it the sum: nothing is zero, one more value adds that value, and neither parts
      nor order matter. */
  lemma TotalLaws(values: seq<int>, more: seq<int>, x: int)
    ensures Total([]) == 0 && Total(values + [x]) == Total(values) + x && Total([x] + values) == x + Total(values)
    ensures Total(values + more) == Total(values) + Total(more) == Total(more + values)
  {
    assert (values + [x])[..|values|] == values;
    TotalAppend([x], values);
    TotalAppend(values, more);
    TotalAppend(more, values);
    assert [x][..0] == [];
  }

  lemma {:induction false} TotalAppend(a: seq<int>, b: seq<int>)
    ensures Total(a + b) == Total(a) + Total(b)
  {
    if b == [] {
      assert a + b == a;
    } else {
      assert (a + b)[..|a + b| - 1] == a + b[..|b| - 1];
      TotalAppend(a, b[..|b| - 1]);
    }
  }

  /** Taking one value out of a list. */
  lemma TakeOut(b: seq<int>, x: int) returns (rest: seq<int>)
    requires x in multiset(b)
    ensures multiset(rest) == multiset(b) - multiset{x} && Total(b) == Total(rest) + x
  {
    var k :| 0 <= k < |b| && b[k] == x;
    var front, back := b[..k], b[k + 1..];
    rest := front + back;
    assert b == front + ([x] + back);
    TotalAppend(front, [x] + back);
    TotalAppend(front, back);
    TotalLaws(back, [], x);
  }

  /** Any order of the values has the same sum. */
  lemma {:induction false} TotalOfReordered(a: seq<int>, b: seq<int>)
    requires multiset(a) == multiset(b)
    ensures Total(a) == Total(b)
  {
    if a == [] {
      assert |b| == |multiset(b)| == 0;
    } else {
      var n := |a| - 1;
      assert a == a[..n] + [a[n]];
      var rest := TakeOut(b, a[n]);
      assert multiset(a[..n]) == multiset(a) - multiset{a[n]};
      TotalOfReordered(a[..n], rest);
    }
  }

  /** The values of a list in which none is missing. */
  function Present(values: seq<Option<int>>): (present: seq<int>)
    requires forall i :: 0 <= i < |values| ==> values[i].Some?
    ensures |present| == |values| && forall i :: 0 <= i < |values| ==> Some(present[i]) == values[i]
  {
    seq(|values|, i requires 0 <= i < |values| => values[i].value)
  }

  /** One field's totals against the processes: Atlas's value when Atlas is observed, the sum of
      the providers' values when all of them are seen and have one, and both together. */
  ghost predicate FieldTells(t: Totals, atlas: Option<int>, providers: seq<Option<int>>, providersSeen: bool) {
    && t.atlas == atlas
    && (t.provider.Some? <==> providersSeen && forall i :: 0 <= i < |providers| ==> providers[i].Some?)
    && (t.provider.Some? ==> t.provider.value == Total(Present(providers)))
    && (t.both.Some? <==> t.atlas.Some? && t.provider.Some?)
    && (t.both.Some? ==> t.both.value == t.atlas.value + t.provider.value)
  }

  /** The totals of a sample, field by field, against its measurements and whether the tree was
      seen. */
  ghost predicate TotalsTell(a: Aggregate, atlas: Measurement, providers: seq<Measurement>, treeSeen: bool) {
    var providersSeen := treeSeen && forall i :: 0 <= i < |providers| ==> providers[i].status == Observed;
    var shown := atlas.status == Observed;
    && (a.status == Observed <==> shown && providersSeen) && a.status != NotApplicable
    && FieldTells(a.resident, if shown then atlas.resident else None,
                  seq(|providers|, i requires 0 <= i < |providers| => providers[i].resident), providersSeen)
    && FieldTells(a.private, if shown then atlas.private else None,
                  seq(|providers|, i requires 0 <= i < |providers| => providers[i].private), providersSeen)
  }

  /** The providers' sum of a field, or that sum and Atlas's value, is more than a byte count. */
  ghost predicate Overflows(atlas: Option<int>, providers: seq<Option<int>>, providersSeen: bool) {
    && providersSeen && (forall i :: 0 <= i < |providers| ==> providers[i].Some?)
    && (|| Total(Present(providers)) > MAX_BYTES
        || (atlas.Some? && atlas.value + Total(Present(providers)) > MAX_BYTES))
  }

  ghost predicate TotalsOverflow(atlas: Measurement, providers: seq<Measurement>, treeSeen: bool) {
    var providersSeen := treeSeen && forall i :: 0 <= i < |providers| ==> providers[i].status == Observed;
    var shown := atlas.status == Observed;
    || Overflows(if shown then atlas.resident else None,
                 seq(|providers|, i requires 0 <= i < |providers| => providers[i].resident), providersSeen)
    || Overflows(if shown then atlas.private else None,
                 seq(|providers|, i requires 0 <= i < |providers| => providers[i].private), providersSeen)
  }

  lemma {:induction false} SumIsTotal(values: seq<Option<int>>)
    ensures Sum(values).Some? <==> forall i :: 0 <= i < |values| ==> values[i].Some?
    ensures Sum(values).Some? ==> Sum(values).value == Total(Present(values))
  {
    if values != [] {
      var rest := values[1..];
      SumIsTotal(rest);
      assert forall i :: 0 < i < |values| ==> values[i] == rest[i - 1];
      if Sum(values).Some? {
        assert Present(values) == [values[0].value] + Present(rest);
        TotalLaws(Present(rest), [], values[0].value);
      }
    }
  }

  lemma FieldTotalsIff(atlas: Option<int>, providers: seq<Option<int>>, shown: bool, seen: bool, t: Totals)
    ensures var own := if shown then atlas else None;
            FieldTotals(atlas, providers, shown, seen) == Some(t)
            <==> FieldTells(t, own, providers, seen) && !Overflows(own, providers, seen)
    ensures FieldTotals(atlas, providers, shown, seen).None?
            <==> Overflows(if shown then atlas else None, providers, seen)
  {
    SumIsTotal(providers);
    hide Sum, Total;
  }

  lemma ObservedByIndex(ms: seq<Measurement>)
    ensures AllObserved(ms) <==> forall i :: 0 <= i < |ms| ==> ms[i].status == Observed
  {
    assert AllObserved(ms) ==> forall i :: 0 <= i < |ms| ==> ms[i] in ms && ms[i].status.Observed?;
  }

  /** `concurrent_totals` yields exactly the totals that tell the sums, and fails exactly when one
      of the sums is more than a byte count. */
  lemma ConcurrentTotalsIff(atlas: Measurement, providers: seq<Measurement>, treeSeen: bool, a: Aggregate)
    ensures ConcurrentTotals(atlas, providers, treeSeen) == Some(a)
            <==> TotalsTell(a, atlas, providers, treeSeen) && !TotalsOverflow(atlas, providers, treeSeen)
    ensures ConcurrentTotals(atlas, providers, treeSeen).None? <==> TotalsOverflow(atlas, providers, treeSeen)
  {
    ObservedByIndex(providers);
    hide FieldTotals, AllObserved, FieldTells, Overflows;
    var shown, seen := atlas.status.Observed?, treeSeen && AllObserved(providers);
    FieldTotalsIff(atlas.resident, Residents(providers), shown, seen, a.resident);
    FieldTotalsIff(atlas.private, Privates(providers), shown, seen, a.private);
    assert Residents(providers) == seq(|providers|, i requires 0 <= i < |providers| => providers[i].resident);
    assert Privates(providers) == seq(|providers|, i requires 0 <= i < |providers| => providers[i].private);
  }

  // ------------------------------------------------------------------ sampling

  const CADENCE_NS := 50_000_000

  datatype SamplingGap = SamplingGap(missedDeadline: bool, latenessNs: int, missedIntervals: int)

  /** `sampling_gap` for times that are not negative. */
  function SamplingGapOf(scheduled: int, actual: int): SamplingGap {
    var lateness := if actual > scheduled then actual - scheduled else 0;
    var missed := lateness / CADENCE_NS;
    SamplingGap(missed != 0, lateness, missed)
  }

  lemma TotalsFailIff(atlas: Measurement, providers: seq<Measurement>, treeSeen: bool)
    ensures ConcurrentTotals(atlas, providers, treeSeen).None? <==> TotalsOverflow(atlas, providers, treeSeen)
  {
    hide ConcurrentTotals, TotalsOverflow, TotalsTell;
    var nothing := Totals(None, None, None);
    ConcurrentTotalsIff(atlas, providers, treeSeen, Aggregate(Gap, nothing, nothing));
  }

  /** A deadline is missed exactly when the sample is at least one cadence late; the intervals
      missed are the whole cadences of that. */
  lemma SamplingGapTells(scheduled: int, actual: int)
    ensures var gap := SamplingGapOf(scheduled, actual);
            && (gap.missedDeadline <==> actual >= scheduled + 50_000_000)
            && (actual >= scheduled ==> gap.latenessNs == actual - scheduled)
            && (actual < scheduled ==> gap.latenessNs == 0)
            && gap.missedIntervals >= 0
            && gap.missedIntervals * 50_000_000 <= gap.latenessNs < (gap.missedIntervals + 1) * 50_000_000
  {
  }
}
