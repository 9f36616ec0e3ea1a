/** The sampling loop that follows the idle control, until Atlas and its process group are gone
    (scripts/process-tree-memory.py). */
module SamplingLoop {
  import opened Common
  import opened Measurements
  import opened Churn
  import opened RawStream
  import opened IdleControl
  import opened Sorting
  import Descendants

  /** What one turn of the loop is shown. `skipped` is the detail of a partial snapshot. */
  datatype Turn = Turn(labels: map<string, string>, observer: Measurement, atlas: Measurement, view: View,
                       skipped: Option<string>, exited: bool, groupEmpty: bool)

  /** The loop's `previous` and `atlas_identity`. */
  datatype Loop = Loop(previous: Identities, identity: Option<string>)

  const FRESH := Loop(map[], None)

  const IDENTITY_CHANGED := "Atlas PID identity changed after spawn"
  const ATLAS_EXITED := "Atlas exit observed by owned process handle"
  const PARTIAL_SNAPSHOT := "partial_process_snapshot"

  /** The process the samples are of, and how they are taken. */
  datatype Target = Target(atlasPid: int, collector: string)

  // ------------------------------------------------------------------- one turn

  function NextIdentity(identity: Option<string>, atlas: Measurement): Option<string> {
    if atlas.status.Observed? && identity.None? then atlas.identity else identity
  }

  predicate IdentityChanged(known: Option<string>, atlas: Measurement) {
    atlas.status.Observed? && atlas.identity != known
  }

  /** The Atlas measurement that is recorded; `known` is the identity after this turn. */
  function AtlasShown(known: Option<string>, turn: Turn, target: Target): Measurement {
    if turn.exited then GapMeasurement(target.atlasPid, EXITED, ATLAS_EXITED, turn.atlas.collector, known)
    else if IdentityChanged(known, turn.atlas) then
      GapMeasurement(target.atlasPid, PID_REUSE, IDENTITY_CHANGED, turn.atlas.collector, turn.atlas.identity)
    else turn.atlas
  }

  function GapTree(kind: string, detail: string): TreeObservation {
    TreeObservation(Gap, Some(ErrorInfo(kind, Cut(detail))))
  }

  /** What `observe_tree` says of the tree. */
  function TreeSeen(previous: Identities, turn: Turn, target: Target): TreeObservation {
    match turn.view
    case Unseen(kind, error) => GapTree(kind, error)
    case Seen(byPid, members, observe) =>
      if Tracked(byPid, members, previous, target.collector, observe, target.atlasPid).None? then
        GapTree(UNAVAILABLE, TrackingError(members, previous, target.atlasPid))
      else match turn.skipped
        case Some(detail) => GapTree(PARTIAL_SNAPSHOT, detail)
        case None => TreeObservation(Observed, None)
  }

  function TreeShown(previous: Identities, known: Option<string>, turn: Turn, target: Target): TreeObservation {
    if IdentityChanged(known, turn.atlas) then GapTree(PID_REUSE, IDENTITY_CHANGED)
    else TreeSeen(previous, turn, target)
  }

  /** The sample, or the sweep once Atlas and its group are gone. */
  function SampleOf(previous: Identities, turn: Turn): Sample {
    if turn.exited && turn.groupEmpty && previous != map[] then SweepAll else Look(turn.view)
  }

  function ProvidersShown(previous: Identities, turn: Turn, target: Target): seq<Measurement> {
    MeasurementsOf(previous, SampleOf(previous, turn), target.collector, target.atlasPid)
  }

  /** `_campaign_record` of a turn; `None` is the overflow error of its totals. The providers are
      in PID order already, see `ProvidersInOrder`. */
  function TurnRecord(loop_: Loop, turn: Turn, sequence: int, scheduled: int, actual: int,
                      target: Target): Option<Record> {
    var known := NextIdentity(loop_.identity, turn.atlas);
    var atlas := AtlasShown(known, turn, target);
    var tree := TreeShown(loop_.previous, known, turn, target);
    var providers := ProvidersShown(loop_.previous, turn, target);
    match ConcurrentTotals(atlas, providers, tree.status.Observed?)
    case None => None
    case Some(totals) =>
      Some(Record(SCHEMA_VERSION, RAW_KIND, sequence, Campaign, scheduled, actual, Some(target.atlasPid),
                  PidsOf(providers), turn.labels, turn.observer, atlas, providers, CampaignAggregate(totals),
                  SamplingGapOf(scheduled, actual), DescendantEvents(loop_.previous, providers), tree))
  }

  function NextLoop(loop_: Loop, turn: Turn, target: Target): Loop {
    Loop(RetainAll(loop_.previous, ProvidersShown(loop_.previous, turn, target)),
         NextIdentity(loop_.identity, turn.atlas))
  }

  function LoopAfter(turns: seq<Turn>, target: Target): Loop {
    if turns == [] then FRESH else NextLoop(LoopAfter(turns[..|turns| - 1], target), turns[|turns| - 1], target)
  }

  predicate Last(turn: Turn) {
    turn.exited && turn.groupEmpty
  }

  // --------------------------------------------------------------------- the loop

  /** The records of the first turns, on the grid that starts at `start`, never early. */
  ghost predicate Produced(rs: seq<Record>, turns: seq<Turn>, first: nat, start: int, target: Target) {
    && |rs| <= |turns|
    && (forall i :: 0 <= i < |rs| ==>
          TurnRecord(LoopAfter(turns[..i], target), turns[i], first + i, start + i * CADENCE_NS, rs[i].actual, target)
              == Some(rs[i]))
    && (forall i :: 0 <= i < |rs| ==> rs[i].actual >= start + i * CADENCE_NS)
    && (forall i :: 0 < i < |rs| ==> rs[i - 1].actual <= rs[i].actual)
  }

  lemma ProducedGrows(rs: seq<Record>, turns: seq<Turn>, first: nat, start: int, target: Target, r: Record)
    requires Produced(rs, turns, first, start, target) && |rs| < |turns|
    requires TurnRecord(LoopAfter(turns[..|rs|], target), turns[|rs|], first + |rs|, start + |rs| * CADENCE_NS,
                        r.actual, target) == Some(r)
    requires r.actual >= start + |rs| * CADENCE_NS && (rs != [] ==> rs[|rs| - 1].actual <= r.actual)
    ensures Produced(rs + [r], turns, first, start, target)
  {
    hide TurnRecord, LoopAfter;
  }

  lemma NothingProduced(turns: seq<Turn>, first: nat, start: int, target: Target)
    ensures Produced([], turns, first, start, target) && LoopAfter(turns[..0], target) == FRESH
  {
  }

  lemma LoopStep(turns: seq<Turn>, n: nat, target: Target)
    requires n < |turns|
    ensures LoopAfter(turns[..n + 1], target) == NextLoop(LoopAfter(turns[..n], target), turns[n], target)
  {
    hide NextLoop;
    assert turns[..n + 1][..n] == turns[..n];
  }

  lemma InTime(readings: seq<int>, used: nat, next: nat)
    requires NonDecreasing(readings) && 0 < used <= next <= |readings|
    ensures readings[used - 1] <= readings[next - 1]
  {
  }

  /** How many turns there are up to the first that ends the loop, if there is one. */
  function TurnsToEnd(turns: seq<Turn>): (n: Option<nat>)
    ensures n.Some? ==> 0 < n.value <= |turns| && Last(turns[n.value - 1])
                        && forall i :: 0 <= i < n.value - 1 ==> !Last(turns[i])
    ensures n.None? ==> forall i :: 0 <= i < |turns| ==> !Last(turns[i])
  {
    if turns == [] then None
    else if Last(turns[|turns| - 1]) && TurnsToEnd(turns[..|turns| - 1]).None? then Some(|turns|)
    else TurnsToEnd(turns[..|turns| - 1])
  }

  /** No total of a turn overflows. */
  ghost predicate HasTotals(loop_: Loop, turn: Turn, target: Target) {
    var known := NextIdentity(loop_.identity, turn.atlas);
    !TotalsOverflow(AtlasShown(known, turn, target), ProvidersShown(loop_.previous, turn, target),
                    TreeShown(loop_.previous, known, turn, target).status == Observed)
  }

  /** A turn is recorded, and what it leaves retained keeps the bound. */
  ghost predicate Passes(turns: seq<Turn>, i: nat, target: Target)
    requires i < |turns|
  {
    && HasTotals(LoopAfter(turns[..i], target), turns[i], target)
    && |LoopAfter(turns[..i + 1], target).previous| <= MAX_PROCESSES
  }

  /** The loop ends: some turn ends it, every turn up to there passes, and the clock's readings
      last until then. */
  ghost predicate LoopEnds(readings: seq<int>, clock: nat, turns: seq<Turn>, target: Target)
    requires clock < |readings|
  {
    var n := TurnsToEnd(turns);
    && n.Some? && (forall i :: 0 <= i < n.value ==> Passes(turns, i, target))
    && Waits(readings, clock + 1, readings[clock], n.value).Some?
  }

  /** The `while` of `run_measurement`: the schedule starts at a clock reading of its own. `None`
      is an error raised in the loop, or running out of readings or turns before it ends. */
  method SampleUntilGone(readings: seq<int>, clock: nat, turns: seq<Turn>, first: nat, target: Target)
    returns (r: Option<seq<Record>>)
    requires NonDecreasing(readings) && clock < |readings|
    ensures r.Some? <==> LoopEnds(readings, clock, turns, target)
    ensures r.Some? ==> 0 < |r.value| <= |turns| && Produced(r.value, turns, first, readings[clock], target)
    ensures r.Some? ==> TurnsToEnd(turns) == Some(|r.value|)
    // The loop stops at the first turn after which Atlas and its process group are gone.
    ensures r.Some? ==> turns[|r.value| - 1].exited && turns[|r.value| - 1].groupEmpty
                        && forall i :: 0 <= i < |r.value| - 1 ==> !turns[i].exited || !turns[i].groupEmpty
  {
    hide Produced, LoopAfter, TurnRecord, ProvidersShown, NextIdentity, RetainAll, NonDecreasing, HasTotals, Waited,
         TurnsToEnd, Waits, TurnTells;
    NothingProduced(turns, first, readings[clock], target);
    ghost var end := TurnsToEnd(turns);
    var start := readings[clock];
    var scheduled := start;
    var used := clock + 1;
    var rs: seq<Record> := [];
    var previous: Identities := map[];
    var identity: Option<string> := None;
    while |rs| < |turns|
      invariant |rs| <= |turns| && scheduled == start + |rs| * CADENCE_NS && clock < used <= |readings|
      invariant Produced(rs, turns, first, start, target)
      invariant Loop(previous, identity) == LoopAfter(turns[..|rs|], target)
      invariant rs != [] ==> rs[|rs| - 1].actual == readings[used - 1]
      invariant forall i :: 0 <= i < |rs| ==> !Last(turns[i]) && Passes(turns, i, target)
      invariant end.Some? ==> |rs| < end.value
                              && Waits(readings, clock + 1, start, end.value)
                                 == Waits(readings, used, scheduled, end.value - |rs|)
      decreases |turns| - |rs|
    {
      var turn := turns[|rs|];
      var actual, next := WaitUntilScheduled(scheduled, readings, used);
      if end.Some? {
        WaitsStep(readings, used, scheduled, end.value - |rs|);
      }
      if actual.None? {
        return None;
      }
      var record := TakeTurn(Loop(previous, identity), turn, first + |rs|, scheduled, actual.value, target);
      RecordShows(Loop(previous, identity), turn, first + |rs|, scheduled, actual.value, target);
      if record.None? {
        assert end.Some? ==> !Passes(turns, |rs|, target);
        return None;
      }
      LoopStep(turns, |rs|, target);
      InTime(readings, used, next);
      ProducedGrows(rs, turns, first, start, target, record.value);
      var retained := RetainedDescendantIdentities(previous, record.value.providers);
      if retained.None? {
        assert end.Some? ==> !Passes(turns, |rs|, target);
        return None;
      }
      assert Passes(turns, |rs|, target);
      previous := retained.value;
      identity := NextIdentity(identity, turn.atlas);
      rs := rs + [record.value];
      used := next;
      if turn.exited && turn.groupEmpty {
        WaitsNone(readings, used, scheduled + CADENCE_NS);
        return Some(rs);
      }
      scheduled := scheduled + CADENCE_NS;
    }
    return None;
  }

  lemma RecordShows(loop_: Loop, turn: Turn, sequence: int, scheduled: int, actual: int, target: Target)
    ensures var r := TurnRecord(loop_, turn, sequence, scheduled, actual, target);
            && (r.Some? ==> r.value.actual == actual
                            && r.value.providers == ProvidersShown(loop_.previous, turn, target))
            && (r.Some? <==> HasTotals(loop_, turn, target))
  {
    hide ProvidersShown, TreeShown, AtlasShown, ConcurrentTotals, DescendantEvents, TotalsOverflow;
    var known := NextIdentity(loop_.identity, turn.atlas);
    TotalsFailIff(AtlasShown(known, turn, target), ProvidersShown(loop_.previous, turn, target),
                  TreeShown(loop_.previous, known, turn, target).status.Observed?);
  }

  /** Another Atlas than the one known is observed. */
  predicate AtlasReplaced(loop_: Loop, turn: Turn) {
    turn.atlas.status == Observed && loop_.identity.Some? && turn.atlas.identity != loop_.identity
  }

  /** The error of a measurement: its kind and its text. */
  predicate Fails(m: Measurement, kind: string, detail: string) {
    m.status == Gap && m.error == Some(ErrorInfo(kind, detail))
  }

  /** An exit, and else another identity, replaces what was measured of Atlas. */
  ghost predicate AtlasTells(atlas: Measurement, loop_: Loop, turn: Turn, target: Target) {
    if turn.exited then
      && Fails(atlas, "exited", "Atlas exit observed by owned process handle") && atlas.pid == Some(target.atlasPid)
      && atlas.identity == (if loop_.identity.Some? then loop_.identity
                            else if turn.atlas.status == Observed then turn.atlas.identity else None)
    else if AtlasReplaced(loop_, turn) then
      && Fails(atlas, "pid_reuse", "Atlas PID identity changed after spawn") && atlas.pid == Some(target.atlasPid)
      && atlas.identity == turn.atlas.identity
    else atlas == turn.atlas
  }

  /** The tree was seen only if it was looked at in full, and Atlas is still the one known. */
  ghost predicate TreeTells(tree: TreeObservation, loop_: Loop, turn: Turn, target: Target) {
    && (tree.status == Observed <==>
          turn.view.Seen? && turn.skipped == None && !AtlasReplaced(loop_, turn)
          && |turn.view.members - {target.atlasPid} + loop_.previous.Keys| <= MAX_PROCESSES
          && forall pid :: pid in turn.view.members - {target.atlasPid} + loop_.previous.Keys ==> pid > 0)
    && (tree.status != Observed ==> tree.status == Gap && tree.error.Some?)
  }

  /** The sweep, once Atlas and its group are gone, ends every retained process. */
  ghost predicate ProvidersTell(providers: seq<Measurement>, loop_: Loop, turn: Turn, target: Target) {
    && (turn.exited && turn.groupEmpty ==>
          forall pid :: pid in loop_.previous ==>
            exists i :: 0 <= i < |providers| && providers[i].pid == Some(pid)
                        && Fails(providers[i], "exited", "contained process group exited")
                        && providers[i].identity == Some(loop_.previous[pid]))
    && (!(turn.exited && turn.groupEmpty) ==>
          providers == Sampled(loop_.previous, turn.view, target.collector, target.atlasPid))
  }

  /** What the record of a turn says, field by field. */
  ghost predicate TurnTells(r: Record, loop_: Loop, turn: Turn, sequence: int, scheduled: int, actual: int,
                            target: Target)
  {
    && r.control == Campaign && r.sequence == sequence && r.scheduled == scheduled && r.actual == actual
    && r.samplingGap == SamplingGapOf(scheduled, actual)
    && r.labels == turn.labels && r.observer == turn.observer && r.atlasPid == Some(target.atlasPid)
    && AtlasTells(r.atlas, loop_, turn, target) && TreeTells(r.tree, loop_, turn, target)
    && ProvidersTell(r.providers, loop_, turn, target)
    && r.childEvents == DescendantEvents(loop_.previous, r.providers)
    && r.aggregate.CampaignAggregate?
    && TotalsTell(r.aggregate.totals, r.atlas, r.providers, r.tree.status == Observed)
  }

  lemma SweepTells(previous: Identities, collector: string)
    ensures forall pid :: pid in previous ==>
              exists i :: 0 <= i < |Sweep(previous, collector)| && Sweep(previous, collector)[i].pid == Some(pid)
                          && Fails(Sweep(previous, collector)[i], "exited", "contained process group exited")
                          && Sweep(previous, collector)[i].identity == Some(previous[pid])
  {
    forall pid | pid in previous
      ensures exists i :: 0 <= i < |Sweep(previous, collector)| && Sweep(previous, collector)[i].pid == Some(pid)
                          && Fails(Sweep(previous, collector)[i], "exited", "contained process group exited")
                          && Sweep(previous, collector)[i].identity == Some(previous[pid])
    {
      assert pid in Ascending(previous.Keys);
      var i :| 0 <= i < |Ascending(previous.Keys)| && Ascending(previous.Keys)[i] == pid;
      assert Sweep(previous, collector)[i].pid == Some(pid);
    }
  }

  lemma AtlasShownTells(loop_: Loop, turn: Turn, target: Target)
    ensures AtlasTells(AtlasShown(NextIdentity(loop_.identity, turn.atlas), turn, target), loop_, turn, target)
  {
  }

  /** Tracking fails only on too many processes, or on an illegal PID. */
  lemma TrackedIff(byPid: map<int, Node>, members: set<int>, retained: Identities, collector: string,
                   observe: int -> Measurement, atlasPid: int)
    ensures Tracked(byPid, members, retained, collector, observe, atlasPid).Some? <==>
              |members - {atlasPid} + retained.Keys| <= MAX_PROCESSES
              && forall pid :: pid in members - {atlasPid} + retained.Keys ==> pid > 0
  {
    hide TrackAll, StrictlySorted;
    PositiveIff(members - {atlasPid} + retained.Keys);
  }

  lemma PositiveIff(pids: set<int>)
    ensures AllPositive(Ascending(pids)) <==> forall pid :: pid in pids ==> pid > 0
  {
    hide StrictlySorted;
    var all := Ascending(pids);
    assert forall pid :: pid in pids ==> exists i :: 0 <= i < |all| && all[i] == pid;
    assert forall i :: 0 <= i < |all| ==> all[i] in pids;
  }

  lemma TreeShownTells(loop_: Loop, turn: Turn, target: Target)
    ensures TreeTells(TreeShown(loop_.previous, NextIdentity(loop_.identity, turn.atlas), turn, target), loop_, turn,
                      target)
  {
    hide Tracked, Cut, TrackingError;
    match turn.view
    case Seen(byPid, members, observe) =>
      TrackedIff(byPid, members, loop_.previous, target.collector, observe, target.atlasPid);
    case Unseen(_, _) =>
  }

  lemma ProvidersShownTell(loop_: Loop, turn: Turn, target: Target)
    ensures ProvidersTell(ProvidersShown(loop_.previous, turn, target), loop_, turn, target)
  {
    hide Sampled, Sweep;
    SweepTells(loop_.previous, target.collector);
  }

  lemma RecordedTurnTells(loop_: Loop, turn: Turn, sequence: int, scheduled: int, actual: int, target: Target)
    requires TurnRecord(loop_, turn, sequence, scheduled, actual, target).Some?
    ensures TurnTells(TurnRecord(loop_, turn, sequence, scheduled, actual, target).value, loop_, turn, sequence,
                      scheduled, actual, target)
  {
    hide ConcurrentTotals, DescendantEvents, TotalsTell, PidsOf, AtlasShown, TreeShown, ProvidersShown, AtlasTells,
         TreeTells, ProvidersTell, NextIdentity, SamplingGapOf;
    var r := TurnRecord(loop_, turn, sequence, scheduled, actual, target).value;
    ConcurrentTotalsIff(r.atlas, r.providers, r.tree.status.Observed?, r.aggregate.totals);
    AtlasShownTells(loop_, turn, target);
    TreeShownTells(loop_, turn, target);
    ProvidersShownTell(loop_, turn, target);
  }

  /** One pass of the loop body, up to the record. */
  method TakeTurn(loop_: Loop, turn: Turn, sequence: int, scheduled: int, actual: int, target: Target)
    returns (record: Option<Record>)
    ensures record == TurnRecord(loop_, turn, sequence, scheduled, actual, target)
    ensures record.Some? ==> TurnTells(record.value, loop_, turn, sequence, scheduled, actual, target)
    ensures record.None? <==> !HasTotals(loop_, turn, target)
  {
    RecordShows(loop_, turn, sequence, scheduled, actual, target);
    if TurnRecord(loop_, turn, sequence, scheduled, actual, target).Some? {
      RecordedTurnTells(loop_, turn, sequence, scheduled, actual, target);
    }
    hide ConcurrentTotals, DescendantEvents, Sampled, Sweep, TreeSeen, PidsOf, TurnTells, HasTotals;
    var atlas, tree := turn.atlas, TreeSeen(loop_.previous, turn, target);
    var providers := Sampled(loop_.previous, turn.view, target.collector, target.atlasPid);
    var identity := loop_.identity;
    if atlas.status.Observed? {
      if identity.None? {
        identity := atlas.identity;
      } else if atlas.identity != identity {
        atlas := GapMeasurement(target.atlasPid, PID_REUSE, IDENTITY_CHANGED, turn.atlas.collector,
                                turn.atlas.identity);
        tree := GapTree(PID_REUSE, IDENTITY_CHANGED);
      }
    }
    if turn.exited {
      if turn.groupEmpty && loop_.previous != map[] {
        providers := Sweep(loop_.previous, target.collector);
      }
      atlas := GapMeasurement(target.atlasPid, EXITED, ATLAS_EXITED, turn.atlas.collector, identity);
    }
    var events := DescendantEventsOf(loop_.previous, providers);
    var totals := ConcurrentTotals(atlas, providers, tree.status.Observed?);
    if totals.None? {
      return None;
    }
    return Some(Record(SCHEMA_VERSION, RAW_KIND, sequence, Campaign, scheduled, actual, Some(target.atlasPid),
                       PidsOf(providers),
                       turn.labels, turn.observer, atlas, providers, CampaignAggregate(totals.value),
                       SamplingGapOf(scheduled, actual), events, tree));
  }

  // -------------------------------------------------------- what the records look like

  predicate ValidNode(node: Node) {
    (node.identity.Some? ==> node.identity.value != "")
    && ByteCount(node.resident) && ByteCount(node.private) && ByteCount(node.highWater)
  }

  /** Measurements as the platform makes them: typed, and errors with a text. */
  ghost predicate TypedTurn(turn: Turn, target: Target) {
    && target.collector != "" && target.atlasPid > 0
    && ValidLabels(turn.labels) && ValidMeasurement(turn.observer)
    && ValidMeasurement(turn.atlas) && turn.atlas.pid == Some(target.atlasPid) && !turn.atlas.status.NotApplicable?
    && (turn.skipped.Some? ==> turn.skipped.value != "")
    && TypedView(turn.view) && ObservesAll(turn.view)
    && match turn.view
       case Unseen(_, error) => error != ""
       case Seen(byPid, _, observe) =>
         (forall p :: p in byPid ==> ValidNode(byPid[p])) && forall p :: p > 0 ==> ValidMeasurement(observe(p))
  }

  ghost predicate TypedTurns(turns: seq<Turn>, target: Target) {
    forall i :: 0 <= i < |turns| ==> TypedTurn(turns[i], target)
  }

  /** Measurements of different processes, in PID order. */
  predicate InPidOrder(ms: seq<Measurement>, pids: seq<int>) {
    && |ms| == |pids| && StrictlySorted(pids)
    && forall i :: 0 <= i < |ms| ==> ms[i].pid == Some(pids[i])
  }

  lemma {:induction false} PidsInOrder(ms: seq<Measurement>, pids: seq<int>)
    requires |ms| == |pids| && forall i :: 0 <= i < |ms| ==> ms[i].pid == Some(pids[i])
    ensures PidsOf(ms) == pids
  {
    if ms != [] {
      PidsInOrder(ms[1..], pids[1..]);
      assert pids == [pids[0]] + pids[1..];
    }
  }

  lemma FailureProviders(previous: Identities, kind: string, error: string, collector: string)
    requires SystemKind(kind) && collector != ""
    ensures var ms := TreeFailure(previous, kind, FailureDetail(error), collector);
            AllValid(ms) && InPidOrder(ms, Ascending(previous.Keys))
  {
    assert |FailureDetail(error)| > 0;
    var detail := FailureDetail(error);
    hide FailureDetail, ValidMeasurement;
    var pids, ms := Ascending(previous.Keys), TreeFailure(previous, kind, detail, collector);
    forall i | 0 <= i < |ms|
      ensures ms[i].pid == Some(pids[i]) && ValidMeasurement(ms[i])
    {
      assert pids[i] in pids;
      FailedOneIsValid(previous, pids[i], kind, detail, collector);
    }
  }

  lemma FailedOneIsValid(previous: Identities, pid: int, kind: string, detail: string, collector: string)
    requires SystemKind(kind) && collector != "" && detail != "" && pid in previous
    ensures ValidMeasurement(GapMeasurement(pid, if kind == EXITED then UNAVAILABLE else kind, detail, collector,
                                            Some(previous[pid])))
  {
  }

  lemma SweepProviders(previous: Identities, collector: string)
    requires collector != ""
    ensures AllValid(Sweep(previous, collector)) && InPidOrder(Sweep(previous, collector), Ascending(previous.Keys))
  {
  }

  lemma TrackedOneIsValid(byPid: map<int, Node>, members: set<int>, previous: Identities, collector: string,
                          observe: int -> Measurement, pid: int)
    requires pid > 0 && collector != "" && Table(byPid) && (pid in byPid ==> ValidNode(byPid[pid]))
    requires ValidMeasurement(observe(pid)) && Observes(pid, observe(pid))
    ensures var m := TrackOne(byPid, members, previous, collector, observe, pid);
            ValidMeasurement(m) && m.pid == Some(pid)
  {
  }

  lemma TrackedProviders(turn: Turn, previous: Identities, target: Target, ms: seq<Measurement>)
    requires TypedTurn(turn, target) && turn.view.Seen?
    requires Tracked(turn.view.byPid, turn.view.members, previous, target.collector, turn.view.observe,
                     target.atlasPid) == Some(ms)
    ensures AllValid(ms)
    ensures InPidOrder(ms, Ascending(turn.view.members - {target.atlasPid} + previous.Keys))
    ensures |turn.view.members - {target.atlasPid} + previous.Keys| <= MAX_PROCESSES
  {
    hide TrackOne, ValidMeasurement, ValidLabels, Observes, Table, ValidNode;
    var others := turn.view.members - {target.atlasPid};
    var pids := Ascending(others + previous.Keys);
    forall i | 0 <= i < |ms|
      ensures ValidMeasurement(ms[i]) && ms[i].pid == Some(pids[i])
    {
      TrackedOneIsValid(turn.view.byPid, others, previous, target.collector, turn.view.observe, pids[i]);
    }
  }

  /** What is seen is valid and in PID order, and within a set that keeps the bound. */
  lemma SampledProviders(previous: Identities, turn: Turn, target: Target) returns (pids: seq<int>, all: set<int>)
    requires TypedTurn(turn, target) && |previous| <= MAX_PROCESSES
    ensures var ms := Sampled(previous, turn.view, target.collector, target.atlasPid);
            AllValid(ms) && InPidOrder(ms, pids)
    ensures previous.Keys <= all && |all| <= MAX_PROCESSES && forall p :: p in pids ==> p in all
  {
    hide AllValid, InPidOrder, Tracked, TreeFailure, ValidLabels, ValidMeasurement, ValidNode, SystemKind,
         FailureDetail, TrackingError;
    pids, all := Ascending(previous.Keys), previous.Keys;
    match turn.view
    case Unseen(kind, error) => FailureProviders(previous, kind, error, target.collector);
    case Seen(byPid, members, observe) =>
      match Tracked(byPid, members, previous, target.collector, observe, target.atlasPid)
      case Some(ms) =>
        all := members - {target.atlasPid} + previous.Keys;
        pids := Ascending(all);
        TrackedProviders(turn, previous, target, ms);
      case None =>
        UnavailableIsSystemKind();
        FailureProviders(previous, UNAVAILABLE, TrackingError(members, previous, target.atlasPid), target.collector);
  }

  lemma UnavailableIsSystemKind()
    ensures SystemKind(UNAVAILABLE)
  {
  }

  /** The providers of a turn are valid and in PID order, and retaining them keeps the bound. */
  lemma ProvidersInOrder(previous: Identities, turn: Turn, target: Target) returns (pids: seq<int>)
    requires TypedTurn(turn, target) && |previous| <= MAX_PROCESSES
    ensures var ms := ProvidersShown(previous, turn, target);
            AllValid(ms) && InPidOrder(ms, pids) && |RetainAll(previous, ms)| <= MAX_PROCESSES
  {
    assert target.collector != "";
    var all: set<int>;
    pids, all := SampledProviders(previous, turn, target);
    hide AllValid, InPidOrder, Sampled, Sweep, RetainAll, TypedTurn;
    if SampleOf(previous, turn).SweepAll? {
      pids, all := Ascending(previous.Keys), previous.Keys;
      SweepProviders(previous, target.collector);
    }
    RetainedWithin(previous, ProvidersShown(previous, turn, target), pids, all);
  }

  lemma RetainedWithin(previous: Identities, ms: seq<Measurement>, pids: seq<int>, all: set<int>)
    requires InPidOrder(ms, pids) && previous.Keys <= all && |all| <= MAX_PROCESSES
    requires forall p :: p in pids ==> p in all
    ensures |RetainAll(previous, ms)| <= MAX_PROCESSES
  {
    forall i | 0 <= i < |ms|
      ensures ms[i].pid.Some? && ms[i].pid.value in all
    {
      assert pids[i] in pids;
    }
    KeysWithin(previous, ms, all);
    Descendants.SubsetCount(RetainAll(previous, ms).Keys, all);
  }

  lemma {:induction false} KeysWithin(previous: Identities, ms: seq<Measurement>, all: set<int>)
    requires previous.Keys <= all && forall i :: 0 <= i < |ms| ==> ms[i].pid.Some? && ms[i].pid.value in all
    ensures RetainAll(previous, ms).Keys <= all
  {
    if ms != [] {
      KeysWithin(previous, ms[..|ms| - 1], all);
    }
  }

  /** A recorded turn passes every check that looks at one record alone. */
  lemma TurnIsWellFormed(loop_: Loop, turn: Turn, sequence: int, scheduled: int, actual: int, target: Target)
    requires TypedTurn(turn, target) && |loop_.previous| <= MAX_PROCESSES && 0 <= scheduled <= actual
    requires loop_.identity.Some? ==> loop_.identity.value != ""
    requires TurnRecord(loop_, turn, sequence, scheduled, actual, target).Some?
    ensures WellFormed(TurnRecord(loop_, turn, sequence, scheduled, actual, target).value)
  {
    hide TypedTurn, StrictlySorted, SamplingGapOf, NextIdentity, ProvidersShown, AtlasShown, TreeShown,
         ValidMeasurement, ValidLabels, ValidTree, AllValid, ConcurrentTotals, DescendantEvents;
    TurnParts(loop_, turn, target);
  }

  lemma TurnParts(loop_: Loop, turn: Turn, target: Target)
    requires TypedTurn(turn, target) && |loop_.previous| <= MAX_PROCESSES
    ensures var known := NextIdentity(loop_.identity, turn.atlas);
            var ms := ProvidersShown(loop_.previous, turn, target);
            && AllValid(ms) && StrictlySorted(PidsOf(ms))
            && ValidMeasurement(AtlasShown(known, turn, target))
               && AtlasShown(known, turn, target).pid == Some(target.atlasPid)
            && ValidTree(TreeShown(loop_.previous, known, turn, target))
    ensures ValidLabels(turn.labels) && ValidMeasurement(turn.observer) && target.atlasPid > 0
  {
    hide NextIdentity, ProvidersShown, AtlasShown, TreeShown, ValidMeasurement, ValidLabels, ValidTree, AllValid;
    var pids := ProvidersInOrder(loop_.previous, turn, target);
    PidsInOrder(ProvidersShown(loop_.previous, turn, target), pids);
    AtlasIsValid(loop_.identity, turn, target);
    TreeIsValid(loop_.previous, NextIdentity(loop_.identity, turn.atlas), turn, target);
  }

  lemma AtlasIsValid(identity: Option<string>, turn: Turn, target: Target)
    requires TypedTurn(turn, target)
    ensures var m := AtlasShown(NextIdentity(identity, turn.atlas), turn, target);
            ValidMeasurement(m) && m.pid == Some(target.atlasPid)
  {
    hide ValidLabels, TypedView, ObservesAll;
  }

  lemma TreeIsValid(previous: Identities, known: Option<string>, turn: Turn, target: Target)
    requires TypedTurn(turn, target)
    ensures ValidTree(TreeShown(previous, known, turn, target))
  {
    hide ValidLabels, ValidMeasurement, Tracked, Table, ObservesAll;
  }

  // ------------------------------------------------- the whole stream, after the idle control

  /** What the loop holds is bounded and never an empty identity. */
  lemma {:induction false} LoopHolds(turns: seq<Turn>, target: Target)
    requires TypedTurns(turns, target)
    ensures |LoopAfter(turns, target).previous| <= MAX_PROCESSES
    ensures LoopAfter(turns, target).identity.Some? ==> LoopAfter(turns, target).identity.value != ""
  {
    hide TypedTurn, ProvidersShown, RetainAll;
    if turns != [] {
      var front, last := turns[..|turns| - 1], turns[|turns| - 1];
      LoopHolds(front, target);
      var pids := ProvidersInOrder(LoopAfter(front, target).previous, last, target);
      AtlasIsNamed(last, target);
    }
  }

  lemma AtlasIsNamed(turn: Turn, target: Target)
    requires TypedTurn(turn, target)
    ensures turn.atlas.status.Observed? ==> turn.atlas.identity.Some? && turn.atlas.identity.value != ""
  {
  }

  /** Once known, the identity stays; and it is the only one that is recorded as observed. */
  lemma {:induction false} IdentityStays(turns: seq<Turn>, n: nat, target: Target)
    requires n <= |turns| && LoopAfter(turns[..n], target).identity.Some?
    ensures LoopAfter(turns, target).identity == LoopAfter(turns[..n], target).identity
    decreases |turns| - n
  {
    hide ProvidersShown, RetainAll;
    if n < |turns| {
      LoopStep(turns, n, target);
      IdentityStays(turns, n + 1, target);
    } else {
      assert turns[..n] == turns;
    }
  }

  lemma {:induction false} IdleRetainsNothing(idle: seq<Record>)
    requires forall i :: 0 <= i < |idle| ==> idle[i].control.Idle?
    ensures RetainedBy(idle) == map[]
  {
    if idle != [] {
      IdleRetainsNothing(idle[..|idle| - 1]);
    }
  }

  /** The validator retains what the loop retains. */
  lemma {:induction false} RetainedAlike(idle: seq<Record>, rs: seq<Record>, turns: seq<Turn>, first: nat, start: int,
                                         target: Target, n: nat)
    requires n <= |rs| && n <= |turns|
    requires forall i :: 0 <= i < |idle| ==> idle[i].control.Idle?
    requires Produced(rs, turns, first, start, target)
    ensures RetainedBy(idle + rs[..n]) == LoopAfter(turns[..n], target).previous
    decreases n
  {
    hide Produced, ProvidersShown, RetainAll, LoopAfter, DescendantEvents, ShownIdentity, RetainedBy, FirstShown, Idles;
    if n == 0 {
      assert idle + rs[..0] == idle;
      IdleRetainsNothing(idle);
      NothingProduced(turns, first, start, target);
    } else {
      RetainedAlike(idle, rs, turns, first, start, target, n - 1);
      LoopStep(turns, n - 1, target);
      ProducedRecord(rs, turns, first, start, target, n - 1);
      SummariesStep(idle + rs[..n - 1], rs[n - 1]);
      assert idle + rs[..n] == idle + rs[..n - 1] + [rs[n - 1]];
    }
  }

  lemma ProducedFits(rs: seq<Record>, turns: seq<Turn>, first: nat, start: int, target: Target)
    requires Produced(rs, turns, first, start, target)
    ensures |rs| <= |turns|
    ensures forall i :: 0 < i < |rs| ==> rs[i - 1].actual <= rs[i].actual
  {
    hide TurnRecord, LoopAfter;
  }

  lemma ProducedIs(rs: seq<Record>, turns: seq<Turn>, first: nat, start: int, target: Target, i: nat)
    requires Produced(rs, turns, first, start, target) && i < |rs|
    ensures i < |turns| && rs[i].actual >= start + i * CADENCE_NS
    ensures TurnRecord(LoopAfter(turns[..i], target), turns[i], first + i, start + i * CADENCE_NS, rs[i].actual,
                       target) == Some(rs[i])
  {
    hide TurnRecord, LoopAfter;
  }

  lemma ProducedRecord(rs: seq<Record>, turns: seq<Turn>, first: nat, start: int, target: Target, i: nat)
    requires Produced(rs, turns, first, start, target) && i < |rs|
    ensures i < |turns|
    ensures var loop_, r := LoopAfter(turns[..i], target), rs[i];
            && r.control.Campaign? && r.sequence == first + i && r.scheduled == start + i * CADENCE_NS <= r.actual
            && r.providers == ProvidersShown(loop_.previous, turns[i], target)
            && r.childEvents == DescendantEvents(loop_.previous, r.providers)
            && (ShownIdentity(r).Some? ==> LoopAfter(turns[..i + 1], target).identity == ShownIdentity(r))
  {
    ProducedIs(rs, turns, first, start, target, i);
    hide Produced, LoopAfter;
    LoopStep(turns, i, target);
    RecordedTurn(LoopAfter(turns[..i], target), turns[i], first + i, start + i * CADENCE_NS, rs[i].actual, target);
  }

  lemma RecordedTurn(loop_: Loop, turn: Turn, sequence: int, scheduled: int, actual: int, target: Target)
    requires TurnRecord(loop_, turn, sequence, scheduled, actual, target).Some?
    ensures var r := TurnRecord(loop_, turn, sequence, scheduled, actual, target).value;
            && r.control.Campaign? && r.sequence == sequence && r.scheduled == scheduled && r.actual == actual
            && r.providers == ProvidersShown(loop_.previous, turn, target)
            && r.childEvents == DescendantEvents(loop_.previous, r.providers)
            && (ShownIdentity(r).Some? ==> NextLoop(loop_, turn, target).identity == ShownIdentity(r))
            && (turn.exited ==> r.atlas.status.Gap? && Ends(r.atlas))
  {
    hide ProvidersShown, TreeShown, ConcurrentTotals, DescendantEvents, RetainAll;
  }

  lemma ProducedIsWellFormed(rs: seq<Record>, turns: seq<Turn>, first: nat, start: int, target: Target, i: nat)
    requires Produced(rs, turns, first, start, target) && i < |rs| && TypedTurns(turns, target) && start >= 0
    ensures WellFormed(rs[i]) && |RetainAll(LoopAfter(turns[..i], target).previous, rs[i].providers)| <= MAX_PROCESSES
  {
    ProducedIs(rs, turns, first, start, target, i);
    ProducedRecord(rs, turns, first, start, target, i);
    assert TypedTurns(turns[..i], target) && TypedTurn(turns[i], target);
    hide WellFormed, TypedTurn, TypedTurns, TurnRecord, LoopAfter, ProvidersShown, RetainAll, Produced,
         DescendantEvents, ShownIdentity, AllValid, InPidOrder;
    LoopHolds(turns[..i], target);
    TurnIsWellFormed(LoopAfter(turns[..i], target), turns[i], first + i, start + i * CADENCE_NS, rs[i].actual, target);
    var pids := ProvidersInOrder(LoopAfter(turns[..i], target).previous, turns[i], target);
  }

  /** The idle control and then the loop's records, as the validator sees them. */
  ghost predicate Stream(idle: seq<Record>, idleStart: int, snapshots: seq<Snapshot>, rs: seq<Record>, turns: seq<Turn>,
                         start: int, target: Target)
  {
    && OnSchedule(idle, idleStart, snapshots) && |idle| == IDLE_SAMPLES && idleStart >= 0
    && (forall s :: s in snapshots ==> TypedSnapshot(s))
    && Produced(rs, turns, IDLE_SAMPLES, start, target) && rs != [] && TypedTurns(turns, target)
    && start >= idle[IDLE_SAMPLES - 1].actual
  }

  /** The loop's records, once their schedule starts after the idle control, chain with it. */
  lemma StreamIsChained(idle: seq<Record>, idleStart: int, snapshots: seq<Snapshot>, rs: seq<Record>, turns: seq<Turn>,
                        start: int, target: Target, maximum: int)
    requires Stream(idle, idleStart, snapshots, rs, turns, start, target)
    requires start > idle[IDLE_SAMPLES - 1].actual && |idle + rs| <= maximum
    ensures Chained(idle + rs, maximum)
  {
    hide WellFormed, TypedTurn, TurnRecord, LoopAfter, RetainedBy, FirstShown, ChurnConsistent, TypedSnapshot,
         ShownIdentity, Link;
    var all := idle + rs;
    IdleIsChained(idle, idleStart, snapshots, maximum);
    forall i | 0 <= i < |all|
      ensures all[i].sequence == i && WellFormed(all[i])
    {
      if i >= |idle| {
        ProducedRecord(rs, turns, IDLE_SAMPLES, start, target, i - |idle|);
        ProducedIsWellFormed(rs, turns, IDLE_SAMPLES, start, target, i - |idle|);
      }
    }
    forall i | 0 < i < |all|
      ensures Link(all[i - 1], all[i])
    {
      if i < |idle| {
        assert Link(idle[i - 1], idle[i]);
      } else {
        StreamLinks(idle, idleStart, snapshots, rs, turns, start, target, i - |idle|);
      }
    }
    StreamShowsOne(idle, idleStart, snapshots, rs, turns, start, target);
    forall i | 0 <= i < |all|
      ensures ChurnConsistent(RetainedBy(all[..i]), all[i])
    {
      if i < |idle| {
        assert all[..i] == idle[..i];
      } else {
        StreamChurn(idle, idleStart, snapshots, rs, turns, start, target, i - |idle|);
        assert all[..i] == idle + rs[..i - |idle|];
      }
    }
  }

  lemma IdleAreIdle(idle: seq<Record>, idleStart: int, snapshots: seq<Snapshot>)
    requires OnSchedule(idle, idleStart, snapshots)
    ensures forall i :: 0 <= i < |idle| ==> idle[i].control.Idle? && ShownIdentity(idle[i]).None?
  {
    hide ValidMeasurement;
    forall i | 0 <= i < |idle|
      ensures idle[i].control.Idle?
    {
      assert idle[i] == IdleRecord(i, idleStart + i * CADENCE_NS, idle[i].actual, snapshots[i]);
    }
  }

  lemma StreamLinks(idle: seq<Record>, idleStart: int, snapshots: seq<Snapshot>, rs: seq<Record>, turns: seq<Turn>,
                    start: int, target: Target, i: nat)
    requires Stream(idle, idleStart, snapshots, rs, turns, start, target) && i < |rs|
    ensures Link(if i == 0 then idle[IDLE_SAMPLES - 1] else rs[i - 1], rs[i])
            <==> (i == 0 ==> start > idle[IDLE_SAMPLES - 1].actual)
  {
    IdleAreIdle(idle, idleStart, snapshots);
    ProducedFits(rs, turns, IDLE_SAMPLES, start, target);
    ProducedRecord(rs, turns, IDLE_SAMPLES, start, target, i);
    if i > 0 {
      ProducedRecord(rs, turns, IDLE_SAMPLES, start, target, i - 1);
    }
    hide Produced, OnSchedule, TypedTurns, TypedSnapshot, LoopAfter, ProvidersShown, DescendantEvents, ShownIdentity;
  }

  lemma StreamChurn(idle: seq<Record>, idleStart: int, snapshots: seq<Snapshot>, rs: seq<Record>, turns: seq<Turn>,
                    start: int, target: Target, i: nat)
    requires Stream(idle, idleStart, snapshots, rs, turns, start, target) && i < |rs|
    ensures ChurnConsistent(RetainedBy(idle + rs[..i]), rs[i])
  {
    hide TypedTurn, TurnRecord, LoopAfter, TypedSnapshot, WellFormed, RetainAll, RetainedBy;
    ProducedRecord(rs, turns, IDLE_SAMPLES, start, target, i);
    ProducedIsWellFormed(rs, turns, IDLE_SAMPLES, start, target, i);
    RetainedAlike(idle, rs, turns, IDLE_SAMPLES, start, target, i);
  }

  lemma StreamShowsOne(idle: seq<Record>, idleStart: int, snapshots: seq<Snapshot>, rs: seq<Record>, turns: seq<Turn>,
                       start: int, target: Target)
    requires Stream(idle, idleStart, snapshots, rs, turns, start, target)
    ensures var all := idle + rs;
            forall i :: 0 <= i < |all| && ShownIdentity(all[i]).Some? ==> ShownIdentity(all[i]) == FirstShown(all)
  {
    IdleAreIdle(idle, idleStart, snapshots);
    ProducedFits(rs, turns, IDLE_SAMPLES, start, target);
    hide Produced, OnSchedule, TypedTurns, LoopAfter, TypedSnapshot, FirstShown, ShownIdentity;
    var all := idle + rs;
    forall i | 0 <= i < |all| && ShownIdentity(all[i]).Some?
      ensures ShownIdentity(all[i]) == LoopAfter(turns[..|rs|], target).identity
    {
      if i >= |idle| {
        ShownStays(rs, turns, IDLE_SAMPLES, start, target, i - |idle|);
      }
    }
    FirstShownIsShown(all);
    ShownNeedsFirst(all);
  }

  lemma ShownStays(rs: seq<Record>, turns: seq<Turn>, first: nat, start: int, target: Target, i: nat)
    requires Produced(rs, turns, first, start, target) && i < |rs|
    ensures |rs| <= |turns|
    ensures ShownIdentity(rs[i]).Some? ==> ShownIdentity(rs[i]) == LoopAfter(turns[..|rs|], target).identity
  {
    ProducedFits(rs, turns, first, start, target);
    ProducedRecord(rs, turns, first, start, target, i);
    hide Produced, LoopAfter, ShownIdentity, ProvidersShown, DescendantEvents;
    if ShownIdentity(rs[i]).Some? {
      assert turns[..|rs|][..i + 1] == turns[..i + 1];
      IdentityStays(turns[..|rs|], i + 1, target);
    }
  }

  /** For every clock that does not go back and everything the samplers can be shown, the idle
      control and the loop's records form a stream that the validator takes exactly when the
      loop's schedule starts after the last idle reading: an equal reading is refused. */
  lemma LoopStreamIff(idle: seq<Record>, idleStart: int, snapshots: seq<Snapshot>, rs: seq<Record>, turns: seq<Turn>,
                      start: int, target: Target, maximum: int)
    requires Stream(idle, idleStart, snapshots, rs, turns, start, target) && |idle + rs| <= maximum
    ensures Fold(idle + rs, maximum).Some? <==> start > idle[IDLE_SAMPLES - 1].actual
  {
    hide WellFormed, TypedTurn, TurnRecord, LoopAfter, RetainedBy, FirstShown, ChurnConsistent, TypedSnapshot,
         ShownIdentity, Step, Holds;
    FoldIsChained(idle + rs, maximum);
    StreamLinks(idle, idleStart, snapshots, rs, turns, start, target, 0);
    if start > idle[IDLE_SAMPLES - 1].actual {
      StreamIsChained(idle, idleStart, snapshots, rs, turns, start, target, maximum);
    } else {
      var all := idle + rs;
      assert all[IDLE_SAMPLES - 1] == idle[IDLE_SAMPLES - 1] && all[IDLE_SAMPLES] == rs[0];
    }
  }

  /** And a loop that ended makes an accepted run exactly when it also took a second sample. */
  lemma LoopRunIff(idle: seq<Record>, idleStart: int, snapshots: seq<Snapshot>, rs: seq<Record>, turns: seq<Turn>,
                   start: int, target: Target, maximum: int)
    requires Stream(idle, idleStart, snapshots, rs, turns, start, target) && |idle + rs| <= maximum
    requires Last(turns[|rs| - 1])
    ensures Accepts(idle + rs, maximum) <==> start > idle[IDLE_SAMPLES - 1].actual && |rs| >= 2
  {
    hide WellFormed, TypedTurn, TurnRecord, LoopAfter, RetainedBy, FirstShown, ChurnConsistent, TypedSnapshot,
         ShownIdentity, Step, Chained;
    var all := idle + rs;
    LoopStreamIff(idle, idleStart, snapshots, rs, turns, start, target, maximum);
    FoldIsChained(all, maximum);
    forall i | 0 <= i < |all|
      ensures all[i].control.Idle? <==> i < IDLE_SAMPLES
    {
      if i >= |idle| {
        ProducedRecord(rs, turns, IDLE_SAMPLES, start, target, i - |idle|);
      }
    }
    IdlesCounts(all, IDLE_SAMPLES);
    LastShowsExit(rs, turns, IDLE_SAMPLES, start, target);
    assert all[|all| - 1] == rs[|rs| - 1] && all[0] == idle[0] && all[IDLE_SAMPLES - 1] == idle[IDLE_SAMPLES - 1];
  }

  lemma LastShowsExit(rs: seq<Record>, turns: seq<Turn>, first: nat, start: int, target: Target)
    requires Produced(rs, turns, first, start, target) && rs != [] && Last(turns[|rs| - 1])
    ensures rs[|rs| - 1].atlas.status.Gap? && Ends(rs[|rs| - 1].atlas)
  {
    var i := |rs| - 1;
    ProducedIs(rs, turns, first, start, target, i);
    RecordedTurn(LoopAfter(turns[..i], target), turns[i], first + i, start + i * CADENCE_NS, rs[i].actual, target);
    hide *;
  }

  /** Every record of the loop says of its turn what it should. */
  lemma ProducedTells(rs: seq<Record>, turns: seq<Turn>, first: nat, start: int, target: Target)
    requires Produced(rs, turns, first, start, target)
    ensures |rs| <= |turns|
    ensures forall i :: 0 <= i < |rs| ==>
              TurnTells(rs[i], LoopAfter(turns[..i], target), turns[i], first + i, start + i * CADENCE_NS, rs[i].actual,
                        target)
  {
    ProducedFits(rs, turns, first, start, target);
    forall i | 0 <= i < |rs|
      ensures TurnTells(rs[i], LoopAfter(turns[..i], target), turns[i], first + i, start + i * CADENCE_NS,
                        rs[i].actual, target)
    {
      ProducedIs(rs, turns, first, start, target, i);
      RecordedTurnTells(LoopAfter(turns[..i], target), turns[i], first + i, start + i * CADENCE_NS, rs[i].actual,
                        target);
      hide *;
    }
  }

  /** The idle control and the loop both end: the readings last for the idle samples, one more
      reading, and the turns up to one that ends the loop, none of which overflows its totals. */
  ghost predicate RunEnds(readings: seq<int>, snapshots: seq<Snapshot>, turns: seq<Turn>, target: Target)
    requires readings != []
  {
    var idle, n := Waits(readings, 1, readings[0], |snapshots|), TurnsToEnd(turns);
    && AllObservable(snapshots) && idle.Some? && idle.value < |readings| && n.Some?
    && (forall i :: 0 <= i < n.value ==> HasTotals(LoopAfter(turns[..i], target), turns[i], target))
    && Waits(readings, idle.value + 1, readings[idle.value], n.value).Some?
  }

  /** Typed turns keep the bound on processes, so only their totals can fail. */
  lemma TypedTurnsPass(turns: seq<Turn>, i: nat, target: Target)
    requires TypedTurns(turns, target) && i < |turns|
    ensures Passes(turns, i, target) <==> HasTotals(LoopAfter(turns[..i], target), turns[i], target)
  {
    hide TypedTurn, LoopAfter, HasTotals;
    LoopHolds(turns[..i + 1], target);
  }

  /** The idle control and then the loop, on one clock. */
  method SampleRun(readings: seq<int>, snapshots: seq<Snapshot>, turns: seq<Turn>, target: Target)
    returns (r: Option<(seq<Record>, seq<Record>)>, start: int)
    requires NonDecreasing(readings) && readings != [] && readings[0] >= 0 && |snapshots| == IDLE_SAMPLES
    requires (forall s :: s in snapshots ==> TypedSnapshot(s)) && TypedTurns(turns, target)
    ensures r.Some? <==> RunEnds(readings, snapshots, turns, target)
    ensures r.Some? ==> Stream(r.value.0, readings[0], snapshots, r.value.1, turns, start, target)
    ensures r.Some? ==> TurnsToEnd(turns) == Some(|r.value.1|)
    ensures r.Some? ==> forall i :: 0 <= i < |r.value.1| ==>
              TurnTells(r.value.1[i], LoopAfter(turns[..i], target), turns[i], IDLE_SAMPLES + i,
                        start + i * CADENCE_NS, r.value.1[i].actual, target)
  {
    hide TurnTells, LoopAfter;
    hide OnSchedule, Produced, TypedTurns, TypedSnapshot, NonDecreasing, HasTotals, Passes, AllObservable, Waits,
         TurnsToEnd;
    start := 0;
    var idle, clock := CollectIdleControl(readings, snapshots);
    if idle.None? || clock == |readings| {
      return None, start;
    }
    start := readings[clock];
    var rs := SampleUntilGone(readings, clock, turns, IDLE_SAMPLES, target);
    forall i | 0 <= i < |turns|
      ensures Passes(turns, i, target) <==> HasTotals(LoopAfter(turns[..i], target), turns[i], target)
    {
      TypedTurnsPass(turns, i, target);
    }
    if rs.None? {
      return None, start;
    }
    InTime(readings, clock, clock + 1);
    ProducedTells(rs.value, turns, IDLE_SAMPLES, start, target);
    return Some((idle.value, rs.value)), start;
  }
}
