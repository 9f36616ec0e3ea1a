/** Process churn: which descendants are retained, and the events that end them
    (scripts/process-tree-memory.py). */
module Churn {
  import opened Common
  import opened Measurements
  import opened Sorting

  type Identities = map<int, string>

  datatype Event =
    | DescendantExited(pid: int, identity: string)
    | PidReuse(pid: int, previousIdentity: string, currentIdentity: Option<string>)
    | MeasurementGap(pid: int, error: Option<ErrorInfo>)

  /** A measurement that ends the life of a retained process. */
  predicate Ends(m: Measurement) {
    Kind(m) == Some(EXITED) || Kind(m) == Some(PID_REUSE)
  }

  // ---------------------------------------------------------- retained identities

  function Retain(retained: Identities, m: Measurement): Identities {
    if m.pid.None? then retained
    else if m.status.Observed? && m.identity.Some? then retained[m.pid.value := m.identity.value]
    else if Ends(m) then retained - {m.pid.value}
    else if m.identity.Some? then retained[m.pid.value := m.identity.value]
    else retained
  }

  function RetainAll(retained: Identities, current: seq<Measurement>): Identities {
    if current == [] then retained else Retain(RetainAll(retained, current[..|current| - 1]), current[|current| - 1])
  }

  /** `retained_descendant_identities`; `None` is its bound error. */
  function Retained(previous: Identities, current: seq<Measurement>): Option<Identities> {
    var retained := RetainAll(previous, current);
    if |retained| > MAX_PROCESSES then None else Some(retained)
  }

  method RetainedDescendantIdentities(previous: Identities, current: seq<Measurement>) returns (r: Option<Identities>)
    ensures r == Retained(previous, current)
  {
    var retained := previous;
    for i := 0 to |current|
      invariant retained == RetainAll(previous, current[..i])
    {
      var m := current[i];
      assert current[..i + 1][..i] == current[..i];
      if m.pid.Some? {
        var pid := m.pid.value;
        if m.status.Observed? && m.identity.Some? {
          retained := retained[pid := m.identity.value];
        } else if Ends(m) {
          retained := retained - {pid};
        } else if m.identity.Some? {
          retained := retained[pid := m.identity.value];
        }
      }
    }
    assert current[..|current|] == current;
    return if |retained| > MAX_PROCESSES then None else Some(retained);
  }

  // ---------------------------------------------------------------------- events

  /** The event of one measurement, if any. */
  function EventOf(previous: Identities, m: Measurement): Option<Event> {
    if m.pid.None? then None
    else
      var pid := m.pid.value;
      if Kind(m) == Some(PID_REUSE) && pid in previous then Some(PidReuse(pid, previous[pid], m.identity))
      else if Kind(m) == Some(EXITED) && pid in previous then Some(DescendantExited(pid, previous[pid]))
      else if m.status.Gap? then Some(MeasurementGap(pid, m.error))
      else if m.identity.Some? && pid in previous && previous[pid] != m.identity.value
        then Some(PidReuse(pid, previous[pid], m.identity))
      else None
  }

  function EventsOf(previous: Identities, current: seq<Measurement>): seq<Event> {
    if current == [] then []
    else EventsOf(previous, current[..|current| - 1])
         + match EventOf(previous, current[|current| - 1]) case Some(e) => [e] case None => []
  }

  /** PIDs that were measured with an identity. */
  function Identified(current: seq<Measurement>): set<int> {
    set m | m in current && m.pid.Some? && m.identity.Some? :: m.pid.value
  }

  function EventPids(events: seq<Event>): set<int> {
    set e | e in events :: e.pid
  }

  /** Exit events for retained processes that the sample does not mention at all. */
  function Vanished(previous: Identities, keys: seq<int>, identified: set<int>, events: seq<Event>): seq<Event>
    requires forall p :: p in keys ==> p in previous
  {
    if keys == [] then events
    else
      var pid := keys[0];
      Vanished(previous, keys[1..], identified,
               if pid !in identified && pid !in EventPids(events)
               then events + [DescendantExited(pid, previous[pid])] else events)
  }

  /** `descendant_events` */
  function DescendantEvents(previous: Identities, current: seq<Measurement>): seq<Event> {
    Vanished(previous, Ascending(previous.Keys), Identified(current), EventsOf(previous, current))
  }

  method DescendantEventsOf(previous: Identities, current: seq<Measurement>) returns (events: seq<Event>)
    ensures events == DescendantEvents(previous, current)
  {
    hide EventOf, Vanished;
    events := [];
    var currentIdentities: set<int> := {};
    for i := 0 to |current|
      invariant events == EventsOf(previous, current[..i])
      invariant currentIdentities == Identified(current[..i])
    {
      var item := current[i];
      assert current[..i + 1][..i] == current[..i];
      IdentifiedStep(current, i);
      if item.pid.Some? && item.identity.Some? {
        currentIdentities := currentIdentities + {item.pid.value};
      }
      var event := EventOf(previous, item);
      if event.Some? {
        events := events + [event.value];
      }
    }
    assert current[..|current|] == current;
    events := AppendVanished(previous, currentIdentities, events);
  }

  lemma IdentifiedStep(current: seq<Measurement>, i: nat)
    requires i < |current|
    ensures Identified(current[..i + 1]) == Identified(current[..i])
              + if current[i].pid.Some? && current[i].identity.Some? then {current[i].pid.value} else {}
  {
    assert current[..i + 1] == current[..i] + [current[i]];
  }

  method AppendVanished(previous: Identities, identified: set<int>, found: seq<Event>) returns (events: seq<Event>)
    ensures events == Vanished(previous, Ascending(previous.Keys), identified, found)
  {
    events := found;
    var keys := Ascending(previous.Keys);
    for i := 0 to |keys|
      invariant Vanished(previous, keys[i..], identified, events) == Vanished(previous, keys, identified, found)
    {
      var pid := keys[i];
      assert pid in keys && keys[i..][1..] == keys[i + 1..];
      if pid !in identified && pid !in EventPids(events) {
        events := events + [DescendantExited(pid, previous[pid])];
      }
    }
  }

  // --------------------------------------------------------------- the two samplers

  datatype Node = Node(pid: int, identity: Option<string>, resident: Option<int>, private: Option<int>,
                       highWater: Option<int>)

  function ObservedMeasurement(node: Node, collector: string): Measurement {
    Measurement(Observed, Some(node.pid), node.identity, node.resident, node.private, node.highWater, collector, None)
  }

  /** The process table by PID, as `{node.pid: node for node in nodes}` builds it. */
  predicate Table(byPid: map<int, Node>) {
    forall p :: p in byPid ==> byPid[p].pid == p
  }

  /** `measurement` for one candidate PID of `tracked_process_measurements`. */
  function TrackOne(byPid: map<int, Node>, members: set<int>, retained: Identities, collector: string,
                    observe: int -> Measurement, pid: int): Measurement
  {
    var m := if pid in members && pid in byPid && byPid[pid].identity.Some? && byPid[pid].resident.Some?
             then ObservedMeasurement(byPid[pid], collector) else observe(pid);
    if pid !in retained then m
    else if m.status.Observed? && m.identity != Some(retained[pid]) then
      GapMeasurement(pid, PID_REUSE, "retained descendant PID identity changed", collector, m.identity)
    else if m.status.Gap? && m.identity.None? then m.(identity := Some(retained[pid]))
    else m
  }

  function TrackAll(byPid: map<int, Node>, members: set<int>, retained: Identities, collector: string,
                    observe: int -> Measurement, pids: seq<int>): (ms: seq<Measurement>)
    ensures |ms| == |pids|
    ensures forall i :: 0 <= i < |pids| ==> ms[i] == TrackOne(byPid, members, retained, collector, observe, pids[i])
  {
    if pids == [] then []
    else TrackAll(byPid, members, retained, collector, observe, pids[..|pids| - 1])
         + [TrackOne(byPid, members, retained, collector, observe, pids[|pids| - 1])]
  }

  predicate AllPositive(pids: seq<int>) {
    forall i :: 0 <= i < |pids| ==> pids[i] > 0
  }

  /** `tracked_process_measurements`; `None` is its bound error or its PID error. */
  function Tracked(byPid: map<int, Node>, members: set<int>, retained: Identities, collector: string,
                   observe: int -> Measurement, atlasPid: int): Option<seq<Measurement>>
  {
    var others := members - {atlasPid};
    var pids := Ascending(others + retained.Keys);
    if |others + retained.Keys| > MAX_PROCESSES || !AllPositive(pids) then None
    else Some(TrackAll(byPid, others, retained, collector, observe, pids))
  }

  method TrackedProcessMeasurements(byPid: map<int, Node>, members: set<int>, retained: Identities, collector: string,
                                    observe: int -> Measurement, atlasPid: int)
    returns (r: Option<seq<Measurement>>)
    ensures r == Tracked(byPid, members, retained, collector, observe, atlasPid)
  {
    hide TrackOne;
    var others := members - {atlasPid};
    var candidates := others + retained.Keys;
    if |candidates| > MAX_PROCESSES {
      return None;
    }
    r := MeasureAll(byPid, others, retained, collector, observe, Ascending(candidates));
  }

  method MeasureAll(byPid: map<int, Node>, members: set<int>, retained: Identities, collector: string,
                    observe: int -> Measurement, pids: seq<int>)
    returns (r: Option<seq<Measurement>>)
    ensures r == if AllPositive(pids) then Some(TrackAll(byPid, members, retained, collector, observe, pids)) else None
  {
    hide TrackOne;
    var measurements: seq<Measurement> := [];
    for i := 0 to |pids|
      invariant AllPositive(pids[..i])
      invariant measurements == TrackAll(byPid, members, retained, collector, observe, pids[..i])
    {
      if pids[i] <= 0 {
        return None;
      }
      measurements := measurements + [TrackOne(byPid, members, retained, collector, observe, pids[i])];
      assert pids[..i + 1][..i] == pids[..i];
    }
    assert pids[..|pids|] == pids;
    return Some(measurements);
  }

  /** `retained_tree_failure_measurements`: a failed observation is never an exit. */
  function TreeFailure(retained: Identities, kind: string, detail: string, collector: string): seq<Measurement> {
    var pids := Ascending(retained.Keys);
    seq(|pids|, i requires 0 <= i < |pids| =>
      assert pids[i] in pids;
      GapMeasurement(pids[i], if kind == EXITED then UNAVAILABLE else kind, detail, collector, Some(retained[pids[i]])))
  }

  // ------------------------------------------------------------- runs of samples

  /** What `observe_process` can return: an observation of that PID, or a gap that names
      no identity. */
  predicate Observes(pid: int, m: Measurement) {
    && m.pid == Some(pid)
    && (m.status.Observed? ==> m.identity.Some? && m.error.None?)
    && (m.status.Gap? ==> m.identity.None? && m.error.Some?)
    && !m.status.NotApplicable?
  }

  /** A sample that measures every retained process under its own identity, or ends it. */
  ghost predicate Faithful(retained: Identities, ms: seq<Measurement>) {
    && (forall i :: 0 <= i < |ms| ==> FaithfulOne(retained, ms[i]))
    && (forall i, j :: 0 <= i < j < |ms| ==> ms[i].pid != ms[j].pid)
    && (forall p :: p in retained ==> exists i :: 0 <= i < |ms| && ms[i].pid == Some(p))
  }

  predicate FaithfulOne(retained: Identities, m: Measurement) {
    && m.pid.Some? && !m.status.NotApplicable?
    && (m.status.Observed? ==> m.identity.Some? && m.error.None?)
    && (m.status.Gap? ==> m.error.Some?)
    && (m.pid.value in retained ==>
          m.identity.Some? && (!Ends(m) ==> m.identity.value == retained[m.pid.value]))
    && (m.pid.value !in retained && m.status.Gap? ==> m.identity.None?)
  }

  lemma AscendingTrackIsFaithful(retained: Identities, pids: seq<int>, ms: seq<Measurement>)
    requires StrictlySorted(pids) && |ms| == |pids| && (forall p :: p in retained ==> p in pids)
    requires forall i :: 0 <= i < |ms| ==> ms[i].pid == Some(pids[i]) && FaithfulOne(retained, ms[i])
    ensures Faithful(retained, ms)
  {
    hide FaithfulOne;
    forall p | p in retained ensures exists i :: 0 <= i < |ms| && ms[i].pid == Some(p) {
      var i :| 0 <= i < |pids| && pids[i] == p;
      assert ms[i].pid == Some(p);
    }
  }

  lemma TrackOneIsFaithful(byPid: map<int, Node>, members: set<int>, retained: Identities, collector: string,
                           observe: int -> Measurement, pid: int)
    requires Table(byPid) && Observes(pid, observe(pid))
    ensures var m := TrackOne(byPid, members, retained, collector, observe, pid);
            m.pid == Some(pid) && FaithfulOne(retained, m)
  {
  }

  /** Tracking yields faithful samples. */
  lemma TrackedIsFaithful(byPid: map<int, Node>, members: set<int>, retained: Identities, collector: string,
                          observe: int -> Measurement, atlasPid: int)
    requires Table(byPid) && forall p :: Observes(p, observe(p))
    requires Tracked(byPid, members, retained, collector, observe, atlasPid).Some?
    ensures Faithful(retained, Tracked(byPid, members, retained, collector, observe, atlasPid).value)
  {
    hide TrackOne, FaithfulOne, Table;
    var others := members - {atlasPid};
    var pids := Ascending(others + retained.Keys);
    var ms := TrackAll(byPid, others, retained, collector, observe, pids);
    forall i | 0 <= i < |pids| ensures ms[i].pid == Some(pids[i]) && FaithfulOne(retained, ms[i]) {
      TrackOneIsFaithful(byPid, others, retained, collector, observe, pids[i]);
    }
    AscendingTrackIsFaithful(retained, pids, ms);
  }

  /** The kinds `_error_kind` can give. */
  predicate SystemKind(kind: string) {
    kind == "permission_denied" || kind == EXITED || kind == "timeout" || kind == UNAVAILABLE
  }

  lemma FailureOneIsFaithful(retained: Identities, pid: int, kind: string, detail: string, collector: string)
    requires SystemKind(kind) && pid in retained
    ensures var m := GapMeasurement(pid, if kind == EXITED then UNAVAILABLE else kind, detail, collector,
                                    Some(retained[pid]));
            FaithfulOne(retained, m) && !Ends(m) && Retain(retained, m) == retained
  {
    assert EXITED[0] == 'e' && PID_REUSE[4] == 'r' && UNAVAILABLE[0] == 'u';
  }

  /** A failed tree observation is faithful and ends nothing. */
  lemma TreeFailureIsFaithful(retained: Identities, kind: string, detail: string, collector: string)
    requires SystemKind(kind)
    ensures Faithful(retained, TreeFailure(retained, kind, detail, collector))
    ensures forall m ::
              m in TreeFailure(retained, kind, detail, collector) ==> !Ends(m) && Retain(retained, m) == retained
  {
    hide FaithfulOne, Ends, Retain, SystemKind, Faithful;
    var pids := Ascending(retained.Keys);
    var ms := TreeFailure(retained, kind, detail, collector);
    forall i | 0 <= i < |ms|
      ensures ms[i].pid == Some(pids[i]) && FaithfulOne(retained, ms[i]) && !Ends(ms[i])
              && Retain(retained, ms[i]) == retained
    {
      assert pids[i] in pids;
      FailureOneIsFaithful(retained, pids[i], kind, detail, collector);
    }
    AscendingTrackIsFaithful(retained, pids, ms);
  }

  /** Events that end a retained process. */
  predicate IsEnd(e: Event, pid: int) {
    !e.MeasurementGap? && e.pid == pid
  }

  function Ended(events: seq<Event>, pid: int): nat {
    if events == [] then 0
    else Ended(events[..|events| - 1], pid) + if IsEnd(events[|events| - 1], pid) then 1 else 0
  }

  function EndCount(m: Measurement, previous: Identities, pid: int): nat {
    match EventOf(previous, m) case Some(e) => (if IsEnd(e, pid) then 1 else 0) case None => 0
  }

  lemma {:induction false} EndedOfUnmeasured(previous: Identities, ms: seq<Measurement>, pid: int)
    requires forall i :: 0 <= i < |ms| ==> ms[i].pid != Some(pid)
    ensures Ended(EventsOf(previous, ms), pid) == 0 && (pid in RetainAll(previous, ms) <==> pid in previous)
    ensures pid in previous ==> RetainAll(previous, ms)[pid] == previous[pid]
  {
    if ms != [] {
      var front := ms[..|ms| - 1];
      EndedOfUnmeasured(previous, front, pid);
      EndedStep(previous, ms, pid);
    }
  }

  lemma EndedStep(previous: Identities, ms: seq<Measurement>, pid: int)
    requires ms != []
    ensures Ended(EventsOf(previous, ms), pid)
         == Ended(EventsOf(previous, ms[..|ms| - 1]), pid) + EndCount(ms[|ms| - 1], previous, pid)
  {
    hide EventOf;
    var front := EventsOf(previous, ms[..|ms| - 1]);
    match EventOf(previous, ms[|ms| - 1]) {
      case None => assert front + [] == front;
      case Some(e) => assert (front + [e])[..|front|] == front;
    }
  }

  /** The one measurement of a PID decides its events and whether it stays retained. */
  lemma {:induction false} MeasuredOnce(previous: Identities, ms: seq<Measurement>, k: nat, pid: int)
    requires k < |ms| && ms[k].pid == Some(pid)
    requires forall i :: 0 <= i < |ms| && i != k ==> ms[i].pid != Some(pid)
    ensures Ended(EventsOf(previous, ms), pid) == EndCount(ms[k], previous, pid)
    ensures pid in RetainAll(previous, ms) <==> pid in Retain(previous, ms[k])
    ensures pid in RetainAll(previous, ms) ==> RetainAll(previous, ms)[pid] == Retain(previous, ms[k])[pid]
  {
    var front := ms[..|ms| - 1];
    EndedStep(previous, ms, pid);
    if k == |ms| - 1 {
      EndedOfUnmeasured(previous, front, pid);
    } else {
      MeasuredOnce(previous, front, k, pid);
    }
  }

  /** Every retained process is mentioned, so none is reported as vanished. */
  lemma {:induction false} NothingVanishes(previous: Identities, keys: seq<int>, identified: set<int>,
                                           events: seq<Event>)
    requires forall p :: p in keys ==> p in previous
    requires forall p :: p in previous ==> p in identified
    ensures Vanished(previous, keys, identified, events) == events
  {
    if keys != [] {
      assert keys[0] in keys;
      NothingVanishes(previous, keys[1..], identified, events);
    }
  }

  lemma FaithfulEvents(retained: Identities, ms: seq<Measurement>)
    requires Faithful(retained, ms)
    ensures DescendantEvents(retained, ms) == EventsOf(retained, ms)
  {
    forall p | p in retained ensures p in Identified(ms) {
      var i :| 0 <= i < |ms| && ms[i].pid == Some(p);
      assert FaithfulOne(retained, ms[i]) && ms[i] in ms;
    }
    NothingVanishes(retained, Ascending(retained.Keys), Identified(ms), EventsOf(retained, ms));
  }

  lemma FaithfulMeasurement(retained: Identities, m: Measurement, pid: int)
    requires FaithfulOne(retained, m) && m.pid == Some(pid)
    ensures EndCount(m, retained, pid) == if pid in retained && pid !in Retain(retained, m) then 1 else 0
    ensures pid in retained && pid in Retain(retained, m) ==> Retain(retained, m)[pid] == retained[pid]
  {
  }

  /** One faithful sample: a process leaves the retained map just when exactly one event
      ends it; no other process has such an event; whoever stays keeps its identity. */
  lemma SampleEndsExactlyTheDropped(retained: Identities, ms: seq<Measurement>, pid: int)
    requires Faithful(retained, ms)
    ensures Ended(DescendantEvents(retained, ms), pid)
         == if pid in retained && pid !in RetainAll(retained, ms) then 1 else 0
    ensures pid in retained && pid in RetainAll(retained, ms) ==> RetainAll(retained, ms)[pid] == retained[pid]
  {
    hide FaithfulOne, EndCount, Retain, RetainAll, EventOf, DescendantEvents, EventsOf, Ended;
    FaithfulEvents(retained, ms);
    if k :| 0 <= k < |ms| && ms[k].pid == Some(pid) {
      FaithfulMeasurement(retained, ms[k], pid);
      MeasuredOnce(retained, ms, k, pid);
    } else {
      EndedOfUnmeasured(retained, ms, pid);
    }
  }

  lemma {:induction false} RetainAllKeeps(retained: Identities, ms: seq<Measurement>)
    requires forall m :: m in ms ==> Retain(retained, m) == retained
    ensures RetainAll(retained, ms) == retained
  {
    if ms != [] {
      RetainAllKeeps(retained, ms[..|ms| - 1]);
    }
  }

  /** A failed tree observation never yields an exit, and keeps every retained process. */
  lemma TreeFailureEndsNothing(retained: Identities, kind: string, detail: string, collector: string, pid: int)
    requires SystemKind(kind)
    ensures var ms := TreeFailure(retained, kind, detail, collector);
            RetainAll(retained, ms) == retained && Ended(DescendantEvents(retained, ms), pid) == 0
  {
    hide SystemKind, DescendantEvents, Retain, TreeFailure, Ended, Faithful;
    TreeFailureIsFaithful(retained, kind, detail, collector);
    RetainAllKeeps(retained, TreeFailure(retained, kind, detail, collector));
    SampleEndsExactlyTheDropped(retained, TreeFailure(retained, kind, detail, collector), pid);
  }

  /** The retained map after each sample of a run. */
  function AfterRun(start: Identities, run: seq<seq<Measurement>>): Identities {
    if run == [] then start else RetainAll(AfterRun(start, run[..|run| - 1]), run[|run| - 1])
  }

  ghost predicate FaithfulRun(start: Identities, run: seq<seq<Measurement>>) {
    forall k :: 0 <= k < |run| ==> Faithful(AfterRun(start, run[..k]), run[k])
  }

  function EndedInRun(start: Identities, run: seq<seq<Measurement>>, pid: int): nat {
    if run == [] then 0
    else
      var before := run[..|run| - 1];
      EndedInRun(start, before, pid) + Ended(DescendantEvents(AfterRun(start, before), run[|run| - 1]), pid)
  }

  /** How often `pid` entered the retained map. */
  function BegunInRun(start: Identities, run: seq<seq<Measurement>>, pid: int): nat {
    if run == [] then 0
    else
      var before := run[..|run| - 1];
      BegunInRun(start, before, pid)
      + if pid !in AfterRun(start, before) && pid in AfterRun(start, run) then 1 else 0
  }

  /** Over a run, every retained episode of every PID ends in exactly one exit or reuse
      event, except the one still open. */
  lemma {:induction false} EpisodesBalance(start: Identities, run: seq<seq<Measurement>>, pid: int)
    requires FaithfulRun(start, run)
    ensures (if pid in start then 1 else 0) + BegunInRun(start, run, pid)
         == EndedInRun(start, run, pid) + if pid in AfterRun(start, run) then 1 else 0
  {
    if run != [] {
      var before := run[..|run| - 1];
      forall k | 0 <= k < |before| ensures Faithful(AfterRun(start, before[..k]), before[k]) {
        assert before[..k] == run[..k];
      }
      EpisodesBalance(start, before, pid);
      SampleEndsExactlyTheDropped(AfterRun(start, before), run[|run| - 1], pid);
    }
  }

  // ------------------------------------------------------- when exactly it holds

  lemma {:induction false} EndedAppend(a: seq<Event>, e: Event, pid: int)
    ensures Ended(a + [e], pid) == Ended(a, pid) + if IsEnd(e, pid) then 1 else 0
    ensures EventPids(a + [e]) == EventPids(a) + {e.pid}
  {
    assert (a + [e])[..|a|] == a;
  }

  /** The last loop adds one exit for a process that was neither identified nor had an event. */
  lemma {:induction false} VanishedOnce(previous: Identities, keys: seq<int>, identified: set<int>,
                                        events: seq<Event>, pid: int)
    requires (forall p :: p in keys ==> p in previous) && StrictlySorted(keys)
    ensures Ended(Vanished(previous, keys, identified, events), pid)
            == Ended(events, pid) + if pid in keys && pid !in identified && pid !in EventPids(events) then 1 else 0
  {
    hide Ended, EventPids;
    if keys != [] {
      var first, rest := keys[0], keys[1..];
      assert first in keys && (pid in keys <==> pid == first || pid in rest);
      assert first !in rest;
      if first !in identified && first !in EventPids(events) {
        var exit := DescendantExited(first, previous[first]);
        EndedAppend(events, exit, pid);
        VanishedOnce(previous, rest, identified, events + [exit], pid);
      } else {
        VanishedOnce(previous, rest, identified, events, pid);
      }
    }
  }

  /** Which processes had an event, or were identified, in a sample that measures each once. */
  lemma {:induction false} MentionedPids(previous: Identities, ms: seq<Measurement>, pid: int)
    ensures pid in EventPids(EventsOf(previous, ms))
            <==> exists i :: 0 <= i < |ms| && EventOf(previous, ms[i]).Some? && ms[i].pid == Some(pid)
    ensures pid in Identified(ms) <==> exists i :: 0 <= i < |ms| && ms[i].pid == Some(pid) && ms[i].identity.Some?
  {
    hide EventOf;
    if ms != [] {
      var front, last := ms[..|ms| - 1], ms[|ms| - 1];
      MentionedPids(previous, front, pid);
      EventNamesItsPid(previous, last);
      if EventOf(previous, last).Some? {
        EndedAppend(EventsOf(previous, front), EventOf(previous, last).value, pid);
      } else {
        assert EventsOf(previous, front) + [] == EventsOf(previous, front);
      }
      assert forall i :: 0 <= i < |front| ==> front[i] == ms[i];
    }
  }

  lemma EventNamesItsPid(previous: Identities, m: Measurement)
    ensures EventOf(previous, m).Some? ==> m.pid == Some(EventOf(previous, m).value.pid)
  {
  }

  /** A process that a sample does not mention is reported as exited, and stays retained. */
  lemma UnmentionedExits(retained: Identities, ms: seq<Measurement>, pid: int)
    requires pid in retained && forall i :: 0 <= i < |ms| ==> ms[i].pid != Some(pid)
    ensures Ended(DescendantEvents(retained, ms), pid) == 1
    ensures pid in RetainAll(retained, ms) && RetainAll(retained, ms)[pid] == retained[pid]
  {
    hide Ended, Vanished, RetainAll, EventsOf, EventOf, Identified, EventPids;
    EndedOfUnmeasured(retained, ms, pid);
    MentionedPids(retained, ms, pid);
    VanishedOnce(retained, Ascending(retained.Keys), Identified(ms), EventsOf(retained, ms), pid);
  }

  /** So over samples that never mention it, it exits once for each of them. */
  lemma {:induction false} UnmentionedProcessExitsRepeatedly(start: Identities, run: seq<seq<Measurement>>, pid: int)
    requires pid in start
    requires forall k, i :: 0 <= k < |run| && 0 <= i < |run[k]| ==> run[k][i].pid != Some(pid)
    ensures EndedInRun(start, run, pid) == |run|
    ensures pid in AfterRun(start, run) && AfterRun(start, run)[pid] == start[pid]
  {
    hide Ended, DescendantEvents, RetainAll;
    if run != [] {
      var before := run[..|run| - 1];
      assert forall k :: 0 <= k < |before| ==> before[k] == run[k];
      UnmentionedProcessExitsRepeatedly(start, before, pid);
      UnmentionedExits(AfterRun(start, before), run[|run| - 1], pid);
    }
  }

  /** A retained process ends in a sample just when one event ends it, and keeps its identity
      if it stays. */
  predicate Balanced(retained: Identities, ms: seq<Measurement>, pid: int)
    requires pid in retained
  {
    && Ended(DescendantEvents(retained, ms), pid) == (if pid in RetainAll(retained, ms) then 0 else 1)
    && (pid in RetainAll(retained, ms) ==> RetainAll(retained, ms)[pid] == retained[pid])
  }

  /** A measurement that ends a process, names no identity, or names the retained one. */
  predicate Consistent(m: Measurement, identity: string) {
    Ends(m) || m.identity.None? || m.identity == Some(identity)
  }

  /** For any sample of valid measurements of different processes: a retained process is
      balanced exactly when the sample mentions it consistently. */
  lemma BalancedIffMentioned(retained: Identities, ms: seq<Measurement>, pid: int)
    requires pid in retained && AllValid(ms)
    requires forall i, j :: 0 <= i < j < |ms| && ms[i].pid.Some? ==> ms[i].pid != ms[j].pid
    ensures Balanced(retained, ms, pid)
            <==> exists i :: 0 <= i < |ms| && ms[i].pid == Some(pid) && Consistent(ms[i], retained[pid])
  {
    hide Ended, Vanished, RetainAll, EventsOf, EventOf, Identified, EventPids, Retain, Consistent, EndCount,
         ValidMeasurement;
    if k :| 0 <= k < |ms| && ms[k].pid == Some(pid) {
      forall i | 0 <= i < |ms| && i != k
        ensures ms[i].pid != Some(pid)
      {
      }
      MeasuredOnce(retained, ms, k, pid);
      MentionedPids(retained, ms, pid);
      VanishedOnce(retained, Ascending(retained.Keys), Identified(ms), EventsOf(retained, ms), pid);
      assert ms[k] in ms;
      MeasuredBalance(retained, ms[k], pid);
    } else {
      UnmentionedExits(retained, ms, pid);
    }
  }

  /** The one measurement of a process, case by case. */
  lemma MeasuredBalance(retained: Identities, m: Measurement, pid: int)
    requires pid in retained && m.pid == Some(pid) && ValidMeasurement(m)
    ensures m.identity.None? ==> EventOf(retained, m).Some?
    ensures Consistent(m, retained[pid]) <==>
            (&& EndCount(m, retained, pid) == (if pid in Retain(retained, m) then 0 else 1)
             && (pid in Retain(retained, m) ==> Retain(retained, m)[pid] == retained[pid]))
  {
  }

  // ------------------------------------------------------ runs made by the samplers

  /** What an attempt to look at the process tree shows: the table and its members, or an
      error. */
  datatype View =
    | Seen(byPid: map<int, Node>, members: set<int>, observe: int -> Measurement)
    | Unseen(kind: string, error: string)

  /** `detail[:512]` */
  function Cut(detail: string): string {
    if |detail| <= 512 then detail else detail[..512]
  }

  /** The detail of a gap for a failed observation. */
  function FailureDetail(error: string): string {
    Cut("contained-tree observation failed: " + error)
  }

  /** The two errors that tracking raises. */
  const TRACKING_ERRORS := ["contained process bound exceeded", "contained process PID is invalid"]

  function TrackingError(members: set<int>, retained: Identities, atlasPid: int): string {
    TRACKING_ERRORS[if |members - {atlasPid} + retained.Keys| > MAX_PROCESSES then 0 else 1]
  }

  /** The providers that `observe_tree` measures: tracked, or kept as gaps when looking or
      tracking fails. */
  function Sampled(retained: Identities, view: View, collector: string, atlasPid: int): seq<Measurement> {
    match view
    case Unseen(kind, error) => TreeFailure(retained, kind, FailureDetail(error), collector)
    case Seen(byPid, members, observe) =>
      match Tracked(byPid, members, retained, collector, observe, atlasPid)
      case Some(ms) => ms
      case None => TreeFailure(retained, UNAVAILABLE, FailureDetail(TrackingError(members, retained, atlasPid)),
                               collector)
  }

  /** The providers once the contained group has exited: an exit for every retained process. */
  function Sweep(retained: Identities, collector: string): seq<Measurement> {
    var pids := Ascending(retained.Keys);
    seq(|pids|, i requires 0 <= i < |pids| =>
      assert pids[i] in pids;
      GapMeasurement(pids[i], EXITED, "contained process group exited", collector, Some(retained[pids[i]])))
  }

  predicate TypedView(view: View) {
    match view
    case Unseen(kind, _) => SystemKind(kind)
    case Seen(byPid, _, observe) => Table(byPid)
  }

  ghost predicate ObservesAll(view: View) {
    view.Seen? ==> forall p :: Observes(p, view.observe(p))
  }

  lemma SampledIsFaithful(retained: Identities, view: View, collector: string, atlasPid: int)
    requires TypedView(view) && ObservesAll(view)
    ensures Faithful(retained, Sampled(retained, view, collector, atlasPid))
  {
    hide Faithful, Tracked, TreeFailure, Observes, Table, FailureDetail;
    match view
    case Unseen(kind, error) => TreeFailureIsFaithful(retained, kind, FailureDetail(error), collector);
    case Seen(byPid, members, observe) =>
      if Tracked(byPid, members, retained, collector, observe, atlasPid).Some? {
        TrackedIsFaithful(byPid, members, retained, collector, observe, atlasPid);
      } else {
        TreeFailureIsFaithful(retained, UNAVAILABLE, FailureDetail(TrackingError(members, retained, atlasPid)),
                              collector);
      }
  }

  lemma SweptOneIsFaithful(retained: Identities, pid: int, collector: string)
    requires pid in retained
    ensures var m := GapMeasurement(pid, EXITED, "contained process group exited", collector, Some(retained[pid]));
            FaithfulOne(retained, m) && Ends(m)
  {
  }

  /** The sweep is faithful, and ends every retained process. */
  lemma SweepIsFaithful(retained: Identities, collector: string)
    ensures Faithful(retained, Sweep(retained, collector))
    ensures RetainAll(retained, Sweep(retained, collector)) == map[]
  {
    hide FaithfulOne, Ends, Faithful, Retain, RetainAll;
    var pids, ms := Ascending(retained.Keys), Sweep(retained, collector);
    forall i | 0 <= i < |ms|
      ensures ms[i].pid == Some(pids[i]) && FaithfulOne(retained, ms[i]) && Ends(ms[i])
    {
      assert pids[i] in pids;
      SweptOneIsFaithful(retained, pids[i], collector);
    }
    AscendingTrackIsFaithful(retained, pids, ms);
    EndingAll(retained, ms);
    forall p | p in retained
      ensures p !in RetainAll(retained, ms)
    {
      assert p in pids;
      var i :| 0 <= i < |pids| && pids[i] == p;
      assert ms[i].pid == Some(p);
    }
    NothingLeft(retained, RetainAll(retained, ms));
  }

  lemma NothingLeft(retained: Identities, kept: Identities)
    requires forall p :: p in kept ==> p in retained
    requires forall p :: p in retained ==> p !in kept
    ensures kept == map[]
  {
    forall p: int
      ensures p !in kept
    {
    }
    assert |kept.Keys| == 0 || exists p :: p in kept.Keys;
  }

  lemma {:induction false} EndingAll(retained: Identities, ms: seq<Measurement>)
    requires forall i :: 0 <= i < |ms| ==> Ends(ms[i]) && ms[i].status.Gap? && ms[i].pid.Some?
    ensures forall p :: p in RetainAll(retained, ms) ==> p in retained
    ensures forall p, i :: p in RetainAll(retained, ms) && 0 <= i < |ms| ==> ms[i].pid != Some(p)
  {
    hide Ends;
    if ms != [] {
      EndingAll(retained, ms[..|ms| - 1]);
    }
  }

  /** One turn of a run: what is seen of the tree, or the sweep after the group exited. */
  datatype Sample = Look(view: View) | SweepAll

  function MeasurementsOf(retained: Identities, sample: Sample, collector: string, atlasPid: int): seq<Measurement> {
    match sample
    case Look(view) => Sampled(retained, view, collector, atlasPid)
    case SweepAll => Sweep(retained, collector)
  }

  function SampledRun(start: Identities, samples: seq<Sample>, collector: string,
                      atlasPid: int): (run: seq<seq<Measurement>>)
    ensures |run| == |samples|
  {
    if samples == [] then []
    else
      var before := SampledRun(start, samples[..|samples| - 1], collector, atlasPid);
      before + [MeasurementsOf(AfterRun(start, before), samples[|samples| - 1], collector, atlasPid)]
  }

  ghost predicate TypedSamples(samples: seq<Sample>) {
    forall k :: 0 <= k < |samples| && samples[k].Look? ==> TypedView(samples[k].view) && ObservesAll(samples[k].view)
  }

  /** Every run that the samplers make is faithful, whatever they are shown. */
  lemma {:induction false} SampledRunIsFaithful(start: Identities, samples: seq<Sample>, collector: string,
                                                atlasPid: int)
    requires TypedSamples(samples)
    ensures FaithfulRun(start, SampledRun(start, samples, collector, atlasPid))
  {
    hide Faithful, Sampled, Sweep, TypedView, ObservesAll;
    if samples != [] {
      var front, last := samples[..|samples| - 1], samples[|samples| - 1];
      assert TypedSamples(front);
      SampledRunIsFaithful(start, front, collector, atlasPid);
      var before := SampledRun(start, front, collector, atlasPid);
      hide FaithfulRun, AfterRun;
      FaithfulRunGrows(start, before, MeasurementsOf(AfterRun(start, before), last, collector, atlasPid));
      match last {
        case Look(view) => SampledIsFaithful(AfterRun(start, before), view, collector, atlasPid);
        case SweepAll => SweepIsFaithful(AfterRun(start, before), collector);
      }
    }
  }

  lemma FaithfulRunGrows(start: Identities, before: seq<seq<Measurement>>, last: seq<Measurement>)
    requires FaithfulRun(start, before)
    ensures Faithful(AfterRun(start, before), last) ==> FaithfulRun(start, before + [last])
  {
    hide Faithful, AfterRun;
    var run := before + [last];
    forall k | 0 <= k < |run|
      ensures run[..k] == before[..k]
    {
    }
    assert before[..|before|] == before;
    assert forall k :: 0 <= k < |before| ==> run[k] == before[k];
  }

  /** So in every such run, per PID, each retained episode ends in exactly one event, except
      the one still open; and a final sweep leaves none open. */
  lemma SampledEpisodesBalance(start: Identities, samples: seq<Sample>, collector: string, atlasPid: int, pid: int)
    requires TypedSamples(samples)
    ensures var run := SampledRun(start, samples, collector, atlasPid);
            && (if pid in start then 1 else 0) + BegunInRun(start, run, pid)
               == EndedInRun(start, run, pid) + (if pid in AfterRun(start, run) then 1 else 0)
            && (samples != [] && samples[|samples| - 1].SweepAll? ==> pid !in AfterRun(start, run))
  {
    hide Faithful, Sampled, Sweep, TypedSamples, EndedInRun, BegunInRun, RetainAll, FaithfulRun;
    var run := SampledRun(start, samples, collector, atlasPid);
    SampledRunIsFaithful(start, samples, collector, atlasPid);
    EpisodesBalance(start, run, pid);
    if samples != [] && samples[|samples| - 1].SweepAll? {
      var before := SampledRun(start, samples[..|samples| - 1], collector, atlasPid);
      assert run[..|run| - 1] == before;
      SweepIsFaithful(AfterRun(start, before), collector);
    }
  }

  // ------------------------------------------------------- how many are retained

  /** All exit and reuse events of a list. */
  function EndEvents(events: seq<Event>): nat {
    if events == [] then 0
    else EndEvents(events[..|events| - 1]) + if events[|events| - 1].MeasurementGap? then 0 else 1
  }

  lemma EndEventsStep(previous: Identities, ms: seq<Measurement>)
    requires ms != []
    ensures EndEvents(EventsOf(previous, ms))
            == EndEvents(EventsOf(previous, ms[..|ms| - 1]))
               + match EventOf(previous, ms[|ms| - 1])
                 case Some(e) => (if e.MeasurementGap? then 0 else 1)
                 case None => 0
  {
    hide EventOf;
    var front := EventsOf(previous, ms[..|ms| - 1]);
    match EventOf(previous, ms[|ms| - 1]) {
      case None => assert front + [] == front;
      case Some(e) => assert (front + [e])[..|front|] == front;
    }
  }

  lemma FaithfulEnds(retained: Identities, m: Measurement)
    requires FaithfulOne(retained, m)
    ensures EventOf(retained, m).Some? && !EventOf(retained, m).value.MeasurementGap?
            <==> m.pid.value in retained && Ends(m)
  {
  }

  lemma FaithfulKeys(retained: Identities, kept: Identities, m: Measurement)
    requires FaithfulOne(retained, m) && (m.pid.value in retained <==> m.pid.value in kept)
    ensures var pid := m.pid.value;
            (retained.Keys - Retain(kept, m).Keys)
            == (retained.Keys - kept.Keys) + if pid in retained && Ends(m) then {pid} else {}
  {
  }

  /** A faithful sample has one ending event for each process that leaves the retained map. */
  lemma {:induction false} EndsAreDrops(retained: Identities, ms: seq<Measurement>)
    requires forall i :: 0 <= i < |ms| ==> FaithfulOne(retained, ms[i])
    requires forall i, j :: 0 <= i < j < |ms| ==> ms[i].pid != ms[j].pid
    ensures EndEvents(EventsOf(retained, ms)) == |retained.Keys - RetainAll(retained, ms).Keys|
  {
    if ms == [] {
      assert retained.Keys - RetainAll(retained, ms).Keys == {};
    } else {
      hide FaithfulOne, Ends, Retain, EventOf, EndEvents, EventsOf;
      var front, last := ms[..|ms| - 1], ms[|ms| - 1];
      EndsAreDrops(retained, front);
      EndEventsStep(retained, ms);
      PidOfFaithful(retained, last);
      EndedOfUnmeasured(retained, front, last.pid.value);
      FaithfulEnds(retained, last);
      FaithfulKeys(retained, RetainAll(retained, front), last);
    }
  }

  lemma PidOfFaithful(retained: Identities, m: Measurement)
    requires FaithfulOne(retained, m)
    ensures m.pid.Some?
  {
  }

  function EndsInRun(start: Identities, run: seq<seq<Measurement>>): nat {
    if run == [] then 0
    else
      var before := run[..|run| - 1];
      EndsInRun(start, before) + EndEvents(DescendantEvents(AfterRun(start, before), run[|run| - 1]))
  }

  /** How many processes entered the retained map. */
  function EntriesInRun(start: Identities, run: seq<seq<Measurement>>): nat {
    if run == [] then 0
    else
      var before := run[..|run| - 1];
      EntriesInRun(start, before) + |AfterRun(start, run).Keys - AfterRun(start, before).Keys|
  }

  /** Over a run, the number of retained processes is the additions minus the ending events. */
  lemma {:induction false} RetainedCount(start: Identities, run: seq<seq<Measurement>>)
    requires FaithfulRun(start, run)
    ensures |AfterRun(start, run)| + EndsInRun(start, run) == |start| + EntriesInRun(start, run)
  {
    if run != [] {
      var before, last := run[..|run| - 1], run[|run| - 1];
      forall k | 0 <= k < |before|
        ensures Faithful(AfterRun(start, before[..k]), before[k])
      {
        assert before[..k] == run[..k];
      }
      RetainedCount(start, before);
      assert Faithful(AfterRun(start, before), last);
      hide FaithfulOne, RetainAll, EventsOf, EndEvents, DescendantEvents;
      FaithfulEvents(AfterRun(start, before), last);
      EndsAreDrops(AfterRun(start, before), last);
      KeysExchange(AfterRun(start, before), AfterRun(start, run));
    }
  }

  lemma KeysExchange(a: Identities, b: Identities)
    ensures |b| + |a.Keys - b.Keys| == |a| + |b.Keys - a.Keys|
  {
    assert a.Keys == (a.Keys * b.Keys) + (a.Keys - b.Keys);
    assert b.Keys == (a.Keys * b.Keys) + (b.Keys - a.Keys);
  }

  // ------------------------------------------- what a sample says of each process

  /** The events of one process, in order. */
  function EventsFor(events: seq<Event>, pid: int): seq<Event> {
    if events == [] then []
    else
      var last := events[|events| - 1];
      EventsFor(events[..|events| - 1], pid) + if last.pid == pid then [last] else []
  }

  lemma EventsForStep(previous: Identities, ms: seq<Measurement>, pid: int)
    requires ms != []
    ensures EventsFor(EventsOf(previous, ms), pid)
            == EventsFor(EventsOf(previous, ms[..|ms| - 1]), pid)
               + match EventOf(previous, ms[|ms| - 1])
                 case Some(e) => (if e.pid == pid then [e] else [])
                 case None => []
  {
    hide EventOf;
    var front := EventsOf(previous, ms[..|ms| - 1]);
    match EventOf(previous, ms[|ms| - 1])
    case None =>
      assert front + [] == front && EventsFor(front, pid) + [] == EventsFor(front, pid);
    case Some(e) =>
      assert (front + [e])[..|front|] == front;
  }

  lemma {:induction false} NoEventsFor(previous: Identities, ms: seq<Measurement>, pid: int)
    requires forall i :: 0 <= i < |ms| ==> ms[i].pid != Some(pid)
    ensures EventsFor(EventsOf(previous, ms), pid) == []
  {
    hide EventOf;
    if ms != [] {
      NoEventsFor(previous, ms[..|ms| - 1], pid);
      EventsForStep(previous, ms, pid);
      EventNamesItsPid(previous, ms[|ms| - 1]);
    }
  }

  lemma {:induction false} OneEventFor(previous: Identities, ms: seq<Measurement>, k: nat, pid: int)
    requires k < |ms| && ms[k].pid == Some(pid)
    requires forall i :: 0 <= i < |ms| && i != k ==> ms[i].pid != Some(pid)
    ensures EventsFor(EventsOf(previous, ms), pid)
            == match EventOf(previous, ms[k]) case Some(e) => [e] case None => []
  {
    hide EventOf;
    var front := ms[..|ms| - 1];
    EventsForStep(previous, ms, pid);
    EventNamesItsPid(previous, ms[|ms| - 1]);
    if k == |ms| - 1 {
      NoEventsFor(previous, front, pid);
    } else {
      OneEventFor(previous, front, k, pid);
    }
  }

  /** What becomes of one process in a sample: its events, and the identity retained for it. */
  datatype Fate = Fate(events: seq<Event>, identity: Option<string>)

  function FateOf(retained: Identities, ms: seq<Measurement>, pid: int): Fate {
    var after := RetainAll(retained, ms);
    Fate(EventsFor(DescendantEvents(retained, ms), pid), if pid in after then Some(after[pid]) else None)
  }

  lemma FateOfMeasured(retained: Identities, ms: seq<Measurement>, k: nat, pid: int)
    requires Faithful(retained, ms) && k < |ms| && ms[k].pid == Some(pid)
    ensures var kept := Retain(retained, ms[k]);
            FateOf(retained, ms, pid) == Fate(match EventOf(retained, ms[k]) case Some(e) => [e] case None => [],
                                              if pid in kept then Some(kept[pid]) else None)
  {
    hide EventOf, Retain, EventsOf, DescendantEvents, EventsFor, Ended;
    FaithfulEvents(retained, ms);
    assert forall i :: 0 <= i < |ms| && i != k ==> ms[i].pid != Some(pid);
    OneEventFor(retained, ms, k, pid);
    MeasuredOnce(retained, ms, k, pid);
  }

  lemma FateOfUnmeasured(retained: Identities, ms: seq<Measurement>, pid: int)
    requires Faithful(retained, ms) && forall i :: 0 <= i < |ms| ==> ms[i].pid != Some(pid)
    ensures pid !in retained && FateOf(retained, ms, pid) == Fate([], None)
  {
    hide EventOf, EventsOf, DescendantEvents, EventsFor, Ended;
    FaithfulEvents(retained, ms);
    NoEventsFor(retained, ms, pid);
    EndedOfUnmeasured(retained, ms, pid);
  }

  /** What one look at a process shows: its row of the table, if it is a member whose row is
      complete, and else what is observed of it alone. */
  function Look(byPid: map<int, Node>, members: set<int>, observe: int -> Measurement, pid: int): Measurement {
    if pid in members && pid in byPid && byPid[pid].identity.Some? && byPid[pid].resident.Some? then
      Measurement(Observed, Some(pid), byPid[pid].identity, byPid[pid].resident, byPid[pid].private,
                  byPid[pid].highWater, observe(pid).collector, None)
    else observe(pid)
  }

  /** What becomes of a process, given what a look shows of it: one seen again as itself has no
      event and stays; another identity under its PID is a reuse, and an exit an exit, each naming
      the identity that ended; any other failure is a gap, and keeps what was retained. */
  ghost predicate FateTells(fate: Fate, look: Measurement, retained: Identities, pid: int) {
    if pid !in retained then
      if look.status == Observed then fate == Fate([], look.identity)
      else fate == Fate([MeasurementGap(pid, look.error)], None)
    else if look.status == Observed then
      if look.identity == Some(retained[pid]) then fate == Fate([], Some(retained[pid]))
      else fate == Fate([PidReuse(pid, retained[pid], look.identity)], None)
    else if look.error.Some? && look.error.value.kind == "exited" then
      fate == Fate([DescendantExited(pid, retained[pid])], None)
    else fate == Fate([MeasurementGap(pid, look.error)], Some(retained[pid]))
  }

  /** A process is measured as observed exactly when a look shows it so, as itself; then its
      memory is what was seen. */
  ghost predicate MeasuredAs(m: Measurement, look: Measurement, retained: Identities, pid: int) {
    && m.pid == Some(pid)
    && (m.status == Observed <==>
          look.status == Observed && (pid !in retained || look.identity == Some(retained[pid])))
    && (m.status == Observed ==>
          m.identity == look.identity && m.resident == look.resident && m.private == look.private
          && m.highWater == look.highWater)
  }

  /** Looking never gives the error kind of a reuse. */
  ghost predicate LooksAt(pid: int, m: Measurement) {
    Observes(pid, m) && (m.status == Gap ==> m.error.value.kind != "pid_reuse")
  }

  lemma TrackedOneTells(byPid: map<int, Node>, members: set<int>, retained: Identities, collector: string,
                        observe: int -> Measurement, pid: int)
    requires Table(byPid) && LooksAt(pid, observe(pid))
    ensures var m := TrackOne(byPid, members, retained, collector, observe, pid);
            var look := Look(byPid, members, observe, pid);
            && FateTells(Fate(match EventOf(retained, m) case Some(e) => [e] case None => [],
                              if pid in Retain(retained, m) then Some(Retain(retained, m)[pid]) else None),
                         look, retained, pid)
            && MeasuredAs(m, look, retained, pid)
  {
    assert EXITED[0] == 'e' && PID_REUSE[0] == 'p';
  }

  /** A tracked sample: every member and every retained process has the fate that a look at it
      demands, and its memory is what was seen; nobody else has any. */
  lemma TrackedTells(byPid: map<int, Node>, members: set<int>, retained: Identities, collector: string,
                     observe: int -> Measurement, atlasPid: int, pid: int)
    requires Table(byPid) && (forall p :: LooksAt(p, observe(p)))
    requires Tracked(byPid, members, retained, collector, observe, atlasPid).Some?
    ensures var ms := Tracked(byPid, members, retained, collector, observe, atlasPid).value;
            var look := Look(byPid, members - {atlasPid}, observe, pid);
            if (pid in members && pid != atlasPid) || pid in retained then
              && FateTells(FateOf(retained, ms, pid), look, retained, pid)
              && exists i :: 0 <= i < |ms| && MeasuredAs(ms[i], look, retained, pid)
            else FateOf(retained, ms, pid) == Fate([], None)
  {
    hide TrackOne, FateTells, FateOf, EventOf, Retain, Look, Faithful, FaithfulOne, MeasuredAs;
    TrackedIsFaithful(byPid, members, retained, collector, observe, atlasPid);
    var others := members - {atlasPid};
    var pids := Ascending(others + retained.Keys);
    var ms := TrackAll(byPid, others, retained, collector, observe, pids);
    forall i | 0 <= i < |ms|
      ensures ms[i].pid == Some(pids[i])
    {
      TrackOneIsFaithful(byPid, others, retained, collector, observe, pids[i]);
    }
    if k :| 0 <= k < |pids| && pids[k] == pid {
      assert pid in pids;
      TrackedOneTells(byPid, others, retained, collector, observe, pid);
      FateOfMeasured(retained, ms, k, pid);
      assert MeasuredAs(ms[k], Look(byPid, others, observe, pid), retained, pid);
    } else {
      assert pid !in pids;
      FateOfUnmeasured(retained, ms, pid);
    }
  }

  /** A failed look at the tree: every retained process has a gap and stays, and an "exited" of
      the look itself is no exit of theirs. */
  lemma FailureTells(retained: Identities, kind: string, detail: string, collector: string, pid: int)
    requires SystemKind(kind)
    ensures FateOf(retained, TreeFailure(retained, kind, detail, collector), pid)
            == if pid !in retained then Fate([], None)
               else Fate([MeasurementGap(pid, Some(ErrorInfo(if kind == "exited" then "unavailable" else kind,
                                                             detail)))],
                         Some(retained[pid]))
  {
    hide FateOf, EventOf, Retain, Faithful, FaithfulOne;
    TreeFailureIsFaithful(retained, kind, detail, collector);
    var pids, ms := Ascending(retained.Keys), TreeFailure(retained, kind, detail, collector);
    if k :| 0 <= k < |pids| && pids[k] == pid {
      assert pid in pids;
      FateOfMeasured(retained, ms, k, pid);
      FailedOneTells(retained, kind, detail, collector, pid);
    } else {
      assert pid !in pids;
      FateOfUnmeasured(retained, ms, pid);
    }
  }

  lemma FailedOneTells(retained: Identities, kind: string, detail: string, collector: string, pid: int)
    requires SystemKind(kind) && pid in retained
    ensures var told := if kind == "exited" then "unavailable" else kind;
            var m := GapMeasurement(pid, told, detail, collector, Some(retained[pid]));
            && EventOf(retained, m) == Some(MeasurementGap(pid, Some(ErrorInfo(told, detail))))
            && pid in Retain(retained, m) && Retain(retained, m)[pid] == retained[pid]
  {
    assert EXITED[0] == 'e' && PID_REUSE[4] == 'r' && UNAVAILABLE[0] == 'u';
  }

  /** The sweep: an exit for every retained process, and nothing else. */
  lemma SweepFate(retained: Identities, collector: string, pid: int)
    ensures FateOf(retained, Sweep(retained, collector), pid)
            == if pid in retained then Fate([DescendantExited(pid, retained[pid])], None) else Fate([], None)
  {
    hide FateOf, Faithful, FaithfulOne;
    SweepIsFaithful(retained, collector);
    var pids, ms := Ascending(retained.Keys), Sweep(retained, collector);
    if k :| 0 <= k < |pids| && pids[k] == pid {
      assert pid in pids;
      FateOfMeasured(retained, ms, k, pid);
      assert EXITED[0] == 'e' && PID_REUSE[0] == 'p';
    } else {
      assert pid !in pids;
      FateOfUnmeasured(retained, ms, pid);
    }
  }
}
