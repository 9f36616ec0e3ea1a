/** The exporter that checks a campaign's raw file against its manifest
    (scripts/benchmark-evidence-export.py), and what the two programs guarantee together. */
module Export {
  import opened Common
  import opened Campaign

  datatype ExportError = HashMismatch | MalformedTask | IdentityContradiction | CountMismatch | RecordContradiction

  /** The exporter's answer: the campaign's state, or what its provenance lacks. */
  datatype Sidecar = Provenance(state: State) | MissingProvenance(identity: bool, pairing: bool)

  /** What the exporter recomputes: the raw hash, the campaign identity, and the names it expects. */
  datatype Reader = Reader(sha: seq<Observation> -> Digest, identityOf: (seq<Text>, int, int) -> Digest,
                           isTask: Text -> bool, isDigest: Digest -> bool, workspaceOf: Slot -> Text)

  predicate IdentityComplete(m: Manifest) {
    && 1 <= m.maxTasks <= 20 && 1 <= m.repetitions <= 10
    && m.tasks != [] && Distinct(m.tasks) && |m.tasks| <= m.maxTasks
  }

  /** One record that names a real run. */
  predicate WellFormed(reader: Reader, o: Observation) {
    reader.isTask(o.slot.task) && o.workspace == reader.workspaceOf(o.slot)
  }

  /** Records of one campaign, each task always with the same identity. */
  predicate Consistent(reader: Reader, m: Manifest, raw: seq<Observation>) {
    && (forall i :: 0 <= i < |raw| ==> reader.isDigest(raw[i].taskIdentity) && raw[i].identity == m.identity)
    && forall i, j ::
         0 <= i < j < |raw| && raw[i].slot.task == raw[j].slot.task ==> raw[i].taskIdentity == raw[j].taskIdentity
  }

  predicate ManifestHolds(reader: Reader, m: Manifest) {
    && (forall i :: 0 <= i < |m.tasks| ==> reader.isTask(m.tasks[i]))
    && (IdentityComplete(m) ==> m.identity == reader.identityOf(m.tasks, m.repetitions, m.maxTasks)
                                && m.expectedRawCount == |m.tasks| * m.repetitions * 2)
    && 0 <= m.expectedRawCount
  }

  /** The manifest and the raw file agree in hash, identities and counts. */
  predicate Agrees(reader: Reader, m: Manifest, raw: seq<Observation>) {
    && m.rawSha == reader.sha(raw) && ManifestHolds(reader, m) && Consistent(reader, m, raw)
    && m.rawCount == |raw| <= m.expectedRawCount
    && (m.state == Complete ==> |raw| == m.expectedRawCount)
  }

  function SlotsOf(raw: seq<Observation>): (r: seq<Slot>)
    ensures |r| == |raw| && forall i :: 0 <= i < |raw| ==> r[i] == raw[i].slot
  {
    seq(|raw|, i requires 0 <= i < |raw| => raw[i].slot)
  }

  /** The raw file is whole pairs from the start of the nested loops, all of them if complete. */
  predicate Paired(reader: Reader, m: Manifest, raw: seq<Observation>) {
    && IdentityComplete(m)
    && (forall i :: 0 <= i < |raw| ==> WellFormed(reader, raw[i]))
    && SlotsOf(raw) <= Slots(m.tasks, m.repetitions) && |raw| % 2 == 0
    && (m.state == Complete ==> |raw| == |Slots(m.tasks, m.repetitions)|)
  }

  function SidecarOf(reader: Reader, m: Manifest, raw: seq<Observation>): Sidecar {
    if Paired(reader, m, raw) then Provenance(m.state)
    else MissingProvenance(!IdentityComplete(m), true)
  }

  /** The comprehension that lists the expected runs: tasks, repetitions, arms. */
  method ExpectedPairs(tasks: seq<Text>, repetitions: nat) returns (pairs: seq<Slot>)
    ensures pairs == Slots(tasks, repetitions)
  {
    pairs := [];
    for t := 0 to |tasks|
      invariant pairs == Slots(tasks[..t], repetitions)
    {
      ghost var before := pairs;
      for r := 1 to repetitions + 1
        invariant pairs == before + TaskSlots(tasks[t], r - 1)
      {
        pairs := pairs + [Slot(tasks[t], r, Off), Slot(tasks[t], r, On)];
        assert pairs == before + (TaskSlots(tasks[t], r - 1) + PairOf(tasks[t], r));
      }
      SlotsTake(tasks, repetitions, t);
    }
    assert tasks[..|tasks|] == tasks;
  }

  /** `len(tasks) == len(set(tasks))`. */
  method AllDistinct(tasks: seq<Text>) returns (ok: bool)
    ensures ok == Distinct(tasks)
  {
    var seen: set<Text> := {};
    for i := 0 to |tasks|
      invariant seen == set k | 0 <= k < i :: tasks[k]
      invariant Distinct(tasks[..i])
    {
      if tasks[i] in seen {
        return false;
      }
      seen := seen + {tasks[i]};
    }
    assert tasks[..|tasks|] == tasks;
    return true;
  }

  /** The identities seen so far, by task. */
  ghost predicate Known(identities: map<Text, Digest>, raw: seq<Observation>) {
    && (forall i :: 0 <= i < |raw| ==>
          raw[i].slot.task in identities && identities[raw[i].slot.task] == raw[i].taskIdentity)
    && forall t :: t in identities ==> exists i :: 0 <= i < |raw| && raw[i].slot.task == t
  }

  lemma NothingKnown(reader: Reader, m: Manifest)
    ensures Consistent(reader, m, []) && Known(map[], [])
  {
  }

  lemma ConsistentGrows(reader: Reader, m: Manifest, raw: seq<Observation>, n: nat, identities: map<Text, Digest>)
    requires n < |raw| && Consistent(reader, m, raw[..n]) && Known(identities, raw[..n])
    ensures var o := raw[n];
            var fits := reader.isDigest(o.taskIdentity) && o.identity == m.identity
                        && (o.slot.task in identities ==> identities[o.slot.task] == o.taskIdentity);
            (fits ==> Consistent(reader, m, raw[..n + 1])) && (!fits ==> !Consistent(reader, m, raw))
  {
    var o := raw[n];
    var grown := raw[..n + 1];
    assert forall i :: 0 <= i < n ==> grown[i] == raw[..n][i] == raw[i];
    if o.slot.task in identities && identities[o.slot.task] != o.taskIdentity {
      var i :| 0 <= i < n && raw[..n][i].slot.task == o.slot.task;
      assert raw[i].taskIdentity != o.taskIdentity;
    }
  }

  lemma KnownGrows(identities: map<Text, Digest>, raw: seq<Observation>, n: nat)
    requires n < |raw| && Known(identities, raw[..n])
    ensures var o := raw[n];
            && (o.slot.task !in identities ==> Known(identities[o.slot.task := o.taskIdentity], raw[..n + 1]))
            && (o.slot.task in identities && identities[o.slot.task] == o.taskIdentity
                ==> Known(identities, raw[..n + 1]))
  {
    var grown := raw[..n + 1];
    assert forall i :: 0 <= i < n ==> grown[i] == raw[..n][i];
    assert grown[n] == raw[n];
    forall t | t in identities
      ensures exists i :: 0 <= i < |grown| && grown[i].slot.task == t
    {
      var i :| 0 <= i < n && raw[..n][i].slot.task == t;
      assert grown[i].slot.task == t;
    }
  }

  /** The exporter's loop over the records: their identities must not contradict one another,
      and whether each names a real run. */
  method ReadRecords(reader: Reader, m: Manifest, raw: seq<Observation>)
      returns (ok: bool, named: bool, slots: seq<Slot>)
    ensures ok == Consistent(reader, m, raw)
    ensures ok ==> slots == SlotsOf(raw) && (named <==> forall i :: 0 <= i < |raw| ==> WellFormed(reader, raw[i]))
  {
    hide Consistent, Known;
    var identities: map<Text, Digest> := map[];
    NothingKnown(reader, m);
    slots := [];
    named := true;
    for n := 0 to |raw|
      invariant Consistent(reader, m, raw[..n]) && Known(identities, raw[..n])
      invariant slots == SlotsOf(raw[..n])
      invariant named <==> forall i :: 0 <= i < n ==> WellFormed(reader, raw[i])
    {
      var record := raw[n];
      slots := slots + [record.slot];
      ConsistentGrows(reader, m, raw, n, identities);
      KnownGrows(identities, raw, n);
      if !reader.isDigest(record.taskIdentity) || record.identity != m.identity {
        return false, named, slots;
      }
      if !reader.isTask(record.slot.task) || record.workspace != reader.workspaceOf(record.slot) {
        named := false;
      }
      if record.slot.task !in identities {
        identities := identities[record.slot.task := record.taskIdentity];
      } else if identities[record.slot.task] != record.taskIdentity {
        return false, named, slots;
      }
    }
    assert raw[..|raw|] == raw;
    return true, named, slots;
  }

  method TasksAreNamed(reader: Reader, tasks: seq<Text>) returns (ok: bool)
    ensures ok <==> forall i :: 0 <= i < |tasks| ==> reader.isTask(tasks[i])
  {
    for i := 0 to |tasks|
      invariant forall k :: 0 <= k < i ==> reader.isTask(tasks[k])
    {
      if !reader.isTask(tasks[i]) {
        return false;
      }
    }
    return true;
  }

  /** `_identity_sidecar` with `_harness_provenance`. */
  method IdentitySidecar(reader: Reader, m: Manifest, raw: seq<Observation>) returns (r: Result<Sidecar, ExportError>)
    ensures r.Ok? <==> Agrees(reader, m, raw)
    ensures r == Err(HashMismatch) <==> m.rawSha != reader.sha(raw)
    ensures r.Ok? ==> r.value == SidecarOf(reader, m, raw)
  {
    hide WellFormed, Consistent, Slots;
    if m.rawSha != reader.sha(raw) {
      return Err(HashMismatch);
    }
    var named := TasksAreNamed(reader, m.tasks);
    if !named {
      return Err(MalformedTask);
    }
    var distinct := AllDistinct(m.tasks);
    var identity := 1 <= m.maxTasks <= 20 && 1 <= m.repetitions <= 10 && m.tasks != [] && distinct
        && |m.tasks| <= m.maxTasks;
    if identity && m.identity != reader.identityOf(m.tasks, m.repetitions, m.maxTasks) {
      return Err(IdentityContradiction);
    }
    if m.expectedRawCount < 0 || (identity && m.expectedRawCount != |m.tasks| * m.repetitions * 2) {
      return Err(CountMismatch);
    }
    var ok, wellFormed, slots := ReadRecords(reader, m, raw);
    if !ok {
      return Err(RecordContradiction);
    }
    if m.rawCount != |raw| || m.rawCount > m.expectedRawCount
       || (m.state == Complete && m.rawCount != m.expectedRawCount) {
      return Err(CountMismatch);
    }
    var paired := identity && wellFormed;
    if identity {
      var expected := ExpectedPairs(m.tasks, m.repetitions);
      paired := paired && |raw| <= |expected| && slots == expected[..|raw|] && |raw| % 2 == 0;
      if m.state == Complete {
        paired := paired && |raw| == |expected|;
      }
    }
    return Ok(if identity && paired then Provenance(m.state) else MissingProvenance(!identity, !paired));
  }

  /** The reader and the harness agree on hash, identities and names, and the campaign passed
      the harness's own guards. */
  ghost predicate Matches(reader: Reader, setup: Setup) {
    && reader.sha == setup.sha && (forall x, y :: setup.sha(x) == setup.sha(y) ==> x == y)
    && reader.workspaceOf == setup.workspaceOf
    && setup.identity == reader.identityOf(setup.tasks, setup.repetitions, setup.maxTasks)
    && (forall t :: reader.isDigest(setup.taskSha(t)))
    && 1 <= setup.maxTasks <= 20 && 1 <= setup.repetitions <= 10
    && setup.tasks != [] && Distinct(setup.tasks) && |setup.tasks| <= setup.maxTasks
    && forall i :: 0 <= i < |setup.tasks| ==> reader.isTask(setup.tasks[i])
  }

  /** A crash at any moment leaves a raw file that the exporter either rejects by its hash, when
      the manifest is one record behind, or accepts; then it finds pairs exactly when the
      length is even, and answers complete only for the whole campaign. */
  lemma {:induction false} EveryMomentExports(h: Harness, reader: Reader, i: nat)
    requires h.Valid() && i < |h.history| && h.history[i].manifest.Some? && Matches(reader, h.setup)
    ensures var d := h.history[i];
            var m := d.manifest.value;
            && m.rawCount <= |d.raw| <= m.rawCount + 1
            && (m.rawCount < |d.raw| ==> m.rawSha != reader.sha(d.raw))
            && (m.rawCount == |d.raw| ==>
                && Agrees(reader, m, d.raw)
                && SidecarOf(reader, m, d.raw) ==
                   (if |d.raw| % 2 == 0 then Provenance(m.state) else MissingProvenance(false, true)))
            && (m.state == Complete ==> |d.raw| == |h.setup.tasks| * h.setup.repetitions * 2)
  {
    assert Recoverable(h.setup, h.plan, h.history[i]);
    hide *;
    MomentExports(h.setup, reader, h.history[i]);
  }

  lemma MomentExports(setup: Setup, reader: Reader, d: Disk)
    requires Recoverable(setup, Slots(setup.tasks, setup.repetitions), d) && d.manifest.Some? && Matches(reader, setup)
    ensures var m := d.manifest.value;
            && m.rawCount <= |d.raw| <= m.rawCount + 1
            && (m.rawCount < |d.raw| ==> m.rawSha != reader.sha(d.raw))
            && (m.rawCount == |d.raw| ==>
                && Agrees(reader, m, d.raw)
                && SidecarOf(reader, m, d.raw) ==
                   (if |d.raw| % 2 == 0 then Provenance(m.state) else MissingProvenance(false, true)))
            && (m.state == Complete ==> |d.raw| == |setup.tasks| * setup.repetitions * 2)
  {
    hide Slots, Agrees, SidecarOf;
    var m := d.manifest.value;
    SlotCount(setup.tasks, setup.repetitions);
    if m.rawCount < |d.raw| {
      assert |d.raw[..m.rawCount]| != |d.raw|;
    } else {
      assert d.raw[..m.rawCount] == d.raw;
      WholePrefixExports(setup, reader, d.raw, m.state);
    }
  }

  lemma WholePrefixExports(setup: Setup, reader: Reader, raw: seq<Observation>, state: State)
    requires Matches(reader, setup) && |raw| <= |Slots(setup.tasks, setup.repetitions)|
    requires raw == Observations(setup, Slots(setup.tasks, setup.repetitions)[..|raw|])
    requires state == Complete ==> |raw| == |Slots(setup.tasks, setup.repetitions)|
    ensures var m := ManifestFor(setup, raw, state);
            && Agrees(reader, m, raw)
            && SidecarOf(reader, m, raw) ==
               (if |raw| % 2 == 0 then Provenance(state) else MissingProvenance(false, true))
  {
    var m := ManifestFor(setup, raw, state);
    var plan := Slots(setup.tasks, setup.repetitions);
    SlotCount(setup.tasks, setup.repetitions);
    forall k | 0 <= k < |raw|
      ensures WellFormed(reader, raw[k])
    {
      PlanIsPairs(setup.tasks, setup.repetitions, k);
    }
    assert SlotsOf(raw) == plan[..|raw|];
    hide Slots, WellFormed;
  }

  /** What the exporter's provenance means: the raw file is whole pairs, both arms of one task
      and repetition next to each other, and no run twice. */
  lemma ProvenanceMeansWholePairs(reader: Reader, m: Manifest, raw: seq<Observation>, j: nat, k: nat)
    requires SidecarOf(reader, m, raw).Provenance? && j < k < |raw|
    ensures |raw| % 2 == 0 && raw[j].slot != raw[k].slot
    ensures raw[j].slot.task in m.tasks && 1 <= raw[j].slot.repetition <= m.repetitions
    ensures j % 2 == 0 ==> raw[j].slot.arm == Off && raw[j + 1].slot == raw[j].slot.(arm := On)
  {
    var plan := Slots(m.tasks, m.repetitions);
    assert raw[j].slot == SlotsOf(raw)[j] == plan[j] && raw[k].slot == SlotsOf(raw)[k] == plan[k];
    assert raw[j + 1].slot == SlotsOf(raw)[j + 1] == plan[j + 1];
    PlanRepeatsNothing(m.tasks, m.repetitions, j, k);
    PlanIsPairs(m.tasks, m.repetitions, j);
  }

  /** Complete provenance has every run: each task, each repetition, each arm. */
  lemma CompleteHasEveryRun(reader: Reader, m: Manifest, raw: seq<Observation>, t: nat, r: nat, arm: Arm)
    requires SidecarOf(reader, m, raw) == Provenance(Complete)
    requires t < |m.tasks| && 1 <= r <= m.repetitions
    ensures exists k :: 0 <= k < |raw| && raw[k].slot == Slot(m.tasks[t], r, arm)
  {
    SlotsReach(m.tasks, m.repetitions, t, r);
    var k := |Slots(m.tasks[..t], m.repetitions) + TaskSlots(m.tasks[t], r - 1)| + (if arm == Off then 0 else 1);
    assert raw[k].slot == SlotsOf(raw)[k] == Slots(m.tasks, m.repetitions)[k];
  }
}
