/** The paired campaign: the harness that writes raw observations and a manifest
    (scripts/local-atlas-ab.py). */
module Campaign {
  import opened Common

  type Text = string
  type Digest = seq<Byte>

  datatype Arm = Off | On

  /** Which run an observation is of. */
  datatype Slot = Slot(task: Text, repetition: int, arm: Arm)

  /** A raw record: its slot, the workspace path it names, the identities that tie it to the
      campaign and to its task, and what the runner said. */
  datatype Observation = Observation(slot: Slot, workspace: Text, identity: Digest, taskIdentity: Digest, outcome: Text)

  datatype State = Partial | Complete

  datatype Manifest = Manifest(state: State, rawCount: int, rawSha: Digest, expectedRawCount: int,
                               identity: Digest, tasks: seq<Text>, repetitions: int, maxTasks: int)

  /** The destination directory: the raw file, the manifest, and the manifest being written. */
  datatype Disk = Disk(raw: seq<Observation>, manifest: Option<Manifest>, temporary: Option<Manifest>)

  // --------------------------------------------------------------- the slot order

  /** Both arms of one repetition, off first. */
  function PairOf(task: Text, repetition: int): seq<Slot> {
    [Slot(task, repetition, Off), Slot(task, repetition, On)]
  }

  /** The slots of one task's repetitions 1..n. */
  function TaskSlots(task: Text, n: nat): (s: seq<Slot>)
    ensures |s| == 2 * n
  {
    if n == 0 then [] else TaskSlots(task, n - 1) + PairOf(task, n)
  }

  /** All slots: tasks, then repetitions, then arms. */
  function Slots(tasks: seq<Text>, repetitions: nat): (s: seq<Slot>)
    ensures |s| % 2 == 0
  {
    if tasks == [] then []
    else Slots(tasks[..|tasks| - 1], repetitions) + TaskSlots(tasks[|tasks| - 1], repetitions)
  }

  lemma {:induction false} SlotCount(tasks: seq<Text>, repetitions: nat)
    ensures |Slots(tasks, repetitions)| == |tasks| * repetitions * 2
  {
    if tasks != [] {
      SlotCount(tasks[..|tasks| - 1], repetitions);
      assert |tasks| * repetitions == (|tasks| - 1) * repetitions + repetitions;
    }
  }

  // ------------------------------------------------------------------ the harness

  /** What the harness holds fixed, and what it calls. */
  datatype Setup = Setup(tasks: seq<Text>, repetitions: nat, maxTasks: int, identity: Digest,
                         sha: seq<Observation> -> Digest, taskSha: Text -> Digest, run: Slot -> Text,
                         workspaceOf: Slot -> Text)

  function ObservationOf(setup: Setup, slot: Slot): Observation {
    Observation(slot, setup.workspaceOf(slot), setup.identity, setup.taskSha(slot.task), setup.run(slot))
  }

  function ManifestFor(setup: Setup, records: seq<Observation>, state: State): Manifest {
    Manifest(state, |records|, setup.sha(records), |setup.tasks| * setup.repetitions * 2, setup.identity,
             setup.tasks, setup.repetitions, setup.maxTasks)
  }

  function Observations(setup: Setup, slots: seq<Slot>): (r: seq<Observation>)
    ensures |r| == |slots|
    ensures forall i :: 0 <= i < |slots| ==> r[i] == ObservationOf(setup, slots[i])
  {
    seq(|slots|, i requires 0 <= i < |slots| => ObservationOf(setup, slots[i]))
  }

  /** What the directory can look like at any moment: the raw file is a prefix of the plan,
      and the manifest describes all of it, or all but the last record. */
  predicate Recoverable(setup: Setup, plan: seq<Slot>, d: Disk) {
    && |d.raw| <= |plan| && d.raw == Observations(setup, plan[..|d.raw|])
    && match d.manifest
       case None => d.raw == []
       case Some(m) =>
         && m.rawCount <= |d.raw| <= m.rawCount + 1 && 0 <= m.rawCount
         && m == ManifestFor(setup, d.raw[..m.rawCount], m.state)
         && (m.state == Complete ==> m.rawCount == |d.raw| == |plan|)
  }

  /** The harness, and every state its directory passes through. */
  class Harness {
    const setup: Setup
    var disk: Disk
    var records: seq<Observation>
    ghost const plan: seq<Slot>
    ghost var history: seq<Disk>

    ghost predicate Valid()
      reads this
    {
      && plan == Slots(setup.tasks, setup.repetitions)
      && history != [] && history[|history| - 1] == disk
      && (forall i :: 0 <= i < |history| ==> Recoverable(setup, plan, history[i]))
      && records == disk.raw
    }

    /** The manifest on disk is the one of all records. */
    ghost predicate Settled()
      reads this
    {
      Valid() && disk.manifest == Some(ManifestFor(setup, records, Partial))
    }

    constructor (setup: Setup)
      ensures Valid() && this.setup == setup && disk == Disk([], None, None) && history == [disk]
    {
      this.setup := setup;
      this.disk := Disk([], None, None);
      this.records := [];
      this.plan := Slots(setup.tasks, setup.repetitions);
      this.history := [Disk([], None, None)];
    }

    method Store(d: Disk)
      requires Valid() && Recoverable(setup, plan, d) && d.raw == records
      modifies this`disk, this`history
      ensures Valid() && disk == d && history == old(history) + [d]
    {
      hide Recoverable;
      disk := d;
      history := history + [d];
    }

    /** `_write_manifest`: write a temporary file, then replace the manifest with it. */
    method WriteManifest(m: Manifest)
      requires Valid() && m == ManifestFor(setup, records, m.state)
      requires m.state == Complete ==> |records| == |plan|
      modifies this`disk, this`history
      ensures Valid() && disk == Disk(records, Some(m), None) && old(history) <= history
    {
      ManifestIsRecoverable(setup, plan, disk, m);
      hide Recoverable, ManifestFor, Slots, Observations;
      Store(disk.(temporary := Some(m)));
      Store(Disk(disk.raw, Some(m), None));
    }

    /** The body of the loops: run the arm, append its record, then rewrite the manifest. */
    method RunArm(slot: Slot)
      requires Settled() && |records| < |plan| && plan[|records|] == slot
      modifies this`disk, this`records, this`history
      ensures Settled() && records == old(records) + [ObservationOf(setup, slot)] && old(history) <= history
    {
      hide Recoverable, Slots, Observations;
      var record := ObservationOf(setup, slot);
      RawAppendIsRecoverable(setup, plan, disk, record);
      records := records + [record];
      disk := disk.(raw := disk.raw + [record]);
      history := history + [disk];
      WriteManifest(ManifestFor(setup, records, Partial));
    }

    /** One repetition of a task: the arm without, then the arm with. */
    method RunPair(task: Text, r: nat)
      requires Settled() && |records| + 2 <= |plan|
      requires plan[|records|] == Slot(task, r, Off) && plan[|records| + 1] == Slot(task, r, On)
      modifies this`disk, this`records, this`history
      ensures Settled() && old(history) <= history
      ensures records == old(records) + Observations(setup, PairOf(task, r))
    {
      hide Recoverable, ManifestFor, Slots, TaskSlots;
      RunArm(Slot(task, r, Off));
      RunArm(Slot(task, r, On));
    }

    method RunTask(t: nat)
      requires t < |setup.tasks| && Settled()
      requires records == Observations(setup, Slots(setup.tasks[..t], setup.repetitions))
      modifies this`disk, this`records, this`history
      ensures Settled() && old(history) <= history
      ensures records == Observations(setup, Slots(setup.tasks[..t + 1], setup.repetitions))
    {
      hide Recoverable, ManifestFor, Slots, Observations;
      var task := setup.tasks[t];
      ghost var before := Slots(setup.tasks[..t], setup.repetitions);
      for r := 1 to setup.repetitions + 1
        invariant Settled() && old(history) <= history
        invariant records == Observations(setup, before + TaskSlots(task, r - 1))
      {
        SlotsReach(setup.tasks, setup.repetitions, t, r);
        RunPair(task, r);
        ObservationsGrow(setup, before + TaskSlots(task, r - 1), PairOf(task, r));
        assert before + TaskSlots(task, r - 1) + PairOf(task, r) == before + TaskSlots(task, r);
      }
      SlotsTake(setup.tasks, setup.repetitions, t);
    }

    /** The campaign from its first manifest on; false when the executables changed. */
    method Run(executablesUnchanged: bool) returns (complete: bool)
      requires Valid() && disk == Disk([], None, None)
      modifies this`disk, this`records, this`history
      ensures Valid() && complete == executablesUnchanged && old(history) <= history
      ensures disk.raw == Observations(setup, plan)
      ensures disk.manifest == Some(ManifestFor(setup, records, if complete then Complete else Partial))
    {
      hide Recoverable;
      WriteManifest(ManifestFor(setup, records, Partial));
      var tasks := setup.tasks;
      for t := 0 to |tasks|
        invariant Settled() && old(history) <= history
        invariant records == Observations(setup, Slots(tasks[..t], setup.repetitions))
      {
        RunTask(t);
      }
      assert tasks[..|tasks|] == tasks;
      if !executablesUnchanged {
        return false;
      }
      WriteManifest(ManifestFor(setup, records, Complete));
      return true;
    }
  }

  lemma ManifestIsRecoverable(setup: Setup, plan: seq<Slot>, d: Disk, m: Manifest)
    requires Recoverable(setup, plan, d) && m == ManifestFor(setup, d.raw, m.state)
    requires m.state == Complete ==> |d.raw| == |plan|
    ensures Recoverable(setup, plan, d.(temporary := Some(m))) && Recoverable(setup, plan, Disk(d.raw, Some(m), None))
  {
    assert d.raw[..|d.raw|] == d.raw;
  }

  lemma RawAppendIsRecoverable(setup: Setup, plan: seq<Slot>, d: Disk, record: Observation)
    requires Recoverable(setup, plan, d) && |d.raw| < |plan| && record == ObservationOf(setup, plan[|d.raw|])
    requires d.manifest.Some? && d.manifest.value == ManifestFor(setup, d.raw, Partial)
    ensures Recoverable(setup, plan, d.(raw := d.raw + [record]))
  {
    var raw := d.raw + [record];
    assert raw[..|d.raw|] == d.raw;
    assert plan[..|raw|] == plan[..|d.raw|] + [plan[|d.raw|]];
  }

  lemma ObservationsGrow(setup: Setup, slots: seq<Slot>, more: seq<Slot>)
    ensures Observations(setup, slots + more) == Observations(setup, slots) + Observations(setup, more)
  {
  }

  lemma SlotsTake(tasks: seq<Text>, repetitions: nat, t: nat)
    requires t < |tasks|
    ensures Slots(tasks[..t + 1], repetitions) == Slots(tasks[..t], repetitions) + TaskSlots(tasks[t], repetitions)
  {
    assert tasks[..t + 1][..t] == tasks[..t];
  }

  /** Where the loops' next two slots stand in the whole plan. */
  lemma {:induction false} SlotsReach(tasks: seq<Text>, repetitions: nat, t: nat, r: nat)
    requires t < |tasks| && 1 <= r <= repetitions
    ensures var done := Slots(tasks[..t], repetitions) + TaskSlots(tasks[t], r - 1);
            var plan := Slots(tasks, repetitions);
            |done| + 2 <= |plan| && plan[|done|] == Slot(tasks[t], r, Off) && plan[|done| + 1] == Slot(tasks[t], r, On)
  {
    hide Slots, TaskSlots;
    TaskSlotsReach(tasks[t], repetitions, r);
    SlotsStart(tasks, repetitions, t);
    var before, runs := Slots(tasks[..t], repetitions), TaskSlots(tasks[t], repetitions);
    var k := |before| + 2 * (r - 1);
    assert (before + runs)[k] == runs[k - |before|] && (before + runs)[k + 1] == runs[k + 1 - |before|];
  }

  /** The place of every run in the plan. */
  lemma PlanAt(tasks: seq<Text>, repetitions: nat, t: nat, r: nat)
    requires t < |tasks| && 1 <= r <= repetitions
    ensures var plan := Slots(tasks, repetitions);
            var place := 2 * (t * repetitions + r - 1);
            && 0 <= place < place + 1 < |plan|
            && plan[place] == Slot(tasks[t], r, Off) && plan[place + 1] == Slot(tasks[t], r, On)
  {
    SlotsReach(tasks, repetitions, t, r);
    SlotCount(tasks[..t], repetitions);
  }

  lemma {:induction false} TaskSlotsReach(task: Text, n: nat, r: nat)
    requires 1 <= r <= n
    ensures TaskSlots(task, n)[2 * (r - 1)] == Slot(task, r, Off)
            && TaskSlots(task, n)[2 * (r - 1) + 1] == Slot(task, r, On)
  {
    if r < n {
      TaskSlotsReach(task, n - 1, r);
    }
  }

  lemma {:induction false} SlotsStart(tasks: seq<Text>, repetitions: nat, t: nat)
    requires t < |tasks|
    ensures Slots(tasks[..t], repetitions) + TaskSlots(tasks[t], repetitions) <= Slots(tasks, repetitions)
  {
    var front := tasks[..|tasks| - 1];
    if t < |front| {
      SlotsStart(front, repetitions, t);
      assert front[..t] == tasks[..t];
    }
  }

  // ------------------------------------------------------------ what the plan is

  predicate Distinct(tasks: seq<Text>) {
    forall i, j :: 0 <= i < j < |tasks| ==> tasks[i] != tasks[j]
  }

  /** The slot at each place of one task's runs. */
  lemma {:induction false} TaskSlotsAt(task: Text, n: nat, k: nat)
    requires k < 2 * n
    ensures TaskSlots(task, n)[k] == Slot(task, k / 2 + 1, if k % 2 == 0 then Off else On)
  {
    if k < 2 * (n - 1) {
      TaskSlotsAt(task, n - 1, k);
    }
  }

  /** At place k stands a run of one of the tasks; at an even place the arm without, and next to
      it the same run with. */
  predicate PairAt(s: seq<Slot>, k: nat, tasks: seq<Text>, repetitions: nat) {
    && k < |s| && s[k].task in tasks && 1 <= s[k].repetition <= repetitions
    && s[k].arm == (if k % 2 == 0 then Off else On)
    && (k % 2 == 0 ==> k + 1 < |s| && s[k + 1] == s[k].(arm := On))
  }

  lemma TaskSlotsArePairs(tasks: seq<Text>, task: Text, n: nat, k: nat)
    requires k < 2 * n && task in tasks
    ensures PairAt(TaskSlots(task, n), k, tasks, n)
  {
    hide TaskSlots;
    TaskSlotsAt(task, n, k);
    if k % 2 == 0 {
      TaskSlotsAt(task, n, k + 1);
    }
  }

  lemma PairInFront(a: seq<Slot>, b: seq<Slot>, k: nat, tasks: seq<Text>, more: seq<Text>, repetitions: nat)
    requires PairAt(a, k, tasks, repetitions) && forall x :: x in tasks ==> x in more
    ensures PairAt(a + b, k, more, repetitions)
  {
  }

  lemma PairInBack(a: seq<Slot>, b: seq<Slot>, k: nat, tasks: seq<Text>, repetitions: nat)
    requires |a| % 2 == 0 && PairAt(b, k, tasks, repetitions)
    ensures PairAt(a + b, |a| + k, tasks, repetitions)
  {
    assert (|a| + k) % 2 == k % 2;
  }

  /** The plan goes pair by pair. */
  lemma {:induction false} PlanIsPairs(tasks: seq<Text>, repetitions: nat, k: nat)
    requires k < |Slots(tasks, repetitions)|
    ensures PairAt(Slots(tasks, repetitions), k, tasks, repetitions)
  {
    var front, last := tasks[..|tasks| - 1], tasks[|tasks| - 1];
    var a, b := Slots(front, repetitions), TaskSlots(last, repetitions);
    assert Slots(tasks, repetitions) == a + b;
    hide Slots, TaskSlots, PairAt;
    if k < |a| {
      PlanIsPairs(front, repetitions, k);
      PairInFront(a, b, k, front, tasks, repetitions);
    } else {
      TaskSlotsArePairs(tasks, last, repetitions, k - |a|);
      PairInBack(a, b, k - |a|, tasks, repetitions);
    }
  }

  /** With distinct tasks the plan has no run twice. */
  lemma {:induction false} PlanRepeatsNothing(tasks: seq<Text>, repetitions: nat, j: nat, k: nat)
    requires Distinct(tasks) && j < k < |Slots(tasks, repetitions)|
    ensures Slots(tasks, repetitions)[j] != Slots(tasks, repetitions)[k]
  {
    var front, last := tasks[..|tasks| - 1], tasks[|tasks| - 1];
    var start := |Slots(front, repetitions)|;
    if k < start {
      PlanRepeatsNothing(front, repetitions, j, k);
    } else {
      TaskSlotsAt(last, repetitions, k - start);
      if j < start {
        PlanIsPairs(front, repetitions, j);
      } else {
        TaskSlotsAt(last, repetitions, j - start);
      }
    }
  }
}
