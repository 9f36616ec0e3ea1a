/** The progress lines of a capacity run (scripts/process-tree-memory.py). */
module Progress {
  import opened Common

  const INTERVAL := 1000
  const TOTALS: set<int> := {135_000, 33_750}

  datatype State = Starting | Active | Complete | Stopped

  /** A progress observation; a printed line has the same four parts. */
  datatype Progress = Progress(state: State, ordinal: int, total: int, phase: string)

  /** The checks of `_split_label_state`, for a given set of phases. */
  predicate WellFormed(p: Progress, phases: set<string>) {
    && p.phase in phases && p.state != Stopped && p.total in TOTALS && 0 <= p.ordinal <= p.total
    && (p.state == Starting ==> p.ordinal == 0 && p.phase == "harness-startup")
    && (p.state == Active ==> p.ordinal != 0)
    && (p.state == Complete ==> p.ordinal == p.total)
  }

  /** What may come after an observation: more of the same run, and after completion only the
      same observation again. */
  predicate Follows(a: Progress, b: Progress) {
    if a.state == Complete then b == a
    else b.total == a.total && a.ordinal <= b.ordinal && (a.ordinal == b.ordinal ==> a.phase == b.phase)
  }

  ghost predicate IsRun(seen: seq<Progress>, phases: set<string>) {
    && (forall i :: 0 <= i < |seen| ==> WellFormed(seen[i], phases))
    && forall i :: 0 < i < |seen| ==> Follows(seen[i - 1], seen[i])
  }

  /** A run keeps one total, never goes back, stays in one phase at one ordinal, and does not
      change once complete. */
  lemma {:induction false} RunNeverRegresses(seen: seq<Progress>, phases: set<string>, i: nat, j: nat)
    requires IsRun(seen, phases) && i < j < |seen|
    ensures seen[i].total == seen[j].total && seen[i].ordinal <= seen[j].ordinal
    ensures seen[i].ordinal == seen[j].ordinal ==> seen[i].phase == seen[j].phase
    ensures seen[i].state == Complete ==> seen[j] == seen[i]
    decreases j
  {
    if i + 1 < j {
      RunNeverRegresses(seen, phases, i, j - 1);
    }
    assert Follows(seen[j - 1], seen[j]);
  }

  /** Where each printed line comes from: the index of an observation, in order. */
  ghost predicate Sources(lines: seq<Progress>, seen: seq<Progress>, from: seq<int>) {
    && |from| == |lines|
    && (forall k :: 0 <= k < |lines| ==> 0 <= from[k] < |seen| && lines[k] == seen[from[k]])
    && forall k :: 0 < k < |from| ==> from[k - 1] < from[k]
  }

  /** No line is idle talk: within a phase, lines are at least an interval apart, except the one
      that says complete; that one comes once and last. */
  ghost predicate Sparse(lines: seq<Progress>) {
    && (forall k :: 0 <= k < |lines| - 1 ==> lines[k].state != Complete)
    && forall k :: (0 < k < |lines| && lines[k].state != Complete && lines[k].phase == lines[k - 1].phase) ==>
                     lines[k].ordinal - lines[k - 1].ordinal >= INTERVAL
  }

  /** The reader is never far behind: the last line is in the current phase, less than an
      interval back, and says complete if the run is. */
  ghost predicate Current(lines: seq<Progress>, seen: seq<Progress>) {
    (seen == [] <==> lines == [])
    && (seen != [] ==>
          var line, now := lines[|lines| - 1], seen[|seen| - 1];
          && line.phase == now.phase && line.total == now.total && 0 <= now.ordinal - line.ordinal < INTERVAL
          && (now.state == Complete ==> line == now))
  }

  /** Lines that report a run as they should. */
  ghost predicate Reports(lines: seq<Progress>, seen: seq<Progress>, from: seq<int>) {
    Sources(lines, seen, from) && Sparse(lines) && Current(lines, seen)
  }

  /** Which observations get a line. */
  ghost predicate Emits(lines: seq<Progress>, seen: seq<Progress>, p: Progress) {
    || seen == [] || lines == [] || p.state == Complete
    || (p.state == Starting && seen[|seen| - 1].state != Starting)
    || p.phase != seen[|seen| - 1].phase
    || p.ordinal - lines[|lines| - 1].ordinal >= INTERVAL
  }

  ghost predicate Extends(seen: seq<Progress>, p: Progress) {
    seen == [] || Follows(seen[|seen| - 1], p)
  }

  lemma RunGrows(seen: seq<Progress>, phases: set<string>, p: Progress)
    requires IsRun(seen, phases) && WellFormed(p, phases) && Extends(seen, p)
    ensures IsRun(seen + [p], phases)
  {
    hide WellFormed, Follows;
  }

  lemma SourcesGrow(lines: seq<Progress>, seen: seq<Progress>, from: seq<int>, p: Progress)
    requires Sources(lines, seen, from)
    ensures Sources(lines, seen + [p], from) && Sources(lines + [p], seen + [p], from + [|seen|])
  {
  }

  lemma LineIsDue(lines: seq<Progress>, seen: seq<Progress>, from: seq<int>, phases: set<string>, p: Progress)
    requires Reports(lines, seen, from) && IsRun(seen, phases) && WellFormed(p, phases) && Extends(seen, p)
    requires Emits(lines, seen, p) && (seen != [] ==> seen[|seen| - 1].state != Complete)
    ensures Reports(lines + [p], seen + [p], from + [|seen|])
  {
    SourcesGrow(lines, seen, from, p);
    if lines != [] {
      assert lines[|lines| - 1] == seen[from[|lines| - 1]];
      CompleteStays(seen, phases, from[|lines| - 1]);
    }
    hide Sources, IsRun;
  }

  lemma CompleteStays(seen: seq<Progress>, phases: set<string>, i: nat)
    requires IsRun(seen, phases) && i < |seen|
    ensures seen[i].state == Complete ==> seen[|seen| - 1].state == Complete
  {
    if i < |seen| - 1 {
      RunNeverRegresses(seen, phases, i, |seen| - 1);
    }
  }

  lemma NoLineIsDue(lines: seq<Progress>, seen: seq<Progress>, from: seq<int>, phases: set<string>, p: Progress)
    requires Reports(lines, seen, from) && IsRun(seen, phases) && WellFormed(p, phases) && Extends(seen, p)
    requires !Emits(lines, seen, p) || (seen != [] && seen[|seen| - 1].state == Complete)
    ensures Reports(lines, seen + [p], from)
  {
    SourcesGrow(lines, seen, from, p);
    hide Sources, IsRun;
  }

  class ProgressReporter {
    const phases: set<string>
    var lines: seq<Progress>
    var lastObservedOrdinal: int
    var lastEmittedOrdinal: int
    var lastPhase: Option<string>
    var lastState: Option<State>
    var progressTotal: Option<int>
    ghost var seen: seq<Progress>
    ghost var from: seq<int>

    ghost predicate Valid()
      reads this
    {
      && IsRun(seen, phases)
      && (if seen == [] then
            && lastObservedOrdinal == -1 && lastEmittedOrdinal == -INTERVAL
            && lastPhase == None && lastState == None && progressTotal == None
          else
            var now := seen[|seen| - 1];
            && lastObservedOrdinal == now.ordinal && lastPhase == Some(now.phase) && progressTotal == Some(now.total)
            && lines != []
            && if IsStopped() then now.state != Complete
               else lastState == Some(now.state) && lastEmittedOrdinal == lines[|lines| - 1].ordinal)
      && (!IsStopped() ==> Reports(lines, seen, from))
    }

    predicate IsStopped()
      reads this
    {
      lastState == Some(Stopped)
    }

    /** While the run goes on. */
    ghost predicate Reporting()
      reads this
    {
      Valid() && !IsStopped()
    }

    constructor (phases: set<string>)
      ensures Reporting() && seen == [] && lines == [] && this.phases == phases
    {
      this.phases := phases;
      lines, lastObservedOrdinal, lastEmittedOrdinal := [], -1, -INTERVAL;
      lastPhase, lastState, progressTotal := None, None, None;
      seen, from := [], [];
    }

    /** `_observe`: false where the source raises. After the stop everything is refused. */
    method Observe(progress: Option<Progress>) returns (ok: bool)
      requires Valid() && (progress.Some? ==> WellFormed(progress.value, phases))
      modifies this
      ensures Valid() && (IsStopped() <==> old(IsStopped())) && (IsStopped() ==> !ok && lines == old(lines))
      ensures !IsStopped() && progress.None? ==>
                (ok <==> old(seen) == [] || old(seen)[|old(seen)| - 1].state != Complete)
      ensures !IsStopped() && progress.Some? ==>
                (ok <==> old(seen) == [] || Follows(old(seen)[|old(seen)| - 1], progress.value))
      ensures seen == if ok && progress.Some? then old(seen) + [progress.value] else old(seen)
      ensures old(lines) <= lines && |lines| <= |old(lines)| + 1
    {
      hide IsRun, WellFormed, Reports;
      if progress.None? {
        return lastState != Some(Complete) && lastState != Some(Stopped);
      }
      var p := progress.value;
      if lastState == Some(Stopped) {
        return false;
      }
      if lastState == Some(Complete) {
        if p.state == Complete && p.ordinal == lastObservedOrdinal && Some(p.total) == progressTotal
           && Some(p.phase) == lastPhase {
          RunGrows(seen, phases, p);
          NoLineIsDue(lines, seen, from, phases, p);
          seen := seen + [p];
          return true;
        }
        return false;
      }
      NoNegativeOrdinal(p, phases);
      if (progressTotal.Some? && progressTotal != Some(p.total)) || p.ordinal < lastObservedOrdinal
         || (p.ordinal == lastObservedOrdinal && lastPhase != Some(p.phase)) {
        return false;
      }
      Record(p);
      return true;
    }

    /** The rest of `_observe`, for an observation that is taken: whether it gets a line. */
    method Record(p: Progress)
      requires Reporting() && WellFormed(p, phases) && Extends(seen, p)
               && (seen != [] ==> seen[|seen| - 1].state != Complete)
      modifies this
      ensures Reporting() && seen == old(seen) + [p]
      ensures lines == old(lines) + if Emits(old(lines), old(seen), p) then [p] else []
    {
      hide IsRun, Reports, Extends;
      ghost var before := seen;
      RunGrows(seen, phases, p);
      NoNegativeOrdinal(p, phases);
      var emit := p.state == Complete || (p.state == Starting && lastState != Some(Starting))
                  || lastPhase != Some(p.phase) || p.ordinal - lastEmittedOrdinal >= INTERVAL;
      assert emit <==> Emits(lines, seen, p);
      progressTotal := Some(p.total);
      lastObservedOrdinal, lastPhase, lastState := p.ordinal, Some(p.phase), Some(p.state);
      seen := seen + [p];
      if emit {
        LineIsDue(lines, before, from, phases, p);
        lines := lines + [p];
        lastEmittedOrdinal := p.ordinal;
        from := from + [|before|];
      } else {
        NoLineIsDue(lines, before, from, phases, p);
      }
    }

    /** `finish`: a run that did not complete is reported as stopped, once; a clean exit forbids it. */
    method Finish(exitCode: int) returns (ok: bool)
      requires Valid()
      modifies this
      ensures Valid() && seen == old(seen)
      ensures ok <==> old(IsStopped()) || seen == [] || seen[|seen| - 1].state == Complete || exitCode != 0
      ensures IsStopped() <==> old(IsStopped()) || (ok && seen != [] && seen[|seen| - 1].state != Complete)
      ensures lines == old(lines) + (if IsStopped() && !old(IsStopped())
                                     then [seen[|seen| - 1].(state := Stopped)] else [])
    {
      if lastState == None || lastState == Some(Complete) || lastState == Some(Stopped) {
        return true;
      }
      if exitCode == 0 {
        return false;
      }
      lines := lines + [Progress(Stopped, lastObservedOrdinal, progressTotal.value, lastPhase.value)];
      lastState := Some(Stopped);
      return true;
    }
  }

  lemma NoNegativeOrdinal(p: Progress, phases: set<string>)
    requires WellFormed(p, phases)
    ensures p.ordinal >= 0 && p.state != Stopped
  {
  }
}
