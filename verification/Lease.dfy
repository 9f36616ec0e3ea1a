/** The writer lease of a catalogue (src/catalogue.rs). Times are in nanoseconds; what the
    row stores is cut to milliseconds. */
module Lease {
  import opened Common

  type Holder = string

  const MS := 1_000_000
  const DEFAULT_LEASE_NS := 300_000_000_000

  /** A row of `writer_lease`; its times are the stored millisecond strings. */
  datatype Row = Row(holder: Holder, acquiredMs: nat, expiresMs: nat, heartbeatMs: nat)

  datatype Guard = Guard(holder: Holder, acquiredMs: nat, expiresMs: nat)

  datatype LeaseError = Held(holder: Holder) | Expired

  /** `iso8601_age_seconds(...)? `: older than the limit, at the moment it is asked. */
  predicate IsStale(row: Row, askedAt: nat, staleAfter: nat) {
    askedAt - row.heartbeatMs * MS > staleAfter
  }

  predicate MayAcquire(row: Option<Row>, holder: Holder, askedAt: nat, staleAfter: nat) {
    row.None? || row.value.holder == holder || IsStale(row.value, askedAt, staleAfter)
  }

  /** The upsert: an existing row keeps its holder and gets new times. */
  function Upsert(row: Option<Row>, holder: Holder, now: nat, duration: nat): Row {
    Row(if row.Some? then row.value.holder else holder, now / MS, (now + duration) / MS, now / MS)
  }

  // --------------------------------------------------------------- the catalogue

  class Catalogue {
    var leases: map<string, Row>

    constructor ()
      ensures leases == map[]
    {
      leases := map[];
    }

    function RowOf(workspace: string): Option<Row>
      reads this
    {
      if workspace in leases then Some(leases[workspace]) else None
    }

    method AcquireWriterLease(workspace: string, holder: Holder, now: nat, askedAt: nat, duration: nat, staleAfter: nat)
      returns (r: Result<Guard, LeaseError>)
      modifies this
      ensures forall w :: w != workspace ==> RowOf(w) == old(RowOf(w))
      ensures r.Ok? <==> MayAcquire(old(RowOf(workspace)), holder, askedAt, staleAfter)
      ensures r.Ok? ==> r.value == Guard(holder, now / MS, (now + duration) / MS)
      ensures r.Ok? ==> RowOf(workspace) == Some(Upsert(old(RowOf(workspace)), holder, now, duration))
      ensures r.Err? ==> leases == old(leases) && r.error == Held(old(leases)[workspace].holder)
    {
      var existing := RowOf(workspace);
      var acquire := true;
      if existing.Some? {
        acquire := existing.value.holder == holder || IsStale(existing.value, askedAt, staleAfter);
      }
      if !acquire {
        return Err(Held(existing.value.holder));
      }
      var inserted := Row(holder, now / MS, (now + duration) / MS, now / MS);
      leases := leases[workspace :=
        if existing.Some?
        then existing.value.(acquiredMs := inserted.acquiredMs, expiresMs := inserted.expiresMs,
                             heartbeatMs := inserted.heartbeatMs)
        else inserted];
      return Ok(Guard(holder, inserted.acquiredMs, inserted.expiresMs));
    }

    method HeartbeatWriterLease(workspace: string, holder: Holder, now: nat) returns (r: Result<(), LeaseError>)
      modifies this
      ensures forall w :: w != workspace ==> RowOf(w) == old(RowOf(w))
      ensures r.Ok? <==> old(RowOf(workspace)).Some? && old(RowOf(workspace)).value.holder == holder
      ensures r.Ok? ==> RowOf(workspace) == Some(old(RowOf(workspace)).value.(
                          heartbeatMs := now / MS, expiresMs := (now + DEFAULT_LEASE_NS) / MS))
      ensures r.Err? ==> leases == old(leases) && r.error == Expired
    {
      if workspace in leases && leases[workspace].holder == holder {
        var row := leases[workspace];
        leases := leases[workspace := row.(heartbeatMs := now / MS, expiresMs := (now + DEFAULT_LEASE_NS) / MS)];
        return Ok(());
      }
      return Err(Expired);
    }

    method ReleaseWriterLease(workspace: string, holder: Holder)
      modifies this
      ensures forall w :: w != workspace ==> RowOf(w) == old(RowOf(w))
      ensures RowOf(workspace) == if old(RowOf(workspace)).Some? && old(RowOf(workspace)).value.holder == holder
                                  then None else old(RowOf(workspace))
    {
      if workspace in leases && leases[workspace].holder == holder {
        leases := leases - {workspace};
      }
    }
  }

  // ------------------------------------------------------------ runs of operations

  /** One call on one workspace, with the clock readings it makes. */
  datatype Op =
    | Acquire(who: Holder, now: nat, askedAt: nat, duration: nat, staleAfter: nat)
    | Heartbeat(who: Holder, now: nat)
    | Release(who: Holder)

  /** The row, who has been granted the lease and has not released it, the latest clock
      reading, and when the row's heartbeat was really taken. */
  datatype State = State(row: Option<Row>, grants: set<Holder>, clock: nat, refreshedAt: nat)

  const EMPTY := State(None, {}, 0, 0)

  /** The clock does not go back. */
  predicate Timely(s: State, op: Op) {
    match op
    case Acquire(_, now, askedAt, _, _) => s.clock <= now <= askedAt
    case Heartbeat(_, now) => s.clock <= now
    case Release(_) => true
  }

  predicate Granted(s: State, op: Op) {
    op.Acquire? && MayAcquire(s.row, op.who, op.askedAt, op.staleAfter)
  }

  /** A grant to someone other than the row's holder. */
  predicate TakesOver(s: State, op: Op) {
    Granted(s, op) && s.row.Some? && s.row.value.holder != op.who
  }

  predicate HoldsRow(s: State, holder: Holder) {
    s.row.Some? && s.row.value.holder == holder
  }

  function Step(s: State, op: Op): State {
    match op
    case Acquire(who, now, askedAt, duration, _) =>
      if Granted(s, op) then State(Some(Upsert(s.row, who, now, duration)), s.grants + {who}, askedAt, now)
      else s.(clock := askedAt)
    case Heartbeat(who, now) =>
      if HoldsRow(s, who) then
        State(Some(s.row.value.(heartbeatMs := now / MS, expiresMs := (now + DEFAULT_LEASE_NS) / MS)), s.grants, now,
              now)
      else s.(clock := now)
    case Release(who) => s.(row := if HoldsRow(s, who) then None else s.row, grants := s.grants - {who})
  }

  function Run(ops: seq<Op>): State {
    if ops == [] then EMPTY else Step(Run(ops[..|ops| - 1]), ops[|ops| - 1])
  }

  /** One call on the catalogue is one step of the row; another workspace's row stays. */
  method Perform(c: Catalogue, workspace: string, op: Op, ghost s: State) returns (granted: bool)
    requires c.RowOf(workspace) == s.row
    modifies c
    ensures c.RowOf(workspace) == Step(s, op).row
    ensures granted <==> Granted(s, op)
    ensures forall w :: w != workspace ==> c.RowOf(w) == old(c.RowOf(w))
  {
    granted := false;
    match op
    case Acquire(who, now, askedAt, duration, staleAfter) =>
      var r := c.AcquireWriterLease(workspace, who, now, askedAt, duration, staleAfter);
      granted := r.Ok?;
    case Heartbeat(who, now) =>
      var r := c.HeartbeatWriterLease(workspace, who, now);
    case Release(who) =>
      c.ReleaseWriterLease(workspace, who);
  }

  /** A run of calls on an empty catalogue, and who has been granted the lease since and has not
      released it. */
  method Replay(workspace: string, ops: seq<Op>) returns (c: Catalogue, holders: set<Holder>)
    ensures fresh(c) && c.RowOf(workspace) == Run(ops).row && holders == Run(ops).grants
  {
    hide Step, Granted;
    c := new Catalogue();
    holders := {};
    for n := 0 to |ops|
      invariant c.RowOf(workspace) == Run(ops[..n]).row && holders == Run(ops[..n]).grants
      invariant fresh(c)
    {
      assert ops[..n + 1][..n] == ops[..n];
      var granted := Perform(c, workspace, ops[n], Run(ops[..n]));
      StepGrants(Run(ops[..n]), ops[n]);
      if granted {
        holders := holders + {ops[n].who};
      } else if ops[n].Release? {
        holders := holders - {ops[n].who};
      }
    }
    assert ops[..|ops|] == ops;
  }

  /** A step lets in exactly whom it grants, and out exactly who releases. */
  lemma StepGrants(s: State, op: Op)
    ensures Step(s, op).grants == if Granted(s, op) then s.grants + {op.who}
                                  else if op.Release? then s.grants - {op.who} else s.grants
    ensures Granted(s, op) ==> op.Acquire?
  {
  }

  ghost predicate TimelyRun(ops: seq<Op>) {
    forall k :: 0 <= k < |ops| ==> Timely(Run(ops[..k]), ops[k])
  }

  /** While the row exists, its holder never changes: not even by a takeover. */
  lemma {:induction false} HolderIsFixed(ops: seq<Op>, i: nat, j: nat)
    requires i <= j <= |ops| && forall k :: i <= k <= j ==> Run(ops[..k]).row.Some?
    ensures Run(ops[..j]).row.value.holder == Run(ops[..i]).row.value.holder
    decreases j
  {
    if i < j {
      HolderIsFixed(ops, i, j - 1);
      assert ops[..j][..j - 1] == ops[..j - 1];
      assert Run(ops[..j - 1]).row.Some? && Run(ops[..j]).row.Some?;
    }
  }

  /** The stored heartbeat is the true one, cut to the millisecond. */
  lemma {:induction false} HeartbeatIsCut(ops: seq<Op>)
    requires TimelyRun(ops)
    ensures var s := Run(ops);
            s.refreshedAt <= s.clock && (s.row.Some? ==> s.row.value.heartbeatMs == s.refreshedAt / MS)
  {
    if ops != [] {
      var front := ops[..|ops| - 1];
      PrefixIsTimely(ops);
      HeartbeatIsCut(front);
      assert Timely(Run(ops[..|front|]), ops[|front|]);
    }
  }

  lemma PrefixIsTimely(ops: seq<Op>)
    requires TimelyRun(ops) && ops != []
    ensures TimelyRun(ops[..|ops| - 1])
  {
    var front := ops[..|ops| - 1];
    forall k | 0 <= k < |front| ensures Timely(Run(front[..k]), front[k]) {
      assert front[..k] == ops[..k];
    }
  }

  /** Exactly when another holder is granted the lease: its age and the fraction of a
      millisecond that the stored string lost exceed the limit together. So it is early,
      not older than the limit, exactly when that fraction alone makes the difference. */
  lemma TakeoverIff(ops: seq<Op>, op: Op)
    requires TimelyRun(ops) && op.Acquire? && Run(ops).row.Some? && Run(ops).row.value.holder != op.who
    ensures var refreshed := Run(ops).refreshedAt;
            var age := op.askedAt - refreshed;
            && (TakesOver(Run(ops), op) <==> age + refreshed % MS > op.staleAfter)
            && (TakesOver(Run(ops), op) && age <= op.staleAfter <==> age <= op.staleAfter < age + refreshed % MS)
  {
    HeartbeatIsCut(ops);
    var refreshed := Run(ops).refreshedAt;
    assert refreshed == MS * (refreshed / MS) + refreshed % MS;
  }

  /** Another holder is granted the lease only when the heartbeat is older than the limit,
      to within the millisecond that the stored string loses. */
  lemma TakeoverNeedsStaleness(ops: seq<Op>, op: Op)
    requires TimelyRun(ops) && TakesOver(Run(ops), op)
    ensures op.askedAt - Run(ops).refreshedAt > op.staleAfter - MS
    ensures Run(ops).refreshedAt % MS == 0 ==> op.askedAt - Run(ops).refreshedAt > op.staleAfter
  {
    TakeoverIff(ops, op);
  }

  /** The lost fraction matters: a lease refreshed at 1.9 ms can be taken at 3.0 ms under a
      limit of 1.5 ms. */
  lemma StalenessIsEarlyByTheCut(a: Holder, b: Holder)
    requires a != b
    ensures var ops := [Acquire(a, 1_900_000, 1_900_000, 0, 1_500_000)];
            var op := Acquire(b, 3_000_000, 3_000_000, 0, 1_500_000);
            TimelyRun(ops) && Timely(Run(ops), op) && TakesOver(Run(ops), op)
            && op.askedAt - Run(ops).refreshedAt <= op.staleAfter
  {
    var first := Acquire(a, 1_900_000, 1_900_000, 0, 1_500_000);
    assert [first][..0] == [];
    assert Run([first]) == Step(EMPTY, first);
  }

  /** Without takeovers the grants are exactly the row's holder. */
  predicate Exclusive(s: State) {
    s.grants == if s.row.Some? then {s.row.value.holder} else {}
  }

  lemma StepKeepsExclusion(s: State, op: Op)
    requires Exclusive(s)
    ensures TakesOver(s, op) ==> |Step(s, op).grants| == 2 && HoldsRow(Step(s, op), s.row.value.holder)
    ensures !TakesOver(s, op) ==> Exclusive(Step(s, op))
  {
    if TakesOver(s, op) {
      assert Step(s, op).grants == {s.row.value.holder, op.who};
    }
  }

  ghost predicate NoTakeover(ops: seq<Op>) {
    forall k :: 0 <= k < |ops| ==> !TakesOver(Run(ops[..k]), ops[k])
  }

  ghost predicate AlwaysOneHolder(ops: seq<Op>) {
    forall k :: 0 <= k <= |ops| ==> |Run(ops[..k]).grants| <= 1
  }

  lemma {:induction false} ExclusionUntilTakeover(ops: seq<Op>)
    requires NoTakeover(ops)
    ensures Exclusive(Run(ops))
  {
    hide Step, TakesOver, Exclusive;
    if ops == [] {
      EmptyIsExclusive();
    } else {
      var front := ops[..|ops| - 1];
      forall k | 0 <= k < |front| ensures !TakesOver(Run(front[..k]), front[k]) {
        assert front[..k] == ops[..k];
      }
      ExclusionUntilTakeover(front);
      assert !TakesOver(Run(ops[..|front|]), ops[|front|]);
      StepKeepsExclusion(Run(front), ops[|front|]);
    }
  }

  lemma EmptyIsExclusive()
    ensures Exclusive(EMPTY)
  {
  }

  lemma ExclusiveIsOne(s: State)
    requires Exclusive(s)
    ensures |s.grants| <= 1
  {
  }

  /** Over every interleaving, at most one holder has an unreleased grant at all times if
      and only if no acquisition took the lease over. */
  lemma ExclusionIffNoTakeover(ops: seq<Op>)
    ensures AlwaysOneHolder(ops) <==> NoTakeover(ops)
  {
    hide TakesOver, Step, Exclusive;
    if NoTakeover(ops) {
      forall k | 0 <= k <= |ops| ensures |Run(ops[..k]).grants| <= 1 {
        forall j | 0 <= j < k ensures !TakesOver(Run(ops[..k][..j]), ops[..k][j]) {
          assert ops[..k][..j] == ops[..j];
        }
        ExclusionUntilTakeover(ops[..k]);
        ExclusiveIsOne(Run(ops[..k]));
      }
    } else {
      var k := FirstTakeover(ops);
      ExclusionUntilTakeover(ops[..k]);
      StepKeepsExclusion(Run(ops[..k]), ops[k]);
      assert ops[..k + 1][..k] == ops[..k];
      assert |Run(ops[..k + 1]).grants| == 2;
    }
  }

  lemma {:induction false} FirstTakeover(ops: seq<Op>) returns (k: nat)
    requires !NoTakeover(ops)
    ensures k < |ops| && TakesOver(Run(ops[..k]), ops[k]) && NoTakeover(ops[..k])
  {
    hide TakesOver, Run;
    k :| 0 <= k < |ops| && TakesOver(Run(ops[..k]), ops[k]);
    if !NoTakeover(ops[..k]) {
      var j := FirstTakeover(ops[..k]);
      assert ops[..k][..j] == ops[..j];
      k := j;
    }
  }

  /** After a takeover the row still names the old holder: the new one cannot keep it alive
      nor release it, and the old one is granted it again at once. */
  lemma AfterTakeover(s: State, op: Op, now: nat, askedAt: nat, duration: nat, staleAfter: nat)
    requires TakesOver(s, op)
    ensures var t := Step(s, op);
            && t.row.value.holder == s.row.value.holder != op.who
            && Step(t, Heartbeat(op.who, now)) == t.(clock := now)
            && Step(t, Release(op.who)).row == t.row
            && Granted(t, Acquire(s.row.value.holder, now, askedAt, duration, staleAfter))
  {
  }
}
