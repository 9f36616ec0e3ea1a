/** What a segmented summary says of its platform, of how Atlas exited and of the capacity plan
    (scripts/process-tree-memory.py). */
module SummaryDetails {
  import opened Common

  /** The sampler's description of its host. */
  datatype Platform = Platform(os: string, architecture: string, hostRelease: string, processor: string,
                               logicalCpuCount: Option<int>, pythonVersion: string, method_: string,
                               limitations: seq<string>)

  datatype Shard = Shard(index: int, count: int)

  /** A capacity execution identity; its other fields are fixed by these. */
  datatype Capacity = Capacity(globalPlan: string, shard: Option<Shard>, selectedRows: int, selectedAttempts: int)

  datatype Details = Details(platform: Platform, exitStatus: string, exitCode: int, capacity: Option<Capacity>)

  const SHARDS := 4
  const GLOBAL_ROWS := 360
  const GLOBAL_ATTEMPTS := 135_000
  const SHARD_ROWS := 90
  const SHARD_ATTEMPTS := 33_750

  predicate PlatformOk(p: Platform) {
    && p.os in {"windows", "linux", "macos"}
    && p.architecture != "" && p.hostRelease != "" && p.processor != "" && p.pythonVersion != "" && p.method_ != ""
    && p.limitations != [] && (forall text :: text in p.limitations ==> text != "")
    && (p.logicalCpuCount.Some? ==> p.logicalCpuCount.value > 0)
  }

  /** The checks on the platform, one after the other. */
  method ValidatePlatform(p: Platform) returns (ok: bool)
    ensures ok <==> PlatformOk(p)
  {
    if p.os != "windows" && p.os != "linux" && p.os != "macos" {
      return false;
    }
    if |p.architecture| == 0 || |p.hostRelease| == 0 || |p.processor| == 0 || |p.pythonVersion| == 0
       || |p.method_| == 0 || |p.limitations| == 0 {
      return false;
    }
    for i := 0 to |p.limitations|
      invariant forall k :: 0 <= k < i ==> p.limitations[k] != ""
    {
      if |p.limitations[i]| == 0 {
        assert p.limitations[i] in p.limitations;
        return false;
      }
    }
    return !(p.logicalCpuCount.Some? && p.logicalCpuCount.value <= 0);
  }

  function ExitStatus(code: int): string {
    if code == 0 then "clean" else "failed"
  }

  predicate IsPlan(text: string) {
    |text| == 64 && forall c :: c in text ==> '0' <= c <= '9' || 'a' <= c <= 'f'
  }

  /** The identity that a plan and a shard demand, unless they are malformed. */
  function CapacityContract(globalPlan: string, shard: Option<Shard>): Option<Capacity> {
    if !IsPlan(globalPlan) then None
    else match shard
      case None => Some(Capacity(globalPlan, None, GLOBAL_ROWS, GLOBAL_ATTEMPTS))
      case Some(s) =>
        if s.count != SHARDS || !(0 <= s.index < SHARDS) then None
        else Some(Capacity(globalPlan, shard, SHARD_ROWS, SHARD_ATTEMPTS))
  }

  predicate CapacityOk(capacity: Option<Capacity>) {
    capacity.Some? ==> CapacityContract(capacity.value.globalPlan, capacity.value.shard) == capacity
  }

  /** The four shards take the global plan's rows and attempts between them. */
  lemma ShardsCoverThePlan(plan: string, index: int)
    requires IsPlan(plan) && 0 <= index < SHARDS
    ensures var shard, whole := CapacityContract(plan, Some(Shard(index, SHARDS))), CapacityContract(plan, None);
            && shard.Some? && whole.Some?
            && SHARDS * shard.value.selectedRows == whole.value.selectedRows
            && SHARDS * shard.value.selectedAttempts == whole.value.selectedAttempts
  {
  }

  /** The checks on these parts when a summary is read back. */
  predicate DetailsOk(d: Details) {
    PlatformOk(d.platform) && d.exitStatus == ExitStatus(d.exitCode) && CapacityOk(d.capacity)
  }

  /** What a summary says of the exit and of its share of the plan, in full. */
  predicate DetailsTell(d: Details) {
    && (d.exitStatus == "clean" <==> d.exitCode == 0) && (d.exitStatus == "failed" <==> d.exitCode != 0)
    && (d.capacity.Some? ==>
          var c := d.capacity.value;
          && |c.globalPlan| == 64
          && (forall i :: 0 <= i < 64 ==> '0' <= c.globalPlan[i] <= '9' || 'a' <= c.globalPlan[i] <= 'f')
          && (c.shard.None? ==> c.selectedRows == 360 && c.selectedAttempts == 135_000)
          && (c.shard.Some? ==>
                && c.shard.value.count == 4 && c.shard.value.index in {0, 1, 2, 3}
                && c.selectedRows == 90 && c.selectedAttempts == 33_750))
  }

  /** The checks on these parts pass exactly then. */
  lemma DetailsIff(d: Details)
    ensures d.exitStatus == ExitStatus(d.exitCode) && CapacityOk(d.capacity) <==> DetailsTell(d)
  {
    if d.capacity.Some? {
      PlanByPlace(d.capacity.value.globalPlan);
    }
    assert "clean" != "failed" by { assert "clean"[0] == 'c' && "failed"[0] == 'f'; }
  }

  lemma PlanByPlace(text: string)
    ensures IsPlan(text) <==>
            |text| == 64 && forall i :: 0 <= i < 64 ==> '0' <= text[i] <= '9' || 'a' <= text[i] <= 'f'
  {
    if IsPlan(text) {
      forall i | 0 <= i < 64
        ensures '0' <= text[i] <= '9' || 'a' <= text[i] <= 'f'
      {
        assert text[i] in text;
      }
    }
    if |text| == 64 && forall i :: 0 <= i < 64 ==> '0' <= text[i] <= '9' || 'a' <= text[i] <= 'f' {
      forall c | c in text
        ensures '0' <= c <= '9' || 'a' <= c <= 'f'
      {
        var i :| 0 <= i < |text| && text[i] == c;
      }
    }
  }
}
