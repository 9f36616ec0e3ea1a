/** The artifact cleanup (scripts/local-artifact-cleanup.py): what the walk over a candidate
    tree files as proposed, protected or unknown, and what applying the proposal removes. */
module Cleanup {
  import opened Common

  type Path = seq<string>

  /** What identifies one version of a file: device, inode, size and modification time. */
  type Identity = (int, int, int, int)

  /** One directory entry as the walk finds it. `Unreadable` is a directory that cannot be
      listed, `Uninspectable` an entry whose metadata cannot be read, `Gone` one that vanished.
      A directory's children stand in name order, the order in which they are visited. */
  datatype Node =
    | File(size: nat, identity: Identity)
    | Directory(children: seq<Entry>)
    | Unreadable
    | Link
    | Special
    | Uninspectable
    | Gone

  datatype Entry = Entry(name: string, node: Node)

  datatype Class = CargoBuildOutput | GeneratedFixture | ProviderTempOutput | BenchmarkScratch

  datatype Note = Known(kind: Class) | InspectionFailed | LinkOrReparsePoint | Unrecognized(kind: Class)
      | UnsupportedType
              | MissingBeforeDeletion | ChangedBeforeDeletion | ChangedAfterDeletion | DeleteFailed

  datatype Item = Item(path: Path, bytes: nat, note: Note)

  datatype Bin = Proposed | Protected | Unknown

  /** An item, the list it goes to, and the identity noted for a proposed one. */
  datatype Filed = Filed(bin: Bin, item: Item, identity: Option<Identity>)

  // ------------------------------------------------------------------------ names

  const PRESERVE_FILE := ".atlas-preserve"

  const PROTECTED_MARKERS: seq<string> := [
    "manifest", "raw", "observation", "accepted-outcome", "accepted_outcome",
    "evidence", "portable-bundle", "portable_bundle", "results.csv", "summary",
    "attestation", "preflight", "result", "report", "execution-plan",
    "label-state", "label_state", "metric", "measurement", "outcome", "sample",
    "provenance"]

  const DISPOSABLE_LEAVES: set<string> := {"temporary.bin", "provider.tmp"}
  const VERDICT_STEMS: set<string> := {"verdict", "verdict-file", "verdict_file", "verdict-outcome", "verdict_outcome"}
  const SCRATCH_EVIDENCE: set<string> := {".json", ".ndjson", ".csv"}

  function LowerChar(c: char): char {
    if 'A' <= c <= 'Z' then c - 'A' + 'a' else c
  }

  function Lower(s: string): (r: string)
    ensures |r| == |s| && forall i :: 0 <= i < |s| ==> r[i] == LowerChar(s[i])
  {
    seq(|s|, i requires 0 <= i < |s| => LowerChar(s[i]))
  }

  predicate Contains(s: string, part: string) {
    exists i :: 0 <= i <= |s| && part <= s[i..]
  }

  predicate ProtectedName(name: string) {
    name == PRESERVE_FILE || exists k :: 0 <= k < |PROTECTED_MARKERS| && Contains(Lower(name), PROTECTED_MARKERS[k])
  }

  predicate RetainedVerdictName(name: string) {
    var lowered := Lower(name);
    |name| >= 5 && lowered[|name| - 5..] == ".json" && lowered[..|name| - 5] in VERDICT_STEMS
  }

  /** The extension from the last dot on, unless the dot comes first or last. */
  function Suffix(name: string): (r: string) {
    match LastDot(name)
    case None => ""
    case Some(i) => if 0 < i < |name| - 1 then name[i..] else ""
  }

  function LastDot(name: string): (r: Option<nat>)
    ensures r.Some? ==> r.value < |name| && name[r.value] == '.' && '.' !in name[r.value + 1..]
    ensures r.None? ==> '.' !in name
  {
    if name == [] then None
    else if name[|name| - 1] == '.' then Some(|name| - 1)
    else
      var r := LastDot(name[..|name| - 1]);
      assert name == name[..|name| - 1] + [name[|name| - 1]];
      assert r.Some? ==> name[r.value + 1..] == name[..|name| - 1][r.value + 1..] + [name[|name| - 1]];
      r
  }

  /** A name has one of these extensions just when it is longer and ends so, in any case. */
  lemma EvidenceSuffixIff(name: string, extension: string)
    requires extension in SCRATCH_EVIDENCE
    ensures Lower(Suffix(name)) == extension
            <==> |name| > |extension| && Lower(name[|name| - |extension|..]) == extension
  {
    assert extension[0] == '.' && '.' !in extension[1..];
    if |name| > |extension| && Lower(name[|name| - |extension|..]) == extension {
      var i := |name| - |extension|;
      var tail := name[i..];
      assert forall k :: 0 <= k < |tail| ==> LowerChar(tail[k]) == extension[k];
      assert forall k :: 0 < k < |tail| ==> extension[k] == extension[1..][k - 1] && tail[k] != '.';
      assert name[i] == tail[0] && name[i + 1..] == tail[1..];
      LastDotIs(name, i);
    }
  }

  lemma {:induction false} LastDotIs(name: string, i: nat)
    requires i < |name| && name[i] == '.' && '.' !in name[i + 1..]
    ensures LastDot(name) == Some(i)
  {
    if i < |name| - 1 {
      assert name[|name| - 1] == name[i + 1..][|name| - 1 - i - 1];
      assert name[..|name| - 1][i + 1..] == name[i + 1..][..|name| - 1 - i - 1];
      LastDotIs(name[..|name| - 1], i);
    }
  }

  // ------------------------------------------------------------------------- tree

  /** No directory lists a name twice. */
  ghost predicate Tidy(node: Node) {
    node.Directory? ==>
      && (forall i, j :: 0 <= i < j < |node.children| ==> node.children[i].name != node.children[j].name)
      && forall i :: 0 <= i < |node.children| ==> Tidy(node.children[i].node)
  }

  function ChildAt(children: seq<Entry>, name: string): (r: Option<nat>)
    ensures r.Some? ==> r.value < |children| && children[r.value].name == name
    ensures r.None? ==> forall i :: 0 <= i < |children| ==> children[i].name != name
  {
    if children == [] then None
    else if children[|children| - 1].name == name then Some(|children| - 1)
    else ChildAt(children[..|children| - 1], name)
  }

  /** What stands at a path below a node, going through readable directories only. */
  function Lookup(node: Node, p: Path): Option<Node>
    decreases p
  {
    if p == [] then Some(node)
    else if !node.Directory? then None
    else match ChildAt(node.children, p[0])
      case None => None
      case Some(i) => Lookup(node.children[i].node, p[1..])
  }

  /** `_contains_preserve_marker`: anything but a missing entry counts. */
  predicate HasMarker(node: Node) {
    node.Directory? && exists i ::
      0 <= i < |node.children| && node.children[i].name == PRESERVE_FILE && !node.children[i].node.Gone?
  }

  /** `_contains_retained_verdict`. */
  predicate ContainsRetainedVerdict(node: Node) {
    match node
    case Unreadable => true
    case Directory(children) => exists i :: 0 <= i < |children| && Retains(children[i].name, children[i].node)
    case _ => false
  }

  predicate Retains(name: string, node: Node)
    decreases node
  {
    match node
    case Gone => true
    case Uninspectable => true
    case Link => true
    case File(_, _) => RetainedVerdictName(name)
    case Special => false
    case Unreadable => true
    case Directory(children) => exists i :: 0 <= i < |children| && Retains(children[i].name, children[i].node)
  }

  /** Something below the node that keeps a fixture or scratch tree: a verdict file, a link, or
      an entry or directory that cannot be read. */
  ghost predicate KeeperAt(node: Node, q: Path) {
    match Lookup(node, q)
    case None => false
    case Some(w) =>
      || w.Unreadable?
      || (q != [] && (w.Link? || w.Gone? || w.Uninspectable? || (w.File? && RetainedVerdictName(q[|q| - 1]))))
  }

  lemma LookupStep(node: Node, i: nat, rest: Path)
    requires Tidy(node) && node.Directory? && i < |node.children|
    ensures Lookup(node, [node.children[i].name] + rest) == Lookup(node.children[i].node, rest)
  {
    var p := [node.children[i].name] + rest;
    assert p[1..] == rest;
    var k := ChildAt(node.children, p[0]).value;
    assert k == i;
  }

  lemma {:induction false} KeeperRetains(name: string, node: Node, q: Path)
    requires Tidy(node)
    requires if q == [] then node.Link? || node.Gone? || node.Uninspectable? || node.Unreadable?
             || (node.File? && RetainedVerdictName(name))
             else KeeperAt(node, q)
    ensures Retains(name, node)
    decreases q
  {
    if q != [] && node.Directory? {
      var i := ChildAt(node.children, q[0]).value;
      var child := node.children[i];
      assert q == [child.name] + q[1..];
      LookupStep(node, i, q[1..]);
      KeeperRetains(child.name, child.node, q[1..]);
      assert Retains(node.children[i].name, node.children[i].node);
    }
  }

  lemma {:induction false} RetainsKeeper(name: string, node: Node) returns (q: Path)
    requires Tidy(node) && Retains(name, node)
    ensures if q == [] then node.Link? || node.Gone? || node.Uninspectable? || node.Unreadable?
            || (node.File? && RetainedVerdictName(name))
            else KeeperAt(node, q)
    decreases node
  {
    q := [];
    if node.Directory? {
      var i :| 0 <= i < |node.children| && Retains(node.children[i].name, node.children[i].node);
      var child := node.children[i];
      var rest := RetainsKeeper(child.name, child.node);
      LookupStep(node, i, rest);
      q := [child.name] + rest;
      assert rest != [] ==> q[|q| - 1] == rest[|rest| - 1];
    }
  }

  /** The recursive test finds a keeper at any depth, and nothing else. */
  lemma RetainedAtAnyDepth(node: Node)
    requires Tidy(node) && (node.Directory? || node.Unreadable?)
    ensures ContainsRetainedVerdict(node) <==> exists q :: KeeperAt(node, q)
  {
    assert Retains("", node) == ContainsRetainedVerdict(node);
    if ContainsRetainedVerdict(node) {
      var q := RetainsKeeper("", node);
      assert KeeperAt(node, q);
    }
    if q :| KeeperAt(node, q) {
      KeeperRetains("", node, q);
    }
  }

  // --------------------------------------------------------------------- the walk

  predicate RetainedRoot(kind: Class) {
    kind == GeneratedFixture || kind == BenchmarkScratch
  }

  /** A directory that shields everything below it. */
  predicate Preserves(node: Node, kind: Class) {
    node.Directory? && (HasMarker(node) || (RetainedRoot(kind) && ContainsRetainedVerdict(node)))
  }

  /** Where one entry goes by itself: nothing for a missing entry or a readable directory. */
  function Classify(path: Path, node: Node, kind: Class, shielded: bool): (r: Option<Filed>)
    requires path != []
    ensures r.Some? ==>
              && r.value.item.path == path
              && (r.value.bin == Proposed ==> node.File? && r.value.identity == Some(node.identity))
  {
    var name := path[|path| - 1];
    match node
    case Gone => None
    case Directory(_) => None
    case Uninspectable => Some(Filed(Unknown, Item(path, 0, InspectionFailed), None))
    case Unreadable => Some(Filed(Unknown, Item(path, 0, InspectionFailed), None))
    case Link => Some(Filed(Unknown, Item(path, 0, LinkOrReparsePoint), None))
    case Special => Some(Filed(Unknown, Item(path, 0, UnsupportedType), None))
    case File(size, identity) =>
      if shielded || ProtectedName(name) || (kind == BenchmarkScratch && Lower(Suffix(name)) in SCRATCH_EVIDENCE) then
        Some(Filed(Protected, Item(path, size, Known(kind)), None))
      else if (kind == GeneratedFixture || kind == ProviderTempOutput) && name !in DISPOSABLE_LEAVES then
        Some(Filed(Unknown, Item(path, size, Unrecognized(kind)), None))
      else
        Some(Filed(Proposed, Item(path, size, Known(kind)), Some(identity)))
  }

  /** Everything the walk files, in order. */
  function Collect(path: Path, node: Node, kind: Class, shielded: bool): seq<Filed>
    requires path != []
    decreases node, 1, 0
  {
    if node.Directory? then CollectFirst(path, node, |node.children|, kind, shielded || Preserves(node, kind))
    else Listed(Classify(path, node, kind, shielded))
  }

  function Listed(filed: Option<Filed>): seq<Filed> {
    if filed.Some? then [filed.value] else []
  }

  /** What the first n children file. */
  function CollectFirst(path: Path, node: Node, n: nat, kind: Class, shielded: bool): seq<Filed>
    requires path != [] && node.Directory? && n <= |node.children|
    decreases node, 0, n
  {
    if n == 0 then []
    else
      CollectFirst(path, node, n - 1, kind, shielded)
      + Collect(path + [node.children[n - 1].name], node.children[n - 1].node, kind, shielded)
  }

  /** The filings of one path. */
  function At(filed: seq<Filed>, path: Path): seq<Filed> {
    if filed == [] then []
    else
      var last := filed[|filed| - 1];
      At(filed[..|filed| - 1], path) + if last.item.path == path then [last] else []
  }

  lemma {:induction false} AtConcat(a: seq<Filed>, b: seq<Filed>, path: Path)
    ensures At(a + b, path) == At(a, path) + At(b, path)
  {
    if b == [] {
      assert a + b == a;
    } else {
      assert (a + b)[..|a + b| - 1] == a + b[..|b| - 1];
      AtConcat(a, b[..|b| - 1], path);
    }
  }

  /** Some directory on the way to p, the start included, shields it. */
  ghost predicate Shielded(node: Node, kind: Class, p: Path) {
    exists k :: 0 <= k < |p| && PreservedAt(node, kind, p[..k])
  }

  ghost predicate PreservedAt(node: Node, kind: Class, q: Path) {
    Lookup(node, q).Some? && Preserves(Lookup(node, q).value, kind)
  }

  lemma ShieldedStep(node: Node, kind: Class, i: nat, rest: Path)
    requires Tidy(node) && node.Directory? && i < |node.children|
    ensures Shielded(node, kind, [node.children[i].name] + rest)
            <==> (Preserves(node, kind) || Shielded(node.children[i].node, kind, rest))
  {
    hide Preserves;
    var child := node.children[i];
    var p := [child.name] + rest;
    assert p[..0] == [];
    assert PreservedAt(node, kind, p[..0]) == Preserves(node, kind);
    forall k | 0 <= k < |rest|
      ensures PreservedAt(node, kind, p[..k + 1]) == PreservedAt(child.node, kind, rest[..k])
    {
      assert p[..k + 1] == [child.name] + rest[..k];
      LookupStep(node, i, rest[..k]);
    }
    if k :| 0 <= k < |p| && PreservedAt(node, kind, p[..k]) {
      if k > 0 {
        assert PreservedAt(child.node, kind, rest[..k - 1]);
      }
    }
    if k :| 0 <= k < |rest| && PreservedAt(child.node, kind, rest[..k]) {
      assert PreservedAt(node, kind, p[..k + 1]);
    }
  }

  /** What must be filed under the path p below a candidate. */
  ghost function Expected(path: Path, node: Node, kind: Class, shielded: bool, p: Path): seq<Filed>
    requires path != []
  {
    match Lookup(node, p)
    case None => []
    case Some(w) => Listed(Classify(path + p, w, kind, shielded || Shielded(node, kind, p)))
  }

  /** Every filing of a walk lies at or below its start. */
  lemma {:induction false} NothingElsewhere(path: Path, node: Node, kind: Class, shielded: bool, q: Path)
    requires path != [] && !(path <= q)
    ensures At(Collect(path, node, kind, shielded), q) == []
    decreases node, 1, 0
  {
    if node.Directory? {
      NothingElsewhereFirst(path, node, |node.children|, kind, shielded || Preserves(node, kind), q);
    }
  }

  lemma NothingFiled(path: Path, node: Node, kind: Class, shielded: bool, q: Path)
    requires path != [] && node.Directory?
    ensures At([], q) == [] && CollectFirst(path, node, 0, kind, shielded) == []
  {
  }

  lemma {:induction false} NothingElsewhereFirst(path: Path, node: Node, n: nat, kind: Class, shielded: bool, q: Path)
    requires path != [] && node.Directory? && n <= |node.children|
    requires forall i :: 0 <= i < n ==> !(path + [node.children[i].name] <= q)
    ensures At(CollectFirst(path, node, n, kind, shielded), q) == []
    decreases node, 0, n
  {
    NothingFiled(path, node, kind, shielded, q);
    if n > 0 {
      hide Classify, Preserves, At, Collect;
      var child := node.children[n - 1];
      var front := CollectFirst(path, node, n - 1, kind, shielded);
      AtConcat(front, Collect(path + [child.name], child.node, kind, shielded), q);
      NothingElsewhereFirst(path, node, n - 1, kind, shielded, q);
      NothingElsewhere(path + [child.name], child.node, kind, shielded, q);
    }
  }

  /** The walk files every path as its own kind and the directories above it demand: once, in one
      list, with its size; and it files nothing for a path where nothing was reached. */
  lemma {:induction false} EveryPathIsFiledOnce(path: Path, node: Node, kind: Class, shielded: bool, p: Path)
    requires path != [] && Tidy(node)
    ensures At(Collect(path, node, kind, shielded), path + p) == Expected(path, node, kind, shielded, p)
    decreases node, 1, 0
  {
    hide Preserves, Shielded;
    if !node.Directory? {
      NoDirectoryAtEnd(path, node, kind, shielded, p);
    } else if p == [] {
      assert path + p == path;
      NothingElsewhereFirst(path, node, |node.children|, kind, shielded || Preserves(node, kind), path);
    } else {
      match ChildAt(node.children, p[0])
      case None =>
        forall k | 0 <= k < |node.children|
          ensures !(path + [node.children[k].name] <= path + p)
        {
          BelowNames(path, node.children[k].name, p);
        }
        NothingElsewhereFirst(path, node, |node.children|, kind, shielded || Preserves(node, kind), path + p);
      case Some(i) =>
        var child := node.children[i];
        assert p == [child.name] + p[1..];
        assert path + p == path + [child.name] + p[1..];
        var below := shielded || Preserves(node, kind);
        OnlyOneChildFiles(path, node, |node.children|, kind, below, i, p);
        EveryPathIsFiledOnce(path + [child.name], child.node, kind, below, p[1..]);
        ExpectedStep(path, node, kind, shielded, i, p[1..]);
    }
  }

  lemma NoDirectoryAtEnd(path: Path, node: Node, kind: Class, shielded: bool, p: Path)
    requires path != [] && !node.Directory?
    ensures At(Collect(path, node, kind, shielded), path + p) == Expected(path, node, kind, shielded, p)
  {
    if p == [] {
      assert path + p == path;
      assert !Shielded(node, kind, p);
    } else {
      assert path + p != path;
    }
  }

  lemma ExpectedStep(path: Path, node: Node, kind: Class, shielded: bool, i: nat, rest: Path)
    requires path != [] && Tidy(node) && node.Directory? && i < |node.children|
    ensures var child := node.children[i];
            Expected(path, node, kind, shielded, [child.name] + rest)
            == Expected(path + [child.name], child.node, kind, shielded || Preserves(node, kind), rest)
  {
    var child := node.children[i];
    var p := [child.name] + rest;
    LookupStep(node, i, rest);
    ShieldedStep(node, kind, i, rest);
    hide Preserves, Shielded, Classify, Lookup, Tidy;
    assert path + p == path + [child.name] + rest;
    assert (shielded || Shielded(node, kind, p))
           == ((shielded || Preserves(node, kind)) || Shielded(child.node, kind, rest));
  }

  lemma BelowNames(path: Path, name: string, p: Path)
    requires p != []
    ensures path + [name] <= path + p <==> name == p[0]
  {
    assert (path + [name])[|path|] == name && (path + p)[|path|] == p[0];
  }

  /** Among the children only the one named by the path files anything there. */
  lemma {:induction false} OnlyOneChildFiles(path: Path, node: Node, n: nat, kind: Class, shielded: bool, i: nat,
                                             p: Path)
    requires path != [] && Tidy(node) && node.Directory? && i < n <= |node.children|
    requires p != [] && p[0] == node.children[i].name
    ensures At(CollectFirst(path, node, n, kind, shielded), path + p)
            == At(Collect(path + [p[0]], node.children[i].node, kind, shielded), path + p)
    decreases n
  {
    hide Classify, Preserves, At, Collect;
    var child := node.children[n - 1];
    var front := CollectFirst(path, node, n - 1, kind, shielded);
    var q := path + p;
    AtConcat(front, Collect(path + [child.name], child.node, kind, shielded), q);
    forall k | 0 <= k < |node.children| && k != i
      ensures !(path + [node.children[k].name] <= q)
    {
      BelowNames(path, node.children[k].name, p);
    }
    if i == n - 1 {
      NothingElsewhereFirst(path, node, n - 1, kind, shielded, q);
    } else {
      NothingElsewhere(path + [child.name], child.node, kind, shielded, q);
      OnlyOneChildFiles(path, node, n - 1, kind, shielded, i, p);
    }
  }

  /** Exactly which files are proposed: nothing on the way shields them, their name is not
      protected, and their class lets that name go. */
  predicate Disposable(name: string, kind: Class) {
    && !ProtectedName(name)
    && (kind == BenchmarkScratch ==> Lower(Suffix(name)) !in SCRATCH_EVIDENCE)
    && ((kind == GeneratedFixture || kind == ProviderTempOutput) ==> name in DISPOSABLE_LEAVES)
  }

  /** The files of a candidate that may go, with the identity each had. */
  ghost predicate Goes(c: Candidate, p: Path, identity: Identity)
    requires c.path != []
  {
    && Lookup(c.node, p).Some? && Lookup(c.node, p).value.File? && Lookup(c.node, p).value.identity == identity
    && !Shielded(c.node, c.kind, p) && Disposable((c.path + p)[|c.path + p| - 1], c.kind)
  }

  // ---------------------------------------------- which files may go, said of the tree

  /** An entry of this name stands in a directory, and is not missing. */
  predicate Lists(node: Node, name: string) {
    node.Directory? && exists i ::
      0 <= i < |node.children| && node.children[i].name == name && node.children[i].node != Gone
  }

  /** A name that is a verdict's, in any case. */
  predicate IsVerdict(name: string) {
    Lower(name) in {"verdict.json", "verdict-file.json", "verdict_file.json", "verdict-outcome.json",
                    "verdict_outcome.json"}
  }

  /** Whatever stands at `q` below a directory makes a fixture or scratch tree stay. */
  ghost predicate Keeps(node: Node, q: Path) {
    && Lookup(node, q).Some?
    && var w := Lookup(node, q).value;
       || w == Unreadable
       || (q != [] && (w == Link || w == Gone || w == Uninspectable || (w.File? && IsVerdict(q[|q| - 1]))))
  }

  /** A name that nothing protects, and that the class of its tree lets go. */
  predicate NameMayGo(name: string, kind: Class) {
    && name != ".atlas-preserve" && !HoldsMarker(name)
    && (kind == BenchmarkScratch ==>
          forall ending :: ending in {".json", ".ndjson", ".csv"} ==>
            |name| <= |ending| || Lower(name[|name| - |ending|..]) != ending)
    && (kind == GeneratedFixture || kind == ProviderTempOutput ==> name == "temporary.bin" || name == "provider.tmp")
  }

  /** The files below a candidate that may go: no directory on the way lists a preserve file, or
      is of a fixture or scratch tree with something below it that makes it stay. */
  ghost predicate MayGo(c: Candidate, p: Path, identity: Identity)
    requires c.path != []
  {
    && Lookup(c.node, p).Some? && Lookup(c.node, p).value.File? && Lookup(c.node, p).value.identity == identity
    && NameMayGo((c.path + p)[|c.path + p| - 1], c.kind)
    && forall k :: 0 <= k < |p| && Lookup(c.node, p[..k]).Some? ==>
         var dir := Lookup(c.node, p[..k]).value;
         && !Lists(dir, ".atlas-preserve")
         && (c.kind == GeneratedFixture || c.kind == BenchmarkScratch ==> forall q :: !Keeps(dir, q))
  }

  lemma EndsInJson(lowered: string, stem: string)
    ensures lowered == stem + ".json" <==>
              |lowered| >= 5 && lowered[|lowered| - 5..] == ".json" && lowered[..|lowered| - 5] == stem
  {
    if |lowered| >= 5 {
      assert lowered == lowered[..|lowered| - 5] + lowered[|lowered| - 5..];
    }
  }

  lemma VerdictIff(name: string)
    ensures RetainedVerdictName(name) <==> IsVerdict(name)
  {
    var lowered := Lower(name);
    hide Lower;
    EndsInJson(lowered, "verdict");
    EndsInJson(lowered, "verdict-file");
    EndsInJson(lowered, "verdict_file");
    EndsInJson(lowered, "verdict-outcome");
    EndsInJson(lowered, "verdict_outcome");
    assert "verdict" + ".json" == "verdict.json" && "verdict-file" + ".json" == "verdict-file.json";
    assert "verdict_file" + ".json" == "verdict_file.json";
    assert "verdict-outcome" + ".json" == "verdict-outcome.json";
    assert "verdict_outcome" + ".json" == "verdict_outcome.json";
  }

  /** A name holds one of the protected markers, in any case. */
  predicate HoldsMarker(name: string) {
    exists k, i :: 0 <= k < |PROTECTED_MARKERS| && 0 <= i <= |name| && PROTECTED_MARKERS[k] <= Lower(name)[i..]
  }

  lemma MarkersIff(name: string)
    ensures ProtectedName(name) <==> (name == ".atlas-preserve" || HoldsMarker(name))
  {
    assert |Lower(name)| == |name|;
    hide Lower;
    if k :| 0 <= k < |PROTECTED_MARKERS| && Contains(Lower(name), PROTECTED_MARKERS[k]) {
      var i :| 0 <= i <= |Lower(name)| && PROTECTED_MARKERS[k] <= Lower(name)[i..];
    }
    if k, i :| 0 <= k < |PROTECTED_MARKERS| && 0 <= i <= |name| && PROTECTED_MARKERS[k] <= Lower(name)[i..] {
      assert Contains(Lower(name), PROTECTED_MARKERS[k]);
    }
  }

  lemma EvidenceIff(name: string)
    ensures Lower(Suffix(name)) !in SCRATCH_EVIDENCE <==>
              forall ending :: ending in {".json", ".ndjson", ".csv"} ==>
                |name| <= |ending| || Lower(name[|name| - |ending|..]) != ending
  {
    hide Suffix, Lower;
    EvidenceSuffixIff(name, ".json");
    EvidenceSuffixIff(name, ".ndjson");
    EvidenceSuffixIff(name, ".csv");
  }

  lemma NameIff(name: string, kind: Class)
    ensures Disposable(name, kind) <==> NameMayGo(name, kind)
  {
    hide Suffix, Lower, ProtectedName, HoldsMarker;
    MarkersIff(name);
    EvidenceIff(name);
  }

  lemma KeepsIff(node: Node, q: Path)
    ensures KeeperAt(node, q) <==> Keeps(node, q)
  {
    hide RetainedVerdictName, IsVerdict;
    if q != [] {
      VerdictIff(q[|q| - 1]);
    }
  }

  lemma PreservesIff(node: Node, kind: Class)
    requires Tidy(node)
    ensures Preserves(node, kind) <==>
              node.Directory? && (|| Lists(node, ".atlas-preserve")
                                  || ((kind == GeneratedFixture || kind == BenchmarkScratch)
                                      && exists q :: Keeps(node, q)))
  {
    hide Keeps, KeeperAt, Tidy, ContainsRetainedVerdict;
    forall q
      ensures KeeperAt(node, q) <==> Keeps(node, q)
    {
      KeepsIff(node, q);
    }
    if node.Directory? {
      RetainedAtAnyDepth(node);
    }
  }

  lemma {:induction false} TidyBelow(node: Node, p: Path)
    requires Tidy(node) && Lookup(node, p).Some?
    ensures Tidy(Lookup(node, p).value)
    decreases p
  {
    if p != [] {
      TidyBelow(node.children[ChildAt(node.children, p[0]).value].node, p[1..]);
    }
  }

  /** Everything strictly above something that is found is a directory. */
  lemma {:induction false} AboveIsDirectory(node: Node, p: Path, k: nat)
    requires Lookup(node, p).Some? && k < |p|
    ensures Lookup(node, p[..k]).Some? && Lookup(node, p[..k]).value.Directory?
    decreases p
  {
    if k > 0 {
      var child := node.children[ChildAt(node.children, p[0]).value].node;
      AboveIsDirectory(child, p[1..], k - 1);
      assert p[..k][0] == p[0] && p[..k][1..] == p[1..][..k - 1];
    } else {
      assert p[..0] == [];
    }
  }

  /** What the walk lets go is what may go. */
  lemma GoesIff(c: Candidate, p: Path, identity: Identity)
    requires c.path != [] && Tidy(c.node)
    ensures Goes(c, p, identity) <==> MayGo(c, p, identity)
  {
    NameIff((c.path + p)[|c.path + p| - 1], c.kind);
    if Lookup(c.node, p).Some? && Lookup(c.node, p).value.File? && Lookup(c.node, p).value.identity == identity {
      hide Disposable, NameMayGo, Lookup, Preserves, Keeps, Lists, Tidy;
      forall k | 0 <= k < |p|
        ensures Lookup(c.node, p[..k]).Some?
        ensures PreservedAt(c.node, c.kind, p[..k]) <==>
                  var dir := Lookup(c.node, p[..k]).value;
                  || Lists(dir, ".atlas-preserve")
                  || ((c.kind == GeneratedFixture || c.kind == BenchmarkScratch) && exists q :: Keeps(dir, q))
      {
        AboveIsDirectory(c.node, p, k);
        TidyBelow(c.node, p[..k]);
        PreservesIff(Lookup(c.node, p[..k]).value, c.kind);
      }
      ShieldedByIndex(c.node, c.kind, p);
    }
  }

  lemma ShieldedByIndex(node: Node, kind: Class, p: Path)
    ensures Shielded(node, kind, p) <==> exists k :: 0 <= k < |p| && PreservedAt(node, kind, p[..k])
  {
  }

  /** What stands at a directory above a candidate. */
  datatype Ancestor = PlainDirectory | Absent | Ambiguous

  /** A candidate with what stands above it, from the workspace down. */
  datatype Candidate = Candidate(path: Path, above: seq<Ancestor>, node: Node, kind: Class)

  lemma ProposedIff(c: Candidate, p: Path)
    requires c.path != [] && Tidy(c.node)
    ensures var at := At(Collect(c.path, c.node, c.kind, false), c.path + p);
            && |at| <= 1
            && ((at != [] && at[0].bin == Proposed) <==> exists identity :: Goes(c, p, identity))
            && (at != [] && at[0].bin == Proposed ==> at[0].identity.Some? && Goes(c, p, at[0].identity.value))
  {
    hide Shielded, ProtectedName;
    EveryPathIsFiledOnce(c.path, c.node, c.kind, false, p);
    if Lookup(c.node, p).Some? && Lookup(c.node, p).value.File? {
      if !Shielded(c.node, c.kind, p) && Disposable((c.path + p)[|c.path + p| - 1], c.kind) {
        assert Goes(c, p, Lookup(c.node, p).value.identity);
      }
    }
  }

  /** Every regular file reached is in exactly one of the three lists, under a preserve marker
      never in the proposed one. */
  lemma EveryFileIsInOneList(c: Candidate, p: Path)
    requires c.path != [] && Tidy(c.node)
    requires Lookup(c.node, p).Some? && Lookup(c.node, p).value.File?
    ensures var at := At(Collect(c.path, c.node, c.kind, false), c.path + p);
            && |at| == 1 && at[0].item.bytes == Lookup(c.node, p).value.size
            && (Shielded(c.node, c.kind, p) ==> at[0].bin == Protected)
  {
    EveryPathIsFiledOnce(c.path, c.node, c.kind, false, p);
    hide Collect, Shielded, ProtectedName, Lookup, Tidy, At;
  }

  // -------------------------------------------------------------------- the audit

  /** The depth of the first directory above a candidate that is a link, no directory or cannot be
      inspected, unless one before it is absent. */
  function FirstAmbiguous(above: seq<Ancestor>): (r: Option<nat>)
    ensures r.Some? ==> 0 < r.value <= |above| && above[r.value - 1] == Ambiguous
                        && forall j :: 0 <= j < r.value - 1 ==> above[j] == PlainDirectory
    ensures r.None? ==> forall k :: 0 <= k < |above| && above[k] == Ambiguous ==> Absent in above[..k]
  {
    if above == [] || above[0] == Absent then None
    else if above[0] == Ambiguous then Some(1)
    else
      assert forall k :: 0 < k < |above| ==> above[k] == above[1..][k - 1] && above[..k][1..] == above[1..][..k - 1];
      match FirstAmbiguous(above[1..])
      case Some(depth) => Some(depth + 1)
      case None => None
  }

  /** The items of one list, in order. */
  function OfBin(filed: seq<Filed>, bin: Bin): seq<Item> {
    if filed == [] then []
    else
      var last := filed[|filed| - 1];
      OfBin(filed[..|filed| - 1], bin) + if last.bin == bin then [last.item] else []
  }

  /** The identities noted for proposed files, the latest per path. */
  function Noted(filed: seq<Filed>): map<Path, Identity> {
    if filed == [] then map[]
    else
      var last := filed[|filed| - 1];
      var noted := Noted(filed[..|filed| - 1]);
      if last.bin == Proposed && last.identity.Some? then noted[last.item.path := last.identity.value] else noted
  }

  predicate AllNoted(filed: seq<Filed>) {
    forall f :: f in filed && f.bin == Proposed ==> f.identity.Some?
  }

  lemma {:induction false} ProposedIsNoted(filed: seq<Filed>, item: Item)
    requires AllNoted(filed) && item in OfBin(filed, Proposed)
    ensures item.path in Noted(filed)
  {
    var last := filed[|filed| - 1];
    if last.bin != Proposed || last.item != item {
      ProposedIsNoted(filed[..|filed| - 1], item);
    }
  }

  /** What may go wrong when one path is deleted: a directory above it is gone, a link or cannot
      be inspected; the file cannot be opened or its handle be used; the opened file's own path
      cannot be had or leaves the workspace; the workspace itself is gone; the deletion is
      refused; or it is done but cannot be verified, or another file has taken the path since. */
  datatype Hazard =
    | AncestryChanged
    | CannotOpen
    | HandleFails
    | PathEscapes
    | WorkspaceGone
    | CannotDelete
    | Unverified
    | Retaken(identity: Identity)

  datatype Outcome = Deleted | Missing | Skipped | Refused(reason: Note)

  function HazardAt(hazards: map<Path, Hazard>, path: Path): Option<Hazard> {
    if path in hazards then Some(hazards[path]) else None
  }

  /** The files left when the files at the doomed paths are met: gone, replaced or spared. */
  ghost function Left(files: map<Path, Identity>, doomed: set<Path>, hazards: map<Path, Hazard>): map<Path, Identity> {
    map path | path in files && !(path in doomed && Vanishes(HazardAt(hazards, path)))
      :: if path in doomed && path in hazards && hazards[path].Retaken? then hazards[path].identity else files[path]
  }

  predicate Vanishes(hazard: Option<Hazard>) {
    hazard == None || hazard == Some(Unverified)
  }

  /** The files as they are when the proposal is applied. */
  class Workspace {
    var files: map<Path, Identity>
    const hazards: map<Path, Hazard>
    const canBindIdentity: bool

    constructor (files: map<Path, Identity>, hazards: map<Path, Hazard>, canBindIdentity: bool)
      ensures this.files == files && this.hazards == hazards && this.canBindIdentity == canBindIdentity
    {
      this.files := files;
      this.hazards := hazards;
      this.canBindIdentity := canBindIdentity;
    }

    /** `_safe_unlink_identity_bound` with the reason reported for each of its errors. The very
        file expected goes, or no file does; it is called deleted only if nothing went wrong. */
    method Unlink(path: Path, expected: Identity) returns (r: Outcome)
      modifies this`files
      ensures var hazard := HazardAt(hazards, path);
              var found := canBindIdentity && path in old(files) && old(files)[path] == expected;
              && files == Left(old(files), if found then {path} else {}, hazards)
              && (r == Deleted <==> found && hazard == None)
              && (r == Missing <==> canBindIdentity && path !in old(files) && hazard != Some(AncestryChanged))
              && (r == Skipped <==> found && hazard == Some(WorkspaceGone))
              && (r == Refused(ChangedAfterDeletion) <==> found && hazard.Some? && hazard.value.Retaken?)
              && (r == Refused(DeleteFailed) <==> hazard != Some(AncestryChanged)
                                                  && (!canBindIdentity
                                                      || (path in old(files) && hazard == Some(HandleFails))))
              && (r.Refused? ==> r.reason in {ChangedAfterDeletion, DeleteFailed, ChangedBeforeDeletion})
    {
      var hazard := HazardAt(hazards, path);
      if hazard == Some(AncestryChanged) {
        return Refused(ChangedBeforeDeletion);
      }
      if !canBindIdentity {
        return Refused(DeleteFailed);
      }
      if path !in files {
        return Missing;
      }
      if hazard == Some(CannotOpen) {
        return Refused(ChangedBeforeDeletion);
      }
      if hazard == Some(HandleFails) {
        return Refused(DeleteFailed);
      }
      if files[path] != expected || hazard == Some(PathEscapes) {
        return Refused(ChangedBeforeDeletion);
      }
      if hazard == Some(WorkspaceGone) {
        return Skipped;
      }
      if hazard == Some(CannotDelete) {
        return Refused(ChangedBeforeDeletion);
      }
      if hazard.Some? && hazard.value.Retaken? {
        files := files[path := hazard.value.identity];
        return Refused(ChangedAfterDeletion);
      }
      files := files - {path};
      return if hazard == None then Deleted else Refused(ChangedBeforeDeletion);
    }
  }

  /** The proposed paths that are still there with the identity noted for them. */
  ghost function Doomed(proposed: seq<Item>, identities: map<Path, Identity>, files: map<Path, Identity>): set<Path> {
    set item | item in proposed && item.path in identities && item.path in files
               && files[item.path] == identities[item.path] :: item.path
  }

  /** The doomed paths at which nothing goes wrong. */
  ghost function Smooth(doomed: set<Path>, hazards: map<Path, Hazard>): set<Path> {
    set path | path in doomed && path !in hazards
  }

  /** The items met when the workspace is gone: neither deleted nor reported. */
  ghost function Unreported(proposed: seq<Item>, doomed: set<Path>, hazards: map<Path, Hazard>): seq<Item> {
    if proposed == [] then []
    else
      var last := proposed[|proposed| - 1];
      Unreported(proposed[..|proposed| - 1], doomed, hazards)
      + if last.path in doomed && HazardAt(hazards, last.path) == Some(WorkspaceGone) then [last] else []
  }

  class Audit {
    var proposed: seq<Item>
    var protected: seq<Item>
    var unknown: seq<Item>
    var identities: map<Path, Identity>
    ghost var filed: seq<Filed>

    ghost predicate Valid()
      reads this
    {
      && proposed == OfBin(filed, Proposed) && protected == OfBin(filed, Protected) && unknown == OfBin(filed, Unknown)
      && identities == Noted(filed) && AllNoted(filed)
    }

    constructor ()
      ensures Valid() && filed == []
    {
      proposed, protected, unknown, identities, filed := [], [], [], map[], [];
    }

    method Propose(path: Path, size: nat, kind: Class, identity: Identity)
      requires Valid()
      modifies this
      ensures Valid() && filed == old(filed) + [Filed(Proposed, Item(path, size, Known(kind)), Some(identity))]
    {
      proposed := proposed + [Item(path, size, Known(kind))];
      identities := identities[path := identity];
      filed := filed + [Filed(Proposed, Item(path, size, Known(kind)), Some(identity))];
    }

    method Protect(path: Path, size: nat, kind: Class)
      requires Valid()
      modifies this
      ensures Valid() && filed == old(filed) + [Filed(Protected, Item(path, size, Known(kind)), None)]
    {
      protected := protected + [Item(path, size, Known(kind))];
      filed := filed + [Filed(Protected, Item(path, size, Known(kind)), None)];
    }

    method Leave(path: Path, size: nat, note: Note)
      requires Valid()
      modifies this
      ensures Valid() && filed == old(filed) + [Filed(Unknown, Item(path, size, note), None)]
    {
      unknown := unknown + [Item(path, size, note)];
      filed := filed + [Filed(Unknown, Item(path, size, note), None)];
    }

    /** `_collect_candidate`. */
    method CollectCandidate(path: Path, node: Node, kind: Class, shielded: bool)
      requires Valid() && path != []
      modifies this
      ensures Valid() && filed == old(filed) + Collect(path, node, kind, shielded)
      decreases node
    {
      hide Valid, Preserves, ProtectedName;
      var name := path[|path| - 1];
      match node
      case Gone =>
      case Uninspectable => Leave(path, 0, InspectionFailed);
      case Link => Leave(path, 0, LinkOrReparsePoint);
      case Special => Leave(path, 0, UnsupportedType);
      case Unreadable => Leave(path, 0, InspectionFailed);
      case File(size, identity) =>
        if shielded || ProtectedName(name) || (kind == BenchmarkScratch && Lower(Suffix(name)) in SCRATCH_EVIDENCE) {
          Protect(path, size, kind);
        } else if kind == GeneratedFixture || kind == ProviderTempOutput {
          if name in DISPOSABLE_LEAVES {
            Propose(path, size, kind, identity);
          } else {
            Leave(path, size, Unrecognized(kind));
          }
        } else {
          Propose(path, size, kind, identity);
        }
      case Directory(children) =>
        var preserved := shielded || Preserves(node, kind);
        for i := 0 to |children|
          invariant Valid()
          invariant filed == old(filed) + CollectFirst(path, node, i, kind, preserved)
        {
          CollectCandidate(path + [children[i].name], children[i].node, kind, preserved);
        }
    }

    /** `_ambiguous_ancestor`. */
    method AmbiguousAncestor(path: Path, above: seq<Ancestor>) returns (r: Option<Path>)
      requires |path| == |above| + 1
      ensures r == match FirstAmbiguous(above) case Some(depth) => Some(path[..depth]) case None => None
    {
      for i := 0 to |above|
        invariant forall j :: 0 <= j < i ==> above[j] == PlainDirectory
      {
        if above[i] == Absent {
          return None;
        }
        if above[i] == Ambiguous {
          return Some(path[..i + 1]);
        }
      }
      return None;
    }

    /** The loop over the candidates. */
    method CollectAll(candidates: seq<Candidate>)
      requires Valid() && filed == []
      requires forall c :: c in candidates ==> |c.path| == |c.above| + 1
      modifies this
      ensures Valid() && filed == FiledFor(candidates)
    {
      hide Valid, Collect, FirstAmbiguous;
      for i := 0 to |candidates|
        invariant Valid() && filed == FiledFor(candidates[..i])
      {
        var c := candidates[i];
        assert candidates[..i + 1][..i] == candidates[..i];
        var ambiguous := AmbiguousAncestor(c.path, c.above);
        if ambiguous.Some? {
          Leave(ambiguous.value, 0, LinkOrReparsePoint);
        } else {
          CollectCandidate(c.path, c.node, c.kind, false);
        }
      }
      assert candidates[..|candidates|] == candidates;
    }

    /** The apply loop: the very files proposed go and no other, and each item is called deleted,
        reported with a reason, or passed over because the workspace itself is gone. */
    method Apply(workspace: Workspace) returns (deleted: seq<Item>, notes: seq<Item>)
      requires Valid()
      modifies workspace`files
      ensures var doomed := if workspace.canBindIdentity then Doomed(proposed, identities, old(workspace.files))
              else {};
              && workspace.files == Left(old(workspace.files), doomed, workspace.hazards)
              && Paths(deleted) == Smooth(doomed, workspace.hazards) && OncePerPath(deleted)
              && |deleted| + |notes| + |Unreported(proposed, doomed, workspace.hazards)| == |proposed|
    {
      hide Paths, OncePerPath, Doomed, Left, Smooth;
      deleted, notes := [], [];
      ghost var hazards := workspace.hazards;
      NoPaths(identities, workspace.files, hazards);
      ghost var files := workspace.files;
      ghost var all := if workspace.canBindIdentity then Doomed(proposed, identities, files) else {};
      ghost var doomed: set<Path> := {};
      for i := 0 to |proposed|
        invariant Valid()
        invariant doomed == if workspace.canBindIdentity then Doomed(proposed[..i], identities, files) else {}
        invariant workspace.files == Left(files, doomed, hazards)
        invariant Paths(deleted) == Smooth(doomed, hazards) && OncePerPath(deleted)
        invariant |deleted| + |notes| + |Unreported(proposed[..i], all, hazards)| == i
      {
        var item := proposed[i];
        ProposedIsNoted(filed, item);
        DoomedGrows(proposed[..i], item, identities, files);
        PathsGrow(deleted, item);
        assert proposed[..i + 1] == proposed[..i] + [item] && proposed[..i + 1][..i] == proposed[..i];
        var r := workspace.Unlink(item.path, identities[item.path]);
        hide Valid;
        Met(proposed, i, identities, files, hazards);
        if workspace.canBindIdentity {
          doomed := Doomed(proposed[..i + 1], identities, files);
        }
        match r
        case Deleted => deleted := deleted + [item];
        case Missing => notes := notes + [Item(item.path, 0, MissingBeforeDeletion)];
        case Skipped =>
        case Refused(reason) => notes := notes + [Item(item.path, 0, reason)];
      }
      assert proposed[..|proposed|] == proposed;
    }
  }

  function Paths(items: seq<Item>): set<Path> {
    set item | item in items :: item.path
  }

  predicate OncePerPath(items: seq<Item>) {
    forall i, j :: 0 <= i < j < |items| ==> items[i].path != items[j].path
  }

  lemma NoPaths(identities: map<Path, Identity>, files: map<Path, Identity>, hazards: map<Path, Hazard>)
    ensures Paths([]) == {} && OncePerPath([]) && Doomed([], identities, files) == {}
    ensures Smooth({}, hazards) == {} && Left(files, {}, hazards) == files
  {
  }

  /** One path met after the doomed ones: the files left then. */
  lemma LeftStep(files: map<Path, Identity>, doomed: set<Path>, p: Path, expected: Identity, hazards: map<Path, Hazard>)
    requires p in doomed ==> p in files && files[p] == expected
    ensures var now := Left(files, doomed, hazards);
            var after := doomed + if p in files && files[p] == expected then {p} else {};
            var found := p in now && now[p] == expected;
            && Left(files, after, hazards) == Left(now, if found then {p} else {}, hazards)
            && (HazardAt(hazards, p) == Some(WorkspaceGone) ==> (found <==> p in files && files[p] == expected))
            && (found && p !in hazards ==> p !in doomed)
  {
  }

  lemma SmoothStep(doomed: set<Path>, p: Path, hazards: map<Path, Hazard>)
    ensures Smooth(doomed + {p}, hazards) == Smooth(doomed, hazards) + if p in hazards then {} else {p}
    ensures p !in doomed ==> p !in Smooth(doomed, hazards)
  {
  }

  /** Among the proposed paths the doomed ones are those with their identity unchanged. */
  lemma DoomedIff(proposed: seq<Item>, item: Item, identities: map<Path, Identity>, files: map<Path, Identity>)
    requires item in proposed && item.path in identities
    ensures item.path in Doomed(proposed, identities, files)
            <==> item.path in files && files[item.path] == identities[item.path]
  {
  }

  lemma DoomedMatches(proposed: seq<Item>, p: Path, identities: map<Path, Identity>, files: map<Path, Identity>)
    requires p in Doomed(proposed, identities, files)
    ensures p in files && p in identities && files[p] == identities[p]
  {
  }

  /** One proposed item met after others: the paths doomed so far, and the files left by now. */
  lemma Met(proposed: seq<Item>, i: nat, identities: map<Path, Identity>, files: map<Path, Identity>,
            hazards: map<Path, Hazard>)
    requires i < |proposed| && proposed[i].path in identities
    ensures var p, before := proposed[i].path, Doomed(proposed[..i], identities, files);
            var after := Doomed(proposed[..i + 1], identities, files);
            var now := Left(files, before, hazards);
            var found := p in now && now[p] == identities[p];
            && Left(files, after, hazards) == Left(now, if found then {p} else {}, hazards)
            && Smooth(after, hazards) == Smooth(before, hazards) + (if found && p !in hazards then {p} else {})
            && (found && p !in hazards ==> p !in Smooth(before, hazards))
            && (HazardAt(hazards, p) == Some(WorkspaceGone)
                ==> (p in Doomed(proposed, identities, files) <==> found))
  {
    hide Left, Smooth, Doomed;
    var item, p := proposed[i], proposed[i].path;
    var before := Doomed(proposed[..i], identities, files);
    assert proposed[..i + 1] == proposed[..i] + [item];
    DoomedGrows(proposed[..i], item, identities, files);
    DoomedIff(proposed, item, identities, files);
    assert before + {} == before;
    if p in before {
      DoomedMatches(proposed[..i], p, identities, files);
      assert before + {p} == before;
    }
    LeftStep(files, before, p, identities[p], hazards);
    SmoothStep(before, p, hazards);
    MetNow(files, before, p, identities[p], hazards);
  }

  /** A path without a hazard is found unchanged now just when it was and is not yet dealt with. */
  lemma MetNow(files: map<Path, Identity>, doomed: set<Path>, p: Path, expected: Identity, hazards: map<Path, Hazard>)
    requires p in doomed ==> p in files && files[p] == expected
    ensures var now := Left(files, doomed, hazards);
            p !in hazards ==> ((p in now && now[p] == expected) <==> p in files && files[p] == expected && p !in doomed)
    ensures p in doomed && p !in hazards ==> p in Smooth(doomed, hazards)
  {
  }

  lemma PathsGrow(items: seq<Item>, item: Item)
    ensures Paths(items + [item]) == Paths(items) + {item.path}
    ensures OncePerPath(items) && item.path !in Paths(items) ==> OncePerPath(items + [item])
  {
    assert item in items + [item];
    assert forall k :: 0 <= k < |items| ==> items[k].path in Paths(items);
  }

  lemma DoomedGrows(proposed: seq<Item>, item: Item, identities: map<Path, Identity>, files: map<Path, Identity>)
    ensures Doomed(proposed + [item], identities, files)
            == Doomed(proposed, identities, files)
               + if item.path in identities && item.path in files && files[item.path] == identities[item.path]
                 then {item.path} else {}
  {
    assert item in proposed + [item];
  }

  /** Everything filed for a list of candidates. */
  function FiledFor(candidates: seq<Candidate>): seq<Filed>
    requires forall c :: c in candidates ==> |c.path| == |c.above| + 1
  {
    if candidates == [] then []
    else FiledFor(candidates[..|candidates| - 1]) + FiledBy(candidates[|candidates| - 1])
  }

  /** A candidate is walked, unless a directory above it is ambiguous: then that one is filed. */
  function FiledBy(c: Candidate): seq<Filed>
    requires |c.path| == |c.above| + 1
  {
    match FirstAmbiguous(c.above)
    case Some(depth) => [Filed(Unknown, Item(c.path[..depth], 0, LinkOrReparsePoint), None)]
    case None => Collect(c.path, c.node, c.kind, false)
  }

  // ------------------------------------------------------------- what goes, exactly

  /** No candidate's path lies at or below that of another. */
  ghost predicate Apart(candidates: seq<Candidate>) {
    forall c, d :: c in candidates && d in candidates && c.path <= d.path ==> c == d
  }

  ghost predicate Sound(candidates: seq<Candidate>) {
    forall c :: c in candidates ==> |c.path| == |c.above| + 1 && Tidy(c.node)
  }

  lemma {:induction false} FiledBySome(candidates: seq<Candidate>, f: Filed) returns (c: Candidate)
    requires (forall c :: c in candidates ==> |c.path| == |c.above| + 1) && f in FiledFor(candidates)
    ensures c in candidates && f in FiledBy(c)
  {
    hide FiledBy;
    c := candidates[|candidates| - 1];
    if f !in FiledBy(c) {
      c := FiledBySome(candidates[..|candidates| - 1], f);
    }
  }

  lemma {:induction false} FiledForAll(candidates: seq<Candidate>, c: Candidate, f: Filed)
    requires (forall c :: c in candidates ==> |c.path| == |c.above| + 1) && c in candidates && f in FiledBy(c)
    ensures f in FiledFor(candidates)
  {
    hide FiledBy;
    if c != candidates[|candidates| - 1] {
      FiledForAll(candidates[..|candidates| - 1], c, f);
    }
  }

  lemma {:induction false} InAt(filed: seq<Filed>, f: Filed, q: Path)
    ensures f in At(filed, q) <==> f in filed && f.item.path == q
  {
    if filed != [] {
      InAt(filed[..|filed| - 1], f, q);
    }
  }

  lemma {:induction false} InBin(filed: seq<Filed>, item: Item, bin: Bin) returns (f: Filed)
    requires item in OfBin(filed, bin)
    ensures f in filed && f.bin == bin && f.item == item
  {
    f := filed[|filed| - 1];
    if f.bin != bin || f.item != item {
      f := InBin(filed[..|filed| - 1], item, bin);
    }
  }

  lemma {:induction false} BinHolds(filed: seq<Filed>, f: Filed)
    requires f in filed
    ensures f.item in OfBin(filed, f.bin)
  {
    if f != filed[|filed| - 1] {
      BinHolds(filed[..|filed| - 1], f);
    }
  }

  lemma {:induction false} NotedIsFiled(filed: seq<Filed>, q: Path) returns (f: Filed)
    requires q in Noted(filed)
    ensures f in filed && f.bin == Proposed && f.item.path == q && f.identity == Some(Noted(filed)[q])
  {
    f := filed[|filed| - 1];
    if f.bin != Proposed || f.identity.None? || f.item.path != q {
      f := NotedIsFiled(filed[..|filed| - 1], q);
    }
  }

  /** A proposed filing comes from a file of some candidate that may go. */
  lemma ProposedGoes(candidates: seq<Candidate>, f: Filed) returns (c: Candidate, p: Path)
    requires Sound(candidates) && f in FiledFor(candidates) && f.bin == Proposed
    ensures c in candidates && FirstAmbiguous(c.above).None?
    ensures f.item.path == c.path + p && f.identity.Some? && Goes(c, p, f.identity.value)
  {
    hide Goes, Collect, FiledFor;
    c := FiledBySome(candidates, f);
    var q := f.item.path;
    var filed := Collect(c.path, c.node, c.kind, false);
    InAt(filed, f, q);
    if !(c.path <= q) {
      NothingElsewhere(c.path, c.node, c.kind, false, q);
    }
    p := q[|c.path|..];
    ProposedIff(c, p);
  }

  lemma ProposalsAreNoted(candidates: seq<Candidate>)
    requires Sound(candidates)
    ensures AllNoted(FiledFor(candidates))
  {
    hide FiledFor, Goes;
    forall f | f in FiledFor(candidates) && f.bin == Proposed
      ensures f.identity.Some?
    {
      var c, p := ProposedGoes(candidates, f);
    }
  }

  lemma ShieldedFromTheStart(node: Node, kind: Class, p: Path)
    ensures Preserves(node, kind) && p != [] ==> Shielded(node, kind, p)
  {
    hide Preserves;
    if Preserves(node, kind) && p != [] {
      assert p[..0] == [];
      assert PreservedAt(node, kind, p[..0]);
    }
  }

  /** A fixture or scratch tree with a verdict file, a link or an unreadable entry at any depth
      proposes nothing at all. */
  lemma KeeperStopsEverything(c: Candidate, q: Path, f: Filed)
    requires |c.path| == |c.above| + 1 && Tidy(c.node) && RetainedRoot(c.kind) && c.node.Directory?
             && KeeperAt(c.node, q)
    requires f in FiledBy(c)
    ensures f.bin != Proposed
  {
    hide FiledBy, KeeperAt, Tidy, ContainsRetainedVerdict;
    RetainedAtAnyDepth(c.node);
    if f.bin == Proposed {
      FiledForAll([c], c, f);
      var d, p := ProposedGoes([c], f);
      ShieldedFromTheStart(c.node, c.kind, p);
    }
  }

  lemma PrefixesNest(a: Path, b: Path, q: Path)
    requires a <= q && b <= q
    ensures a <= b || b <= a
  {
    if |a| <= |b| {
      assert a == b[..|a|];
    } else {
      assert b == a[..|b|];
    }
  }

  /** And every such file is proposed, with its identity noted. */
  lemma GoesIsNoted(candidates: seq<Candidate>, c: Candidate, p: Path, identity: Identity)
    requires Sound(candidates) && Apart(candidates) && c in candidates && FirstAmbiguous(c.above).None?
    requires Goes(c, p, identity)
    ensures var filed := FiledFor(candidates);
            && (exists item :: item in OfBin(filed, Proposed) && item.path == c.path + p)
            && c.path + p in Noted(filed) && Noted(filed)[c.path + p] == identity
  {
    hide Collect, FiledFor, FirstAmbiguous, Shielded, Disposable, Lookup, Tidy;
    ProposedIff(c, p);
    var filed, q := FiledFor(candidates), c.path + p;
    var f := At(Collect(c.path, c.node, c.kind, false), q)[0];
    InAt(Collect(c.path, c.node, c.kind, false), f, q);
    FiledForAll(candidates, c, f);
    BinHolds(filed, f);
    ProposalsAreNoted(candidates);
    ProposedIsNoted(filed, f.item);
    var g := NotedIsFiled(filed, q);
    var d, r := ProposedGoes(candidates, g);
    PrefixesNest(c.path, d.path, q);
    assert c == d && p == q[|c.path|..] == r;
  }

  /** Applying a proposal removes exactly the files that may go and that still are the very files
      that were seen: none below a preserve file or beside what makes a tree stay, none protected
      by its name, none changed since. */
  lemma ApplyRemovesExactly(candidates: seq<Candidate>, files: map<Path, Identity>, q: Path)
    requires Sound(candidates) && Apart(candidates)
    ensures var filed := FiledFor(candidates);
            q in Doomed(OfBin(filed, Proposed), Noted(filed), files)
            <==> (q in files && exists c, p :: c in candidates && FirstAmbiguous(c.above).None? && q == c.path + p
                                              && MayGo(c, p, files[q]))
  {
    hide Collect, FiledFor, FirstAmbiguous, Goes, MayGo;
    var filed := FiledFor(candidates);
    if q in Doomed(OfBin(filed, Proposed), Noted(filed), files) {
      var f := NotedIsFiled(filed, q);
      var c, p := ProposedGoes(candidates, f);
      GoesIff(c, p, files[q]);
    }
    if q in files {
      if c, p :| c in candidates && FirstAmbiguous(c.above).None? && q == c.path + p && MayGo(c, p, files[q]) {
        GoesIff(c, p, files[q]);
        GoesIsNoted(candidates, c, p, files[q]);
      }
    }
  }
}
