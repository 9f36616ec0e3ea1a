/** The walk that lists a process's descendants (scripts/process-tree-memory.py). */
module Descendants {
  import opened Common
  import opened Sorting

  datatype ProcessNode = ProcessNode(pid: int, parentPid: int)

  datatype WalkError = BadBound | BadPid | BoundExceeded

  // --------------------------------------------------------- the reference

  /** `child` has `parent` as its parent in some row; rows for PID 0 do not count. */
  ghost predicate Edge(nodes: seq<ProcessNode>, parent: int, child: int) {
    child != 0 && ProcessNode(child, parent) in nodes
  }

  /** A chain of parent links, from `path[0]` to its last process. */
  ghost predicate IsPath(nodes: seq<ProcessNode>, path: seq<int>) {
    path != [] && forall i :: 0 < i < |path| ==> Edge(nodes, path[i - 1], path[i])
  }

  ghost predicate Reachable(nodes: seq<ProcessNode>, root: int, pid: int) {
    exists path :: IsPath(nodes, path) && path[0] == root && path[|path| - 1] == pid
  }

  ghost predicate IsDescendant(nodes: seq<ProcessNode>, root: int, pid: int) {
    pid != root && Reachable(nodes, root, pid)
  }

  function Pids(nodes: seq<ProcessNode>): set<int> {
    set node | node in nodes :: node.pid
  }

  lemma ReachableRoot(nodes: seq<ProcessNode>, root: int)
    ensures Reachable(nodes, root, root)
  {
    var path := [root];
    assert IsPath(nodes, path) && path[0] == root && path[|path| - 1] == root;
  }

  lemma ReachableStep(nodes: seq<ProcessNode>, root: int, parent: int, child: int)
    requires Reachable(nodes, root, parent) && Edge(nodes, parent, child)
    ensures Reachable(nodes, root, child)
  {
    var path :| IsPath(nodes, path) && path[0] == root && path[|path| - 1] == parent;
    var longer := path + [child];
    assert IsPath(nodes, longer) && longer[0] == root && longer[|longer| - 1] == child;
  }

  /** A set that holds the root and is closed under children holds whatever is reachable. */
  lemma ClosedHoldsReachable(nodes: seq<ProcessNode>, root: int, closed: set<int>, pid: int)
    requires root in closed && Reachable(nodes, root, pid)
    requires forall p, c :: p in closed && Edge(nodes, p, c) ==> c in closed
    ensures pid in closed
  {
    var path :| IsPath(nodes, path) && path[0] == root && path[|path| - 1] == pid;
    var i := 0;
    while i + 1 < |path|
      invariant i < |path| && path[i] in closed
    {
      assert Edge(nodes, path[i], path[i + 1]);
      i := i + 1;
    }
  }

  // ------------------------------------------------------------ the program

  type Children = map<int, seq<int>>

  function ChildrenOf(children: Children, pid: int): seq<int> {
    if pid in children then children[pid] else []
  }

  predicate RowsOk(nodes: seq<ProcessNode>) {
    forall node :: node in nodes && node.pid != 0 ==> node.pid > 0 && node.parentPid >= 0
  }

  /** `children.setdefault(...).append(...)`, row by row. */
  method BuildChildren(nodes: seq<ProcessNode>) returns (r: Option<Children>)
    ensures r.Some? <==> RowsOk(nodes)
    ensures r.Some? ==> forall p, c :: c in ChildrenOf(r.value, p) <==> Edge(nodes, p, c)
  {
    var children: Children := map[];
    for i := 0 to |nodes|
      invariant RowsOk(nodes[..i])
      invariant forall p, c :: c in ChildrenOf(children, p) <==> Edge(nodes[..i], p, c)
    {
      var node := nodes[i];
      assert nodes[..i + 1] == nodes[..i] + [node];
      if node.pid != 0 {
        if node.pid < 0 || node.parentPid < 0 {
          assert node in nodes;
          return None;
        }
        ghost var before := children;
        children := children[node.parentPid := ChildrenOf(children, node.parentPid) + [node.pid]];
        forall p, c ensures c in ChildrenOf(children, p) <==> Edge(nodes[..i + 1], p, c) {
          assert c in ChildrenOf(before, p) <==> Edge(nodes[..i], p, c);
        }
      }
    }
    assert nodes[..|nodes|] == nodes;
    return Some(children);
  }

  /** All processes below the root, whatever cycles and duplicate rows there are. */
  ghost function DescendantSet(nodes: seq<ProcessNode>, root: int): set<int> {
    set p | p in Pids(nodes) && IsDescendant(nodes, root, p)
  }

  lemma DescendantsAreListed(nodes: seq<ProcessNode>, root: int, pid: int)
    requires IsDescendant(nodes, root, pid)
    ensures pid in DescendantSet(nodes, root)
  {
    var path :| IsPath(nodes, path) && path[0] == root && path[|path| - 1] == pid;
    assert Edge(nodes, path[|path| - 2], path[|path| - 1]);
    assert ProcessNode(pid, path[|path| - 2]) in nodes;
  }

  predicate Distinct(s: seq<int>) {
    forall i, j :: 0 <= i < j < |s| ==> s[i] != s[j]
  }

  function Elements(s: seq<int>): set<int> {
    set x | x in s
  }

  lemma {:induction false} DistinctCount(s: seq<int>)
    requires Distinct(s)
    ensures |Elements(s)| == |s|
  {
    if s != [] {
      var t := s[..|s| - 1];
      DistinctCount(t);
      assert Elements(s) == Elements(t) + {s[|s| - 1]};
    }
  }

  lemma SortedDistinct(s: seq<int>)
    requires Distinct(s)
    ensures StrictlySorted(Sort(s)) && Elements(Sort(s)) == Elements(s)
  {
    hide Distinct, Sorted, StrictlySorted;
    SortedElements(s);
    SortSorts(s);
    forall x ensures multiset(Sort(s))[x] <= 1 {
      OnceInDistinct(s, x);
    }
    OnceMeansStrict(Sort(s));
  }

  lemma SortedElements(s: seq<int>)
    ensures Elements(Sort(s)) == Elements(s)
  {
    SameElements(s);
    forall x ensures x in Elements(Sort(s)) <==> x in Elements(s) {
      assert x in Sort(s) <==> x in s;
    }
  }

  lemma OnceMeansStrict(r: seq<int>)
    requires Sorted(r) && forall x :: multiset(r)[x] <= 1
    ensures StrictlySorted(r)
  {
    forall i, j | 0 <= i < j < |r| ensures r[i] != r[j] {
      if r[i] == r[j] {
        TwiceInSequence(r, i, j);
      }
    }
  }

  lemma TwiceInSequence(r: seq<int>, i: nat, j: nat)
    requires i < j < |r| && r[i] == r[j]
    ensures multiset(r)[r[i]] >= 2
  {
    assert r == r[..j] + [r[j]] + r[j + 1..];
    assert r[..j][i] in multiset(r[..j]);
  }

  lemma {:induction false} OnceInDistinct(s: seq<int>, x: int)
    requires Distinct(s)
    ensures multiset(s)[x] <= 1
  {
    if s != [] {
      var t := s[..|s| - 1];
      OnceInDistinct(t, x);
      assert s == t + [s[|s| - 1]];
      if s[|s| - 1] == x {
        assert x !in t;
        assert x !in multiset(t);
      }
    }
  }

  method DescendantPids(nodes: seq<ProcessNode>, root: int, maximum: int) returns (r: Result<seq<int>, WalkError>)
    ensures r == Err(BadBound) <==> root <= 0 || maximum <= 0
    ensures r == Err(BadPid) <==> root > 0 && maximum > 0 && !RowsOk(nodes)
    // The bound error means just that there are too many descendants.
    ensures r == Err(BoundExceeded) <==>
              root > 0 && maximum > 0 && RowsOk(nodes) && |DescendantSet(nodes, root)| > maximum
    // Otherwise all descendants are returned, each once, in ascending order.
    ensures r.Ok? ==> StrictlySorted(r.value) && Elements(r.value) == DescendantSet(nodes, root)
  {
    if root <= 0 || maximum <= 0 {
      return Err(BadBound);
    }
    var built := BuildChildren(nodes);
    if built.None? {
      return Err(BadPid);
    }
    var children := built.value;
    var result: seq<int> := [];
    var seen := {root};
    var pending := PushOrder(children, root);
    WalkStarts(nodes, root, pending);
    hide Walking, IsDescendant, DescendantSet, Edge, ChildrenOf;
    while pending != []
      invariant Walking(nodes, root, result, seen, pending)
      invariant |result| <= maximum
      decreases Pids(nodes) - seen, |pending|
    {
      var pid := pending[|pending| - 1];
      WalkPops(nodes, root, result, seen, pending);
      pending := pending[..|pending| - 1];
      if pid !in seen {
        var more := PushOrder(children, pid);
        WalkVisits(nodes, root, result, seen, pending, pid, more);
        seen := seen + {pid};
        result := result + [pid];
        if |result| > maximum {
          FoundAreDescendants(nodes, root, result, seen, pending + more);
          return Err(BoundExceeded);
        }
        pending := pending + more;
      }
    }
    FoundAreDescendants(nodes, root, result, seen, pending);
    FoundAreAll(nodes, root, result, seen);
    return Ok(Sort(result));
  }

  /** The loop invariant: what is seen is reachable, and the children of what is seen are
      seen or pending, except those of `pid` when it is the last one popped. */
  ghost predicate WalkingExcept(nodes: seq<ProcessNode>, root: int, result: seq<int>, seen: set<int>,
                                pending: seq<int>, popped: Option<int>) {
    && seen == Elements(result) + {root} && Distinct(result) && root !in result
    && (forall p :: p in seen ==> Reachable(nodes, root, p))
    && (forall p :: p in result || p in pending ==> Reachable(nodes, root, p) && p in Pids(nodes))
    && (forall p, c :: p in seen && Edge(nodes, p, c) ==> c in seen || c in pending || Some(c) == popped)
  }

  ghost predicate Walking(nodes: seq<ProcessNode>, root: int, result: seq<int>, seen: set<int>, pending: seq<int>) {
    WalkingExcept(nodes, root, result, seen, pending, None)
  }

  lemma WalkStarts(nodes: seq<ProcessNode>, root: int, pending: seq<int>)
    requires forall c :: c in pending <==> Edge(nodes, root, c)
    ensures Walking(nodes, root, [], {root}, pending)
  {
    ReachableRoot(nodes, root);
    ChildrenReachable(nodes, root, root, pending);
  }

  lemma WalkPops(nodes: seq<ProcessNode>, root: int, result: seq<int>, seen: set<int>, pending: seq<int>)
    requires Walking(nodes, root, result, seen, pending) && pending != []
    ensures var pid, rest := pending[|pending| - 1], pending[..|pending| - 1];
            && WalkingExcept(nodes, root, result, seen, rest, Some(pid))
            && Reachable(nodes, root, pid) && pid in Pids(nodes)
            && (pid in seen ==> Walking(nodes, root, result, seen, rest))
  {
    assert pending == pending[..|pending| - 1] + [pending[|pending| - 1]];
  }

  lemma WalkVisits(nodes: seq<ProcessNode>, root: int, result: seq<int>, seen: set<int>, pending: seq<int>,
                   pid: int, more: seq<int>)
    requires WalkingExcept(nodes, root, result, seen, pending, Some(pid))
    requires Reachable(nodes, root, pid) && pid in Pids(nodes) && pid !in seen
    requires forall c :: c in more <==> Edge(nodes, pid, c)
    ensures Walking(nodes, root, result + [pid], seen + {pid}, pending + more)
  {
    ChildrenReachable(nodes, root, pid, more);
  }

  function PushOrder(children: Children, pid: int): (r: seq<int>)
    ensures forall c :: c in r <==> c in ChildrenOf(children, pid)
  {
    var own := ChildrenOf(children, pid);
    SameElements(own);
    ReverseElements(Sort(own));
    Reverse(Sort(own))
  }

  lemma FoundAreDescendants(nodes: seq<ProcessNode>, root: int, result: seq<int>, seen: set<int>, pending: seq<int>)
    requires Walking(nodes, root, result, seen, pending)
    ensures Elements(result) <= DescendantSet(nodes, root)
    ensures |Elements(result)| == |result| <= |DescendantSet(nodes, root)|
  {
    DistinctCount(result);
    SubsetCount(Elements(result), DescendantSet(nodes, root));
  }

  lemma FoundAreAll(nodes: seq<ProcessNode>, root: int, result: seq<int>, seen: set<int>)
    requires Walking(nodes, root, result, seen, [])
    requires Elements(result) <= DescendantSet(nodes, root)
    ensures DescendantSet(nodes, root) == Elements(Sort(result)) == Elements(result) && StrictlySorted(Sort(result))
  {
    forall p | p in DescendantSet(nodes, root) ensures p in Elements(result) {
      ClosedHoldsReachable(nodes, root, seen, p);
    }
    SortedDistinct(result);
  }

  lemma ChildrenReachable(nodes: seq<ProcessNode>, root: int, pid: int, children: seq<int>)
    requires Reachable(nodes, root, pid) && forall c :: c in children ==> Edge(nodes, pid, c)
    ensures forall c :: c in children ==> Reachable(nodes, root, c) && c in Pids(nodes)
  {
    forall c | c in children ensures Reachable(nodes, root, c) && c in Pids(nodes) {
      ReachableStep(nodes, root, pid, c);
      assert ProcessNode(c, pid) in nodes;
    }
  }

  lemma SubsetCount(a: set<int>, b: set<int>)
    requires a <= b
    ensures |a| <= |b|
  {
    assert b == a + (b - a);
  }
}
