/** Ranking and budgeted selection of the context broker (src/broker.rs). */
module Broker {
  import opened Common
  import Decimal

  type Text = seq<Byte>

  datatype Mode = Map | Change | Audit

  datatype Candidate = Candidate(path: Text, symbolKey: Option<Text>, displayName: Option<Text>,
                                 symbolKind: Option<Text>,
                                 score: int, distance: int, preferredSemantic: bool)

  // ------------------------------------------------------------------- ranking

  function SymbolText(c: Candidate): Text {
    match c.symbolKey case Some(k) => k case None => []
  }

  /** Score down, then distance, path and symbol key up; a missing symbol key is empty. */
  predicate Precedes(a: Candidate, b: Candidate) {
    || a.score > b.score
    || (a.score == b.score
        && (a.distance < b.distance
            || (a.distance == b.distance
                && (Decimal.Less(a.path, b.path)
                    || (a.path == b.path && Decimal.Less(SymbolText(a), SymbolText(b)))))))
  }

  /** Rust's stable `sort_by`. */
  function Place(x: Candidate, ranked: seq<Candidate>): seq<Candidate> {
    if ranked == [] || !Precedes(ranked[0], x) then [x] + ranked else [ranked[0]] + Place(x, ranked[1..])
  }

  function Rank(listed: seq<Candidate>): seq<Candidate> {
    if listed == [] then [] else Place(listed[0], Rank(listed[1..]))
  }

  /** Candidates that the ranking tells apart. */
  predicate Differ(a: Candidate, b: Candidate) {
    Precedes(a, b) || Precedes(b, a)
  }

  /** The only candidates it does not: same score, distance and path, and symbol keys that
      are the same or of which one is empty and the other missing. */
  predicate Ties(a: Candidate, b: Candidate) {
    a.score == b.score && a.distance == b.distance && a.path == b.path && SymbolText(a) == SymbolText(b)
  }

  lemma PrecedesIsOrder(a: Candidate, b: Candidate, c: Candidate)
    ensures !Precedes(a, a)
    ensures Differ(a, b) <==> !Ties(a, b)
    ensures Precedes(a, b) && Precedes(b, c) ==> Precedes(a, c)
    ensures !(Precedes(a, b) && Precedes(b, a))
  {
    hide Decimal.Less;
    Decimal.LessFacts(a.path, b.path, c.path);
    Decimal.LessFacts(SymbolText(a), SymbolText(b), SymbolText(c));
    Decimal.LessFacts(a.path, b.path, a.path);
    Decimal.LessFacts(SymbolText(a), SymbolText(b), SymbolText(a));
  }

  predicate InOrder(s: seq<Candidate>) {
    forall i, j :: 0 <= i < j < |s| ==> Precedes(s[i], s[j])
  }

  predicate AllDiffer(s: seq<Candidate>) {
    forall i, j :: 0 <= i < j < |s| ==> Differ(s[i], s[j])
  }

  lemma {:induction false} PlaceKeeps(x: Candidate, ranked: seq<Candidate>)
    ensures multiset(Place(x, ranked)) == multiset(ranked) + multiset{x} && |Place(x, ranked)| == |ranked| + 1
  {
    if ranked != [] {
      assert ranked == [ranked[0]] + ranked[1..];
      if Precedes(ranked[0], x) {
        PlaceKeeps(x, ranked[1..]);
      }
    }
  }

  /** Ranking loses and invents nothing. */
  lemma {:induction false} RankKeeps(listed: seq<Candidate>)
    ensures multiset(Rank(listed)) == multiset(listed) && |Rank(listed)| == |listed|
  {
    if listed != [] {
      RankKeeps(listed[1..]);
      PlaceKeeps(listed[0], Rank(listed[1..]));
      assert listed == [listed[0]] + listed[1..];
    }
  }

  lemma {:induction false} PlaceOrders(x: Candidate, ranked: seq<Candidate>)
    requires InOrder(ranked) && forall c :: c in ranked ==> Differ(x, c)
    ensures InOrder(Place(x, ranked))
  {
    hide Precedes;
    if ranked != [] {
      var head := ranked[0];
      PrecedesIsOrder(x, head, x);
      if Precedes(head, x) {
        PlaceOrders(x, ranked[1..]);
        PlaceKeeps(x, ranked[1..]);
        var rest := Place(x, ranked[1..]);
        forall j | 0 <= j < |rest| ensures Precedes(head, rest[j]) {
          assert rest[j] in multiset(rest);
          if rest[j] != x {
            assert rest[j] in ranked[1..];
            var i :| 0 <= i < |ranked| - 1 && ranked[1..][i] == rest[j];
            assert Precedes(ranked[0], ranked[i + 1]);
          }
        }
      } else {
        assert head in ranked;
        forall j | 0 <= j < |ranked| ensures Precedes(x, ranked[j]) {
          if j > 0 {
            PrecedesIsOrder(x, head, ranked[j]);
          }
        }
      }
    }
  }

  /** The comparisons of a sort: falling scores, and among equal scores rising distances, then
      paths, then symbol keys, in dictionary order; a missing symbol key counts as empty. */
  predicate MayStandBefore(a: Candidate, b: Candidate) {
    && a.score >= b.score
    && (a.score == b.score ==>
          && a.distance <= b.distance
          && (a.distance == b.distance ==>
                && (a.path == b.path || Decimal.Less(a.path, b.path))
                && (a.path == b.path ==>
                      var x := if a.symbolKey.Some? then a.symbolKey.value else [];
                      var y := if b.symbolKey.Some? then b.symbolKey.value else [];
                      x == y || Decimal.Less(x, y))))
  }

  lemma NotPreceded(a: Candidate, b: Candidate)
    ensures !Precedes(b, a) <==> MayStandBefore(a, b)
  {
    hide Decimal.Less;
    Decimal.LessFacts(a.path, b.path, a.path);
    Decimal.LessFacts(SymbolText(a), SymbolText(b), SymbolText(a));
  }

  lemma StandsBeforeIsOrder(a: Candidate, b: Candidate, c: Candidate)
    requires MayStandBefore(a, b) && MayStandBefore(b, c)
    ensures MayStandBefore(a, c)
  {
    hide Decimal.Less;
    Decimal.LessFacts(a.path, b.path, c.path);
    Decimal.LessFacts(SymbolText(a), SymbolText(b), SymbolText(c));
  }

  ghost predicate Ranked(s: seq<Candidate>) {
    forall i, j :: 0 <= i < j < |s| ==> MayStandBefore(s[i], s[j])
  }

  lemma {:induction false} PlaceRanks(x: Candidate, ranked: seq<Candidate>)
    requires Ranked(ranked)
    ensures Ranked(Place(x, ranked))
  {
    hide Precedes, MayStandBefore;
    if ranked != [] {
      var head, tail := ranked[0], ranked[1..];
      NotPreceded(x, head);
      if Precedes(head, x) {
        PlaceRanks(x, tail);
        PlaceKeeps(x, tail);
        NotPreceded(head, x);
        PrecedesIsOrder(head, x, x);
        var rest := Place(x, tail);
        forall j | 0 <= j < |rest|
          ensures MayStandBefore(head, rest[j])
        {
          assert rest[j] in multiset(rest);
          if rest[j] != x {
            var i :| 0 <= i < |tail| && tail[i] == rest[j];
            assert MayStandBefore(ranked[0], ranked[i + 1]);
          }
        }
      } else {
        forall j | 0 < j < |ranked|
          ensures MayStandBefore(x, ranked[j])
        {
          StandsBeforeIsOrder(x, head, ranked[j]);
        }
      }
    }
  }

  /** Whatever is listed, ties included: along the ranking scores never rise, and at equal scores
      distances, then paths, then symbol keys never fall. */
  lemma {:induction false} RankTells(listed: seq<Candidate>)
    ensures Ranked(Rank(listed))
  {
    if listed != [] {
      RankTells(listed[1..]);
      PlaceRanks(listed[0], Rank(listed[1..]));
    }
  }

  lemma {:induction false} RankOrders(listed: seq<Candidate>)
    requires AllDiffer(listed)
    ensures InOrder(Rank(listed))
  {
    hide Precedes, Differ;
    if listed != [] {
      RankOrders(listed[1..]);
      RankKeeps(listed[1..]);
      forall c | c in Rank(listed[1..]) ensures Differ(listed[0], c) {
        assert c in multiset(Rank(listed[1..]));
        var i :| 0 <= i < |listed| - 1 && listed[1..][i] == c;
        assert listed[i + 1] == c;
      }
      PlaceOrders(listed[0], Rank(listed[1..]));
    }
  }

  lemma {:induction false} OrderIsUnique(a: seq<Candidate>, b: seq<Candidate>)
    requires InOrder(a) && InOrder(b) && multiset(a) == multiset(b)
    ensures a == b
  {
    hide Precedes;
    if a == [] {
      assert |b| == |multiset(b)| == |multiset(a)|;
    } else {
      SameFirst(a, b);
      assert multiset(a[1..]) == multiset(b[1..]) by {
        assert a == [a[0]] + a[1..] && b == [b[0]] + b[1..];
        assert multiset(a[1..]) == multiset(a) - multiset{a[0]};
      }
      OrderIsUnique(a[1..], b[1..]);
      assert a == [a[0]] + a[1..] == b;
    }
  }

  lemma SameFirst(a: seq<Candidate>, b: seq<Candidate>)
    requires InOrder(a) && InOrder(b) && multiset(a) == multiset(b) && a != []
    ensures b != [] && a[0] == b[0]
  {
    hide Precedes;
    assert |b| == |multiset(b)| == |multiset(a)| == |a|;
    assert a[0] in multiset(b) && b[0] in multiset(a);
    var i :| 0 <= i < |b| && b[i] == a[0];
    var j :| 0 <= j < |a| && a[j] == b[0];
    PrecedesIsOrder(a[0], b[0], a[0]);
  }

  // ------------------------------------------------------- the scored map

  /** "path:" */
  const PATH_PREFIX: Text := [0x70, 0x61, 0x74, 0x68, 0x3A]

  type Scored = map<Text, Candidate>

  /** A path candidate is under its path key, a symbol candidate under its symbol key. */
  predicate KeyFits(key: Text, c: Candidate) {
    match c.symbolKey case Some(k) => key == k case None => key == PATH_PREFIX + c.path
  }

  predicate WellKeyed(scored: Scored) {
    forall k :: k in scored ==> KeyFits(k, scored[k])
  }

  predicate NoEmptySymbol(scored: Scored) {
    forall k :: k in scored ==> scored[k].symbolKey != Some([])
  }

  /** `add_or_bump`: the map before and after. */
  function AddOrBump(scored: Scored, key: Text, made: Candidate, bump: int): (r: Scored)
    requires KeyFits(key, made) && WellKeyed(scored)
    ensures WellKeyed(r) && r.Keys == scored.Keys + {key}
    ensures r[key].score == (if key in scored then scored[key].score else made.score) + bump
    ensures forall k :: k in scored && k != key ==> r[k] == scored[k]
  {
    var entry := if key in scored then scored[key] else made;
    scored[key := entry.(score := entry.score + bump)]
  }

  /** One iteration order of the map: every key once. */
  ghost predicate Lists(keys: seq<Text>, scored: Scored) {
    && (forall k :: k in keys <==> k in scored)
    && (forall i, j :: 0 <= i < j < |keys| ==> keys[i] != keys[j])
  }

  function ValuesOf(keys: seq<Text>, scored: Scored): (r: seq<Candidate>)
    requires forall k :: k in keys ==> k in scored
    ensures |r| == |keys| && forall i :: 0 <= i < |keys| ==> r[i] == scored[keys[i]]
  {
    if keys == [] then [] else
      assert keys[0] in keys;
      [scored[keys[0]]] + ValuesOf(keys[1..], scored)
  }

  /** A symbol candidate with an empty key, and the path candidate of the same file at the
      same score and distance. */
  predicate HasTie(scored: Scored) {
    && [] in scored && scored[[]].symbolKey == Some([])
    && var key := PATH_PREFIX + scored[[]].path;
       key in scored && scored[key].symbolKey == None && Ties(scored[[]], scored[key])
  }

  /** Two entries tie exactly when they are those two. */
  lemma EntriesTieIff(scored: Scored, j: Text, k: Text)
    requires WellKeyed(scored) && j in scored && k in scored && j != k
    ensures Ties(scored[j], scored[k]) <==>
            (HasTie(scored) && ((j == [] && k == PATH_PREFIX + scored[[]].path)
                                || (k == [] && j == PATH_PREFIX + scored[[]].path)))
  {
    assert forall p: Text :: PATH_PREFIX + p != [];
  }

  lemma {:induction false} ValuesAppend(a: seq<Text>, b: seq<Text>, scored: Scored)
    requires forall k :: k in a + b ==> k in scored
    ensures (forall k :: k in a ==> k in scored) && (forall k :: k in b ==> k in scored)
    ensures ValuesOf(a + b, scored) == ValuesOf(a, scored) + ValuesOf(b, scored)
  {
    forall k | k in a ensures k in scored { assert k in a + b; }
    forall k | k in b ensures k in scored { assert k in a + b; }
    if a == [] {
      assert a + b == b;
    } else {
      assert (a + b)[1..] == a[1..] + b;
      ValuesAppend(a[1..], b, scored);
    }
  }

  /** Reordering the keys reorders the values. */
  lemma {:induction false} ValuesReorder(keys: seq<Text>, other: seq<Text>, scored: Scored)
    requires (forall k :: k in keys ==> k in scored) && (forall k :: k in other ==> k in scored)
    requires multiset(keys) == multiset(other)
    ensures multiset(ValuesOf(keys, scored)) == multiset(ValuesOf(other, scored))
  {
    if keys == [] {
      assert |other| == |multiset(other)| == |multiset(keys)|;
    } else {
      var rest := TakeOut(keys, other);
      var first, more := rest.0, rest.1;
      assert keys[0] in keys;
      assert forall k :: k in first + more ==> k in other;
      ValuesReorder(keys[1..], first + more, scored);
      ValuesAppend(first, more, scored);
      ValuesAppend(first + [keys[0]], more, scored);
      ValuesAppend(first, [keys[0]], scored);
      assert ValuesOf([keys[0]], scored) == [scored[keys[0]]];
      assert ValuesOf(keys, scored) == [scored[keys[0]]] + ValuesOf(keys[1..], scored);
    }
  }

  lemma TakeOut(keys: seq<Text>, other: seq<Text>) returns (cut: (seq<Text>, seq<Text>))
    requires keys != [] && multiset(keys) == multiset(other)
    ensures other == cut.0 + [keys[0]] + cut.1 && multiset(cut.0 + cut.1) == multiset(keys[1..])
  {
    assert keys[0] in multiset(other);
    var j :| 0 <= j < |other| && other[j] == keys[0];
    cut := (other[..j], other[j + 1..]);
    assert other == cut.0 + [keys[0]] + cut.1;
    assert keys == [keys[0]] + keys[1..];
    assert multiset(other) == multiset(cut.0) + multiset{keys[0]} + multiset(cut.1);
    assert multiset(cut.0 + cut.1) == multiset(other) - multiset{keys[0]};
    assert multiset(keys[1..]) == multiset(keys) - multiset{keys[0]};
  }

  lemma {:induction false} DistinctMultiset(keys: seq<Text>)
    requires forall i, j :: 0 <= i < j < |keys| ==> keys[i] != keys[j]
    ensures multiset(keys) == multiset(set k | k in keys)
  {
    if keys != [] {
      var rest := keys[1..];
      DistinctMultiset(rest);
      assert keys == [keys[0]] + rest;
      assert (set k | k in keys) == (set k | k in rest) + {keys[0]};
      assert keys[0] !in rest;
    }
  }

  /** From a fixed scored map without a tie, the ranking does not depend on the order in which
      the hash map is iterated; and it is strictly ordered. */
  lemma RankingIsDetermined(scored: Scored, keys: seq<Text>, other: seq<Text>)
    requires WellKeyed(scored) && !HasTie(scored) && Lists(keys, scored) && Lists(other, scored)
    ensures Rank(ValuesOf(keys, scored)) == Rank(ValuesOf(other, scored))
    ensures InOrder(Rank(ValuesOf(keys, scored)))
  {
    hide Rank, Precedes, Differ, KeyFits, HasTie;
    DistinctMultiset(keys);
    DistinctMultiset(other);
    assert (set k | k in keys) == (set k | k in other);
    ValuesReorder(keys, other, scored);
    ListedDiffer(keys, scored);
    ListedDiffer(other, scored);
    RankOrders(ValuesOf(keys, scored));
    RankOrders(ValuesOf(other, scored));
    RankKeeps(ValuesOf(keys, scored));
    RankKeeps(ValuesOf(other, scored));
    OrderIsUnique(Rank(ValuesOf(keys, scored)), Rank(ValuesOf(other, scored)));
  }

  lemma ListedDiffer(keys: seq<Text>, scored: Scored)
    requires WellKeyed(scored) && !HasTie(scored) && Lists(keys, scored)
    ensures AllDiffer(ValuesOf(keys, scored))
  {
    hide Differ, KeyFits, HasTie, Ties;
    var values := ValuesOf(keys, scored);
    forall i, j | 0 <= i < j < |values| ensures Differ(values[i], values[j]) {
      assert keys[i] in keys && keys[j] in keys;
      EntriesTieIff(scored, keys[i], keys[j]);
      PrecedesIsOrder(values[i], values[j], values[i]);
    }
  }

  /** Where the symbol keys are not empty there is no tie. */
  lemma NoEmptySymbolNoTie(scored: Scored)
    requires NoEmptySymbol(scored)
    ensures !HasTie(scored)
  {
  }

  // --------------------------------------------------------- and only then

  /** The stable sort puts two ties, inserted one after the other, next to each other in the
      order in which they were listed. */
  lemma {:induction false} TiesStayListed(x: Candidate, y: Candidate, ranked: seq<Candidate>) returns (at: nat)
    requires Ties(x, y)
    ensures at <= |ranked|
    ensures Place(x, Place(y, ranked)) == ranked[..at] + [x, y] + ranked[at..]
    ensures Place(y, Place(x, ranked)) == ranked[..at] + [y, x] + ranked[at..]
  {
    hide Precedes, Ties;
    TiesRankAlike(x, y, if ranked == [] then x else ranked[0]);
    if ranked == [] || !Precedes(ranked[0], x) {
      at := 0;
    } else {
      var head, rest := ranked[0], ranked[1..];
      var below := TiesStayListed(x, y, rest);
      at := below + 1;
      PlacePasses(x, head, Place(y, rest));
      PlacePasses(y, head, Place(x, rest));
      hide Place;
      assert ranked[..at] == [head] + rest[..below] && ranked[at..] == rest[below..];
    }
  }

  lemma TiesRankAlike(x: Candidate, y: Candidate, z: Candidate)
    requires Ties(x, y)
    ensures Precedes(z, x) == Precedes(z, y) && !Precedes(x, y) && !Precedes(y, x)
  {
    PrecedesIsOrder(x, y, x);
  }

  lemma PlacePasses(x: Candidate, head: Candidate, rest: seq<Candidate>)
    requires Precedes(head, x)
    ensures Place(x, [head] + rest) == [head] + Place(x, rest)
  {
    assert ([head] + rest)[1..] == rest;
  }

  lemma StillDistinct(listed: seq<Text>, k: Text)
    requires k !in listed && forall i, j :: 0 <= i < j < |listed| ==> listed[i] != listed[j]
    ensures forall i, j :: 0 <= i < j < |listed + [k]| ==> (listed + [k])[i] != (listed + [k])[j]
  {
    assert forall i :: 0 <= i < |listed| ==> listed[i] in listed;
  }

  lemma {:induction false} SomeListing(keys: set<Text>) returns (listed: seq<Text>)
    ensures forall k :: k in listed <==> k in keys
    ensures forall i, j :: 0 <= i < j < |listed| ==> listed[i] != listed[j]
  {
    listed := [];
    var left := keys;
    while left != {}
      invariant left <= keys
      invariant forall k :: k in listed <==> k in keys - left
      invariant forall i, j :: 0 <= i < j < |listed| ==> listed[i] != listed[j]
      decreases |left|
    {
      var k :| k in left;
      StillDistinct(listed, k);
      listed := listed + [k];
      left := left - {k};
    }
  }

  /** A tie shows in the ranking: two iteration orders that swap the tied keys differ. */
  lemma TieIsUndetermined(scored: Scored) returns (keys: seq<Text>, other: seq<Text>)
    requires WellKeyed(scored) && HasTie(scored)
    ensures Lists(keys, scored) && Lists(other, scored)
    ensures Rank(ValuesOf(keys, scored)) != Rank(ValuesOf(other, scored))
  {
    hide Ties, Precedes, Place, Rank, ValuesOf, KeyFits;
    var j: Text := [];
    var k := PATH_PREFIX + scored[j].path;
    assert j != k;
    var rest := SomeListing(scored.Keys - {j, k});
    keys, other := [j, k] + rest, [k, j] + rest;
    TwoThenRestLists(scored, j, k, rest);
    TwoThenRestLists(scored, k, j, rest);
    FirstTwo(scored, j, k, rest);
    FirstTwo(scored, k, j, rest);
    SwapShows(scored[j], scored[k], ValuesOf(rest, scored));
  }

  lemma TwoThenRestLists(scored: Scored, j: Text, k: Text, rest: seq<Text>)
    requires j in scored && k in scored && j != k
    requires forall r :: r in rest <==> r in scored.Keys - {j, k}
    requires forall i, m :: 0 <= i < m < |rest| ==> rest[i] != rest[m]
    ensures Lists([j, k] + rest, scored)
  {
    var all := [j, k] + rest;
    assert forall i :: 2 <= i < |all| ==> all[i] == rest[i - 2] && all[i] in rest;
  }

  lemma SwapShows(x: Candidate, y: Candidate, rest: seq<Candidate>)
    requires Ties(x, y) && x != y
    ensures Rank([x, y] + rest) != Rank([y, x] + rest)
  {
    hide Ties, Place, Rank;
    var at := TiesStayListed(x, y, Rank(rest));
    RankOfTwo(x, y, rest);
    RankOfTwo(y, x, rest);
    assert Rank([x, y] + rest)[at] == x && Rank([y, x] + rest)[at] == y;
  }

  lemma FirstTwo(scored: Scored, j: Text, k: Text, rest: seq<Text>)
    requires j in scored && k in scored && forall r :: r in rest ==> r in scored
    ensures forall r :: r in [j, k] + rest ==> r in scored
    ensures ValuesOf([j, k] + rest, scored) == [scored[j], scored[k]] + ValuesOf(rest, scored)
  {
    var all := [j, k] + rest;
    assert all[1..] == [k] + rest && all[1..][1..] == rest;
  }

  lemma RankOfTwo(x: Candidate, y: Candidate, rest: seq<Candidate>)
    ensures Rank([x, y] + rest) == Place(x, Place(y, Rank(rest)))
  {
    hide Place;
    var all := [x, y] + rest;
    assert all[1..] == [y] + rest && all[1..][1..] == rest;
  }

  /** The ranking is independent of the map's iteration order exactly when there is no tie. */
  lemma DeterminedIffNoTie(scored: Scored)
    requires WellKeyed(scored)
    ensures (forall keys, other :: Lists(keys, scored) && Lists(other, scored) ==>
               Rank(ValuesOf(keys, scored)) == Rank(ValuesOf(other, scored)))
            <==> !HasTie(scored)
  {
    hide HasTie, WellKeyed, Rank;
    if HasTie(scored) {
      var keys, other := TieIsUndetermined(scored);
    } else {
      forall keys, other | Lists(keys, scored) && Lists(other, scored)
        ensures Rank(ValuesOf(keys, scored)) == Rank(ValuesOf(other, scored))
      {
        RankingIsDetermined(scored, keys, other);
      }
    }
  }

  /** An empty symbol key ties with the path candidate of its file: then the order of
      iteration shows. */
  lemma EmptySymbolIsUndetermined(path: Text, score: int)
    requires PATH_PREFIX + path != []
    ensures var bare := Candidate(path, None, None, None, score, 0, false);
            var symbol := Candidate(path, Some([]), None, None, score, 0, false);
            var scored: Scored := map[PATH_PREFIX + path := bare, [] := symbol];
            && WellKeyed(scored) && Lists([PATH_PREFIX + path, []], scored) && Lists([[], PATH_PREFIX + path], scored)
            && Rank(ValuesOf([PATH_PREFIX + path, []], scored)) != Rank(ValuesOf([[], PATH_PREFIX + path], scored))
  {
    var bare := Candidate(path, None, None, None, score, 0, false);
    var symbol := Candidate(path, Some([]), None, None, score, 0, false);
    var k: Text := PATH_PREFIX + path;
    assert k[0] == PATH_PREFIX[0];
    var scored: Scored := map[k := bare, [] := symbol];
    TiedKeepOrder(bare, symbol);
    TiedKeepOrder(symbol, bare);
    var none: Text := [];
    assert ValuesOf([k, none], scored) == [bare, symbol];
    assert ValuesOf([none, k], scored) == [symbol, bare];
  }

  lemma TiedKeepOrder(a: Candidate, b: Candidate)
    requires a.path == b.path && a.score == b.score && a.distance == b.distance && SymbolText(a) == SymbolText(b) == []
    ensures Rank([a, b]) == [a, b]
  {
    Decimal.LessFacts(a.path, b.path, a.path);
    assert !Precedes(b, a);
    assert [a, b][1..] == [b] && [b][1..] == [];
    var none: seq<Candidate> := [];
    assert Rank(none) == none;
    assert Rank([b]) == [b] + none;
  }

  // ------------------------------------------------------------ budgeted selection

  const I64_MAX := 0x7FFF_FFFF_FFFF_FFFF

  datatype Budget = Budget(maxRecords: int, maxSourceBytes: int, maxTokenEstimate: int)

  /** What reading a candidate's file shows: its hash, and its text if it can be read. */
  datatype FileState = Unreadable | Readable(hash: Text, text: Option<Text>)

  datatype Status = Verified | HashMismatch | ReadFailed

  datatype Excerpt = Excerpt(path: Text, indexedHash: Text, observedHash: Text, status: Status, text: Option<Text>)

  /** The indexed hash of a path, if the file is current, and the file as it is now. */
  datatype World = World(indexed: Text -> Option<Text>, file: Text -> FileState)

  datatype Selection = Selection(selected: seq<Candidate>, unselected: seq<Candidate>, excerpts: seq<Excerpt>,
                                 usedBytes: int, omitted: int)

  const NOTHING := Selection([], [], [], 0, 0)

  /** Nine tenths of the record budget, rounded down. */
  function UsableRecords(budget: Budget): int {
    9 * budget.maxRecords / 10
  }

  /** The text that a candidate would add, when its file still has the indexed hash. */
  function VerifiedText(c: Candidate, world: World): Option<Text> {
    match world.indexed(c.path)
    case None => None
    case Some(hash) =>
      match world.file(c.path)
      case Unreadable => None
      case Readable(observed, text) => if observed == hash then text else None
  }

  function ExcerptOf(c: Candidate, hash: Text, world: World): Excerpt {
    match world.file(c.path)
    case Unreadable => Excerpt(c.path, hash, [], ReadFailed, None)
    case Readable(observed, text) =>
      if observed != hash then Excerpt(c.path, hash, observed, HashMismatch, None)
      else if text.None? then Excerpt(c.path, hash, observed, ReadFailed, None)
      else Excerpt(c.path, hash, observed, Verified, text)
  }

  /** Adding `bytes` would overflow or break the byte or the token limit. */
  predicate Overruns(used: int, bytes: int, budget: Budget) {
    used + bytes > I64_MAX || used + bytes > budget.maxSourceBytes || (used + bytes) / 4 > budget.maxTokenEstimate
  }

  /** Why a candidate is left out: the record cap, or its text. */
  predicate LeftOut(s: Selection, c: Candidate, mode: Mode, budget: Budget, world: World) {
    || |s.selected| >= UsableRecords(budget)
    || (!mode.Map? && VerifiedText(c, world).Some? && Overruns(s.usedBytes, |VerifiedText(c, world).value|, budget))
  }

  function Take(s: Selection, c: Candidate, mode: Mode, budget: Budget, world: World): Selection {
    if LeftOut(s, c, mode, budget, world) then s.(unselected := s.unselected + [c], omitted := s.omitted + 1)
    else if mode.Map? || world.indexed(c.path).None? then s.(selected := s.selected + [c])
    else
      s.(selected := s.selected + [c],
         excerpts := s.excerpts + [ExcerptOf(c, world.indexed(c.path).value, world)],
         usedBytes := s.usedBytes + match VerifiedText(c, world) case Some(t) => |t| case None => 0)
  }

  function Select(candidates: seq<Candidate>, mode: Mode, budget: Budget, world: World): Selection {
    if candidates == [] then NOTHING
    else Take(Select(candidates[..|candidates| - 1], mode, budget, world), candidates[|candidates| - 1], mode, budget,
              world)
  }

  /** The selection loop of `build_packet`. */
  method SelectWithinBudget(candidates: seq<Candidate>, mode: Mode, budget: Budget, world: World) returns (s: Selection)
    ensures s == Select(candidates, mode, budget, world)
  {
    var usable := UsableRecords(budget);
    var selected: seq<Candidate> := [];
    var unselected: seq<Candidate> := [];
    var excerpts: seq<Excerpt> := [];
    var usedBytes, omitted := 0, 0;
    for i := 0 to |candidates|
      invariant Selection(selected, unselected, excerpts, usedBytes, omitted)
                == Select(candidates[..i], mode, budget, world)
    {
      var c := candidates[i];
      assert candidates[..i + 1][..i] == candidates[..i];
      if |selected| >= usable {
        omitted := omitted + 1;
        unselected := unselected + [c];
      } else if mode.Map? || world.indexed(c.path).None? {
        selected := selected + [c];
      } else {
        var hash := world.indexed(c.path).value;
        var read := world.file(c.path);
        if read.Readable? && read.hash == hash && read.text.Some? && Overruns(usedBytes, |read.text.value|, budget) {
          omitted := omitted + 1;
          unselected := unselected + [c];
        } else {
          if read.Readable? && read.hash == hash && read.text.Some? {
            usedBytes := usedBytes + |read.text.value|;
          }
          excerpts := excerpts + [ExcerptOf(c, hash, world)];
          selected := selected + [c];
        }
      }
    }
    assert candidates[..|candidates|] == candidates;
    return Selection(selected, unselected, excerpts, usedBytes, omitted);
  }

  /** Which candidates were kept, in order. */
  function Kept(candidates: seq<Candidate>, mode: Mode, budget: Budget, world: World): (mask: seq<bool>)
    ensures |mask| == |candidates|
  {
    if candidates == [] then []
    else
      var front := candidates[..|candidates| - 1];
      Kept(front, mode, budget, world)
      + [!LeftOut(Select(front, mode, budget, world), candidates[|candidates| - 1], mode, budget, world)]
  }

  function Where(candidates: seq<Candidate>, mask: seq<bool>, value: bool): seq<Candidate>
    requires |mask| == |candidates|
  {
    if candidates == [] then []
    else
      var n := |candidates| - 1;
      Where(candidates[..n], mask[..n], value) + if mask[n] == value then [candidates[n]] else []
  }

  function TextBytes(excerpts: seq<Excerpt>): nat {
    if excerpts == [] then 0
    else TextBytes(excerpts[..|excerpts| - 1]) + match excerpts[|excerpts| - 1].text case Some(t) => |t| case None => 0
  }

  /** The selection splits the ranking, in order, into kept and left-out candidates, counts
      the left-out ones, and reports the bytes of the texts it returns, within all limits. */
  predicate Accounts(s: Selection, candidates: seq<Candidate>, mask: seq<bool>, budget: Budget)
    requires |mask| == |candidates|
  {
    && s.selected == Where(candidates, mask, true) && s.unselected == Where(candidates, mask, false)
    && s.omitted == |s.unselected| && |s.selected| + |s.unselected| == |candidates|
    && (|s.selected| == 0 || |s.selected| <= UsableRecords(budget))
    && s.usedBytes == TextBytes(s.excerpts)
    && (s.usedBytes == 0 || (s.usedBytes <= budget.maxSourceBytes && s.usedBytes / 4 <= budget.maxTokenEstimate
                             && s.usedBytes <= I64_MAX))
  }

  lemma {:induction false} SelectionAccounts(candidates: seq<Candidate>, mode: Mode, budget: Budget, world: World)
    ensures Accounts(Select(candidates, mode, budget, world), candidates, Kept(candidates, mode, budget, world), budget)
  {
    if candidates != [] {
      var n := |candidates| - 1;
      var front := candidates[..n];
      SelectionAccounts(front, mode, budget, world);
      var mask := Kept(candidates, mode, budget, world);
      assert mask[..n] == Kept(front, mode, budget, world);
      TakeAccounts(Select(front, mode, budget, world), front, mask[..n], candidates[n], mode, budget, world);
    }
  }

  lemma TakeAccounts(s: Selection, front: seq<Candidate>, mask: seq<bool>, c: Candidate, mode: Mode, budget: Budget,
                     world: World)
    requires |mask| == |front| && Accounts(s, front, mask, budget)
    ensures Accounts(Take(s, c, mode, budget, world), front + [c], mask + [!LeftOut(s, c, mode, budget, world)], budget)
  {
    var t := Take(s, c, mode, budget, world);
    var longer := mask + [!LeftOut(s, c, mode, budget, world)];
    assert (front + [c])[..|front|] == front && longer[..|mask|] == mask;
    assert Where(front, mask, true) + [] == Where(front, mask, true)
           && Where(front, mask, false) + [] == Where(front, mask, false);
    if |t.excerpts| > |s.excerpts| {
      assert t.excerpts[..|s.excerpts|] == s.excerpts;
    }
  }

  /** An excerpt against the index and the file: a text is given exactly when the file's hash is the
      indexed one and it can be read, and then it is the file's. */
  predicate ExcerptTells(e: Excerpt, c: Candidate, world: World) {
    && e.path == c.path && world.indexed(c.path) == Some(e.indexedHash)
    && match world.file(c.path)
       case Unreadable => e.status == ReadFailed && e.text == None && e.observedHash == []
       case Readable(hash, text) =>
         && e.observedHash == hash
         && (e.status == HashMismatch <==> hash != e.indexedHash)
         && (e.status == Verified <==> hash == e.indexedHash && text.Some?)
         && e.text == (if hash == e.indexedHash then text else None)
  }

  /** Every excerpt is of a selected candidate, and no text but a verified one is returned. */
  lemma {:induction false} ExcerptsTell(candidates: seq<Candidate>, e: Excerpt, mode: Mode, budget: Budget,
                                        world: World) returns (c: Candidate)
    requires e in Select(candidates, mode, budget, world).excerpts
    ensures c in Select(candidates, mode, budget, world).selected && ExcerptTells(e, c, world) && mode != Map
  {
    var n := |candidates| - 1;
    var before := Select(candidates[..n], mode, budget, world);
    if e in before.excerpts {
      c := ExcerptsTell(candidates[..n], e, mode, budget, world);
    } else {
      c := candidates[n];
    }
  }

  /** Every selected candidate that is indexed has an excerpt, unless only a map is asked for. */
  lemma {:induction false} SelectedAreExcerpted(candidates: seq<Candidate>, c: Candidate, mode: Mode, budget: Budget,
                                                world: World) returns (e: Excerpt)
    requires c in Select(candidates, mode, budget, world).selected && mode != Map && world.indexed(c.path).Some?
    ensures e in Select(candidates, mode, budget, world).excerpts && ExcerptTells(e, c, world)
  {
    var n := |candidates| - 1;
    var before := Select(candidates[..n], mode, budget, world);
    if c in before.selected {
      e := SelectedAreExcerpted(candidates[..n], c, mode, budget, world);
    } else {
      e := ExcerptOf(c, world.indexed(c.path).value, world);
    }
  }

  /** The selection only grows along the ranking. */
  lemma {:induction false} SelectionGrows(candidates: seq<Candidate>, i: nat, mode: Mode, budget: Budget, world: World)
    requires i <= |candidates|
    ensures var before, after := Select(candidates[..i], mode, budget, world), Select(candidates, mode, budget, world);
            && before.selected <= after.selected && before.unselected <= after.unselected
            && before.excerpts <= after.excerpts && before.usedBytes <= after.usedBytes
    decreases |candidates|
  {
    if i == |candidates| {
      assert candidates[..i] == candidates;
    } else {
      var front := candidates[..|candidates| - 1];
      assert front[..i] == candidates[..i];
      SelectionGrows(front, i, mode, budget, world);
    }
  }

  /** A candidate goes to the end of one of the two lists: to the unselected one exactly when as
      many are selected before it as the cap allows, or its verified text, on top of the bytes
      used before it, would break the byte limit, the token limit or the integer range. */
  lemma LeftOutOnlyForBudget(candidates: seq<Candidate>, i: nat, mode: Mode, budget: Budget, world: World)
    requires i < |candidates|
    ensures var before, after := Select(candidates[..i], mode, budget, world),
                                 Select(candidates[..i + 1], mode, budget, world);
            var c, text := candidates[i], VerifiedText(candidates[i], world);
            if || |before.selected| >= 9 * budget.maxRecords / 10
               || (mode != Map && text.Some?
                   && (|| before.usedBytes + |text.value| > budget.maxSourceBytes
                       || (before.usedBytes + |text.value|) / 4 > budget.maxTokenEstimate
                       || before.usedBytes + |text.value| > I64_MAX))
            then after.unselected == before.unselected + [c] && after.selected == before.selected
            else after.selected == before.selected + [c] && after.unselected == before.unselected
  {
    assert candidates[..i + 1][..i] == candidates[..i];
  }

  /** Nothing more fits: whatever was left out cannot be added to the final selection either. */
  lemma {:induction false} NothingMoreFits(candidates: seq<Candidate>, c: Candidate, mode: Mode, budget: Budget,
                                           world: World)
    requires c in Select(candidates, mode, budget, world).unselected
    ensures var s, text := Select(candidates, mode, budget, world), VerifiedText(c, world);
            || |s.selected| >= UsableRecords(budget)
            || (mode != Map && text.Some? && Overruns(s.usedBytes, |text.value|, budget))
  {
    var n := |candidates| - 1;
    var before := Select(candidates[..n], mode, budget, world);
    SelectionGrows(candidates, n, mode, budget, world);
    if c in before.unselected {
      NothingMoreFits(candidates[..n], c, mode, budget, world);
    }
  }

  /** Once the record cap is reached, everything after is left out. */
  lemma {:induction false} CapIsFinal(candidates: seq<Candidate>, i: nat, j: nat, mode: Mode, budget: Budget,
                                      world: World)
    requires i <= j <= |candidates|
    requires |Select(candidates[..i], mode, budget, world).selected| >= UsableRecords(budget)
    ensures Select(candidates[..j], mode, budget, world).selected
            == Select(candidates[..i], mode, budget, world).selected
    decreases j
  {
    if i < j {
      CapIsFinal(candidates, i, j - 1, mode, budget, world);
      assert candidates[..j][..j - 1] == candidates[..j - 1];
    }
  }
}
