/** Snapshot-stable pages of compiled contexts (src/context_application.rs). */
module Paging {
  import opened Common
  import Decimal

  type Text = seq<Byte>

  // ------------------------------------------------------------- order of keys

  /** The ordering key; TEXT columns compare byte by byte. */
  datatype Key = Key(createdAt: Text, contextId: Text)

  predicate Before(a: Key, b: Key) {
    Decimal.Less(a.createdAt, b.createdAt) || (a.createdAt == b.createdAt && Decimal.Less(a.contextId, b.contextId))
  }

  lemma BeforeIsOrder(a: Key, b: Key, c: Key)
    ensures !Before(a, a)
    ensures Before(a, b) || a == b || Before(b, a)
    ensures Before(a, b) && Before(b, c) ==> Before(a, c)
    ensures !(Before(a, b) && Before(b, a))
  {
    hide Decimal.Less;
    Decimal.LessFacts(a.createdAt, b.createdAt, c.createdAt);
    Decimal.LessFacts(a.contextId, b.contextId, c.contextId);
    Decimal.LessFacts(a.createdAt, b.createdAt, a.createdAt);
    Decimal.LessFacts(a.contextId, b.contextId, a.contextId);
  }

  // -------------------------------------------------------------- the table

  datatype Row = Row(rowid: int, workspace: Text, session: Text, version: Text, canonicalJson: Text,
                     contextHash: Text, key: Key)

  /** `context_ir` at one moment. Its primary key is the context id. */
  type Table = set<Row>

  ghost predicate UniqueIds(t: Table) {
    forall a, b :: a in t && b in t && a.key.contextId == b.key.contextId ==> a == b
  }

  const VERSION: Text := [0x31, 0x2E, 0x30, 0x2E, 0x30]

  datatype Scope = Scope(workspace: Text, session: Text)

  function Matching(t: Table, scope: Scope): Table {
    set r | r in t && r.workspace == scope.workspace && r.session == scope.session && r.version == VERSION
  }

  function UpTo(t: Table, scope: Scope, maxRowid: int): Table {
    set r | r in Matching(t, scope) && r.rowid <= maxRowid
  }

  /** Rows after a key, and rows up to it. */
  function RowsAfter(rows: Table, key: Key): Table {
    set r | r in rows && Before(key, r.key)
  }

  function RowsThrough(rows: Table, key: Key): Table {
    set r | r in rows && (Before(r.key, key) || r.key == key)
  }

  // ------------------------------------------------- ORDER BY created_at, context_id

  ghost predicate InOrder(s: seq<Row>) {
    forall i, j :: 0 <= i < j < |s| ==> Before(s[i].key, s[j].key)
  }

  function Rows(s: seq<Row>): Table {
    set r | r in s
  }

  predicate IsFirst(rows: Table, first: Row) {
    first in rows && forall r :: r in rows && r != first ==> Before(first.key, r.key)
  }

  lemma {:induction false} FirstRowExists(rows: Table)
    requires UniqueIds(rows) && |rows| > 0
    ensures exists first :: IsFirst(rows, first)
    ensures forall x, y :: IsFirst(rows, x) && IsFirst(rows, y) ==> x == y
  {
    hide Before;
    assert exists x :: x in rows by {
      if forall x :: x !in rows {
        assert false;
      }
    }
    var x :| x in rows;
    var others := rows - {x};
    if |others| == 0 {
      assert forall r :: r in rows ==> r == x;
      assert IsFirst(rows, x);
    } else {
      FirstRowExists(others);
      var y :| IsFirst(others, y);
      BeforeIsOrder(x.key, y.key, x.key);
      assert x.key != y.key;
      var first := if Before(x.key, y.key) then x else y;
      forall r | r in rows && r != first ensures Before(first.key, r.key) {
        BeforeIsOrder(x.key, y.key, r.key);
      }
      assert IsFirst(rows, first);
    }
    forall x, y | IsFirst(rows, x) && IsFirst(rows, y) ensures x == y {
      BeforeIsOrder(x.key, y.key, x.key);
    }
  }

  function Ordered(rows: Table): (s: seq<Row>)
    requires UniqueIds(rows)
    ensures Rows(s) == rows && InOrder(s) && |s| == |rows|
  {
    if |rows| == 0 then []
    else
      FirstRowExists(rows);
      var first :| IsFirst(rows, first);
      var rest := Ordered(rows - {first});
      FirstThenRest(rows, first, rest);
      [first] + rest
  }

  lemma FirstThenRest(rows: Table, first: Row, rest: seq<Row>)
    requires IsFirst(rows, first) && Rows(rest) == rows - {first} && InOrder(rest)
    ensures Rows([first] + rest) == rows && InOrder([first] + rest)
  {
    hide Before;
    RowsHave(rest);
    var s := [first] + rest;
    forall r | r in rows ensures r in Rows(s) {
      if r == first {
        assert s[0] == r;
      } else {
        assert r in Rows(rest);
        var i :| 0 <= i < |rest| && rest[i] == r;
        assert s[i + 1] == r;
      }
    }
    forall r | r in Rows(s) ensures r in rows {
    }
  }

  lemma RowsHave(s: seq<Row>)
    ensures forall i :: 0 <= i < |s| ==> s[i] in Rows(s)
    ensures s != [] ==> s[0] in Rows(s)
  {
  }

  lemma {:induction false} OrderIsUnique(a: seq<Row>, b: seq<Row>)
    requires InOrder(a) && InOrder(b) && Rows(a) == Rows(b)
    ensures a == b
  {
    hide Before;
    if a == [] {
      RowsHave(b);
    } else {
      assert a[0] in Rows(b) && b != [] && b[0] in Rows(a);
      BeforeIsOrder(a[0].key, b[0].key, a[0].key);
      assert a[0] == b[0];
      TailRows(a);
      TailRows(b);
      OrderIsUnique(a[1..], b[1..]);
      assert a == [a[0]] + a[1..] && b == [b[0]] + b[1..];
    }
  }

  lemma TailRows(s: seq<Row>)
    requires InOrder(s) && s != []
    ensures Rows(s[1..]) == Rows(s) - {s[0]}
  {
    hide Before;
    forall r | r in Rows(s[1..]) ensures r != s[0] {
      var i :| 0 <= i < |s| - 1 && s[1..][i] == r;
      assert Before(s[0].key, s[i + 1].key);
      BeforeIsOrder(s[0].key, r.key, r.key);
    }
  }

  /** Cutting an ordered listing at one of its rows. */
  lemma OrderedCut(rows: Table, n: nat)
    requires UniqueIds(rows) && 0 < n <= |Ordered(rows)|
    ensures var s := Ordered(rows);
            && UniqueIds(RowsAfter(rows, s[n - 1].key)) && UniqueIds(RowsThrough(rows, s[n - 1].key))
            && Ordered(RowsAfter(rows, s[n - 1].key)) == s[n..]
            && Ordered(RowsThrough(rows, s[n - 1].key)) == s[..n]
  {
    hide Before, Ordered;
    var s := Ordered(rows);
    var key := s[n - 1].key;
    forall i | 0 <= i < |s| ensures (i < n <==> Before(s[i].key, key) || s[i].key == key)
           && (i >= n <==> Before(key, s[i].key)) {
      BeforeIsOrder(s[i].key, key, key);
    }
    assert Rows(s[n..]) == RowsAfter(rows, key) by {
      CutRows(s, n, key);
    }
    assert Rows(s[..n]) == RowsThrough(rows, key) by {
      CutRows(s, n, key);
    }
    OrderIsUnique(Ordered(RowsAfter(rows, key)), s[n..]);
    OrderIsUnique(Ordered(RowsThrough(rows, key)), s[..n]);
  }

  lemma CutRows(s: seq<Row>, n: nat, key: Key)
    requires n <= |s|
    requires forall i :: 0 <= i < |s| ==>
               (i < n <==> Before(s[i].key, key) || s[i].key == key) && (i >= n <==> Before(key, s[i].key))
    ensures Rows(s[n..]) == RowsAfter(Rows(s), key) && Rows(s[..n]) == RowsThrough(Rows(s), key)
  {
    hide Before;
    forall r | r in RowsAfter(Rows(s), key) ensures r in Rows(s[n..]) {
      var i :| 0 <= i < |s| && s[i] == r;
      assert s[n..][i - n] == r;
    }
    forall r | r in RowsThrough(Rows(s), key) ensures r in Rows(s[..n]) {
      var i :| 0 <= i < |s| && s[i] == r;
      assert s[..n][i] == r;
    }
    forall r | r in Rows(s[n..]) ensures r in RowsAfter(Rows(s), key) {
      var i :| 0 <= i < |s| - n && s[n..][i] == r;
      assert s[i + n] == r;
    }
  }

  // ------------------------------------------------------------------- one page

  type Digest = seq<Byte>

  datatype Watermark = Watermark(maxRowid: int, rowCount: int, snapshotDigest: Digest, prefixDigest: Digest)

  /** What a decoded cursor binds. */
  datatype Cursor = Cursor(scope: Scope, watermark: Watermark, ordering: Key)

  datatype PageError = LimitInvalid | CursorInvalid | Stale | DocumentInvalid

  datatype Page = Page(contexts: seq<Row>, next: Option<Cursor>)

  /** The code around the page: the snapshot digest of the rows, the validation of a stored
      document, whether a key can be put into a cursor, and the largest page. */
  datatype Environment = Environment(digest: seq<Row> -> Digest, valid: Row -> bool, encodable: Key -> bool,
                                     maxLimit: nat)

  const NO_KEY := Key([], [])

  /** `COALESCE(MAX(rowid), 0)` */
  function MaxRowid(s: seq<Row>): (m: int)
    ensures s != [] ==> exists i :: 0 <= i < |s| && s[i].rowid == m
    ensures forall i :: 0 <= i < |s| ==> s[i].rowid <= m
    ensures s == [] ==> m == 0
  {
    if s == [] then 0
    else if |s| == 1 then s[0].rowid
    else
      var rest := MaxRowid(s[1..]);
      if s[0].rowid > rest then s[0].rowid else rest
  }

  /** The snapshot of a table that a watermark row id names, in page order. */
  function Snapshot(t: Table, scope: Scope, maxRowid: int): (s: seq<Row>)
    requires UniqueIds(t)
    ensures Rows(s) == UpTo(t, scope, maxRowid) && InOrder(s)
  {
    Ordered(UpTo(t, scope, maxRowid))
  }

  lemma UpToIsUnique(t: Table, scope: Scope, maxRowid: int)
    requires UniqueIds(t)
    ensures UniqueIds(UpTo(t, scope, maxRowid))
  {
  }

  /** `compiled_context_snapshot_digest` with and without `through`. */
  function Through(t: Table, scope: Scope, maxRowid: int, key: Key): (s: seq<Row>)
    requires UniqueIds(t)
  {
    Ordered(RowsThrough(UpTo(t, scope, maxRowid), key))
  }

  function After(t: Table, scope: Scope, maxRowid: int, key: Key): (s: seq<Row>)
    requires UniqueIds(t)
  {
    Ordered(RowsAfter(UpTo(t, scope, maxRowid), key))
  }

  /** The checks made on a cursor against the table as it now is. */
  predicate Fresh(t: Table, cursor: Cursor, env: Environment)
    requires UniqueIds(t)
  {
    var w := cursor.watermark;
    var whole := Snapshot(t, cursor.scope, w.maxRowid);
    var through := Through(t, cursor.scope, w.maxRowid, cursor.ordering);
    && |whole| == w.rowCount && env.digest(whole) == w.snapshotDigest
    && env.digest(through) == w.prefixDigest
    && through != [] && through[|through| - 1].key == cursor.ordering
  }

  /** The watermark and position of the first page. */
  function FirstCursor(t: Table, scope: Scope, env: Environment): Cursor
    requires UniqueIds(t)
  {
    var all := Ordered(Matching(t, scope));
    var maxRowid := MaxRowid(all);
    Cursor(scope, Watermark(maxRowid, |all|, env.digest(Snapshot(t, scope, maxRowid)), []), NO_KEY)
  }

  /** `LIMIT n` */
  function Limited(s: seq<Row>, n: nat): seq<Row> {
    if |s| > n then s[..n] else s
  }

  predicate AllValid(rows: seq<Row>, env: Environment) {
    forall i :: 0 <= i < |rows| ==> env.valid(rows[i])
  }

  /** The page after a position that has been accepted. */
  function PageAfter(t: Table, at: Cursor, limit: nat, env: Environment): Result<Page, PageError>
    requires UniqueIds(t) && limit > 0
  {
    var w := at.watermark;
    var fetched := Limited(After(t, at.scope, w.maxRowid, at.ordering), limit + 1);
    if !AllValid(fetched, env) then Err(DocumentInvalid)
    else if |fetched| <= limit then Ok(Page(fetched, None))
    else
      var last := fetched[limit - 1].key;
      var through := Through(t, at.scope, w.maxRowid, last);
      if through == [] || through[|through| - 1].key != last then Err(Stale)
      else if !env.encodable(last) then Err(CursorInvalid)
      else Ok(Page(fetched[..limit], Some(Cursor(at.scope, w.(prefixDigest := env.digest(through)), last))))
  }

  /** `show_compiled_context` for a task session. */
  function ShowPage(t: Table, scope: Scope, limit: nat, cursor: Option<Cursor>, env: Environment)
    : Result<Page, PageError>
    requires UniqueIds(t)
  {
    if limit == 0 || limit > env.maxLimit then Err(LimitInvalid)
    else match cursor
      case None => PageAfter(t, FirstCursor(t, scope, env), limit, env)
      case Some(c) =>
        if c.scope != scope then Err(CursorInvalid)
        else if !Fresh(t, c, env) then Err(Stale)
        else PageAfter(t, c, limit, env)
  }

  // ------------------------------------------------------ what a page says of the table

  /** The rows that the pages of a scope are about, said of their columns. */
  predicate Belongs(r: Row, scope: Scope) {
    && r.workspace == scope.workspace && r.session == scope.session
    && r.version == [0x31, 0x2E, 0x30, 0x2E, 0x30]
  }

  /** Sorted by creation time, and at one time by id; both in dictionary order. */
  predicate Later(a: Key, b: Key) {
    Decimal.Less(b.createdAt, a.createdAt) || (a.createdAt == b.createdAt && Decimal.Less(b.contextId, a.contextId))
  }

  /** The rows a read may still show: of the scope, within the watermark if there is a cursor, and
      behind the cursor's key or the empty key. */
  ghost predicate Due(r: Row, t: Table, scope: Scope, cursor: Option<Cursor>) {
    && r in t && Belongs(r, scope)
    && match cursor
       case Some(c) => r.rowid <= c.watermark.maxRowid && Later(r.key, c.ordering)
       case None => Later(r.key, Key([], []))
  }

  /** A page holds the first of the rows that are due, each valid, in order, and says that there is
      more exactly when there is; its cursor stands at its last row. */
  ghost predicate PageTells(page: Page, t: Table, scope: Scope, limit: nat, cursor: Option<Cursor>, env: Environment) {
    && |page.contexts| <= limit
    && (forall i :: 0 <= i < |page.contexts| ==>
          Due(page.contexts[i], t, scope, cursor) && env.valid(page.contexts[i]))
    && (forall i, j :: 0 <= i < j < |page.contexts| ==> Later(page.contexts[j].key, page.contexts[i].key))
    && (page.next.None? ==> forall r :: Due(r, t, scope, cursor) ==> r in page.contexts)
    && (page.next.Some? ==>
          var c := page.next.value;
          && |page.contexts| == limit > 0 && c.scope == scope && c.ordering == page.contexts[limit - 1].key
          && (cursor.Some? ==> c.watermark.maxRowid == cursor.value.watermark.maxRowid)
          && (cursor.None? ==> forall r :: r in t && Belongs(r, scope) ==> r.rowid <= c.watermark.maxRowid)
          && (forall r :: Due(r, t, scope, cursor) ==> r in page.contexts || Later(r.key, c.ordering))
          && exists r :: Due(r, t, scope, cursor) && Later(r.key, c.ordering))
  }

  lemma LaterIsAfter(a: Key, b: Key)
    ensures Later(a, b) <==> Before(b, a)
  {
  }

  /** The rows that the query of a page reads are those due. */
  lemma AfterIsDue(t: Table, scope: Scope, cursor: Option<Cursor>, at: Cursor, r: Row, env: Environment)
    requires UniqueIds(t) && at == (match cursor case Some(c) => c case None => FirstCursor(t, scope, env))
    requires at.scope == scope
    ensures r in After(t, scope, at.watermark.maxRowid, at.ordering) <==> Due(r, t, scope, cursor)
  {
    hide Before, Later;
    var rows := RowsAfter(UpTo(t, scope, at.watermark.maxRowid), at.ordering);
    var s := After(t, scope, at.watermark.maxRowid, at.ordering);
    assert r in s <==> r in Rows(s);
    assert Rows(s) == rows;
    LaterIsAfter(r.key, at.ordering);
    FirstWatermark(t, scope, env);
  }

  /** No row of the scope is beyond the first page's watermark. */
  lemma FirstWatermark(t: Table, scope: Scope, env: Environment)
    requires UniqueIds(t)
    ensures forall r :: r in t && Belongs(r, scope) ==> r.rowid <= FirstCursor(t, scope, env).watermark.maxRowid
  {
    hide Before;
    var all := Ordered(Matching(t, scope));
    forall r | r in t && Belongs(r, scope)
      ensures r.rowid <= MaxRowid(all)
    {
      assert r in Rows(all);
      var i :| 0 <= i < |all| && all[i] == r;
    }
  }

  lemma PageAfterTells(t: Table, scope: Scope, limit: nat, cursor: Option<Cursor>, at: Cursor, env: Environment)
    requires UniqueIds(t) && limit > 0
    requires at == (match cursor case Some(c) => c case None => FirstCursor(t, scope, env))
    requires at.scope == scope
    ensures PageAfter(t, at, limit, env).Ok? ==>
              PageTells(PageAfter(t, at, limit, env).value, t, scope, limit, cursor, env)
  {
    hide PageAfter, PageTells, After, FirstCursor, Due;
    if PageAfter(t, at, limit, env).Ok? {
      var s := After(t, scope, at.watermark.maxRowid, at.ordering);
      PageShape(t, at, limit, env);
      forall r
        ensures r in s <==> Due(r, t, scope, cursor)
      {
        AfterIsDue(t, scope, cursor, at, r, env);
      }
      AfterInOrder(t, scope, at.watermark.maxRowid, at.ordering);
      if cursor.None? {
        FirstWatermark(t, scope, env);
      }
      ListingTells(PageAfter(t, at, limit, env).value, s, t, scope, limit, cursor, at, env);
    }
  }

  /** What a page takes of the listing it reads. */
  ghost predicate TakesFirst(page: Page, s: seq<Row>, limit: nat, at: Cursor, env: Environment) {
    && page.contexts == Limited(s, limit) && AllValid(page.contexts, env)
    && (page.next.None? <==> |s| <= limit)
    && (page.next.Some? ==>
          0 < limit < |s| && page.next.value.scope == at.scope && page.next.value.ordering == s[limit - 1].key
          && page.next.value.watermark.maxRowid == at.watermark.maxRowid)
  }

  lemma PageShape(t: Table, at: Cursor, limit: nat, env: Environment)
    requires UniqueIds(t) && limit > 0 && PageAfter(t, at, limit, env).Ok?
    ensures TakesFirst(PageAfter(t, at, limit, env).value, After(t, at.scope, at.watermark.maxRowid, at.ordering),
                       limit, at, env)
  {
    hide After, Through;
    var s := After(t, at.scope, at.watermark.maxRowid, at.ordering);
    assert forall i :: 0 <= i < |Limited(s, limit)| ==> Limited(s, limit)[i] == Limited(s, limit + 1)[i];
  }

  lemma ListingTells(page: Page, s: seq<Row>, t: Table, scope: Scope, limit: nat, cursor: Option<Cursor>, at: Cursor,
                     env: Environment)
    requires TakesFirst(page, s, limit, at, env) && InOrder(s) && at.scope == scope && limit > 0
    requires cursor.Some? ==> at == cursor.value
    requires cursor.None? ==> forall r :: r in t && Belongs(r, scope) ==> r.rowid <= at.watermark.maxRowid
    requires forall r :: r in s <==> Due(r, t, scope, cursor)
    ensures PageTells(page, t, scope, limit, cursor, env)
  {
    hide Due, Later, InOrder;
    var n := |page.contexts|;
    assert page.contexts == s[..n];
    SlicesTell(s, n);
    forall i | 0 <= i < n
      ensures Due(page.contexts[i], t, scope, cursor)
    {
      assert s[i] in s;
    }
    if page.next.Some? {
      assert s[n] in s;
    }
  }

  lemma AfterInOrder(t: Table, scope: Scope, maxRowid: int, key: Key)
    requires UniqueIds(t)
    ensures InOrder(After(t, scope, maxRowid, key))
  {
    hide Ordered, Before;
    UpToIsUnique(t, scope, maxRowid);
  }

  /** In an ordered listing, the rows behind its first `n` come later than those. */
  lemma SlicesTell(s: seq<Row>, n: nat)
    requires InOrder(s) && n <= |s|
    ensures forall i, j :: 0 <= i < j < n ==> Later(s[j].key, s[i].key)
    ensures forall r :: r in s ==> r in s[..n] || (n > 0 ==> Later(r.key, s[n - 1].key))
    ensures 0 < n < |s| ==> Later(s[n].key, s[n - 1].key)
  {
    hide Before, Later;
    forall i, j | 0 <= i < j < |s|
      ensures Later(s[j].key, s[i].key)
    {
      LaterIsAfter(s[j].key, s[i].key);
    }
    assert forall j :: 0 <= j < n ==> s[..n][j] == s[j];
    forall r | r in s && r !in s[..n] && n > 0
      ensures Later(r.key, s[n - 1].key)
    {
      var j :| 0 <= j < |s| && s[j] == r;
    }
  }

  /** The rows, in order, that a digest of a cursor is over: those of its scope within its
      watermark, all of them or up to its key. */
  ghost predicate Covers(s: seq<Row>, t: Table, c: Cursor, all: bool) {
    && (forall i, j :: 0 <= i < j < |s| ==> Later(s[j].key, s[i].key))
    && forall r :: r in s <==> r in t && Belongs(r, c.scope) && r.rowid <= c.watermark.maxRowid
                               && (all || !Later(r.key, c.ordering))
  }

  /** The table still has the row at the cursor, and the rows that it counted and digested. */
  ghost predicate StillStands(t: Table, c: Cursor, env: Environment) {
    && (exists r :: r in t && Belongs(r, c.scope) && r.rowid <= c.watermark.maxRowid && r.key == c.ordering)
    && exists whole, part ::
         && Covers(whole, t, c, true) && Covers(part, t, c, false) && |whole| == c.watermark.rowCount
         && env.digest(whole) == c.watermark.snapshotDigest && env.digest(part) == c.watermark.prefixDigest
  }

  lemma FreshIff(t: Table, c: Cursor, env: Environment)
    requires UniqueIds(t)
    ensures Fresh(t, c, env) <==> StillStands(t, c, env)
  {
    hide Covers, Ordered, Before, Later, Belongs;
    var whole := Snapshot(t, c.scope, c.watermark.maxRowid);
    var part := Through(t, c.scope, c.watermark.maxRowid, c.ordering);
    WholeIsCovered(t, c);
    PartIsCovered(t, c);
    forall s, all | Covers(s, t, c, all)
      ensures s == if all then whole else part
    {
      CoveredIsOne(s, if all then whole else part, t, c, all);
    }
    LastStands(t, c);
  }

  lemma WholeIsCovered(t: Table, c: Cursor)
    requires UniqueIds(t)
    ensures Covers(Snapshot(t, c.scope, c.watermark.maxRowid), t, c, true)
  {
    hide Ordered, Before, Later;
    var s := Snapshot(t, c.scope, c.watermark.maxRowid);
    forall r
      ensures r in s <==> r in UpTo(t, c.scope, c.watermark.maxRowid)
    {
      assert r in s <==> r in Rows(s);
    }
    SlicesTell(s, |s|);
  }

  lemma PartIsCovered(t: Table, c: Cursor)
    requires UniqueIds(t)
    ensures Covers(Through(t, c.scope, c.watermark.maxRowid, c.ordering), t, c, false)
  {
    hide Ordered, Before, Later;
    UpToIsUnique(t, c.scope, c.watermark.maxRowid);
    var s := Through(t, c.scope, c.watermark.maxRowid, c.ordering);
    forall r
      ensures r in s <==> r in UpTo(t, c.scope, c.watermark.maxRowid) && !Later(r.key, c.ordering)
    {
      assert r in s <==> r in Rows(s);
      LaterIsAfter(r.key, c.ordering);
      BeforeIsOrder(r.key, c.ordering, r.key);
    }
    SlicesTell(s, |s|);
  }

  lemma CoveredIsOne(a: seq<Row>, b: seq<Row>, t: Table, c: Cursor, all: bool)
    requires Covers(a, t, c, all) && Covers(b, t, c, all)
    ensures a == b
  {
    hide Before, Later;
    forall i, j | 0 <= i < j < |a|
      ensures Before(a[i].key, a[j].key)
    {
      LaterIsAfter(a[j].key, a[i].key);
    }
    forall i, j | 0 <= i < j < |b|
      ensures Before(b[i].key, b[j].key)
    {
      LaterIsAfter(b[j].key, b[i].key);
    }
    forall r
      ensures r in Rows(a) <==> r in Rows(b)
    {
      assert r in a <==> r in b;
    }
    OrderIsUnique(a, b);
  }

  /** The rows up to a key end with it exactly when one of them has it. */
  lemma LastStands(t: Table, c: Cursor)
    requires UniqueIds(t)
    ensures var s := Through(t, c.scope, c.watermark.maxRowid, c.ordering);
            s != [] && s[|s| - 1].key == c.ordering <==>
            exists r :: r in t && Belongs(r, c.scope) && r.rowid <= c.watermark.maxRowid && r.key == c.ordering
  {
    hide Ordered, Before, Later, Belongs;
    PartIsCovered(t, c);
    var s := Through(t, c.scope, c.watermark.maxRowid, c.ordering);
    LaterIsAfter(c.ordering, c.ordering);
    BeforeIsOrder(c.ordering, c.ordering, c.ordering);
    if s != [] {
      assert s[|s| - 1] in s;
      assert forall k :: 0 <= k < |s| - 1 ==> Later(s[|s| - 1].key, s[k].key);
    }
    if r :| r in t && Belongs(r, c.scope) && r.rowid <= c.watermark.maxRowid && r.key == c.ordering {
      assert r in s;
      var i :| 0 <= i < |s| && s[i] == r;
    }
  }

  lemma PageIsNotStale(t: Table, at: Cursor, limit: nat, env: Environment)
    requires UniqueIds(t) && limit > 0
    ensures PageAfter(t, at, limit, env) != Err(Stale)
  {
    hide Ordered, Before, Through;
    var rest := After(t, at.scope, at.watermark.maxRowid, at.ordering);
    if |rest| > limit {
      var row := rest[limit - 1];
      assert row in Rows(rest);
      assert Belongs(row, at.scope);
      LastStands(t, at.(ordering := row.key));
    }
  }

  lemma StaleIff(t: Table, scope: Scope, limit: nat, cursor: Option<Cursor>, env: Environment)
    requires UniqueIds(t)
    ensures ShowPage(t, scope, limit, cursor, env) == Err(Stale) <==>
            0 < limit <= env.maxLimit && cursor.Some? && cursor.value.scope == scope
            && !StillStands(t, cursor.value, env)
  {
    hide PageAfter, Fresh, StillStands;
    if cursor.Some? {
      FreshIff(t, cursor.value, env);
    }
    if limit > 0 {
      PageIsNotStale(t, match cursor case Some(c) => c case None => FirstCursor(t, scope, env), limit, env);
    }
  }

  /** A page shows what is due, and a cursor is stale exactly when the rows that it counted are
      no longer the same. */
  ghost predicate AnswerTells(r: Result<Page, PageError>, t: Table, scope: Scope, limit: nat, cursor: Option<Cursor>,
                              env: Environment)
  {
    && (r.Ok? ==> PageTells(r.value, t, scope, limit, cursor, env) && 0 < limit <= env.maxLimit)
    && (r == Err(Stale) <==> 0 < limit <= env.maxLimit && cursor.Some? && cursor.value.scope == scope
                             && !StillStands(t, cursor.value, env))
  }

  lemma ShowPageTells(t: Table, scope: Scope, limit: nat, cursor: Option<Cursor>, env: Environment)
    requires UniqueIds(t)
    ensures AnswerTells(ShowPage(t, scope, limit, cursor, env), t, scope, limit, cursor, env)
  {
    hide PageTells, PageAfter, Fresh, StillStands;
    StaleIff(t, scope, limit, cursor, env);
    if ShowPage(t, scope, limit, cursor, env).Ok? {
      var at := match cursor case Some(c) => c case None => FirstCursor(t, scope, env);
      PageAfterTells(t, scope, limit, cursor, at, env);
    }
  }

  /** The row loop: validate each fetched row and collect it. */
  method CollectRows(fetched: seq<Row>, env: Environment) returns (contexts: Option<seq<Row>>)
    ensures contexts == if AllValid(fetched, env) then Some(fetched) else None
  {
    var collected: seq<Row> := [];
    for i := 0 to |fetched|
      invariant collected == fetched[..i] && forall j :: 0 <= j < i ==> env.valid(fetched[j])
    {
      if !env.valid(fetched[i]) {
        return None;
      }
      collected := collected + [fetched[i]];
    }
    assert collected == fetched;
    return Some(collected);
  }

  method ShowCompiledContext(t: Table, scope: Scope, limit: nat, cursor: Option<Cursor>, env: Environment)
    returns (r: Result<Page, PageError>)
    requires UniqueIds(t)
    ensures r == ShowPage(t, scope, limit, cursor, env)
    ensures AnswerTells(r, t, scope, limit, cursor, env)
  {
    ShowPageTells(t, scope, limit, cursor, env);
    hide AnswerTells;
    hide Ordered, RowsAfter, RowsThrough, UpTo, Matching, Before, AllValid;
    if limit == 0 || limit > env.maxLimit {
      return Err(LimitInvalid);
    }
    var at := FirstCursor(t, scope, env);
    if cursor.Some? {
      if cursor.value.scope != scope {
        return Err(CursorInvalid);
      }
      if !Fresh(t, cursor.value, env) {
        return Err(Stale);
      }
      at := cursor.value;
    }
    var collected := CollectRows(Limited(After(t, scope, at.watermark.maxRowid, at.ordering), limit + 1), env);
    if collected.None? {
      return Err(DocumentInvalid);
    }
    var contexts := collected.value;
    var hasMore := |contexts| > limit;
    if !hasMore {
      return Ok(Page(contexts, None));
    }
    contexts := contexts[..limit];
    var last := contexts[limit - 1].key;
    var through := Through(t, scope, at.watermark.maxRowid, last);
    if through == [] || through[|through| - 1].key != last {
      return Err(Stale);
    }
    if !env.encodable(last) {
      return Err(CursorInvalid);
    }
    return Ok(Page(contexts, Some(Cursor(scope, at.watermark.(prefixDigest := env.digest(through)), last))));
  }

  // ----------------------------------------------------------- a run of page reads

  ghost predicate InjectiveDigest(env: Environment) {
    forall a, b :: env.digest(a) == env.digest(b) ==> a == b
  }

  /** The rows that pages can show: the first page starts strictly after the empty key. */
  function Visible(s: seq<Row>): seq<Row> {
    if s != [] && s[0].key == NO_KEY then s[1..] else s
  }

  lemma NoKeyIsFirst(key: Key)
    ensures Before(NO_KEY, key) <==> key != NO_KEY
  {
    LessFromNothing(key.createdAt);
    LessFromNothing(key.contextId);
  }

  lemma LessFromNothing(a: Text)
    ensures Decimal.Less([], a) <==> a != []
  {
  }

  lemma AfterNoKey(t: Table, scope: Scope, maxRowid: int)
    requires UniqueIds(t)
    ensures After(t, scope, maxRowid, NO_KEY) == Visible(Snapshot(t, scope, maxRowid))
  {
    hide Before, Ordered;
    var rows := UpTo(t, scope, maxRowid);
    var s := Snapshot(t, scope, maxRowid);
    forall r | r in rows ensures Before(NO_KEY, r.key) <==> r.key != NO_KEY {
      NoKeyIsFirst(r.key);
    }
    RowsHave(s);
    forall i | 0 < i < |s| ensures s[i].key != NO_KEY {
      assert Before(s[0].key, s[i].key);
      BeforeIsOrder(s[0].key, s[i].key, NO_KEY);
      NoKeyIsFirst(s[0].key);
    }
    if s != [] && s[0].key == NO_KEY {
      TailRows(s);
      assert Rows(s[1..]) == RowsAfter(rows, NO_KEY);
      OrderIsUnique(s[1..], After(t, scope, maxRowid, NO_KEY));
    } else {
      assert Rows(s) == RowsAfter(rows, NO_KEY);
      OrderIsUnique(s, After(t, scope, maxRowid, NO_KEY));
    }
  }

  /** A cursor that stands `shown` visible rows into the snapshot `s`. */
  ghost predicate At(c: Cursor, s: seq<Row>, scope: Scope, maxRowid: int, shown: nat, env: Environment) {
    && c.scope == scope && c.watermark.maxRowid == maxRowid
    && c.watermark.rowCount == |s| && c.watermark.snapshotDigest == env.digest(s)
    && (if shown == 0 then c.ordering == NO_KEY
        else
          var n := shown + |s| - |Visible(s)|;
          n <= |s| && c.ordering == s[n - 1].key && c.watermark.prefixDigest == env.digest(s[..n]))
  }

  /** The first page's cursor stands at the start of the snapshot of every matching row. */
  lemma FirstCursorIsAtStart(t: Table, scope: Scope, env: Environment)
    requires UniqueIds(t)
    ensures var c := FirstCursor(t, scope, env);
            && Snapshot(t, scope, c.watermark.maxRowid) == Ordered(Matching(t, scope))
            && At(c, Ordered(Matching(t, scope)), scope, c.watermark.maxRowid, 0, env)
  {
    hide Before, Ordered;
    var all := Ordered(Matching(t, scope));
    var m := MaxRowid(all);
    forall r | r in Matching(t, scope) ensures r.rowid <= m {
      assert r in Rows(all);
    }
    assert UpTo(t, scope, m) == Matching(t, scope);
  }

  /** From a cursor at a position of `s`, a page is the next rows of `s`, and its cursor
      stands after them. */
  lemma PageIsNextSlice(t: Table, c: Cursor, s: seq<Row>, scope: Scope, maxRowid: int, shown: nat, limit: nat,
                        env: Environment)
    requires UniqueIds(t) && limit > 0
    requires s == Snapshot(t, scope, maxRowid) && shown <= |Visible(s)|
    requires At(c, s, scope, maxRowid, shown, env)
    ensures var r := PageAfter(t, c, limit, env);
            var rest := Visible(s)[shown..];
            && (r.Ok? <==> AllValid(Limited(rest, limit + 1), env)
                           && (|rest| > limit ==> env.encodable(rest[limit - 1].key)))
            && (r.Ok? ==> r.value.contexts == Limited(rest, limit) && (r.value.next.None? <==> |rest| <= limit))
            && (r.Ok? && r.value.next.Some? ==> At(r.value.next.value, s, scope, maxRowid, shown + limit, env))
            && r != Err(Stale)
  {
    hide Before, Ordered, AllValid, Visible, Through, After, Snapshot;
    var rest := Visible(s)[shown..];
    RestAfterCursor(t, c, s, scope, maxRowid, shown, env);
    VisibleIsTail(s);
    if |rest| > limit {
      assert Limited(rest, limit + 1)[limit - 1] == rest[limit - 1];
      ThroughLast(t, s, scope, maxRowid, shown + limit);
      assert rest[limit - 1] == Visible(s)[shown + limit - 1];
      assert Limited(rest, limit + 1)[..limit] == rest[..limit];
    }
  }

  lemma VisibleIsTail(s: seq<Row>)
    ensures |Visible(s)| <= |s| && Visible(s) == s[|s| - |Visible(s)|..]
  {
  }

  lemma RestAfterCursor(t: Table, c: Cursor, s: seq<Row>, scope: Scope, maxRowid: int, shown: nat, env: Environment)
    requires UniqueIds(t) && s == Snapshot(t, scope, maxRowid) && shown <= |Visible(s)|
    requires At(c, s, scope, maxRowid, shown, env)
    ensures After(t, scope, maxRowid, c.ordering) == Visible(s)[shown..]
  {
    hide Before, Ordered, RowsAfter, RowsThrough, UpTo, Matching, Visible;
    UpToIsUnique(t, scope, maxRowid);
    VisibleIsTail(s);
    if shown == 0 {
      AfterNoKey(t, scope, maxRowid);
    } else {
      OrderedCut(UpTo(t, scope, maxRowid), shown + |s| - |Visible(s)|);
    }
  }

  /** The prefix that a page's cursor digests ends with the page's last row. */
  lemma ThroughLast(t: Table, s: seq<Row>, scope: Scope, maxRowid: int, shown: nat)
    requires UniqueIds(t) && s == Snapshot(t, scope, maxRowid) && 0 < shown <= |Visible(s)|
    ensures var n := shown + |s| - |Visible(s)|;
            && n <= |s| && Visible(s)[shown - 1] == s[n - 1]
            && Through(t, scope, maxRowid, s[n - 1].key) == s[..n]
  {
    hide Before, Ordered, RowsAfter, RowsThrough, UpTo, Matching, Visible;
    UpToIsUnique(t, scope, maxRowid);
    VisibleIsTail(s);
    OrderedCut(UpTo(t, scope, maxRowid), shown + |s| - |Visible(s)|);
  }

  /** A cursor is fresh exactly when the rows up to its watermark are those of its snapshot. */
  lemma FreshIffUnchanged(t: Table, c: Cursor, s: seq<Row>, scope: Scope, maxRowid: int, shown: nat, env: Environment)
    requires UniqueIds(t) && InjectiveDigest(env) && InOrder(s)
    requires At(c, s, scope, maxRowid, shown, env) && 0 < shown <= |Visible(s)|
    ensures Fresh(t, c, env) <==> UpTo(t, scope, maxRowid) == Rows(s)
  {
    hide Before, Ordered, RowsAfter, RowsThrough, UpTo, Matching, InOrder, UniqueIds;
    UpToIsUnique(t, scope, maxRowid);
    var whole := Snapshot(t, scope, maxRowid);
    if Fresh(t, c, env) {
      assert whole == s;
    }
    if UpTo(t, scope, maxRowid) == Rows(s) {
      OrderIsUnique(whole, s);
      OrderedCut(UpTo(t, scope, maxRowid), shown + |s| - |Visible(s)|);
    }
  }

  /** Follow the cursors: page k reads the table as it is then. */
  function Follow(tables: seq<Table>, limits: seq<nat>, scope: Scope,
                  env: Environment): (r: Result<(seq<Row>, Option<Cursor>), PageError>)
    requires |tables| == |limits| && |tables| > 0
    requires forall k :: 0 <= k < |tables| ==> UniqueIds(tables[k])
  {
    var n := |tables| - 1;
    if n == 0 then
      match ShowPage(tables[0], scope, limits[0], None, env)
      case Err(e) => Err(e)
      case Ok(page) => Ok((page.contexts, page.next))
    else
      match Follow(tables[..n], limits[..n], scope, env)
      case Err(e) => Err(e)
      case Ok((rows, cursor)) =>
        if cursor.None? then Ok((rows, None))
        else match ShowPage(tables[n], scope, limits[n], cursor, env)
          case Err(e) => Err(e)
          case Ok(page) => Ok((rows + page.contexts, page.next))
  }

  /** Under any changes of the table between reads and any limits, the rows returned so far
      are a prefix of the first page's snapshot, in order, with no row skipped or repeated;
      the whole of it when no cursor is left; and a cursor left stands right after them. */
  lemma {:induction false} PagesAreTheSnapshot(tables: seq<Table>, limits: seq<nat>, scope: Scope, env: Environment)
    requires |tables| == |limits| && |tables| > 0 && InjectiveDigest(env)
    requires forall k :: 0 <= k < |tables| ==> UniqueIds(tables[k])
    requires Follow(tables, limits, scope, env).Ok?
    ensures var (rows, cursor) := Follow(tables, limits, scope, env).value;
            var s := Ordered(Matching(tables[0], scope));
            && rows <= Visible(s)
            && (cursor.None? ==> rows == Visible(s))
            && (cursor.Some? ==> 0 < |rows| < |Visible(s)| && At(cursor.value, s, scope, MaxRowid(s), |rows|, env))
  {
    hide Before, Ordered, UpTo, AllValid, Visible, ShowPage, At, Matching;
    var n := |tables| - 1;
    MatchingIsUnique(tables[0], scope);
    var s := Ordered(Matching(tables[0], scope));
    if n == 0 {
      FirstPage(tables[0], s, scope, limits[0], env);
    } else {
      PagesAreTheSnapshot(tables[..n], limits[..n], scope, env);
      var (rows, cursor) := Follow(tables[..n], limits[..n], scope, env).value;
      if cursor.Some? {
        NextPage(tables[n], cursor.value, s, scope, |rows|, limits[n], env);
        assert Visible(s) == rows + Visible(s)[|rows|..];
      }
    }
  }

  lemma MatchingIsUnique(t: Table, scope: Scope)
    requires UniqueIds(t)
    ensures UniqueIds(Matching(t, scope))
  {
  }

  lemma FirstPage(t: Table, s: seq<Row>, scope: Scope, limit: nat, env: Environment)
    requires UniqueIds(t) && UniqueIds(Matching(t, scope)) && s == Ordered(Matching(t, scope))
    requires ShowPage(t, scope, limit, None, env).Ok?
    ensures 0 < limit <= env.maxLimit
    ensures var page := ShowPage(t, scope, limit, None, env).value;
            && page.contexts == Limited(Visible(s), limit) && (page.next.None? <==> |Visible(s)| <= limit)
            && (page.next.Some? ==> At(page.next.value, s, scope, MaxRowid(s), limit, env))
  {
    hide Before, Ordered, UpTo, AllValid, Visible, At, Matching, MaxRowid;
    FirstCursorIsAtStart(t, scope, env);
    PageIsNextSlice(t, FirstCursor(t, scope, env), s, scope, MaxRowid(s), 0, limit, env);
    assert Visible(s)[0..] == Visible(s);
  }

  /** Following a cursor: stale just when the snapshot's rows have changed, else the next slice. */
  lemma NextPage(t: Table, c: Cursor, s: seq<Row>, scope: Scope, shown: nat, limit: nat, env: Environment)
    requires UniqueIds(t) && InjectiveDigest(env) && InOrder(s)
    requires 0 < shown < |Visible(s)| && At(c, s, scope, MaxRowid(s), shown, env)
    ensures var r := ShowPage(t, scope, limit, Some(c), env);
            var rest := Visible(s)[shown..];
            && (r == Err(Stale) <==> 0 < limit <= env.maxLimit && UpTo(t, scope, MaxRowid(s)) != Rows(s))
            && (r.Ok? ==> limit > 0)
            && (r.Ok? ==> r.value.contexts == Limited(rest, limit) && (r.value.next.None? <==> |rest| <= limit))
            && (r.Ok? && r.value.next.Some? ==> At(r.value.next.value, s, scope, MaxRowid(s), shown + limit, env))
  {
    hide Before, Ordered, UpTo, Matching, AllValid;
    FreshIffUnchanged(t, c, s, scope, MaxRowid(s), shown, env);
    if Fresh(t, c, env) && limit > 0 {
      OrderIsUnique(Snapshot(t, scope, MaxRowid(s)), s);
      PageIsNextSlice(t, c, s, scope, MaxRowid(s), shown, limit, env);
    }
  }

  /** Rows beyond the watermark, whatever is added, removed or changed there, neither make
      the cursor stale nor change the page. */
  lemma RowsBeyondWatermarkAreInvisible(t: Table, t': Table, c: Cursor, limit: nat, env: Environment)
    requires UniqueIds(t) && UniqueIds(t')
    requires UpTo(t, c.scope, c.watermark.maxRowid) == UpTo(t', c.scope, c.watermark.maxRowid)
    ensures ShowPage(t, c.scope, limit, Some(c), env) == ShowPage(t', c.scope, limit, Some(c), env)
  {
    hide Ordered, UpTo, RowsAfter, RowsThrough;
  }

  /** A row is never shown exactly when its creation time and id are both empty. */
  lemma OnlyTheEmptyKeyIsHidden(s: seq<Row>)
    requires InOrder(s)
    ensures Visible(s) == s <==> forall i :: 0 <= i < |s| ==> s[i].key != NO_KEY
  {
    hide Before;
    forall i | 0 < i < |s| ensures s[i].key != NO_KEY {
      assert Before(s[0].key, s[i].key);
      BeforeIsOrder(s[0].key, NO_KEY, s[i].key);
      NoKeyIsFirst(s[0].key);
    }
  }

  /** A followed run, row by row: what it returns is ascending, so nothing comes twice; it is all of
      the first table's, of the scope and with a key; and once no cursor is left it is every such
      row. */
  lemma RunTells(tables: seq<Table>, limits: seq<nat>, scope: Scope, env: Environment)
    requires |tables| == |limits| && |tables| > 0 && InjectiveDigest(env)
    requires forall k :: 0 <= k < |tables| ==> UniqueIds(tables[k])
    requires Follow(tables, limits, scope, env).Ok?
    ensures var (rows, cursor) := Follow(tables, limits, scope, env).value;
            && (forall i, j :: 0 <= i < j < |rows| ==> Later(rows[j].key, rows[i].key))
            && (forall r :: r in rows ==> r in tables[0] && Belongs(r, scope) && r.key != Key([], []))
            && (cursor.None? ==>
                  forall r :: r in tables[0] && Belongs(r, scope) && r.key != Key([], []) ==> r in rows)
  {
    var (rows, cursor) := Follow(tables, limits, scope, env).value;
    PagesAreTheSnapshot(tables, limits, scope, env);
    MatchingIsUnique(tables[0], scope);
    hide Follow, At;
    var s := Ordered(Matching(tables[0], scope));
    VisibleTells(s);
    forall r
      ensures r in s <==> r in tables[0] && Belongs(r, scope)
    {
      assert r in s <==> r in Rows(s);
    }
    hide Ordered, Matching, Belongs, Visible, Later;
    forall i, j | 0 <= i < j < |rows|
      ensures Later(rows[j].key, rows[i].key)
    {
      assert rows[i] == Visible(s)[i] && rows[j] == Visible(s)[j];
    }
    forall r | r in rows
      ensures r in Visible(s)
    {
      var i :| 0 <= i < |rows| && rows[i] == r;
      assert Visible(s)[i] == r;
    }
  }

  /** Of an ordered listing, the rows that pages show are ascending, and are those with a key. */
  lemma VisibleTells(s: seq<Row>)
    requires InOrder(s)
    ensures forall i, j :: 0 <= i < j < |Visible(s)| ==> Later(Visible(s)[j].key, Visible(s)[i].key)
    ensures forall r :: r in Visible(s) <==> r in s && r.key != Key([], [])
  {
    hide Before, Later;
    VisibleIsTail(s);
    var skipped := |s| - |Visible(s)|;
    forall i, j | 0 <= i < j < |Visible(s)|
      ensures Later(Visible(s)[j].key, Visible(s)[i].key)
    {
      assert Before(s[skipped + i].key, s[skipped + j].key);
      LaterIsAfter(Visible(s)[j].key, Visible(s)[i].key);
    }
    forall i | 0 < i < |s|
      ensures s[i].key != NO_KEY
    {
      assert Before(s[0].key, s[i].key);
      BeforeIsOrder(s[0].key, NO_KEY, s[i].key);
      NoKeyIsFirst(s[0].key);
    }
    forall r | r in s && r.key != NO_KEY
      ensures r in Visible(s)
    {
      var i :| 0 <= i < |s| && s[i] == r;
      assert i >= skipped && Visible(s)[i - skipped] == r;
    }
    forall r | r in Visible(s)
      ensures r in s && r.key != NO_KEY
    {
      var i :| 0 <= i < |Visible(s)| && Visible(s)[i] == r;
      assert s[skipped + i] == r;
    }
  }
}
