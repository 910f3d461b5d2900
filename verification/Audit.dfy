/** The SQLite audit sink: an append-only table and filtered keyset paging by id. */
module Audit {
  import opened Base
  import opened Keyset
  import opened Sorting

  datatype AuditPath = NoPath | One(path: string) | Many(paths: seq<string>)

  datatype AuditRow = AuditRow(timestamp: string, userId: string, operation: string, path: Option<string>,
                               piiAccessed: bool)

  datatype AuditFilter = AuditFilter(userId: string, pathPrefix: string, piiOnly: bool, operation: string,
                                     fromTs: string, toTs: string)

  /** One condition of the WHERE clause. */
  datatype Clause =
    | UserIs(userId: string)
    | PathLike(pattern: string)
    | PiiAccessed
    | OperationIs(operation: string)
    | NotBefore(ts: string)
    | NotAfter(ts: string)
    | IdAfter(id: string)

  const PAGE_SIZE := 200

  /** SQL's LIKE is a parameter. */
  predicate Holds(c: Clause, row: Keyed<AuditRow>, like: (string, string) -> bool) {
    match c
    case UserIs(u) => row.item.userId == u
    case PathLike(pattern) => row.item.path.Some? && like(row.item.path.value, pattern)
    case PiiAccessed => row.item.piiAccessed
    case OperationIs(o) => row.item.operation == o
    case NotBefore(ts) => !Less(row.item.timestamp, ts)
    case NotAfter(ts) => !Less(ts, row.item.timestamp)
    case IdAfter(id) => Less(id, row.key)
  }

  /** What the filter asks for; empty fields ask for nothing. */
  predicate Matches(f: AuditFilter, row: Keyed<AuditRow>, like: (string, string) -> bool) {
    && (f.userId != "" ==> row.item.userId == f.userId)
    && (f.pathPrefix != "" ==> row.item.path.Some? && like(row.item.path.value, f.pathPrefix + "%"))
    && (f.piiOnly ==> row.item.piiAccessed)
    && (f.operation != "" ==> row.item.operation == f.operation)
    && (f.fromTs != "" ==> !Less(row.item.timestamp, f.fromTs))
    && (f.toTs != "" ==> !Less(f.toTs, row.item.timestamp))
  }

  predicate AllHold(clauses: seq<Clause>, row: Keyed<AuditRow>, like: (string, string) -> bool) {
    forall i :: 0 <= i < |clauses| ==> Holds(clauses[i], row, like)
  }

  function Matcher(f: AuditFilter, like: (string, string) -> bool): Keyed<AuditRow> -> bool {
    row => Matches(f, row, like)
  }

  function Conjunction(clauses: seq<Clause>, like: (string, string) -> bool): Keyed<AuditRow> -> bool {
    row => AllHold(clauses, row, like)
  }

  /** All matching rows in id order. */
  function View(table: seq<Keyed<AuditRow>>, f: AuditFilter, like: (string, string) -> bool): seq<Keyed<AuditRow>> {
    Sort(Filter(table, Matcher(f, like)))
  }

  ghost predicate TableOk(table: seq<Keyed<AuditRow>>) {
    DistinctKeys(table) && forall i :: 0 <= i < |table| ==> table[i].key != ""
  }

  lemma {:induction false} FilterKeepsKeysApart(table: seq<Keyed<AuditRow>>, keep: Keyed<AuditRow> -> bool)
    requires DistinctKeys(table)
    ensures DistinctKeys(Filter(table, keep))
  {
    if table != [] {
      var rest := Filter(table[1..], keep);
      FilterKeepsKeysApart(table[1..], keep);
      forall j | 0 <= j < |rest| ensures rest[j].key != table[0].key {
        assert rest[j] in rest;
        var k :| 0 <= k < |table[1..]| && table[1..][k] == rest[j];
        assert table[0].key != table[k + 1].key;
      }
      if keep(table[0]) { assert Filter(table, keep) == [table[0]] + rest; } else { assert [] + rest == rest; }
    }
  }

  lemma ViewHas(table: seq<Keyed<AuditRow>>, f: AuditFilter, like: (string, string) -> bool, r: Keyed<AuditRow>)
    ensures r in View(table, f, like) <==> r in table && Matches(f, r, like)
  {
    SortHas(Filter(table, Matcher(f, like)), r);
    assert Matcher(f, like)(r) <==> Matches(f, r, like);
  }

  lemma ViewIsSound(table: seq<Keyed<AuditRow>>, f: AuditFilter, like: (string, string) -> bool)
    requires TableOk(table)
    ensures Sound(View(table, f, like))
  {
    FilterKeepsKeysApart(table, Matcher(f, like));
    SortAscends(Filter(table, Matcher(f, like)));
    var view := View(table, f, like);
    forall i | 0 <= i < |view| ensures view[i].key != "" {
      assert view[i] in view;
      ViewHas(table, f, like, view[i]);
    }
  }

  /** Rows selected with `id > cursor` are the part of the view after the cursor. */
  lemma SelectedIsTheRest(table: seq<Keyed<AuditRow>>, f: AuditFilter, like: (string, string) -> bool,
                          cursor: Option<string>, keep: Keyed<AuditRow> -> bool)
    requires TableOk(table)
    requires forall r :: keep(r) <==> Matches(f, r, like) && After(r.key, cursor)
    ensures Sort(Filter(table, keep)) == View(table, f, like)[Start(View(table, f, like), cursor)..]
  {
    hide Matches, Less, Sort, View, Start;
    var view := View(table, f, like);
    var start := Start(view, cursor);
    ViewIsSound(table, f, like);
    StartSplits(view, cursor);
    FilterKeepsKeysApart(table, keep);
    SortAscends(Filter(table, keep));
    forall r ensures r in Sort(Filter(table, keep)) <==> r in view[start..] {
      SortHas(Filter(table, keep), r);
      ViewHas(table, f, like, r);
      InTheRest(view, cursor, r);
    }
    AscendingIsUnique(Sort(Filter(table, keep)), view[start..]);
  }

  lemma InTheRest(view: seq<Keyed<AuditRow>>, cursor: Option<string>, r: Keyed<AuditRow>)
    requires Ascending(view)
    ensures r in view[Start(view, cursor)..] <==> r in view && After(r.key, cursor)
  {
    StartSplits(view, cursor);
    var start := Start(view, cursor);
    if r in view && After(r.key, cursor) {
      var k :| 0 <= k < |view| && view[k] == r;
      assert view[start..][k - start] == r;
    }
  }

  lemma MatchingIsHolding(f: AuditFilter, cursor: Option<string>, row: Keyed<AuditRow>, like: (string, string) -> bool)
    ensures Matches(f, row, like) && After(row.key, cursor) <==>
            && (f.userId != "" ==> Holds(UserIs(f.userId), row, like))
            && (f.pathPrefix != "" ==> Holds(PathLike(f.pathPrefix + "%"), row, like))
            && (f.piiOnly ==> Holds(PiiAccessed, row, like))
            && (f.operation != "" ==> Holds(OperationIs(f.operation), row, like))
            && (f.fromTs != "" ==> Holds(NotBefore(f.fromTs), row, like))
            && (f.toTs != "" ==> Holds(NotAfter(f.toTs), row, like))
            && (cursor.Some? && cursor.value != "" ==> Holds(IdAfter(cursor.value), row, like))
  {}

  lemma OneMoreClause(clauses: seq<Clause>, c: Clause, like: (string, string) -> bool)
    ensures forall row :: AllHold(clauses + [c], row, like) <==> AllHold(clauses, row, like) && Holds(c, row, like)
  {
    hide Holds;
    forall row ensures AllHold(clauses + [c], row, like) <==> AllHold(clauses, row, like) && Holds(c, row, like) {
      var more := clauses + [c];
      assert more[|clauses|] == c;
      assert forall i :: 0 <= i < |clauses| ==> more[i] == clauses[i];
    }
  }

  /** LIMIT 201 and the cut to 200 rows make the page. */
  lemma LimitMakesThePage(view: seq<Keyed<AuditRow>>, cursor: Option<string>, rows: seq<Keyed<AuditRow>>)
    requires rows == view[Start(view, cursor)..]
    ensures var limited := if |rows| > PAGE_SIZE + 1 then rows[..PAGE_SIZE + 1] else rows;
            var hasMore := |limited| > PAGE_SIZE;
            var entries := if hasMore then limited[..PAGE_SIZE] else limited;
            PageOf(view, cursor, PAGE_SIZE) == Page(entries, if hasMore then Some(entries[|entries| - 1].key) else None)
  {
    hide Start, After;
    var start := Start(view, cursor);
    if |rows| > PAGE_SIZE {
      assert rows[..PAGE_SIZE] == view[start..start + PAGE_SIZE];
      assert (if |rows| > PAGE_SIZE + 1 then rows[..PAGE_SIZE + 1] else rows)[..PAGE_SIZE] == rows[..PAGE_SIZE];
    }
  }

  class SqliteAuditSink {
    var table: seq<Keyed<AuditRow>>
    const like: (string, string) -> bool

    constructor (like: (string, string) -> bool)
      ensures table == [] && this.like == like
    {
      table := [];
      this.like := like;
    }

    /** INSERT; the primary key makes it fail on an id that is there. */
    method Record(id: string, row: AuditRow) returns (ok: bool)
      modifies this`table
      ensures ok <==> forall i :: 0 <= i < |old(table)| ==> old(table)[i].key != id
      ensures table == if ok then old(table) + [Keyed(id, row)] else old(table)
      ensures old(TableOk(table)) && id != "" ==> TableOk(table)
    {
      if exists i :: 0 <= i < |table| && table[i].key == id { return false; }
      table := table + [Keyed(id, row)];
      return true;
    }

    /** The conditions, collected one by one. */
    method Clauses(f: AuditFilter, cursor: Option<string>) returns (clauses: seq<Clause>)
      ensures forall row :: AllHold(clauses, row, like) <==> Matches(f, row, like) && After(row.key, cursor)
    {
      clauses := [];
      assert forall row :: AllHold(clauses, row, like);
      hide AllHold, Holds, Matches, After;
      if f.userId != "" { clauses := Add(clauses, UserIs(f.userId)); }
      if f.pathPrefix != "" { clauses := Add(clauses, PathLike(f.pathPrefix + "%")); }
      if f.piiOnly { clauses := Add(clauses, PiiAccessed); }
      if f.operation != "" { clauses := Add(clauses, OperationIs(f.operation)); }
      if f.fromTs != "" { clauses := Add(clauses, NotBefore(f.fromTs)); }
      if f.toTs != "" { clauses := Add(clauses, NotAfter(f.toTs)); }
      if cursor.Some? && cursor.value != "" { clauses := Add(clauses, IdAfter(cursor.value)); }
      forall row ensures AllHold(clauses, row, like) <==> Matches(f, row, like) && After(row.key, cursor) {
        MatchingIsHolding(f, cursor, row, like);
      }
    }

    /** `clauses.append(c)`. */
    method Add(clauses: seq<Clause>, c: Clause) returns (more: seq<Clause>)
      ensures forall row :: AllHold(more, row, like) <==> AllHold(clauses, row, like) && Holds(c, row, like)
    {
      OneMoreClause(clauses, c, like);
      more := clauses + [c];
    }

    /** SELECT ... WHERE ... ORDER BY id LIMIT 201, cut to a page. */
    method Query(f: AuditFilter, cursor: Option<string>) returns (page: Page<AuditRow>)
      requires TableOk(table)
      ensures page == PageOf(View(table, f, like), cursor, PAGE_SIZE)
    {
      hide Matches, AllHold, View, Sort, Start, After, DistinctKeys, PageOf;
      var clauses := Clauses(f, cursor);
      var rows := Sort(Filter(table, Conjunction(clauses, like)));
      SelectedIsTheRest(table, f, like, cursor, Conjunction(clauses, like));
      var limited := if |rows| > PAGE_SIZE + 1 then rows[..PAGE_SIZE + 1] else rows;
      var hasMore := |limited| > PAGE_SIZE;
      var entries := if hasMore then limited[..PAGE_SIZE] else limited;
      LimitMakesThePage(View(table, f, like), cursor, rows);
      page := Page(entries, if hasMore then Some(entries[|entries| - 1].key) else None);
    }
  }

  // ---- Paging over a growing log --------------------------------------------------------------

  /** The views a client sees when the table grows between its requests. */
  function Views(tables: seq<seq<Keyed<AuditRow>>>, f: AuditFilter,
                 like: (string, string) -> bool): (r: seq<seq<Keyed<AuditRow>>>)
    ensures |r| == |tables| && forall k :: 0 <= k < |r| ==> r[k] == View(tables[k], f, like)
  {
    seq(|tables|, k requires 0 <= k < |tables| => View(tables[k], f, like))
  }

  /** Rows are only ever appended. */
  ghost predicate Growing(tables: seq<seq<Keyed<AuditRow>>>) {
    && (forall k :: 0 <= k < |tables| ==> TableOk(tables[k]))
    && forall i, j :: 0 <= i < j < |tables| ==> tables[i] <= tables[j]
  }

  /**
   * Following the cursors returns every row that matched and was there before the first request, no row
   * twice, and no row that does not match.
   */
  lemma AuditPagingIsComplete(tables: seq<seq<Keyed<AuditRow>>>, f: AuditFilter, like: (string, string) -> bool,
                              r: Keyed<AuditRow>)
    requires tables != [] && Growing(tables)
    requires Finished(Views(tables, f, like), None, PAGE_SIZE)
    ensures var rows := Fetch(Views(tables, f, like), None, PAGE_SIZE);
            && Ascending(rows)
            && (r in tables[0] && Matches(f, r, like) ==> r in rows && OccursOnce(rows, r.key))
            && (r in rows ==> Matches(f, r, like))
  {
    hide Matches, Finished, Fetch, View, Sort;
    var views := Views(tables, f, like);
    forall k | 0 <= k < |views| ensures Sound(views[k]) { ViewIsSound(tables[k], f, like); }
    FetchIsAscending(views, None, PAGE_SIZE);
    var rows := Fetch(views, None, PAGE_SIZE);
    if r in rows {
      FetchedRowsWereSeen(views, None, PAGE_SIZE, r);
      var k :| 0 <= k < |views| && r in views[k];
      ViewHas(tables[k], f, like, r);
    }
    if r in tables[0] && Matches(f, r, like) {
      OldRowIsFetched(tables, f, like, r);
    }
  }

  lemma OldRowIsFetched(tables: seq<seq<Keyed<AuditRow>>>, f: AuditFilter, like: (string, string) -> bool,
                        r: Keyed<AuditRow>)
    requires tables != [] && Growing(tables)
    requires Finished(Views(tables, f, like), None, PAGE_SIZE)
    requires SoundAll(Views(tables, f, like))
    requires r in tables[0] && Matches(f, r, like)
    ensures var rows := Fetch(Views(tables, f, like), None, PAGE_SIZE); r in rows && OccursOnce(rows, r.key)
  {
    hide Matches, Finished, Fetch, View, Sort, Sound;
    var views := Views(tables, f, like);
    forall k | 0 <= k < |views| ensures HasKey(views[k], r.key) {
      assert tables[0] <= tables[k] && r in tables[k];
      ViewHas(tables[k], f, like, r);
      var i :| 0 <= i < |views[k]| && views[k][i] == r;
      assert views[k][i].key == r.key;
    }
    PagingFindsEveryLastingKeyOnce(views, PAGE_SIZE, r.key);
    var rows := Fetch(views, None, PAGE_SIZE);
    var i :| 0 <= i < |rows| && rows[i].key == r.key;
    FetchedRowsWereSeen(views, None, PAGE_SIZE, rows[i]);
    var k :| 0 <= k < |views| && rows[i] in views[k];
    ViewHas(tables[k], f, like, rows[i]);
    assert tables[0] <= tables[k] && r in tables[k];
    SameKeySameRow(tables[k], r, rows[i]);
  }

  lemma SameKeySameRow(table: seq<Keyed<AuditRow>>, a: Keyed<AuditRow>, b: Keyed<AuditRow>)
    requires DistinctKeys(table) && a in table && b in table && a.key == b.key
    ensures a == b
  {
    var i :| 0 <= i < |table| && table[i] == a;
    var j :| 0 <= j < |table| && table[j] == b;
    assert i == j;
  }

  /** A next cursor is given exactly when matching rows remain after the page. */
  lemma CursorIffMore(table: seq<Keyed<AuditRow>>, f: AuditFilter, like: (string, string) -> bool,
                      cursor: Option<string>)
    requires TableOk(table)
    ensures var page := PageOf(View(table, f, like), cursor, PAGE_SIZE);
            page.next.Some? <==>
            exists r :: r in table && Matches(f, r, like) && After(r.key, cursor) && r !in page.rows
  {
    hide Matches, View, Less;
    var view := View(table, f, like);
    var page := PageOf(view, cursor, PAGE_SIZE);
    ViewIsSound(table, f, like);
    if page.next.Some? {
      var r := view[Start(view, cursor) + PAGE_SIZE];
      assert r in view;
      ViewHas(table, f, like, r);
      StartSplits(view, cursor);
      NextRowIsNotOnPage(view, cursor);
    } else {
      forall r | r in table && Matches(f, r, like) && After(r.key, cursor) ensures r in page.rows {
        ViewHas(table, f, like, r);
        InTheRest(view, cursor, r);
      }
    }
  }

  /** The row is in the table beyond the cursor, and every field the filter sets fits: timestamps between both ends. */
  ghost predicate Selected(table: seq<Keyed<AuditRow>>, f: AuditFilter, like: (string, string) -> bool,
                           cursor: Option<string>, r: Keyed<AuditRow>) {
    && r in table && Beyond(r.key, cursor)
    && (f.userId == "" || r.item.userId == f.userId)
    && (f.pathPrefix == "" || (r.item.path.Some? && like(r.item.path.value, f.pathPrefix + "%")))
    && (f.piiOnly ==> r.item.piiAccessed)
    && (f.operation == "" || r.item.operation == f.operation)
    && (f.fromTs == "" || !Precedes(r.item.timestamp, f.fromTs))
    && (f.toTs == "" || !Precedes(f.toTs, r.item.timestamp))
  }

  lemma SelectedIsMatched(table: seq<Keyed<AuditRow>>, f: AuditFilter, like: (string, string) -> bool,
                          cursor: Option<string>, r: Keyed<AuditRow>)
    ensures Selected(table, f, like, cursor, r) <==> r in View(table, f, like) && Beyond(r.key, cursor)
  {
    hide View, Less, Precedes, Beyond;
    ViewHas(table, f, like, r);
    LessIsFirstDifference(r.item.timestamp, f.fromTs);
    LessIsFirstDifference(f.toTs, r.item.timestamp);
  }

  /**
   * A page of a query holds selected rows only, at most 200 in the order of their ids; selected rows that are left
   * lie beyond the next cursor, the id of the last row, which is given exactly when rows are left.
   */
  lemma QueriesAreExact(table: seq<Keyed<AuditRow>>, f: AuditFilter, like: (string, string) -> bool,
                        cursor: Option<string>)
    requires TableOk(table)
    ensures var page := PageOf(View(table, f, like), cursor, PAGE_SIZE);
            && |page.rows| <= 200
            && (forall i, j :: 0 <= i < j < |page.rows| ==> Precedes(page.rows[i].key, page.rows[j].key))
            && (forall r :: r in page.rows ==> Selected(table, f, like, cursor, r))
            && (forall r :: Selected(table, f, like, cursor, r) && r !in page.rows ==>
                  page.next.Some? && Precedes(page.next.value, r.key))
            && (page.next.Some? ==> |page.rows| == 200 && page.next == Some(page.rows[199].key))
            && (page.next.Some? ==> exists r :: Selected(table, f, like, cursor, r) && r !in page.rows)
  {
    hide View, Less, Precedes, Beyond, Selected, PageOf;
    ViewIsSound(table, f, like);
    PageIsExact(View(table, f, like), cursor, PAGE_SIZE);
    forall r ensures Selected(table, f, like, cursor, r) <==> r in View(table, f, like) && Beyond(r.key, cursor) {
      SelectedIsMatched(table, f, like, cursor, r);
    }
  }

  lemma NextRowIsNotOnPage(view: seq<Keyed<AuditRow>>, cursor: Option<string>)
    requires Sound(view) && PageOf(view, cursor, PAGE_SIZE).next.Some?
    ensures view[Start(view, cursor) + PAGE_SIZE] !in PageOf(view, cursor, PAGE_SIZE).rows
  {
    var start := Start(view, cursor);
    var rows := PageOf(view, cursor, PAGE_SIZE).rows;
    forall i | 0 <= i < |rows| ensures rows[i] != view[start + PAGE_SIZE] {
      assert rows[i] == view[start + i];
      LessTrichotomy(view[start + i].key, view[start + PAGE_SIZE].key);
    }
  }

  // ---- Storing a path and reading it back ---------------------------------------------------------

  /** The column value: a list goes in as JSON, nothing and the empty list as NULL. */
  function StorePath(p: AuditPath, dumps: seq<string> -> string): Option<string> {
    match p
    case NoPath => None
    case One(s) => Some(s)
    case Many(l) => if l == [] then None else Some(dumps(l))
  }

  /** Reading back: a value starting with `[` is taken for JSON (`None`: it does not parse). */
  function LoadPath(column: Option<string>, loads: string -> Option<AuditPath>): Option<AuditPath> {
    if column.None? then Some(NoPath)
    else if column.value != "" && column.value[0] == '[' then loads(column.value)
    else Some(One(column.value))
  }

  /** Writing a list as JSON and reading it gives the list; reading JSON never gives a plain string. */
  ghost predicate JsonOk(dumps: seq<string> -> string, loads: string -> Option<AuditPath>) {
    && (forall l :: dumps(l) != "" && dumps(l)[0] == '[' && loads(dumps(l)) == Some(Many(l)))
    && (forall t :: t != "" && t[0] == '[' && loads(t).Some? ==> loads(t).value.Many?)
  }

  /** A logged path is read back unchanged exactly when it is no string starting with `[` and no empty list. */
  lemma PathRoundTripsIff(p: AuditPath, dumps: seq<string> -> string, loads: string -> Option<AuditPath>)
    requires JsonOk(dumps, loads)
    ensures LoadPath(StorePath(p, dumps), loads) == Some(p) <==>
            p != Many([]) && !(p.One? && p.path != "" && p.path[0] == '[')
  {
    if p.Many? { assert loads(dumps(p.paths)) == Some(Many(p.paths)); }
  }
}
