/** Keyset paging: a page is the rows after a cursor, and the last key of a full page is the next cursor. */
module Keyset {
  import opened Base

  /** A row and the string it is sorted by. */
  datatype Keyed<T> = Keyed(key: string, item: T)

  datatype Page<T> = Page(rows: seq<Keyed<T>>, next: Option<string>)

  ghost predicate Ascending<T>(rows: seq<Keyed<T>>) {
    forall i, j :: 0 <= i < j < |rows| ==> Less(rows[i].key, rows[j].key)
  }

  ghost predicate HasKey<T>(rows: seq<Keyed<T>>, key: string) {
    exists i :: 0 <= i < |rows| && rows[i].key == key
  }

  /** Rows with this key come after the cursor; an absent and an empty cursor mean the start. */
  predicate After(key: string, cursor: Option<string>) {
    cursor.None? || cursor.value == "" || Less(cursor.value, key)
  }

  /** Position of the first row after the cursor, `|rows|` if there is none. */
  function Start<T>(rows: seq<Keyed<T>>, cursor: Option<string>): (start: nat)
    ensures start <= |rows|
    ensures forall i :: 0 <= i < start ==> !After(rows[i].key, cursor)
    ensures start < |rows| ==> After(rows[start].key, cursor)
  {
    if rows == [] || After(rows[0].key, cursor) then 0 else 1 + Start(rows[1..], cursor)
  }

  lemma {:induction false} StartIsFirst<T>(rows: seq<Keyed<T>>, cursor: Option<string>, i: nat)
    requires i <= |rows| && forall j :: 0 <= j < i ==> !After(rows[j].key, cursor)
    requires i < |rows| ==> After(rows[i].key, cursor)
    ensures Start(rows, cursor) == i
  {
    if i > 0 { StartIsFirst(rows[1..], cursor, i - 1); }
  }

  function PageOf<T>(rows: seq<Keyed<T>>, cursor: Option<string>, size: nat): Page<T>
    requires 0 < size
  {
    var start := Start(rows, cursor);
    if |rows| > start + size then Page(rows[start..start + size], Some(rows[start + size - 1].key))
    else Page(rows[start..], None)
  }

  lemma StartSplits<T>(rows: seq<Keyed<T>>, cursor: Option<string>)
    requires Ascending(rows)
    ensures forall i :: 0 <= i < |rows| ==> (After(rows[i].key, cursor) <==> Start(rows, cursor) <= i)
  {
    var start := Start(rows, cursor);
    forall i | start <= i < |rows| ensures After(rows[i].key, cursor) {
      if start < i && cursor.Some? && cursor.value != "" {
        LessTransitive(cursor.value, rows[start].key, rows[i].key);
      }
    }
  }

  /** A client that follows `next`: request k sees `snapshots[k]`. The rows of all its pages. */
  function Fetch<T>(snapshots: seq<seq<Keyed<T>>>, cursor: Option<string>, size: nat): seq<Keyed<T>>
    requires 0 < size
  {
    if snapshots == [] then []
    else
      var page := PageOf(snapshots[0], cursor, size);
      page.rows + if page.next.None? then [] else Fetch(snapshots[1..], page.next, size)
  }

  /** The last request, and only that one, came back without a next cursor. */
  predicate Finished<T>(snapshots: seq<seq<Keyed<T>>>, cursor: Option<string>, size: nat)
    requires 0 < size
  {
    snapshots != [] &&
    var page := PageOf(snapshots[0], cursor, size);
    if page.next.None? then |snapshots| == 1 else Finished(snapshots[1..], page.next, size)
  }

  /** Cursor handed to each request after the first. */
  function Cursors<T>(snapshots: seq<seq<Keyed<T>>>, cursor: Option<string>, size: nat): seq<string>
    requires 0 < size
  {
    if snapshots == [] then []
    else
      var page := PageOf(snapshots[0], cursor, size);
      if page.next.None? then [] else [page.next.value] + Cursors(snapshots[1..], page.next, size)
  }

  ghost predicate Sound<T>(rows: seq<Keyed<T>>) {
    Ascending(rows) && forall i :: 0 <= i < |rows| ==> rows[i].key != ""
  }

  lemma PageIsOrdered<T>(rows: seq<Keyed<T>>, cursor: Option<string>, size: nat)
    requires 0 < size && Sound(rows)
    ensures var page := PageOf(rows, cursor, size);
            && Ascending(page.rows)
            && (forall i :: 0 <= i < |page.rows| ==> After(page.rows[i].key, cursor) && page.rows[i] in rows)
            && (page.next.Some? ==> page.next.value != "" && After(page.next.value, cursor)
                                    && forall i :: 0 <= i < |page.rows| ==> !After(page.rows[i].key, page.next))
            && forall i :: 0 <= i < |rows| && After(rows[i].key, cursor) ==>
                 rows[i] in page.rows || (page.next.Some? && After(rows[i].key, page.next))
  {
    StartSplits(rows, cursor);
    var start := Start(rows, cursor);
    var page := PageOf(rows, cursor, size);
    forall i | 0 <= i < |page.rows| ensures page.rows[i] == rows[start + i] {}
    if page.next.Some? {
      var last := start + size - 1;
      forall i | 0 <= i < |page.rows| ensures !After(page.rows[i].key, page.next) {
        LessTrichotomy(page.rows[i].key, rows[last].key);
      }
      forall i | start <= i < |rows| ensures rows[i] in page.rows || After(rows[i].key, page.next) {
        if i <= last { assert rows[i] == page.rows[i - start]; }
      }
    } else {
      forall i | start <= i < |rows| ensures rows[i] in page.rows { assert rows[i] == page.rows[i - start]; }
    }
  }

  /** In the order of characters behind the cursor, if there is one. */
  ghost predicate Beyond(key: string, cursor: Option<string>) {
    cursor == None || cursor == Some("") || Precedes(cursor.value, key)
  }

  /**
   * A page: at most `size` rows beyond the cursor, in the order of their keys; the rows that are left lie beyond
   * the next cursor, which is the key of the last row and there exactly when rows are left.
   */
  lemma PageIsExact<T(!new)>(rows: seq<Keyed<T>>, cursor: Option<string>, size: nat)
    requires 0 < size && Sound(rows)
    ensures var page := PageOf(rows, cursor, size);
            && |page.rows| <= size
            && (forall i, j :: 0 <= i < j < |page.rows| ==> Precedes(page.rows[i].key, page.rows[j].key))
            && (forall r :: r in page.rows ==> r in rows && Beyond(r.key, cursor))
            && (page.next.Some? ==> |page.rows| == size && page.next == Some(page.rows[size - 1].key))
            && (forall r :: r in rows && Beyond(r.key, cursor) && r !in page.rows ==>
                  page.next.Some? && Precedes(page.next.value, r.key))
            && (page.next.Some? ==> exists r :: r in rows && Beyond(r.key, cursor) && r !in page.rows)
  {
    hide Precedes, Less, PageOf, Start;
    PageIsOrdered(rows, cursor, size);
    PageEnds(rows, cursor, size);
    var page := PageOf(rows, cursor, size);
    forall i, j | 0 <= i < j < |page.rows| ensures Precedes(page.rows[i].key, page.rows[j].key) {
      LessIsFirstDifference(page.rows[i].key, page.rows[j].key);
    }
    forall key ensures After(key, cursor) <==> Beyond(key, cursor) {
      if cursor.Some? { LessIsFirstDifference(cursor.value, key); }
    }
    forall r | r in rows && Beyond(r.key, cursor) && r !in page.rows
      ensures page.next.Some? && Precedes(page.next.value, r.key)
    {
      var i :| 0 <= i < |rows| && rows[i] == r;
      LessIsFirstDifference(page.next.value, r.key);
    }
  }

  /** The next cursor is the last key of a full page, and the row after it is left. */
  lemma PageEnds<T(!new)>(rows: seq<Keyed<T>>, cursor: Option<string>, size: nat)
    requires 0 < size && Sound(rows)
    ensures var page := PageOf(rows, cursor, size);
            && |page.rows| <= size
            && (page.next.Some? ==> |page.rows| == size && page.next == Some(page.rows[size - 1].key))
            && (page.next.Some? ==> exists r :: r in rows && After(r.key, cursor) && r !in page.rows)
  {
    hide After, Less;
    var start := Start(rows, cursor);
    var page := PageOf(rows, cursor, size);
    if page.next.Some? {
      var r := rows[start + size];
      StartSplits(rows, cursor);
      forall i | 0 <= i < |page.rows| ensures page.rows[i] != r {
        assert page.rows[i] == rows[start + i];
        if rows[start + i].key == r.key { KeyIsUnique(rows, start + i, start + size); }
      }
      assert r in rows && After(r.key, cursor) && r !in page.rows;
    }
  }

  lemma AfterIsTransitive(a: Option<string>, b: string, c: string)
    requires After(b, a) && b != "" && Less(b, c)
    ensures After(c, a)
  {
    if a.Some? && a.value != "" { LessTransitive(a.value, b, c); }
  }

  lemma AscendingConcat<T>(a: seq<Keyed<T>>, b: seq<Keyed<T>>, mid: string)
    requires Ascending(a) && Ascending(b)
    requires forall i :: 0 <= i < |a| ==> !Less(mid, a[i].key)
    requires forall j :: 0 <= j < |b| ==> Less(mid, b[j].key)
    ensures Ascending(a + b)
  {
    forall i, j | 0 <= i < |a| && 0 <= j < |b| ensures Less(a[i].key, b[j].key) {
      LessTrichotomy(a[i].key, mid);
      if a[i].key != mid { LessTransitive(a[i].key, mid, b[j].key); }
    }
  }

  lemma HasKeyConcat<T>(a: seq<Keyed<T>>, b: seq<Keyed<T>>, key: string)
    requires HasKey(a, key) || HasKey(b, key)
    ensures HasKey(a + b, key)
  {
    if HasKey(a, key) {
      var i :| 0 <= i < |a| && a[i].key == key;
      assert (a + b)[i].key == key;
    } else {
      var i :| 0 <= i < |b| && b[i].key == key;
      assert (a + b)[|a| + i].key == key;
    }
  }

  lemma KeyOnPageOrLater<T>(rows: seq<Keyed<T>>, cursor: Option<string>, size: nat, key: string)
    requires 0 < size && Sound(rows) && HasKey(rows, key) && After(key, cursor)
    ensures var page := PageOf(rows, cursor, size);
            HasKey(page.rows, key) || (page.next.Some? && After(key, page.next))
  {
    hide PageOf, Start, Less;
    PageIsOrdered(rows, cursor, size);
    var page := PageOf(rows, cursor, size);
    var i :| 0 <= i < |rows| && rows[i].key == key;
    if rows[i] in page.rows {
      var j :| 0 <= j < |page.rows| && page.rows[j] == rows[i];
      assert page.rows[j].key == key;
    }
  }

  ghost predicate AllAfter<T>(rows: seq<Keyed<T>>, cursor: Option<string>) {
    forall i :: 0 <= i < |rows| ==> After(rows[i].key, cursor)
  }

  ghost predicate SoundAll<T>(snapshots: seq<seq<Keyed<T>>>) {
    forall k :: 0 <= k < |snapshots| ==> Sound(snapshots[k])
  }

  /** All rows fetched are in ascending order, so no key comes twice. */
  lemma {:induction false} FetchIsAscending<T>(snapshots: seq<seq<Keyed<T>>>, cursor: Option<string>, size: nat)
    requires 0 < size && SoundAll(snapshots)
    ensures Ascending(Fetch(snapshots, cursor, size)) && AllAfter(Fetch(snapshots, cursor, size), cursor)
  {
    if snapshots != [] {
      PageIsOrdered(snapshots[0], cursor, size);
      var page := PageOf(snapshots[0], cursor, size);
      if page.next.Some? {
        var later := Fetch(snapshots[1..], page.next, size);
        FetchIsAscending(snapshots[1..], page.next, size);
        FetchJoins(page, later, cursor);
      }
    }
  }

  lemma FetchJoins<T>(page: Page<T>, later: seq<Keyed<T>>, cursor: Option<string>)
    requires page.next.Some? && page.next.value != "" && After(page.next.value, cursor)
    requires Ascending(page.rows) && AllAfter(page.rows, cursor)
    requires forall i :: 0 <= i < |page.rows| ==> !After(page.rows[i].key, page.next)
    requires Ascending(later) && AllAfter(later, page.next)
    ensures Ascending(page.rows + later) && AllAfter(page.rows + later, cursor)
  {
    AscendingConcat(page.rows, later, page.next.value);
    forall j | 0 <= j < |later| ensures After(later[j].key, cursor) {
      AfterIsTransitive(cursor, page.next.value, later[j].key);
    }
  }

  lemma {:induction false} FetchedRowsWereSeen<T>(snapshots: seq<seq<Keyed<T>>>, cursor: Option<string>, size: nat,
                                                  row: Keyed<T>)
    requires 0 < size && row in Fetch(snapshots, cursor, size)
    ensures exists k :: 0 <= k < |snapshots| && row in snapshots[k]
  {
    var page := PageOf(snapshots[0], cursor, size);
    if row in page.rows {
      assert row in snapshots[0];
    } else {
      FetchedRowsWereSeen(snapshots[1..], page.next, size, row);
      var k :| 0 <= k < |snapshots[1..]| && row in snapshots[1..][k];
      assert row in snapshots[k + 1];
    }
  }

  lemma {:induction false} FetchFindsPermanent<T>(snapshots: seq<seq<Keyed<T>>>, cursor: Option<string>, size: nat,
                                                  key: string)
    requires 0 < size && SoundAll(snapshots)
    requires Finished(snapshots, cursor, size)
    requires After(key, cursor)
    requires forall k :: 0 <= k < |snapshots| ==> HasKey(snapshots[k], key)
    ensures HasKey(Fetch(snapshots, cursor, size), key)
  {
    KeyOnPageOrLater(snapshots[0], cursor, size, key);
    var page := PageOf(snapshots[0], cursor, size);
    if page.next.None? {
      HasKeyConcat(page.rows, [], key);
    } else {
      var later := Fetch(snapshots[1..], page.next, size);
      if !HasKey(page.rows, key) {
        FetchFindsPermanent(snapshots[1..], page.next, size, key);
      }
      HasKeyConcat(page.rows, later, key);
    }
  }

  ghost predicate OccursOnce<T>(rows: seq<Keyed<T>>, key: string) {
    exists i :: 0 <= i < |rows| && rows[i].key == key && forall j :: 0 <= j < |rows| && rows[j].key == key ==> j == i
  }

  /**
   * Paging over a changing set of rows: every key present throughout is fetched exactly once,
   * no key twice, and nothing that was in no snapshot.
   */
  lemma PagingFindsEveryLastingKeyOnce<T>(snapshots: seq<seq<Keyed<T>>>, size: nat, key: string)
    requires 0 < size && SoundAll(snapshots)
    requires Finished(snapshots, None, size)
    requires forall k :: 0 <= k < |snapshots| ==> HasKey(snapshots[k], key)
    ensures OccursOnce(Fetch(snapshots, None, size), key)
  {
    FetchFindsPermanent(snapshots, None, size, key);
    FetchIsAscending(snapshots, None, size);
    KeyOccursOnce(Fetch(snapshots, None, size), key);
  }

  lemma KeyOccursOnce<T>(rows: seq<Keyed<T>>, key: string)
    requires Ascending(rows) && HasKey(rows, key)
    ensures OccursOnce(rows, key)
  {
    var i :| 0 <= i < |rows| && rows[i].key == key;
    forall j | 0 <= j < |rows| && rows[j].key == key ensures j == i {
      KeyIsUnique(rows, i, j);
    }
  }

  lemma KeyIsUnique<T>(rows: seq<Keyed<T>>, i: nat, j: nat)
    requires Ascending(rows) && i < |rows| && j < |rows| && rows[i].key == rows[j].key
    ensures i == j
  {
    LessTrichotomy(rows[i].key, rows[j].key);
  }

  ghost predicate Increasing(cs: seq<string>, cursor: Option<string>) {
    && (forall i :: 0 <= i < |cs| ==> cs[i] != "" && After(cs[i], cursor))
    && forall i, j :: 0 <= i < j < |cs| ==> Less(cs[i], cs[j])
  }

  lemma IncreasingCons(c: string, later: seq<string>, cursor: Option<string>)
    requires c != "" && After(c, cursor) && Increasing(later, Some(c))
    ensures Increasing([c] + later, cursor)
  {
    forall i | 0 <= i < |later| ensures After(later[i], cursor) && Less(c, later[i]) {
      AfterIsTransitive(cursor, c, later[i]);
    }
  }

  /** Each next cursor is strictly greater than the one before it. */
  lemma {:induction false} CursorsIncrease<T>(snapshots: seq<seq<Keyed<T>>>, cursor: Option<string>, size: nat)
    requires 0 < size && SoundAll(snapshots)
    ensures Increasing(Cursors(snapshots, cursor, size), cursor)
  {
    if snapshots != [] {
      PageIsOrdered(snapshots[0], cursor, size);
      var page := PageOf(snapshots[0], cursor, size);
      if page.next.Some? {
        CursorsIncrease(snapshots[1..], page.next, size);
        IncreasingCons(page.next.value, Cursors(snapshots[1..], page.next, size), cursor);
      }
    }
  }

  /** Request k carries the next cursor of the page before it, and the last page has none. */
  lemma {:induction false} CursorsAreFollowed<T>(snapshots: seq<seq<Keyed<T>>>, cursor: Option<string>, size: nat,
                                                 k: nat)
    requires 0 < size && Finished(snapshots, cursor, size) && k < |snapshots|
    ensures var cs := Cursors(snapshots, cursor, size);
            && |cs| + 1 == |snapshots|
            && PageOf(snapshots[k], if k == 0 then cursor else Some(cs[k - 1]), size).next
               == if k < |cs| then Some(cs[k]) else None
    decreases |snapshots|
  {
    hide PageOf;
    var page := PageOf(snapshots[0], cursor, size);
    if page.next.Some? { CursorsAreFollowed(snapshots[1..], page.next, size, if k == 0 then 0 else k - 1); }
  }

  /** k is ceil(n / size), and one request is made even for no rows. */
  ghost predicate IsRequestCount(k: nat, n: nat, size: nat) {
    if n == 0 then k == 1 else n <= k * size && (k - 1) * size < n
  }

  lemma OneMoreRequest(k: nat, n: nat, size: nat)
    requires 0 < n && IsRequestCount(k, n, size)
    ensures IsRequestCount(k + 1, n + size, size)
  {
    assert (k + 1) * size == k * size + size && k * size == (k - 1) * size + size;
  }

  lemma NextStart<T>(rows: seq<Keyed<T>>, cursor: Option<string>, size: nat)
    requires 0 < size && Sound(rows) && PageOf(rows, cursor, size).next.Some?
    ensures Start(rows, PageOf(rows, cursor, size).next) == Start(rows, cursor) + size
  {
    var start := Start(rows, cursor);
    var next := PageOf(rows, cursor, size).next;
    StartSplits(rows, next);
    LessTrichotomy(next.value, next.value);
    assert !After(rows[start + size - 1].key, next);
    assert After(rows[start + size].key, next);
  }

  lemma PageThenRest<T>(rows: seq<Keyed<T>>, cursor: Option<string>, size: nat)
    requires 0 < size && Sound(rows) && PageOf(rows, cursor, size).next.Some?
    ensures var page := PageOf(rows, cursor, size);
            page.rows + rows[Start(rows, page.next)..] == rows[Start(rows, cursor)..]
  {
    NextStart(rows, cursor, size);
    var start := Start(rows, cursor);
    assert rows[start..] == rows[start..start + size] + rows[start + size..];
  }

  lemma {:induction false} StaticFetch<T>(rows: seq<Keyed<T>>, cursor: Option<string>, size: nat,
                                          snapshots: seq<seq<Keyed<T>>>)
    requires 0 < size && Sound(rows)
    requires forall k :: 0 <= k < |snapshots| ==> snapshots[k] == rows
    requires Finished(snapshots, cursor, size)
    ensures Fetch(snapshots, cursor, size) == rows[Start(rows, cursor)..]
    decreases |snapshots|
  {
    assert snapshots[0] == rows;
    var page := PageOf(rows, cursor, size);
    if page.next.Some? {
      StaticFetch(rows, page.next, size, snapshots[1..]);
      PageThenRest(rows, cursor, size);
    }
  }

  lemma {:induction false} StaticCount<T>(rows: seq<Keyed<T>>, cursor: Option<string>, size: nat,
                                          snapshots: seq<seq<Keyed<T>>>)
    requires 0 < size && Sound(rows)
    requires forall k :: 0 <= k < |snapshots| ==> snapshots[k] == rows
    requires Finished(snapshots, cursor, size)
    ensures IsRequestCount(|snapshots|, |rows| - Start(rows, cursor), size)
    decreases |snapshots|
  {
    assert snapshots[0] == rows;
    var page := PageOf(rows, cursor, size);
    if page.next.Some? {
      NextStart(rows, cursor, size);
      StaticCount(rows, page.next, size, snapshots[1..]);
      OneMoreRequest(|snapshots| - 1, |rows| - Start(rows, cursor) - size, size);
    } else {
      assert |snapshots| * size == size;
    }
  }

  /** Nothing changes: the pages concatenate to all rows, in ceil(n / size) requests (one when n is 0). */
  lemma PagingAFixedListReturnsIt<T>(rows: seq<Keyed<T>>, size: nat, snapshots: seq<seq<Keyed<T>>>)
    requires 0 < size && Sound(rows)
    requires forall k :: 0 <= k < |snapshots| ==> snapshots[k] == rows
    requires Finished(snapshots, None, size)
    ensures Fetch(snapshots, None, size) == rows
    ensures IsRequestCount(|snapshots|, |rows|, size)
  {
    StaticFetch(rows, None, size, snapshots);
    StaticCount(rows, None, size, snapshots);
    assert Start(rows, None) == 0;
  }

  /** The fetch again, with every page reduced to the rows a reader may see. */
  function FetchVisible<T(!new)>(snapshots: seq<seq<Keyed<T>>>, cursor: Option<string>, size: nat,
                          visible: Keyed<T> -> bool): seq<Keyed<T>>
    requires 0 < size
  {
    if snapshots == [] then []
    else
      var page := PageOf(snapshots[0], cursor, size);
      Filter(page.rows, visible) + if page.next.None? then []
          else FetchVisible(snapshots[1..], page.next, size, visible)
  }

  lemma {:induction false} VisibleFetchIsFilteredFetch<T(!new)>(snapshots: seq<seq<Keyed<T>>>,
                                                         cursor: Option<string>, size: nat,
                                                                 visible: Keyed<T> -> bool)
    requires 0 < size
    ensures FetchVisible(snapshots, cursor, size, visible) == Filter(Fetch(snapshots, cursor, size), visible)
  {
    if snapshots != [] {
      var page := PageOf(snapshots[0], cursor, size);
      if page.next.None? {
        assert page.rows + [] == page.rows;
      } else {
        VisibleFetchIsFilteredFetch(snapshots[1..], page.next, size, visible);
        FilterConcat(page.rows, Fetch(snapshots[1..], page.next, size), visible);
      }
    }
  }
}
