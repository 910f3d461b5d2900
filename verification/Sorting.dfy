/** Sorting rows by their key: Python's `list.sort(key=...)` and SQL's `ORDER BY id`. */
module Sorting {
  import opened Base
  import opened Keyset

  function Insert<T>(row: Keyed<T>, rows: seq<Keyed<T>>): seq<Keyed<T>> {
    if rows == [] then [row]
    else if Less(rows[0].key, row.key) then [rows[0]] + Insert(row, rows[1..])
    else [row] + rows
  }

  function Sort<T>(rows: seq<Keyed<T>>): seq<Keyed<T>> {
    if rows == [] then [] else Insert(rows[0], Sort(rows[1..]))
  }

  ghost predicate DistinctKeys<T>(rows: seq<Keyed<T>>) {
    forall i, j :: 0 <= i < j < |rows| ==> rows[i].key != rows[j].key
  }

  lemma {:induction false} InsertHas<T(!new)>(row: Keyed<T>, rows: seq<Keyed<T>>, r: Keyed<T>)
    ensures r in Insert(row, rows) <==> r == row || r in rows
  {
    if rows != [] && Less(rows[0].key, row.key) {
      InsertHas(row, rows[1..], r);
      assert r in rows <==> r == rows[0] || r in rows[1..];
    }
  }

  lemma {:induction false} SortHas<T(!new)>(rows: seq<Keyed<T>>, r: Keyed<T>)
    ensures r in Sort(rows) <==> r in rows
  {
    if rows != [] {
      InsertHas(rows[0], Sort(rows[1..]), r);
      SortHas(rows[1..], r);
      assert r in rows <==> r == rows[0] || r in rows[1..];
    }
  }

  lemma AscendingCons<T>(row: Keyed<T>, rows: seq<Keyed<T>>)
    requires Ascending(rows) && (rows != [] ==> Less(row.key, rows[0].key))
    ensures Ascending([row] + rows)
  {
    forall j | 0 <= j < |rows| ensures Less(row.key, rows[j].key) {
      if j > 0 { LessTransitive(row.key, rows[0].key, rows[j].key); }
    }
  }

  lemma {:induction false} InsertAscends<T(!new)>(row: Keyed<T>, rows: seq<Keyed<T>>)
    requires Ascending(rows) && forall r :: r in rows ==> r.key != row.key
    ensures Ascending(Insert(row, rows))
  {
    if rows == [] {
    } else if Less(rows[0].key, row.key) {
      InsertAscends(row, rows[1..]);
      var rest := Insert(row, rows[1..]);
      InsertHas(row, rows[1..], rest[0]);
      if rest[0] != row {
        var k :| 0 <= k < |rows[1..]| && rows[1..][k] == rest[0];
        assert Less(rows[0].key, rows[k + 1].key);
      }
      AscendingCons(rows[0], rest);
    } else {
      assert rows[0] in rows;
      LessTrichotomy(rows[0].key, row.key);
      AscendingCons(row, rows);
    }
  }

  lemma {:induction false} SortAscends<T(!new)>(rows: seq<Keyed<T>>)
    requires DistinctKeys(rows)
    ensures Ascending(Sort(rows))
  {
    if rows != [] {
      var rest := rows[1..];
      SortAscends(rest);
      forall r | r in Sort(rest) ensures r.key != rows[0].key {
        SortHas(rest, r);
        var k :| 0 <= k < |rest| && rest[k] == r;
        assert rows[0].key != rows[k + 1].key;
      }
      InsertAscends(rows[0], Sort(rest));
    }
  }

  lemma FirstIsLeast<T(!new)>(a: seq<Keyed<T>>, b: seq<Keyed<T>>)
    requires Ascending(a) && Ascending(b) && a != [] && forall r :: r in a <==> r in b
    ensures b != [] && a[0] == b[0]
  {
    assert a[0] in b && b[0] in a;
    var i :| 0 <= i < |b| && b[i] == a[0];
    var j :| 0 <= j < |a| && a[j] == b[0];
    LessTrichotomy(a[0].key, b[0].key);
  }

  lemma RestHasTheRest<T(!new)>(a: seq<Keyed<T>>, r: Keyed<T>)
    requires Ascending(a) && a != []
    ensures r in a[1..] <==> r in a && r != a[0]
  {
    if r in a[1..] {
      var k :| 0 <= k < |a[1..]| && a[1..][k] == r;
      assert Less(a[0].key, a[k + 1].key);
      LessTrichotomy(a[0].key, a[k + 1].key);
    }
  }

  /** Rows in ascending order are determined by their set. */
  lemma {:induction false} AscendingIsUnique<T(!new)>(a: seq<Keyed<T>>, b: seq<Keyed<T>>)
    requires Ascending(a) && Ascending(b) && forall r :: r in a <==> r in b
    ensures a == b
  {
    assert b == [] || b[0] in b;
    if a != [] {
      FirstIsLeast(a, b);
      forall r ensures r in a[1..] <==> r in b[1..] {
        RestHasTheRest(a, r);
        RestHasTheRest(b, r);
      }
      AscendingIsUnique(a[1..], b[1..]);
      assert a == [a[0]] + a[1..] && b == [b[0]] + b[1..];
    }
  }
}
