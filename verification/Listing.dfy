/** The tree walk of a listing and the rows it must find. */
module Listing {
  import opened Base
  import opened Keyset
  import opened Paths
  import opened Sorting
  import opened Store

  datatype TreeEntry = TreeEntry(path: Path, kind: Kind, version: Option<Version>)

  type Row = Keyed<TreeEntry>

  const PAGE_SIZE := 200

  predicate Exists(s: State, p: Path) { p in s.work || IsDir(s, p) }

  /** The entry of one file or directory, keyed by its path string. */
  function EntryFor(s: State, p: Path): Row {
    if IsDir(s, p) then Keyed(Render(p), TreeEntry(p, Dir, None))
    else Keyed(Render(p), TreeEntry(p, KindOf(p), BlobVersion(s, p)))
  }

  function Children(s: State, base: Path): set<Path> {
    set p | p in s.work.Keys + s.dirs && |p| == |base| + 1 && p[..|base|] == base
  }

  predicate NamedGit(p: Path) { p != [] && p[|p| - 1] == ".git" }

  function Levels(depth: int): nat { if depth > 1 then depth else 1 }

  /** The nodes at relative depth 1 to max(depth, 1) with no `.git` segment below `base`. */
  function Visible(s: State, base: Path, depth: int): set<Path> {
    set p | p in s.work.Keys + s.dirs && base < p && |p| - |base| <= Levels(depth) && ".git" !in p[|base|..]
  }

  /** All names on disk are canonical. */
  ghost predicate CanonicalTree(s: State) {
    FileSystem(s.work, s.dirs) && forall p :: p in s.work || p in s.dirs ==> Canonical(p)
  }

  /** `rows` are the entries of exactly these paths, each once. */
  ghost predicate Lists(s: State, rows: seq<Row>, paths: set<Path>) {
    && (forall i :: 0 <= i < |rows| ==> rows[i] == EntryFor(s, rows[i].item.path) && rows[i].item.path in paths)
    && (forall p :: p in paths ==> exists i :: 0 <= i < |rows| && rows[i].item.path == p)
    && (forall i, j :: 0 <= i < j < |rows| ==> rows[i].item.path != rows[j].item.path)
  }

  lemma ListsConcat(s: State, a: seq<Row>, b: seq<Row>, p: set<Path>, q: set<Path>)
    requires Lists(s, a, p) && Lists(s, b, q) && p !! q
    ensures Lists(s, a + b, p + q)
  {
    var all := a + b;
    forall x | x in p + q ensures exists i :: 0 <= i < |all| && all[i].item.path == x {
      if x in p {
        var i :| 0 <= i < |a| && a[i].item.path == x;
        assert all[i].item.path == x;
      } else {
        var i :| 0 <= i < |b| && b[i].item.path == x;
        assert all[|a| + i].item.path == x;
      }
    }
  }

  lemma ListsOne(s: State, p: Path)
    ensures Lists(s, [EntryFor(s, p)], {p})
  {
    assert [EntryFor(s, p)][0].item.path == p;
  }

  /** What one child contributes: itself and, when there is depth left, what is visible below it. */
  function Below(s: State, child: Path, depth: int): set<Path> {
    if NamedGit(child) then {}
    else {child} + if child in s.dirs && depth > 1 then Visible(s, child, depth - 1) else {}
  }

  lemma BelowIsVisible(s: State, base: Path, depth: int, child: Path, p: Path)
    requires child in Children(s, base) && FileSystem(s.work, s.dirs)
    ensures p in Below(s, child, depth) <==> p in Visible(s, base, depth) && child <= p
  {
    if child == p {
      assert p[|base|..] == [p[|base|]];
    } else if child < p {
      assert p[|base|..] == [p[|base|]] + p[|child|..];
      assert p[|base|] == child[|base|] == child[|child| - 1];
      assert base == child[..|base|] == p[..|base|];
      if p in Visible(s, base, depth) {
        assert p[..|child|] == child && child in s.dirs;
        assert p in Visible(s, child, depth - 1);
      }
    }
  }

  /** Every visible node lies at or below exactly one child. */
  lemma VisibleHasChild(s: State, base: Path, depth: int, p: Path)
    requires p in Visible(s, base, depth) && FileSystem(s.work, s.dirs)
    ensures p[..|base| + 1] in Children(s, base)
  {
    var child := p[..|base| + 1];
    assert child[..|base|] == base;
    if |child| < |p| { assert child in s.dirs; } else { assert child == p; }
  }

  ghost function Covered(s: State, kids: seq<Path>, depth: int): set<Path> {
    if kids == [] then {} else Covered(s, kids[..|kids| - 1], depth) + Below(s, kids[|kids| - 1], depth)
  }

  lemma {:induction false} CoveredHas(s: State, kids: seq<Path>, depth: int, p: Path)
    ensures p in Covered(s, kids, depth) <==> exists k :: 0 <= k < |kids| && p in Below(s, kids[k], depth)
  {
    if kids != [] {
      var front := kids[..|kids| - 1];
      CoveredHas(s, front, depth, p);
      if p in Covered(s, front, depth) {
        var k :| 0 <= k < |front| && p in Below(s, front[k], depth);
        assert p in Below(s, kids[k], depth);
      }
      forall k | 0 <= k < |front| && p in Below(s, kids[k], depth) ensures p in Covered(s, front, depth) {
        assert kids[k] == front[k];
      }
    }
  }

  lemma CoveredSnoc(s: State, kids: seq<Path>, depth: int, i: nat)
    requires i < |kids|
    ensures Covered(s, kids[..i + 1], depth) == Covered(s, kids[..i], depth) + Below(s, kids[i], depth)
  {
    assert kids[..i + 1][..i] == kids[..i];
  }

  /** All children together cover what is visible. */
  lemma ChildrenCoverVisible(s: State, base: Path, depth: int, kids: seq<Path>)
    requires FileSystem(s.work, s.dirs)
    requires forall c :: c in kids <==> c in Children(s, base)
    ensures Covered(s, kids, depth) == Visible(s, base, depth)
  {
    forall p ensures p in Covered(s, kids, depth) <==> p in Visible(s, base, depth) {
      CoveredHas(s, kids, depth, p);
      if p in Covered(s, kids, depth) {
        var k :| 0 <= k < |kids| && p in Below(s, kids[k], depth);
        assert kids[k] in kids;
        BelowIsVisible(s, base, depth, kids[k], p);
      }
      if p in Visible(s, base, depth) {
        var child := p[..|base| + 1];
        VisibleHasChild(s, base, depth, p);
        assert child in kids;
        var k :| 0 <= k < |kids| && kids[k] == child;
        BelowIsVisible(s, base, depth, child, p);
      }
    }
  }

  /** Distinct children contribute distinct nodes. */
  lemma ChildrenAreApart(s: State, base: Path, depth: int, kids: seq<Path>, i: nat)
    requires FileSystem(s.work, s.dirs) && i < |kids|
    requires forall c :: c in kids ==> c in Children(s, base)
    requires forall a, b :: 0 <= a < b < |kids| ==> kids[a] != kids[b]
    ensures Covered(s, kids[..i], depth) !! Below(s, kids[i], depth)
  {
    forall p | p in Covered(s, kids[..i], depth) ensures p !in Below(s, kids[i], depth) {
      CoveredHas(s, kids[..i], depth, p);
      var k :| 0 <= k < i && p in Below(s, kids[..i][k], depth);
      assert kids[k] in kids && kids[i] in kids && kids[k] != kids[i];
      BelowIsVisible(s, base, depth, kids[k], p);
      BelowIsVisible(s, base, depth, kids[i], p);
    }
  }


  // ---- The listing as a function ---------------------------------------------------------

  /** The paths a request asks for: the root alone at depth 0, otherwise what the walk finds. */
  function Wanted(s: State, root: Path, depth: int): set<Path> {
    if depth == 0 then (if root == [] then {} else {root})
    else if NamedGit(root) then {}
    else Visible(s, root, depth)
  }

  lemma WantedIsCanonical(s: State, root: Path, depth: int)
    requires CanonicalTree(s) && (root != [] ==> Canonical(root))
    ensures forall p :: p in Wanted(s, root, depth) ==> Canonical(p)
  {}

  /** The entries of a set of paths, sorted. */
  ghost function RowsOf(s: State, paths: set<Path>): seq<Row> {
    if paths == {} then []
    else
      var p :| p in paths;
      Insert(EntryFor(s, p), RowsOf(s, paths - {p}))
  }

  lemma {:induction false} RowsOfHas(s: State, paths: set<Path>, r: Row)
    ensures r in RowsOf(s, paths) <==> exists p :: p in paths && r == EntryFor(s, p)
  {
    if paths != {} {
      var p :| p in paths && RowsOf(s, paths) == Insert(EntryFor(s, p), RowsOf(s, paths - {p}));
      RowsOfHas(s, paths - {p}, r);
      InsertHas(EntryFor(s, p), RowsOf(s, paths - {p}), r);
    }
  }

  lemma {:induction false} RowsOfAscends(s: State, paths: set<Path>)
    requires forall p :: p in paths ==> Canonical(p)
    ensures Ascending(RowsOf(s, paths))
  {
    if paths != {} {
      var p :| p in paths && RowsOf(s, paths) == Insert(EntryFor(s, p), RowsOf(s, paths - {p}));
      RowsOfAscends(s, paths - {p});
      forall r | r in RowsOf(s, paths - {p}) ensures r.key != EntryFor(s, p).key {
        RowsOfHas(s, paths - {p}, r);
        var q :| q in paths - {p} && r == EntryFor(s, q);
        if Render(q) == Render(p) { RenderIsInjective(p, q); }
      }
      InsertAscends(EntryFor(s, p), RowsOf(s, paths - {p}));
    }
  }

  /** However the entries were collected, sorting them gives the listing. */
  lemma SortedEntriesAreTheListing(s: State, rows: seq<Row>, paths: set<Path>)
    requires Lists(s, rows, paths) && forall p :: p in paths ==> Canonical(p)
    ensures Sort(rows) == RowsOf(s, paths) && Sound(RowsOf(s, paths))
  {
    forall i, j | 0 <= i < j < |rows| ensures rows[i].key != rows[j].key {
      if rows[i].key == rows[j].key { RenderIsInjective(rows[i].item.path, rows[j].item.path); }
    }
    SortAscends(rows);
    RowsOfAscends(s, paths);
    forall r ensures r in Sort(rows) <==> r in RowsOf(s, paths) {
      SortHas(rows, r);
      RowsOfHas(s, paths, r);
      if r in rows {
        var i :| 0 <= i < |rows| && rows[i] == r;
        assert rows[i].item.path in paths;
      }
      if exists p :: p in paths && r == EntryFor(s, p) {
        var p :| p in paths && r == EntryFor(s, p);
        var i :| 0 <= i < |rows| && rows[i].item.path == p;
        assert rows[i] == r;
      }
    }
    AscendingIsUnique(Sort(rows), RowsOf(s, paths));
    RowsAreSound(s, paths);
  }

  lemma RowsAreSound(s: State, paths: set<Path>)
    requires forall p :: p in paths ==> Canonical(p)
    ensures Sound(RowsOf(s, paths))
  {
    hide Ascending;
    RowsOfAscends(s, paths);
    var rows := RowsOf(s, paths);
    forall i | 0 <= i < |rows| ensures rows[i].key != "" {
      assert rows[i] in rows;
      RowsOfHas(s, paths, rows[i]);
      var p :| p in paths && rows[i] == EntryFor(s, p);
      RenderFirst(p);
    }
  }

  datatype ListOutcome = Listed(page: Page<TreeEntry>) | ListRaised(error: Error)

  /** A listing of one state of the tree. */
  ghost function ListTree(s: State, root: Path, depth: int, cursor: Option<string>): ListOutcome {
    if !Exists(s, root) then ListRaised(NotFound)
    else if depth != 0 && !NamedGit(root) && !IsDir(s, root) then ListRaised(Crash)
    else Listed(PageOf(RowsOf(s, Wanted(s, root, depth)), cursor, PAGE_SIZE))
  }

  // ---- The listing in terms of names -------------------------------------------------------

  /** The root itself for depth 0; otherwise what is on disk that deep below it, with no `.git` from the root down. */
  ghost predicate AskedFor(s: State, root: Path, depth: int, p: Path) {
    if depth == 0 then p == root && root != []
    else
      && (p in s.work || p in s.dirs)
      && |root| < |p| && p[..|root|] == root && (|p| == |root| + 1 || |p| <= |root| + depth)
      && forall i :: (if root == [] then 0 else |root| - 1) <= i < |p| ==> p[i] != ".git"
  }

  /** The row of a name: a directory without version, a file with its kind and the version of its content. */
  ghost function RowFor(s: State, p: Path): Row {
    if p in s.work then
      Keyed(Render(p), TreeEntry(p, ClassifyKind(Render(p)), if p in Head(s) then Some(Blob(Head(s)[p])) else None))
    else Keyed(Render(p), TreeEntry(p, Dir, None))
  }

  lemma WantedIsAskedFor(s: State, root: Path, depth: int, p: Path)
    ensures p in Wanted(s, root, depth) <==> AskedFor(s, root, depth, p)
  {
    if depth != 0 && |root| < |p| && p[..|root|] == root {
      assert root != [] ==> p[|root| - 1] == root[|root| - 1];
      assert forall i :: |root| <= i < |p| ==> p[i] == p[|root|..][i - |root|];
    }
  }

  /**
   * A listing is refused for a root that is not there, and fails for a file with a depth that is not 0 unless it is
   * named `.git`. Its page has the rows of exactly the names asked for beyond the cursor, at most 200 in the order of
   * their paths, and a next cursor exactly when rows are left, which lie beyond it.
   */
  lemma ListingIsExact(s: State, root: Path, depth: int, cursor: Option<string>)
    requires CanonicalTree(s) && (root != [] ==> Canonical(root))
    ensures ListTree(s, root, depth, cursor) == ListRaised(NotFound) <==>
            root != [] && root !in s.work && root !in s.dirs
    ensures ListTree(s, root, depth, cursor) == ListRaised(Crash) <==>
            root in s.work && depth != 0 && root[|root| - 1] != ".git"
    ensures ListTree(s, root, depth, cursor).Listed? ==>
              var page := ListTree(s, root, depth, cursor).page;
              && |page.rows| <= 200
              && (forall i, j :: 0 <= i < j < |page.rows| ==> Precedes(page.rows[i].key, page.rows[j].key))
              && (forall r :: r in page.rows ==>
                    Beyond(r.key, cursor) && exists p :: AskedFor(s, root, depth, p) && r == RowFor(s, p))
              && (forall p :: AskedFor(s, root, depth, p) && Beyond(Render(p), cursor) && RowFor(s, p) !in page.rows ==>
                    page.next.Some? && Precedes(page.next.value, Render(p)))
              && (page.next.Some? ==> |page.rows| == 200 && page.next == Some(page.rows[199].key))
              && (page.next.Some? ==> exists p :: AskedFor(s, root, depth, p) && Beyond(Render(p), cursor)
                                                  && RowFor(s, p) !in page.rows)
  {
    hide Wanted, AskedFor, RowFor, EntryFor, PageOf, Beyond, RowsOf, Precedes;
    var rows := RowsOf(s, Wanted(s, root, depth));
    ListingOutcome(s, root, depth, cursor);
    if ListTree(s, root, depth, cursor).Listed? { ListingRows(s, root, depth); }
    WantedIsCanonical(s, root, depth);
    RowsAreSound(s, Wanted(s, root, depth));
    PageIsExact(rows, cursor, PAGE_SIZE);
    forall p ensures RowFor(s, p).key == Render(p) { RowKey(s, p); }
  }

  lemma RowKey(s: State, p: Path)
    ensures RowFor(s, p).key == Render(p)
  {}

  lemma ListingOutcome(s: State, root: Path, depth: int, cursor: Option<string>)
    requires FileSystem(s.work, s.dirs)
    ensures ListTree(s, root, depth, cursor) ==
            if root != [] && root !in s.work && root !in s.dirs then ListRaised(NotFound)
            else if root in s.work && depth != 0 && root[|root| - 1] != ".git" then ListRaised(Crash)
            else Listed(PageOf(RowsOf(s, Wanted(s, root, depth)), cursor, PAGE_SIZE))
  {}

  lemma ListingRows(s: State, root: Path, depth: int)
    requires CanonicalTree(s) && (root != [] ==> Canonical(root))
    requires depth == 0 ==> root == [] || root in s.work || root in s.dirs
    ensures forall r :: r in RowsOf(s, Wanted(s, root, depth)) <==>
                        exists p :: AskedFor(s, root, depth, p) && r == RowFor(s, p)
  {
    hide RowsOf, Render;
    forall p ensures p in Wanted(s, root, depth) <==> AskedFor(s, root, depth, p) {
      WantedIsAskedFor(s, root, depth, p);
    }
    forall p | AskedFor(s, root, depth, p) ensures EntryFor(s, p) == RowFor(s, p) { EntryIsRow(s, p); }
    forall r
      ensures r in RowsOf(s, Wanted(s, root, depth)) <==> exists p :: AskedFor(s, root, depth, p) && r == RowFor(s, p)
    {
      RowsOfHas(s, Wanted(s, root, depth), r);
    }
  }

  lemma EntryIsRow(s: State, p: Path)
    requires FileSystem(s.work, s.dirs) && (p in s.work || p in s.dirs)
    ensures EntryFor(s, p) == RowFor(s, p)
  {}
}
