/** The store as an object: the only writer of one git working tree. */
module GitStorage {
  import opened Base
  import opened Edits
  import opened Keyset
  import opened Sorting
  import opened Paths
  import opened Store
  import opened Atomicity
  import opened Transactions
  import opened Listing

  datatype FileOutcome = Got(version: Version, content: Option<string>) | GetRaised(error: Error)

  /** `get_file` on one state: text files with their content, binary files without. */
  function GetFileSpec(s: State, p: Path): FileOutcome {
    if p !in s.work then GetRaised(NotFound)
    else
      match BlobVersion(s, p)
      case None => GetRaised(Crash)
      case Some(v) => Got(v, if IsText(p) then Some(s.work[p]) else None)
  }

  lemma InsertKeepsOrder(kids: seq<Path>, p: Path, i: nat)
    requires i <= |kids| && p !in kids
    requires forall a, b :: 0 <= a < b < |kids| ==> kids[a] != kids[b] && !Less(Render(kids[b]), Render(kids[a]))
    requires forall a :: 0 <= a < i ==> Less(Render(kids[a]), Render(p))
    requires i < |kids| ==> !Less(Render(kids[i]), Render(p))
    ensures var all := kids[..i] + [p] + kids[i..];
            && (forall c :: c in all <==> c == p || c in kids)
            && forall a, b :: 0 <= a < b < |all| ==> all[a] != all[b] && !Less(Render(all[b]), Render(all[a]))
  {
    assert kids == kids[..i] + kids[i..];
    forall a | 0 <= a < i ensures !Less(Render(p), Render(kids[a])) {
      LessTrichotomy(Render(p), Render(kids[a]));
    }
    forall b | i <= b < |kids| ensures !Less(Render(kids[b]), Render(p)) {
      if i < b && Less(Render(kids[b]), Render(p)) {
        LessTrichotomy(Render(kids[i]), Render(p));
        LessTrichotomy(Render(kids[i]), Render(kids[b]));
        if Render(p) != Render(kids[i]) { LessTransitive(Render(kids[b]), Render(p), Render(kids[i])); }
      }
    }
  }

  class GitStorage {
    var work: Tree
    var dirs: set<Path>
    var index: Tree
    var commits: seq<Commit>

    constructor (work: Tree, dirs: set<Path>, commits: seq<Commit>)
      ensures S() == State(work, dirs, work, commits)
    {
      this.work, this.dirs, this.index, this.commits := work, dirs, work, commits;
    }

    function S(): State
      reads this
    {
      State(work, dirs, index, commits)
    }

    // ---- Reading ---------------------------------------------------------------------

    method GetFile(p: Path) returns (r: FileOutcome)
      ensures r == GetFileSpec(S(), p)
      ensures Clean(S()) && r.Got? ==>
                r.version == Blob(Head(S())[p]) && (IsText(p) ==> r.content == Some(Head(S())[p]))
      ensures Clean(S()) ==> (r.Got? <==> p in Head(S()))
    {
      if p !in work { return GetRaised(NotFound); }
      var version := BlobVersion(S(), p);
      if version.None? { return GetRaised(Crash); }
      if IsText(p) { return Got(version.value, Some(work[p])); }
      return Got(version.value, None);
    }

    /** `sorted(base.iterdir())`. */
    method SortedChildren(base: Path) returns (kids: seq<Path>)
      ensures forall c :: c in kids <==> c in Children(S(), base)
      ensures forall a, b :: 0 <= a < b < |kids| ==> kids[a] != kids[b] && !Less(Render(kids[b]), Render(kids[a]))
    {
      kids := [];
      var rest := Children(S(), base);
      while rest != {}
        invariant rest <= Children(S(), base)
        invariant forall c :: c in kids <==> c in Children(S(), base) && c !in rest
        invariant forall a, b :: 0 <= a < b < |kids| ==> kids[a] != kids[b] && !Less(Render(kids[b]), Render(kids[a]))
        decreases rest
      {
        var p :| p in rest;
        var i := 0;
        while i < |kids| && Less(Render(kids[i]), Render(p))
          invariant 0 <= i <= |kids|
          invariant forall a :: 0 <= a < i ==> Less(Render(kids[a]), Render(p))
        {
          i := i + 1;
        }
        InsertKeepsOrder(kids, p, i);
        kids := kids[..i] + [p] + kids[i..];
        rest := rest - {p};
      }
    }

    /** The directory walk: appends the entries below `base` to `out`. */
    method Walk(base: Path, depth: int, out: seq<Row>) returns (out': seq<Row>)
      requires FileSystem(work, dirs)
      ensures out <= out'
      ensures Lists(S(), out'[|out|..], if NamedGit(base) then {} else Visible(S(), base, depth))
      decreases Levels(depth), 1
    {
      out' := out;
      if NamedGit(base) { return; }
      var kids := SortedChildren(base);
      for i := 0 to |kids|
        invariant out <= out' && Lists(S(), out'[|out|..], Covered(S(), kids[..i], depth))
      {
        var mid := out';
        out' := WalkChild(kids[i], depth, out');
        ChildrenAreApart(S(), base, depth, kids, i);
        CoveredSnoc(S(), kids, depth, i);
        ListsConcat(S(), mid[|out|..], out'[|mid|..], Covered(S(), kids[..i], depth), Below(S(), kids[i], depth));
        assert out'[|out|..] == mid[|out|..] + out'[|mid|..];
      }
      assert kids[..|kids|] == kids;
      ChildrenCoverVisible(S(), base, depth, kids);
    }

    /** The body of the walk's loop. */
    method WalkChild(child: Path, depth: int, out: seq<Row>) returns (out': seq<Row>)
      requires FileSystem(work, dirs)
      ensures out <= out' && Lists(S(), out'[|out|..], Below(S(), child, depth))
      decreases Levels(depth), 0
    {
      out' := out;
      if NamedGit(child) { return; }
      out' := out' + [EntryFor(S(), child)];
      ListsOne(S(), child);
      if child in dirs && depth > 1 {
        var mid := out';
        out' := Walk(child, depth - 1, out');
        ListsConcat(S(), [EntryFor(S(), child)], out'[|mid|..], {child}, Visible(S(), child, depth - 1));
        assert out'[|out|..] == [EntryFor(S(), child)] + out'[|mid|..];
      } else {
        assert out'[|out|..] == [EntryFor(S(), child)];
      }
    }

    /** First position after the cursor: the loop over `enumerate(entries)`. */
    method FindStart(entries: seq<Row>, cursor: Option<string>) returns (start: nat)
      ensures start == Start(entries, cursor)
    {
      start := 0;
      if cursor.Some? && cursor.value != "" {
        for i := 0 to |entries|
          invariant forall j :: 0 <= j < i ==> !After(entries[j].key, cursor)
        {
          if Less(cursor.value, entries[i].key) {
            StartIsFirst(entries, cursor, i);
            return i;
          }
        }
        StartIsFirst(entries, cursor, |entries|);
        start := |entries|;
      } else {
        StartIsFirst(entries, cursor, 0);
      }
    }

    /** The entries of a listing, in the order the walk met them. */
    method Collect(root: Path, depth: int) returns (entries: seq<Row>)
      requires FileSystem(work, dirs)
      ensures Lists(S(), entries, Wanted(S(), root, depth))
    {
      entries := [];
      if depth == 0 {
        if root != [] {
          entries := [EntryFor(S(), root)];
          ListsOne(S(), root);
        }
      } else {
        entries := Walk(root, depth, []);
        assert entries[0..] == entries;
      }
    }

    /** `list_tree`: one page of the sorted entries. */
    method List(root: Path, depth: int, cursor: Option<string>) returns (r: ListOutcome)
      requires CanonicalTree(S()) && (root != [] ==> Canonical(root))
      ensures r == ListTree(S(), root, depth, cursor)
    {
      hide Lists, Start, RowsOf, Sort, Visible, EntryFor;
      if !Exists(S(), root) { return ListRaised(NotFound); }
      if depth != 0 && !NamedGit(root) && !IsDir(S(), root) { return ListRaised(Crash); }
      var entries := Collect(root, depth);
      WantedIsCanonical(S(), root, depth);
      SortedEntriesAreTheListing(S(), entries, Wanted(S(), root, depth));
      entries := Sort(entries);
      var start := FindStart(entries, cursor);
      if |entries| > start + PAGE_SIZE {
        r := Listed(Page(entries[start..start + PAGE_SIZE], Some(entries[start + PAGE_SIZE - 1].key)));
      } else {
        r := Listed(Page(entries[start..], None));
      }
    }

    // ---- Writing -----------------------------------------------------------------------

    method CheckVersion(op: Op, exists_: bool, currentVersion: Option<Version>, currentContent: Option<string>)
      returns (e: Option<Error>)
      requires exists_ == (op.path in work) && (exists_ ==> currentVersion == BlobVersion(S(), op.path))
      requires currentContent == if exists_ && IsText(op.path) && op.typ != Upload then Some(work[op.path]) else None
      ensures e == Store.CheckVersion(S(), op)
    {
      if !exists_ {
        if op.ifVersion.Some? { return Some(VersionConflict(None, None)); }
        return None;
      }
      if op.ifVersion.None? { return Some(ValidationError); }
      if op.ifVersion != currentVersion { return Some(VersionConflict(currentContent, currentVersion)); }
      return None;
    }

    /** Phase 1 for one operation of a transaction. */
    method ValidateOperation(op: Op) returns (e: Option<Error>)
      requires op.typ != Upload
      ensures e == Validate(S(), op)
    {
      var exists_ := op.path in work;
      var currentVersion := if exists_ then BlobVersion(S(), op.path) else None;
      var currentContent := if exists_ && IsText(op.path) then Some(work[op.path]) else None;
      if op.typ == Write {
        if !IsText(op.path) { return Some(ValidationError); }
        if op.content.None? { return Some(ValidationError); }
        e := CheckVersion(op, exists_, currentVersion, currentContent);
        return;
      }
      if !exists_ { return Some(NotFound); }
      if !IsText(op.path) && op.typ != Delete { return Some(WrongKind); }
      e := CheckVersion(op, exists_, currentVersion, currentContent);
      if e.Some? { return; }
      if op.typ == Edit {
        if op.oldStr.None? || op.newStr.None? { return Some(ValidationError); }
        var occurrences := Count(currentContent.value, op.oldStr.value);
        if occurrences == 0 { return Some(NoMatch); }
        if occurrences > 1 { return Some(AmbiguousMatch); }
      } else if op.typ == Append && op.content.None? {
        return Some(ValidationError);
      }
    }

    /** Phase 2 for one operation: file, then index; `ok` is false when the file system or git raises. */
    method ApplyOperation(op: Op) returns (ok: bool)
      modifies this
      ensures Applied(S(), ok) == ApplyOp(old(S()), op)
    {
      var p := op.path;
      if op.typ == Delete {
        if p !in work { return false; }
        work := work - {p};
        if p !in index { return false; }
        index := index - {p};
        return true;
      }
      if !(Parents(p) !! work.Keys) { return false; }
      dirs := dirs + Parents(p);
      if IsDir(S(), p) { return false; }
      var text;
      if op.typ == Append {
        text := (if p in work then work[p] else "") + OrEmpty(op.content);
      } else if op.typ == Edit {
        if p !in work { return false; }
        text := ReplaceFirst(work[p], OrEmpty(op.oldStr), OrEmpty(op.newStr));
      } else {
        text := OrEmpty(op.content);
      }
      work := work[p := text];
      index := index[p := text];
      return true;
    }

    method CommitFiles(meta: Meta, files: seq<Path>) returns (commitId: nat)
      modifies this`commits
      ensures commitId == old(|commits|) && commits == old(commits) + [Commit(index, meta, Dedup(files))]
    {
      commitId := |commits|;
      commits := commits + [Commit(index, meta, Dedup(files))];
    }

    /**
     * Two phases and one commit. Besides the exact new state: a refusal leaves everything as it was,
     * and a valid compatible batch is applied as a whole.
     */
    method RunTransaction(ops: seq<Op>, meta: Meta) returns (r: Outcome)
      requires forall i :: 0 <= i < |ops| ==> ops[i].typ != Upload
      modifies this
      ensures Transacted(S(), r) == Transact(old(S()), ops, meta)
      ensures r.Raised? && r.error != Crash ==> S() == old(S())
      ensures old(Clean(S())) && ops != [] && old(AllValid(S(), ops) && Compatible(S(), ops)) ==>
                && r.Done? && Clean(S()) && |commits| == old(|commits|) + 1
                && AllAtOnce(old(Head(S())), ops, Head(S()))
                && r.files == ExpectedFiles(old(Head(S())), ops)
    {
      ghost var before := S();
      if ops == [] { return Raised(ValidationError); }
      if Clean(before) { TransactionIsAtomic(before, ops, meta); }
      r := Execute(ops, meta);
    }

    /** The body under the lock. */
    method Execute(ops: seq<Op>, meta: Meta) returns (r: Outcome)
      requires ops != [] && forall i :: 0 <= i < |ops| ==> ops[i].typ != Upload
      modifies this
      ensures Transacted(S(), r) == Transact(old(S()), ops, meta)
      ensures r.Raised? && r.error != Crash ==> S() == old(S())
    {
      hide FirstError, ApplyAll, ResultFiles, Dedup, OpPaths;
      var refused := ValidateAll(ops);
      if refused.Some? {
        RefusalIsNoCrash(S(), ops);
        return Raised(refused.value);
      }
      LoopKeepsCommits(S(), ops);
      var ok := WriteAll(ops);
      if !ok { return Raised(Crash); }
      var paths := OpPaths(ops);
      var commitId := CommitFiles(meta, paths);
      var files := CollectResult(ops, Dedup(paths));
      return Done(commitId, files);
    }

    method ValidateAll(ops: seq<Op>) returns (e: Option<Error>)
      requires forall i :: 0 <= i < |ops| ==> ops[i].typ != Upload
      ensures e == FirstError(S(), ops)
    {
      for i := 0 to |ops|
        invariant forall j :: 0 <= j < i ==> Validate(S(), ops[j]).None?
      {
        e := ValidateOperation(ops[i]);
        if e.Some? {
          FirstErrorAt(S(), ops, i);
          return;
        }
      }
      NoErrorMeansAllValid(S(), ops);
      return None;
    }

    method WriteAll(ops: seq<Op>) returns (ok: bool)
      modifies this
      ensures Applied(S(), ok) == ApplyAll(old(S()), ops)
    {
      assert ops[..|ops|] == ops;
      for i := 0 to |ops|
        invariant Applied(S(), true) == ApplyAll(old(S()), ops[..i])
      {
        assert ops[..i + 1][..i] == ops[..i];
        ok := ApplyOperation(ops[i]);
        if !ok {
          LoopStops(old(S()), ops, i + 1);
          return;
        }
      }
      return true;
    }

    method CollectResult(ops: seq<Op>, paths: seq<Path>) returns (files: seq<ResultFile>)
      ensures files == ResultFiles(S(), ops, paths)
    {
      var deleted := set i | 0 <= i < |ops| && ops[i].typ == Delete :: ops[i].path;
      files := [];
      assert paths[..|paths|] == paths;
      for i := 0 to |paths|
        invariant files == ResultFiles(S(), ops, paths[..i])
      {
        assert paths[..i + 1][..i] == paths[..i];
        assert paths[i] in deleted <==> DeletedIn(ops, paths[i]);
        if paths[i] !in deleted {
          files := files + [ResultFile(paths[i], BlobVersion(S(), paths[i]))];
        }
      }
    }

    /** `write_binary`: one upload, validated, written and committed like a batch of one. */
    method WriteBinary(p: Path, data: string, ifVersion: Option<Version>, meta: Meta) returns (r: Outcome)
      modifies this
      ensures Transacted(S(), r) == Transact(old(S()), [UploadOp(p, data, ifVersion)], meta)
    {
      hide ApplyOp, OpPaths, ResultFiles, FirstError, ApplyAll, Transact;
      var op := UploadOp(p, data, ifVersion);
      OneOpTransaction(S(), op, meta);
      LoopKeepsCommits(S(), [op]);
      OneOpLoop(S(), op);
      if IsText(p) { return Raised(WrongKind); }
      var exists_ := p in work;
      var e := CheckVersion(op, exists_, if exists_ then BlobVersion(S(), p) else None, None);
      if e.Some? { return Raised(e.value); }
      var ok := ApplyOperation(op);
      if !ok { return Raised(Crash); }
      OneOpResult(S(), op);
      var commitId := CommitFiles(meta, [p]);
      return Done(commitId, [ResultFile(p, BlobVersion(S(), p))]);
    }

    /** `delete`: a transaction of one deletion. */
    method DeleteFile(p: Path, ifVersion: Version, meta: Meta) returns (r: Outcome)
      modifies this
      ensures Transacted(S(), r) == Transact(old(S()), [DeleteOp(p, ifVersion)], meta)
    {
      r := RunTransaction([DeleteOp(p, ifVersion)], meta);
    }
  }

  function UploadOp(p: Path, data: string, ifVersion: Option<Version>): Op {
    Op(p, Upload, None, None, Some(data), ifVersion)
  }

  lemma {:induction false} FirstErrorAt(s: State, ops: seq<Op>, i: nat)
    requires i < |ops| && Validate(s, ops[i]).Some? && forall j :: 0 <= j < i ==> Validate(s, ops[j]).None?
    ensures FirstError(s, ops) == Validate(s, ops[i])
  {
    if i > 0 {
      assert Validate(s, ops[0]).None?;
      FirstErrorAt(s, ops[1..], i - 1);
    }
  }

  /** A write loop that failed within its first k steps stays where it failed. */
  lemma {:induction false} LoopStops(s: State, ops: seq<Op>, k: nat)
    requires k <= |ops| && !ApplyAll(s, ops[..k]).ok
    ensures ApplyAll(s, ops) == ApplyAll(s, ops[..k])
  {
    if k < |ops| {
      var front := ops[..|ops| - 1];
      assert front[..k] == ops[..k];
      LoopStops(s, front, k);
    } else {
      assert ops[..k] == ops;
    }
  }

  lemma OneOpLoop(s: State, op: Op)
    ensures FirstError(s, [op]) == Validate(s, op) && ApplyAll(s, [op]) == ApplyOp(s, op)
  {
    assert [op][..0] == [] && [op][1..] == [];
    assert ApplyAll(s, []) == Applied(s, true) && FirstError(s, []) == None;
  }

  lemma OneOpResult(s: State, op: Op)
    ensures OpPaths([op]) == [op.path] && Dedup([op.path]) == [op.path]
    ensures ResultFiles(s, [op], [op.path]) == if op.typ == Delete then []
            else [ResultFile(op.path, BlobVersion(s, op.path))]
  {
    assert [op.path][..0] == [];
    assert [op][0] == op;
    assert DeletedIn([op], op.path) <==> op.typ == Delete;
  }

  /** The batch of one, spelled out. */
  lemma OneOpTransaction(s: State, op: Op, meta: Meta)
    ensures Transact(s, [op], meta) ==
            if Validate(s, op).Some? then Transacted(s, Raised(Validate(s, op).value))
            else if !ApplyOp(s, op).ok then Transacted(ApplyOp(s, op).state, Raised(Crash))
            else
              var now := ApplyOp(s, op).state;
              var done := now.(commits := now.commits + [Commit(now.index, meta, [op.path])]);
              Transacted(done, Done(|s.commits|, if op.typ == Delete then []
                  else [ResultFile(op.path, BlobVersion(done, op.path))]))
  {
    hide Validate, ApplyOp, FirstError, ApplyAll, ResultFiles, OpPaths, Dedup, BlobVersion;
    OneOpLoop(s, op);
    if Validate(s, op).None? && ApplyOp(s, op).ok {
      OneOpResult(s, op);
      OneOpResult(CommitIndex(ApplyOp(s, op).state, meta, [op]), op);
    }
  }
}
