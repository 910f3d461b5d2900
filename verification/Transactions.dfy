/** What one transaction promises its caller, and where the code does not keep the promise. */
module Transactions {
  import opened Base
  import opened Edits
  import opened Paths
  import opened Store
  import opened Atomicity

  // ---- The result ---------------------------------------------------------------------

  /** The surviving paths in request order, each with the version of its new content. */
  function ExpectedFiles(work: Tree, ops: seq<Op>): seq<ResultFile> {
    if ops == [] then []
    else
      var op := ops[|ops| - 1];
      var content := NewContent(op, Lookup(work, op.path));
      ExpectedFiles(work, ops[..|ops| - 1]) + if content.None? then []
          else [ResultFile(op.path, Some(Blob(content.value)))]
  }

  lemma {:induction false} DistinctNeedNoDedup<T(!new)>(s: seq<T>)
    requires forall i, j :: 0 <= i < j < |s| ==> s[i] != s[j]
    ensures Dedup(s) == s
  {
    if s != [] {
      var front, last := s[..|s| - 1], s[|s| - 1];
      DistinctNeedNoDedup(front);
      forall i | 0 <= i < |front| ensures front[i] != last { assert s[i] != s[|s| - 1]; }
      assert s == front + [last];
    }
  }

  lemma OnlyDeletesRemove(op: Op, current: Option<string>)
    ensures NewContent(op, current).None? <==> op.typ == Delete
  {}

  lemma {:induction false} ResultFilesAreExpected(work: Tree, now: State, ops: seq<Op>, k: nat)
    requires k <= |ops| && DistinctPaths(ops)
    requires AllAtOnce(work, ops, Head(now))
    ensures ResultFiles(now, ops, OpPaths(ops)[..k]) == ExpectedFiles(work, ops[..k])
  {
    hide NewContent;
    if k > 0 {
      ResultFilesAreExpected(work, now, ops, k - 1);
      var op := ops[k - 1];
      assert OpPaths(ops)[..k][..k - 1] == OpPaths(ops)[..k - 1] && ops[..k][..k - 1] == ops[..k - 1];
      assert DeletedIn(ops, op.path) <==> op.typ == Delete;
      OnlyDeletesRemove(op, Lookup(work, op.path));
      assert Lookup(Head(now), op.path) == NewContent(op, Lookup(work, op.path));
    }
  }

  /** The error of the first invalid operation. */
  ghost predicate FirstRefusal(s: State, ops: seq<Op>, error: Error) {
    exists i :: 0 <= i < |ops| && Validate(s, ops[i]) == Some(error) &&
      forall j :: 0 <= j < i ==> Validate(s, ops[j]).None?
  }

  lemma {:induction false} FirstErrorIsFirst(s: State, ops: seq<Op>)
    requires FirstError(s, ops).Some?
    ensures FirstRefusal(s, ops, FirstError(s, ops).value)
  {
    if Validate(s, ops[0]).None? {
      FirstErrorIsFirst(s, ops[1..]);
      var e := FirstError(s, ops).value;
      var k :| 0 <= k < |ops[1..]| && Validate(s, ops[1..][k]) == Some(e) &&
               forall j :: 0 <= j < k ==> Validate(s, ops[1..][j]).None?;
      assert ops[1..][k] == ops[k + 1];
      forall j | 0 <= j < k + 1 ensures Validate(s, ops[j]).None? {
        if j > 0 { assert ops[1..][j - 1] == ops[j]; }
      }
    }
  }

  /**
   * Atomicity. A batch with an invalid operation changes nothing. A valid compatible batch cannot fail:
   * the new tree is all operations applied at once, it is one new commit, nothing is left uncommitted,
   * and the result names the surviving paths with the versions of their new contents.
   */
  lemma TransactionIsAtomic(s: State, ops: seq<Op>, meta: Meta)
    requires Clean(s) && ops != []
    ensures var t := Transact(s, ops, meta);
            && (!AllValid(s, ops) ==> t.state == s && t.outcome.Raised? && FirstRefusal(s, ops, t.outcome.error))
            && (AllValid(s, ops) && Compatible(s, ops) ==>
                  && Clean(t.state) && AllAtOnce(Head(s), ops, Head(t.state))
                  && t.state.commits == s.commits + [Commit(Head(t.state), meta, OpPaths(ops))]
                  && t.outcome == Done(|s.commits|, ExpectedFiles(Head(s), ops)))
  {
    NoErrorMeansAllValid(s, ops);
    if !AllValid(s, ops) {
      FirstErrorIsFirst(s, ops);
    } else if Compatible(s, ops) {
      CompatibleInAnyOrder(s, ops, ops);
      DoneIsClean(s, ops, meta);
      DistinctNeedNoDedup(OpPaths(ops));
      var now := Transact(s, ops, meta).state;
      ResultFilesAreExpected(s.work, now, ops, |ops|);
      assert OpPaths(ops)[..|ops|] == OpPaths(ops) && ops[..|ops|] == ops;
    }
  }

  /** For every batch: the only failure after validation is a clash, which a caller can see beforehand. */
  lemma CrashIffClash(s: State, ops: seq<Op>, meta: Meta)
    requires Clean(s)
    ensures Transact(s, ops, meta).outcome == Raised(Crash) <==> ops != [] && AllValid(s, ops) && !ClashFree(s, ops)
  {
    NoErrorMeansAllValid(s, ops);
    WritePhaseIsExact(s, ops);
    if ops != [] && !AllValid(s, ops) { RefusalIsNoCrash(s, ops); }
  }

  lemma {:induction false} RefusalIsNoCrash(s: State, ops: seq<Op>)
    requires FirstError(s, ops).Some?
    ensures FirstError(s, ops) != Some(Crash)
  {
    if Validate(s, ops[0]).None? { RefusalIsNoCrash(s, ops[1..]); }
  }

  lemma RaisedKeepsHead(s: State, ops: seq<Op>, meta: Meta)
    requires Transact(s, ops, meta).outcome.Raised?
    ensures Transact(s, ops, meta).state.commits == s.commits
  {
    LoopKeepsCommits(s, ops);
  }

  // ---- Only what is named, only on the version named -------------------------------------

  lemma {:induction false} LoopTouchesOnlyItsPaths(s: State, ops: seq<Op>, p: Path)
    requires p !in OpPaths(ops)
    ensures Lookup(ApplyAll(s, ops).state.work, p) == Lookup(s.work, p)
  {
    if ops != [] {
      var front := ops[..|ops| - 1];
      MorePaths(front, ops);
      assert OpPaths(ops)[|ops| - 1] != p;
      LoopTouchesOnlyItsPaths(s, front, p);
    }
  }

  /** Every operation of a committed batch named exactly the content it found, or created its path. */
  ghost predicate NamesWhatItReplaces(tree: Tree, op: Op) {
    if op.path in tree then op.ifVersion == Some(Blob(tree[op.path]))
    else op.ifVersion == None && (op.typ == Write || op.typ == Upload)
  }

  lemma ValidOpNamesItsVersion(s: State, op: Op)
    requires Clean(s) && Validate(s, op).None?
    ensures NamesWhatItReplaces(Head(s), op)
  {}

  /** Holds of every committed batch, compatible or not. */
  lemma CommittedOpsNameTheirVersion(s: State, ops: seq<Op>, meta: Meta)
    requires Clean(s) && Transact(s, ops, meta).outcome.Done?
    ensures forall i :: 0 <= i < |ops| ==> NamesWhatItReplaces(Head(s), ops[i])
    ensures forall p :: p !in OpPaths(ops) ==> Lookup(Head(Transact(s, ops, meta).state), p) == Lookup(Head(s), p)
  {
    DoneIsClean(s, ops, meta);
    forall i | 0 <= i < |ops| ensures NamesWhatItReplaces(Head(s), ops[i]) {
      ValidOpNamesItsVersion(s, ops[i]);
    }
    forall p | p !in OpPaths(ops) ensures Lookup(Head(Transact(s, ops, meta).state), p) == Lookup(Head(s), p) {
      LoopTouchesOnlyItsPaths(s, ops, p);
    }
  }

  // ---- Undo -------------------------------------------------------------------------------

  function EditOp(p: Path, old_: string, new_: string, version: Version): Op {
    Op(p, Edit, Some(old_), Some(new_), None, Some(version))
  }

  lemma LoneOp(s: State, op: Op, meta: Meta)
    requires Clean(s)
    ensures Validate(s, op).Some? ==> Transact(s, [op], meta) == Transacted(s, Raised(Validate(s, op).value))
    ensures Validate(s, op).None? && op.path in s.work ==>
              && Transact(s, [op], meta).outcome.Done? && Clean(Transact(s, [op], meta).state)
              && AllAtOnce(s.work, [op], Head(Transact(s, [op], meta).state))
              && |Transact(s, [op], meta).state.commits| == |s.commits| + 1
  {
    NoErrorMeansAllValid(s, [op]);
    assert [op][0] == op;
    assert FirstError(s, [op]) == Validate(s, op);
    if Validate(s, op).None? && op.path in s.work {
      assert Compatible(s, [op]);
      TransactionIsAtomic(s, [op], meta);
    }
  }

  /** An edit with one match at the current version commits and changes that one file. */
  lemma EditCommits(s: State, p: Path, old_: string, new_: string, meta: Meta)
    requires Clean(s) && p in s.work && IsText(p) && Count(s.work[p], old_) == 1
    ensures var t := Transact(s, [EditOp(p, old_, new_, Blob(s.work[p]))], meta);
            t.outcome.Done? && Clean(t.state) && Head(t.state) == Head(s)[p := ReplaceFirst(s.work[p], old_, new_)]
  {
    hide Transact, IsText, Count;
    var op := EditOp(p, old_, new_, Blob(s.work[p]));
    LoneOp(s, op, meta);
    var tree := Head(Transact(s, [op], meta).state);
    assert [op][0] == op && OpPaths([op]) == [p];
    assert Lookup(tree, p) == Some(ReplaceFirst(s.work[p], old_, new_));
    forall q | q != p ensures Lookup(tree, q) == Lookup(Head(s), q) { assert q !in OpPaths([op]); }
    SameLookups(tree, Head(s)[p := ReplaceFirst(s.work[p], old_, new_)]);
  }

  /** A committed edit whose new text starts at one place only is undone by the swapped edit. */
  lemma EditCanBeUndone(s: State, p: Path, old_: string, new_: string, m1: Meta, m2: Meta)
    requires Clean(s) && p in s.work && IsText(p)
    requires Count(s.work[p], old_) == 1
    requires Once(ReplaceFirst(s.work[p], old_, new_), new_)
    ensures var done := Transact(s, [EditOp(p, old_, new_, Blob(s.work[p]))], m1);
            var undone := Transact(done.state, [EditOp(p, new_, old_, Blob(ReplaceFirst(s.work[p], old_, new_)))], m2);
            done.outcome.Done? && undone.outcome.Done? && Head(undone.state) == Head(s)
  {
    hide Transact, IsText, Count, ReplaceFirst, Once, FileSystem;
    var edited := ReplaceFirst(s.work[p], old_, new_);
    EditCommits(s, p, old_, new_, m1);
    UndoRestores(s.work[p], old_, new_);
    var mid := Transact(s, [EditOp(p, old_, new_, Blob(s.work[p]))], m1).state;
    assert mid.work[p] == edited;
    EditCommits(mid, p, new_, old_, m2);
    assert Head(s)[p := edited][p := s.work[p]] == Head(s);
  }

  // ---- Single operations -------------------------------------------------------------------------

  function DeleteOp(p: Path, version: Version): Op {
    Op(p, Delete, None, None, None, Some(version))
  }

  function AppendOp(p: Path, content: string, version: Version): Op {
    Op(p, Append, None, None, Some(content), Some(version))
  }

  function WriteOp(p: Path, content: string): Op {
    Op(p, Write, None, None, Some(content), None)
  }
}
