/** Which operations are accepted, which error answers each of the others, and what an accepted one makes of HEAD. */
module Validity {
  import opened Base
  import opened Edits
  import opened Paths
  import opened Store
  import opened Atomicity
  import opened Transactions
  import opened GitStorage

  /** What an operation of each type needs of HEAD and of its own fields. */
  ghost predicate Acceptable(tree: Tree, op: Op) {
    match op.typ
    case Write => IsText(op.path) && op.content.Some? && NamesTheVersion(tree, op)
    case Upload => !IsText(op.path) && NamesTheVersion(tree, op)
    case Delete => op.path in tree && NamesTheVersion(tree, op)
    case Append => op.path in tree && IsText(op.path) && op.content.Some? && NamesTheVersion(tree, op)
    case Edit =>
      && op.path in tree && IsText(op.path) && op.oldStr.Some? && op.newStr.Some? && NamesTheVersion(tree, op)
      && Count(tree[op.path], op.oldStr.value) == 1
  }

  /** The version of the present content, and none for a file that is not there. */
  ghost predicate NamesTheVersion(tree: Tree, op: Op) {
    op.ifVersion == if op.path in tree then Some(Blob(tree[op.path])) else None
  }

  /** On a clean store exactly the acceptable operations pass validation. */
  lemma ValidIffAcceptable(s: State, op: Op)
    requires Clean(s)
    ensures Validate(s, op).None? <==> Acceptable(Head(s), op)
  {}

  /** The refusals of a write, in the order they are looked for. */
  lemma WriteRefusals(s: State, op: Op)
    requires Clean(s) && op.typ == Write
    ensures !IsText(op.path) || op.content.None? ==> Validate(s, op) == Some(ValidationError)
    ensures IsText(op.path) && op.content.Some? ==>
              && (op.path !in Head(s) && op.ifVersion.Some? ==> Validate(s, op) == Some(VersionConflict(None, None)))
              && (op.path in Head(s) && op.ifVersion.None? ==> Validate(s, op) == Some(ValidationError))
              && (op.path in Head(s) && op.ifVersion.Some? && op.ifVersion != Some(Blob(Head(s)[op.path])) ==>
                    Validate(s, op) == Some(VersionConflict(Some(Head(s)[op.path]), Some(Blob(Head(s)[op.path])))))
  {}

  /** The refusals of an upload; a conflict carries no content. */
  lemma UploadRefusals(s: State, op: Op)
    requires Clean(s) && op.typ == Upload
    ensures IsText(op.path) ==> Validate(s, op) == Some(WrongKind)
    ensures !IsText(op.path) ==>
              && (op.path !in Head(s) && op.ifVersion.Some? ==> Validate(s, op) == Some(VersionConflict(None, None)))
              && (op.path in Head(s) && op.ifVersion.None? ==> Validate(s, op) == Some(ValidationError))
              && (op.path in Head(s) && op.ifVersion.Some? && op.ifVersion != Some(Blob(Head(s)[op.path])) ==>
                    Validate(s, op) == Some(VersionConflict(None, Some(Blob(Head(s)[op.path])))))
  {}

  /** The refusals of a deletion, an append or an edit before its own fields are looked at. */
  lemma ChangeRefusals(s: State, op: Op)
    requires Clean(s) && (op.typ == Delete || op.typ == Append || op.typ == Edit)
    ensures op.path !in Head(s) ==> Validate(s, op) == Some(NotFound)
    ensures op.path in Head(s) && !IsText(op.path) && op.typ != Delete ==> Validate(s, op) == Some(WrongKind)
    ensures op.path in Head(s) && (IsText(op.path) || op.typ == Delete) ==>
              && (op.ifVersion.None? ==> Validate(s, op) == Some(ValidationError))
              && (op.ifVersion.Some? && op.ifVersion != Some(Blob(Head(s)[op.path])) ==>
                    Validate(s, op) == Some(VersionConflict(if IsText(op.path) then Some(Head(s)[op.path]) else None,
                                                            Some(Blob(Head(s)[op.path])))))
  {}

  /** The refusals of an append or an edit at the right version. */
  lemma FieldRefusals(s: State, op: Op)
    requires Clean(s) && op.path in Head(s) && IsText(op.path) && op.ifVersion == Some(Blob(Head(s)[op.path]))
    ensures op.typ == Append && op.content.None? ==> Validate(s, op) == Some(ValidationError)
    ensures op.typ == Edit && (op.oldStr.None? || op.newStr.None?) ==> Validate(s, op) == Some(ValidationError)
    ensures op.typ == Edit && op.oldStr.Some? && op.newStr.Some? ==>
              var hits := Count(Head(s)[op.path], op.oldStr.value);
              && (hits == 0 ==> Validate(s, op) == Some(NoMatch))
              && (hits > 1 ==> Validate(s, op) == Some(AmbiguousMatch))
  {}

  // ---- What an accepted operation does ------------------------------------------------------------

  /** There is room for a file: no directory of that name, and no file where it needs a directory. */
  predicate HasRoom(s: State, p: Path) {
    p != [] && p !in s.dirs && forall i :: 0 < i < |p| ==> p[..i] !in Head(s)
  }

  /** The tree after the operation. */
  ghost function Result(tree: Tree, op: Op): Tree
    requires Acceptable(tree, op)
  {
    match op.typ
    case Delete => tree - {op.path}
    case Append => tree[op.path := tree[op.path] + op.content.value]
    case Edit => tree[op.path := ReplaceFirst(tree[op.path], op.oldStr.value, op.newStr.value)]
    case _ => tree[op.path := OrEmpty(op.content)]
  }

  /** Alone, an acceptable operation on a file, or on a path with room for one, commits its result. */
  lemma AcceptedOperationsCommit(s: State, op: Op, meta: Meta)
    requires Clean(s) && Acceptable(Head(s), op) && (op.path in Head(s) || HasRoom(s, op.path))
    ensures var t := Transact(s, [op], meta);
            && t.outcome.Done? && Clean(t.state) && Head(t.state) == Result(Head(s), op)
            && t.state.commits == s.commits + [Commit(Head(t.state), meta, [op.path])]
  {
    hide Validate, IsText, Acceptable, Result, Transact, NewContent, FileSystem, FirstError;
    ValidIffAcceptable(s, op);
    FilesHaveRoom(s, op.path);
    assert [op][0] == op && OpPaths([op]) == [op.path];
    NoErrorMeansAllValid(s, [op]);
    assert FirstError(s, [op]).None? by { OneOpLoop(s, op); }
    assert Compatible(s, [op]);
    TransactionIsAtomic(s, [op], meta);
    ResultIsNewContent(Head(s), op, Head(Transact(s, [op], meta).state));
  }

  lemma ResultIsNewContent(tree: Tree, op: Op, result: Tree)
    requires Acceptable(tree, op) && AllAtOnce(tree, [op], result)
    ensures result == Result(tree, op)
  {
    hide ReplaceFirst, Count, IsText;
    assert [op][0] == op && OpPaths([op]) == [op.path];
    forall q ensures Lookup(result, q) == Lookup(Result(tree, op), q) {
      if q != op.path { assert q !in OpPaths([op]); }
    }
    SameLookups(result, Result(tree, op));
  }

  lemma FilesHaveRoom(s: State, p: Path)
    requires Clean(s) && (p in Head(s) || HasRoom(s, p))
    ensures !IsDir(s, p) && p !in Parents(p) && forall q :: q in Parents(p) ==> q !in s.work
  {
    forall q | q in Parents(p) ensures q !in s.work && q != p {
      var i :| 0 < i < |p| && q == p[..i];
      assert p in Head(s) ==> q in s.dirs;
    }
  }

  /** An append with content at the current version commits: the file is its old text and the new. */
  lemma AppendCommits(s: State, p: Path, content: string, meta: Meta)
    requires Clean(s) && p in Head(s) && IsText(p)
    ensures var t := Transact(s, [AppendOp(p, content, Blob(Head(s)[p]))], meta);
            t.outcome.Done? && Head(t.state) == Head(s)[p := Head(s)[p] + content]
  {
    hide Transact, IsText;
    AcceptedOperationsCommit(s, AppendOp(p, content, Blob(Head(s)[p])), meta);
  }

  /**
   * One step of the write phase on any store: only its own path changes, on disk and in the index alike where it
   * goes through. A deletion goes through exactly for a file that is on disk and in the index, and does nothing
   * where there is no file; a step that writes makes the directories it needs, or changes no file.
   */
  lemma StepIsLocal(s: State, op: Op)
    ensures var a := ApplyOp(s, op);
            && a.state.commits == s.commits
            && (forall q :: q != op.path ==>
                  Lookup(a.state.work, q) == Lookup(s.work, q) && Lookup(a.state.index, q) == Lookup(s.index, q))
            && (a.ok ==> Lookup(a.state.work, op.path) == Lookup(a.state.index, op.path)
                         == NewContent(op, Lookup(s.work, op.path)))
            && (op.typ == Delete ==> (a.ok <==> op.path in s.work && op.path in s.index) && a.state.dirs == s.dirs)
            && (op.typ == Delete && op.path !in s.work ==> a.state == s)
            && (op.typ != Delete && a.ok ==> a.state.dirs == s.dirs + Parents(op.path))
            && (op.typ != Delete && !a.ok ==> a.state == s.(dirs := a.state.dirs))
  {
    hide NewContent;
    OnlyDeletesRemove(op, Lookup(s.work, op.path));
  }

  /** Deleting a file that git's index does not have removes it from disk and then fails, without a commit. */
  lemma UntrackedDeleteFails(s: State, p: Path, meta: Meta)
    requires p in s.work && p !in s.index && p in Head(s)
    ensures var t := Transact(s, [DeleteOp(p, Blob(Head(s)[p]))], meta);
            t.outcome == Raised(Crash) && t.state == s.(work := s.work - {p})
  {
    OneOpLoop(s, DeleteOp(p, Blob(Head(s)[p])));
  }

  // ---- The result of a batch ------------------------------------------------------------------------

  /** No operation of the batch deletes the path. */
  function Survivor(ops: seq<Op>): Path -> bool {
    p => forall i :: 0 <= i < |ops| && ops[i].typ == Delete ==> ops[i].path != p
  }

  /** A reply lists the paths no operation deletes, in their order, each with the version of its content in HEAD. */
  lemma {:induction false} ResultFilesAreExact(s: State, ops: seq<Op>, paths: seq<Path>)
    ensures var files, left := ResultFiles(s, ops, paths), Filter(paths, Survivor(ops));
            && |files| == |left|
            && forall k :: 0 <= k < |files| ==>
                 files[k] == ResultFile(left[k], if left[k] in Head(s) then Some(Blob(Head(s)[left[k]])) else None)
  {
    if paths != [] {
      var front, p := paths[..|paths| - 1], paths[|paths| - 1];
      ResultFilesAreExact(s, ops, front);
      assert paths == front + [p] && [p][1..] == [];
      FilterConcat(front, [p], Survivor(ops));
      assert DeletedIn(ops, p) <==> !Survivor(ops)(p);
    }
  }
}
