/**
 * The state of the tree on values: working tree, git index and commits, and what one
 * transaction does to them. `GitStorage` keeps this state in fields and is proved against it.
 */
module Store {
  import opened Base
  import opened Edits
  import opened Paths

  type Tree = map<Path, string>

  /** A blob's SHA is modelled as an injective function of its bytes; a client may also send anything else. */
  datatype Version = Blob(bytes: string) | Foreign(token: string)

  /** `Upload` is the binary full replace; the other four are the operations of a transaction. */
  datatype OpType = Edit | Append | Write | Delete | Upload

  datatype Op = Op(path: Path, typ: OpType, oldStr: Option<string>, newStr: Option<string>,
                   content: Option<string>, ifVersion: Option<Version>)

  /** Who and why, for the commit message. */
  datatype Meta = Meta(principal: Principal, reason: string, taskId: Option<string>)

  datatype Commit = Commit(tree: Tree, meta: Meta, files: seq<Path>)

  /** `dirs` are the directories on disk; they stay when their last file is removed. */
  datatype State = State(work: Tree, dirs: set<Path>, index: Tree, commits: seq<Commit>)

  datatype Error =
    | NotFound
    | VersionConflict(currentContent: Option<string>, currentVersion: Option<Version>)
    | NoMatch
    | AmbiguousMatch
    | ValidationError
    | WrongKind
    | Crash  // an exception of the file system, of git or of an assertion

  function OrEmpty(s: Option<string>): string { if s.Some? then s.value else "" }

  function Head(s: State): Tree {
    if s.commits == [] then map[] else s.commits[|s.commits| - 1].tree
  }

  function BlobVersion(s: State, p: Path): Option<Version> {
    if p in Head(s) then Some(Blob(Head(s)[p])) else None
  }

  predicate IsDir(s: State, p: Path) { p == [] || p in s.dirs }

  // ---- Phase 1 --------------------------------------------------------------------

  function CheckVersion(s: State, op: Op): Option<Error> {
    var current := BlobVersion(s, op.path);
    if op.path !in s.work then
      if op.ifVersion.Some? then Some(VersionConflict(None, None)) else None
    else if op.ifVersion.None? then Some(ValidationError)
    else if op.ifVersion != current then
      Some(VersionConflict(if IsText(op.path) && op.typ != Upload then Some(s.work[op.path]) else None, current))
    else None
  }

  function CheckEdit(content: string, op: Op): Option<Error> {
    if op.oldStr.None? || op.newStr.None? then Some(ValidationError)
    else if Count(content, op.oldStr.value) == 0 then Some(NoMatch)
    else if Count(content, op.oldStr.value) > 1 then Some(AmbiguousMatch)
    else None
  }

  /** The error an operation is refused with, if any. */
  function Validate(s: State, op: Op): Option<Error> {
    match op.typ
    case Upload =>
      if IsText(op.path) then Some(WrongKind) else CheckVersion(s, op)
    case Write =>
      if !IsText(op.path) then Some(ValidationError)
      else if op.content.None? then Some(ValidationError)
      else CheckVersion(s, op)
    case _ =>
      if op.path !in s.work then Some(NotFound)
      else if !IsText(op.path) && op.typ != Delete then Some(WrongKind)
      else if CheckVersion(s, op).Some? then CheckVersion(s, op)
      else if op.typ == Edit then CheckEdit(s.work[op.path], op)
      else if op.typ == Append && op.content.None? then Some(ValidationError)
      else None
  }

  /** The first refusal in the list. */
  function FirstError(s: State, ops: seq<Op>): Option<Error> {
    if ops == [] then None
    else if Validate(s, ops[0]).Some? then Validate(s, ops[0])
    else FirstError(s, ops[1..])
  }

  // ---- Phase 2 --------------------------------------------------------------------

  /** Proper nonempty prefixes: the directories a file needs. */
  function Parents(p: Path): set<Path> {
    set i | 0 < i < |p| :: p[..i]
  }

  /** What the operation makes of the file's present content (`None`: no file). */
  function NewContent(op: Op, current: Option<string>): Option<string> {
    match op.typ
    case Delete => None
    case Append => Some(OrEmpty(current) + OrEmpty(op.content))
    case Edit => Some(ReplaceFirst(OrEmpty(current), OrEmpty(op.oldStr), OrEmpty(op.newStr)))
    case _ => Some(OrEmpty(op.content))
  }

  function Lookup(t: Tree, p: Path): Option<string> {
    if p in t then Some(t[p]) else None
  }

  /** Outcome of one phase-2 step; when it fails, `state` is what it leaves behind. */
  datatype Applied = Applied(state: State, ok: bool)

  function ApplyOp(s: State, op: Op): Applied {
    var p := op.path;
    if op.typ == Delete then
      if p !in s.work then Applied(s, false)
      else
        var unlinked := s.(work := s.work - {p});
        if p !in s.index then Applied(unlinked, false)
        else Applied(unlinked.(index := s.index - {p}), true)
    else if Parents(p) !! s.work.Keys then
      var made := s.(dirs := s.dirs + Parents(p));
      if IsDir(made, p) || (op.typ == Edit && p !in s.work) then Applied(made, false)
      else
        var content := NewContent(op, Lookup(s.work, p)).value;
        Applied(made.(work := s.work[p := content], index := s.index[p := content]), true)
    else Applied(s, false)
  }

  /** The write loop: stops at the first step that fails. */
  function ApplyAll(s: State, ops: seq<Op>): Applied {
    if ops == [] then Applied(s, true)
    else
      var front := ApplyAll(s, ops[..|ops| - 1]);
      if front.ok then ApplyOp(front.state, ops[|ops| - 1]) else front
  }

  function OpPaths(ops: seq<Op>): (r: seq<Path>)
    ensures |r| == |ops| && forall i :: 0 <= i < |r| ==> r[i] == ops[i].path
  {
    seq(|ops|, i requires 0 <= i < |ops| => ops[i].path)
  }

  function CommitIndex(s: State, meta: Meta, ops: seq<Op>): State {
    s.(commits := s.commits + [Commit(s.index, meta, Dedup(OpPaths(ops)))])
  }

  datatype ResultFile = ResultFile(path: Path, version: Option<Version>)

  predicate DeletedIn(ops: seq<Op>, p: Path) {
    exists i :: 0 <= i < |ops| && ops[i].path == p && ops[i].typ == Delete
  }

  function ResultFiles(s: State, ops: seq<Op>, paths: seq<Path>): seq<ResultFile> {
    if paths == [] then []
    else
      var front := ResultFiles(s, ops, paths[..|paths| - 1]);
      var p := paths[|paths| - 1];
      if DeletedIn(ops, p) then front else front + [ResultFile(p, BlobVersion(s, p))]
  }

  /** What a caller gets: the commit's number and the surviving files, or the error raised. */
  datatype Outcome = Done(commitId: nat, files: seq<ResultFile>) | Raised(error: Error)

  datatype Transacted = Transacted(state: State, outcome: Outcome)

  /** One whole transaction. */
  function Transact(s: State, ops: seq<Op>, meta: Meta): Transacted {
    if ops == [] then Transacted(s, Raised(ValidationError))
    else if FirstError(s, ops).Some? then Transacted(s, Raised(FirstError(s, ops).value))
    else
      var applied := ApplyAll(s, ops);
      if !applied.ok then Transacted(applied.state, Raised(Crash))
      else
        var committed := CommitIndex(applied.state, meta, ops);
        Transacted(committed, Done(|s.commits|, ResultFiles(committed, ops, Dedup(OpPaths(ops)))))
  }

  // ---- Invariants -----------------------------------------------------------------

  /** A file system: no path is both file and directory, and every parent is a directory. */
  ghost predicate FileSystem(work: Tree, dirs: set<Path>) {
    && [] !in work && [] !in dirs
    && work.Keys !! dirs
    && forall p, i :: (p in work || p in dirs) && 0 < i < |p| ==> p[..i] in dirs
  }

  /** Working tree, index and HEAD agree. */
  ghost predicate Clean(s: State) {
    FileSystem(s.work, s.dirs) && s.work == s.index == Head(s)
  }

  ghost predicate AllValid(s: State, ops: seq<Op>) {
    forall i :: 0 <= i < |ops| ==> Validate(s, ops[i]).None?
  }

  lemma {:induction false} NoErrorMeansAllValid(s: State, ops: seq<Op>)
    ensures FirstError(s, ops).None? <==> AllValid(s, ops)
  {
    if ops != [] {
      NoErrorMeansAllValid(s, ops[1..]);
      if FirstError(s, ops).None? {
        forall i | 0 <= i < |ops| ensures Validate(s, ops[i]).None? {
          if i > 0 { assert ops[i] == ops[1..][i - 1]; }
        }
      }
      if AllValid(s, ops) {
        assert Validate(s, ops[0]).None?;
        forall i | 0 <= i < |ops[1..]| ensures Validate(s, ops[1..][i]).None? { assert ops[1..][i] == ops[i + 1]; }
      }
    }
  }
}
