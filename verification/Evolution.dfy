/** What a batch makes of one file, operation by operation, and where a failing batch leaves the tree. */
module Evolution {
  import opened Base
  import opened Edits
  import opened Paths
  import opened Store
  import opened Atomicity
  import opened Transactions

  /** The content of file `p` after the operations (`None`: no file), computed from the batch and the file alone. */
  function Evolve(ops: seq<Op>, p: Path, current: Option<string>): Option<string> {
    if ops == [] then current
    else
      var op := ops[|ops| - 1];
      var before := Evolve(ops[..|ops| - 1], p, current);
      if op.path == p then NewContent(op, before) else before
  }

  /** A write loop that goes through leaves every file as its own operations make it, same paths or not. */
  lemma {:induction false} LoopEvolves(s: State, ops: seq<Op>, p: Path)
    requires ApplyAll(s, ops).ok
    ensures Lookup(ApplyAll(s, ops).state.work, p) == Evolve(ops, p, Lookup(s.work, p))
  {
    hide NewContent, ApplyOp;
    if ops != [] {
      var front := ops[..|ops| - 1];
      LoopEvolves(s, front, p);
      StepContent(ApplyAll(s, front).state, ops[|ops| - 1], p);
    }
  }

  lemma {:induction false} UnnamedDoesNotEvolve(ops: seq<Op>, p: Path, current: Option<string>)
    requires forall i :: 0 <= i < |ops| ==> ops[i].path != p
    ensures Evolve(ops, p, current) == current
  {
    if ops != [] { UnnamedDoesNotEvolve(ops[..|ops| - 1], p, current); }
  }

  /** Distinct paths: half-way a file is as before the batch or as after it. */
  lemma {:induction false} DistinctChangeOnce(ops: seq<Op>, k: nat, p: Path, was: Option<string>)
    requires DistinctPaths(ops) && k <= |ops|
    ensures Evolve(ops[..k], p, was) == was || Evolve(ops[..k], p, was) == Evolve(ops, p, was)
  {
    hide NewContent;
    if k == |ops| {
      assert ops[..k] == ops;
    } else {
      var front := ops[..|ops| - 1];
      assert front[..k] == ops[..k];
      DistinctChangeOnce(front, k, p, was);
      if ops[|ops| - 1].path == p { UnnamedDoesNotEvolve(ops[..k], p, was); }
    }
  }

  // ---- The first clash ----------------------------------------------------------------------

  /** How many operations are applied before one clashes: all of them in a batch free of clashes. */
  function FirstClash(s: State, ops: seq<Op>): (n: nat)
    ensures n <= |ops|
  {
    if ops == [] then 0
    else
      var front := ops[..|ops| - 1];
      var n := FirstClash(s, front);
      if n < |front| || Clash(s, front, ops[|ops| - 1]) then n else |ops|
  }

  lemma {:induction false} LoopStopsAtTheFirstClash(s: State, ops: seq<Op>)
    requires s.work == s.index
    ensures var n := FirstClash(s, ops);
            && ApplyAll(s, ops[..n]).ok
            && (ClashFree(s, ops) <==> n == |ops|)
            && (n < |ops| ==> ApplyAll(s, ops) == ApplyOp(ApplyAll(s, ops[..n]).state, ops[n]) && !ApplyAll(s, ops).ok)
  {
    hide Clash, ApplyOp;
    var n := FirstClash(s, ops);
    if ops != [] {
      var front, op := ops[..|ops| - 1], ops[|ops| - 1];
      LoopStopsAtTheFirstClash(s, front);
      assert front + [op] == ops && front[..|front|] == front && ops[..|ops|] == ops;
      ClashFreeSnoc(s, front, op);
      if n < |ops| {
        assert front[..n] == ops[..n];
        if n == |front| { WritePhaseIsExact(s, ops); }
      } else {
        WritePhaseIsExact(s, ops);
      }
    }
  }

  /** A step that fails changes no file and not the index; it may have made directories. */
  lemma FailedStep(s: State, op: Op)
    requires s.work == s.index && FileSystem(s.work, s.dirs) && !ApplyOp(s, op).ok
    ensures var t := ApplyOp(s, op).state;
            t == s.(dirs := t.dirs) && FileSystem(t.work, t.dirs)
  {
    if op.typ != Delete && Parents(op.path) !! s.work.Keys { MakingParentsKeepsFileSystem(s, op.path); }
  }

  lemma MakingParentsKeepsFileSystem(s: State, p: Path)
    requires FileSystem(s.work, s.dirs) && Parents(p) !! s.work.Keys
    ensures FileSystem(s.work, s.dirs + Parents(p))
  {
    forall q, i | q in Parents(p) && 0 < i < |q| ensures q[..i] in Parents(p) {
      assert q[..i] == p[..i];
    }
  }

  /** A prefix that can be applied ends before the first clash. */
  lemma AppliedPrefixIsShort(s: State, ops: seq<Op>, k: nat)
    requires s.work == s.index && k <= |ops| && ApplyAll(s, ops[..k]).ok
    ensures k <= FirstClash(s, ops)
  {
    hide Clash, ApplyOp;
    var n := FirstClash(s, ops);
    if n < k {
      LoopStopsAtTheFirstClash(s, ops);
      WritePhaseIsExact(s, ops[..n + 1]);
      assert ops[..n + 1][..n] == ops[..n];
      WritePhaseIsExact(s, ops[..k]);
      var short, long := ops[..n + 1], ops[..k];
      forall j | 0 <= j < |short| ensures !Clash(s, short[..j], short[j]) {
        assert long[..j] == short[..j] && long[j] == short[j];
      }
    }
  }

  // ---- Where a failing batch leaves the tree --------------------------------------------------

  /** The operations of the batch that are applied: none if it is refused, otherwise those before the first clash. */
  function Applicable(s: State, ops: seq<Op>): seq<Op> {
    if FirstError(s, ops).Some? then [] else ops[..FirstClash(s, ops)]
  }

  /** The batch passes validation, fails, and what it did until then changed a file it names. */
  ghost predicate Tears(s: State, ops: seq<Op>) {
    var done := Applicable(s, ops);
    FirstError(s, ops).None? && |done| < |ops| &&
    exists i :: 0 <= i < |done| &&
      Evolve(done, done[i].path, Lookup(s.work, done[i].path)) != Lookup(s.work, done[i].path)
  }

  /** The batch takes a file away on the way and has it again when it ends. */
  ghost predicate Flickers(s: State, ops: seq<Op>, p: Path) {
    var done, was := Applicable(s, ops), Lookup(s.work, p);
    was.Some? && Evolve(done, p, was).Some? && exists k :: 0 <= k <= |done| && Evolve(done[..k], p, was).None?
  }

  /**
   * The state after the batch, whatever its outcome: files evolve by the applied operations, and only a success
   * commits.
   */
  lemma BatchLeaves(s: State, ops: seq<Op>, meta: Meta, p: Path)
    requires Clean(s) && ops != []
    ensures var t, done := Transact(s, ops, meta), Applicable(s, ops);
            && Lookup(t.state.work, p) == Evolve(done, p, Lookup(s.work, p))
            && t.state.work == t.state.index && FileSystem(t.state.work, t.state.dirs)
            && (t.outcome.Done? <==> FirstError(s, ops).None? && |done| == |ops|)
            && (t.outcome.Raised? ==> Head(t.state) == Head(s))
            && (t.outcome.Done? ==> Head(t.state) == t.state.work)
  {
    hide ApplyOp, Clash, FirstError, Evolve, ResultFiles, Dedup, OpPaths, FileSystem;
    if FirstError(s, ops).Some? {
      UnnamedDoesNotEvolve([], p, Lookup(s.work, p));
    } else {
      var n := FirstClash(s, ops);
      LoopStopsAtTheFirstClash(s, ops);
      LoopEvolves(s, ops[..n], p);
      LoopTracks(s, ops[..n]);
      LoopKeepsFileSystem(s, ops[..n]);
      if n < |ops| { FailedStep(ApplyAll(s, ops[..n]).state, ops[n]); } else { assert ops[..n] == ops; }
    }
  }

  /** After a failed write phase working tree, index and HEAD still agree exactly when the batch does not tear. */
  lemma CleanUnlessTorn(s: State, ops: seq<Op>, meta: Meta)
    requires Clean(s)
    ensures Clean(Transact(s, ops, meta).state) <==> !Tears(s, ops)
  {
    hide Evolve, FirstError, Transact, FileSystem;
    if ops != [] {
      var t, done := Transact(s, ops, meta), Applicable(s, ops);
      forall p ensures Lookup(t.state.work, p) == Evolve(done, p, Lookup(s.work, p)) { BatchLeaves(s, ops, meta, p); }
      BatchLeaves(s, ops, meta, []);
      if !Tears(s, ops) && t.outcome.Raised? {
        forall p ensures Lookup(t.state.work, p) == Lookup(Head(s), p) { UntornFile(s, ops, p); }
        SameLookups(t.state.work, Head(s));
      }
    } else {
      EmptyBatch(s, meta);
    }
  }

  lemma EmptyBatch(s: State, meta: Meta)
    ensures Transact(s, [], meta).state == s && FirstError(s, []).None?
  {}

  lemma UntornFile(s: State, ops: seq<Op>, p: Path)
    requires !Tears(s, ops) && (FirstError(s, ops).Some? || |Applicable(s, ops)| < |ops|)
    ensures Evolve(Applicable(s, ops), p, Lookup(s.work, p)) == Lookup(s.work, p)
  {
    hide Evolve, FirstError, FirstClash;
    var done := Applicable(s, ops);
    if exists i :: 0 <= i < |done| && done[i].path == p {
      assert FirstError(s, ops).None?;
    } else {
      UnnamedDoesNotEvolve(done, p, Lookup(s.work, p));
    }
  }

  /**
   * The commit after a torn batch: whoever makes it, a file its batch does not name changes in HEAD exactly
   * where the torn batch had changed it, to the content the torn batch left.
   */
  lemma TornFilesAreCarried(s: State, torn: seq<Op>, m1: Meta, next: seq<Op>, m2: Meta, p: Path)
    requires Clean(s) && torn != [] && Transact(s, torn, m1).outcome.Raised?
    requires Transact(Transact(s, torn, m1).state, next, m2).outcome.Done?
    requires p !in OpPaths(next)
    ensures Lookup(Head(Transact(Transact(s, torn, m1).state, next, m2).state), p)
            == Evolve(Applicable(s, torn), p, Lookup(Head(s), p))
  {
    hide Transact, Evolve, FileSystem, Applicable;
    BatchLeaves(s, torn, m1, p);
    var mid := Transact(s, torn, m1).state;
    CommitKeepsUnnamed(mid, next, m2, p);
  }

  lemma CommitKeepsUnnamed(s: State, ops: seq<Op>, meta: Meta, p: Path)
    requires s.work == s.index && Transact(s, ops, meta).outcome.Done? && p !in OpPaths(ops)
    ensures Lookup(Head(Transact(s, ops, meta).state), p) == Lookup(s.work, p)
  {
    hide ApplyOp;
    LoopTouchesOnlyItsPaths(s, ops, p);
    LoopTracks(s, ops);
  }

  // ---- Edits without effect ---------------------------------------------------------------------

  lemma ReplacingIsIdleIff(s: string, old_: string, new_: string)
    ensures ReplaceFirst(s, old_, new_) == s <==> old_ == new_ || forall i :: !At(s, old_, i)
  {
    match Find(s, old_, 0)
    case None =>
    case Some(i) =>
      var r := ReplaceFirst(s, old_, new_);
      assert At(s, old_, i) && s == s[..i] + old_ + s[i + |old_|..];
      if r == s {
        assert |new_| == |old_|;
        assert new_ == r[i..i + |new_|] == s[i..i + |old_|] == old_;
      }
  }

  /**
   * An edit of a committed batch has no effect exactly when its old text is its new text or starts nowhere
   * in what the earlier operations of the batch made of the file. Without an earlier operation on its path,
   * only the first can be.
   */
  lemma EditIsLostIff(s: State, ops: seq<Op>, meta: Meta, k: nat)
    requires Clean(s) && Transact(s, ops, meta).outcome.Done? && k < |ops| && ops[k].typ == Edit
    ensures var op := ops[k];
            var c := Evolve(ops[..k], op.path, Lookup(Head(s), op.path));
            && c.Some? && op.oldStr.Some? && op.newStr.Some?
            && (ApplyAll(s, ops[..k + 1]).state.work == ApplyAll(s, ops[..k]).state.work
                <==> op.oldStr == op.newStr || forall i :: !At(c.value, op.oldStr.value, i))
            && (op.path !in OpPaths(ops[..k]) ==> exists i :: At(c.value, op.oldStr.value, i))
  {
    hide ReplaceFirst, Find, Count, Clash, CheckVersion, Dedup, ResultFiles, FirstError;
    var op := ops[k];
    DoneIsClean(s, ops, meta);
    WritePhaseIsExact(s, ops);
    LoopPrefix(s, ops, k);
    var mid := ApplyAll(s, ops[..k]).state;
    LoopEvolves(s, ops[..k], op.path);
    EditStep(mid, op);
    ValidEdit(s, op);
    ReplacingIsIdleIff(mid.work[op.path], op.oldStr.value, op.newStr.value);
    if op.path !in OpPaths(ops[..k]) {
      LoopTouchesOnlyItsPaths(s, ops[..k], op.path);
      CountIsZero(s.work[op.path], op.oldStr.value);
    }
  }

  lemma ValidEdit(s: State, op: Op)
    requires op.typ == Edit && Validate(s, op).None?
    ensures op.path in s.work && op.oldStr.Some? && op.newStr.Some? && Count(s.work[op.path], op.oldStr.value) == 1
  {}

  lemma EditStep(s: State, op: Op)
    requires op.typ == Edit && ApplyOp(s, op).ok
    ensures op.path in s.work
    ensures var text := ReplaceFirst(s.work[op.path], OrEmpty(op.oldStr), OrEmpty(op.newStr));
            ApplyOp(s, op).state.work == s.work[op.path := text]
  {}

  /** Every prefix of a loop that goes through goes through. */
  lemma {:induction false} LoopPrefix(s: State, ops: seq<Op>, k: nat)
    requires k < |ops| && ApplyAll(s, ops).ok
    ensures ApplyAll(s, ops[..k]).ok && ApplyAll(s, ops[..k + 1]) == ApplyOp(ApplyAll(s, ops[..k]).state, ops[k])
    ensures ApplyAll(s, ops[..k + 1]).ok
  {
    var front := ops[..|ops| - 1];
    if k + 1 < |ops| {
      assert front[..k] == ops[..k] && front[..k + 1] == ops[..k + 1];
      LoopPrefix(s, front, k);
    } else {
      assert ops[..k + 1] == ops && ops[..k] == front;
    }
  }

  // ---- Two operations on one path -----------------------------------------------------------------

  lemma TwoOps(ops: seq<Op>, p: Path, c: Option<string>)
    requires |ops| == 2 && ops[0].path == ops[1].path == p
    ensures Evolve(ops[..1], p, c) == NewContent(ops[0], c)
            && Evolve(ops, p, c) == NewContent(ops[1], NewContent(ops[0], c))
  {
    assert ops[..1][..0] == [] && Evolve([], p, c) == c;
  }

  /**
   * Two edits of one file that each match once in the file commit together; the batch leaves what the first
   * edit alone leaves exactly when the second finds nothing any more or changes nothing.
   */
  lemma SecondEditOfAPathIsLostIff(s: State, p: Path, e1: Op, e2: Op, meta: Meta)
    requires Clean(s) && e1.path == e2.path == p && e1.typ == e2.typ == Edit
    requires Validate(s, e1).None? && Validate(s, e2).None?
    ensures var t := Transact(s, [e1, e2], meta);
            var first := ReplaceFirst(Head(s)[p], e1.oldStr.value, e1.newStr.value);
            && t.outcome.Done?
            && (Lookup(Head(t.state), p) == Some(first) <==>
               e2.oldStr == e2.newStr || forall i :: !At(first, e2.oldStr.value, i))
  {
    hide ReplaceFirst, Count, Validate, Transact, ApplyOp, Clash, FirstError, FileSystem, Tears;
    var ops := [e1, e2];
    ValidEdit(s, e1);
    ValidEdit(s, e2);
    NoErrorMeansAllValid(s, ops);
    EditsNeverClash(s, ops);
    LoopStopsAtTheFirstClash(s, ops);
    TwoOps(ops, p, Lookup(s.work, p));
    BatchLeaves(s, ops, meta, p);
    ReplacingIsIdleIff(ReplaceFirst(s.work[p], e1.oldStr.value, e1.newStr.value), e2.oldStr.value, e2.newStr.value);
  }

  lemma EditsNeverClash(s: State, ops: seq<Op>)
    requires Clean(s) && |ops| == 2 && ops[0].typ == ops[1].typ == Edit && ops[0].path == ops[1].path
             && ops[0].path in s.work
    ensures ClashFree(s, ops)
  {
    var p := ops[0].path;
    assert ops[..0] == [] && ops[..1] == [ops[0]] && [ops[0]][..0] == [];
    forall q | q in Parents(p) ensures q !in s.work && q != p {
      var i :| 0 < i < |p| && q == p[..i];
      assert q in s.dirs;
    }
    assert !Clash(s, ops[..0], ops[0]);
    assert !WroteBelow(ops[..1], p);
    assert !Clash(s, ops[..1], ops[1]);
  }

  /**
   * Deleting one file twice in a batch passes validation and fails half-way on every clean store: the file
   * is gone from working tree and index although nothing was committed, and the next commit of anybody that
   * does not name it takes it out of HEAD.
   */
  lemma DuplicateDeleteTearsTheTree(s: State, p: Path, m1: Meta, next: seq<Op>, m2: Meta)
    requires Clean(s) && p in s.work
    ensures var op := DeleteOp(p, Blob(s.work[p]));
            var torn := Transact(s, [op, op], m1);
            && AllValid(s, [op, op]) && Tears(s, [op, op]) && torn.outcome == Raised(Crash)
            && torn.state == s.(work := s.work - {p}, index := s.index - {p})
            && (Transact(torn.state, next, m2).outcome.Done? && p !in OpPaths(next) ==>
                  p in Head(torn.state) && p !in Head(Transact(torn.state, next, m2).state))
  {
    hide Transact, FirstError, FileSystem, Clash, Validate, ApplyOp;
    var op := DeleteOp(p, Blob(s.work[p]));
    var ops := [op, op];
    TwoDeletes(s, p, op);
    NoErrorMeansAllValid(s, ops);
    LoopStopsAtTheFirstClash(s, ops);
    WritePhaseIsExact(s, ops);
    CrashIffClash(s, ops, m1);
    TwoOps(ops, p, Lookup(s.work, p));
    assert Applicable(s, ops) == ops[..1] == [op];
    assert Evolve(Applicable(s, ops), op.path, Lookup(s.work, op.path)) != Lookup(s.work, op.path);
    TearsLeaves(s, ops, m1);
    if Transact(Transact(s, ops, m1).state, next, m2).outcome.Done? && p !in OpPaths(next) {
      TornFilesAreCarried(s, ops, m1, next, m2, p);
    }
  }

  lemma TwoDeletes(s: State, p: Path, op: Op)
    requires Clean(s) && p in s.work && op == DeleteOp(p, Blob(s.work[p]))
    ensures var gone := s.(work := s.work - {p}, index := s.index - {p});
            && Validate(s, op).None? && FirstClash(s, [op, op]) == 1 && ApplyAll(s, [op, op]) == Applied(gone, false)
  {
    assert [op, op][..1] == [op] && [op][..0] == [];
    assert FirstClash(s, []) == 0 && ApplyAll(s, []) == Applied(s, true);
    assert !Clash(s, [], op);
    assert FirstClash(s, [op]) == 1 && Clash(s, [op], op);
    var gone := s.(work := s.work - {p}, index := s.index - {p});
    assert ApplyOp(s, op) == Applied(gone, true);
  }

  lemma TearsLeaves(s: State, ops: seq<Op>, meta: Meta)
    requires ops != [] && FirstError(s, ops).None? && !ApplyAll(s, ops).ok
    ensures Transact(s, ops, meta).state == ApplyAll(s, ops).state
  {}
}
