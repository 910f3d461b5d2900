/** When the write phase of a transaction can fail, and what it does when it cannot. */
module Atomicity {
  import opened Base
  import opened Paths
  import opened Store

  // ---- Exactly when phase 2 fails --------------------------------------------------

  /** `q` is a file once `done` has been applied: the last operation on it decides. */
  predicate Live(s: State, done: seq<Op>, q: Path) {
    if done == [] then q in s.work
    else if done[|done| - 1].path == q then done[|done| - 1].typ != Delete
    else Live(s, done[..|done| - 1], q)
  }

  /** Some operation of `done` wrote below `q`. */
  predicate WroteBelow(done: seq<Op>, q: Path) {
    exists i :: 0 <= i < |done| && done[i].typ != Delete && q in Parents(done[i].path)
  }

  /** `op` cannot follow `done`: its file is gone, its path is a directory, or a file is in the way. */
  predicate Clash(s: State, done: seq<Op>, op: Op) {
    if op.typ == Delete then !Live(s, done, op.path)
    else
      || (exists q :: q in Parents(op.path) && Live(s, done, q))
      || op.path == [] || op.path in s.dirs || WroteBelow(done, op.path)
      || (op.typ == Edit && !Live(s, done, op.path))
  }

  predicate ClashFree(s: State, ops: seq<Op>) {
    forall j :: 0 <= j < |ops| ==> !Clash(s, ops[..j], ops[j])
  }

  lemma WroteBelowSnoc(done: seq<Op>, op: Op, q: Path)
    ensures WroteBelow(done + [op], q) <==> WroteBelow(done, q) || (op.typ != Delete && q in Parents(op.path))
  {
    if WroteBelow(done, q) {
      var i :| 0 <= i < |done| && done[i].typ != Delete && q in Parents(done[i].path);
      assert (done + [op])[i] == done[i];
    }
    assert (done + [op])[|done|] == op;
  }

  /** Files and directories after a write loop that went through. */
  ghost predicate Tracks(s: State, done: seq<Op>, now: State) {
    && now.work == now.index
    && now.commits == s.commits
    && (forall q :: q in now.work <==> Live(s, done, q))
    && (forall q :: q in now.dirs <==> q in s.dirs || WroteBelow(done, q))
  }

  lemma StepIsExact(s: State, done: seq<Op>, now: State, op: Op)
    requires Tracks(s, done, now)
    ensures ApplyOp(now, op).ok <==> !Clash(s, done, op)
  {
    assert op.path !in Parents(op.path);
  }

  lemma StepTracks(s: State, done: seq<Op>, now: State, op: Op)
    requires Tracks(s, done, now) && ApplyOp(now, op).ok
    ensures Tracks(s, done + [op], ApplyOp(now, op).state)
  {
    assert (done + [op])[..|done|] == done;
    var next := ApplyOp(now, op).state;
    forall q ensures q in next.dirs <==> q in s.dirs || WroteBelow(done + [op], q) {
      WroteBelowSnoc(done, op, q);
    }
  }

  lemma {:induction false} LoopTracks(s: State, ops: seq<Op>)
    requires s.work == s.index && ApplyAll(s, ops).ok
    ensures Tracks(s, ops, ApplyAll(s, ops).state)
  {
    if ops != [] {
      var front, op := ops[..|ops| - 1], ops[|ops| - 1];
      LoopTracks(s, front);
      StepTracks(s, front, ApplyAll(s, front).state, op);
      assert front + [op] == ops;
    }
  }

  lemma ClashFreeSnoc(s: State, front: seq<Op>, op: Op)
    ensures ClashFree(s, front + [op]) <==> ClashFree(s, front) && !Clash(s, front, op)
  {
    var ops := front + [op];
    assert ops[..|front|] == front && ops[|front|] == op;
    forall j | 0 <= j < |front| ensures ops[..j] == front[..j] && ops[j] == front[j] {}
    if ClashFree(s, ops) {
      forall j | 0 <= j < |front| ensures !Clash(s, front[..j], front[j]) {
        assert !Clash(s, ops[..j], ops[j]);
      }
    }
  }

  /** On a tree whose index matches it, the write loop goes through exactly when no operation clashes. */
  lemma {:induction false} WritePhaseIsExact(s: State, ops: seq<Op>)
    requires s.work == s.index
    ensures ApplyAll(s, ops).ok <==> ClashFree(s, ops)
  {
    if ops != [] {
      var front, op := ops[..|ops| - 1], ops[|ops| - 1];
      WritePhaseIsExact(s, front);
      assert front + [op] == ops;
      ClashFreeSnoc(s, front, op);
      if ApplyAll(s, front).ok {
        LoopTracks(s, front);
        StepIsExact(s, front, ApplyAll(s, front).state, op);
      }
    }
  }

  /** Only committing changes the history, whether or not the writes go through. */
  lemma {:induction false} LoopKeepsCommits(s: State, ops: seq<Op>)
    ensures ApplyAll(s, ops).state.commits == s.commits
  {
    if ops != [] { LoopKeepsCommits(s, ops[..|ops| - 1]); }
  }

  // ---- The tree stays a tree ---------------------------------------------------------

  lemma StepKeepsFileSystem(s: State, op: Op)
    requires FileSystem(s.work, s.dirs) && ApplyOp(s, op).ok
    ensures FileSystem(ApplyOp(s, op).state.work, ApplyOp(s, op).state.dirs)
  {
    var next := ApplyOp(s, op).state;
    if op.typ != Delete {
      forall p, i | (p in next.work || p in next.dirs) && 0 < i < |p| ensures p[..i] in next.dirs {
        if p in Parents(op.path) {
          var k :| 0 < k < |op.path| && p == op.path[..k];
          assert p[..i] == op.path[..i];
        }
      }
    }
  }

  lemma {:induction false} LoopKeepsFileSystem(s: State, ops: seq<Op>)
    requires FileSystem(s.work, s.dirs) && ApplyAll(s, ops).ok
    ensures FileSystem(ApplyAll(s, ops).state.work, ApplyAll(s, ops).state.dirs)
  {
    if ops != [] {
      LoopKeepsFileSystem(s, ops[..|ops| - 1]);
      StepKeepsFileSystem(ApplyAll(s, ops[..|ops| - 1]).state, ops[|ops| - 1]);
    }
  }

  /** A transaction that returns leaves working tree, index and HEAD in agreement, with one commit more. */
  lemma DoneIsClean(s: State, ops: seq<Op>, meta: Meta)
    requires Clean(s) && Transact(s, ops, meta).outcome.Done?
    ensures Clean(Transact(s, ops, meta).state)
    ensures Transact(s, ops, meta).state.commits
            == s.commits + [Commit(ApplyAll(s, ops).state.work, meta, Dedup(OpPaths(ops)))]
    ensures AllValid(s, ops) && ClashFree(s, ops)
  {
    NoErrorMeansAllValid(s, ops);
    WritePhaseIsExact(s, ops);
    LoopKeepsFileSystem(s, ops);
    LoopTracks(s, ops);
  }

  // ---- Simultaneous application --------------------------------------------------------

  predicate DistinctPaths(ops: seq<Op>) {
    forall i, j :: 0 <= i < j < |ops| ==> ops[i].path != ops[j].path
  }

  /** The file's content when all operations act at once on `work`. */
  ghost predicate AllAtOnce(work: Tree, ops: seq<Op>, result: Tree) {
    && (forall i :: 0 <= i < |ops| ==> Lookup(result, ops[i].path) == NewContent(ops[i], Lookup(work, ops[i].path)))
    && (forall p :: p !in OpPaths(ops) ==> Lookup(result, p) == Lookup(work, p))
  }

  lemma MorePaths(a: seq<Op>, b: seq<Op>)
    requires forall x :: x in a ==> x in b
    ensures forall p :: p in OpPaths(a) ==> p in OpPaths(b)
  {
    forall p | p in OpPaths(a) ensures p in OpPaths(b) {
      var k :| 0 <= k < |a| && OpPaths(a)[k] == p;
      assert a[k] in b;
      var j :| 0 <= j < |b| && b[j] == a[k];
      assert OpPaths(b)[j] == p;
    }
  }

  lemma StepContent(s: State, op: Op, p: Path)
    requires ApplyOp(s, op).ok
    ensures Lookup(ApplyOp(s, op).state.work, p) ==
            if p == op.path then NewContent(op, Lookup(s.work, p)) else Lookup(s.work, p)
  {}

  lemma {:induction false} LoopActsAtOnce(s: State, ops: seq<Op>)
    requires ApplyAll(s, ops).ok && DistinctPaths(ops)
    ensures AllAtOnce(s.work, ops, ApplyAll(s, ops).state.work)
  {
    if ops != [] {
      var front, op := ops[..|ops| - 1], ops[|ops| - 1];
      var mid, end := ApplyAll(s, front).state, ApplyAll(s, ops).state;
      LoopActsAtOnce(s, front);
      assert op.path !in OpPaths(front);
      forall i | 0 <= i < |ops|
        ensures Lookup(end.work, ops[i].path) == NewContent(ops[i], Lookup(s.work, ops[i].path))
      {
        StepContent(mid, op, ops[i].path);
        if i < |front| { assert ops[i] == front[i]; }
      }
      forall p | p !in OpPaths(ops) ensures Lookup(end.work, p) == Lookup(s.work, p) {
        assert OpPaths(ops)[|front|] == op.path;
        MorePaths(front, ops);
        StepContent(mid, op, p);
      }
    }
  }

  lemma SameLookups(a: Tree, b: Tree)
    requires forall p :: Lookup(a, p) == Lookup(b, p)
    ensures a == b
  {
    forall p ensures (p in a <==> p in b) && (p in a ==> a[p] == b[p]) {
      assert Lookup(a, p) == Lookup(b, p);
    }
  }

  /** The simultaneous result does not depend on the order of the operations. */
  lemma AtOnceIgnoresOrder(work: Tree, ops: seq<Op>, perm: seq<Op>, a: Tree, b: Tree)
    requires multiset(ops) == multiset(perm)
    requires AllAtOnce(work, ops, a) && AllAtOnce(work, perm, b)
    ensures a == b
  {
    forall p ensures Lookup(a, p) == Lookup(b, p) {
      if p in OpPaths(ops) {
        var i :| 0 <= i < |ops| && OpPaths(ops)[i] == p;
        assert ops[i] in multiset(perm);
        var j :| 0 <= j < |perm| && perm[j] == ops[i];
      } else {
        PermutationHasTheSame(perm, ops);
        MorePaths(perm, ops);
      }
    }
    SameLookups(a, b);
  }

  // ---- Batches that may be applied in any order ------------------------------------------

  /** Paths pairwise distinct and none inside another, none names a directory, none lies below a file. */
  ghost predicate Compatible(s: State, ops: seq<Op>) {
    && DistinctPaths(ops)
    && (forall i, j :: 0 <= i < |ops| && 0 <= j < |ops| ==> ops[j].path !in Parents(ops[i].path))
    && (forall i :: 0 <= i < |ops| ==> !IsDir(s, ops[i].path))
    && (forall i, q :: 0 <= i < |ops| && q in Parents(ops[i].path) ==> q !in s.work)
  }

  lemma {:induction false} LiveOffPath(s: State, done: seq<Op>, q: Path)
    requires forall i :: 0 <= i < |done| ==> done[i].path != q
    ensures Live(s, done, q) <==> q in s.work
  {
    if done != [] { LiveOffPath(s, done[..|done| - 1], q); }
  }

  lemma CompatibleIsClashFree(s: State, ops: seq<Op>)
    requires AllValid(s, ops) && Compatible(s, ops)
    ensures ClashFree(s, ops)
  {
    forall j | 0 <= j < |ops| ensures !Clash(s, ops[..j], ops[j]) {
      var op := ops[j];
      assert Validate(s, op).None?;
      LiveOffPath(s, ops[..j], op.path);
      forall q | q in Parents(op.path) ensures !Live(s, ops[..j], q) {
        LiveOffPath(s, ops[..j], q);
      }
    }
  }

  lemma DistinctUnderPermutation(ops: seq<Op>, perm: seq<Op>)
    requires multiset(ops) == multiset(perm) && DistinctPaths(ops)
    ensures DistinctPaths(perm)
  {
    PermutationHasTheSame(perm, ops);
    forall i, j | 0 <= i < j < |perm| ensures perm[i].path != perm[j].path {
      assert perm[i] in ops && perm[j] in ops;
      var a :| 0 <= a < |ops| && ops[a] == perm[i];
      var b :| 0 <= b < |ops| && ops[b] == perm[j];
      TwoOccurrences(perm, i, j);
      SingleOccurrence(ops, a);
    }
  }

  lemma TwoOccurrences(s: seq<Op>, i: nat, j: nat)
    requires i < j < |s|
    ensures s[i] == s[j] ==> multiset(s)[s[i]] >= 2
  {
    assert s == s[..j] + [s[j]] + s[j + 1..];
    assert s[i] in s[..j];
  }

  lemma SingleOccurrence(s: seq<Op>, i: nat)
    requires i < |s| && DistinctPaths(s)
    ensures multiset(s)[s[i]] == 1
  {
    assert s == s[..i] + [s[i]] + s[i + 1..];
  }

  lemma CompatibleUnderPermutation(s: State, ops: seq<Op>, perm: seq<Op>)
    requires multiset(ops) == multiset(perm) && Compatible(s, ops) && AllValid(s, ops)
    ensures Compatible(s, perm) && AllValid(s, perm)
  {
    DistinctUnderPermutation(ops, perm);
    PermutationHasTheSame(perm, ops);
    forall i | 0 <= i < |perm|
      ensures Validate(s, perm[i]).None? && !IsDir(s, perm[i].path)
      ensures forall q :: q in Parents(perm[i].path) ==> q !in s.work
      ensures forall j :: 0 <= j < |perm| ==> perm[j].path !in Parents(perm[i].path)
    {
      assert perm[i] in ops;
      var a :| 0 <= a < |ops| && ops[a] == perm[i];
      forall j | 0 <= j < |perm| ensures perm[j].path !in Parents(perm[i].path) {
        assert perm[j] in ops;
        var b :| 0 <= b < |ops| && ops[b] == perm[j];
      }
    }
  }

  /** Atomicity for compatible batches: every order of them goes through and gives the same tree. */
  lemma CompatibleInAnyOrder(s: State, ops: seq<Op>, perm: seq<Op>)
    requires Clean(s) && AllValid(s, ops) && Compatible(s, ops) && multiset(ops) == multiset(perm)
    ensures ApplyAll(s, ops).ok && ApplyAll(s, perm).ok
    ensures AllAtOnce(s.work, ops, ApplyAll(s, ops).state.work)
    ensures ApplyAll(s, perm).state.work == ApplyAll(s, ops).state.work
  {
    CompatibleUnderPermutation(s, ops, perm);
    CompatibleIsClashFree(s, ops);
    CompatibleIsClashFree(s, perm);
    WritePhaseIsExact(s, ops);
    WritePhaseIsExact(s, perm);
    LoopActsAtOnce(s, ops);
    LoopActsAtOnce(s, perm);
    AtOnceIgnoresOrder(s.work, ops, perm, ApplyAll(s, ops).state.work, ApplyAll(s, perm).state.work);
  }

  ghost predicate EveryOrderApplies(s: State, ops: seq<Op>) {
    forall perm :: multiset(perm) == multiset(ops) ==> ApplyAll(s, perm).ok
  }

  /** Some order starts with operation i. */
  lemma FirstCannotClash(s: State, ops: seq<Op>, i: nat)
    requires s.work == s.index && EveryOrderApplies(s, ops) && i < |ops|
    ensures !Clash(s, [], ops[i])
  {
    var perm := MoveFirst(ops, i);
    MoveFirstPermutes(ops, i);
    WritePhaseIsExact(s, perm);
    assert perm[..0] == [] && perm[0] == ops[i];
    assert !Clash(s, perm[..0], perm[0]);
  }

  /** Some order starts with operations j, i. */
  lemma SecondCannotClash(s: State, ops: seq<Op>, j: nat, i: nat)
    requires s.work == s.index && EveryOrderApplies(s, ops) && i < |ops| && j < |ops| && i != j
    ensures !Clash(s, [ops[j]], ops[i])
  {
    hide Clash, Live, ApplyAll;
    var once := MoveFirst(ops, i);
    var k := if j < i then j + 1 else j;
    assert once[k] == ops[j];
    var perm := MoveFirst(once, k);
    MoveFirstPermutes(ops, i);
    MoveFirstPermutes(once, k);
    WritePhaseIsExact(s, perm);
    assert perm[1] == once[0] == ops[i] && perm[..1] == [ops[j]];
    assert !Clash(s, perm[..1], perm[1]);
  }

  /** A valid operation on a path without a file is a creation. */
  lemma AbsentMeansCreation(s: State, op: Op)
    requires Validate(s, op).None? && op.path !in s.work
    ensures op.typ == Write || op.typ == Upload
  {}

  lemma EveryOrderMeansNoDirNoFileAbove(s: State, ops: seq<Op>, i: nat)
    requires Clean(s) && AllValid(s, ops) && EveryOrderApplies(s, ops) && i < |ops|
    ensures !IsDir(s, ops[i].path)
    ensures forall q :: q in Parents(ops[i].path) ==> q !in s.work
  {
    var op := ops[i];
    assert Validate(s, op).None?;
    FirstCannotClash(s, ops, i);
    if op.path !in s.work {
      AbsentMeansCreation(s, op);
      forall q | q in Parents(op.path) ensures q !in s.work {
        assert !Live(s, [], q);
      }
    }
  }

  lemma EveryOrderMeansNotInside(s: State, ops: seq<Op>, j: nat, i: nat)
    requires Clean(s) && AllValid(s, ops) && EveryOrderApplies(s, ops) && i < |ops| && j < |ops|
    ensures ops[j].path !in Parents(ops[i].path)
  {
    if i != j && ops[j].path in Parents(ops[i].path) {
      EveryOrderMeansNoDirNoFileAbove(s, ops, i);
      EveryOrderMeansNoDirNoFileAbove(s, ops, j);
      AbsentMeansCreation(s, ops[j]);
      assert ops[i].path !in s.work;
      AbsentMeansCreation(s, ops[i]);
      assert Live(s, [ops[j]], ops[j].path);
      SecondCannotClash(s, ops, j, i);
    }
  }

  /**
   * Compatible is exactly what lets a valid batch of distinct paths go through in every order.
   */
  lemma CompatibleIffEveryOrderApplies(s: State, ops: seq<Op>)
    requires Clean(s) && AllValid(s, ops) && DistinctPaths(ops)
    ensures Compatible(s, ops) <==> EveryOrderApplies(s, ops)
  {
    if Compatible(s, ops) {
      forall perm | multiset(perm) == multiset(ops) ensures ApplyAll(s, perm).ok {
        CompatibleInAnyOrder(s, ops, perm);
      }
    }
    if EveryOrderApplies(s, ops) {
      forall i | 0 <= i < |ops|
        ensures !IsDir(s, ops[i].path)
        ensures forall q :: q in Parents(ops[i].path) ==> q !in s.work
      {
        EveryOrderMeansNoDirNoFileAbove(s, ops, i);
      }
      forall i, j | 0 <= i < |ops| && 0 <= j < |ops| ensures ops[j].path !in Parents(ops[i].path) {
        EveryOrderMeansNotInside(s, ops, j, i);
      }
    }
  }
}
