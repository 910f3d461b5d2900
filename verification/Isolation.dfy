/**
 * What readers can see of a batch while it is written. Reads happen under the lock; only the existence test
 * before them does not.
 */
module Isolation {
  import opened Base
  import opened Paths
  import opened Acl
  import opened Store
  import opened Atomicity
  import opened Evolution
  import opened Threads
  import opened Linear
  import opened Runs
  import opened Schedules
  import opened Breaches

  /** These operations have created or removed the file `p`. */
  predicate Toggles(s: State, done: seq<Op>, p: Path) {
    Evolve(done, p, Lookup(s.work, p)).Some? != (p in s.work)
  }

  /**
   * In every reachable world an existence test answers as HEAD does exactly when the operations the lock
   * holder has written so far have neither created nor removed the file; so always while nobody writes.
   */
  lemma ProbeAnswersAsHeadIff(env: Env, s: State, w: World, p: Path)
    requires Reachable(env, s, w) && Clean(Replay(s, w.log))
    ensures Written(w) <= |Current(w)|
    ensures (p in w.state.work <==> p in Head(w.state)) <==> !Toggles(Replay(s, w.log), Current(w)[..Written(w)], p)
    ensures Written(w) == 0 ==> (p in w.state.work <==> p in Head(w.state))
  {
    hide Replay, Sequential, ThreadOk, ProbeOk, EventOk, ApplyAll, Evolve, Validate, FileSystem, Reachable;
    ReachableInv(env, s, w);
    RunsAreSequential(env, s, w);
    var base := Replay(s, w.log);
    UnnamedDoesNotEvolve([], p, Lookup(base.work, p));
    if w.owner.Some? && w.threads[w.owner.value].Writing? {
      var ph := w.threads[w.owner.value];
      LoopEvolves(base, ph.job.ops[..ph.k], p);
      NothingApplied(base, ph.job.ops);
    } else {
      assert Current(w)[..0] == [];
    }
  }

  lemma NothingApplied(s: State, ops: seq<Op>)
    ensures ops[..0] == [] && ApplyAll(s, ops[..0]) == Applied(s, true)
  {}

  // ---- One batch -------------------------------------------------------------------------------

  /**
   * The batch is half written and a reader at its existence test for `p` is about to be told otherwise than by
   * HEAD.
   */
  ghost predicate ShowsHalf(w: World, job: Job, who: Principal, p: Path) {
    && |w.threads| == 2 && w.threads[0].Writing? && w.threads[0].job == job && w.threads[0].k < |job.ops|
    && w.threads[1].Ready? && w.threads[1].req == ToRead(who, p)
    && (forall i :: 0 <= i < |w.log| ==> !w.log[i].Wrote?)
    && (p in w.state.work) != (p in Head(w.state))
  }

  /**
   * Some run of an admissible batch shows a reader a state between its first and its last write if and only
   * if a proper prefix of what can be applied of it creates or removes a file.
   */
  lemma HalfWrittenShowsIff(env: Env, s: State, job: Job, acl: Option<seq<AclRule>>, who: Principal)
    requires Clean(s) && Admissible(env, s, job, acl)
    ensures (exists w, p :: Reachable(env, s, w) && ShowsHalf(w, job, who, p))
            <==> exists k, p :: 0 <= k < |job.ops| && k <= |Applicable(s, job.ops)| && Toggles(s, job.ops[..k], p)
  {
    hide Reachable, GateOpens, FirstError, LoadAcl, Clean, Applicable, Toggles, ShowsHalf;
    forall w, p | Reachable(env, s, w) && ShowsHalf(w, job, who, p)
      ensures exists k :: 0 <= k < |job.ops| && k <= |Applicable(s, job.ops)| && Toggles(s, job.ops[..k], p)
    {
      HalfIsAPrefix(env, s, w, job, who, p);
    }
    forall k, p | 0 <= k < |job.ops| && k <= |Applicable(s, job.ops)| && Toggles(s, job.ops[..k], p)
      ensures exists w :: Reachable(env, s, w) && ShowsHalf(w, job, who, p)
    {
      var w := ShowPrefix(env, s, job, acl, who, k, p);
    }
  }

  lemma HalfIsAPrefix(env: Env, s: State, w: World, job: Job, who: Principal, p: Path)
    requires Clean(s) && Reachable(env, s, w) && ShowsHalf(w, job, who, p) && FirstError(s, job.ops).None?
    ensures exists k :: 0 <= k < |job.ops| && k <= |Applicable(s, job.ops)| && Toggles(s, job.ops[..k], p)
  {
    hide Replay, Sequential, ThreadOk, ProbeOk, EventOk, ApplyAll, Evolve, Validate, Reachable, Toggles, FirstError;
    ReachableInv(env, s, w);
    NoBatchNoChange(s, w.log);
    ProbeAnswersAsHeadIff(env, s, w, p);
    var k := w.threads[0].k;
    assert w.owner == Some(0) && Progress(w.threads[0], s, w.state);
    AppliedPrefixIsShort(s, job.ops, k);
    assert Toggles(s, job.ops[..k], p);
  }

  lemma {:induction false} NoBatchNoChange(s: State, log: seq<Event>)
    requires forall i :: 0 <= i < |log| ==> !log[i].Wrote?
    ensures Replay(s, log) == s
  {
    if log != [] { NoBatchNoChange(s, log[..|log| - 1]); }
  }

  lemma ShowPrefix(env: Env, s: State, job: Job, acl: Option<seq<AclRule>>, who: Principal, k: nat, p: Path)
    returns (w: World)
    requires Clean(s) && Admissible(env, s, job, acl)
    requires k < |job.ops| && k <= |Applicable(s, job.ops)| && Toggles(s, job.ops[..k], p)
    ensures Reachable(env, s, w) && ShowsHalf(w, job, who, p)
  {
    hide Leads, HasWritten, ApplyAll, Evolve, FirstError, LoadAcl, GateOpens, Applicable, FileSystem, Reachable,
         Parents;
    ApplicablePrefix(s, job.ops, k);
    var w0 := Initial(s, 2);
    var w1 := Arrived(w0, 1, ToRead(who, p), acl);
    Arrive(env, w0, 1, ToRead(who, p), acl);
    StopAfter(env, w1, 0, job, acl, k);
    w := HalfWritten(Arrived(w1, 0, ToWrite(job), acl), 0, s, job, |w1.log|, acl, k);
    LeadsOn(env, w0, w1, w);
    LeadsIsReachable(env, s, 2, w);
    LoopKeepsCommits(s, job.ops[..k]);
  }

  // ---- Runs of one batch --------------------------------------------------------------------------

  /** The log of a run has this batch at most once and no other. */
  ghost predicate OnlyBatch(log: seq<Event>, job: Job) {
    && (forall i :: 0 <= i < |log| && log[i].Wrote? ==> log[i].job == job)
    && forall i, j :: 0 <= i < j < |log| ==> !(log[i].Wrote? && log[j].Wrote?)
  }

  predicate WroteBefore(log: seq<Event>, k: nat) {
    exists i :: 0 <= i < k && i < |log| && log[i].Wrote?
  }

  lemma {:induction false} OnlyBatchStates(s: State, log: seq<Event>, job: Job, k: nat)
    requires OnlyBatch(log, job) && k <= |log|
    ensures Before(s, log, k) == if WroteBefore(log, k) then Transact(s, job.ops, job.meta).state else s
  {
    hide Transact;
    if k == 0 {
      assert log[..0] == [];
    } else {
      OnlyBatchStates(s, log, job, k - 1);
      BeforeStep(s, log, k - 1);
      assert WroteBefore(log, k) <==> WroteBefore(log, k - 1) || log[k - 1].Wrote?;
    }
  }

  /**
   * What a test saw in a run of one batch that has ended or has not begun: the tree before it, the tree after
   * it, or the tree after some of its operations.
   */
  lemma ProbeInRunOfOne(env: Env, s: State, w: World, job: Job, m: Probe)
    requires Clean(s) && Inv(env, s, w) && OnlyBatch(w.log, job) && m in w.probes && FirstError(s, job.ops).None?
    requires m.done == 0 || m.at < |w.log|
    ensures var end := Transact(s, job.ops, job.meta).state;
            || (m.found <==> m.path in s.work)
            || (WroteBefore(w.log, m.at) && (m.found <==> m.path in end.work))
            || (m.at < |w.log| && w.log[m.at].Wrote? && m.done <= |Applicable(s, job.ops)| &&
                (m.found <==> Evolve(Applicable(s, job.ops)[..m.done], m.path, Lookup(s.work, m.path)).Some?))
  {
    hide Sequential, LockOk, ThreadOk, EventOk, Evolve, Transact, FirstError, FileSystem, AllValid, ApplyAll;
    assert ProbeOk(s, w, m);
    OnlyBatchStates(s, w.log, job, m.at);
    var b, ops := Before(s, w.log, m.at), BatchAt(w, m.at);
    if m.done == 0 {
      NothingApplied(b, ops);
    } else {
      assert w.log[m.at].Wrote? && ops == job.ops;
      assert !WroteBefore(w.log, m.at);
      AppliedPrefixIsShort(s, ops, m.done);
      ApplicablePrefix(s, ops, m.done);
    }
  }

  /** The batch fails, and by then the file is gone. */
  ghost predicate Loses(s: State, ops: seq<Op>, p: Path) {
    var done := Applicable(s, ops);
    p in s.work && |done| < |ops| && Evolve(done, p, Lookup(s.work, p)).None?
  }

  /** A test in this run did not find the file, which every tree committed in it has. */
  ghost predicate MissesLasting(s: State, w: World, p: Path) {
    && w.owner.None?
    && (exists m :: m in w.probes && m.path == p && !m.found)
    && forall j :: 0 <= j <= |w.log| ==> p in Head(Before(s, w.log, j))
  }

  /**
   * Some run of an admissible batch reports a file missing that no committed tree lacks if and only if the
   * batch takes it away and back, or fails when it has taken it away.
   */
  lemma MissesLastingIff(env: Env, s: State, job: Job, acl: Option<seq<AclRule>>, who: Principal, p: Path)
    requires Clean(s) && Admissible(env, s, job, acl)
    ensures (exists w :: Reachable(env, s, w) && OnlyBatch(w.log, job) && MissesLasting(s, w, p))
            <==> Flickers(s, job.ops, p) || Loses(s, job.ops, p)
  {
    hide Reachable, OnlyBatch, MissesLasting, Flickers, Loses, Clean, GateOpens, FirstError, LoadAcl;
    forall w | Reachable(env, s, w) && OnlyBatch(w.log, job) && MissesLasting(s, w, p)
      ensures Flickers(s, job.ops, p) || Loses(s, job.ops, p)
    {
      LastingMissMeans(env, s, w, job, p);
    }
    if Flickers(s, job.ops, p) || Loses(s, job.ops, p) {
      var w := MissLasting(env, s, job, acl, who, p);
    }
  }

  lemma LastingMissMeans(env: Env, s: State, w: World, job: Job, p: Path)
    requires Clean(s) && Reachable(env, s, w) && OnlyBatch(w.log, job) && MissesLasting(s, w, p)
    requires FirstError(s, job.ops).None? && job.ops != []
    ensures Flickers(s, job.ops, p) || Loses(s, job.ops, p)
  {
    hide Reachable, OnlyBatch, Inv, Evolve, Transact, FirstError, FileSystem, Applicable, WroteBefore;
    ReachableInv(env, s, w);
    var m :| m in w.probes && m.path == p && !m.found;
    assert m.at <= |w.log| && (m.at == |w.log| ==> m.done == 0) by { ProbeIsInTime(env, s, w, m); }
    ProbeInRunOfOne(env, s, w, job, m);
    BatchLeaves(s, job.ops, job.meta, p);
    OnlyBatchStates(s, w.log, job, 0);
    OnlyBatchStates(s, w.log, job, |w.log|);
    OnlyBatchStates(s, w.log, job, m.at);
    assert !WroteBefore(w.log, 0) by { NobodyWroteBeforeTheStart(w.log); }
    assert p in Head(Before(s, w.log, 0)) && p in Head(Before(s, w.log, |w.log|)) && p in Head(Before(s, w.log, m.at));
    if m.at < |w.log| && w.log[m.at].Wrote? { WroteAt(w.log, m.at); }
    ApplicableIsAll(s, job.ops);
  }

  lemma ApplicableIsAll(s: State, ops: seq<Op>)
    ensures |Applicable(s, ops)| <= |ops| && (|Applicable(s, ops)| == |ops| ==> Applicable(s, ops) == ops)
  {}

  lemma NobodyWroteBeforeTheStart(log: seq<Event>)
    ensures !WroteBefore(log, 0)
  {}

  lemma WroteAt(log: seq<Event>, k: nat)
    requires k < |log| && log[k].Wrote?
    ensures WroteBefore(log, |log|)
  {}

  lemma ProbeIsInTime(env: Env, s: State, w: World, m: Probe)
    requires Inv(env, s, w) && m in w.probes
    ensures m.at <= |w.log| && (w.owner.None? && m.at == |w.log| ==> m.done == 0)
  {
    hide Sequential, LockOk, ThreadOk, EventOk, AllValid, HasFile, ApplyAll;
    assert ProbeOk(s, w, m);
  }

  lemma MissLasting(env: Env, s: State, job: Job, acl: Option<seq<AclRule>>, who: Principal, p: Path) returns (w: World)
    requires Clean(s) && Admissible(env, s, job, acl) && (Flickers(s, job.ops, p) || Loses(s, job.ops, p))
    ensures Reachable(env, s, w) && OnlyBatch(w.log, job) && MissesLasting(s, w, p)
  {
    hide FirstError, Applicable, Evolve, Transact, LoadAcl, GateOpens, FileSystem, Reachable, Before, OnlyBatch;
    var ops, was := job.ops, Lookup(s.work, p);
    var done := Applicable(s, ops);
    assert done[..|done|] == done;
    var k :| 0 <= k <= |done| && Evolve(done[..k], p, was).None?;
    ApplicablePrefix(s, ops, k);
    w := MissOnTheWay(env, s, job, acl, who, p, k);
    BatchLeaves(s, ops, job.meta, p);
    CleanIsHead(s);
    forall j | 0 <= j <= |w.log| ensures p in Head(Before(s, w.log, j)) {
      OnlyBatchStates(s, w.log, job, j);
    }
  }

  /** A reader tests for the file after the first k operations; then the batch goes on to its end. */
  lemma MissOnTheWay(env: Env, s: State, job: Job, acl: Option<seq<AclRule>>, who: Principal, p: Path, k: nat)
    returns (w: World)
    requires Clean(s) && Admissible(env, s, job, acl)
    requires k <= |job.ops| && ApplyAll(s, job.ops[..k]).ok && p !in ApplyAll(s, job.ops[..k]).state.work
    ensures Reachable(env, s, w) && w.owner.None? && OnlyBatch(w.log, job)
    ensures exists m :: m in w.probes && m.path == p && !m.found
  {
    hide Leads, FirstError, Transact, LoadAcl, GateOpens, HasWritten, FileSystem, ApplyAll, Reachable, Written;
    var w0 := Initial(s, 2);
    Arrive(env, w0, 1, ToRead(who, p), acl);
    var w1 := Arrived(w0, 1, ToRead(who, p), acl);
    StopAfter(env, w1, 0, job, acl, k);
    var w2 := HalfWritten(Arrived(w1, 0, ToWrite(job), acl), 0, s, job, |w1.log|, acl, k);
    LeadsOn(env, w0, w1, w2);
    LeadsByOne(env, w2, Step(1));
    var w3 := Probed(w2, 1, |w0.log|, p, acl.Some?, Idle);
    assert Act(env, w2, Step(1)) == w3;
    LeadsOn(env, w0, w2, w3);
    StillWritten(w2, w3, 0, s);
    NoErrorMeansAllValid(s, job.ops);
    FinishWriting(env, w3, 0, s);
    w := Ended(w3, 0, s, job, |w1.log|, acl);
    LeadsOn(env, w0, w3, w);
    LeadsIsReachable(env, s, 2, w);
    var m := w3.probes[|w3.probes| - 1];
    assert m in w.probes && m.path == p && !m.found;
  }

  // ---- Misses in the order of the log ---------------------------------------------------------------

  /** The tree with this number is without the path of the miss, and it is the one before or after the batch met. */
  ghost predicate Explains(s: State, log: seq<Event>, m: Probe, i: nat) {
    m.at <= i <= m.at + 1 && i <= |log| && m.path !in Head(Before(s, log, i))
  }

  /** No batch up to now tears the store or takes this file away and back. */
  ghost predicate KeepsWhole(s: State, log: seq<Event>, p: Path) {
    forall j :: 0 <= j < |log| && log[j].Wrote? ==>
      !Tears(Before(s, log, j), log[j].job.ops) && !Flickers(Before(s, log, j), log[j].job.ops, p)
  }

  /** Every file reported missing is missing from a committed tree, of the time of the test or the next. */
  lemma MissHasATree(env: Env, s: State, w: World, m: Probe) returns (i: nat)
    requires Clean(s) && Reachable(env, s, w) && w.owner.None? && m in w.probes && !m.found
    requires KeepsWhole(s, w.log, m.path)
    ensures Explains(s, w.log, m, i)
  {
    hide Sequential, LockOk, ThreadOk, EventOk, Tears, Flickers, FileSystem, Replay, ApplyAll, Evolve, Reachable;
    ReachableInv(env, s, w);
    assert ProbeOk(s, w, m);
    CleanWhileUntorn(s, w.log, m.at);
    var b := Before(s, w.log, m.at);
    if m.done == 0 {
      AbsentEvolves(b, BatchAt(w, m.at), 0, m.path);
    } else {
      MissIsExplained(env, s, w, m);
    }
    i := if m.path !in Head(b) then m.at else m.at + 1;
  }

  /**
   * Answers fit the order of requests wherever there is an ACL file: a request that comes in after another
   * one missed a file, and itself misses one, is explained by the same tree or a later one.
   */
  lemma LoadedMissesFitTheLog(env: Env, s: State, w: World, m1: Probe, m2: Probe) returns (i1: nat, i2: nat)
    requires Clean(s) && Reachable(env, s, w) && w.owner.None?
    requires m1 in w.probes && m2 in w.probes && !m1.found && !m2.found
    requires KeepsWhole(s, w.log, m1.path) && KeepsWhole(s, w.log, m2.path)
    requires m1.at <= m2.start && m2.loaded
    ensures Explains(s, w.log, m1, i1) && Explains(s, w.log, m2, i2) && i1 <= i2
  {
    hide Explains, KeepsWhole, Reachable, Sequential, LockOk, ThreadOk, EventOk, Replay, AllValid, HasFile;
    i1 := MissHasATree(env, s, w, m1);
    i2 := MissHasATree(env, s, w, m2);
    ReachableInv(env, s, w);
    assert ProbeOk(s, w, m2);
    assert i1 <= m1.at + 1 && m2.at <= i2 by { ExplainsIsNear(s, w.log, m1, i1); ExplainsIsNear(s, w.log, m2, i2); }
  }

  lemma ExplainsIsNear(s: State, log: seq<Event>, m: Probe, i: nat)
    requires Explains(s, log, m, i)
    ensures m.at <= i <= m.at + 1
  {}

  // ---- Contradicting answers on a tree without an ACL file ----------------------------------------------

  /**
   * One client misses `p`, which was there before the batch, and in a later request `q`, which is there
   * after it: no order of the two requests and the batch explains both.
   */
  ghost predicate Contradicted(s: State, w: World, job: Job, p: Path, q: Path) {
    && |w.log| == 1 && w.log[0].Wrote? && w.log[0].job == job && w.owner.None?
    && p in Head(s) && q in Head(Before(s, w.log, 1))
    && exists a, b :: 0 <= a < b < |w.probes| && w.probes[a].path == p && w.probes[b].path == q
                      && !w.probes[a].found && !w.probes[b].found && w.probes[a].t == w.probes[b].t
  }

  /** The batch removes a file of the old tree before it has created every file of the new one. */
  ghost predicate RemovesBeforeItCreates(s: State, ops: seq<Op>, p: Path, q: Path) {
    && p in s.work && Evolve(ops, q, Lookup(s.work, q)).Some?
    && exists k1, k2 :: 0 <= k1 <= k2 <= |ops| && Evolve(ops[..k1], p, Lookup(s.work, p)).None?
                        && Evolve(ops[..k2], q, Lookup(s.work, q)).None?
  }

  lemma ContradictedMeansRemovedFirst(env: Env, s: State, w: World, job: Job, p: Path, q: Path)
    requires Clean(s) && Reachable(env, s, w) && Contradicted(s, w, job, p, q)
    requires FirstError(s, job.ops).None? && ClashFree(s, job.ops) && job.ops != []
    ensures RemovesBeforeItCreates(s, job.ops, p, q)
  {
    hide Sequential, LockOk, ThreadOk, EventOk, ApplyAll, Evolve, Reachable, AllValid, FileSystem, FirstError,
         ClashFree, Transact;
    ReachableInv(env, s, w);
    var a, b :| 0 <= a < b < |w.probes| && w.probes[a].path == p && w.probes[b].path == q
                && !w.probes[a].found && !w.probes[b].found && w.probes[a].t == w.probes[b].t;
    assert w.probes[a] in w.probes && w.probes[b] in w.probes;
    OneBatch(s, w.log);
    CommitsAll(s, job.ops, job.meta, q);
    MissInTheBatch(s, w, w.probes[a]);
    MissInTheBatch(s, w, w.probes[b]);
  }

  lemma OneBatch(s: State, log: seq<Event>)
    requires |log| == 1 && log[0].Wrote?
    ensures Before(s, log, 0) == s && Before(s, log, 1) == Transact(s, log[0].job.ops, log[0].job.meta).state
  {
    hide Transact;
    BeforeStep(s, log, 0);
    assert log[..0] == [];
  }

  lemma CommitsAll(s: State, ops: seq<Op>, meta: Meta, q: Path)
    requires Clean(s) && FirstError(s, ops).None? && ClashFree(s, ops) && ops != []
    ensures var t := Transact(s, ops, meta).state;
            Clean(t) && Lookup(Head(t), q) == Evolve(ops, q, Lookup(s.work, q)) && t.work == Head(t)
  {
    hide Evolve, FirstError, ClashFree, FileSystem, Transact, Tears;
    LoopStopsAtTheFirstClash(s, ops);
    assert Applicable(s, ops) == ops;
    BatchLeaves(s, ops, meta, q);
    assert !Tears(s, ops) by { NotTorn(s, ops); }
    CleanUnlessTorn(s, ops, meta);
  }

  lemma NotTorn(s: State, ops: seq<Op>)
    requires Applicable(s, ops) == ops
    ensures !Tears(s, ops)
  {}

  lemma MissInTheBatch(s: State, w: World, m: Probe)
    requires |w.log| == 1 && w.log[0].Wrote? && w.owner.None? && ProbeOk(s, w, m) && !m.found
    ensures var ops := w.log[0].job.ops;
            if m.at == 0 then m.done <= |ops| && Evolve(ops[..m.done], m.path, Lookup(s.work, m.path)).None?
            else m.at == 1 && m.path !in Before(s, w.log, 1).work
  {
    hide Evolve, Transact;
    OneBatch(s, w.log);
    AbsentEvolves(Before(s, w.log, m.at), BatchAt(w, m.at), m.done, m.path);
  }

  /**
   * On a tree without an ACL file a batch that lets its author in, leaves the ACL file alone and can be
   * applied contradicts a client in some run if and only if it removes a file before it creates another.
   */
  lemma ContradictsIff(env: Env, s: State, job: Job, who: Principal, p: Path, q: Path)
    requires Clean(s) && ACL_PATH !in s.work && job.ops != [] && FirstError(s, job.ops).None? && ClashFree(s, job.ops)
    requires forall i :: 0 <= i < |job.ops| ==> job.ops[i].path != ACL_PATH
    ensures (exists w :: Reachable(env, s, w) && Contradicted(s, w, job, p, q)) <==>
            RemovesBeforeItCreates(s, job.ops, p, q)
  {
    hide Reachable, Contradicted, RemovesBeforeItCreates, FirstError, ClashFree, Clean;
    forall w | Reachable(env, s, w) && Contradicted(s, w, job, p, q) ensures RemovesBeforeItCreates(s, job.ops, p, q) {
      ContradictedMeansRemovedFirst(env, s, w, job, p, q);
    }
    if RemovesBeforeItCreates(s, job.ops, p, q) { var w := Contradict(env, s, job, who, p, q); }
  }

  /** A reader comes in, finds no ACL file and is told that `p` is missing. */
  lemma ReadMissing(env: Env, w: World, t: nat, who: Principal, p: Path) returns (w': World)
    requires t < |w.threads| && w.threads[t].Idle? && w.owner != Some(t)
    requires ACL_PATH !in w.state.work && p !in w.state.work
    ensures Leads(env, w, w')
    ensures w' == w.(probes := w.probes + [Probe(t, |w.log|, ACL_PATH, false, |w.log|, Written(w), false),
                                           Probe(t, |w.log|, p, false, |w.log|, Written(w), false)])
  {
    hide Leads;
    Arrive(env, w, t, ToRead(who, p), None);
    var ready := Arrived(w, t, ToRead(who, p), None);
    LeadsByOne(env, ready, Step(t));
    w' := Act(env, ready, Step(t));
    LeadsOn(env, w, ready, w');
    var m1 := Probe(t, |w.log|, ACL_PATH, false, |w.log|, Written(w), false);
    var m2 := Probe(t, |w.log|, p, false, |w.log|, Written(w), false);
    WrittenIgnores(w, t, ready.threads[t]);
    assert w'.probes == w.probes + [m1] + [m2];
    assert w.probes + [m1] + [m2] == w.probes + [m1, m2];
    assert w.threads[t := ready.threads[t]][t := Idle] == w.threads;
  }

  lemma Contradict(env: Env, s: State, job: Job, who: Principal, p: Path, q: Path) returns (w: World)
    requires Clean(s) && ACL_PATH !in s.work && job.ops != [] && FirstError(s, job.ops).None? && ClashFree(s, job.ops)
    requires forall i :: 0 <= i < |job.ops| ==> job.ops[i].path != ACL_PATH
    requires RemovesBeforeItCreates(s, job.ops, p, q)
    ensures Reachable(env, s, w) && Contradicted(s, w, job, p, q)
  {
    hide Leads, HasWritten, ApplyAll, Evolve, FirstError, GateOpens, ClashFree, FileSystem, Transact, AllValid,
         Applicable;
    var ops := job.ops;
    var k1, k2 :| 0 <= k1 <= k2 <= |ops| && Evolve(ops[..k1], p, Lookup(s.work, p)).None?
                  && Evolve(ops[..k2], q, Lookup(s.work, q)).None?;
    AllApplicable(s, ops);
    ApplicablePrefix(s, ops, k1);
    ApplicablePrefix(s, ops, k2);
    AclStaysAway(s, ops, k1);
    AclStaysAway(s, ops, k2);
    BootstrapAdmits(env, job);
    NoErrorMeansAllValid(s, ops);
    var w0 := Initial(s, 2);
    StopAfter(env, w0, 0, job, None, k1);
    var w1 := HalfWritten(Arrived(w0, 0, ToWrite(job), None), 0, s, job, 0, None, k1);
    var w2 := ReadMissing(env, w1, 1, who, p);
    LeadsOn(env, w0, w1, w2);
    StillWritten(w1, w2, 0, s);
    WriteUpTo(env, w2, 0, s, k2);
    var w3 := Goto(w2, 0, Writing(job, 0, None, k2)).(state := ApplyAll(s, ops[..k2]).state);
    LeadsOn(env, w0, w2, w3);
    var w4 := ReadMissing(env, w3, 1, who, q);
    LeadsOn(env, w0, w3, w4);
    StillWritten(w3, w4, 0, s);
    FinishWriting(env, w4, 0, s);
    w := Ended(w4, 0, s, job, 0, None);
    LeadsOn(env, w0, w4, w);
    LeadsIsReachable(env, s, 2, w);
    OneBatch(s, w.log);
    CommitsAll(s, ops, job.meta, q);
    var a, b := |w2.probes| - 1, |w4.probes| - 1;
    assert w.probes[a].path == p && w.probes[b].path == q;
  }

  lemma AllApplicable(s: State, ops: seq<Op>)
    requires s.work == s.index && FirstError(s, ops).None? && ClashFree(s, ops)
    ensures Applicable(s, ops) == ops
  {
    LoopStopsAtTheFirstClash(s, ops);
  }

  lemma AclStaysAway(s: State, ops: seq<Op>, k: nat)
    requires k <= |ops| && ApplyAll(s, ops[..k]).ok && ACL_PATH !in s.work
    requires forall i :: 0 <= i < |ops| ==> ops[i].path != ACL_PATH
    ensures ACL_PATH !in ApplyAll(s, ops[..k]).state.work
  {
    hide Evolve, ApplyAll;
    LoopEvolves(s, ops[..k], ACL_PATH);
    UnnamedDoesNotEvolve(ops[..k], ACL_PATH, Lookup(s.work, ACL_PATH));
  }
}
