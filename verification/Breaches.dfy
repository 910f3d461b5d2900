/** What an unsafe batch makes possible: the runs in which authorisation fails. */
module Breaches {
  import opened Base
  import opened Paths
  import opened Acl
  import opened Store
  import opened Atomicity
  import opened Transactions
  import opened Evolution
  import opened Threads
  import opened Linear
  import opened Runs
  import opened Schedules

  /** The author of this batch may make it on this store. */
  ghost predicate Admissible(env: Env, s: State, job: Job, acl: Option<seq<AclRule>>) {
    job.ops != [] && FirstError(s, job.ops).None? && LoadAcl(env, s) == Rules(acl) && GateOpens(env, acl, job)
  }

  /** Thread `t` of two has written the first k operations of its batch; the other one is where it was. */
  function HalfWritten(w: World, t: nat, s: State, job: Job, start: nat, acl: Option<seq<AclRule>>, k: nat): World
    requires t < |w.threads| && k <= |job.ops|
  {
    Goto(w, t, Writing(job, start, acl, k)).(owner := Some(t), state := ApplyAll(s, job.ops[..k]).state)
  }

  /** An admissible batch can be stopped after any number of operations that can be applied. */
  lemma StopAfter(env: Env, w: World, t: nat, job: Job, acl: Option<seq<AclRule>>, k: nat)
    requires t < |w.threads| && w.threads[t].Idle? && w.owner.None? && Admissible(env, w.state, job, acl)
    requires k <= |job.ops| && ApplyAll(w.state, job.ops[..k]).ok
    ensures var w' := HalfWritten(Arrived(w, t, ToWrite(job), acl), t, w.state, job, |w.log|, acl, k);
            Leads(env, w, w') && HasWritten(w', t, w.state)
  {
    hide Leads, LoadAcl, GateOpens, FirstError, ApplyAll, AllValid;
    NoErrorMeansAllValid(w.state, job.ops);
    ArriveToWrite(env, w, t, job, acl);
    var waiting := Goto(Arrived(w, t, ToWrite(job), acl), t, Waiting(ToWrite(job), |w.log|, acl));
    StartWriting(env, waiting, t);
    var writing := Goto(waiting, t, Writing(job, |w.log|, acl, 0)).(owner := Some(t));
    WriteUpTo(env, writing, t, w.state, k);
    var w' := HalfWritten(Arrived(w, t, ToWrite(job), acl), t, w.state, job, |w.log|, acl, k);
    assert Goto(writing, t, Writing(job, |w.log|, acl, k)).(state := ApplyAll(w.state, job.ops[..k]).state) == w';
    LeadsOn(env, w, waiting, writing);
    LeadsOn(env, w, writing, w');
  }

  lemma ApplicablePrefix(s: State, ops: seq<Op>, k: nat)
    requires Clean(s) && k <= |Applicable(s, ops)|
    ensures k <= |ops| && ApplyAll(s, ops[..k]).ok && Applicable(s, ops)[..k] == ops[..k]
    ensures forall p :: p !in ApplyAll(s, ops[..k]).state.work <==> Evolve(ops[..k], p, Lookup(s.work, p)).None?
  {
    hide ApplyOp, Clash, FirstError, Evolve, FileSystem;
    var n := FirstClash(s, ops);
    LoopStopsAtTheFirstClash(s, ops);
    if k > 0 && ApplyAll(s, ops[..n]).ok && FirstError(s, ops).None? { StepOk(s, ops, k - 1, n); }
    assert k == 0 ==> ops[..k] == [];
    forall p ensures p !in ApplyAll(s, ops[..k]).state.work <==> Evolve(ops[..k], p, Lookup(s.work, p)).None? {
      LoopEvolves(s, ops[..k], p);
    }
  }

  /** Without an ACL file everybody may write everything but the ACL file. */
  lemma BootstrapAdmits(env: Env, job: Job)
    requires forall i :: 0 <= i < |job.ops| ==> job.ops[i].path != ACL_PATH
    ensures GateOpens(env, None, job)
  {
    forall i | 0 <= i < |job.ops| ensures MayWrite(env, None, job.meta.principal, job.ops[i].path) {
      var p := job.ops[i].path;
      EngineFollowsAccessRule(None, Ask(job.meta.principal, Render(p), KindOf(p), Field.Write));
    }
  }

  /**
   * While a batch is written that takes the ACL file away and has it again at the end, a request of anybody,
   * whatever the rules say, can find no ACL file, pass the gate and be carried out after the batch: no tree
   * committed since the request came in is without the ACL file.
   */
  lemma FlickeringAclAdmitsAnyone(env: Env, s: State, job: Job, acl: Option<seq<AclRule>>, intruder: Job)
    returns (w: World)
    requires Clean(s) && Admissible(env, s, job, acl) && Flickers(s, job.ops, ACL_PATH)
    requires intruder.ops != [] && forall i :: 0 <= i < |intruder.ops| ==> intruder.ops[i].path != ACL_PATH
    ensures Reachable(env, s, w) && |w.log| == 3
    ensures w.log[1] == Wrote(0, 0, job, acl, Transact(s, job.ops, job.meta).outcome)
    ensures w.log[2] == Wrote(1, 1, intruder, None, Transact(Before(s, w.log, 2), intruder.ops, intruder.meta).outcome)
    ensures !Tears(s, job.ops) ==> forall at :: 1 <= at <= 2 ==> !AclIs(env, Head(Before(s, w.log, at)), None)
  {
    hide FirstError, Applicable, Evolve, Transact, LoadAcl, GateOpens, Tears, FileSystem, Reachable, Before;
    var ops, was := job.ops, Lookup(s.work, ACL_PATH);
    var k :| 0 <= k <= |Applicable(s, ops)| && Evolve(Applicable(s, ops)[..k], ACL_PATH, was).None?;
    ApplicablePrefix(s, ops, k);
    w := SlipIn(env, s, job, acl, intruder, k);
    LogOfThree(s, w.log);
    if !Tears(s, ops) { FlickerEndsWithFile(s, ops, job.meta, ACL_PATH); }
  }

  /** The intruder comes in after the first k operations, and goes on when the batch has ended. */
  lemma SlipIn(env: Env, s: State, job: Job, acl: Option<seq<AclRule>>, intruder: Job, k: nat) returns (w: World)
    requires Clean(s) && Admissible(env, s, job, acl) && ACL_PATH in s.work
    requires k <= |job.ops| && ApplyAll(s, job.ops[..k]).ok && ACL_PATH !in ApplyAll(s, job.ops[..k]).state.work
    requires intruder.ops != [] && forall i :: 0 <= i < |intruder.ops| ==> intruder.ops[i].path != ACL_PATH
    ensures Reachable(env, s, w) && |w.log| == 3 && w.log[0].LoadedAcl?
    ensures var end := Transact(s, job.ops, job.meta);
            && w.log[1] == Wrote(0, 0, job, acl, end.outcome)
            && w.log[2] == Wrote(1, 1, intruder, None, Transact(end.state, intruder.ops, intruder.meta).outcome)
  {
    hide Leads, FirstError, Transact, ParseAcl, GateOpens, HasWritten, FileSystem, ApplyAll, Reachable;
    var w0 := Initial(s, 2);
    StopAfter(env, w0, 0, job, acl, k);
    var w1 := HalfWritten(Arrived(w0, 0, ToWrite(job), acl), 0, s, job, 0, acl, k);
    assert acl.Some?;
    BootstrapAdmits(env, intruder);
    ArriveToWrite(env, w1, 1, intruder, None);
    var w2 := Goto(Arrived(w1, 1, ToWrite(intruder), None), 1, Waiting(ToWrite(intruder), 1, None));
    LeadsOn(env, w0, w1, w2);
    StillWritten(w1, w2, 0, s);
    NoErrorMeansAllValid(s, job.ops);
    FinishWriting(env, w2, 0, s);
    var w3 := Ended(w2, 0, s, job, 0, acl);
    LeadsOn(env, w0, w2, w3);
    FinishJob(env, w3, 1);
    w := Ended(w3, 1, w3.state, intruder, 1, None);
    LeadsOn(env, w0, w3, w);
    LeadsIsReachable(env, s, 2, w);
  }

  lemma StillWritten(w: World, w': World, t: nat, base: State)
    requires HasWritten(w, t, base) && t < |w'.threads| && w'.threads[t] == w.threads[t] && w'.state == w.state
    ensures HasWritten(w', t, base)
  {}

  lemma LogOfThree(s: State, log: seq<Event>)
    requires |log| == 3 && log[0].LoadedAcl? && log[1].Wrote?
    ensures Before(s, log, 1) == s && Before(s, log, 2) == Transact(s, log[1].job.ops, log[1].job.meta).state
  {
    hide Transact;
    BeforeStep(s, log, 0);
    BeforeStep(s, log, 1);
    assert log[..0] == [];
  }

  lemma FlickerEndsWithFile(s: State, ops: seq<Op>, meta: Meta, p: Path)
    requires Clean(s) && ops != [] && Flickers(s, ops, p) && !Tears(s, ops)
    ensures p in Head(s) && p in Head(Transact(s, ops, meta).state)
  {
    hide Evolve, Transact, Tears, FirstError, FileSystem;
    BatchLeaves(s, ops, meta, p);
    CleanUnlessTorn(s, ops, meta);
    CleanIsHead(Transact(s, ops, meta).state);
  }

  /** The admin's rewriting of the ACL file as a deletion and a write is such a batch, on every clean store. */
  lemma RewritingTheAclFlickers(s: State, content: string) returns (ops: seq<Op>)
    requires Clean(s) && ACL_PATH in s.work
    ensures var v := Blob(s.work[ACL_PATH]);
            ops == [DeleteOp(ACL_PATH, v), WriteOp(ACL_PATH, content).(ifVersion := Some(v))]
    ensures FirstError(s, ops).None? && Flickers(s, ops, ACL_PATH) && !Tears(s, ops)
    ensures forall meta :: Transact(s, ops, meta).outcome.Done?
  {
    var v := Blob(s.work[ACL_PATH]);
    ops := [DeleteOp(ACL_PATH, v), WriteOp(ACL_PATH, content).(ifVersion := Some(v))];
    RewriteIsClashFree(s, ops);
    RewriteIsValid(s, ops);
    hide Validate, ApplyOp, Clash, FileSystem, FirstError, ResultFiles, Dedup;
    NoErrorMeansAllValid(s, ops);
    LoopStopsAtTheFirstClash(s, ops);
    WritePhaseIsExact(s, ops);
    var done, was := Applicable(s, ops), Lookup(s.work, ACL_PATH);
    assert done == ops && ops[..1] == [ops[0]] && [ops[0]][..0] == [];
    assert Evolve([ops[0]], ACL_PATH, was) == None;
    assert Evolve(done[..1], ACL_PATH, was).None?;
    assert Evolve(ops, ACL_PATH, was).Some?;
  }

  lemma RewriteIsValid(s: State, ops: seq<Op>)
    requires Clean(s) && ACL_PATH in s.work && |ops| == 2
    requires ops[0] == DeleteOp(ACL_PATH, Blob(s.work[ACL_PATH])) && ops[1].typ == OpType.Write
             && ops[1].path == ACL_PATH
    requires ops[1].content.Some? && ops[1].ifVersion == ops[0].ifVersion
    ensures AllValid(s, ops)
  {
    AclIsText();
    assert Validate(s, ops[0]).None? && Validate(s, ops[1]).None?;
  }

  lemma RewriteIsClashFree(s: State, ops: seq<Op>)
    requires Clean(s) && ACL_PATH in s.work && |ops| == 2
    requires ops[0].path == ops[1].path == ACL_PATH && ops[0].typ == Delete && ops[1].typ == OpType.Write
    ensures ClashFree(s, ops)
  {
    assert ops[..0] == [] && ops[..1] == [ops[0]] && [ops[0]][..0] == [];
    assert !Clash(s, ops[..0], ops[0]);
    forall q | q in Parents(ACL_PATH) ensures !Live(s, ops[..1], q) {
      var i :| 0 < i < |ACL_PATH| && q == ACL_PATH[..i];
      assert q in s.dirs && q != ACL_PATH;
    }
    assert !Clash(s, ops[..1], ops[1]);
  }

  /**
   * After a torn batch the next commit, whoever makes it under whatever rules, changes in HEAD every file
   * the torn batch had changed, named or not.
   */
  lemma TornBatchReachesHead(env: Env, s: State, torn: Job, acl1: Option<seq<AclRule>>, next: Job,
                             acl2: Option<seq<AclRule>>, p: Path) returns (w: World, i: nat)
    requires Clean(s) && Admissible(env, s, torn, acl1) && Tears(s, torn.ops)
    requires var mid := Transact(s, torn.ops, torn.meta).state;
             Admissible(env, mid, next, acl2) && Transact(mid, next.ops, next.meta).outcome.Done?
    requires Evolve(Applicable(s, torn.ops), p, Lookup(s.work, p)) != Lookup(s.work, p) && p !in OpPaths(next.ops)
    ensures Reachable(env, s, w) && CommittedAt(w.log, i) && w.log[i].job == next && w.log[i].acl == acl2
    ensures p !in OpPaths(w.log[i].job.ops)
    ensures Lookup(Head(Before(s, w.log, i + 1)), p) != Lookup(Head(Before(s, w.log, i)), p)
  {
    hide Leads, FirstError, Applicable, Evolve, Transact, LoadAcl, GateOpens, FileSystem, Tears, Reachable, Before;
    TearsRaises(s, torn.ops, torn.meta);
    TornFilesAreCarried(s, torn.ops, torn.meta, next.ops, next.meta, p);
    w := OneAfterTheOther(env, s, torn, acl1, next, acl2);
    i := |w.log| - 1;
    HeadStays(s, torn.ops, torn.meta);
  }

  lemma HeadStays(s: State, ops: seq<Op>, meta: Meta)
    requires Clean(s) && Transact(s, ops, meta).outcome.Raised?
    ensures Head(Transact(s, ops, meta).state) == Head(s) == s.work
  {
    hide Transact;
    RaisedKeepsHead(s, ops, meta);
  }

  /** Two admissible batches can be carried out one after the other. */
  lemma OneAfterTheOther(env: Env, s: State, first: Job, acl1: Option<seq<AclRule>>, next: Job,
                         acl2: Option<seq<AclRule>>)
    returns (w: World)
    requires Admissible(env, s, first, acl1) && Admissible(env, Transact(s, first.ops, first.meta).state, next, acl2)
    ensures Reachable(env, s, w) && w.log != []
    ensures var i, mid := |w.log| - 1, Transact(s, first.ops, first.meta).state;
            var end := Transact(mid, next.ops, next.meta);
            && w.log[i].Wrote? && w.log[i].job == next && w.log[i].acl == acl2 && w.log[i].outcome == end.outcome
            && Before(s, w.log, i) == mid && Before(s, w.log, i + 1) == end.state
  {
    hide Leads, FirstError, Transact, LoadAcl, GateOpens, Reachable, Replay, Before;
    var w0 := Initial(s, 1);
    var w1 := Solo(env, w0, 0, first, acl1);
    w := Solo(env, w1, 0, next, acl2);
    LeadsOn(env, w0, w1, w);
    LeadsIsReachable(env, s, 1, w);
    LeadsIsReachable(env, s, 1, w1);
    RunsAreSequential(env, s, w1);
    ArrivedGrows(w1, 0, ToWrite(next), acl2);
    LogGrows(s, w1.log, w.log, w.log[|w.log| - 1]);
  }

  /** A batch past the gate can be overtaken by another one before it gets the lock. */
  lemma OvertakenBy(env: Env, s: State, job: Job, acl: Option<seq<AclRule>>, other: Job) returns (w: World)
    requires job.ops != [] && other.ops != [] && LoadAcl(env, s) == Rules(acl)
    requires GateOpens(env, acl, job) && GateOpens(env, acl, other)
    ensures Reachable(env, s, w) && w.log != []
    ensures var i, mid := |w.log| - 1, Transact(s, other.ops, other.meta).state;
            && w.log[i] == Wrote(0, 0, job, acl, Transact(mid, job.ops, job.meta).outcome)
            && Before(s, w.log, i) == mid && Before(s, w.log, i + 1) == Transact(mid, job.ops, job.meta).state
  {
    hide Leads, FirstError, Transact, LoadAcl, GateOpens, Reachable, Before, Sequential, Agrees, StillThere;
    var mid := Transact(s, other.ops, other.meta).state;
    var w0 := Initial(s, 2);
    ArriveToWrite(env, w0, 0, job, acl);
    var w1 := Goto(Arrived(w0, 0, ToWrite(job), acl), 0, Waiting(ToWrite(job), 0, acl));
    var w2 := Solo(env, w1, 1, other, acl);
    LeadsOn(env, w0, w1, w2);
    FinishJob(env, w2, 0);
    w := Ended(w2, 0, mid, job, 0, acl);
    LeadsOn(env, w0, w2, w);
    LeadsIsReachable(env, s, 2, w);
    LeadsIsReachable(env, s, 2, w2);
    RunsAreSequential(env, s, w2);
    ReplaySnoc(s, w2.log, w.log[|w.log| - 1]);
  }

  lemma ArrivedGrows(w: World, t: nat, req: Request, acl: Option<seq<AclRule>>)
    requires t < |w.threads|
    ensures var log := Arrived(w, t, req, acl).log;
            log == w.log || exists l: Event :: l.LoadedAcl? && log == w.log + [l]
  {}

  lemma TearsRaises(s: State, ops: seq<Op>, meta: Meta)
    requires Clean(s) && Tears(s, ops)
    ensures ops != [] && Transact(s, ops, meta).outcome.Raised?
  {
    hide Evolve, Transact, FirstError;
    BatchLeaves(s, ops, meta, []);
  }

  /** A log with at most a load of the ACL between, and one batch at its end. */
  lemma LogGrows(s: State, log: seq<Event>, all: seq<Event>, e: Event)
    requires e.Wrote? && (all == log + [e] || exists l: Event :: l.LoadedAcl? && all == log + [l] + [e])
    ensures Before(s, all, |all| - 1) == Replay(s, log)
    ensures Before(s, all, |all|) == Transact(Replay(s, log), e.job.ops, e.job.meta).state
  {
    hide Transact;
    if all == log + [e] {
      ReplaySnoc(s, log, e);
    } else {
      var l: Event :| l.LoadedAcl? && all == log + [l] + [e];
      ReplaySnoc(s, log, l);
      ReplaySnoc(s, log + [l], e);
    }
  }
}
