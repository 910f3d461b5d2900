/** What the reply to a write tells its author about files it may not read. */
module Disclosure {
  import opened Base
  import opened Paths
  import opened Acl
  import opened Store
  import opened Atomicity
  import opened Transactions
  import opened GitStorage
  import opened Threads
  import opened Linear
  import opened Runs
  import opened Breaches

  /** Event i is a conflict reply that hands the author of the batch the content of `p`. */
  ghost predicate HandsOver(s: State, log: seq<Event>, i: nat, who: Principal, p: Path, content: string) {
    && i < |log| && log[i].Wrote? && log[i].job.meta.principal == who && log[i].outcome.Raised?
    && log[i].outcome.error.VersionConflict? && log[i].outcome.error.currentContent == Some(content)
    && exists k: nat ::
         RefusedFor(Before(s, log, i), log[i].job.ops, k, log[i].outcome.error) && log[i].job.ops[k].path == p
  }

  /** Event i gives this client the content of `p`: by a read it may make, or in a conflict reply. */
  ghost predicate GivesContent(s: State, log: seq<Event>, i: nat, who: Principal, p: Path, content: string) {
    || (i < |log| && log[i].ReadFile? && log[i].who == who && exists v :: GivenFile(log[i], p, v, Some(content)))
    || HandsOver(s, log, i, who, p, content)
  }

  lemma ConflictIsOnAnExistingText(s: State, op: Op)
    requires match Validate(s, op) case Some(VersionConflict(Some(_), _)) => true case _ => false
    ensures op.path in s.work && IsText(op.path) && op.typ != Upload && op.ifVersion.Some?
    ensures Validate(s, op).value.currentContent == Some(s.work[op.path])
  {}

  /** What is handed over is the file's text, and the author may write the file by the rules of the request. */
  lemma HandedOverMeans(env: Env, s: State, w: World, i: nat, who: Principal, p: Path, content: string) returns (k: nat)
    requires Reachable(env, s, w) && HandsOver(s, w.log, i, who, p, content)
    ensures Lookup(Before(s, w.log, i).work, p) == Some(content) && IsText(p)
    ensures k < |w.log[i].job.ops| && w.log[i].job.ops[k].path == p && w.log[i].job.ops[k].ifVersion.Some?
    ensures MayWrite(env, w.log[i].acl, who, p)
  {
    hide Reachable, Inv, MayWrite, Validate, Replay;
    ReachableInv(env, s, w);
    InvGivesEvent(env, s, w, i);
    var job := w.log[i].job;
    k :| RefusedFor(Before(s, w.log, i), job.ops, k, w.log[i].outcome.error) && job.ops[k].path == p;
    ConflictIsOnAnExistingText(Before(s, w.log, i), job.ops[k]);
    assert MayWrite(env, w.log[i].acl, who, job.ops[k].path);
  }

  /**
   * Whatever content a client is given, by a read or by a refused write, it may read or write the file by an
   * ACL committed during its request. It may be without read permission exactly in a conflict reply.
   */
  lemma ContentsAreAuthorised(env: Env, s: State, w: World, i: nat, who: Principal, p: Path, content: string)
    returns (at: nat)
    requires Clean(s) && Reachable(env, s, w) && i < |w.log| && SafeBefore(s, w.log, i)
    requires GivesContent(s, w.log, i, who, p, content)
    ensures !w.log[i].LoadedAcl? && w.log[i].start <= at <= i && AclIs(env, Head(Before(s, w.log, at)), w.log[i].acl)
    ensures if w.log[i].ReadFile? then MayRead(w.log[i].acl, who, p) else MayWrite(env, w.log[i].acl, who, p)
  {
    hide Clean, Reachable, SafeBefore, AclIs, MayRead, MayWrite, HandsOver, Before;
    GiverIsReadOrWrite(s, w.log, i, who, p, content);
    at := AclWasCommitted(env, s, w, i);
    if HandsOver(s, w.log, i, who, p, content) { var k := HandedOverMeans(env, s, w, i, who, p, content); }
  }

  lemma GiverIsReadOrWrite(s: State, log: seq<Event>, i: nat, who: Principal, p: Path, content: string)
    requires GivesContent(s, log, i, who, p, content)
    ensures i < |log| && (log[i].ReadFile? || log[i].Wrote?)
    ensures HandsOver(s, log, i, who, p, content) ==> log[i].Wrote?
  {}

  // ---- One batch ----------------------------------------------------------------------------------

  /** Some run hands the author of this batch, judged by these rules, the content of `p`. */
  ghost predicate MayHandOver(env: Env, s: State, job: Job, acl: Option<seq<AclRule>>, p: Path) {
    exists w, i: nat, content ::
      && Reachable(env, s, w) && HandsOver(s, w.log, i, job.meta.principal, p, content)
      && i < |w.log| && w.log[i].Wrote? && w.log[i].job == job && w.log[i].acl == acl
  }

  /**
   * A batch that is admissible now hands its author the content of a file in some run, others writing too, if
   * and only if it names the file, which is there and a text: whether or not the author may read it.
   */
  lemma BatchHandsOverIff(env: Env, s: State, job: Job, acl: Option<seq<AclRule>>, p: Path)
    requires Clean(s) && Admissible(env, s, job, acl)
    ensures MayHandOver(env, s, job, acl, p) <==> p in s.work && IsText(p) && p in OpPaths(job.ops)
  {
    hide Clean, GateOpens, FirstError, LoadAcl, Reachable, HandsOver;
    if MayHandOver(env, s, job, acl, p) {
      var w, i: nat, content :| Reachable(env, s, w) && HandsOver(s, w.log, i, job.meta.principal, p, content)
                                && i < |w.log| && w.log[i].Wrote? && w.log[i].job == job && w.log[i].acl == acl;
      var k := HandedOverMeans(env, s, w, i, job.meta.principal, p, content);
      NoErrorMeansAllValid(s, job.ops);
      VersionedOpsAreOnFiles(s, job.ops[k]);
      assert OpPaths(job.ops)[k] == p;
    }
    if p in s.work && IsText(p) && p in OpPaths(job.ops) { HandOver(env, s, job, acl, p); }
  }

  lemma VersionedOpsAreOnFiles(s: State, op: Op)
    requires Validate(s, op).None? && op.ifVersion.Some?
    ensures op.path in s.work
  {}

  /** So no run hands the author anything unreadable exactly when every text file it names may be read. */
  lemma NothingUnreadableIff(env: Env, s: State, job: Job, acl: Option<seq<AclRule>>)
    requires Clean(s) && Admissible(env, s, job, acl)
    ensures (forall p :: MayHandOver(env, s, job, acl, p) ==> MayRead(acl, job.meta.principal, p)) <==>
            (forall p :: p in OpPaths(job.ops) && p in s.work && IsText(p) ==> MayRead(acl, job.meta.principal, p))
  {
    hide Clean, Admissible, MayHandOver, MayRead;
    forall p ensures MayHandOver(env, s, job, acl, p) <==> p in s.work && IsText(p) && p in OpPaths(job.ops) {
      BatchHandsOverIff(env, s, job, acl, p);
    }
  }

  /** The author's other request: the file with one character more. */
  function Overtake(s: State, job: Job, p: Path): Job
    requires p in s.work
  {
    var op := WriteOp(p, s.work[p] + "x").(ifVersion := Some(Blob(s.work[p])));
    Job(job.meta, [op])
  }

  lemma HandOver(env: Env, s: State, job: Job, acl: Option<seq<AclRule>>, p: Path)
    requires Clean(s) && Admissible(env, s, job, acl) && p in s.work && IsText(p) && p in OpPaths(job.ops)
    ensures MayHandOver(env, s, job, acl, p)
  {
    hide FirstError, Transact, LoadAcl, GateOpens, Reachable, Before, IsText, Clean;
    OvertakingIsAdmitted(env, s, job, acl, p);
    var w := OvertakenBy(env, s, job, acl, Overtake(s, job, p));
    OvertakenBatchConflicts(s, job, p);
    assert HandsOver(s, w.log, |w.log| - 1, job.meta.principal, p, s.work[p] + "x");
  }

  lemma OvertakingIsAdmitted(env: Env, s: State, job: Job, acl: Option<seq<AclRule>>, p: Path)
    requires p in s.work && p in OpPaths(job.ops) && GateOpens(env, acl, job)
    ensures GateOpens(env, acl, Overtake(s, job, p)) && Overtake(s, job, p).ops != []
  {
    hide MayWrite;
    var k :| 0 <= k < |job.ops| && OpPaths(job.ops)[k] == p;
    assert MayWrite(env, acl, job.meta.principal, job.ops[k].path);
  }

  /** The overtaking write commits: afterwards only this file is another one. */
  lemma OvertakingCommits(s: State, job: Job, p: Path)
    requires Clean(s) && p in s.work && IsText(p)
    ensures var s2 := Transact(s, Overtake(s, job, p).ops, job.meta).state;
            Clean(s2) && Head(s2) == s2.work == s.work[p := s.work[p] + "x"]
  {
    hide Transact, IsText;
    var op := Overtake(s, job, p).ops[0];
    assert Overtake(s, job, p).ops == [op] && [op][0] == op && OpPaths([op]) == [p];
    LoneOp(s, op, job.meta);
    var tree := Head(Transact(s, [op], job.meta).state);
    assert Lookup(tree, p) == Some(s.work[p] + "x");
    forall q ensures Lookup(tree, q) == Lookup(s.work[p := s.work[p] + "x"], q) {
      if q != p { assert q !in OpPaths([op]); }
    }
    SameLookups(tree, s.work[p := s.work[p] + "x"]);
  }

  /** An operation sees of the store no more than its own file. */
  lemma ValidationIsLocal(s: State, s2: State, op: Op)
    requires Lookup(s.work, op.path) == Lookup(s2.work, op.path)
    requires Lookup(Head(s), op.path) == Lookup(Head(s2), op.path)
    ensures Validate(s, op) == Validate(s2, op)
  {}

  lemma StaleVersionConflicts(s: State, s2: State, op: Op)
    requires Clean(s) && Clean(s2) && op.path in s.work && op.path in s2.work && s.work[op.path] != s2.work[op.path]
    requires IsText(op.path) && Validate(s, op).None?
    ensures Validate(s2, op) == Some(VersionConflict(Some(s2.work[op.path]), Some(Blob(s2.work[op.path]))))
  {
    hide IsText, FileSystem;
  }

  lemma FirstOn(ops: seq<Op>, p: Path) returns (k: nat)
    requires p in OpPaths(ops)
    ensures k < |ops| && ops[k].path == p && forall j :: 0 <= j < k ==> ops[j].path != p
  {
    var i :| 0 <= i < |ops| && OpPaths(ops)[i] == p;
    k := 0;
    while ops[k].path != p
      invariant 0 <= k <= i && forall j :: 0 <= j < k ==> ops[j].path != p
      decreases i - k
    {
      k := k + 1;
    }
  }

  lemma OvertakenBatchConflicts(s: State, job: Job, p: Path)
    requires Clean(s) && p in s.work && IsText(p) && p in OpPaths(job.ops) && FirstError(s, job.ops).None?
    ensures var s2, text := Transact(s, Overtake(s, job, p).ops, job.meta).state, s.work[p] + "x";
            var error := VersionConflict(Some(text), Some(Blob(text)));
            && Transact(s2, job.ops, job.meta).outcome == Raised(error)
            && exists k: nat :: RefusedFor(s2, job.ops, k, error) && job.ops[k].path == p
  {
    hide Validate, IsText, FirstError, FileSystem, Transact;
    OvertakingCommits(s, job, p);
    NoErrorMeansAllValid(s, job.ops);
    var s2 := Transact(s, Overtake(s, job, p).ops, job.meta).state;
    var k := FirstOn(job.ops, p);
    forall j | 0 <= j < k ensures Validate(s2, job.ops[j]).None? {
      ValidationIsLocal(s, s2, job.ops[j]);
    }
    StaleVersionConflicts(s, s2, job.ops[k]);
    FirstErrorAt(s2, job.ops, k);
    RefusalIsReported(s2, job.ops, job.meta);
    assert RefusedFor(s2, job.ops, k, Validate(s2, job.ops[k]).value);
  }

  lemma RefusalIsReported(s: State, ops: seq<Op>, meta: Meta)
    requires FirstError(s, ops).Some?
    ensures Transact(s, ops, meta).outcome == Raised(FirstError(s, ops).value)
  {
    hide Validate;
  }

  // ---- Rules ------------------------------------------------------------------------------------------

  /** Some run hands this client, judged by these rules, the content of `p`, which they do not let it read. */
  ghost predicate MayLearn(env: Env, s: State, acl: Option<seq<AclRule>>, who: Principal, p: Path) {
    exists job: Job :: job.meta.principal == who && MayHandOver(env, s, job, acl, p) && !MayRead(acl, who, p)
  }

  /** For every file: rules let a client learn a text it may not read exactly when they let it write the text. */
  lemma RulesDiscloseIff(env: Env, s: State, acl: Option<seq<AclRule>>, who: Principal, p: Path)
    requires Clean(s) && LoadAcl(env, s) == Rules(acl) && p in s.work
    ensures MayLearn(env, s, acl, who, p) <==> IsText(p) && MayWrite(env, acl, who, p) && !MayRead(acl, who, p)
  {
    hide Clean, LoadAcl, Reachable, HandsOver, MayRead, MayWrite, IsText;
    forall job: Job | job.meta.principal == who && MayHandOver(env, s, job, acl, p)
      ensures IsText(p) && MayWrite(env, acl, who, p)
    {
      var w, i: nat, content :| Reachable(env, s, w) && HandsOver(s, w.log, i, job.meta.principal, p, content)
                                && i < |w.log| && w.log[i].Wrote? && w.log[i].job == job && w.log[i].acl == acl;
      var k := HandedOverMeans(env, s, w, i, who, p, content);
    }
    if IsText(p) && MayWrite(env, acl, who, p) && !MayRead(acl, who, p) {
      var job := Job(Meta(who, "", None), [DeleteOp(p, Blob(s.work[p]))]);
      DeletionIsAdmissible(env, s, job, acl, p);
      BatchHandsOverIff(env, s, job, acl, p);
      assert OpPaths(job.ops)[0] == p;
    }
  }

  lemma DeletionIsAdmissible(env: Env, s: State, job: Job, acl: Option<seq<AclRule>>, p: Path)
    requires Clean(s) && LoadAcl(env, s) == Rules(acl) && p in s.work && job.ops == [DeleteOp(p, Blob(s.work[p]))]
    requires MayWrite(env, acl, job.meta.principal, p)
    ensures Admissible(env, s, job, acl)
  {
    hide LoadAcl, MayWrite;
    assert job.ops[1..] == [] && FirstError(s, []) == None;
    assert Validate(s, job.ops[0]).None?;
  }

  /** There are such rules for every path but the ACL file. */
  lemma WritableButUnreadable(env: Env, who: Principal, p: Path) returns (rules: seq<AclRule>)
    requires p != ACL_PATH
    ensures MayWrite(env, Some(rules), who, p) && !MayRead(Some(rules), who, p)
  {
    rules := [AclRule(None, None, None, None, Some(Deny), Some(Allow))];
    var read := Ask(who, Render(p), KindOf(p), Field.Read);
    var write := Ask(who, Render(p), KindOf(p), Field.Write);
    LoneGlobalRuleDecides(rules[0], read);
    LoneGlobalRuleDecides(rules[0], write);
  }

  lemma LoneGlobalRuleDecides(r: AclRule, ask: Ask)
    requires r.userId.None? && r.clientId.None? && r.kind.None? && r.pathPrefix.None? && Perm(r, ask.field).Some?
    ensures Allowed(Some([r]), ask) <==> Perm(r, ask.field) == Some(Allow)
  {
    hide ScopeDecision, PotDecision, Allowed;
    OnlyGlobal([r], ask);
    EngineFollowsAccessRule(Some([r]), ask);
    OneOfThree(Perm(r, ask.field));
    assert [r][0] == r && InPot(r, ask, Global) && TopRule([r], ask, Global, 0);
    assert Candidate([r][0], ask);
    assert Denies([r], ask, Global) <==> Perm([r][0], ask.field) == Some(Deny);
  }
}
