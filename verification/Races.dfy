/** Where a request that runs among others is answered otherwise than alone. */
module Races {
  import opened Base
  import opened Paths
  import opened Acl
  import opened Store
  import opened Evolution
  import opened GitStorage
  import opened Threads
  import opened Linear
  import opened Runs
  import opened Schedules
  import opened Breaches
  import opened Isolation
  import opened Api

  // ---- Reads that lose to a deletion ---------------------------------------------------------------

  /** On a clean store reading one file never raises an exception. */
  lemma CleanReadsDoNotCrash(s: State, p: Path)
    requires Clean(s)
    ensures GetFileSpec(s, p) != GetRaised(Crash)
  {}

  /** The read of event i raised an exception; alone, it answers that there is no such file. */
  ghost predicate LosesRace(s: State, log: seq<Event>, i: nat, who: Principal, p: Path) {
    && i < |log| && log[i].ReadFile? && log[i].who == who && log[i].path == p
    && log[i].got == GetRaised(Crash) && GetFileSpec(Before(s, log, i), p) == GetRaised(NotFound)
  }

  /** In every run a file that is gone when its read gets the lock had been found since the request came in. */
  lemma LostFilesWereThere(env: Env, s: State, w: World, i: nat, who: Principal, p: Path) returns (m: Probe)
    requires Reachable(env, s, w) && LosesRace(s, w.log, i, who, p)
    ensures m in w.probes && m.path == p && m.found && w.log[i].start <= m.at < i
    ensures m.done <= |BatchAt(w, m.at)| && HasFile(Before(s, w.log, m.at), BatchAt(w, m.at)[..m.done], p)
  {
    hide Reachable, Inv, Replay, Sequential, LockOk, ThreadOk, AllValid, ApplyAll;
    ReachableInv(env, s, w);
    InvGivesEvent(env, s, w, i);
    m :| m in w.probes && m.path == p && m.found && w.log[i].start <= m.at <= i && (m.at == i ==> m.done == 0);
    assert ProbeOk(s, w, m) by { InvGivesProbe(env, s, w, m); }
    if m.at == i { NothingApplied(Before(s, w.log, i), BatchAt(w, i)); }
  }

  lemma InvGivesProbe(env: Env, s: State, w: World, m: Probe)
    requires Inv(env, s, w) && m in w.probes
    ensures ProbeOk(s, w, m)
  {
    hide Sequential, LockOk, ThreadOk, EventOk, ProbeOk;
  }

  /**
   * Some run of an admissible batch makes a read of `p` raise an exception where alone it finds no file if
   * and only if the batch ends without the file it began with.
   */
  lemma BatchCrashesReadIff(env: Env, s: State, job: Job, acl: Option<seq<AclRule>>, who: Principal, p: Path)
    requires Clean(s) && Admissible(env, s, job, acl)
    ensures (exists w, i :: Reachable(env, s, w) && OnlyBatch(w.log, job) && LosesRace(s, w.log, i, who, p))
            <==> p in s.work && p !in Transact(s, job.ops, job.meta).state.work
  {
    hide Reachable, OnlyBatch, LosesRace, Clean, GateOpens, FirstError, LoadAcl, Transact;
    forall w, i | Reachable(env, s, w) && OnlyBatch(w.log, job) && LosesRace(s, w.log, i, who, p)
      ensures p in s.work && p !in Transact(s, job.ops, job.meta).state.work
    {
      assert i >= 0 by { LosesIsAt(s, w.log, i, who, p); }
      LostRaceMeans(env, s, w, job, i, who, p);
    }
    if p in s.work && p !in Transact(s, job.ops, job.meta).state.work {
      var w := LoseRace(env, s, job, acl, who, p);
    }
  }

  lemma LosesIsAt(s: State, log: seq<Event>, i: nat, who: Principal, p: Path)
    requires LosesRace(s, log, i, who, p)
    ensures i < |log| && p !in Before(s, log, i).work
  {}

  lemma LostRaceMeans(env: Env, s: State, w: World, job: Job, i: nat, who: Principal, p: Path)
    requires Clean(s) && Reachable(env, s, w) && OnlyBatch(w.log, job) && LosesRace(s, w.log, i, who, p)
    requires FirstError(s, job.ops).None? && job.ops != []
    ensures p in s.work && p !in Transact(s, job.ops, job.meta).state.work
  {
    hide Reachable, OnlyBatch, Inv, LosesRace, Evolve, Transact, FirstError, FileSystem, HasFile, WroteBefore,
         Applicable;
    LosesIsAt(s, w.log, i, who, p);
    var m := LostFilesWereThere(env, s, w, i, who, p);
    ReachableInv(env, s, w);
    ProbeInRunOfOne(env, s, w, job, m);
    OnlyBatchStates(s, w.log, job, i);
    BatchLeaves(s, job.ops, job.meta, p);
    NoErrorMeansAllValid(s, job.ops);
    if p !in s.work && m.done <= |Applicable(s, job.ops)| { NewFilesStay(s, job.ops, p, m.done); }
    assert WroteBefore(w.log, i) ==> p !in Transact(s, job.ops, job.meta).state.work;
    if m.at < |w.log| && w.log[m.at].Wrote? { WroteSince(w.log, m.at, i); }
    if WroteBefore(w.log, m.at) { WroteEarlier(w.log, m.at, i); }
  }

  lemma WroteSince(log: seq<Event>, k: nat, i: nat)
    requires k < i && k < |log| && log[k].Wrote?
    ensures WroteBefore(log, i)
  {}

  lemma WroteEarlier(log: seq<Event>, k: nat, i: nat)
    requires k <= i && WroteBefore(log, k)
    ensures WroteBefore(log, i)
  {}

  /** A valid batch does not delete what it creates. */
  lemma NewFilesStay(s: State, ops: seq<Op>, p: Path, k: nat)
    requires AllValid(s, ops) && p !in s.work && k <= |Applicable(s, ops)|
    ensures Evolve(Applicable(s, ops)[..k], p, None).Some? ==> Evolve(Applicable(s, ops), p, None).Some?
  {
    hide NewContent, FirstClash, FirstError;
    var done := Applicable(s, ops);
    forall i | 0 <= i < |done| && done[i].path == p ensures done[i].typ != Delete {
      assert done[i] == ops[i] && Validate(s, ops[i]).None?;
    }
    WithoutDeletesFilesStay(done, p, k, None);
  }

  lemma {:induction false} WithoutDeletesFilesStay(ops: seq<Op>, p: Path, k: nat, c: Option<string>)
    requires k <= |ops| && forall i :: 0 <= i < |ops| && ops[i].path == p ==> ops[i].typ != Delete
    ensures Evolve(ops[..k], p, c).Some? ==> Evolve(ops, p, c).Some?
  {
    if k == |ops| {
      assert ops[..k] == ops;
    } else {
      var front := ops[..|ops| - 1];
      assert front[..k] == ops[..k];
      WithoutDeletesFilesStay(front, p, k, c);
    }
  }

  /** A reader that has loaded the ACL finds the file and waits for the lock. */
  lemma FindFirst(env: Env, w: World, t: nat, who: Principal, p: Path, acl: Option<seq<AclRule>>) returns (w': World)
    requires t < |w.threads| && w.threads[t].Idle? && w.owner.None? && LoadAcl(env, w.state) == Rules(acl)
    requires p in w.state.work
    ensures Leads(env, w, w') && w'.state == w.state && w'.owner.None?
    ensures w'.threads == w.threads[t := Waiting(ToRead(who, p), |w.log|, acl)]
    ensures w'.log == Arrived(w, t, ToRead(who, p), acl).log
  {
    hide Leads, LoadAcl;
    Arrive(env, w, t, ToRead(who, p), acl);
    var ready := Arrived(w, t, ToRead(who, p), acl);
    LeadsByOne(env, ready, Step(t));
    w' := Probed(ready, t, |w.log|, p, acl.Some?, Waiting(ToRead(who, p), |w.log|, acl));
    assert Act(env, ready, Step(t)) == w';
    LeadsOn(env, w, ready, w');
  }

  /** A waiting reader whose file is gone takes the lock and raises. */
  lemma ReadTooLate(env: Env, w: World, t: nat) returns (w': World)
    requires t < |w.threads| && w.owner.None? && w.threads[t].Waiting? && w.threads[t].req.ToRead?
    requires w.threads[t].req.path !in w.state.work
    ensures var ph := w.threads[t];
            Leads(env, w, w') && w'.owner.None? && w'.state == w.state &&
            w'.log == w.log + [ReadFile(t, ph.start, ph.req.who, ph.req.path, ph.acl, GetRaised(Crash))]
  {
    hide Leads;
    var ph := w.threads[t];
    var who, p := ph.req.who, ph.req.path;
    var fetching := Goto(w, t, Fetching(who, p, ph.start, ph.acl, BlobVersion(w.state, p))).(owner := Some(t));
    LeadsByOne(env, w, Step(t));
    assert Act(env, w, Step(t)) == fetching;
    LeadsByOne(env, fetching, Step(t));
    w' := Release(fetching, t, Idle, ReadFile(t, ph.start, who, p, ph.acl, GetRaised(Crash)));
    assert Act(env, fetching, Step(t)) == w';
    LeadsOn(env, w, fetching, w');
  }

  /** The reader finds the file, the batch takes it away, and the reader gets the lock. */
  lemma LoseRace(env: Env, s: State, job: Job, acl: Option<seq<AclRule>>, who: Principal, p: Path) returns (w: World)
    requires Clean(s) && Admissible(env, s, job, acl)
    requires p in s.work && p !in Transact(s, job.ops, job.meta).state.work
    ensures Reachable(env, s, w) && OnlyBatch(w.log, job) && exists i :: LosesRace(s, w.log, i, who, p)
  {
    hide Leads, FirstError, Transact, LoadAcl, GateOpens, Clean, Reachable, Replay, Sequential;
    var w0 := Initial(s, 2);
    var w1 := FindFirst(env, w0, 1, who, p, acl);
    var w2 := Solo(env, w1, 0, job, acl);
    LeadsOn(env, w0, w1, w2);
    w := ReadTooLate(env, w2, 1);
    LeadsOn(env, w0, w2, w);
    LeadsIsReachable(env, s, 2, w);
    LeadsIsReachable(env, s, 2, w2);
    RunsAreSequential(env, s, w2);
    ReplaySnoc(s, w2.log, w.log[|w.log| - 1]);
    assert LosesRace(s, w.log, |w.log| - 1, who, p);
  }

  // ---- Requests against their sequential meaning ---------------------------------------------------------

  /**
   * A batch at the store is the whole write request, served alone on the state before it, exactly when the
   * rules in force there let its author in; or when they cannot be read and the batch raises without effect.
   */
  lemma BatchIsServedIff(env: Env, s: State, log: seq<Event>, i: nat)
    requires Sequential(s, log) && i < |log| && log[i].Wrote?
    ensures var b, e, after := Before(s, log, i), log[i], Before(s, log, i + 1);
            Serve(env, b, e.job.ops, e.job.meta) == Served(after, ReplyOf(e.outcome)) <==>
            match LoadAcl(env, b)
            case Rules(acl) => GateOpens(env, acl, e.job)
            case Broken => e.outcome == Raised(Crash) && after == b
  {
    hide LoadAcl, MayWriteAll, Transact;
    BeforeStep(s, log, i);
    PerformedAt(s, log, i);
  }

  /**
   * Rules that are replaced while a batch past the gate waits do not stop it: it is carried out, or refused by
   * the store, on a state whose rules deny it.
   */
  lemma OutdatedRulesAdmit(env: Env, s: State, job: Job, acl: Option<seq<AclRule>>, other: Job)
    returns (w: World, i: nat)
    requires Admissible(env, s, job, acl) && Admissible(env, s, other, acl)
    requires var loaded := LoadAcl(env, Transact(s, other.ops, other.meta).state);
             loaded.Rules? && !GateOpens(env, loaded.acl, job)
    ensures Reachable(env, s, w) && i < |w.log| && w.log[i].Wrote? && w.log[i].job == job
    ensures var b := Before(s, w.log, i);
            && w.log[i].outcome == Transact(b, job.ops, job.meta).outcome
            && Before(s, w.log, i + 1) == Transact(b, job.ops, job.meta).state
            && Serve(env, b, job.ops, job.meta) == Served(b, Denied)
  {
    hide FirstError, Transact, LoadAcl, MayWriteAll, Reachable, Before;
    w := OvertakenBy(env, s, job, acl, other);
    i := |w.log| - 1;
  }

  /** The reply of the read handler to event i. */
  function ReadReplyOf(e: Event): ReadReply
    requires e.ReadFile?
  {
    match e.got
    case GetRaised(error) => ReadFailed(error)
    case Got(v, content) => if MayRead(e.acl, e.who, e.path) then ReadReply.Read(v, content) else ReadDenied
  }

  /**
   * A read is the whole read request, served alone on the state before it, exactly when the file is still
   * there and the rules in force there decide as those the request had loaded; or when they cannot be read
   * and the read raises.
   */
  lemma ReadIsServedIff(env: Env, s: State, log: seq<Event>, i: nat)
    requires Sequential(s, log) && i < |log| && log[i].ReadFile?
    ensures var b, e := Before(s, log, i), log[i];
            ServeRead(env, b, e.path, e.who) == ReadReplyOf(e) <==>
            match LoadAcl(env, b)
            case Rules(acl) =>
              e.path in b.work && (e.got.Got? ==> (MayRead(acl, e.who, e.path) <==> MayRead(e.acl, e.who, e.path)))
            case Broken => e.got == GetRaised(Crash)
  {
    hide LoadAcl, MayRead;
    PerformedAt(s, log, i);
  }
}
