/** Runs put together step by step: what a thread can do alone, and where it can be stopped. */
module Schedules {
  import opened Base
  import opened Paths
  import opened Acl
  import opened Store
  import opened Atomicity
  import opened GitStorage
  import opened Threads
  import opened Linear
  import opened Runs

  /** Some actions lead from one world to the other. */
  ghost predicate Leads(env: Env, w: World, w': World) {
    exists actions :: Run(env, w, actions) == w'
  }

  lemma LeadsNowhere(env: Env, w: World)
    ensures Leads(env, w, w)
  {
    assert Run(env, w, []) == w;
  }

  lemma {:induction false} RunConcat(env: Env, w: World, a: seq<Action>, b: seq<Action>)
    ensures Run(env, Run(env, w, a), b) == Run(env, w, a + b)
  {
    hide Act;
    if b == [] {
      assert a + b == a;
    } else {
      RunConcat(env, w, a, b[..|b| - 1]);
      assert (a + b)[..|a + b| - 1] == a + b[..|b| - 1];
    }
  }

  lemma LeadsOn(env: Env, w: World, mid: World, w': World)
    requires Leads(env, w, mid) && Leads(env, mid, w')
    ensures Leads(env, w, w')
  {
    hide Run;
    var a :| Run(env, w, a) == mid;
    var b :| Run(env, mid, b) == w';
    RunConcat(env, w, a, b);
  }

  lemma LeadsByOne(env: Env, w: World, a: Action)
    ensures Leads(env, w, Act(env, w, a))
  {
    hide Act;
    assert [a][..0] == [] && Run(env, w, []) == w;
    assert Run(env, w, [a]) == Act(env, w, a);
  }

  lemma LeadsIsReachable(env: Env, s: State, n: nat, w: World)
    requires Leads(env, Initial(s, n), w)
    ensures Reachable(env, s, w)
  {}

  // ---- Writing --------------------------------------------------------------------------------

  lemma {:induction false} CheckUpTo(env: Env, w: World, t: nat, k: nat)
    requires t < |w.threads| && w.threads[t].Checking? && w.threads[t].k <= k <= |w.threads[t].job.ops|
    requires forall i :: w.threads[t].k <= i < k ==> Validate(w.state, w.threads[t].job.ops[i]).None?
    ensures Leads(env, w, Goto(w, t, Checking(w.threads[t].job, w.threads[t].start, w.threads[t].acl, k)))
    decreases k - w.threads[t].k
  {
    hide Leads, Validate;
    var ph := w.threads[t];
    if ph.k == k {
      LeadsNowhere(env, w);
      assert Goto(w, t, ph) == w;
    } else {
      var next := Goto(w, t, Checking(ph.job, ph.start, ph.acl, ph.k + 1));
      LeadsByOne(env, w, Step(t));
      CheckUpTo(env, next, t, k);
      assert Goto(next, t, Checking(ph.job, ph.start, ph.acl, k)) == Goto(w, t, Checking(ph.job, ph.start, ph.acl, k));
      LeadsOn(env, w, next, Goto(w, t, Checking(ph.job, ph.start, ph.acl, k)));
    }
  }

  /** The thread is writing, and its batch has been applied to `base` up to where it is. */
  ghost predicate HasWritten(w: World, t: nat, base: State) {
    && t < |w.threads| && w.threads[t].Writing? && w.threads[t].k <= |w.threads[t].job.ops|
    && ApplyAll(base, w.threads[t].job.ops[..w.threads[t].k]) == Applied(w.state, true)
  }

  lemma {:induction false} WriteUpTo(env: Env, w: World, t: nat, base: State, k: nat)
    requires HasWritten(w, t, base) && w.threads[t].k <= k <= |w.threads[t].job.ops|
    requires ApplyAll(base, w.threads[t].job.ops[..k]).ok
    ensures var ph := w.threads[t];
            var w' := Goto(w, t, Writing(ph.job, ph.start, ph.acl, k)).(state := ApplyAll(base, ph.job.ops[..k]).state);
            HasWritten(w', t, base) && Leads(env, w, w')
    decreases k - w.threads[t].k
  {
    hide Leads, ApplyOp;
    var ph := w.threads[t];
    var w' := Goto(w, t, Writing(ph.job, ph.start, ph.acl, k)).(state := ApplyAll(base, ph.job.ops[..k]).state);
    if ph.k == k {
      LeadsNowhere(env, w);
      assert w' == w;
    } else {
      NextWrite(base, ph.job.ops, ph.k, w.state);
      var applied := ApplyOp(w.state, ph.job.ops[ph.k]);
      StepOk(base, ph.job.ops, ph.k, k);
      var next := Goto(w.(state := applied.state), t, Writing(ph.job, ph.start, ph.acl, ph.k + 1));
      LeadsByOne(env, w, Step(t));
      assert Act(env, w, Step(t)) == next;
      WriteUpTo(env, next, t, base, k);
      assert Goto(next, t, Writing(ph.job, ph.start, ph.acl, k)).(state := w'.state) == w';
      LeadsOn(env, w, next, w');
    }
  }

  lemma StepOk(base: State, ops: seq<Op>, i: nat, k: nat)
    requires i < k <= |ops| && ApplyAll(base, ops[..k]).ok
    ensures ApplyAll(base, ops[..i + 1]).ok
  {
    if !ApplyAll(base, ops[..i + 1]).ok {
      assert ops[..k][..i + 1] == ops[..i + 1];
      LoopStops(base, ops[..k], i + 1);
    }
  }

  /** The world after thread `t` has ended its batch, begun on `base`. */
  function Ended(w: World, t: nat, base: State, job: Job, start: nat, acl: Option<seq<AclRule>>): World
    requires t < |w.threads|
  {
    var end := Transact(base, job.ops, job.meta);
    Release(w.(state := end.state), t, Idle, Wrote(t, start, job, acl, end.outcome))
  }

  /** A thread that is writing can go on to the end of its batch, be it a commit or an exception. */
  lemma FinishWriting(env: Env, w: World, t: nat, base: State)
    requires HasWritten(w, t, base) && w.threads[t].job.ops != [] && AllValid(base, w.threads[t].job.ops)
    ensures Leads(env, w, Ended(w, t, base, w.threads[t].job, w.threads[t].start, w.threads[t].acl))
    decreases |w.threads[t].job.ops| - w.threads[t].k
  {
    hide Leads, ApplyOp, Validate, ResultFiles, Dedup, OpPaths;
    var ph := w.threads[t];
    var ops := ph.job.ops;
    NoErrorMeansAllValid(base, ops);
    LeadsByOne(env, w, Step(t));
    if ph.k == |ops| {
      assert ops[..ph.k] == ops;
      LoopKeepsCommits(base, ops);
    } else {
      NextWrite(base, ops, ph.k, w.state);
      var applied := ApplyOp(w.state, ops[ph.k]);
      if applied.ok {
        var next := Goto(w.(state := applied.state), t, Writing(ph.job, ph.start, ph.acl, ph.k + 1));
        assert Act(env, w, Step(t)) == next;
        FinishWriting(env, next, t, base);
        assert Ended(next, t, base, ph.job, ph.start, ph.acl) == Ended(w, t, base, ph.job, ph.start, ph.acl);
        LeadsOn(env, w, next, Ended(w, t, base, ph.job, ph.start, ph.acl));
      }
    }
  }

  /** A waiting batch that passes validation can take the free lock and begin to write. */
  lemma StartWriting(env: Env, w: World, t: nat)
    requires t < |w.threads| && w.owner.None? && w.threads[t].Waiting? && w.threads[t].req.ToWrite?
    requires AllValid(w.state, w.threads[t].req.job.ops)
    ensures var ph := w.threads[t];
            var w' := Goto(w, t, Writing(ph.req.job, ph.start, ph.acl, 0)).(owner := Some(t));
            HasWritten(w', t, w.state) && Leads(env, w, w')
  {
    hide Leads, Validate;
    var ph := w.threads[t];
    var job := ph.req.job;
    var checking := Goto(w, t, Checking(job, ph.start, ph.acl, 0)).(owner := Some(t));
    LeadsByOne(env, w, Step(t));
    CheckUpTo(env, checking, t, |job.ops|);
    var checked := Goto(checking, t, Checking(job, ph.start, ph.acl, |job.ops|));
    LeadsOn(env, w, checking, checked);
    LeadsByOne(env, checked, Step(t));
    var w' := Goto(w, t, Writing(job, ph.start, ph.acl, 0)).(owner := Some(t));
    assert Act(env, checked, Step(t)) == w';
    LeadsOn(env, w, checked, w');
    assert job.ops[..0] == [] && ApplyAll(w.state, []) == Applied(w.state, true);
  }

  /** A waiting batch can be ended at once, refused or carried out, while the other threads rest. */
  lemma FinishJob(env: Env, w: World, t: nat)
    requires t < |w.threads| && w.owner.None? && w.threads[t].Waiting? && w.threads[t].req.ToWrite?
    requires w.threads[t].req.job.ops != []
    ensures Leads(env, w, Ended(w, t, w.state, w.threads[t].req.job, w.threads[t].start, w.threads[t].acl))
  {
    hide Leads, Validate, ApplyAll, HasWritten, Transact;
    var ph := w.threads[t];
    var job := ph.req.job;
    NoErrorMeansAllValid(w.state, job.ops);
    if AllValid(w.state, job.ops) {
      StartWriting(env, w, t);
      var writing := Goto(w, t, Writing(job, ph.start, ph.acl, 0)).(owner := Some(t));
      FinishWriting(env, writing, t, w.state);
      assert Ended(writing, t, w.state, job, ph.start, ph.acl) == Ended(w, t, w.state, job, ph.start, ph.acl);
      LeadsOn(env, w, writing, Ended(w, t, w.state, job, ph.start, ph.acl));
    } else {
      RefuseJob(env, w, t);
    }
  }

  lemma {:induction false} FirstInvalid(s: State, ops: seq<Op>) returns (k: nat)
    requires FirstError(s, ops).Some?
    ensures k < |ops| && Validate(s, ops[k]) == FirstError(s, ops)
    ensures forall i :: 0 <= i < k ==> Validate(s, ops[i]).None?
  {
    hide Validate;
    if Validate(s, ops[0]).Some? {
      k := 0;
    } else {
      var j := FirstInvalid(s, ops[1..]);
      k := j + 1;
      forall i | 0 <= i < k ensures Validate(s, ops[i]).None? {
        if i > 0 { assert ops[1..][i - 1] == ops[i]; }
      }
    }
  }

  lemma RefuseJob(env: Env, w: World, t: nat)
    requires t < |w.threads| && w.owner.None? && w.threads[t].Waiting? && w.threads[t].req.ToWrite?
    requires FirstError(w.state, w.threads[t].req.job.ops).Some?
    ensures Leads(env, w, Ended(w, t, w.state, w.threads[t].req.job, w.threads[t].start, w.threads[t].acl))
  {
    hide Leads, Validate, ApplyAll, HasWritten, FirstError;
    var ph := w.threads[t];
    var job := ph.req.job;
    var k := FirstInvalid(w.state, job.ops);
    var checking := Goto(w, t, Checking(job, ph.start, ph.acl, 0)).(owner := Some(t));
    LeadsByOne(env, w, Step(t));
    CheckUpTo(env, checking, t, k);
    var stopped := Goto(checking, t, Checking(job, ph.start, ph.acl, k));
    LeadsOn(env, w, checking, stopped);
    LeadsByOne(env, stopped, Step(t));
    var end := Ended(w, t, w.state, job, ph.start, ph.acl);
    assert Act(env, stopped, Step(t)) == end;
    LeadsOn(env, w, stopped, end);
  }

  // ---- Whole requests ---------------------------------------------------------------------------

  /** The world after thread `t` has come in with a request and loaded the ACL. */
  function Arrived(w: World, t: nat, req: Request, acl: Option<seq<AclRule>>): World
    requires t < |w.threads|
  {
    var ready := Probed(w, t, |w.log|, ACL_PATH, false, Ready(req, |w.log|, acl));
    if acl.Some? then ready.(log := w.log + [LoadedAcl(t, |w.log|, GetFileSpec(w.state, ACL_PATH))]) else ready
  }

  lemma Arrive(env: Env, w: World, t: nat, req: Request, acl: Option<seq<AclRule>>)
    requires t < |w.threads| && w.threads[t].Idle? && LoadAcl(env, w.state) == Rules(acl)
    requires acl.Some? ==> w.owner.None?
    ensures Leads(env, w, Arrived(w, t, req, acl))
  {
    hide Leads, ParseAcl;
    var probing := Goto(w, t, Probing(req, |w.log|));
    LeadsByOne(env, w, Submit(t, req));
    LeadsByOne(env, probing, Step(t));
    var probed := Act(env, probing, Step(t));
    LeadsOn(env, w, probing, probed);
    assert acl.Some? <==> ACL_PATH in w.state.work;
    WrittenIgnores(w, t, Probing(req, |w.log|));
    if acl.Some? {
      LeadsByOne(env, probed, Step(t));
      var loading := Act(env, probed, Step(t));
      LeadsOn(env, w, probed, loading);
      LeadsByOne(env, loading, Step(t));
      assert Act(env, loading, Step(t)) == Arrived(w, t, req, acl);
      LeadsOn(env, w, loading, Arrived(w, t, req, acl));
    } else {
      assert probed == Arrived(w, t, req, acl);
    }
  }

  lemma WrittenIgnores(w: World, t: nat, ph: Phase)
    requires t < |w.threads| && w.threads[t].Idle? && !ph.Writing?
    ensures Written(Goto(w, t, ph)) == Written(w)
  {}

  /** An admitted batch comes in, loads the ACL and passes the gate. */
  lemma ArriveToWrite(env: Env, w: World, t: nat, job: Job, acl: Option<seq<AclRule>>)
    requires t < |w.threads| && w.threads[t].Idle? && LoadAcl(env, w.state) == Rules(acl)
    requires acl.Some? ==> w.owner.None?
    requires GateOpens(env, acl, job) && job.ops != []
    ensures var ready := Arrived(w, t, ToWrite(job), acl);
            Leads(env, w, Goto(ready, t, Waiting(ToWrite(job), |w.log|, acl)))
  {
    hide Leads, LoadAcl, GateOpens;
    Arrive(env, w, t, ToWrite(job), acl);
    var ready := Arrived(w, t, ToWrite(job), acl);
    LeadsByOne(env, ready, Step(t));
    LeadsOn(env, w, ready, Goto(ready, t, Waiting(ToWrite(job), |w.log|, acl)));
  }

  /** An admitted batch can be carried out alone. */
  lemma Solo(env: Env, w: World, t: nat, job: Job, acl: Option<seq<AclRule>>) returns (w': World)
    requires t < |w.threads| && w.threads[t].Idle? && w.owner.None? && LoadAcl(env, w.state) == Rules(acl)
    requires GateOpens(env, acl, job) && job.ops != []
    ensures Leads(env, w, w')
    ensures w' == Ended(Arrived(w, t, ToWrite(job), acl), t, w.state, job, |w.log|, acl)
  {
    hide Leads, LoadAcl, GateOpens, Transact;
    ArriveToWrite(env, w, t, job, acl);
    var ready := Arrived(w, t, ToWrite(job), acl);
    var waiting := Goto(ready, t, Waiting(ToWrite(job), |w.log|, acl));
    FinishJob(env, waiting, t);
    w' := Ended(ready, t, w.state, job, |w.log|, acl);
    assert Ended(waiting, t, w.state, job, |w.log|, acl) == w';
    LeadsOn(env, w, waiting, w');
  }
}
