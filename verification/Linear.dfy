/** The invariant of every run of threads, whatever their requests and the store they start on. */
module Linear {
  import opened Base
  import opened Paths
  import opened Acl
  import opened Store
  import opened Atomicity
  import opened Listing
  import opened GitStorage
  import opened Threads

  // ---- Replay ---------------------------------------------------------------------------

  lemma ReplaySnoc(s: State, log: seq<Event>, e: Event)
    ensures Replay(s, log + [e]) == Effect(Replay(s, log), e)
    ensures forall k :: 0 <= k <= |log| ==> Before(s, log + [e], k) == Before(s, log, k)
    ensures Before(s, log, |log|) == Replay(s, log)
    ensures Before(s, log + [e], |log| + 1) == Replay(s, log + [e])
  {
    assert (log + [e])[..|log|] == log && log[..|log|] == log && (log + [e])[..|log| + 1] == log + [e];
    forall k | 0 <= k <= |log| ensures (log + [e])[..k] == log[..k] {}
  }

  lemma BeforeStep(s: State, log: seq<Event>, i: nat)
    requires i < |log|
    ensures Before(s, log, i + 1) == Effect(Before(s, log, i), log[i])
  {
    assert log[..i + 1][..i] == log[..i];
  }

  lemma SequentialSnoc(s: State, log: seq<Event>, e: Event)
    requires Sequential(s, log) && Performed(Replay(s, log), e)
    ensures Sequential(s, log + [e])
  {
    hide Performed, Replay;
    ReplaySnoc(s, log, e);
    forall i | 0 <= i < |log + [e]| ensures Performed(Before(s, log + [e], i), (log + [e])[i]) {
      if i < |log| { assert Performed(Before(s, log, i), log[i]); }
    }
  }

  // ---- Invariant --------------------------------------------------------------------------

  /** What the lock holder has done to the state `base` so far. */
  ghost predicate Progress(ph: Phase, base: State, now: State) {
    match ph
    case LoadingAcl(_, _, version) => now == base && version == BlobVersion(base, ACL_PATH)
    case Fetching(_, p, _, _, version) => now == base && version == BlobVersion(base, p)
    case Walking(_, _, _, _, _, _) => now == base
    case Checking(job, _, _, k) =>
      now == base && k <= |job.ops| && job.ops != [] && forall i :: 0 <= i < k ==> Validate(base, job.ops[i]).None?
    case Writing(job, _, _, k) =>
      k <= |job.ops| && job.ops != [] && AllValid(base, job.ops) && ApplyAll(base, job.ops[..k]) == Applied(now, true)
    case _ => false
  }

  ghost predicate LockOk(base: State, w: World) {
    && (w.owner.None? ==> w.state == base)
    && (w.owner.Some? ==> w.owner.value < |w.threads| && Progress(w.threads[w.owner.value], base, w.state))
    && (forall u :: 0 <= u < |w.threads| ==> (Holds(w.threads[u]) <==> w.owner == Some(u)))
  }

  /** The batch that is being written, if any. */
  function Current(w: World): seq<Op> {
    if w.owner.Some? && w.owner.value < |w.threads| && w.threads[w.owner.value].Writing?
    then w.threads[w.owner.value].job.ops else []
  }

  /** The batch written while the log had length `at`. */
  function BatchAt(w: World, at: nat): seq<Op> {
    if at >= |w.log| then Current(w) else if w.log[at].Wrote? then w.log[at].job.ops else []
  }

  /** `p` is a file once these operations have been applied to `base`. */
  ghost predicate HasFile(base: State, done: seq<Op>, p: Path) {
    p in ApplyAll(base, done).state.work
  }

  /** A test says exactly what the half-written state of its moment had. */
  ghost predicate ProbeOk(s: State, w: World, m: Probe) {
    && m.start <= m.at <= |w.log| && (m.loaded ==> m.start < m.at)
    && m.done <= |BatchAt(w, m.at)|
    && (m.at == |w.log| ==> m.done <= Written(w))
    && (m.done > 0 ==> AllValid(Before(s, w.log, m.at), BatchAt(w, m.at)))
    && ApplyAll(Before(s, w.log, m.at), BatchAt(w, m.at)[..m.done]).ok
    && (m.found <==> HasFile(Before(s, w.log, m.at), BatchAt(w, m.at)[..m.done], m.path))
  }

  /** The rules are those of a file read under the lock between `start` and `now`. */
  ghost predicate ReadBetween(env: Env, s: State, log: seq<Event>, start: nat, now: nat, acl: Option<seq<AclRule>>) {
    acl.Some? && exists k :: start <= k < now && k < |log| && LoadAcl(env, Before(s, log, k)) == Rules(acl)
  }

  /** A test between `start` and `now` answered so; a lock holder's test was not made in its own batch. */
  ghost predicate TestedBetween(probes: seq<Probe>, p: Path, found: bool, start: nat, now: nat, holding: bool) {
    exists m :: m in probes && m.path == p && m.found == found && start <= m.at <= now &&
                (holding && m.at == now ==> m.done == 0)
  }

  ghost predicate AclOrigin(env: Env, s: State, w: World, start: nat, acl: Option<seq<AclRule>>, holding: bool) {
    if acl.Some? then ReadBetween(env, s, w.log, start, |w.log|, acl)
       else TestedBetween(w.probes, ACL_PATH, false, start, |w.log|, holding)
  }

  function StartOf(ph: Phase): nat {
    if ph.Idle? then 0 else ph.start
  }

  predicate HasAcl(ph: Phase) { !ph.Idle? && !ph.Probing? && !ph.Queued? && !ph.LoadingAcl? }

  /** A batch past the gate. */
  predicate Admitted(env: Env, ph: Phase) {
    && (ph.Waiting? && ph.req.ToWrite? ==> GateOpens(env, ph.acl, ph.req.job) && ph.req.job.ops != [])
    && (ph.Checking? || ph.Writing? ==> GateOpens(env, ph.acl, ph.job) && ph.job.ops != [])
  }

  /** The file a thread is about to read was found by its test. */
  ghost predicate FoundFirst(probes: seq<Probe>, ph: Phase, now: nat, holding: bool) {
    && (ph.Queued? || ph.LoadingAcl? ==> TestedBetween(probes, ACL_PATH, true, ph.start, now, holding))
    && (ph.Waiting? && ph.req.ToRead? ==> TestedBetween(probes, ph.req.path, true, ph.start, now, holding))
    && (ph.Fetching? ==> TestedBetween(probes, ph.path, true, ph.start, now, holding))
  }

  ghost predicate ThreadOk(env: Env, s: State, w: World, u: nat)
    requires u < |w.threads|
  {
    var ph := w.threads[u];
    && StartOf(ph) <= |w.log|
    && Admitted(env, ph)
    && FoundFirst(w.probes, ph, |w.log|, w.owner == Some(u))
    && (HasAcl(ph) ==> AclOrigin(env, s, w, ph.start, ph.acl, w.owner == Some(u)))
  }

  ghost predicate EventOk(env: Env, s: State, log: seq<Event>, probes: seq<Probe>, i: nat)
    requires i < |log|
  {
    var e := log[i];
    && e.start <= i
    && (e.Wrote? ==> GateOpens(env, e.acl, e.job) && e.job.ops != [])
    && (!e.LoadedAcl? ==>
          if e.acl.Some? then ReadBetween(env, s, log, e.start, i, e.acl)
          else TestedBetween(probes, ACL_PATH, false, e.start, i, true))
    && (e.LoadedAcl? ==> TestedBetween(probes, ACL_PATH, true, e.start, i, true))
    && (e.ReadFile? ==> TestedBetween(probes, e.path, true, e.start, i, true))
  }

  /** Tests are recorded in the order of what they saw. */
  ghost predicate InOrder(probes: seq<Probe>) {
    forall a, b :: 0 <= a < b < |probes| ==>
      probes[a].at <= probes[b].at && (probes[a].at == probes[b].at ==> probes[a].done <= probes[b].done)
  }

  ghost predicate Inv(env: Env, s: State, w: World) {
    && Sequential(s, w.log)
    && LockOk(Replay(s, w.log), w)
    && (forall u :: 0 <= u < |w.threads| ==> ThreadOk(env, s, w, u))
    && (forall m :: m in w.probes ==> ProbeOk(s, w, m))
    && InOrder(w.probes)
    && (forall i :: 0 <= i < |w.log| ==> EventOk(env, s, w.log, w.probes, i))
  }

  lemma InitialInv(env: Env, s: State, n: nat)
    ensures Inv(env, s, Initial(s, n))
  {}

  // ---- The ways a step can change the world ---------------------------------------------------

  /** A thread without the lock moves on. */
  lemma QuietStep(env: Env, s: State, w: World, t: nat, ph: Phase)
    requires Inv(env, s, w) && t < |w.threads| && !Holds(w.threads[t]) && !Holds(ph)
    requires StartOf(ph) <= |w.log| && Admitted(env, ph)
    requires HasAcl(ph) ==> AclOrigin(env, s, w, ph.start, ph.acl, false)
    requires FoundFirst(w.probes, ph, |w.log|, false)
    ensures Inv(env, s, Goto(w, t, ph))
  {
    hide Sequential, Replay, Admitted, ReadBetween, TestedBetween, FoundFirst, EventOk, HasFile, AllValid;
    var w' := Goto(w, t, ph);
    assert w.owner != Some(t);
    assert Current(w') == Current(w) && Written(w') == Written(w);
    forall u | 0 <= u < |w'.threads| ensures ThreadOk(env, s, w', u) {
      assert ThreadOk(env, s, w, u);
    }
    forall m | m in w'.probes ensures ProbeOk(s, w', m) {
      assert ProbeOk(s, w, m) && BatchAt(w', m.at) == BatchAt(w, m.at);
    }
  }

  /** This is what a test made now records. */
  ghost predicate MadeNow(w: World, m: Probe) {
    && m.at == |w.log| && m.done == Written(w) && m.start <= m.at && (m.loaded ==> m.start < m.at)
    && (m.found <==> m.path in w.state.work)
  }

  /** The working tree is the state before the batch being written, taken so far. */
  lemma NewProbeIsOk(s: State, w: World, m: Probe)
    requires LockOk(Replay(s, w.log), w) && MadeNow(w, m)
    ensures ProbeOk(s, w, m)
  {
    hide Validate, ApplyOp, Replay;
    assert w.log[..|w.log|] == w.log;
    var base := Replay(s, w.log);
    if w.owner.Some? && w.threads[w.owner.value].Writing? {
      assert Progress(w.threads[w.owner.value], base, w.state);
    } else {
      assert w.state == base && Current(w)[..0] == [];
      assert ApplyAll(base, []) == Applied(base, true);
    }
  }

  /** A test is recorded. */
  lemma ProbeStep(env: Env, s: State, w: World, m: Probe)
    requires Inv(env, s, w) && MadeNow(w, m)
    ensures Inv(env, s, w.(probes := w.probes + [m]))
  {
    hide Sequential, Replay, Admitted, ReadBetween, TestedBetween, HasFile, AllValid, Progress;
    var w' := w.(probes := w.probes + [m]);
    NewProbeIsOk(s, w, m);
    forall x | x in w'.probes ensures ProbeOk(s, w', x) {
      if x in w.probes { assert ProbeOk(s, w, x); }
      assert BatchAt(w', x.at) == BatchAt(w, x.at);
    }
    forall a | 0 <= a < |w.probes|
      ensures w.probes[a].at <= m.at && (w.probes[a].at == m.at ==> w.probes[a].done <= m.done)
    {
      assert w.probes[a] in w.probes && ProbeOk(s, w, w.probes[a]);
    }
    MoreProbes(w.probes, m);
    forall u | 0 <= u < |w'.threads| ensures ThreadOk(env, s, w', u) {
      assert ThreadOk(env, s, w, u);
    }
    forall i | 0 <= i < |w'.log| ensures EventOk(env, s, w'.log, w'.probes, i) {
      assert EventOk(env, s, w.log, w.probes, i);
    }
  }

  lemma MoreProbes(probes: seq<Probe>, m: Probe)
    ensures forall p, found, start: nat, now: nat, holding ::
              TestedBetween(probes, p, found, start, now, holding) ==>
                TestedBetween(probes + [m], p, found, start, now, holding)
  {
    forall p, found, start: nat, now: nat, holding | TestedBetween(probes, p, found, start, now, holding)
      ensures TestedBetween(probes + [m], p, found, start, now, holding)
    {
      var x :| x in probes && x.path == p && x.found == found && start <= x.at <= now &&
               (holding && x.at == now ==> x.done == 0);
      assert x in probes + [m];
    }
  }

  lemma TestedNow(probes: seq<Probe>, m: Probe)
    ensures TestedBetween(probes + [m], m.path, m.found, m.start, m.at, false) <== m.start <= m.at
  {
    assert m in probes + [m];
  }

  /** A thread takes the free lock. */
  lemma AcquireStep(env: Env, s: State, w: World, t: nat, ph: Phase)
    requires Inv(env, s, w) && t < |w.threads| && !Holds(w.threads[t]) && Holds(ph) && !ph.Writing?
    requires w.owner.None? ==> Progress(ph, w.state, w.state)
    requires StartOf(ph) <= |w.log| && Admitted(env, ph)
    requires HasAcl(ph) ==> HasAcl(w.threads[t]) && ph.acl == w.threads[t].acl && ph.start == w.threads[t].start
    requires FoundFirst(w.probes, ph, |w.log|, false)
    ensures Inv(env, s, Acquire(w, t, ph))
  {
    hide Sequential, Replay, Admitted, ReadBetween, TestedBetween, EventOk, HasFile, AllValid, Progress;
    if w.owner.None? {
      var w' := Acquire(w, t, ph);
      assert Current(w') == Current(w) == [] && Written(w') == Written(w) == 0;
      forall m | m in w'.probes ensures ProbeOk(s, w', m) {
        assert ProbeOk(s, w, m) && BatchAt(w', m.at) == BatchAt(w, m.at);
      }
      forall u | 0 <= u < |w'.threads| ensures ThreadOk(env, s, w', u) {
        assert ThreadOk(env, s, w, u);
        if u == t { NothingWrittenYet(s, w); }
      }
    }
  }

  /** While the lock is free no batch is being written that a test could have been made in. */
  lemma NothingWrittenYet(s: State, w: World)
    requires w.owner.None? && forall m :: m in w.probes ==> ProbeOk(s, w, m)
    ensures forall p, found, start: nat ::
              TestedBetween(w.probes, p, found, start, |w.log|, false) ==>
                TestedBetween(w.probes, p, found, start, |w.log|, true)
  {
    hide HasFile, AllValid, Replay;
    forall p, found, start: nat | TestedBetween(w.probes, p, found, start, |w.log|, false)
      ensures TestedBetween(w.probes, p, found, start, |w.log|, true)
    {
      var m :| m in w.probes && m.path == p && m.found == found && start <= m.at <= |w.log|;
      assert ProbeOk(s, w, m);
    }
  }

  /** The lock holder makes progress. */
  lemma ProgressStep(env: Env, s: State, w: World, t: nat, now: State, ph: Phase)
    requires Inv(env, s, w) && t < |w.threads| && w.owner == Some(t)
    requires w.threads[t].Checking? || w.threads[t].Writing?
    requires if ph.Checking? then w.threads[t].Checking?
             else ph.Writing? && (w.threads[t].Writing? ==> w.threads[t].k <= ph.k)
    requires ph.job == w.threads[t].job && ph.start == w.threads[t].start && ph.acl == w.threads[t].acl
    requires Progress(ph, Replay(s, w.log), now)
    ensures Inv(env, s, Goto(w, t, ph).(state := now))
  {
    hide Sequential, Replay, ReadBetween, TestedBetween, EventOk, Progress, AllValid, ApplyAll, Validate, GateOpens;
    var w' := Goto(w, t, ph).(state := now);
    forall u | 0 <= u < |w'.threads| ensures ThreadOk(env, s, w', u) {
      assert ThreadOk(env, s, w, u);
    }
    forall m | m in w'.probes ensures ProbeOk(s, w', m) {
      assert ProbeOk(s, w, m);
      if m.at == |w.log| { assert BatchAt(w', m.at)[..m.done] == BatchAt(w, m.at)[..m.done]; }
    }
  }

  lemma EarlierReads(env: Env, s: State, log: seq<Event>, e: Event)
    ensures forall start: nat, now: nat, acl ::
              now <= |log| && ReadBetween(env, s, log, start, now, acl) ==>
                  ReadBetween(env, s, log + [e], start, now, acl)
  {
    hide LoadAcl, Before;
    ReplaySnoc(s, log, e);
    forall start: nat, now: nat, acl | now <= |log| && ReadBetween(env, s, log, start, now, acl)
      ensures ReadBetween(env, s, log + [e], start, now, acl)
    {
      var k :| start <= k < now && k < |log| && LoadAcl(env, Before(s, log, k)) == Rules(acl);
      assert LoadAcl(env, Before(s, log + [e], k)) == Rules(acl);
    }
  }

  /** Every origin of rules remains one when the log grows. */
  lemma OriginsRemain(env: Env, s: State, w: World, w': World, e: Event, start: nat, acl: Option<seq<AclRule>>,
                      holding: bool)
    requires w'.log == w.log + [e] && w'.probes == w.probes && AclOrigin(env, s, w, start, acl, holding)
    ensures AclOrigin(env, s, w', start, acl, false)
  {
    if acl.Some? {
      EarlierReads(env, s, w.log, e);
    }
  }

  /** The lock holder may record this event: it agrees with the state, and a batch is recorded as itself. */
  ghost predicate Recordable(s: State, w: World, t: nat, e: Event)
    requires t < |w.threads|
  {
    var ph := w.threads[t];
    && Performed(Replay(s, w.log), e) && e.start == StartOf(ph)
    && (ph.Writing? ==> e.Wrote?)
    && (e.Wrote? ==> (ph.Checking? || ph.Writing?) && e.job == ph.job)
    && (!e.LoadedAcl? ==> HasAcl(ph) && e.acl == ph.acl)
    && (e.LoadedAcl? ==> ph.LoadingAcl?)
    && (e.ReadFile? ==> ph.Fetching? && e.path == ph.path)
  }

  lemma EventsAfterRelease(env: Env, s: State, w: World, t: nat, e: Event, i: nat)
    requires t < |w.threads| && w.owner == Some(t) && ThreadOk(env, s, w, t) && Recordable(s, w, t, e)
    requires i <= |w.log| && (i < |w.log| ==> EventOk(env, s, w.log, w.probes, i))
    ensures EventOk(env, s, w.log + [e], w.probes, i)
  {
    hide Replay, Performed, LoadAcl, GateOpens;
    assert i < |w.log| ==> (w.log + [e])[i] == w.log[i];
    EarlierReads(env, s, w.log, e);
  }

  lemma ProbeAfterRelease(s: State, w: World, w': World, t: nat, e: Event, m: Probe)
    requires t < |w.threads| && w.owner == Some(t) && Recordable(s, w, t, e)
    requires w'.log == w.log + [e] && w'.owner.None? && ProbeOk(s, w, m)
    ensures ProbeOk(s, w', m)
  {
    hide Replay, Performed, ApplyAll, Validate;
    ReplaySnoc(s, w.log, e);
    assert Before(s, w'.log, m.at) == Before(s, w.log, m.at);
    if m.at == |w.log| {
      assert BatchAt(w', m.at)[..m.done] == BatchAt(w, m.at)[..m.done];
    } else {
      assert w'.log[m.at] == w.log[m.at];
    }
  }

  /** The lock holder records its event and releases. */
  lemma ReleaseStep(env: Env, s: State, w: World, t: nat, now: State, ph: Phase, e: Event)
    requires Inv(env, s, w) && t < |w.threads| && w.owner == Some(t) && !Holds(ph) && Recordable(s, w, t, e)
    requires now == Effect(Replay(s, w.log), e)
    requires ph.Idle? || (ph.Ready? && ph.start == e.start && e.LoadedAcl? && LoadAcl(env, now) == Rules(ph.acl)
             && ph.acl.Some?)
    ensures Inv(env, s, Release(w, t, ph, e).(state := now))
  {
    hide Sequential, Replay, Performed, LoadAcl, ProbeOk, EventOk, Progress, GateOpens;
    var w' := Release(w, t, ph, e).(state := now);
    assert ThreadOk(env, s, w, t);
    ReplaySnoc(s, w.log, e);
    SequentialSnoc(s, w.log, e);
    forall u | 0 <= u < |w'.threads| ensures ThreadOk(env, s, w', u) {
      assert ThreadOk(env, s, w, u);
      var old_ := w.threads[u];
      if u != t {
        if HasAcl(old_) { OriginsRemain(env, s, w, w', e, old_.start, old_.acl, w.owner == Some(u)); }
      } else if ph.Ready? {
        assert LoadAcl(env, Before(s, w'.log, |w.log|)) == Rules(ph.acl);
      }
    }
    forall m | m in w'.probes ensures ProbeOk(s, w', m) {
      ProbeAfterRelease(s, w, w', t, e, m);
    }
    forall i | 0 <= i < |w'.log| ensures EventOk(env, s, w'.log, w'.probes, i) {
      EventsAfterRelease(env, s, w, t, e, i);
    }
  }

  // ---- Every step keeps the invariant -------------------------------------------------------

  lemma ProbeKeepsInv(env: Env, s: State, w: World, t: nat)
    requires Inv(env, s, w) && t < |w.threads| && (w.threads[t].Probing? || w.threads[t].Ready?)
    ensures Inv(env, s, StepThread(env, w, t))
  {
    hide Sequential, EventOk, LockOk, ProbeOk, Replay, GateOpens, Inv;
    assert ThreadOk(env, s, w, t) by { InvGivesThread(env, s, w, t); }
    var ph := w.threads[t];
    assert w.owner != Some(t) by { InvGivesThread(env, s, w, t); }
    if ph.Probing? {
      var m := Probe(t, ph.start, ACL_PATH, false, |w.log|, Written(w), ACL_PATH in w.state.work);
      ProbeStep(env, s, w, m);
      TestedNow(w.probes, m);
      var next := if m.found then Queued(ph.req, ph.start) else Ready(ph.req, ph.start, None);
      QuietStep(env, s, w.(probes := w.probes + [m]), t, next);
    } else {
      var wait := Waiting(ph.req, ph.start, ph.acl);
      match ph.req
      case ToWrite(job) =>
        QuietStep(env, s, w, t, if GateOpens(env, ph.acl, job) && job.ops != [] then wait else Idle);
      case ToRead(_, p) =>
        var m := Probe(t, ph.start, p, ph.acl.Some?, |w.log|, Written(w), p in w.state.work);
        ProbeStep(env, s, w, m);
        TestedNow(w.probes, m);
        MoreProbes(w.probes, m);
        QuietStep(env, s, w.(probes := w.probes + [m]), t, if m.found then wait else Idle);
      case ToList(_, root, _, _) => QuietStep(env, s, w, t, if Exists(w.state, root) then wait else Idle);
    }
  }

  lemma InvGivesThread(env: Env, s: State, w: World, t: nat)
    requires Inv(env, s, w) && t < |w.threads|
    ensures ThreadOk(env, s, w, t) && (Holds(w.threads[t]) <==> w.owner == Some(t))
    ensures w.owner == Some(t) ==> Progress(w.threads[t], Replay(s, w.log), w.state)
  {
    hide Sequential, EventOk, ProbeOk, Replay, ThreadOk, Progress;
  }

  lemma EnteringKeepsInv(env: Env, s: State, w: World, t: nat)
    requires Inv(env, s, w) && t < |w.threads| && (w.threads[t].Queued? || w.threads[t].Waiting?)
    ensures Inv(env, s, StepThread(env, w, t))
  {
    hide Sequential, EventOk, ProbeOk, Replay, Inv, GateOpens;
    InvGivesThread(env, s, w, t);
    match w.threads[t]
    case Queued(req, start) => AcquireStep(env, s, w, t, LoadingAcl(req, start, BlobVersion(w.state, ACL_PATH)));
    case Waiting(req, start, acl) => AcquireStep(env, s, w, t, Entered(w.state, req, start, acl));
  }

  lemma ReadingKeepsInv(env: Env, s: State, w: World, t: nat)
    requires Inv(env, s, w) && t < |w.threads| && (w.threads[t].LoadingAcl? || w.threads[t].Fetching?
             || w.threads[t].Walking?)
    ensures Inv(env, s, StepThread(env, w, t))
  {
    hide Sequential, EventOk, ProbeOk, Replay, Inv, ListLocked, AclOrigin, ParseAcl;
    InvGivesThread(env, s, w, t);
    var base := Replay(s, w.log);
    match w.threads[t]
    case LoadingAcl(req, start, version) =>
      var got := if version.None? then GetRaised(Crash) else ReadLocked(base, ACL_PATH);
      assert got == ReadLocked(base, ACL_PATH);
      ReleaseStep(env, s, w, t, base, AfterAcl(env, req, start, got), LoadedAcl(t, start, got));
    case Fetching(who, p, start, acl, version) =>
      var got := if version.None? then GetRaised(Crash) else ReadLocked(base, p);
      assert got == ReadLocked(base, p);
      ReleaseStep(env, s, w, t, base, Idle, ReadFile(t, start, who, p, acl, got));
    case Walking(who, root, depth, cursor, start, acl) =>
      ReleaseStep(env, s, w, t, base, Idle,
                  ListedTree(t, start, who, root, depth, cursor, acl, ListLocked(base, root, depth, cursor)));
  }

  lemma CheckingKeepsInv(env: Env, s: State, w: World, t: nat)
    requires Inv(env, s, w) && t < |w.threads| && w.threads[t].Checking?
    ensures Inv(env, s, StepThread(env, w, t))
  {
    hide Sequential, EventOk, ProbeOk, Replay, Inv, AclOrigin, Validate, GateOpens;
    InvGivesThread(env, s, w, t);
    var base := Replay(s, w.log);
    var ph := w.threads[t];
    var job := ph.job;
    if ph.k >= |job.ops| {
      assert job.ops[..0] == [] && ApplyAll(base, []) == Applied(base, true);
      ProgressStep(env, s, w, t, base, Writing(job, ph.start, ph.acl, 0));
    } else if Validate(base, job.ops[ph.k]).None? {
      ProgressStep(env, s, w, t, base, Checking(job, ph.start, ph.acl, ph.k + 1));
    } else {
      FirstErrorAt(base, job.ops, ph.k);
      var refused := Raised(Validate(base, job.ops[ph.k]).value);
      ReleaseStep(env, s, w, t, base, Idle, Wrote(t, ph.start, job, ph.acl, refused));
    }
  }

  lemma WritingKeepsInv(env: Env, s: State, w: World, t: nat)
    requires Inv(env, s, w) && t < |w.threads| && w.threads[t].Writing?
    ensures Inv(env, s, StepThread(env, w, t))
  {
    hide Sequential, EventOk, ProbeOk, Replay, Inv, AclOrigin, Validate, GateOpens, ApplyOp, ResultFiles, Dedup;
    InvGivesThread(env, s, w, t);
    var base := Replay(s, w.log);
    var ph := w.threads[t];
    var ops := ph.job.ops;
    NoErrorMeansAllValid(base, ops);
    if ph.k < |ops| {
      NextWrite(base, ops, ph.k, w.state);
      var applied := ApplyOp(w.state, ops[ph.k]);
      if applied.ok {
        ProgressStep(env, s, w, t, applied.state, Writing(ph.job, ph.start, ph.acl, ph.k + 1));
      } else {
        ReleaseStep(env, s, w, t, applied.state, Idle, Wrote(t, ph.start, ph.job, ph.acl, Raised(Crash)));
      }
    } else {
      assert ops[..ph.k] == ops;
      LoopKeepsCommits(base, ops);
      var now := CommitIndex(w.state, ph.job.meta, ops);
      var done := Done(|w.state.commits|, ResultFiles(now, ops, Dedup(OpPaths(ops))));
      ReleaseStep(env, s, w, t, now, Idle, Wrote(t, ph.start, ph.job, ph.acl, done));
    }
  }

  /** One more step of the write loop, or its end. */
  lemma NextWrite(s: State, ops: seq<Op>, k: nat, now: State)
    requires k < |ops| && ApplyAll(s, ops[..k]) == Applied(now, true)
    ensures ApplyAll(s, ops[..k + 1]) == ApplyOp(now, ops[k])
    ensures !ApplyOp(now, ops[k]).ok ==> ApplyAll(s, ops) == ApplyOp(now, ops[k])
  {
    hide ApplyOp;
    assert ops[..k + 1][..k] == ops[..k];
    if !ApplyOp(now, ops[k]).ok { LoopStops(s, ops, k + 1); }
  }

  lemma StepKeepsInv(env: Env, s: State, w: World, t: nat)
    requires Inv(env, s, w) && t < |w.threads|
    ensures Inv(env, s, StepThread(env, w, t))
  {
    hide Inv, StepReading, StepReady, StepChecking, StepWriting;
    match w.threads[t]
    case Idle =>
    case Probing(_, _) => ProbeKeepsInv(env, s, w, t);
    case Ready(_, _, _) => ProbeKeepsInv(env, s, w, t);
    case Queued(_, _) => EnteringKeepsInv(env, s, w, t);
    case Waiting(_, _, _) => EnteringKeepsInv(env, s, w, t);
    case Checking(_, _, _, _) => CheckingKeepsInv(env, s, w, t);
    case Writing(_, _, _, _) => WritingKeepsInv(env, s, w, t);
    case _ => ReadingKeepsInv(env, s, w, t);
  }

  lemma ActKeepsInv(env: Env, s: State, w: World, a: Action)
    requires Inv(env, s, w)
    ensures Inv(env, s, Act(env, w, a))
  {
    hide Inv, StepThread;
    if a.t < |w.threads| {
      match a
      case Step(t) => StepKeepsInv(env, s, w, t);
      case Submit(t, req) =>
        if w.threads[t].Idle? {
          InvGivesThread(env, s, w, t);
          QuietStep(env, s, w, t, Probing(req, |w.log|));
        }
    }
  }

  /** Every reachable world of every run satisfies the invariant. */
  lemma {:induction false} RunKeepsInv(env: Env, s: State, n: nat, actions: seq<Action>)
    ensures Inv(env, s, Run(env, Initial(s, n), actions))
  {
    hide Inv;
    if actions == [] {
      InitialInv(env, s, n);
    } else {
      var front := actions[..|actions| - 1];
      RunKeepsInv(env, s, n, front);
      ActKeepsInv(env, s, Run(env, Initial(s, n), front), actions[|actions| - 1]);
    }
  }
}
