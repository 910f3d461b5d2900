/** What holds of every run of request threads. */
module Runs {
  import opened Base
  import opened Keyset
  import opened Paths
  import opened Acl
  import opened Store
  import opened Atomicity
  import opened Transactions
  import opened Evolution
  import opened Listing
  import opened GitStorage
  import opened Threads
  import opened Linear

  /** Some interleaving of some number of threads leads from the store `s` to this world. */
  ghost predicate Reachable(env: Env, s: State, w: World) {
    exists n: nat, actions :: w == Run(env, Initial(s, n), actions)
  }

  lemma ReachableInv(env: Env, s: State, w: World)
    requires Reachable(env, s, w)
    ensures Inv(env, s, w)
  {
    hide Inv, Run;
    var n: nat, actions :| w == Run(env, Initial(s, n), actions);
    RunKeepsInv(env, s, n, actions);
  }

  // ---- Linearizability ---------------------------------------------------------------------

  /**
   * Every interleaving, on every store, is one store call after the other in the order of the log: HEAD is
   * always the replay of the log, and the whole store is when the lock is free. A batch has the outcome,
   * exceptions included, that it has alone on the state before it. So has a read, a listing or a load of the
   * ACL exactly when the file or root its existence test found is still there; otherwise it raises, or lists
   * nothing, where it would alone answer that there is nothing. A call of a request that came in after
   * another had released the lock comes after it in the log.
   */
  lemma RunsAreSequential(env: Env, s: State, w: World)
    requires Reachable(env, s, w)
    ensures Sequential(s, w.log)
    ensures forall i :: 0 <= i < |w.log| ==>
              (Agrees(Before(s, w.log, i), w.log[i]) <==> StillThere(Before(s, w.log, i), w.log[i]))
    ensures Head(w.state) == Head(Replay(s, w.log))
    ensures w.owner.None? ==> w.state == Replay(s, w.log)
    ensures forall i :: 0 <= i < |w.log| ==> w.log[i].start <= i
  {
    hide Replay, Sequential, ThreadOk, ProbeOk, ApplyAll, Reachable, Validate, Agrees, StillThere, Performed;
    ReachableInv(env, s, w);
    forall i | 0 <= i < |w.log|
      ensures w.log[i].start <= i
      ensures Agrees(Before(s, w.log, i), w.log[i]) <==> StillThere(Before(s, w.log, i), w.log[i])
    {
      assert EventOk(env, s, w.log, w.probes, i);
      assert Performed(Before(s, w.log, i), w.log[i]) by { PerformedAt(s, w.log, i); }
      AloneIffStillThere(Before(s, w.log, i), w.log[i]);
    }
    if w.owner.Some? && w.threads[w.owner.value].Writing? {
      var ph := w.threads[w.owner.value];
      LoopKeepsCommits(Replay(s, w.log), ph.job.ops[..ph.k]);
    }
  }

  lemma PerformedAt(s: State, log: seq<Event>, i: nat)
    requires Sequential(s, log) && i < |log|
    ensures Performed(Before(s, log, i), log[i])
  {
    hide Performed, Replay;
  }

  /** What is done under the lock is the whole store call exactly when the existence test would still pass. */
  lemma AloneIffStillThere(s: State, e: Event)
    requires Performed(s, e)
    ensures Agrees(s, e) <==> StillThere(s, e)
  {
    hide Transact, RowsOf, Wanted;
  }

  // ---- When working tree, index and HEAD stay in agreement -------------------------------------

  /** A clean store stays clean over an event exactly when that is no torn batch. */
  lemma EventIsCleanUnlessTorn(s: State, log: seq<Event>, i: nat)
    requires i < |log| && Clean(Before(s, log, i))
    ensures Clean(Before(s, log, i + 1)) <==> !(log[i].Wrote? && Tears(Before(s, log, i), log[i].job.ops))
  {
    hide Transact, Clean, Tears;
    BeforeStep(s, log, i);
    if log[i].Wrote? { CleanUnlessTorn(Before(s, log, i), log[i].job.ops, log[i].job.meta); }
  }

  ghost predicate Untorn(s: State, log: seq<Event>, i: nat)
    requires i <= |log|
  {
    forall j :: 0 <= j < i && log[j].Wrote? ==> !Tears(Before(s, log, j), log[j].job.ops)
  }

  /** Up to the first torn batch every state between two requests is clean. */
  lemma {:induction false} CleanWhileUntorn(s: State, log: seq<Event>, i: nat)
    requires Clean(s) && i <= |log| && Untorn(s, log, i)
    ensures Clean(Before(s, log, i))
  {
    hide Transact, Clean, Tears;
    if i > 0 {
      CleanWhileUntorn(s, log, i - 1);
      EventIsCleanUnlessTorn(s, log, i - 1);
    } else {
      assert log[..0] == [];
    }
  }

  /** A write phase on a clean store fails exactly when the validated batch clashes. */
  lemma FailuresAreClashes(s: State, log: seq<Event>, i: nat)
    requires Sequential(s, log) && i < |log| && log[i].Wrote? && Clean(Before(s, log, i))
    ensures var b, ops := Before(s, log, i), log[i].job.ops;
            log[i].outcome == Raised(Crash) <==> ops != [] && AllValid(b, ops) && !ClashFree(b, ops)
  {
    hide Transact, Clean, AllValid, ClashFree;
    assert Performed(Before(s, log, i), log[i]);
    CrashIffClash(Before(s, log, i), log[i].job.ops, log[i].job.meta);
  }

  // ---- What readers get --------------------------------------------------------------------------

  /** A file that is returned has the version HEAD has then; on a clean store its content is HEAD's too. */
  lemma ReadsAreCommitted(s: State, log: seq<Event>, i: nat)
    requires Sequential(s, log) && i < |log| && log[i].ReadFile? && log[i].got.Got?
    ensures var b, e := Before(s, log, i), log[i];
            && e.path in Head(b) && e.got.version == Blob(Head(b)[e.path])
            && (IsText(e.path) ==> e.path in b.work && e.got.content == Some(b.work[e.path]))
            && (IsText(e.path) && Clean(b) ==> e.got.content == Some(Head(b)[e.path]))
  {
    assert Performed(Before(s, log, i), log[i]);
  }

  /** A listing that is returned shows one state between requests: exactly its wanted nodes, in order. */
  lemma ListingsAreSnapshots(s: State, log: seq<Event>, i: nat, p: Path)
    requires Sequential(s, log) && i < |log| && log[i].ListedTree? && log[i].list.Listed?
    ensures var b, e := Before(s, log, i), log[i];
            var rows := RowsOf(b, Wanted(b, e.root, e.depth));
            && e.list.page == PageOf(rows, e.cursor, PAGE_SIZE)
            && (p in Wanted(b, e.root, e.depth) ==> EntryFor(b, p) in rows)
            && (Clean(b) ==> b.work == Head(b))
  {
    hide Clean;
    var b, e := Before(s, log, i), log[i];
    assert Performed(b, e);
    RowsOfHas(b, Wanted(b, e.root, e.depth), EntryFor(b, p));
    assert Clean(b) ==> b.work == Head(b) by { CleanIsHead(b); }
  }

  lemma CleanIsHead(s: State)
    ensures Clean(s) ==> s.work == s.index == Head(s)
  {}

  // ---- No lost update -----------------------------------------------------------------------

  /** Event i committed. */
  predicate CommittedAt(log: seq<Event>, i: nat) {
    i < |log| && log[i].Wrote? && log[i].outcome.Done?
  }

  /**
   * Each operation of a commit on a clean store named the version of exactly the content its file had, or
   * created its path; and each file of the new tree is what the batch makes of the old one, whether or not
   * the batch names a path twice.
   */
  lemma NoLostUpdate(s: State, log: seq<Event>, i: nat)
    requires Sequential(s, log) && CommittedAt(log, i) && Clean(Before(s, log, i))
    ensures var tree, next, ops := Head(Before(s, log, i)), Head(Before(s, log, i + 1)), log[i].job.ops;
            && (forall k :: 0 <= k < |ops| ==> NamesWhatItReplaces(tree, ops[k]))
            && (forall p :: Lookup(next, p) == Evolve(ops, p, Lookup(tree, p)))
            && (DistinctPaths(ops) ==> AllAtOnce(tree, ops, next))
  {
    hide Transact, Validate, ApplyAll, Evolve, FileSystem;
    BeforeStep(s, log, i);
    var b, ops, meta := Before(s, log, i), log[i].job.ops, log[i].job.meta;
    assert Performed(b, log[i]);
    CommittedOpsNameTheirVersion(b, ops, meta);
    forall p ensures Lookup(Head(Before(s, log, i + 1)), p) == Evolve(ops, p, Lookup(Head(b), p)) {
      CommitEvolves(b, ops, meta, p);
    }
    if DistinctPaths(ops) { CommitIsExact(b, ops, meta); }
  }

  lemma CommitEvolves(s: State, ops: seq<Op>, meta: Meta, p: Path)
    requires Clean(s) && Transact(s, ops, meta).outcome.Done?
    ensures Lookup(Head(Transact(s, ops, meta).state), p) == Evolve(ops, p, Lookup(Head(s), p))
  {
    hide Evolve, Validate, FileSystem;
    LoopEvolves(s, ops, p);
    DoneIsClean(s, ops, meta);
  }

  lemma CommitIsExact(s: State, ops: seq<Op>, meta: Meta)
    requires Clean(s) && DistinctPaths(ops) && Transact(s, ops, meta).outcome.Done?
    ensures AllAtOnce(Head(s), ops, Head(Transact(s, ops, meta).state))
    ensures forall k :: 0 <= k < |ops| ==> NamesWhatItReplaces(Head(s), ops[k])
    ensures forall p :: p !in OpPaths(ops) ==> Lookup(Head(Transact(s, ops, meta).state), p) == Lookup(Head(s), p)
  {
    CommittedOpsNameTheirVersion(s, ops, meta);
    DoneIsClean(s, ops, meta);
    WritePhaseIsExact(s, ops);
    LoopActsAtOnce(s, ops);
  }

  /** Who an event belongs to (`None`: a load of the ACL, which no client sees). */
  function ClientOf(e: Event): Option<Principal> {
    match e
    case LoadedAcl(_, _, _) => None
    case Wrote(_, _, job, _, _) => Some(job.meta.principal)
    case ReadFile(_, _, who, _, _, _) => Some(who)
    case ListedTree(_, _, who, _, _, _, _, _) => Some(who)
  }

  /** Operation k is the one the batch is refused for. */
  ghost predicate RefusedFor(s: State, ops: seq<Op>, k: nat, error: Error) {
    k < |ops| && Validate(s, ops[k]) == Some(error) && forall j :: 0 <= j < k ==> Validate(s, ops[j]).None?
  }

  /**
   * Event j gave this client, on whichever thread, version `v` of path `p`, with the content in a text read or
   * in a conflict reply: by a read, a row of a listing, the result of a commit, or the conflict its own batch
   * was refused with.
   */
  ghost predicate Handed(s: State, log: seq<Event>, j: nat, who: Principal, p: Path, v: Version,
                         content: Option<string>)
    requires j < |log|
  {
    var e := log[j];
    && ClientOf(e) == Some(who)
    && match e
       case LoadedAcl(_, _, _) => false
       case ReadFile(_, _, _, path, _, got) => path == p && got == Got(v, content)
       case ListedTree(_, _, _, _, _, _, _, list) =>
         list.Listed? && content == None &&
         exists r :: r in list.page.rows && r.item.path == p && r.item.version == Some(v)
       case Wrote(_, _, job, _, Done(_, files)) => content == None && ResultFile(p, Some(v)) in files
       case Wrote(_, _, job, _, Raised(error)) =>
         error == VersionConflict(content, Some(v)) &&
         exists k: nat :: RefusedFor(Before(s, log, j), job.ops, k, error) && job.ops[k].path == p
  }

  /** Clients name only versions they were handed before their request came in. */
  ghost predicate Honest(s: State, log: seq<Event>) {
    forall i, k :: 0 <= i < |log| && log[i].Wrote? && 0 <= k < |log[i].job.ops| && log[i].job.ops[k].ifVersion.Some? ==>
      exists j, content :: 0 <= j < i && j < log[i].start &&
        Handed(s, log, j, log[i].job.meta.principal, log[i].job.ops[k].path, log[i].job.ops[k].ifVersion.value, content)
  }

  /**
   * The author of a committed operation had been handed exactly the version it replaces; content it was
   * handed with it, by a clean store, is the content it replaces.
   */
  lemma AuthorsSawWhatTheyReplace(s: State, log: seq<Event>, i: nat, k: nat) returns (j: nat, content: Option<string>)
    requires Sequential(s, log) && Honest(s, log) && CommittedAt(log, i) && k < |log[i].job.ops|
    requires Clean(Before(s, log, i)) && log[i].job.ops[k].path in Head(Before(s, log, i))
    ensures var p := log[i].job.ops[k].path;
            var replaced := Head(Before(s, log, i))[p];
            && j < log[i].start && j < i && Handed(s, log, j, log[i].job.meta.principal, p, Blob(replaced), content)
            && (content.Some? && Clean(Before(s, log, j)) ==> content == Some(replaced))
  {
    hide Transact, Validate, Evolve, AllAtOnce, Clean, Handed;
    NoLostUpdate(s, log, i);
    var op, who := log[i].job.ops[k], log[i].job.meta.principal;
    assert NamesWhatItReplaces(Head(Before(s, log, i)), op);
    j, content :| 0 <= j < i && j < log[i].start && Handed(s, log, j, who, op.path, op.ifVersion.value, content);
    if content.Some? && Clean(Before(s, log, j)) {
      HandedContentIsCommitted(s, log, j, who, op.path, op.ifVersion.value, content);
    }
  }

  lemma HandedContentIsCommitted(s: State, log: seq<Event>, j: nat, who: Principal, p: Path, v: Version,
                                 content: Option<string>)
    requires Sequential(s, log) && j < |log| && Clean(Before(s, log, j)) && content.Some?
             && Handed(s, log, j, who, p, v, content)
    ensures v == Blob(content.value)
  {
    hide Transact, Replay;
    var b, e := Before(s, log, j), log[j];
    assert Performed(b, e);
    if e.Wrote? {
      var k: nat :| RefusedFor(b, e.job.ops, k, e.outcome.error) && e.job.ops[k].path == p;
      ConflictTellsHead(b, e.job.ops[k]);
    }
  }

  lemma ConflictTellsHead(s: State, op: Op)
    requires Clean(s)
    ensures match Validate(s, op)
            case Some(VersionConflict(Some(content), v)) => v == Some(Blob(content))
            case _ => true
  {}

  // ---- Authorisation --------------------------------------------------------------------------

  /** The batch leaves the store clean and does not take the ACL file away on the way to having it. */
  ghost predicate Safe(s: State, ops: seq<Op>) {
    !Tears(s, ops) && !Flickers(s, ops, ACL_PATH)
  }

  /** Compatible batches are safe. */
  lemma CompatibleIsSafe(s: State, ops: seq<Op>)
    requires Clean(s) && AllValid(s, ops) && Compatible(s, ops)
    ensures Safe(s, ops)
  {
    hide Evolve, Clash, Validate, FileSystem;
    CompatibleIsClashFree(s, ops);
    LoopStopsAtTheFirstClash(s, ops);
    NoErrorMeansAllValid(s, ops);
    assert Applicable(s, ops) == ops;
    var was := Lookup(s.work, ACL_PATH);
    forall k | 0 <= k <= |ops| && Evolve(ops, ACL_PATH, was).Some? && was.Some?
      ensures Evolve(ops[..k], ACL_PATH, was).Some?
    {
      DistinctChangeOnce(ops, k, ACL_PATH, was);
    }
  }

  ghost predicate SafeBefore(s: State, log: seq<Event>, i: nat)
    requires i <= |log|
  {
    forall j :: 0 <= j < i && log[j].Wrote? ==> Safe(Before(s, log, j), log[j].job.ops)
  }

  /**
   * A file a test did not find, while a batch that is over by now was written, is missing from the tree
   * before that batch or from the tree after it, unless the batch tears or takes the file away and back.
   */
  lemma MissIsExplained(env: Env, s: State, w: World, m: Probe)
    requires Inv(env, s, w) && m in w.probes && !m.found && Clean(Before(s, w.log, m.at))
    requires m.done == 0 || m.at < |w.log|
    requires var b, ops := Before(s, w.log, m.at), BatchAt(w, m.at); !Tears(b, ops) && !Flickers(b, ops, m.path)
    ensures m.path !in Head(Before(s, w.log, m.at)) || (m.at < |w.log| && m.path !in Head(Before(s, w.log, m.at + 1)))
  {
    hide Sequential, LockOk, ThreadOk, EventOk, Tears, Flickers, FileSystem, Replay, ApplyAll, Evolve;
    assert ProbeOk(s, w, m);
    var b, ops := Before(s, w.log, m.at), BatchAt(w, m.at);
    AbsentEvolves(b, ops, m.done, m.path);
    if m.done > 0 && m.path in Head(b) {
      var e := w.log[m.at];
      BeforeStep(s, w.log, m.at);
      MissedOnTheWay(b, ops, e.job.meta, m.done, m.path);
    }
  }

  lemma AbsentEvolves(b: State, ops: seq<Op>, k: nat, p: Path)
    requires k <= |ops| && ApplyAll(b, ops[..k]).ok && !HasFile(b, ops[..k], p)
    ensures Evolve(ops[..k], p, Lookup(b.work, p)).None?
    ensures k == 0 ==> p !in b.work
  {
    LoopEvolves(b, ops[..k], p);
  }

  lemma MissedOnTheWay(b: State, ops: seq<Op>, meta: Meta, k: nat, p: Path)
    requires Clean(b) && 0 < k <= |ops| && AllValid(b, ops) && ApplyAll(b, ops[..k]).ok
    requires p in b.work && Evolve(ops[..k], p, Lookup(b.work, p)).None?
    requires !Tears(b, ops) && !Flickers(b, ops, p)
    ensures p !in Head(Transact(b, ops, meta).state)
  {
    hide Evolve, Transact, AllValid, ApplyAll, Tears;
    NoErrorMeansAllValid(b, ops);
    AppliedPrefixIsShort(b, ops, k);
    var done := Applicable(b, ops);
    assert done[..k] == ops[..k];
    assert Evolve(done[..k], p, Lookup(b.work, p)).None?;
    BatchLeaves(b, ops, meta, p);
    CleanUnlessTorn(b, ops, meta);
  }

  /** Rules of a request are those committed at some time between its start and its end. */
  lemma AclWasCommitted(env: Env, s: State, w: World, i: nat) returns (at: nat)
    requires Clean(s) && Reachable(env, s, w) && i < |w.log| && !w.log[i].LoadedAcl? && SafeBefore(s, w.log, i)
    ensures w.log[i].start <= at <= i && AclIs(env, Head(Before(s, w.log, at)), w.log[i].acl)
  {
    hide Sequential, LockOk, ThreadOk, ProbeOk, Clean, Replay, ParseAcl, Inv, Reachable, Safe;
    ReachableInv(env, s, w);
    var e := w.log[i];
    assert EventOk(env, s, w.log, w.probes, i) by { InvGivesEvent(env, s, w, i); }
    if e.acl.Some? {
      at :| e.start <= at < i && at < |w.log| && LoadAcl(env, Before(s, w.log, at)) == Rules(e.acl);
      SafeIsClean(s, w.log, i, at);
      LoadedAclIsCommitted(env, Before(s, w.log, at), e.acl);
    } else {
      var m :| m in w.probes && m.path == ACL_PATH && !m.found && e.start <= m.at <= i && (m.at == i ==> m.done == 0);
      SafeIsClean(s, w.log, i, m.at);
      SafeMiss(env, s, w, i, m);
      at := if ACL_PATH !in Head(Before(s, w.log, m.at)) then m.at else m.at + 1;
    }
  }

  lemma InvGivesEvent(env: Env, s: State, w: World, i: nat)
    requires Inv(env, s, w) && i < |w.log|
    ensures EventOk(env, s, w.log, w.probes, i) && Sequential(s, w.log)
  {
    hide Sequential, LockOk, ThreadOk, ProbeOk, EventOk;
  }

  lemma SafeIsClean(s: State, log: seq<Event>, i: nat, j: nat)
    requires Clean(s) && j <= i <= |log| && SafeBefore(s, log, i)
    ensures Clean(Before(s, log, j))
  {
    hide Clean, Tears, Flickers, Replay;
    CleanWhileUntorn(s, log, j);
  }

  lemma SafeMiss(env: Env, s: State, w: World, i: nat, m: Probe)
    requires Inv(env, s, w) && i < |w.log| && SafeBefore(s, w.log, i)
    requires m in w.probes && m.path == ACL_PATH && !m.found && m.at <= i && (m.at == i ==> m.done == 0)
    requires Clean(Before(s, w.log, m.at))
    ensures ACL_PATH !in Head(Before(s, w.log, m.at)) || (m.at < i && ACL_PATH !in Head(Before(s, w.log, m.at + 1)))
  {
    hide Sequential, LockOk, ThreadOk, EventOk, Replay, Tears, Flickers, Evolve, ApplyAll, FileSystem;
    assert ProbeOk(s, w, m);
    var b := Before(s, w.log, m.at);
    if m.done == 0 {
      AbsentEvolves(b, BatchAt(w, m.at), 0, ACL_PATH);
    } else {
      MissIsExplained(env, s, w, m);
    }
  }

  /** The ACL loaded from a clean store is the committed one. */
  lemma LoadedAclIsCommitted(env: Env, s: State, acl: Option<seq<AclRule>>)
    requires Clean(s)
    ensures LoadAcl(env, s) == Rules(acl) <==> AclIs(env, Head(s), acl)
  {
    AclIsText();
  }

  /**
   * A batch that reaches the store, committed or refused there, has no operation its author may not make,
   * by an ACL committed between the start of the request and its end: one forbidden operation keeps the
   * whole batch out.
   */
  lemma OnlyAllowedBatchesReachTheStore(env: Env, s: State, w: World, i: nat) returns (at: nat)
    requires Clean(s) && Reachable(env, s, w) && i < |w.log| && w.log[i].Wrote? && SafeBefore(s, w.log, i)
    ensures GateOpens(env, w.log[i].acl, w.log[i].job)
    ensures w.log[i].start <= at <= i && AclIs(env, Head(Before(s, w.log, at)), w.log[i].acl)
  {
    hide Clean, Reachable, Inv, GateOpens, SafeBefore, AclIs, Before;
    at := AclWasCommitted(env, s, w, i);
    ReachableInv(env, s, w);
    InvGivesEvent(env, s, w, i);
  }

  /**
   * Whatever a commit changes its author was allowed to change: the ACL file only as the admin, every other
   * path by an ACL committed between the request's start and its commit (no ACL file: bootstrap). It holds
   * while the batches before it are safe; `Breaches` shows that it can fail as soon as one is not.
   */
  lemma ChangesAreAuthorised(env: Env, s: State, w: World, i: nat, p: Path) returns (at: nat)
    requires Clean(s) && Reachable(env, s, w) && i < |w.log| && SafeBefore(s, w.log, i)
    requires Lookup(Head(Before(s, w.log, i + 1)), p) != Lookup(Head(Before(s, w.log, i)), p)
    ensures CommittedAt(w.log, i) && p in OpPaths(w.log[i].job.ops)
    ensures w.log[i].start <= at <= i && AclIs(env, Head(Before(s, w.log, at)), w.log[i].acl)
    ensures MayWrite(env, w.log[i].acl, w.log[i].job.meta.principal, p)
  {
    hide Clean, Reachable, Inv, SafeBefore, AclIs, Replay, Sequential, MayWrite;
    ReachableInv(env, s, w);
    InvGivesEvent(env, s, w, i);
    SafeIsClean(s, w.log, i, i);
    var k := ChangeIsNamed(s, w.log, i, p);
    at := OnlyAllowedBatchesReachTheStore(env, s, w, i);
    assert OpPaths(w.log[i].job.ops)[k] == p;
    assert MayWrite(env, w.log[i].acl, w.log[i].job.meta.principal, w.log[i].job.ops[k].path);
  }

  /** A change of HEAD is the work of a commit that names the path. */
  lemma ChangeIsNamed(s: State, log: seq<Event>, i: nat, p: Path) returns (k: nat)
    requires Sequential(s, log) && i < |log| && Clean(Before(s, log, i))
    requires Lookup(Head(Before(s, log, i + 1)), p) != Lookup(Head(Before(s, log, i)), p)
    ensures CommittedAt(log, i) && k < |log[i].job.ops| && log[i].job.ops[k].path == p
  {
    hide Transact;
    BeforeStep(s, log, i);
    var b, e := Before(s, log, i), log[i];
    assert Performed(b, e);
    if e.outcome.Raised? { RaisedKeepsHead(b, e.job.ops, e.job.meta); }
    CommittedOpsNameTheirVersion(b, e.job.ops, e.job.meta);
    assert p in OpPaths(e.job.ops);
    k :| 0 <= k < |e.job.ops| && OpPaths(e.job.ops)[k] == p;
  }

  /** What the handler gives a client for a file read under the lock: nothing without permission. */
  predicate GivenFile(e: Event, p: Path, version: Version, content: Option<string>) {
    e.ReadFile? && e.path == p && e.got == Got(version, content) && MayRead(e.acl, e.who, p)
  }

  /** The rows a client is given of a listing. */
  ghost predicate GivenRow(e: Event, row: Row) {
    e.ListedTree? && e.list.Listed? && row in e.list.page.rows && Shown(e.acl, e.who, row)
  }

  /**
   * Whatever file a client is given by a read, or row of a file by a listing, it may read by an ACL committed
   * during its request. What the reply to a write gives away is the subject of `Disclosure`.
   */
  lemma ReadsAreAuthorised(env: Env, s: State, w: World, i: nat, row: Row, version: Version, content: Option<string>)
    returns (at: nat)
    requires Clean(s) && Reachable(env, s, w) && i < |w.log| && SafeBefore(s, w.log, i)
    requires GivenFile(w.log[i], row.item.path, version, content) || (GivenRow(w.log[i], row) && row.item.kind != Dir)
    ensures w.log[i].start <= at <= i && AclIs(env, Head(Before(s, w.log, at)), w.log[i].acl)
    ensures MayRead(w.log[i].acl, w.log[i].who, row.item.path)
  {
    hide Clean, Reachable, Inv, SafeBefore, AclIs, Allowed;
    at := AclWasCommitted(env, s, w, i);
    ReachableInv(env, s, w);
    InvGivesEvent(env, s, w, i);
    if GivenRow(w.log[i], row) {
      assert Performed(Before(s, w.log, i), w.log[i]);
      RowIsOfItsPath(Before(s, w.log, i), w.log[i], row);
    }
  }

  lemma RowIsOfItsPath(s: State, e: Event, row: Row)
    requires GivenRow(e, row) && Performed(s, e) && row.item.kind != Dir
    ensures row.key == Render(row.item.path) && row.item.kind == KindOf(row.item.path)
  {
    var wanted := Wanted(s, e.root, e.depth);
    assert row in RowsOf(s, wanted);
    RowsOfHas(s, wanted, row);
  }
}
