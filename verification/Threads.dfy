/**
 * Any number of request threads over one store. One step is one action on shared state: a test for
 * existence (made without the lock), taking the lock, reading, validating one operation, writing one
 * file, committing and releasing. Every request first loads the ACL.
 */
module Threads {
  import opened Base
  import opened Keyset
  import opened Paths
  import opened Acl
  import opened Store
  import opened Listing
  import opened GitStorage

  /** The configured admin and the reading of the ACL file's JSON (`None`: malformed). */
  datatype Env = Env(admin: string, parse: string -> Option<seq<AclRule>>)

  /** A write request: a batch, a single operation or an upload, with its author. */
  datatype Job = Job(meta: Meta, ops: seq<Op>)

  datatype Request =
    | ToWrite(job: Job)
    | ToRead(who: Principal, path: Path)
    | ToList(who: Principal, root: Path, depth: int, cursor: Option<string>)

  /** Where a thread is. `start` is the length of the log when its request came in. */
  datatype Phase =
    | Idle
    | Probing(req: Request, start: nat)
    | Queued(req: Request, start: nat)
    | LoadingAcl(req: Request, start: nat, version: Option<Version>)
    | Ready(req: Request, start: nat, acl: Option<seq<AclRule>>)
    | Waiting(req: Request, start: nat, acl: Option<seq<AclRule>>)
    | Fetching(who: Principal, path: Path, start: nat, acl: Option<seq<AclRule>>, version: Option<Version>)
    | Walking(who: Principal, root: Path, depth: int, cursor: Option<string>, start: nat, acl: Option<seq<AclRule>>)
    | Checking(job: Job, start: nat, acl: Option<seq<AclRule>>, k: nat)
    | Writing(job: Job, start: nat, acl: Option<seq<AclRule>>, k: nat)

  /** What was done under the lock, in the order the lock was released. */
  datatype Event =
    | LoadedAcl(t: nat, start: nat, got: FileOutcome)
    | Wrote(t: nat, start: nat, job: Job, acl: Option<seq<AclRule>>, outcome: Outcome)
    | ReadFile(t: nat, start: nat, who: Principal, path: Path, acl: Option<seq<AclRule>>, got: FileOutcome)
    | ListedTree(t: nat, start: nat, who: Principal, root: Path, depth: int, cursor: Option<string>,
                 acl: Option<seq<AclRule>>, list: ListOutcome)

  /**
   * An existence test and its answer: when the log had length `at` and the lock holder had written `done`
   * operations. `loaded` tells whether the request had loaded an ACL file before.
   */
  datatype Probe = Probe(t: nat, start: nat, path: Path, loaded: bool, at: nat, done: nat, found: bool)

  datatype World = World(state: State, owner: Option<nat>, threads: seq<Phase>, log: seq<Event>, probes: seq<Probe>)

  /** The phases in which a thread holds the lock. */
  predicate Holds(ph: Phase) {
    ph.LoadingAcl? || ph.Fetching? || ph.Walking? || ph.Checking? || ph.Writing?
  }

  // ---- Permissions --------------------------------------------------------------------

  /** Write permission per operation; the ACL file itself is the admin's alone. */
  predicate MayWrite(env: Env, acl: Option<seq<AclRule>>, principal: Principal, p: Path) {
    if p == ACL_PATH then principal.userId == env.admin
    else Allowed(acl, Ask(principal, Render(p), KindOf(p), Field.Write))
  }

  predicate MayWriteAll(env: Env, acl: Option<seq<AclRule>>, principal: Principal, ops: seq<Op>) {
    forall i :: 0 <= i < |ops| ==> MayWrite(env, acl, principal, ops[i].path)
  }

  predicate GateOpens(env: Env, acl: Option<seq<AclRule>>, job: Job) {
    MayWriteAll(env, acl, job.meta.principal, job.ops)
  }

  predicate MayRead(acl: Option<seq<AclRule>>, who: Principal, p: Path) {
    Allowed(acl, Ask(who, Render(p), KindOf(p), Field.Read))
  }

  /** Directories are always shown, files when they may be read. */
  predicate Shown(acl: Option<seq<AclRule>>, who: Principal, row: Row) {
    row.item.kind == Dir || Allowed(acl, Ask(who, row.key, row.item.kind, Field.Read))
  }

  /** The rules read from the file's text; an empty file means no rules. */
  function ParseAcl(env: Env, text: string): Option<seq<AclRule>> {
    env.parse(if text == "" then "[]" else text)
  }

  /** The ACL of a request; `Broken`: the file cannot be read or is no list of rules. */
  datatype Loaded = Rules(acl: Option<seq<AclRule>>) | Broken

  function AclFrom(env: Env, got: FileOutcome): Loaded {
    match got
    case GetRaised(e) => if e == NotFound then Rules(None) else Broken
    case Got(_, content) =>
      var rules := ParseAcl(env, OrEmpty(content));
      if rules.None? then Broken else Rules(rules)
  }

  function LoadAcl(env: Env, s: State): Loaded {
    AclFrom(env, GetFileSpec(s, ACL_PATH))
  }

  /** `acl` is what the tree's ACL file says: none without such a file, no rules where it is empty. */
  ghost predicate AclIs(env: Env, tree: Tree, acl: Option<seq<AclRule>>) {
    var file := ["_system", "acl.json"];
    if file !in tree then acl == None
    else acl.Some? && acl == env.parse(if tree[file] == "" then "[]" else tree[file])
  }

  lemma AclIsText()
    ensures IsText(ACL_PATH)
  {
    assert Render(ACL_PATH[1..]) == "acl.json";
    assert Render(ACL_PATH) == "_system/acl.json";
    assert EndsWith("_system/acl.json", ".json");
  }

  // ---- Steps ------------------------------------------------------------------------

  datatype Action = Submit(t: nat, req: Request) | Step(t: nat)

  /** `get_file` after its existence test, under the lock. */
  function ReadLocked(s: State, p: Path): FileOutcome {
    if p in s.work then GetFileSpec(s, p) else GetRaised(Crash)
  }

  /**
   * `list_tree` after its existence test, under the lock. Where the root is gone by then, reading its entry or
   * its children fails, except that the walk never looks into a root named `.git`.
   */
  ghost function ListLocked(s: State, root: Path, depth: int, cursor: Option<string>): ListOutcome {
    if if depth == 0 then !Exists(s, root) else !NamedGit(root) && !IsDir(s, root) then ListRaised(Crash)
    else Listed(PageOf(RowsOf(s, Wanted(s, root, depth)), cursor, PAGE_SIZE))
  }

  function Goto(w: World, t: nat, ph: Phase): World
    requires t < |w.threads|
  {
    w.(threads := w.threads[t := ph])
  }

  function Release(w: World, t: nat, ph: Phase, e: Event): World
    requires t < |w.threads|
  {
    Goto(w, t, ph).(owner := None, log := w.log + [e])
  }

  function Acquire(w: World, t: nat, ph: Phase): World
    requires t < |w.threads|
  {
    if w.owner.None? then Goto(w, t, ph).(owner := Some(t)) else w
  }

  /** How many operations the lock holder has written. */
  function Written(w: World): nat {
    if w.owner.Some? && w.owner.value < |w.threads| && w.threads[w.owner.value].Writing? then w.threads[w.owner.value].k
    else 0
  }

  /** The thread makes an existence test and moves on. */
  function Probed(w: World, t: nat, start: nat, p: Path, loaded: bool, ph: Phase): World
    requires t < |w.threads|
  {
    Goto(w, t, ph).(probes := w.probes + [Probe(t, start, p, loaded, |w.log|, Written(w), p in w.state.work)])
  }

  /** A loaded ACL lets the request go on, anything else ends it. */
  function AfterAcl(env: Env, req: Request, start: nat, got: FileOutcome): Phase {
    var loaded := AclFrom(env, got);
    if loaded.Broken? then Idle else Ready(req, start, loaded.acl)
  }

  /** What a thread turns to once it has the lock. */
  function Entered(s: State, req: Request, start: nat, acl: Option<seq<AclRule>>): Phase {
    match req
    case ToWrite(job) => Checking(job, start, acl, 0)
    case ToRead(who, p) => Fetching(who, p, start, acl, BlobVersion(s, p))
    case ToList(who, root, depth, cursor) => Walking(who, root, depth, cursor, start, acl)
  }

  /** With the ACL loaded: the gate of a write, the existence test of a read. */
  function StepReady(env: Env, w: World, t: nat): World
    requires t < |w.threads| && w.threads[t].Ready?
  {
    var ph := w.threads[t];
    var wait := Waiting(ph.req, ph.start, ph.acl);
    match ph.req
    case ToWrite(job) => Goto(w, t, if GateOpens(env, ph.acl, job) && job.ops != [] then wait else Idle)
    case ToRead(_, p) => Probed(w, t, ph.start, p, ph.acl.Some?, if p in w.state.work then wait else Idle)
    case ToList(_, root, _, _) => Goto(w, t, if Exists(w.state, root) then wait else Idle)
  }

  function StepChecking(w: World, t: nat): World
    requires t < |w.threads| && w.threads[t].Checking?
  {
    var ph := w.threads[t];
    var job := ph.job;
    if ph.k >= |job.ops| then Goto(w, t, Writing(job, ph.start, ph.acl, 0))
    else
      match Validate(w.state, job.ops[ph.k])
      case None => Goto(w, t, Checking(job, ph.start, ph.acl, ph.k + 1))
      case Some(e) => Release(w, t, Idle, Wrote(t, ph.start, job, ph.acl, Raised(e)))
  }

  function StepWriting(w: World, t: nat): World
    requires t < |w.threads| && w.threads[t].Writing?
  {
    var ph := w.threads[t];
    var job := ph.job;
    if ph.k >= |job.ops| then
      var now := CommitIndex(w.state, job.meta, job.ops);
      var done := Done(|w.state.commits|, ResultFiles(now, job.ops, Dedup(OpPaths(job.ops))));
      Release(w.(state := now), t, Idle, Wrote(t, ph.start, job, ph.acl, done))
    else
      var applied := ApplyOp(w.state, job.ops[ph.k]);
      var next := w.(state := applied.state);
      if applied.ok then Goto(next, t, Writing(job, ph.start, ph.acl, ph.k + 1))
      else Release(next, t, Idle, Wrote(t, ph.start, job, ph.acl, Raised(Crash)))
  }

  /** The end of a read under the lock. */
  ghost function StepReading(env: Env, w: World, t: nat): World
    requires t < |w.threads| && (w.threads[t].LoadingAcl? || w.threads[t].Fetching? || w.threads[t].Walking?)
  {
    match w.threads[t]
    case LoadingAcl(req, start, version) =>
      var got := if version.None? then GetRaised(Crash) else ReadLocked(w.state, ACL_PATH);
      Release(w, t, AfterAcl(env, req, start, got), LoadedAcl(t, start, got))
    case Fetching(who, p, start, acl, version) =>
      var got := if version.None? then GetRaised(Crash) else ReadLocked(w.state, p);
      Release(w, t, Idle, ReadFile(t, start, who, p, acl, got))
    case Walking(who, root, depth, cursor, start, acl) =>
      Release(w, t, Idle, ListedTree(t, start, who, root, depth, cursor, acl, ListLocked(w.state, root, depth, cursor)))
  }

  ghost function StepThread(env: Env, w: World, t: nat): World
    requires t < |w.threads|
  {
    match w.threads[t]
    case Idle => w
    case Probing(req, start) =>
      var next := if ACL_PATH in w.state.work then Queued(req, start) else Ready(req, start, None);
      Probed(w, t, start, ACL_PATH, false, next)
    case Queued(req, start) => Acquire(w, t, LoadingAcl(req, start, BlobVersion(w.state, ACL_PATH)))
    case Ready(_, _, _) => StepReady(env, w, t)
    case Waiting(req, start, acl) => Acquire(w, t, Entered(w.state, req, start, acl))
    case Checking(_, _, _, _) => StepChecking(w, t)
    case Writing(_, _, _, _) => StepWriting(w, t)
    case _ => StepReading(env, w, t)
  }

  /** An action a thread cannot take changes nothing. */
  ghost function Act(env: Env, w: World, a: Action): World {
    if a.t >= |w.threads| then w
    else
      match a
      case Step(t) => StepThread(env, w, t)
      case Submit(t, req) => if w.threads[t].Idle? then Goto(w, t, Probing(req, |w.log|)) else w
  }

  ghost function Run(env: Env, w: World, actions: seq<Action>): World {
    if actions == [] then w else Act(env, Run(env, w, actions[..|actions| - 1]), actions[|actions| - 1])
  }

  function Initial(s: State, n: nat): World {
    World(s, None, seq(n, _ => Idle), [], [])
  }

  // ---- The sequential meaning of a log -------------------------------------------------

  function Effect(s: State, e: Event): State {
    if e.Wrote? then Transact(s, e.job.ops, e.job.meta).state else s
  }

  function Replay(s: State, log: seq<Event>): State {
    if log == [] then s else Effect(Replay(s, log[..|log| - 1]), log[|log| - 1])
  }

  /** The event is what its part under the lock does on `s`. */
  ghost predicate Performed(s: State, e: Event) {
    match e
    case LoadedAcl(_, _, got) => got == ReadLocked(s, ACL_PATH)
    case Wrote(_, _, job, _, outcome) => outcome == Transact(s, job.ops, job.meta).outcome
    case ReadFile(_, _, _, p, _, got) => got == ReadLocked(s, p)
    case ListedTree(_, _, _, root, depth, cursor, _, list) => list == ListLocked(s, root, depth, cursor)
  }

  /** The event's outcome, an exception included, is what the whole store call returns when it runs alone on `s`. */
  ghost predicate Agrees(s: State, e: Event) {
    match e
    case LoadedAcl(_, _, got) => got == GetFileSpec(s, ACL_PATH)
    case Wrote(_, _, job, _, outcome) => outcome == Transact(s, job.ops, job.meta).outcome
    case ReadFile(_, _, _, p, _, got) => got == GetFileSpec(s, p)
    case ListedTree(_, _, _, root, depth, cursor, _, list) => list == ListTree(s, root, depth, cursor)
  }

  /** What the event's existence test found is still there on `s`. */
  predicate StillThere(s: State, e: Event) {
    match e
    case LoadedAcl(_, _, _) => ACL_PATH in s.work
    case Wrote(_, _, _, _, _) => true
    case ReadFile(_, _, _, p, _, _) => p in s.work
    case ListedTree(_, _, _, root, _, _, _, _) => Exists(s, root)
  }

  /** The state before event i. */
  function Before(s: State, log: seq<Event>, i: nat): State
    requires i <= |log|
  {
    Replay(s, log[..i])
  }

  ghost predicate Sequential(s: State, log: seq<Event>) {
    forall i :: 0 <= i < |log| ==> Performed(Before(s, log, i), log[i])
  }
}
