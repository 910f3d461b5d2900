/** The write handlers: load the ACL, check every operation, then hand the batch to the store. */
module Api {
  import opened Base
  import opened Edits
  import opened Paths
  import opened Acl
  import opened Keyset
  import opened Store
  import opened Atomicity
  import opened Transactions
  import opened Listing
  import opened GitStorage
  import opened Threads
  import opened Runs

  datatype Reply = Denied | Refused(error: Error) | Replied(commitId: nat, files: seq<ResultFile>)

  /** What the audit middleware finds in `request.state`; `kind` is logged by the one-file handlers only. */
  datatype AuditExtra = AuditExtra(paths: seq<Path>, kind: Option<Kind>, piiAccessed: bool, reason: string,
                                   taskId: Option<string>, commitId: nat)

  datatype WriteReply = Written(path: Path, version: Option<Version>, commitId: nat) | NotWritten(why: Reply)

  /** Body of the full-replace endpoint. */
  datatype WriteBody =
    | TextBody(content: string, ifVersion: Option<Version>)
    | Multipart(file: Option<string>, ifVersion: Option<Version>)

  datatype Served = Served(state: State, reply: Reply)

  function ReplyOf(o: Outcome): Reply {
    match o case Done(c, files) => Replied(c, files) case Raised(e) => Refused(e)
  }

  /** One whole request. */
  function Serve(env: Env, s: State, ops: seq<Op>, meta: Meta): Served {
    match LoadAcl(env, s)
    case Broken => Served(s, Refused(Crash))
    case Rules(acl) =>
      if !MayWriteAll(env, acl, meta.principal, ops) then Served(s, Denied)
      else
        var t := Transact(s, ops, meta);
        Served(t.state, ReplyOf(t.outcome))
  }

  /**
   * Whatever one request changes in HEAD it was allowed to change, under the ACL committed when it came in;
   * nothing changes without a reply saying so, and a refused operation anywhere in the batch changes nothing.
   */
  lemma OnlyAllowedPathsChange(env: Env, s: State, ops: seq<Op>, meta: Meta, p: Path)
    requires Clean(s)
    ensures var r := Serve(env, s, ops, meta);
            Lookup(Head(r.state), p) != Lookup(Head(s), p) ==>
              && r.reply.Replied? && p in OpPaths(ops)
              && LoadAcl(env, s).Rules? && MayWrite(env, LoadAcl(env, s).acl, meta.principal, p)
  {
    hide LoadAcl, MayWrite, Transact, Clean;
    var t := Transact(s, ops, meta);
    if t.outcome.Done? {
      CommittedOpsNameTheirVersion(s, ops, meta);
      if p in OpPaths(ops) { var i :| 0 <= i < |ops| && OpPaths(ops)[i] == p; }
    } else {
      RaisedKeepsHead(s, ops, meta);
    }
  }

  /** A request with one operation that is answered: the one path has its new content, whose version is reported. */
  lemma AnsweredWrite(env: Env, s: State, op: Op, meta: Meta)
    requires Clean(s) && Serve(env, s, [op], meta).reply.Replied?
    ensures var r := Serve(env, s, [op], meta);
            && Clean(r.state) && |r.state.commits| == |s.commits| + 1 && r.reply.commitId == |s.commits|
            && NamesWhatItReplaces(Head(s), op)
            && Lookup(Head(r.state), op.path) == NewContent(op, Lookup(Head(s), op.path))
            && (forall q :: q != op.path ==> Lookup(Head(r.state), q) == Lookup(Head(s), q))
            && r.reply.files == if op.typ == Delete then []
               else [ResultFile(op.path, Some(Blob(Head(r.state)[op.path])))]
  {
    hide LoadAcl, MayWrite, Transact, Clean, NewContent;
    var t := Transact(s, [op], meta);
    CommitIsExact(s, [op], meta);
    DoneIsClean(s, [op], meta);
    assert OpPaths([op]) == [op.path] && [op][0] == op;
    assert forall q :: q != op.path ==> q !in OpPaths([op]);
    OneReplyFile(s, op, meta);
  }

  lemma OneReplyFile(s: State, op: Op, meta: Meta)
    requires Clean(s) && Transact(s, [op], meta).outcome.Done?
    ensures var t := Transact(s, [op], meta);
            && t.outcome.commitId == |s.commits|
            && (op.typ != Delete ==> op.path in Head(t.state))
            && t.outcome.files == if op.typ == Delete then []
               else [ResultFile(op.path, Some(Blob(Head(t.state)[op.path])))]
  {
    hide Validate, Transact, NewContent, Clean;
    OneOpTransaction(s, op, meta);
    if op.typ != Delete { WritingIndexes(s, op); }
  }

  lemma WritingIndexes(s: State, op: Op)
    requires op.typ != Delete && ApplyOp(s, op).ok
    ensures op.path in ApplyOp(s, op).state.index
  {}

  /** A one-file handler's answer: path, version of the first result file, commit. */
  function WriteReplyOf(p: Path, r: Reply): WriteReply {
    if r.Replied? then Written(p, if r.files == [] then None else r.files[0].version, r.commitId) else NotWritten(r)
  }

  /** The operation a full-replace body stands for; an empty form field is no version. */
  function WriteOpOf(p: Path, body: WriteBody): Op {
    match body
    case TextBody(content, ifVersion) => Op(p, OpType.Write, None, None, Some(content), ifVersion)
    case Multipart(file, ifVersion) =>
      UploadOp(p, OrEmpty(file), if ifVersion == Some(Foreign("")) then None else ifVersion)
  }

  predicate BodyOk(body: WriteBody, meta: Meta) {
    body.Multipart? ==> body.file.Some? && meta.reason != ""
  }

  /** POST /file/{path}: permission first, then the form, then the store. */
  function ServeWrite(env: Env, s: State, p: Path, body: WriteBody, meta: Meta): Served {
    var r := Serve(env, s, [WriteOpOf(p, body)], meta);
    if r.reply == Denied || LoadAcl(env, s).Broken? || BodyOk(body, meta) then r
    else Served(s, Refused(ValidationError))
  }

  datatype ReadReply = Read(version: Version, content: Option<string>) | ReadDenied | ReadFailed(error: Error)

  /** GET /file/{path}: a missing file is reported before the permission is checked. */
  function ServeRead(env: Env, s: State, p: Path, principal: Principal): ReadReply {
    match LoadAcl(env, s)
    case Broken => ReadFailed(Crash)
    case Rules(acl) =>
      match GetFileSpec(s, p)
      case GetRaised(e) => ReadFailed(e)
      case Got(v, content) =>
        if MayRead(acl, principal, p) then ReadReply.Read(v, content) else ReadDenied
  }

  function Viewer(acl: Option<seq<AclRule>>, principal: Principal): Row -> bool {
    row => Shown(acl, principal, row)
  }

  /** GET /tree: one page of the listing, reduced to what the caller may read, with the page's own cursor. */
  ghost function ServeTree(env: Env, s: State, root: Path, depth: int, cursor: Option<string>,
                           principal: Principal): ListOutcome {
    match LoadAcl(env, s)
    case Broken => ListRaised(Crash)
    case Rules(acl) =>
      match ListTree(s, root, depth, cursor)
      case ListRaised(e) => ListRaised(e)
      case Listed(page) => Listed(Page(Filter(page.rows, Viewer(acl, principal)), page.next))
  }

  lemma HiddenRow(s: State, acl: Option<seq<AclRule>>, who: Principal, p: Path)
    ensures Shown(acl, who, EntryFor(s, p)) <==> IsDir(s, p) || MayRead(acl, who, p)
  {
    hide Allowed;
  }

  /**
   * The next cursor of a page names a file the caller may not read exactly when it is the path of no row the
   * caller was given.
   */
  lemma CursorNamesHiddenIff(env: Env, s: State, root: Path, depth: int, cursor: Option<string>, who: Principal)
    requires CanonicalTree(s) && (root != [] ==> Canonical(root)) && LoadAcl(env, s).Rules?
    requires ServeTree(env, s, root, depth, cursor, who).Listed?
    ensures var acl, page := LoadAcl(env, s).acl, ServeTree(env, s, root, depth, cursor, who).page;
            (exists p ::
               p in Wanted(s, root, depth) && !IsDir(s, p) && !MayRead(acl, who, p) && page.next == Some(Render(p)))
            <==> page.next.Some? && forall r :: r in page.rows ==> r.key != page.next.value
  {
    hide LoadAcl, CanonicalTree, Wanted, MayRead, Shown, IsDir, RowsOf, Start;
    var acl := LoadAcl(env, s).acl;
    var full, page := ListTree(s, root, depth, cursor).page, ServeTree(env, s, root, depth, cursor, who).page;
    var wanted := Wanted(s, root, depth);
    WantedIsCanonical(s, root, depth);
    forall p, r | p in wanted && !IsDir(s, p) && !MayRead(acl, who, p) && r in page.rows ensures r.key != Render(p) {
      GivenRowIsShown(s, wanted, full.rows, acl, who, r, p);
    }
    if page.next.Some? && forall r :: r in page.rows ==> r.key != page.next.value {
      var last := full.rows[PAGE_SIZE - 1];
      assert last in full.rows && last !in page.rows && full.next == Some(last.key);
      assert last in RowsOf(s, wanted);
      RowsOfHas(s, wanted, last);
      var p :| p in wanted && last == EntryFor(s, p);
      HiddenRow(s, acl, who, p);
      EntryKey(s, p);
      assert !IsDir(s, p) && !MayRead(acl, who, p) && page.next == Some(Render(p));
    }
  }

  lemma EntryKey(s: State, p: Path)
    ensures EntryFor(s, p).key == Render(p)
  {}

  lemma GivenRowIsShown(s: State, wanted: set<Path>, rows: seq<Row>, acl: Option<seq<AclRule>>, who: Principal, r: Row,
                        p: Path)
    requires forall q :: q in wanted ==> Canonical(q)
    requires forall x :: x in rows ==> x in RowsOf(s, wanted)
    requires r in Filter(rows, Viewer(acl, who)) && p in wanted && !IsDir(s, p) && !MayRead(acl, who, p)
    ensures r.key != Render(p)
  {
    hide MayRead, Shown, IsDir, RowsOf;
    RowsOfHas(s, wanted, r);
    var q :| q in wanted && r == EntryFor(s, q);
    EntryKey(s, q);
    HiddenRow(s, acl, who, q);
    if Render(q) == Render(p) { RenderIsInjective(q, p); }
  }

  class Api {
    const store: GitStorage
    const env: Env
    var auditExtra: Option<AuditExtra>

    constructor (store: GitStorage, env: Env)
      ensures this.store == store && this.env == env && auditExtra == None
    {
      this.store, this.env, auditExtra := store, env, None;
    }

    method LoadRules() returns (r: Loaded)
      ensures r == LoadAcl(env, store.S())
    {
      var file := store.GetFile(ACL_PATH);
      if file.GetRaised? { return if file.error == NotFound then Rules(None) else Broken; }
      var rules := ParseAcl(env, OrEmpty(file.content));
      if rules.None? { return Broken; }
      return Rules(rules);
    }

    method RequireWrite(acl: Option<seq<AclRule>>, principal: Principal, p: Path) returns (ok: bool)
      ensures ok == MayWrite(env, acl, principal, p)
    {
      if p == ACL_PATH { return principal.userId == env.admin; }
      return Allowed(acl, Ask(principal, Render(p), KindOf(p), Field.Write));
    }

    /** POST /transaction. */
    method RunTransaction(ops: seq<Op>, meta: Meta) returns (r: Reply)
      requires forall i :: 0 <= i < |ops| ==> ops[i].typ != Upload
      modifies this, store
      ensures Served(store.S(), r) == Serve(env, old(store.S()), ops, meta)
      ensures auditExtra == if r.Replied? then Some(BatchExtra(ops, meta, r.commitId)) else old(auditExtra)
    {
      hide LoadAcl, MayWrite, Transact;
      var loaded := LoadRules();
      if loaded.Broken? { return Refused(Crash); }
      for i := 0 to |ops|
        invariant forall j :: 0 <= j < i ==> MayWrite(env, loaded.acl, meta.principal, ops[j].path)
        invariant store.S() == old(store.S()) && auditExtra == old(auditExtra)
      {
        var ok := RequireWrite(loaded.acl, meta.principal, ops[i].path);
        if !ok { return Denied; }
      }
      var outcome := store.RunTransaction(ops, meta);
      if outcome.Raised? { return Refused(outcome.error); }
      auditExtra := Some(BatchExtra(ops, meta, outcome.commitId));
      return Replied(outcome.commitId, outcome.files);
    }

    /** The steps the one-file handlers share: load the rules, check the path, run the operation. */
    method RunOne(op: Op, meta: Meta) returns (r: Reply)
      requires op.typ != Upload
      modifies store
      ensures Served(store.S(), r) == Serve(env, old(store.S()), [op], meta)
    {
      hide LoadAcl, MayWrite, Transact;
      var loaded := LoadRules();
      if loaded.Broken? { return Refused(Crash); }
      var ok := RequireWrite(loaded.acl, meta.principal, op.path);
      assert [op][0] == op;
      if !ok { return Denied; }
      var outcome := store.RunTransaction([op], meta);
      if outcome.Raised? { return Refused(outcome.error); }
      return Replied(outcome.commitId, outcome.files);
    }

    /** POST /file/{path}/edit. */
    method EditFile(p: Path, oldStr: string, newStr: string, ifVersion: Version, meta: Meta) returns (w: WriteReply)
      modifies this, store
      ensures var r := Serve(env, old(store.S()), [EditOp(p, oldStr, newStr, ifVersion)], meta);
              store.S() == r.state && w == WriteReplyOf(p, r.reply) && auditExtra == Logged(old(auditExtra), meta, w)
      ensures old(Clean(store.S())) && w.Written? ==>
                && p in old(Head(store.S())) && ifVersion == Blob(old(Head(store.S()))[p])
                && Lookup(Head(store.S()), p) == Some(ReplaceFirst(old(Head(store.S()))[p], oldStr, newStr))
                && w.version == Some(Blob(ReplaceFirst(old(Head(store.S()))[p], oldStr, newStr)))
    {
      hide Serve, Clean;
      ghost var before := store.S();
      var op := EditOp(p, oldStr, newStr, ifVersion);
      var r := RunOne(op, meta);
      if Clean(before) && r.Replied? { AnsweredWrite(env, before, op, meta); }
      w := Finish(p, meta, r);
    }

    /** POST /file/{path}/append. */
    method AppendFile(p: Path, content: string, ifVersion: Version, meta: Meta) returns (w: WriteReply)
      modifies this, store
      ensures var r := Serve(env, old(store.S()), [AppendOp(p, content, ifVersion)], meta);
              store.S() == r.state && w == WriteReplyOf(p, r.reply) && auditExtra == Logged(old(auditExtra), meta, w)
      ensures old(Clean(store.S())) && w.Written? ==>
                && p in old(Head(store.S())) && ifVersion == Blob(old(Head(store.S()))[p])
                && Lookup(Head(store.S()), p) == Some(old(Head(store.S()))[p] + content)
                && w.version == Some(Blob(old(Head(store.S()))[p] + content))
    {
      hide Serve, Clean;
      ghost var before := store.S();
      var op := AppendOp(p, content, ifVersion);
      var r := RunOne(op, meta);
      if Clean(before) && r.Replied? { AnsweredWrite(env, before, op, meta); }
      w := Finish(p, meta, r);
    }

    /** POST /file/{path}: text as a transaction of one write, a form as an upload. */
    method WriteFile(p: Path, body: WriteBody, meta: Meta) returns (w: WriteReply)
      modifies this, store
      ensures var r := ServeWrite(env, old(store.S()), p, body, meta);
              store.S() == r.state && w == WriteReplyOf(p, r.reply) && auditExtra == Logged(old(auditExtra), meta, w)
      ensures old(Clean(store.S())) && w.Written? ==>
                && NamesWhatItReplaces(old(Head(store.S())), WriteOpOf(p, body))
                && Lookup(Head(store.S()), p) == WriteOpOf(p, body).content
                && w.version == Some(Blob(OrEmpty(WriteOpOf(p, body).content)))
    {
      hide LoadAcl, MayWrite, Transact, Clean;
      ghost var before := store.S();
      var op := WriteOpOf(p, body);
      assert [op][0] == op;
      var loaded := LoadRules();
      if loaded.Broken? { return NotWritten(Refused(Crash)); }
      var ok := RequireWrite(loaded.acl, meta.principal, p);
      if !ok { return NotWritten(Denied); }
      var outcome;
      match body {
        case Multipart(file, _) =>
          if file.None? || meta.reason == "" { return NotWritten(Refused(ValidationError)); }
          outcome := store.WriteBinary(p, file.value, op.ifVersion, meta);
        case TextBody(_, _) =>
          outcome := store.RunTransaction([op], meta);
      }
      if Clean(before) && outcome.Done? { AnsweredWrite(env, before, op, meta); }
      w := Finish(p, meta, ReplyOf(outcome));
    }

    /** DELETE /file/{path}. */
    method DeleteFile(p: Path, ifVersion: Version, meta: Meta) returns (r: Reply)
      modifies this, store
      ensures Served(store.S(), r) == Serve(env, old(store.S()), [DeleteOp(p, ifVersion)], meta)
      ensures auditExtra == if r.Replied? then Some(FileExtra(p, meta, r.commitId)) else old(auditExtra)
    {
      r := RunOne(DeleteOp(p, ifVersion), meta);
      if r.Replied? { auditExtra := Some(FileExtra(p, meta, r.commitId)); }
    }

    method Finish(p: Path, meta: Meta, r: Reply) returns (w: WriteReply)
      modifies this
      ensures w == WriteReplyOf(p, r) && auditExtra == Logged(old(auditExtra), meta, w)
    {
      if !r.Replied? { return NotWritten(r); }
      auditExtra := Some(FileExtra(p, meta, r.commitId));
      return Written(p, if r.files == [] then None else r.files[0].version, r.commitId);
    }

    /** GET /tree. */
    method GetTree(root: Path, depth: int, cursor: Option<string>, principal: Principal) returns (r: ListOutcome)
      requires CanonicalTree(store.S()) && (root != [] ==> Canonical(root))
      ensures r == ServeTree(env, store.S(), root, depth, cursor, principal)
    {
      hide LoadAcl, CanonicalTree, ListTree;
      var loaded := LoadRules();
      if loaded.Broken? { return ListRaised(Crash); }
      var full := store.List(root, depth, cursor);
      if full.ListRaised? { return full; }
      var visible := Filter(full.page.rows, Viewer(loaded.acl, principal));
      return Listed(Page(visible, full.page.next));
    }

    /** GET /file/{path}. */
    method ReadFile(p: Path, principal: Principal) returns (r: ReadReply)
      ensures r == ServeRead(env, store.S(), p, principal)
      ensures Clean(store.S()) && r.Read? ==>
                p in Head(store.S()) && r.version == Blob(Head(store.S())[p])
                    && (IsText(p) ==> r.content == Some(Head(store.S())[p]))
    {
      hide LoadAcl, MayRead;
      var loaded := LoadRules();
      if loaded.Broken? { return ReadFailed(Crash); }
      var file := store.GetFile(p);
      if file.GetRaised? { return ReadFailed(file.error); }
      if !MayRead(loaded.acl, principal, p) { return ReadDenied; }
      return ReadReply.Read(file.version, file.content);
    }
  }

  function FileExtra(p: Path, meta: Meta, commitId: nat): AuditExtra {
    AuditExtra([p], Some(KindOf(p)), KindOf(p) == PiiJson, meta.reason, meta.taskId, commitId)
  }

  function Logged(before: Option<AuditExtra>, meta: Meta, w: WriteReply): Option<AuditExtra> {
    if w.Written? then Some(FileExtra(w.path, meta, w.commitId)) else before
  }

  function BatchExtra(ops: seq<Op>, meta: Meta, commitId: nat): AuditExtra {
    var pii := exists i :: 0 <= i < |ops| && KindOf(ops[i].path) == PiiJson;
    AuditExtra(OpPaths(ops), None, pii, meta.reason, meta.taskId, commitId)
  }
}
