/** What requests are answered, change and note, in terms of HEAD, of the rules in it, and of names and fields. */
module Requests {
  import opened Base
  import opened Paths
  import opened Acl
  import opened Rules
  import opened Store
  import opened Atomicity
  import opened Transactions
  import opened Validity
  import opened Listing
  import opened GitStorage
  import opened Threads
  import opened Runs
  import opened Api

  // ---- The gate ---------------------------------------------------------------------------------------

  /** The ACL file is closed to everybody but the admin, any other path to whom the rules do not let write. */
  ghost predicate Closed(env: Env, acl: Option<seq<AclRule>>, who: Principal, p: Path) {
    if p == ["_system", "acl.json"] then who.userId != env.admin
    else !Allowed(acl, Ask(who, Render(p), ClassifyKind(Render(p)), Field.Write))
  }

  lemma ClosedIsDenied(env: Env, acl: Option<seq<AclRule>>, who: Principal, p: Path)
    ensures MayWrite(env, acl, who, p) <==> !Closed(env, acl, who, p)
  {
    hide Allowed;
  }

  /** A batch is denied exactly when it names a closed path, and then changes nothing. */
  lemma DeniedIff(env: Env, s: State, acl: Option<seq<AclRule>>, ops: seq<Op>, meta: Meta)
    requires Clean(s) && AclIs(env, Head(s), acl)
    ensures Serve(env, s, ops, meta) == Served(s, Denied) <==>
            exists k :: 0 <= k < |ops| && Closed(env, acl, meta.principal, ops[k].path)
    ensures Serve(env, s, ops, meta).reply == Denied ==> Serve(env, s, ops, meta).state == s
  {
    hide LoadAcl, AclIs, MayWrite, Closed, Clean, Transact;
    LoadedAclIsCommitted(env, s, acl);
    forall k | 0 <= k < |ops|
      ensures MayWrite(env, acl, meta.principal, ops[k].path) <==> !Closed(env, acl, meta.principal, ops[k].path)
    {
      ClosedIsDenied(env, acl, meta.principal, ops[k].path);
    }
  }

  /** A rule of kind pii.json that forbids writing denies every batch with such a file other than the ACL file. */
  lemma PiiGateStopsWrites(env: Env, s: State, rules: seq<AclRule>, i: nat, ops: seq<Op>, k: nat, stem: string,
                           meta: Meta)
    requires Clean(s) && AclIs(env, Head(s), Some(rules))
    requires k < |ops| && ops[k].path != ["_system", "acl.json"] && Render(ops[k].path) == stem + ".pii.json"
    requires i < |rules| && rules[i].kind == Some(PiiJson) && rules[i].write == Some(Deny)
    requires rules[i].userId == None || rules[i].userId == Some(meta.principal.userId)
    requires rules[i].clientId == None || rules[i].clientId == Some(meta.principal.clientId)
    requires rules[i].pathPrefix == None || Reaches(rules[i].pathPrefix.value, stem + ".pii.json")
    requires forall j :: 0 <= j < |rules| && rules[j].kind == Some(PiiJson) && rules[j].write == Some(Allow) ==>
               Weight(rules[j]) < Weight(rules[i])
    ensures Serve(env, s, ops, meta) == Served(s, Denied)
  {
    hide Serve, Reaches, Weight, Allowed, AclIs, Clean, Render, ClassifyKind;
    KindsByStem(stem);
    KindGateDenies(rules, Ask(meta.principal, stem + ".pii.json", PiiJson, Field.Write), i);
    DeniedIff(env, s, Some(rules), ops, meta);
    assert Closed(env, Some(rules), meta.principal, ops[k].path);
  }

  // ---- Batches ----------------------------------------------------------------------------------------

  /** A batch is carried out exactly when no path is closed, every operation is acceptable and none clashes. */
  lemma CarriedOutIff(env: Env, s: State, acl: Option<seq<AclRule>>, ops: seq<Op>, meta: Meta)
    requires Clean(s) && AclIs(env, Head(s), acl)
    ensures Serve(env, s, ops, meta).reply.Replied? <==>
            && ops != [] && ClashFree(s, ops)
            && forall k :: 0 <= k < |ops| ==>
                 !Closed(env, acl, meta.principal, ops[k].path) && Acceptable(Head(s), ops[k])
  {
    hide LoadAcl, AclIs, Closed, Acceptable, Clean, Transact, ClashFree, Validate, MayWrite;
    DeniedIff(env, s, acl, ops, meta);
    LoadedAclIsCommitted(env, s, acl);
    AcceptableBatchIff(s, ops, meta);
  }

  lemma AcceptableBatchIff(s: State, ops: seq<Op>, meta: Meta)
    requires Clean(s)
    ensures Transact(s, ops, meta).outcome.Done? <==>
            ops != [] && ClashFree(s, ops) && forall k :: 0 <= k < |ops| ==> Acceptable(Head(s), ops[k])
  {
    hide Acceptable, ClashFree, Validate, ApplyAll, FirstError;
    forall k | 0 <= k < |ops| ensures Validate(s, ops[k]).None? <==> Acceptable(Head(s), ops[k]) {
      ValidIffAcceptable(s, ops[k]);
    }
    NoErrorMeansAllValid(s, ops);
    WritePhaseIsExact(s, ops);
  }

  /** A compatible acceptable batch is one commit by its author, all changes at once, answered with the new versions. */
  lemma CompatibleBatchIsCarriedOut(env: Env, s: State, acl: Option<seq<AclRule>>, ops: seq<Op>, meta: Meta)
    requires Clean(s) && AclIs(env, Head(s), acl) && ops != [] && Compatible(s, ops)
    requires forall k :: 0 <= k < |ops| ==>
               !Closed(env, acl, meta.principal, ops[k].path) && Acceptable(Head(s), ops[k])
    ensures var r := Serve(env, s, ops, meta);
            && r.reply == Replied(|s.commits|, ExpectedFiles(Head(s), ops))
            && Clean(r.state) && AllAtOnce(Head(s), ops, Head(r.state))
            && r.state.commits == s.commits + [Commit(Head(r.state), meta, OpPaths(ops))]
  {
    hide LoadAcl, AclIs, Closed, Acceptable, Clean, Transact, Compatible, Validate, MayWrite, ClashFree, ExpectedFiles;
    LoadedAclIsCommitted(env, s, acl);
    DeniedIff(env, s, acl, ops, meta);
    forall k | 0 <= k < |ops| ensures Validate(s, ops[k]).None? { ValidIffAcceptable(s, ops[k]); }
    TransactionIsAtomic(s, ops, meta);
  }

  /** Otherwise an open batch is refused with the error of its first unacceptable operation and changes nothing. */
  lemma UnacceptableIsRefused(env: Env, s: State, acl: Option<seq<AclRule>>, ops: seq<Op>, meta: Meta, k: nat)
    requires Clean(s) && AclIs(env, Head(s), acl) && k < |ops| && !Acceptable(Head(s), ops[k])
    requires forall j :: 0 <= j < |ops| ==> !Closed(env, acl, meta.principal, ops[j].path)
    requires forall j :: 0 <= j < k ==> Acceptable(Head(s), ops[j])
    ensures Validate(s, ops[k]).Some? && Serve(env, s, ops, meta) == Served(s, Refused(Validate(s, ops[k]).value))
  {
    hide LoadAcl, AclIs, Closed, Acceptable, Clean, Validate, MayWrite;
    LoadedAclIsCommitted(env, s, acl);
    DeniedIff(env, s, acl, ops, meta);
    forall j | 0 <= j <= k ensures Validate(s, ops[j]).None? <==> Acceptable(Head(s), ops[j]) {
      ValidIffAcceptable(s, ops[j]);
    }
    FirstErrorAt(s, ops, k);
  }

  /** A batch of no operations is refused too. */
  lemma EmptyBatchIsRefused(env: Env, s: State, acl: Option<seq<AclRule>>, meta: Meta)
    requires Clean(s) && AclIs(env, Head(s), acl)
    ensures Serve(env, s, [], meta) == Served(s, Refused(ValidationError))
  {
    hide LoadAcl, AclIs, Clean;
    LoadedAclIsCommitted(env, s, acl);
  }

  /** Rules that cannot be read fail every request. */
  lemma UnreadableRulesFailAll(env: Env, s: State, ops: seq<Op>, meta: Meta, p: Path, body: WriteBody, depth: int,
                               cursor: Option<string>)
    requires Clean(s) && forall acl :: !AclIs(env, Head(s), acl)
    ensures Serve(env, s, ops, meta) == Served(s, Refused(Crash)) == ServeWrite(env, s, p, body, meta)
    ensures ServeRead(env, s, p, meta.principal) == ReadFailed(Crash)
    ensures ServeTree(env, s, p, depth, cursor, meta.principal) == ListRaised(Crash)
  {
    hide LoadAcl, AclIs, Clean, Transact;
    var loaded := LoadAcl(env, s);
    if loaded.Rules? { LoadedAclIsCommitted(env, s, loaded.acl); }
  }

  // ---- One file -----------------------------------------------------------------------------------------

  /** The version a caller must name: that of the present content, none for a new file. */
  ghost function Current(tree: Tree, p: Path): Option<Version> {
    if p in tree then Some(Blob(tree[p])) else None
  }

  lemma SingleIff(s: State, op: Op, meta: Meta)
    requires Clean(s)
    ensures Transact(s, [op], meta).outcome.Done? <==>
            Acceptable(Head(s), op) && (op.path in Head(s) || HasRoom(s, op.path))
  {
    hide Acceptable, Transact, Validate, FileSystem, ClashFree;
    assert [op][0] == op;
    AcceptableBatchIff(s, [op], meta);
    if Acceptable(Head(s), op) { SingleClashIff(s, op); }
  }

  lemma SingleClashIff(s: State, op: Op)
    requires Clean(s) && Acceptable(Head(s), op)
    ensures ClashFree(s, [op]) <==> op.path in Head(s) || HasRoom(s, op.path)
  {
    hide IsText;
    assert [op][..0] == [] && [op][0] == op;
    assert ClashFree(s, [op]) <==> !Clash(s, [], op);
    if op.path in Head(s) || HasRoom(s, op.path) {
      FilesHaveRoom(s, op.path);
    } else if !Clash(s, [], op) {
      forall i | 0 < i < |op.path| ensures op.path[..i] !in Head(s) { assert op.path[..i] in Parents(op.path); }
    }
  }

  /**
   * A full replace with text goes through exactly for an open text path with room, at its current version; HEAD then
   * holds the content and the caller gets its version and the number of the commit.
   */
  lemma TextIsReplacedIff(env: Env, s: State, acl: Option<seq<AclRule>>, p: Path, content: string,
                          ifVersion: Option<Version>, meta: Meta)
    requires Clean(s) && AclIs(env, Head(s), acl)
    ensures var r := ServeWrite(env, s, p, TextBody(content, ifVersion), meta);
            if !Closed(env, acl, meta.principal, p) && IsText(p) && ifVersion == Current(Head(s), p)
               && (p in Head(s) || HasRoom(s, p))
            then Replaces(s, r, p, content, meta)
            else !r.reply.Replied? && r.state.commits == s.commits
  {
    hide Closed, AclIs, Clean, Serve, IsText, HasRoom;
    OneFileIsServed(env, s, acl, WriteOpOf(p, TextBody(content, ifVersion)), meta);
  }

  /** With a form it is the same for binary paths, where the form has a file and a reason; an empty version is none. */
  lemma FormIsReplacedIff(env: Env, s: State, acl: Option<seq<AclRule>>, p: Path, file: Option<string>,
                          ifVersion: Option<Version>, meta: Meta)
    requires Clean(s) && AclIs(env, Head(s), acl)
    ensures var r := ServeWrite(env, s, p, Multipart(file, ifVersion), meta);
            && (Closed(env, acl, meta.principal, p) ==> r == Served(s, Denied))
            && (!Closed(env, acl, meta.principal, p) && (file == None || meta.reason == "") ==>
                  r == Served(s, Refused(ValidationError)))
            && (!Closed(env, acl, meta.principal, p) && file.Some? && meta.reason != "" ==>
                  if !IsText(p) && (p in Head(s) || HasRoom(s, p)) &&
                     (ifVersion == Current(Head(s), p) || (p !in Head(s) && ifVersion == Some(Foreign(""))))
                  then Replaces(s, r, p, file.value, meta)
                  else !r.reply.Replied? && r.state.commits == s.commits)
  {
    hide Closed, AclIs, Clean, Serve, LoadAcl, IsText, HasRoom;
    var op := WriteOpOf(p, Multipart(file, ifVersion));
    OneFileIsServed(env, s, acl, op, meta);
    assert [op][0].path == p;
    DeniedIff(env, s, acl, [op], meta);
    LoadedAclIsCommitted(env, s, acl);
  }

  /** One commit that puts this content under this path, and the reply and the audit note that say so. */
  ghost predicate Replaces(s: State, r: Served, p: Path, content: string, meta: Meta) {
    && Head(r.state) == Head(s)[p := content]
    && r.state.commits == s.commits + [Commit(Head(r.state), meta, [p])]
    && WriteReplyOf(p, r.reply) == Written(p, Some(Blob(content)), |s.commits|)
  }

  lemma OneFileIsServed(env: Env, s: State, acl: Option<seq<AclRule>>, op: Op, meta: Meta)
    requires Clean(s) && AclIs(env, Head(s), acl)
    ensures var r := Serve(env, s, [op], meta);
            if !Closed(env, acl, meta.principal, op.path) && Acceptable(Head(s), op)
               && (op.path in Head(s) || HasRoom(s, op.path))
            then && Head(r.state) == Result(Head(s), op)
                 && r.state.commits == s.commits + [Commit(Head(r.state), meta, [op.path])]
                 && WriteReplyOf(op.path, r.reply) ==
                    Written(op.path, if op.typ == Delete then None else Some(Blob(Head(r.state)[op.path])), |s.commits|)
            else !r.reply.Replied? && r.state.commits == s.commits
  {
    hide Closed, AclIs, Clean, LoadAcl, Acceptable, HasRoom, MayWrite, Transact, Result;
    LoadedAclIsCommitted(env, s, acl);
    DeniedIff(env, s, acl, [op], meta);
    assert [op][0] == op;
    SingleIff(s, op, meta);
    if Transact(s, [op], meta).outcome.Done? {
      AcceptedOperationsCommit(s, op, meta);
      OneReplyFile(s, op, meta);
    } else {
      RaisedKeepsHead(s, [op], meta);
    }
  }

  /** A read finds the file first and then asks the rules; a binary file is given without content. */
  lemma ReadsAreExact(env: Env, s: State, acl: Option<seq<AclRule>>, p: Path, who: Principal)
    requires Clean(s) && AclIs(env, Head(s), acl)
    ensures ServeRead(env, s, p, who) ==
            if p !in Head(s) then ReadFailed(NotFound)
            else if !Allowed(acl, Ask(who, Render(p), ClassifyKind(Render(p)), Field.Read)) then ReadDenied
            else ReadReply.Read(Blob(Head(s)[p]),
                                if ClassifyKind(Render(p)) == Binary then None else Some(Head(s)[p]))
  {
    hide LoadAcl, AclIs, Allowed, FileSystem, ClassifyKind, Render;
    LoadedAclIsCommitted(env, s, acl);
  }

  /** A listing through the API keeps of the page the directories and the files that may be read, and its cursor. */
  lemma TreesAreFiltered(env: Env, s: State, acl: Option<seq<AclRule>>, root: Path, depth: int, cursor: Option<string>,
                         who: Principal, r: Row)
    requires Clean(s) && AclIs(env, Head(s), acl) && ListTree(s, root, depth, cursor).Listed?
    ensures var page, given := ListTree(s, root, depth, cursor).page, ServeTree(env, s, root, depth, cursor, who);
            && given.Listed? && given.page.next == page.next
            && (r in given.page.rows <==>
                  r in page.rows && (r.item.kind == Dir || Allowed(acl, Ask(who, r.key, r.item.kind, Field.Read))))
  {
    hide LoadAcl, AclIs, Allowed, Clean, ListTree;
    LoadedAclIsCommitted(env, s, acl);
    assert Viewer(acl, who)(r) <==> Threads.Shown(acl, who, r);
  }

  // ---- What is noted for the audit ------------------------------------------------------------------------

  /** A batch is noted with all its paths, and as touching personal data exactly when one name ends in `.pii.json`. */
  lemma BatchesAreNoted(ops: seq<Op>, meta: Meta, commitId: nat)
    ensures var note := BatchExtra(ops, meta, commitId);
            && (note.piiAccessed <==> exists k, stem :: 0 <= k < |ops| && Render(ops[k].path) == stem + ".pii.json")
            && |note.paths| == |ops| && (forall k :: 0 <= k < |ops| ==> note.paths[k] == ops[k].path)
            && note.kind == None && note.reason == meta.reason && note.taskId == meta.taskId
            && note.commitId == commitId
  {
    hide ClassifyKind, Render;
    forall k | 0 <= k < |ops|
      ensures KindOf(ops[k].path) == PiiJson <==> exists stem :: Render(ops[k].path) == stem + ".pii.json"
    {
      BinaryIsTheRest(Render(ops[k].path));
    }
  }

  /** A written file is noted with its path and kind, one that is not written leaves the note as it was. */
  lemma FilesAreNoted(before: Option<AuditExtra>, meta: Meta, p: Path, version: Option<Version>, commitId: nat,
                      why: Reply)
    ensures Logged(before, meta, NotWritten(why)) == before
    ensures Logged(before, meta, Written(p, version, commitId)) == Some(FileExtra(p, meta, commitId))
    ensures var note := FileExtra(p, meta, commitId);
            && note.paths == [p] && note.kind == Some(ClassifyKind(Render(p)))
            && (note.piiAccessed <==> exists stem :: Render(p) == stem + ".pii.json")
            && note.reason == meta.reason && note.taskId == meta.taskId && note.commitId == commitId
  {
    hide ClassifyKind, Render;
    BinaryIsTheRest(Render(p));
  }
}
