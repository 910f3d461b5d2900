/** Which error a WebDAV client meets, in terms of HEAD and of the rules in it. */
module BridgeErrors {
  import opened Base
  import opened Paths
  import opened Acl
  import opened Store
  import opened Transactions
  import opened Validity
  import opened GitStorage
  import opened Threads
  import opened Runs
  import opened Api
  import opened Requests
  import opened Bridge

  /** Denials are told as forbidden, stale versions as conflicts, everything else as a failure. */
  lemma RepliesAreTranslated(r: Reply)
    ensures ToldOf(r) == None <==> r.Replied?
    ensures ToldOf(r) == Some(Forbidden) <==> r == Denied
    ensures ToldOf(r) == Some(Conflict) <==> r.Refused? && r.error.VersionConflict?
  {}

  /**
   * A PUT is forbidden exactly on a closed path. On an open one it is a conflict exactly when it names a version
   * that is not the present one, on a path whose kind fits; an empty version in a form names none.
   */
  lemma PutErrors(env: Env, s: State, acl: Option<seq<AclRule>>, p: Path, data: string, version: Option<Version>,
                  user: Principal)
    requires Clean(s) && AclIs(env, Head(s), acl)
    ensures PutError(env, s, p, data, version, user) == Some(Forbidden) <==> Closed(env, acl, user, p)
    ensures PutError(env, s, p, data, version, user) == Some(Conflict) <==>
            && !Closed(env, acl, user, p) && version.Some? && version != Current(Head(s), p)
            && ClassifyKind(Render(p)) != Skill && (TextForBridge(p) || version != Some(Foreign("")))
  {
    hide Closed, AclIs, Clean, Serve, LoadAcl, Validate, Transact;
    var op := WriteOpOf(p, PutBody(p, data, version));
    KindsDifferOnSkillsOnly(p);
    assert [op][0] == op;
    DeniedIff(env, s, acl, [op], AutoMeta(user));
    LoadedAclIsCommitted(env, s, acl);
    if !Closed(env, acl, user, p) { OpenReply(env, s, acl, op, AutoMeta(user)); }
    PutConflicts(s, p, data, version);
  }

  /** On an open path one operation is answered with its error, or it is carried out or crashes. */
  lemma OpenReply(env: Env, s: State, acl: Option<seq<AclRule>>, op: Op, meta: Meta)
    requires Clean(s) && AclIs(env, Head(s), acl) && !Closed(env, acl, meta.principal, op.path)
    ensures var r := Serve(env, s, [op], meta).reply;
            if Validate(s, op).Some? then r == Refused(Validate(s, op).value) else r.Replied? || r == Refused(Crash)
  {
    hide Closed, AclIs, Clean, LoadAcl, Validate, ApplyOp, MayWrite, Transact;
    assert [op][0] == op;
    LoadedAclIsCommitted(env, s, acl);
    ClosedIsDenied(env, acl, meta.principal, op.path);
    OneOpTransaction(s, op, meta);
  }

  lemma PutConflicts(s: State, p: Path, data: string, version: Option<Version>)
    requires Clean(s)
    ensures var e := Validate(s, WriteOpOf(p, PutBody(p, data, version)));
            e.Some? && e.value.VersionConflict? <==>
            && version.Some? && version != Current(Head(s), p)
            && ClassifyKind(Render(p)) != Skill && (TextForBridge(p) || version != Some(Foreign("")))
  {
    hide TextForBridge, FileSystem, ClassifyKind, Render;
    KindsDifferOnSkillsOnly(p);
    SkillsAreNoText(p);
  }

  lemma SkillsAreNoText(p: Path)
    ensures ClassifyKind(Render(p)) == Skill ==> !TextForBridge(p)
    ensures TextForBridge(p) ==> IsText(p)
  {
    KindsDifferOnSkillsOnly(p);
    EndsAre(Render(p));
  }

  /** A DELETE goes through, or finds the file gone, is forbidden, or meets another version: one of the four. */
  lemma DeleteErrors(env: Env, s: State, acl: Option<seq<AclRule>>, p: Path, version: Version, user: Principal)
    requires Clean(s) && AclIs(env, Head(s), acl)
    ensures DeleteError(env, s, p, version, user) ==
            if Closed(env, acl, user, p) then Some(Forbidden)
            else if p in Head(s) && version != Blob(Head(s)[p]) then Some(Conflict)
            else None
  {
    hide Closed, AclIs, LoadAcl, FileSystem, Serve, HasRoom;
    var op := DeleteOp(p, version);
    assert [op][0] == op;
    DeniedIff(env, s, acl, [op], AutoMeta(user));
    if !Closed(env, acl, user, p) {
      OpenReply(env, s, acl, op, AutoMeta(user));
      OneFileIsServed(env, s, acl, op, AutoMeta(user));
    }
  }

  /** The source could be read, if its content was not held. */
  ghost predicate HasText(s: State, acl: Option<seq<AclRule>>, src: Path, content: Option<string>, user: Principal) {
    content.Some? || (src in Head(s) && Allowed(acl, Ask(user, Render(src), ClassifyKind(Render(src)), Field.Read)))
  }

  /**
   * A MOVE is forbidden exactly where a path is closed, or content that is not held may not be read; it is a
   * conflict exactly when the destination is a free text path and the source is there in another version.
   */
  lemma MoveErrors(env: Env, s: State, acl: Option<seq<AclRule>>, src: Path, dest: Path, content: Option<string>,
                   version: Option<Version>, user: Principal)
    requires Clean(s) && AclIs(env, Head(s), acl)
    ensures MoveError(env, s, src, dest, content, version, user) == Some(Forbidden) <==>
            && (content.Some? || src in Head(s))
            && (Closed(env, acl, user, src) || Closed(env, acl, user, dest) || !HasText(s, acl, src, content, user))
    ensures MoveError(env, s, src, dest, content, version, user) == Some(Conflict) <==>
            && HasText(s, acl, src, content, user) && !Closed(env, acl, user, src) && !Closed(env, acl, user, dest)
            && IsText(dest) && dest !in Head(s) && src in Head(s) && version.Some? && version != Current(Head(s), src)
  {
    hide Closed, AclIs, LoadAcl, Clean, Serve, ServeRead, Allowed, IsText, MoveRequestError;
    ReadsAreExact(env, s, acl, src, user);
    var read := ServeRead(env, s, src, user);
    if content.Some? {
      MoveRequestErrors(env, s, acl, src, dest, content.value, version, user);
    } else if read.Read? {
      MoveRequestErrors(env, s, acl, src, dest, OrEmpty(read.content), version, user);
    }
  }

  lemma MoveRequestErrors(env: Env, s: State, acl: Option<seq<AclRule>>, src: Path, dest: Path, content: string,
                          version: Option<Version>, user: Principal)
    requires Clean(s) && AclIs(env, Head(s), acl)
    ensures var e := MoveRequestError(env, s, src, dest, content, version, user);
            && (e == Some(Forbidden) <==> Closed(env, acl, user, src) || Closed(env, acl, user, dest))
            && (e == Some(Conflict) <==>
                  && !Closed(env, acl, user, src) && !Closed(env, acl, user, dest)
                  && IsText(dest) && dest !in Head(s) && src in Head(s)
                  && version.Some? && version != Current(Head(s), src))
  {
    hide Closed, AclIs, LoadAcl, Clean, IsText, Transact, Validate, MayWrite;
    var ops, meta := MoveOps(src, dest, content, version), AutoMeta(user);
    assert ops[0].path == dest && ops[1].path == src && |ops| == 2;
    DeniedIff(env, s, acl, ops, meta);
    LoadedAclIsCommitted(env, s, acl);
    MoveConflicts(s, src, dest, content, version, meta);
  }

  lemma MoveConflicts(s: State, src: Path, dest: Path, content: string, version: Option<Version>, meta: Meta)
    requires Clean(s)
    ensures var o := Transact(s, MoveOps(src, dest, content, version), meta).outcome;
            o.Raised? && o.error.VersionConflict? <==>
            && IsText(dest) && dest !in Head(s) && src in Head(s) && version.Some? && version != Current(Head(s), src)
  {
    hide IsText, FileSystem, ApplyAll, ResultFiles, Dedup;
    var ops := MoveOps(src, dest, content, version);
    assert ops[1..] == [ops[1]] && ops[1..][1..] == [];
    assert FirstError(s, ops) == if Validate(s, ops[0]).Some? then Validate(s, ops[0]) else FirstError(s, [ops[1]]);
    OneOpLoop(s, ops[1]);
  }
}
