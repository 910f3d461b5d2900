/** The WebDAV bridge: a file resource that maps PUT, DELETE and MOVE to requests of the API. */
module Bridge {
  import opened Base
  import opened Paths
  import opened Acl
  import opened Store
  import opened Atomicity
  import opened Transactions
  import opened Evolution
  import opened GitStorage
  import opened Threads
  import opened Isolation
  import opened Api

  /** The bridge's own text kinds: md, json and pii.json. */
  predicate TextForBridge(p: Path) {
    EndsWith(Render(p), ".pii.json") || EndsWith(Render(p), ".json") || EndsWith(Render(p), ".md")
  }

  const AUTO_REASON := "Bearbeitet über WebDAV/Explorer"

  function AutoMeta(user: Principal): Meta { Meta(user, AUTO_REASON, None) }

  /** What the WebDAV client is told; `Failed` also stands for errors the bridge does not translate. */
  datatype DavError = Conflict | Forbidden | Failed

  function DavErrorOf(why: Reply): DavError {
    if why.Denied? then Forbidden
    else if why.Refused? && why.error.VersionConflict? then Conflict
    else Failed
  }

  // ---- Moving as one transaction -----------------------------------------------------------

  /** The batch of a MOVE: write the destination without a version, delete the source at its version. */
  function MoveOps(src: Path, dest: Path, content: string, version: Option<Version>): seq<Op> {
    [WriteOp(dest, content), Op(src, Delete, None, None, None, version)]
  }

  /** The source is there at this version, and the destination is a free text path under directories. */
  ghost predicate MoveFits(s: State, src: Path, dest: Path, version: Option<Version>) {
    && src in Head(s) && version == Some(Blob(Head(s)[src]))
    && dest !in Head(s) && IsText(dest) && !IsDir(s, dest) && Parents(dest) !! Head(s).Keys
  }

  /** `tree` with one file under another name. */
  function Renamed(tree: Tree, src: Path, dest: Path): Tree
    requires src in tree
  {
    tree[dest := tree[src]] - {src}
  }

  lemma MoveIsValidIff(s: State, src: Path, dest: Path, content: string, version: Option<Version>)
    requires Clean(s)
    ensures FirstError(s, MoveOps(src, dest, content, version)).None? <==>
            src in Head(s) && version == Some(Blob(Head(s)[src])) && dest !in Head(s) && IsText(dest)
  {
    var ops := MoveOps(src, dest, content, version);
    NoErrorMeansAllValid(s, ops);
    assert Validate(s, ops[0]).None? <==> dest !in Head(s) && IsText(dest);
    assert Validate(s, ops[1]).None? <==> src in Head(s) && version == Some(Blob(Head(s)[src]));
  }

  lemma WritingTheDestination(s: State, dest: Path, content: string)
    requires Clean(s) && dest !in Head(s)
    ensures var a := ApplyOp(s, WriteOp(dest, content));
            && (a.ok <==> !IsDir(s, dest) && Parents(dest) !! Head(s).Keys)
            && (a.ok ==> a.state.work == a.state.index == s.work[dest := content] && a.state.commits == s.commits)
            && (!a.ok ==> a.state == s)
            && FileSystem(a.state.work, a.state.dirs)
  {
    var a := ApplyOp(s, WriteOp(dest, content));
    assert dest !in Parents(dest);
    if a.ok {
      StepKeepsFileSystem(s, WriteOp(dest, content));
    } else if Parents(dest) !! s.work.Keys {
      MakingParentsKeepsFileSystem(s, dest);
    }
  }


  lemma DeletingTheSource(s: State, src: Path, version: Option<Version>)
    requires src in s.work && s.work == s.index && FileSystem(s.work, s.dirs)
    ensures var a := ApplyOp(s, Op(src, Delete, None, None, None, version));
            a.ok && a.state == s.(work := s.work - {src}, index := s.work - {src})
                && FileSystem(a.state.work, a.state.dirs)
  {}

  lemma MoveLoop(s: State, src: Path, dest: Path, content: string, version: Option<Version>)
    ensures var first := ApplyOp(s, WriteOp(dest, content));
            ApplyAll(s, MoveOps(src, dest, content, version)) ==
            if first.ok then ApplyOp(first.state, Op(src, Delete, None, None, None, version)) else first
  {
    var ops := MoveOps(src, dest, content, version);
    assert ops[..1] == [ops[0]] && [ops[0]][..0] == [];
    assert ApplyAll(s, []) == Applied(s, true);
  }

  /**
   * The batch of a MOVE on any clean store: it renames the file in one commit exactly when it fits, and
   * otherwise changes nothing. It never leaves the store half-way.
   */
  lemma MoveIsARename(s: State, src: Path, dest: Path, content: string, version: Option<Version>, meta: Meta)
    requires Clean(s) && (version.Some? ==> version == Some(Blob(content)))
    ensures var t := Transact(s, MoveOps(src, dest, content, version), meta);
            && (t.outcome.Done? <==> MoveFits(s, src, dest, version))
            && Clean(t.state)
            && (t.outcome.Done? ==>
                  |t.state.commits| == |s.commits| + 1 && Head(t.state) == Renamed(Head(s), src, dest))
            && (t.outcome.Raised? ==> t.state == s)
  {
    hide Validate, ApplyOp, FirstError, ApplyAll, ResultFiles, OpPaths, Dedup, FileSystem, Parents;
    var ops := MoveOps(src, dest, content, version);
    MoveIsValidIff(s, src, dest, content, version);
    if FirstError(s, ops).None? {
      MoveLoop(s, src, dest, content, version);
      WritingTheDestination(s, dest, content);
      var first := ApplyOp(s, WriteOp(dest, content));
      if first.ok {
        DeletingTheSource(first.state, src, version);
        assert s.work[dest := content] - {src} == Renamed(Head(s), src, dest);
      }
    }
  }

  /** A MOVE through the API goes through exactly when both paths may be written and it fits. */
  ghost predicate MoveAllowed(env: Env, s: State, user: Principal, src: Path, dest: Path) {
    LoadAcl(env, s).Rules? && MayWrite(env, LoadAcl(env, s).acl, user, src)
        && MayWrite(env, LoadAcl(env, s).acl, user, dest)
  }

  lemma ServedMove(env: Env, s: State, user: Principal, src: Path, dest: Path, content: string,
                   version: Option<Version>)
    requires Clean(s) && (version.Some? ==> version == Some(Blob(content)))
    ensures var r := Serve(env, s, MoveOps(src, dest, content, version), AutoMeta(user));
            && (r.reply.Replied? <==> MoveAllowed(env, s, user, src, dest) && MoveFits(s, src, dest, version))
            && Clean(r.state)
            && (r.reply.Replied? ==>
                  |r.state.commits| == |s.commits| + 1 && Head(r.state) == Renamed(Head(s), src, dest))
            && (!r.reply.Replied? ==> r.state == s)
  {
    hide Transact, LoadAcl, MayWrite, Clean, MoveFits, Renamed;
    MoveIsARename(s, src, dest, content, version, AutoMeta(user));
    var ops := MoveOps(src, dest, content, version);
    assert ops[0].path == dest && ops[1].path == src;
  }

  // ---- The redundant delete --------------------------------------------------------------------

  /** Deleting a path that is gone changes nothing; it is reported missing exactly when it may be written. */
  lemma DeletingWhatIsGone(env: Env, s: State, user: Principal, src: Path, version: Version)
    requires src !in s.work
    ensures var r := Serve(env, s, [DeleteOp(src, version)], AutoMeta(user));
            && r.state == s && !r.reply.Replied?
            && (r.reply == Refused(NotFound) <==>
                  LoadAcl(env, s).Rules? && MayWrite(env, LoadAcl(env, s).acl, user, src))
  {
    hide LoadAcl, MayWrite;
    OneOpLoop(s, DeleteOp(src, version));
    assert [DeleteOp(src, version)][0].path == src;
  }

  /**
   * Whatever happened between the rename and the redundant delete, that delete changes HEAD exactly when
   * somebody has put a file with the very content moved under the old name again and the mover may write it.
   */
  lemma RedundantDeleteIsHarmlessIff(env: Env, s: State, user: Principal, src: Path, content: string)
    requires Clean(s)
    ensures var r := Serve(env, s, [DeleteOp(src, Blob(content))], AutoMeta(user));
            Head(r.state) == Head(s) <==>
            !(src in Head(s) && Head(s)[src] == content
              && LoadAcl(env, s).Rules? && MayWrite(env, LoadAcl(env, s).acl, user, src))
  {
    hide LoadAcl, MayWrite, Transact, FileSystem, Serve;
    var op := DeleteOp(src, Blob(content));
    assert [op][0] == op;
    var r := Serve(env, s, [op], AutoMeta(user));
    DeleteServedIff(env, s, op, AutoMeta(user));
    if r.reply.Replied? { AnsweredWrite(env, s, op, AutoMeta(user)); }
  }

  lemma DeleteServedIff(env: Env, s: State, op: Op, meta: Meta)
    requires Clean(s) && op.typ == Delete
    ensures var r := Serve(env, s, [op], meta);
            && (r.reply.Replied? <==> op.path in Head(s) && op.ifVersion == Some(Blob(Head(s)[op.path]))
                                      && LoadAcl(env, s).Rules?
                                         && MayWrite(env, LoadAcl(env, s).acl, meta.principal, op.path))
            && (!r.reply.Replied? ==> Head(r.state) == Head(s))
  {
    hide LoadAcl, MayWrite, FileSystem, ResultFiles;
    assert [op][0] == op;
    OneOpTransaction(s, op, meta);
    RaisedKeeps(s, op, meta);
  }

  lemma RaisedKeeps(s: State, op: Op, meta: Meta)
    ensures Transact(s, [op], meta).outcome.Raised? ==> Head(Transact(s, [op], meta).state) == Head(s)
  {
    hide Transact;
    if Transact(s, [op], meta).outcome.Raised? { RaisedKeepsHead(s, [op], meta); }
  }

  /** That happens: another author's file of the same content is removed by the mover's second request. */
  lemma RecreatedSourceIsDeleted(env: Env, s: State, user: Principal, src: Path, content: string, other: Meta)
    requires Clean(s) && src !in Head(s)
    requires Serve(env, s, [WriteOp(src, content)], other).reply.Replied?
    requires var mid := Serve(env, s, [WriteOp(src, content)], other).state;
             LoadAcl(env, mid).Rules? && MayWrite(env, LoadAcl(env, mid).acl, user, src)
    ensures var mid := Serve(env, s, [WriteOp(src, content)], other).state;
            && Lookup(Head(mid), src) == Some(content)
            && src !in Head(Serve(env, mid, [DeleteOp(src, Blob(content))], AutoMeta(user)).state)
  {
    hide LoadAcl, MayWrite, Serve, FileSystem;
    AnsweredWrite(env, s, WriteOp(src, content), other);
    var mid := Serve(env, s, [WriteOp(src, content)], other).state;
    DeleteServedIff(env, mid, DeleteOp(src, Blob(content)), AutoMeta(user));
    AnsweredWrite(env, mid, DeleteOp(src, Blob(content)), AutoMeta(user));
  }

  /** A MOVE writes before it deletes, so no client is contradicted about the two names. */
  lemma MovesContradictNobody(s: State, src: Path, dest: Path, content: string, version: Option<Version>, p: Path,
                              q: Path)
    requires Clean(s) && FirstError(s, MoveOps(src, dest, content, version)).None?
    ensures !RemovesBeforeItCreates(s, MoveOps(src, dest, content, version), p, q)
  {
    hide FirstError, Clean;
    MoveIsValidIff(s, src, dest, content, version);
    var ops := MoveOps(src, dest, content, version);
    assert ops[..0] == [] && ops[..1] == [ops[0]] && [ops[0]][..0] == [] && ops[..2] == ops;
    forall k | 0 <= k <= 2 && p in s.work && Evolve(ops[..k], p, Lookup(s.work, p)).None? ensures k == 2 {
      assert Evolve(ops[..1], p, Lookup(s.work, p)).Some?;
    }
  }

  /** After a move that does not put a new ACL in place the mover may still write the old path. */
  lemma MoverMayStillWrite(env: Env, s: State, after: State, user: Principal, src: Path, dest: Path)
    requires Clean(s) && Clean(after) && src in Head(s) && Head(after) == Renamed(Head(s), src, dest)
             && dest != ACL_PATH
    requires LoadAcl(env, s).Rules? && MayWrite(env, LoadAcl(env, s).acl, user, src)
    ensures LoadAcl(env, after).Rules? && MayWrite(env, LoadAcl(env, after).acl, user, src)
  {
    hide Allowed, FileSystem;
    if src == ACL_PATH {
      assert ACL_PATH !in after.work;
    } else {
      assert Lookup(Head(after), ACL_PATH) == Lookup(Head(s), ACL_PATH);
      assert GetFileSpec(after, ACL_PATH) == GetFileSpec(s, ACL_PATH);
    }
  }

  // ---- What the WebDAV client is told --------------------------------------------------------------

  function ToldOf(r: Reply): Option<DavError> { if r.Replied? then None else Some(DavErrorOf(r)) }

  /** The bridge sends its text kinds as text and anything else as a form. */
  function PutBody(p: Path, data: string, version: Option<Version>): WriteBody {
    if TextForBridge(p) then TextBody(data, version) else Multipart(Some(data), version)
  }

  function PutError(env: Env, s: State, p: Path, data: string, version: Option<Version>,
                    user: Principal): Option<DavError>
  {
    ToldOf(ServeWrite(env, s, p, PutBody(p, data, version), AutoMeta(user)).reply)
  }

  /** A file already gone is no error. */
  function DeleteError(env: Env, s: State, p: Path, version: Version, user: Principal): Option<DavError> {
    var r := Serve(env, s, [DeleteOp(p, version)], AutoMeta(user)).reply;
    if r == Refused(NotFound) then None else ToldOf(r)
  }

  function MoveRequestError(env: Env, s: State, src: Path, dest: Path, content: string, version: Option<Version>,
                            user: Principal): Option<DavError> {
    ToldOf(Serve(env, s, MoveOps(src, dest, content, version), AutoMeta(user)).reply)
  }

  /** Content that is not held is read first. */
  function MoveError(env: Env, s: State, src: Path, dest: Path, content: Option<string>, version: Option<Version>,
                     user: Principal): Option<DavError> {
    if content.Some? then MoveRequestError(env, s, src, dest, content.value, version, user)
    else
      match ServeRead(env, s, src, user)
      case ReadDenied => Some(Forbidden)
      case ReadFailed(_) => Some(Failed)
      case Read(_, text) => MoveRequestError(env, s, src, dest, OrEmpty(text), version, user)
  }

  // ---- The resource -----------------------------------------------------------------------------

  class FileResource {
    const api: Api
    const path: Path
    const user: Principal
    var version: Option<Version>
    var content: Option<string>
    var size: nat
    var exists_: bool

    /** The content held is the content of the version held. */
    ghost predicate Fresh()
      reads this
    {
      TextForBridge(path) && version.Some? ==> content.Some? && version == Some(Blob(content.value))
    }

    /** What a GET returned, or a path that is not there yet. */
    constructor (api: Api, path: Path, user: Principal, version: Option<Version>, content: Option<string>, size: nat,
                 exists_: bool)
      requires TextForBridge(path) && version.Some? ==> content.Some? && version == Some(Blob(content.value))
      ensures this.api == api && this.path == path && this.user == user && Fresh()
      ensures this.version == version && this.content == content && this.size == size && this.exists_ == exists_
    {
      this.api, this.path, this.user := api, path, user;
      this.version, this.content, this.size, this.exists_ := version, content, size, exists_;
    }

    /** The end of a PUT. */
    method EndWrite(data: string, withErrors: bool) returns (e: Option<DavError>)
      requires Fresh()
      modifies this, api, api.store
      ensures old(Clean(api.store.S())) ==> Fresh()
      ensures e == if withErrors then None else old(PutError(api.env, api.store.S(), path, data, version, user))
      ensures e.Some? || withErrors ==>
                && version == old(version) && content == old(content) && size == old(size) && exists_ == old(exists_)
                && api.store.commits == old(api.store.commits)
      ensures old(Clean(api.store.S())) && e.None? && !withErrors ==>
                && (path in old(Head(api.store.S())) ==> old(version) == Some(Blob(old(Head(api.store.S()))[path])))
                && Lookup(Head(api.store.S()), path) == Some(data)
                && (forall q :: q != path ==> Lookup(Head(api.store.S()), q) == Lookup(old(Head(api.store.S())), q))
                && |api.store.commits| == old(|api.store.commits|) + 1
                && version == Some(Blob(data)) && size == |data| && exists_
                && content == if TextForBridge(path) then Some(data) else old(content)
    {
      hide Serve, Clean, MayWrite;
      if withErrors { return None; }
      ghost var before := api.store.S();
      var body := PutBody(path, data, version);
      var w := api.WriteFile(path, body, AutoMeta(user));
      WrittenOrNot(api.env, before, path, body, AutoMeta(user));
      if w.NotWritten? { return Some(DavErrorOf(w.why)); }
      version := w.version;
      if TextForBridge(path) { content := Some(data); }
      size := |data|;
      exists_ := true;
      return None;
    }

    /** DELETE; a file that is already gone is no error. */
    method Delete() returns (e: Option<DavError>)
      modifies api, api.store
      ensures version.None? ==> e == Some(Failed) && api.store.S() == old(api.store.S())
      ensures version.Some? ==>
                var r := Serve(api.env, old(api.store.S()), [DeleteOp(path, version.value)], AutoMeta(user));
                && api.store.S() == r.state
                && e == old(DeleteError(api.env, api.store.S(), path, version.value, user))
    {
      hide Serve;
      if version.None? { return Some(Failed); }
      var r := api.DeleteFile(path, version.value, AutoMeta(user));
      if r.Replied? || r == Refused(NotFound) { return None; }
      return Some(DavErrorOf(r));
    }

    /** The text branch of MOVE: read the content if it is not held, then one transaction. */
    method MoveText(dest: Path) returns (e: Option<DavError>)
      requires TextForBridge(path) && Fresh()
      modifies api, api.store
      ensures e == old(MoveError(api.env, api.store.S(), path, dest, content, version, user))
      ensures old(Clean(api.store.S())) ==>
                && Clean(api.store.S())
                && (e.None? <==> old(MoveAllowed(api.env, api.store.S(), user, path, dest)
                   && MoveFits(api.store.S(), path, dest, version)))
                && (e.None? ==> |api.store.commits| == old(|api.store.commits|) + 1
                                && Head(api.store.S()) == Renamed(old(Head(api.store.S())), path, dest))
                && (e.Some? ==> api.store.S() == old(api.store.S()))
    {
      hide Serve, Clean, MoveAllowed, ServeRead, LoadAcl, Renamed;
      ghost var before := api.store.S();
      var text := content;
      if text.None? {
        var file := api.ReadFile(path, user);
        if file.ReadDenied? { return Some(Forbidden); }
        if file.ReadFailed? { return Some(Failed); }
        text := file.content;
      }
      if Clean(before) { ServedMove(api.env, before, user, path, dest, OrEmpty(text), version); }
      var r := api.RunTransaction(MoveOps(path, dest, OrEmpty(text), version), AutoMeta(user));
      return if r.Replied? then None else Some(DavErrorOf(r));
    }

    /**
     * A MOVE as WebDAV servers run it: copy-or-move the file, then delete the source once more. On any
     * clean store it is a rename in one commit, or no file changes and the client is told. After a rename
     * the second delete is an error only where the file moved became the ACL and forbids it.
     */
    method Move(dest: Path) returns (moved: bool, e: Option<DavError>)
      requires TextForBridge(path) && Fresh()
      modifies api, api.store
      ensures old(Clean(api.store.S())) ==>
                && Clean(api.store.S())
                && (moved <==> old(MoveAllowed(api.env, api.store.S(), user, path, dest)
                   && MoveFits(api.store.S(), path, dest, version)))
                && (moved ==> |api.store.commits| == old(|api.store.commits|) + 1
                              && Head(api.store.S()) == Renamed(old(Head(api.store.S())), path, dest))
                && (!moved ==> api.store.S() == old(api.store.S()) && e.Some?)
                && (moved && dest != ACL_PATH ==> e.None?)
                && (moved ==> (e.None? <==> LoadAcl(api.env, api.store.S()).Rules?
                                            && MayWrite(api.env, LoadAcl(api.env, api.store.S()).acl, user, path)))
    {
      hide Serve, Clean, LoadAcl, MayWrite, Renamed;
      ghost var before := api.store.S();
      e := MoveText(dest);
      if e.Some? { return false, e; }
      ghost var after := api.store.S();
      if Clean(before) { AfterTheRename(api.env, before, after, user, path, dest, version); }
      e := Delete();
      return true, e;
    }
  }

  lemma AfterTheRename(env: Env, s: State, after: State, user: Principal, src: Path, dest: Path,
                       version: Option<Version>)
    requires Clean(s) && Clean(after) && MoveFits(s, src, dest, version) && MoveAllowed(env, s, user, src, dest)
    requires Head(after) == Renamed(Head(s), src, dest)
    ensures version.Some?
    ensures var r := Serve(env, after, [DeleteOp(src, version.value)], AutoMeta(user));
            && r.state == after && !r.reply.Replied?
            && (r.reply == Refused(NotFound) <==>
                  LoadAcl(env, after).Rules? && MayWrite(env, LoadAcl(env, after).acl, user, src))
            && (dest != ACL_PATH ==> r.reply == Refused(NotFound))
  {
    hide LoadAcl, MayWrite, Serve, Parents, IsText, IsDir;
    assert src !in after.work;
    hide Clean;
    DeletingWhatIsGone(env, after, user, src, version.value);
    if dest != ACL_PATH { MoverMayStillWrite(env, s, after, user, src, dest); }
  }

  /** A full replace on the store: one commit that changes one path, or HEAD as it was. */
  lemma WrittenOrNot(env: Env, s: State, p: Path, body: WriteBody, meta: Meta)
    ensures var r := ServeWrite(env, s, p, body, meta);
            && (!r.reply.Replied? ==> r.state.commits == s.commits)
            && (Clean(s) && r.reply.Replied? ==>
                  && |r.state.commits| == |s.commits| + 1
                  && forall q :: q != p ==> Lookup(Head(r.state), q) == Lookup(Head(s), q))
  {
    hide Transact, LoadAcl, MayWriteAll, Clean;
    var op := WriteOpOf(p, body);
    var r := Serve(env, s, [op], meta);
    if r.reply.Replied? {
      if Clean(s) { AnsweredWrite(env, s, op, meta); }
    } else if Transact(s, [op], meta).outcome.Raised? {
      RaisedKeepsHead(s, [op], meta);
    }
  }

  // ---- Where the two classifications differ ---------------------------------------------------------

  /** The bridge and the API agree on what is text except for skill files, which the bridge takes for binary. */
  lemma KindsDifferOnSkillsOnly(p: Path)
    ensures (TextForBridge(p) <==> IsText(p)) <==> KindOf(p) != Skill
  {
    LastCharacter(Render(p), ".skill");
    LastCharacter(Render(p), ".md");
  }

  /** So no PUT of a skill file is ever stored. */
  lemma SkillsCannotBePut(env: Env, s: State, p: Path, data: string, version: Option<Version>, user: Principal)
    requires KindOf(p) == Skill
    ensures !TextForBridge(p)
    ensures var r := ServeWrite(env, s, p, Multipart(Some(data), version), AutoMeta(user));
            r.state == s && !r.reply.Replied?
  {
    hide LoadAcl, MayWrite;
    KindsDifferOnSkillsOnly(p);
    OneOpLoop(s, WriteOpOf(p, Multipart(Some(data), version)));
  }
}
