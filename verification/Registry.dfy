/** The client registry on values: what one operation makes of the registry file. */
module Registry {
  import opened Base

  datatype ClientType = Bff | Orchestrator | AutonomousAgent

  /** SHA-256 of an API key, modelled as injective. */
  datatype KeyHash = Sha(raw: string)

  datatype SigningKey = SigningKey(kid: string, publicKey: string, active: bool, revokedAt: Option<string>)

  datatype Entry = Entry(clientId: string, typ: ClientType, keyHash: KeyHash, issuesUserTokens: bool,
                         signingKeys: seq<SigningKey>, fixedUserId: Option<string>, revoked: bool)

  datatype RegistryError = NotFound | Unauthorized | ValidationError

  datatype Result =
    | Failed(error: RegistryError)
    | Done
    | OneEntry(entry: Entry)
    | Entries(entries: seq<Entry>)
    | Created(entry: Entry, rawKey: string)
    | Rotated(rawKey: string)
    | Key(key: Option<SigningKey>)

  /** Whole operations; new random keys and the clock are parameters. */
  datatype Call =
    | VerifyApiKey(raw: string)
    | Get(id: string)
    | ListAll
    | ActiveSigningKey(id: string, kid: string)
    | CreateClient(id: string, typ: ClientType, issues: bool, fixedUserId: Option<string>, newKey: string)
    | UpdateClient(id: string, issuesUserTokens: Option<bool>)
    | RevokeClient(id: string)
    | RotateApiKey(id: string, newKey: string)
    | AddSigningKey(id: string, kid: string, publicKey: string)
    | RevokeSigningKey(id: string, kid: string, now: string)

  /** The JSON list in the file, `None` when there is no file. */
  type File = Option<seq<Entry>>

  function Items(file: File): seq<Entry> {
    if file.None? then [] else file.value
  }

  /** Position of a client in an insertion-ordered dictionary. */
  function Find(book: seq<Entry>, id: string): (r: Option<nat>)
    ensures r.Some? ==> r.value < |book| && book[r.value].clientId == id
    ensures r.None? ==> forall i :: 0 <= i < |book| ==> book[i].clientId != id
  {
    if book == [] then None
    else if book[0].clientId == id then Some(0)
    else
      match Find(book[1..], id)
      case None => None
      case Some(i) => Some(i + 1)
  }

  /** `d[e.client_id] = e`. */
  function Put(book: seq<Entry>, e: Entry): seq<Entry> {
    match Find(book, e.clientId)
    case None => book + [e]
    case Some(i) => book[i := e]
  }

  /** The two indexes `_reload` builds. */
  function LoadBook(items: seq<Entry>): seq<Entry> {
    if items == [] then [] else Put(LoadBook(items[..|items| - 1]), items[|items| - 1])
  }

  function LoadKeys(items: seq<Entry>): map<KeyHash, string> {
    if items == [] then map[]
    else
      var last := items[|items| - 1];
      LoadKeys(items[..|items| - 1])[last.keyHash := last.clientId]
  }

  function FirstActive(keys: seq<SigningKey>, kid: string): Option<SigningKey> {
    if keys == [] then None
    else if keys[0].kid == kid && keys[0].active && keys[0].revokedAt.None? then Some(keys[0])
    else FirstActive(keys[1..], kid)
  }

  function FindKid(keys: seq<SigningKey>, kid: string): (r: Option<nat>)
    ensures r.Some? ==> r.value < |keys| && keys[r.value].kid == kid
    ensures r.None? ==> forall i :: 0 <= i < |keys| ==> keys[i].kid != kid
  {
    if keys == [] then None
    else if keys[0].kid == kid then Some(0)
    else
      match FindKid(keys[1..], kid)
      case None => None
      case Some(i) => Some(i + 1)
  }

  predicate Truthy(s: Option<string>) { s.Some? && s.value != "" }

  datatype Reply = Reply(file: File, result: Result)

  function Verify(book: seq<Entry>, keys: map<KeyHash, string>, raw: string): Result {
    if Sha(raw) !in keys then Failed(Unauthorized)
    else
      match Find(book, keys[Sha(raw)])
      case None => Failed(NotFound)
      case Some(i) => if book[i].revoked then Failed(Unauthorized) else OneEntry(book[i])
  }

  function NewEntry(c: Call): Entry
    requires c.CreateClient?
  {
    Entry(c.id, c.typ, Sha(c.newKey), c.issues, [], c.fixedUserId, false)
  }

  function WithKeyRevoked(e: Entry, k: nat, now: string): Entry
    requires k < |e.signingKeys|
  {
    e.(signingKeys := e.signingKeys[k := e.signingKeys[k].(active := false, revokedAt := Some(now))])
  }

  /** An operation on one client that is there: its new entry (`None`: nothing is saved) and the result. */
  datatype Edited = Edited(entry: Option<Entry>, result: Result)

  function OnEntry(e: Entry, c: Call): Edited {
    match c
    case Get(_) => Edited(None, OneEntry(e))
    case ActiveSigningKey(_, kid) => Edited(None, Key(FirstActive(e.signingKeys, kid)))
    case UpdateClient(_, issues) =>
      var e' := if issues.Some? then e.(issuesUserTokens := issues.value) else e;
      Edited(Some(e'), OneEntry(e'))
    case RevokeClient(_) => Edited(Some(e.(revoked := true)), Done)
    case RotateApiKey(_, newKey) => Edited(Some(e.(keyHash := Sha(newKey))), Rotated(newKey))
    case AddSigningKey(_, kid, publicKey) =>
      if FindKid(e.signingKeys, kid).Some? then Edited(None, Failed(ValidationError))
      else
        var key := SigningKey(kid, publicKey, true, None);
        Edited(Some(e.(signingKeys := e.signingKeys + [key])), Key(Some(key)))
    case RevokeSigningKey(_, kid, now) =>
      (match FindKid(e.signingKeys, kid)
       case None => Edited(None, Failed(NotFound))
       case Some(k) => Edited(Some(WithKeyRevoked(e, k, now)), Done))
    case _ => Edited(None, Done)
  }

  function IdOf(c: Call): string {
    match c
    case VerifyApiKey(_) => ""
    case ListAll => ""
    case _ => c.id
  }

  /** One whole operation: reload, act, save. */
  function Answer(file: File, c: Call): Reply {
    var book := LoadBook(Items(file));
    match c
    case VerifyApiKey(raw) => Reply(file, Verify(book, LoadKeys(Items(file)), raw))
    case ListAll => Reply(file, Entries(book))
    case CreateClient(id, typ, _, fixed, newKey) =>
      if Find(book, id).Some? then Reply(file, Failed(ValidationError))
      else if typ.AutonomousAgent? != Truthy(fixed) then Reply(file, Failed(ValidationError))
      else Reply(Some(book + [NewEntry(c)]), Created(NewEntry(c), newKey))
    case _ =>
      match Find(book, IdOf(c))
      case None => Reply(file, Failed(NotFound))
      case Some(i) =>
        var edited := OnEntry(book[i], c);
        Reply(if edited.entry.None? then file else Some(book[i := edited.entry.value]), edited.result)
  }

  /** The file after a run of operations. */
  function After(file: File, calls: seq<Call>): File {
    if calls == [] then file else Answer(After(file, calls[..|calls| - 1]), calls[|calls| - 1]).file
  }

  /** The results of a run of operations. */
  function Results(file: File, calls: seq<Call>): seq<Result> {
    if calls == [] then []
    else
      var front := calls[..|calls| - 1];
      Results(file, front) + [Answer(After(file, front), calls[|calls| - 1]).result]
  }

  // ---- What every operation keeps ----------------------------------------------------------

  ghost predicate EntryOk(e: Entry) {
    && (e.typ.AutonomousAgent? <==> Truthy(e.fixedUserId))
    && forall i, j :: 0 <= i < j < |e.signingKeys| ==> e.signingKeys[i].kid != e.signingKeys[j].kid
  }

  /** One entry per client, one client per key, kids unique per client, a fixed user exactly for autonomous agents. */
  ghost predicate FileOk(items: seq<Entry>) {
    && (forall i, j :: 0 <= i < j < |items| ==>
          items[i].clientId != items[j].clientId && items[i].keyHash != items[j].keyHash)
    && forall i :: 0 <= i < |items| ==> EntryOk(items[i])
  }

  predicate Issues(c: Call, raw: string) {
    (c.CreateClient? || c.RotateApiKey?) && c.newKey == raw
  }

  ghost predicate KeyInUse(items: seq<Entry>, raw: string) {
    exists i :: 0 <= i < |items| && items[i].keyHash == Sha(raw)
  }

  /** The random key of this operation is nobody's key. */
  ghost predicate FreshKey(items: seq<Entry>, c: Call) {
    c.CreateClient? || c.RotateApiKey? ==> !KeyInUse(items, c.newKey)
  }

  lemma {:induction false} LoadBookIsIdentity(items: seq<Entry>)
    requires FileOk(items)
    ensures LoadBook(items) == items
  {
    if items != [] {
      var front, last := items[..|items| - 1], items[|items| - 1];
      LoadBookIsIdentity(front);
      assert items == front + [last];
    }
  }

  lemma OnEntryKeeps(e: Entry, c: Call)
    requires EntryOk(e)
    ensures var r := OnEntry(e, c).entry;
            r.Some? ==> EntryOk(r.value) && r.value.clientId == e.clientId &&
                        (r.value.keyHash == e.keyHash || (c.RotateApiKey? && r.value.keyHash == Sha(c.newKey)))
  {
    if c.AddSigningKey? && FindKid(e.signingKeys, c.kid).None? {
      assert forall i :: 0 <= i < |e.signingKeys| ==> e.signingKeys[i].kid != c.kid;
    }
  }

  predicate OnOneClient(c: Call) { !c.VerifyApiKey? && !c.ListAll? && !c.CreateClient? }

  /** The entry at position i was replaced by what the operation makes of it. */
  ghost predicate Replaced(items: seq<Entry>, c: Call, after: seq<Entry>, i: nat) {
    i < |items| && OnOneClient(c) && OnEntry(items[i], c).entry.Some?
        && after == items[i := OnEntry(items[i], c).entry.value]
  }

  ghost predicate Appended(items: seq<Entry>, c: Call, after: seq<Entry>) {
    && c.CreateClient? && after == items + [NewEntry(c)] && (c.typ.AutonomousAgent? <==> Truthy(c.fixedUserId))
    && forall i :: 0 <= i < |items| ==> items[i].clientId != c.id
  }

  /** An operation leaves the file alone, appends one client or replaces one entry. */
  lemma AnswerChangesOneEntry(file: File, c: Call)
    requires FileOk(Items(file))
    ensures var items, after := Items(file), Items(Answer(file, c).file);
            after == items || Appended(items, c, after) || exists i: nat :: Replaced(items, c, after, i)
  {
    hide OnEntry, EntryOk;
    var items := Items(file);
    LoadBookIsIdentity(items);
    var after := Items(Answer(file, c).file);
    if OnOneClient(c) && Find(items, IdOf(c)).Some? {
      var i := Find(items, IdOf(c)).value;
      assert after == items || Replaced(items, c, after, i);
    }
  }

  /** Every operation with a fresh key keeps the file in order. */
  lemma AnswerKeepsFileOk(file: File, c: Call)
    requires FileOk(Items(file)) && FreshKey(Items(file), c)
    ensures FileOk(Items(Answer(file, c).file))
  {
    hide Answer, OnEntry, EntryOk;
    AnswerChangesOneEntry(file, c);
    var items, after := Items(file), Items(Answer(file, c).file);
    if Appended(items, c, after) {
      NewEntryIsOk(c);
    } else if after != items {
      var i: nat :| Replaced(items, c, after, i);
      OnEntryKeeps(items[i], c);
    }
  }

  lemma NewEntryIsOk(c: Call)
    requires c.CreateClient? && (c.typ.AutonomousAgent? <==> Truthy(c.fixedUserId))
    ensures EntryOk(NewEntry(c))
  {}

  /** No key is handed out twice, nor one already in the file. */
  ghost predicate FreshRun(file: File, calls: seq<Call>) {
    forall k :: 0 <= k < |calls| ==> FreshKey(Items(After(file, calls[..k])), calls[k])
  }

  lemma AfterSnoc(file: File, calls: seq<Call>)
    requires calls != []
    ensures var front := calls[..|calls| - 1];
            && After(file, calls) == Answer(After(file, front), calls[|calls| - 1]).file
            && (FreshRun(file, calls) ==>
                  FreshRun(file, front) && FreshKey(Items(After(file, front)), calls[|calls| - 1]))
  {
    var front := calls[..|calls| - 1];
    if FreshRun(file, calls) {
      forall k | 0 <= k < |front| ensures FreshKey(Items(After(file, front[..k])), front[k]) {
        assert front[..k] == calls[..k] && front[k] == calls[k];
        assert FreshKey(Items(After(file, calls[..k])), calls[k]);
      }
      assert FreshKey(Items(After(file, calls[..|calls| - 1])), calls[|calls| - 1]);
    }
  }

  lemma {:induction false} RunKeepsFileOk(file: File, calls: seq<Call>)
    requires FileOk(Items(file)) && FreshRun(file, calls)
    ensures FileOk(Items(After(file, calls)))
  {
    if calls != [] {
      AfterSnoc(file, calls);
      RunKeepsFileOk(file, calls[..|calls| - 1]);
      AnswerKeepsFileOk(After(file, calls[..|calls| - 1]), calls[|calls| - 1]);
    }
  }

  /** An operation on the client at position i replaces that entry or nothing. */
  lemma AnswerOnEntry(file: File, c: Call, i: nat)
    requires FileOk(Items(file)) && OnOneClient(c) && i < |Items(file)| && Items(file)[i].clientId == IdOf(c)
    ensures var edited := OnEntry(Items(file)[i], c);
            Answer(file, c) == Reply(if edited.entry.None? then file
                else Some(Items(file)[i := edited.entry.value]), edited.result)
  {
    hide OnEntry, EntryOk;
    LoadBookIsIdentity(Items(file));
    assert Find(Items(file), IdOf(c)) == Some(i);
  }

  // ---- Verification -----------------------------------------------------------------------

  lemma {:induction false} KeysOf(items: seq<Entry>, h: KeyHash)
    requires FileOk(items)
    ensures h in LoadKeys(items) <==> exists i :: 0 <= i < |items| && items[i].keyHash == h
    ensures forall i :: 0 <= i < |items| && items[i].keyHash == h ==>
              h in LoadKeys(items) && LoadKeys(items)[h] == items[i].clientId
  {
    if items != [] {
      var front, last := items[..|items| - 1], items[|items| - 1];
      KeysOf(front, h);
      if h in LoadKeys(front) {
        var i :| 0 <= i < |front| && front[i].keyHash == h;
        assert items[i].keyHash == h;
      }
      if last.keyHash == h { assert items[|items| - 1].keyHash == h; }
      forall i | 0 <= i < |items| && items[i].keyHash == h
        ensures h in LoadKeys(items) && LoadKeys(items)[h] == items[i].clientId
      {
        if i < |front| { assert front[i].keyHash == h; }
      }
    }
  }

  /** A key verifies exactly as the unrevoked client whose hash it has. */
  lemma VerifyIsExact(file: File, raw: string, e: Entry)
    requires FileOk(Items(file))
    ensures Answer(file, VerifyApiKey(raw)).result == OneEntry(e) <==>
            e in Items(file) && e.keyHash == Sha(raw) && !e.revoked
  {
    hide EntryOk, LoadKeys, LoadBook;
    var items := Items(file);
    LoadBookIsIdentity(items);
    KeysOf(items, Sha(raw));
    if e in items && e.keyHash == Sha(raw) {
      var k :| 0 <= k < |items| && items[k] == e;
      FoundAt(items, k);
    } else if Sha(raw) in LoadKeys(items) {
      var i :| 0 <= i < |items| && items[i].keyHash == Sha(raw);
      FoundAt(items, i);
    }
  }

  /** Distinct client ids: an entry is found by its own. */
  lemma FoundAt(items: seq<Entry>, i: nat)
    requires FileOk(items) && i < |items|
    ensures Find(items, items[i].clientId) == Some(i)
  {
    hide EntryOk;
    var r := Find(items, items[i].clientId);
  }

  // ---- Permanence ---------------------------------------------------------------------------

  ghost predicate Revoked(items: seq<Entry>, id: string) {
    exists i :: 0 <= i < |items| && items[i].clientId == id && items[i].revoked
  }

  lemma OnEntryKeepsRevoked(e: Entry, c: Call)
    requires e.revoked && OnEntry(e, c).entry.Some?
    ensures OnEntry(e, c).entry.value.revoked && OnEntry(e, c).entry.value.clientId == e.clientId
  {}

  lemma AnswerKeepsRevoked(file: File, c: Call, id: string)
    requires FileOk(Items(file)) && Revoked(Items(file), id)
    ensures Revoked(Items(Answer(file, c).file), id)
  {
    hide Answer, OnEntry, FileOk;
    AnswerChangesOneEntry(file, c);
    var items, after := Items(file), Items(Answer(file, c).file);
    var k :| 0 <= k < |items| && items[k].clientId == id && items[k].revoked;
    if after != items && !Appended(items, c, after) {
      var i: nat :| Replaced(items, c, after, i);
      if i == k { OnEntryKeepsRevoked(items[k], c); }
    }
    assert after[k].clientId == id && after[k].revoked;
  }

  lemma {:induction false} RevokedStaysRevoked(file: File, calls: seq<Call>, id: string)
    requires FileOk(Items(file)) && FreshRun(file, calls) && Revoked(Items(file), id)
    ensures Revoked(Items(After(file, calls)), id)
  {
    if calls != [] {
      AfterSnoc(file, calls);
      var front := calls[..|calls| - 1];
      RevokedStaysRevoked(file, front, id);
      RunKeepsFileOk(file, front);
      AnswerKeepsRevoked(After(file, front), calls[|calls| - 1], id);
    }
  }

  /** A revoked client never verifies again, whatever happens to the registry. */
  lemma RevocationIsPermanent(file: File, calls: seq<Call>, id: string, raw: string)
    requires FileOk(Items(file)) && FreshRun(file, calls)
    requires Revoked(Items(file), id)
    ensures var r := Answer(After(file, calls), VerifyApiKey(raw)).result;
            r.OneEntry? ==> r.entry.clientId != id
  {
    RevokedStaysRevoked(file, calls, id);
    RunKeepsFileOk(file, calls);
    var now := After(file, calls);
    var r := Answer(now, VerifyApiKey(raw)).result;
    if r.OneEntry? {
      VerifyIsExact(now, raw, r.entry);
      var k :| 0 <= k < |Items(now)| && Items(now)[k] == r.entry;
      var i :| 0 <= i < |Items(now)| && Items(now)[i].clientId == id && Items(now)[i].revoked;
      assert i != k;
    }
  }

  lemma RevokeRevokes(file: File, id: string)
    requires FileOk(Items(file)) && Find(Items(file), id).Some?
    ensures Revoked(Items(Answer(file, RevokeClient(id)).file), id)
  {
    LoadBookIsIdentity(Items(file));
    var i := Find(Items(file), id).value;
    assert Items(Answer(file, RevokeClient(id)).file)[i].revoked;
  }

  lemma AnswerKeepsKeyUnused(file: File, c: Call, raw: string)
    requires FileOk(Items(file)) && !KeyInUse(Items(file), raw) && !Issues(c, raw)
    ensures !KeyInUse(Items(Answer(file, c).file), raw)
  {
    hide Answer, OnEntry, EntryOk;
    AnswerChangesOneEntry(file, c);
    var items, after := Items(file), Items(Answer(file, c).file);
    if after != items && !Appended(items, c, after) {
      var i: nat :| Replaced(items, c, after, i);
      OnEntryKeepsHash(items[i], c);
    }
  }

  lemma OnEntryKeepsHash(e: Entry, c: Call)
    requires OnEntry(e, c).entry.Some?
    ensures OnEntry(e, c).entry.value.keyHash == if c.RotateApiKey? then Sha(c.newKey) else e.keyHash
  {}

  lemma {:induction false} UnusedKeyStaysUnused(file: File, calls: seq<Call>, raw: string)
    requires FileOk(Items(file)) && FreshRun(file, calls) && !KeyInUse(Items(file), raw)
    requires forall k :: 0 <= k < |calls| ==> !Issues(calls[k], raw)
    ensures !KeyInUse(Items(After(file, calls)), raw)
  {
    if calls != [] {
      AfterSnoc(file, calls);
      var front := calls[..|calls| - 1];
      UnusedKeyStaysUnused(file, front, raw);
      RunKeepsFileOk(file, front);
      AnswerKeepsKeyUnused(After(file, front), calls[|calls| - 1], raw);
    }
  }

  /** A key that was rotated out never verifies again. */
  lemma RotationIsPermanent(file: File, id: string, newKey: string, calls: seq<Call>, old_: string)
    requires FileOk(Items(file)) && FreshKey(Items(file), RotateApiKey(id, newKey))
    requires exists i :: 0 <= i < |Items(file)| && Items(file)[i].clientId == id && Items(file)[i].keyHash == Sha(old_)
    requires var rotated := Answer(file, RotateApiKey(id, newKey)).file; FreshRun(rotated, calls)
    requires forall k :: 0 <= k < |calls| ==> !Issues(calls[k], old_)
    ensures var rotated := Answer(file, RotateApiKey(id, newKey)).file;
            Answer(After(rotated, calls), VerifyApiKey(old_)).result == Failed(Unauthorized)
  {
    var items := Items(file);
    LoadBookIsIdentity(items);
    var rotated := Answer(file, RotateApiKey(id, newKey)).file;
    RotateRetiresTheKey(file, id, newKey, old_);
    AnswerKeepsFileOk(file, RotateApiKey(id, newKey));
    UnusedKeyStaysUnused(rotated, calls, old_);
    RunKeepsFileOk(rotated, calls);
    KeysOf(Items(After(rotated, calls)), Sha(old_));
  }

  lemma RotateRetiresTheKey(file: File, id: string, newKey: string, old_: string)
    requires FileOk(Items(file)) && FreshKey(Items(file), RotateApiKey(id, newKey))
    requires exists i :: 0 <= i < |Items(file)| && Items(file)[i].clientId == id && Items(file)[i].keyHash == Sha(old_)
    ensures !KeyInUse(Items(Answer(file, RotateApiKey(id, newKey)).file), old_)
  {
    hide Answer, LoadBook, EntryOk;
    var items := Items(file);
    var i :| 0 <= i < |items| && items[i].clientId == id && items[i].keyHash == Sha(old_);
    AnswerOnEntry(file, RotateApiKey(id, newKey), i);
    assert KeyInUse(items, old_);
    assert newKey != old_;
  }

  /** The client has this kid and it is not active any more. */
  ghost predicate KidDead(items: seq<Entry>, id: string, kid: string) {
    exists i, k :: 0 <= i < |items| && 0 <= k < |items[i].signingKeys| && DeadAt(items[i], id, k, kid)
  }

  predicate DeadAt(e: Entry, id: string, k: nat, kid: string)
    requires k < |e.signingKeys|
  {
    e.clientId == id && e.signingKeys[k].kid == kid && (!e.signingKeys[k].active || e.signingKeys[k].revokedAt.Some?)
  }

  lemma RevokeKillsTheKid(file: File, id: string, kid: string, now: string)
    requires FileOk(Items(file)) && Answer(file, RevokeSigningKey(id, kid, now)).result == Done
    ensures KidDead(Items(Answer(file, RevokeSigningKey(id, kid, now)).file), id, kid)
  {
    var items := Items(file);
    LoadBookIsIdentity(items);
    var i := Find(items, id).value;
    var k := FindKid(items[i].signingKeys, kid).value;
    var after := Items(Answer(file, RevokeSigningKey(id, kid, now)).file);
    assert after[i] == WithKeyRevoked(items[i], k, now);
    assert DeadAt(after[i], id, k, kid);
  }

  lemma OnEntryKeepsDead(e: Entry, c: Call, id: string, k: nat, kid: string)
    requires k < |e.signingKeys| && DeadAt(e, id, k, kid)
    ensures var r := OnEntry(e, c).entry; r.Some? ==> k < |r.value.signingKeys| && DeadAt(r.value, id, k, kid)
  {}

  lemma AnswerKeepsDead(file: File, c: Call, id: string, kid: string)
    requires FileOk(Items(file)) && KidDead(Items(file), id, kid)
    ensures KidDead(Items(Answer(file, c).file), id, kid)
  {
    hide Answer, OnEntry, FileOk;
    AnswerChangesOneEntry(file, c);
    var items, after := Items(file), Items(Answer(file, c).file);
    var j, k :| 0 <= j < |items| && 0 <= k < |items[j].signingKeys| && DeadAt(items[j], id, k, kid);
    if after != items && !Appended(items, c, after) {
      var i: nat :| Replaced(items, c, after, i);
      if i == j { OnEntryKeepsDead(items[j], c, id, k, kid); }
    }
    assert k < |after[j].signingKeys| && DeadAt(after[j], id, k, kid);
  }

  lemma {:induction false} DeadStaysDead(file: File, calls: seq<Call>, id: string, kid: string)
    requires FileOk(Items(file)) && FreshRun(file, calls) && KidDead(Items(file), id, kid)
    ensures KidDead(Items(After(file, calls)), id, kid)
  {
    if calls != [] {
      AfterSnoc(file, calls);
      var front := calls[..|calls| - 1];
      DeadStaysDead(file, front, id, kid);
      RunKeepsFileOk(file, front);
      AnswerKeepsDead(After(file, front), calls[|calls| - 1], id, kid);
    }
  }

  lemma {:induction false} FirstActiveIsActive(keys: seq<SigningKey>, kid: string)
    ensures var r := FirstActive(keys, kid);
            r.Some? ==> r.value in keys && r.value.kid == kid && r.value.active && r.value.revokedAt.None?
  {
    if keys != [] { FirstActiveIsActive(keys[1..], kid); }
  }

  lemma {:induction false} FirstActiveFinds(keys: seq<SigningKey>, key: SigningKey)
    requires key in keys && key.active && key.revokedAt.None?
    requires forall i, j :: 0 <= i < j < |keys| ==> keys[i].kid != keys[j].kid
    ensures FirstActive(keys, key.kid) == Some(key)
  {
    if keys[0] != key {
      var k :| 0 <= k < |keys| && keys[k] == key;
      assert keys[0].kid != key.kid && key == keys[1..][k - 1];
      FirstActiveFinds(keys[1..], key);
    }
  }

  /** A revoked signing key is never active again, and its kid cannot be taken by a new key. */
  lemma KidRevocationIsPermanent(file: File, calls: seq<Call>, id: string, kid: string)
    requires FileOk(Items(file)) && FreshRun(file, calls) && KidDead(Items(file), id, kid)
    ensures Answer(After(file, calls), ActiveSigningKey(id, kid)).result == Key(None)
  {
    DeadStaysDead(file, calls, id, kid);
    RunKeepsFileOk(file, calls);
    hide Answer, LoadBook, After;
    var items := Items(After(file, calls));
    var i, k :| 0 <= i < |items| && 0 <= k < |items[i].signingKeys| && DeadAt(items[i], id, k, kid);
    AnswerOnEntry(After(file, calls), ActiveSigningKey(id, kid), i);
    DeadKidIsNotFound(items[i], id, k, kid);
  }

  lemma DeadKidIsNotFound(e: Entry, id: string, k: nat, kid: string)
    requires EntryOk(e) && k < |e.signingKeys| && DeadAt(e, id, k, kid)
    ensures FirstActive(e.signingKeys, kid) == None
  {
    FirstActiveIsActive(e.signingKeys, kid);
    var r := FirstActive(e.signingKeys, kid);
    if r.Some? {
      var j :| 0 <= j < |e.signingKeys| && e.signingKeys[j] == r.value;
    }
  }
}
