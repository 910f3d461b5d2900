/** Laws between registry operations: what each one makes the later ones answer. */
module Clients {
  import opened Base
  import opened Registry

  /** What `Get` answers about one client. */
  function Shown(file: File, id: string): Result {
    Answer(file, Get(id)).result
  }

  lemma FindIsExact(items: seq<Entry>, e: Entry)
    requires FileOk(items)
    ensures e in items <==> Find(items, e.clientId).Some? && items[Find(items, e.clientId).value] == e
  {
    hide EntryOk;
    if e in items {
      var k :| 0 <= k < |items| && items[k] == e;
      FoundAt(items, k);
    }
  }

  /** `get` returns exactly the entries of the file, `list_all` all of them in order; neither changes the file. */
  lemma ReadsShowTheFile(file: File, id: string, e: Entry)
    requires FileOk(Items(file))
    ensures Shown(file, id) == OneEntry(e) <==> e in Items(file) && e.clientId == id
    ensures Shown(file, id) == Failed(NotFound) <==> forall x :: x in Items(file) ==> x.clientId != id
    ensures Answer(file, ListAll) == Reply(file, Entries(Items(file))) && Answer(file, Get(id)).file == file
  {
    hide EntryOk, FileOk;
    LoadBookIsIdentity(Items(file));
    FindIsExact(Items(file), e);
    var r := Find(Items(file), id);
    if r.Some? {
      assert Items(file)[r.value] in Items(file);
    } else {
      forall x | x in Items(file) ensures x.clientId != id {
        var k :| 0 <= k < |Items(file)| && Items(file)[k] == x;
      }
    }
  }

  /** The last entry of the file with this id. */
  ghost predicate IsLast(items: seq<Entry>, id: string, e: Entry) {
    exists k :: LastAt(items, id, e, k)
  }

  ghost predicate LastAt(items: seq<Entry>, id: string, e: Entry, k: int) {
    0 <= k < |items| && items[k] == e && e.clientId == id && forall j :: k < j < |items| ==> items[j].clientId != id
  }

  /** Whatever the file holds: of several entries with one id the last one counts. */
  lemma LastEntryCounts(items: seq<Entry>, id: string, e: Entry)
    ensures Shown(Some(items), id) == OneEntry(e) <==> IsLast(items, id, e)
  {
    hide IsLast, LoadBook, Find;
    BookHasLast(items, id, e);
  }

  ghost predicate Holds(book: seq<Entry>, id: string, e: Entry) {
    Find(book, id).Some? && book[Find(book, id).value] == e
  }

  lemma {:induction false} BookHasLast(items: seq<Entry>, id: string, e: Entry)
    ensures Holds(LoadBook(items), id, e) <==> IsLast(items, id, e)
  {
    hide Holds, Put, IsLast;
    if items == [] {
      NothingHeld(id, e);
    } else {
      var front, last := items[..|items| - 1], items[|items| - 1];
      BookHasLast(front, id, e);
      PutHolds(LoadBook(front), last, id, e);
      LastSnoc(front, last, id, e);
      assert items == front + [last];
    }
  }

  lemma NothingHeld(id: string, e: Entry)
    ensures !Holds([], id, e) && !IsLast([], id, e)
  {}

  lemma LastSnoc(front: seq<Entry>, last: Entry, id: string, e: Entry)
    ensures IsLast(front + [last], id, e) <==> if last.clientId == id then e == last else IsLast(front, id, e)
  {
    var items := front + [last];
    assert items[|front|] == last && forall j :: 0 <= j < |front| ==> items[j] == front[j];
    if last.clientId != id && IsLast(front, id, e) {
      var k :| LastAt(front, id, e, k);
      assert LastAt(items, id, e, k);
    }
    if last.clientId != id && IsLast(items, id, e) {
      var k :| LastAt(items, id, e, k);
      assert LastAt(front, id, e, k);
    }
    if last.clientId == id && e == last { assert LastAt(items, id, e, |front|); }
  }

  lemma {:induction false} PutHolds(book: seq<Entry>, x: Entry, id: string, e: Entry)
    ensures Holds(Put(book, x), id, e) <==> if x.clientId == id then e == x else Holds(book, id, e)
  {
    if book == [] {
      assert [] + [x] == [x];
    } else if book[0].clientId == x.clientId {
      assert book[0 := x][1..] == book[1..];
    } else {
      PutHolds(book[1..], x, id, e);
      assert Put(book, x)[1..] == Put(book[1..], x) && Put(book, x)[0] == book[0];
    }
  }

  /** A run of operations is answered one by one, each on the file the ones before it left. */
  lemma {:induction false} ResultsAreAnswers(file: File, calls: seq<Call>, k: nat)
    requires k < |calls|
    ensures |Results(file, calls)| == |calls|
    ensures Results(file, calls)[k] == Answer(After(file, calls[..k]), calls[k]).result
    decreases |calls|
  {
    hide Answer;
    var front := calls[..|calls| - 1];
    if k < |front| {
      ResultsAreAnswers(file, front, k);
      assert front[..k] == calls[..k];
    } else if front != [] {
      ResultsAreAnswers(file, front, 0);
    }
  }

  // ---- Creation ------------------------------------------------------------------------------------

  lemma CreateIsExact(file: File, id: string, typ: ClientType, issues: bool, fixedUserId: Option<string>,
                      newKey: string)
    requires FileOk(Items(file))
    ensures var r := Answer(file, CreateClient(id, typ, issues, fixedUserId, newKey));
            var e := Entry(id, typ, Sha(newKey), issues, [], fixedUserId, false);
            if (exists x :: x in Items(file) && x.clientId == id)
               || (typ.AutonomousAgent? <==> fixedUserId == None || fixedUserId == Some(""))
            then r == Reply(file, Failed(ValidationError))
            else r == Reply(Some(Items(file) + [e]), Created(e, newKey))
  {
    hide EntryOk, FileOk;
    LoadBookIsIdentity(Items(file));
    FoundIff(Items(file), id);
  }

  lemma FoundIff(items: seq<Entry>, id: string)
    ensures Find(items, id).Some? <==> exists x :: x in items && x.clientId == id
  {
    var r := Find(items, id);
    if r.Some? { assert items[r.value] in items; }
    forall x | x in items && x.clientId == id ensures r.Some? {
      var k :| 0 <= k < |items| && items[k] == x;
    }
  }

  /**
   * A client is created exactly with an id nobody has and a fixed user exactly for autonomous agents. The key
   * handed out verifies as the client asked for, unrevoked and without signing keys.
   */
  lemma CreatedKeysVerify(file: File, id: string, typ: ClientType, issues: bool, fixedUserId: Option<string>,
                          newKey: string)
    requires FileOk(Items(file)) && !KeyInUse(Items(file), newKey)
    ensures var r := Answer(file, CreateClient(id, typ, issues, fixedUserId, newKey));
            var e := Entry(id, typ, Sha(newKey), issues, [], fixedUserId, false);
            if Shown(file, id).OneEntry? || (typ.AutonomousAgent? <==> fixedUserId == None || fixedUserId == Some(""))
            then r == Reply(file, Failed(ValidationError))
            else && r.result == Created(e, newKey)
                 && Answer(r.file, VerifyApiKey(newKey)).result == OneEntry(e)
                 && Shown(r.file, id) == OneEntry(e)
  {
    hide EntryOk, FileOk, Answer;
    var c := CreateClient(id, typ, issues, fixedUserId, newKey);
    var e := Entry(id, typ, Sha(newKey), issues, [], fixedUserId, false);
    CreateIsExact(file, id, typ, issues, fixedUserId, newKey);
    ShownOrNot(file, id);
    AnswerKeepsFileOk(file, c);
    var after := Answer(file, c).file;
    VerifyIsExact(after, newKey, e);
    ReadsShowTheFile(after, id, e);
  }

  lemma ShownOrNot(file: File, id: string)
    requires FileOk(Items(file))
    ensures Shown(file, id).OneEntry? <==> exists x :: x in Items(file) && x.clientId == id
  {
    hide EntryOk, FileOk, Answer;
    if exists x :: x in Items(file) && x.clientId == id {
      var x :| x in Items(file) && x.clientId == id;
      ReadsShowTheFile(file, id, x);
    } else if Shown(file, id).OneEntry? {
      ReadsShowTheFile(file, id, Shown(file, id).entry);
    }
  }

  // ---- Changes of one client ---------------------------------------------------------------------------

  /** The operation replaces this client's entry by `after` and answers `result`; every other client is untouched. */
  ghost predicate Changes(file: File, c: Call, before: Entry, after: Entry, result: Result) {
    && Answer(file, c).result == result
    && Shown(Answer(file, c).file, before.clientId) == OneEntry(after)
    && forall id :: id != before.clientId ==> Shown(Answer(file, c).file, id) == Shown(file, id)
  }

  lemma ReplacingShows(file: File, i: nat, e: Entry, id: string)
    requires FileOk(Items(file)) && i < |Items(file)| && e.clientId == Items(file)[i].clientId
    requires FileOk(Items(file)[i := e])
    ensures Shown(Some(Items(file)[i := e]), id) == if id == e.clientId then OneEntry(e) else Shown(file, id)
  {
    hide EntryOk, FileOk, Answer;
    var items, after := Items(file), Items(file)[i := e];
    if id == e.clientId {
      assert after[i] in after;
      ReadsShowTheFile(Some(after), id, e);
    } else {
      ShownOrNot(file, id);
      ShownOrNot(Some(after), id);
      OtherShows(file, i, e, id);
    }
  }

  lemma OtherShows(file: File, i: nat, e: Entry, id: string)
    requires FileOk(Items(file)) && i < |Items(file)| && e.clientId == Items(file)[i].clientId && id != e.clientId
    requires FileOk(Items(file)[i := e])
    ensures Shown(Some(Items(file)[i := e]), id) == Shown(file, id)
  {
    hide EntryOk, FileOk, Answer;
    var items, after := Items(file), Items(file)[i := e];
    forall x: Entry | x.clientId == id ensures x in items <==> x in after {
      if x in items { var k :| 0 <= k < |items| && items[k] == x; assert after[k] == x; }
      if x in after { var k :| 0 <= k < |after| && after[k] == x; assert items[k] == x; }
    }
    if exists x :: x in items && x.clientId == id {
      var x :| x in items && x.clientId == id;
      ReadsShowTheFile(file, id, x);
      ReadsShowTheFile(Some(after), id, x);
    } else {
      ReadsShowTheFile(file, id, e);
      ReadsShowTheFile(Some(after), id, e);
    }
  }

  lemma ChangeByEntry(file: File, c: Call, e: Entry)
    requires FileOk(Items(file)) && FreshKey(Items(file), c) && OnOneClient(c)
    requires e in Items(file) && IdOf(c) == e.clientId
    requires OnEntry(e, c).entry.Some?
    ensures Changes(file, c, e, OnEntry(e, c).entry.value, OnEntry(e, c).result)
  {
    hide EntryOk, FileOk, Answer, OnEntry, IdOf;
    var i :| 0 <= i < |Items(file)| && Items(file)[i] == e;
    AnswerOnEntry(file, c, i);
    AnswerKeepsFileOk(file, c);
    EntryKeepsId(e, c);
    forall id ensures Shown(Answer(file, c).file, id) ==
                      if id == e.clientId then OneEntry(OnEntry(e, c).entry.value) else Shown(file, id) {
      ReplacingShows(file, i, OnEntry(e, c).entry.value, id);
    }
  }

  lemma EntryKeepsId(e: Entry, c: Call)
    ensures OnEntry(e, c).entry.Some? ==> OnEntry(e, c).entry.value.clientId == e.clientId
  {}

  /** The flag asked for, and nothing else; without one nothing at all. */
  lemma UpdateSetsTheFlag(file: File, e: Entry, issues: Option<bool>)
    requires FileOk(Items(file)) && e in Items(file)
    ensures var after := if issues == None then e else e.(issuesUserTokens := issues.value);
            Changes(file, UpdateClient(e.clientId, issues), e, after, OneEntry(after))
  {
    ChangeByEntry(file, UpdateClient(e.clientId, issues), e);
  }

  lemma RevokeMarksTheClient(file: File, e: Entry)
    requires FileOk(Items(file)) && e in Items(file)
    ensures Changes(file, RevokeClient(e.clientId), e, e.(revoked := true), Done)
  {
    ChangeByEntry(file, RevokeClient(e.clientId), e);
  }

  /** The key handed out verifies as the same client with its other fields unchanged, unless it is revoked. */
  lemma RotatedKeysVerify(file: File, e: Entry, newKey: string)
    requires FileOk(Items(file)) && e in Items(file) && !KeyInUse(Items(file), newKey)
    ensures var c, after := RotateApiKey(e.clientId, newKey), e.(keyHash := Sha(newKey));
            && Changes(file, c, e, after, Rotated(newKey))
            && Answer(Answer(file, c).file, VerifyApiKey(newKey)).result
               == if e.revoked then Failed(Unauthorized) else OneEntry(after)
  {
    hide Answer, EntryOk, FileOk;
    var c, after := RotateApiKey(e.clientId, newKey), e.(keyHash := Sha(newKey));
    ChangeByEntry(file, c, e);
    AnswerKeepsFileOk(file, c);
    var now := Answer(file, c).file;
    ReadsShowTheFile(now, e.clientId, after);
    VerifyIsExact(now, newKey, after);
    if e.revoked { RevokedKeyFails(now, after, newKey); }
  }

  lemma RevokedKeyFails(file: File, e: Entry, raw: string)
    requires FileOk(Items(file)) && e in Items(file) && e.revoked && e.keyHash == Sha(raw)
    ensures Answer(file, VerifyApiKey(raw)).result == Failed(Unauthorized)
  {
    hide EntryOk, LoadKeys;
    var items := Items(file);
    LoadBookIsIdentity(items);
    KeysOf(items, Sha(raw));
    var k :| 0 <= k < |items| && items[k] == e;
    FoundAt(items, k);
  }

  /** A key nobody has is refused. */
  lemma UnknownKeysFail(file: File, raw: string)
    requires FileOk(Items(file)) && !KeyInUse(Items(file), raw)
    ensures Answer(file, VerifyApiKey(raw)).result == Failed(Unauthorized)
  {
    KeysOf(Items(file), Sha(raw));
  }

  // ---- Signing keys -------------------------------------------------------------------------------------

  predicate HasKid(e: Entry, kid: string) {
    exists k :: 0 <= k < |e.signingKeys| && e.signingKeys[k].kid == kid
  }

  /** A new kid gives an active key with the public key given, which is found; a kid the client has is refused. */
  lemma AddedKeysAreActive(file: File, e: Entry, kid: string, publicKey: string)
    requires FileOk(Items(file)) && e in Items(file)
    ensures var c, key := AddSigningKey(e.clientId, kid, publicKey), SigningKey(kid, publicKey, true, None);
            if HasKid(e, kid) then Answer(file, c) == Reply(file, Failed(ValidationError))
            else && Changes(file, c, e, e.(signingKeys := e.signingKeys + [key]), Key(Some(key)))
                 && Answer(Answer(file, c).file, ActiveSigningKey(e.clientId, kid)).result == Key(Some(key))
  {
    hide Answer, EntryOk, FileOk;
    var c, key := AddSigningKey(e.clientId, kid, publicKey), SigningKey(kid, publicKey, true, None);
    var i :| 0 <= i < |Items(file)| && Items(file)[i] == e;
    AnswerOnEntry(file, c, i);
    if !HasKid(e, kid) {
      ChangeByEntry(file, c, e);
      AnswerKeepsFileOk(file, c);
      var after := e.(signingKeys := e.signingKeys + [key]);
      var now := Answer(file, c).file;
      ReadsShowTheFile(now, e.clientId, after);
      ActiveKeyIsFound(now, after, key);
    }
  }

  /** The active, unrevoked key of a client with this kid is the one that is found; without one, none is. */
  lemma ActiveKeyIsFound(file: File, e: Entry, key: SigningKey)
    requires FileOk(Items(file)) && e in Items(file)
    ensures Answer(file, ActiveSigningKey(e.clientId, key.kid)).result == Key(Some(key)) <==>
            key in e.signingKeys && key.active && key.revokedAt == None
  {
    hide Answer, FirstActive;
    var i :| 0 <= i < |Items(file)| && Items(file)[i] == e;
    assert EntryOk(e);
    AnswerOnEntry(file, ActiveSigningKey(e.clientId, key.kid), i);
    FirstActiveIsActive(e.signingKeys, key.kid);
    if key in e.signingKeys && key.active && key.revokedAt == None { FirstActiveFinds(e.signingKeys, key); }
  }

  /** Exactly the key with this kid is made inactive and dated; without one the kid is not found. */
  lemma RevokedKeysAreDated(file: File, e: Entry, k: nat, now: string)
    requires FileOk(Items(file)) && e in Items(file) && k < |e.signingKeys|
    ensures var key := e.signingKeys[k];
            var dated := key.(active := false, revokedAt := Some(now));
            Changes(file, RevokeSigningKey(e.clientId, key.kid, now), e,
                    e.(signingKeys := e.signingKeys[k := dated]), Done)
  {
    hide Answer;
    var c := RevokeSigningKey(e.clientId, e.signingKeys[k].kid, now);
    var i :| 0 <= i < |Items(file)| && Items(file)[i] == e;
    assert EntryOk(e);
    assert FindKid(e.signingKeys, e.signingKeys[k].kid) == Some(k);
    hide FileOk, EntryOk;
    ChangeByEntry(file, c, e);
  }

  lemma UnknownKidsAreNotFound(file: File, e: Entry, kid: string, now: string)
    requires FileOk(Items(file)) && e in Items(file) && !HasKid(e, kid)
    ensures Answer(file, RevokeSigningKey(e.clientId, kid, now)) == Reply(file, Failed(NotFound))
    ensures Answer(file, ActiveSigningKey(e.clientId, kid)) == Reply(file, Key(None))
  {
    hide Answer, EntryOk, FileOk, FirstActive;
    var i :| 0 <= i < |Items(file)| && Items(file)[i] == e;
    AnswerOnEntry(file, RevokeSigningKey(e.clientId, kid, now), i);
    AnswerOnEntry(file, ActiveSigningKey(e.clientId, kid), i);
    FirstActiveIsActive(e.signingKeys, kid);
  }

  /** Whatever is asked of a client there is not is answered so and changes nothing. */
  lemma UnknownClientsAreNotFound(file: File, c: Call)
    requires c.Get? || c.ActiveSigningKey? || c.UpdateClient? || c.RevokeClient? || c.RotateApiKey? || c.AddSigningKey?
             || c.RevokeSigningKey?
    requires FileOk(Items(file)) && forall e :: e in Items(file) ==> e.clientId != c.id
    ensures Answer(file, c) == Reply(file, Failed(NotFound))
  {
    hide EntryOk, FileOk;
    LoadBookIsIdentity(Items(file));
    assert forall i :: 0 <= i < |Items(file)| ==> Items(file)[i] in Items(file);
  }
}
