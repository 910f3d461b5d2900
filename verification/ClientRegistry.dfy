/** The registry as objects: any number of instances, each with its own two indexes, over one file. */
module ClientRegistry {
  import opened Base
  import opened Registry

  /** The JSON file; `None` before anything was saved. */
  class RegistryFile {
    var content: File

    constructor ()
      ensures content == None
    {
      content := None;
    }
  }

  class ClientRegistry {
    const file: RegistryFile
    var byClientId: seq<Entry>
    var byKeyHash: map<KeyHash, string>

    constructor (file: RegistryFile)
      ensures this.file == file && byClientId == [] && byKeyHash == map[]
    {
      this.file := file;
      byClientId, byKeyHash := [], map[];
    }

    /** Both indexes are what a reload would build from the file now. */
    ghost predicate Synced()
      reads this, file
    {
      byClientId == LoadBook(Items(file.content)) && byKeyHash == LoadKeys(Items(file.content))
    }

    method Reload()
      modifies this`byClientId, this`byKeyHash
      ensures Synced()
    {
      byClientId, byKeyHash := [], map[];
      var raw := Items(file.content);
      assert raw[..|raw|] == raw;
      for i := 0 to |raw|
        invariant byClientId == LoadBook(raw[..i]) && byKeyHash == LoadKeys(raw[..i])
      {
        assert raw[..i + 1][..i] == raw[..i];
        byClientId := Put(byClientId, raw[i]);
        byKeyHash := byKeyHash[raw[i].keyHash := raw[i].clientId];
      }
    }

    method Save()
      modifies file
      ensures file.content == Some(byClientId)
    {
      file.content := Some(byClientId);
    }

    method VerifyApiKey(raw: string) returns (r: Result)
      modifies this`byClientId, this`byKeyHash
      ensures Synced() && Reply(file.content, r) == Answer(old(file.content), Call.VerifyApiKey(raw))
    {
      Reload();
      if Sha(raw) !in byKeyHash { return Failed(Unauthorized); }
      var i := Find(byClientId, byKeyHash[Sha(raw)]);
      if i.None? { return Failed(NotFound); }
      if byClientId[i.value].revoked { return Failed(Unauthorized); }
      return OneEntry(byClientId[i.value]);
    }

    /** `get`: reload, then the client's position (`None`: no such client). */
    method Get(id: string) returns (i: Option<nat>)
      modifies this`byClientId, this`byKeyHash
      ensures Synced() && i == Find(LoadBook(Items(file.content)), id)
    {
      Reload();
      i := Find(byClientId, id);
    }

    method ListAll() returns (r: Result)
      modifies this`byClientId, this`byKeyHash
      ensures Synced() && Reply(file.content, r) == Answer(old(file.content), Call.ListAll)
    {
      Reload();
      return Entries(byClientId);
    }

    method ActiveSigningKey(id: string, kid: string) returns (r: Result)
      modifies this`byClientId, this`byKeyHash
      ensures Synced() && Reply(file.content, r) == Answer(old(file.content), Call.ActiveSigningKey(id, kid))
    {
      var i := Get(id);
      if i.None? { return Failed(NotFound); }
      var keys := byClientId[i.value].signingKeys;
      for k := 0 to |keys|
        invariant FirstActive(keys[k..], kid) == FirstActive(keys, kid)
      {
        assert keys[k..][0] == keys[k] && keys[k..][1..] == keys[k + 1..];
        if keys[k].kid == kid && keys[k].active && keys[k].revokedAt.None? { return Key(Some(keys[k])); }
      }
      return Key(None);
    }

    method CreateClient(id: string, typ: ClientType, issues: bool, fixedUserId: Option<string>, newKey: string)
      returns (r: Result)
      modifies this, file
      ensures Reply(file.content, r) == Answer(old(file.content),
              Call.CreateClient(id, typ, issues, fixedUserId, newKey))
      ensures old(FileOk(Items(file.content)) && !KeyInUse(Items(file.content), newKey)) ==> Synced()
    {
      hide LoadBook, LoadKeys, FileOk, KeyInUse;
      Reload();
      if Find(byClientId, id).Some? { return Failed(ValidationError); }
      if typ.AutonomousAgent? && !Truthy(fixedUserId) { return Failed(ValidationError); }
      if !typ.AutonomousAgent? && Truthy(fixedUserId) { return Failed(ValidationError); }
      var entry := Entry(id, typ, Sha(newKey), issues, [], fixedUserId, false);
      ghost var before := file.content;
      byClientId := Put(byClientId, entry);
      byKeyHash := byKeyHash[entry.keyHash := id];
      Save();
      if FileOk(Items(before)) && !KeyInUse(Items(before), newKey) {
        CreatedKeysAgree(before, Call.CreateClient(id, typ, issues, fixedUserId, newKey));
      }
      return Created(entry, newKey);
    }

    method UpdateClient(id: string, issuesUserTokens: Option<bool>) returns (r: Result)
      modifies this, file
      ensures Reply(file.content, r) == Answer(old(file.content), Call.UpdateClient(id, issuesUserTokens))
      ensures old(FileOk(Items(file.content))) ==> Synced()
    {
      hide LoadBook, LoadKeys, FileOk, KeyInUse;
      ghost var before := file.content;
      var i := Get(id);
      if i.None? { return Failed(NotFound); }
      var entry := byClientId[i.value];
      if issuesUserTokens.Some? { entry := entry.(issuesUserTokens := issuesUserTokens.value); }
      byClientId := byClientId[i.value := entry];
      Save();
      SameKeysStaySynced(before, Call.UpdateClient(id, issuesUserTokens), i.value);
      return OneEntry(entry);
    }

    method RevokeClient(id: string) returns (r: Result)
      modifies this, file
      ensures Reply(file.content, r) == Answer(old(file.content), Call.RevokeClient(id))
      ensures old(FileOk(Items(file.content))) ==> Synced()
    {
      hide LoadBook, LoadKeys, FileOk, KeyInUse;
      ghost var before := file.content;
      var i := Get(id);
      if i.None? { return Failed(NotFound); }
      byClientId := byClientId[i.value := byClientId[i.value].(revoked := true)];
      Save();
      SameKeysStaySynced(before, Call.RevokeClient(id), i.value);
      return Done;
    }

    /** The old hash leaves the index, the new one enters it; nothing is rebuilt. */
    method RotateApiKey(id: string, newKey: string) returns (r: Result)
      modifies this, file
      ensures Reply(file.content, r) == Answer(old(file.content), Call.RotateApiKey(id, newKey))
      ensures old(FileOk(Items(file.content)) && !KeyInUse(Items(file.content), newKey)) ==> Synced()
    {
      hide LoadBook, LoadKeys, FileOk, KeyInUse;
      ghost var before := file.content;
      var i := Get(id);
      if i.None? { return Failed(NotFound); }
      var entry := byClientId[i.value];
      byKeyHash := byKeyHash - {entry.keyHash};
      entry := entry.(keyHash := Sha(newKey));
      byKeyHash := byKeyHash[entry.keyHash := id];
      byClientId := byClientId[i.value := entry];
      Save();
      if FileOk(Items(before)) && !KeyInUse(Items(before), newKey) {
        RotatedKeysAgree(before, id, newKey, i.value);
      }
      return Rotated(newKey);
    }

    method AddSigningKey(id: string, kid: string, publicKey: string) returns (r: Result)
      modifies this, file
      ensures Reply(file.content, r) == Answer(old(file.content), Call.AddSigningKey(id, kid, publicKey))
      ensures old(FileOk(Items(file.content))) ==> Synced()
    {
      hide LoadBook, LoadKeys, FileOk, KeyInUse;
      ghost var before := file.content;
      var i := Get(id);
      if i.None? { return Failed(NotFound); }
      var entry := byClientId[i.value];
      if FindKid(entry.signingKeys, kid).Some? { return Failed(ValidationError); }
      var key := SigningKey(kid, publicKey, true, None);
      byClientId := byClientId[i.value := entry.(signingKeys := entry.signingKeys + [key])];
      Save();
      SameKeysStaySynced(before, Call.AddSigningKey(id, kid, publicKey), i.value);
      return Key(Some(key));
    }

    method RevokeSigningKey(id: string, kid: string, now: string) returns (r: Result)
      modifies this, file
      ensures Reply(file.content, r) == Answer(old(file.content), Call.RevokeSigningKey(id, kid, now))
      ensures old(FileOk(Items(file.content))) ==> Synced()
    {
      hide LoadBook, LoadKeys, FileOk, KeyInUse;
      ghost var before := file.content;
      var i := Get(id);
      if i.None? { return Failed(NotFound); }
      var entry := byClientId[i.value];
      var k := FindKid(entry.signingKeys, kid);
      if k.None? { return Failed(NotFound); }
      byClientId := byClientId[i.value := WithKeyRevoked(entry, k.value, now)];
      Save();
      SameKeysStaySynced(before, Call.RevokeSigningKey(id, kid, now), i.value);
      return Done;
    }

    /** Any operation, by name. */
    method Do(c: Call) returns (r: Result)
      modifies this, file
      ensures Reply(file.content, r) == Answer(old(file.content), c)
      ensures old(FileOk(Items(file.content)) && FreshKey(Items(file.content), c)) ==> Synced()
    {
      match c
      case VerifyApiKey(raw) => r := VerifyApiKey(raw);
      case Get(id) =>
        var i := Get(id);
        r := if i.None? then Failed(NotFound) else OneEntry(byClientId[i.value]);
      case ListAll => r := ListAll();
      case ActiveSigningKey(id, kid) => r := ActiveSigningKey(id, kid);
      case CreateClient(id, typ, issues, fixedUserId, newKey) =>
        r := CreateClient(id, typ, issues, fixedUserId, newKey);
      case UpdateClient(id, issues) => r := UpdateClient(id, issues);
      case RevokeClient(id) => r := RevokeClient(id);
      case RotateApiKey(id, newKey) => r := RotateApiKey(id, newKey);
      case AddSigningKey(id, kid, publicKey) => r := AddSigningKey(id, kid, publicKey);
      case RevokeSigningKey(id, kid, now) => r := RevokeSigningKey(id, kid, now);
    }
  }

  /**
   * Many registries over one file are one registry: whichever instance serves each operation, and
   * whatever its indexes were, results and file are those of the operations on the file alone.
   */
  method ServeAll(registries: seq<ClientRegistry>, file: RegistryFile, calls: seq<(nat, Call)>)
    returns (results: seq<Result>)
    requires forall i :: 0 <= i < |registries| ==> registries[i].file == file
    requires forall k :: 0 <= k < |calls| ==> calls[k].0 < |registries|
    modifies registries, file
    ensures results == Results(old(file.content), CallsOf(calls))
    ensures file.content == After(old(file.content), CallsOf(calls))
  {
    results := [];
    assert calls[..|calls|] == calls;
    for k := 0 to |calls|
      invariant results == Results(old(file.content), CallsOf(calls[..k]))
      invariant file.content == After(old(file.content), CallsOf(calls[..k]))
    {
      CallsOfSnoc(calls, k);
      var r := registries[calls[k].0].Do(calls[k].1);
      results := results + [r];
    }
  }

  function CallsOf(calls: seq<(nat, Call)>): (r: seq<Call>)
    ensures |r| == |calls| && forall i :: 0 <= i < |r| ==> r[i] == calls[i].1
  {
    seq(|calls|, i requires 0 <= i < |calls| => calls[i].1)
  }

  lemma CallsOfSnoc(calls: seq<(nat, Call)>, k: nat)
    requires k < |calls|
    ensures CallsOf(calls[..k + 1])[..k] == CallsOf(calls[..k]) && CallsOf(calls[..k + 1])[k] == calls[k].1
    ensures |CallsOf(calls[..k + 1])| == k + 1
  {}

  lemma {:induction false} LoadKeysIgnoresTheRest(a: seq<Entry>, b: seq<Entry>)
    requires |a| == |b| && forall k :: 0 <= k < |a| ==> a[k].keyHash == b[k].keyHash && a[k].clientId == b[k].clientId
    ensures LoadKeys(a) == LoadKeys(b)
  {
    if a != [] { LoadKeysIgnoresTheRest(a[..|a| - 1], b[..|b| - 1]); }
  }

  /** An operation that changes no key leaves the key index right. */
  lemma SameKeysStaySynced(file: File, c: Call, i: nat)
    requires OnOneClient(c) && !c.RotateApiKey?
    requires var book := LoadBook(Items(file)); Find(book, IdOf(c)) == Some(i) && OnEntry(book[i], c).entry.Some?
    ensures var book := LoadBook(Items(file));
            var after := book[i := OnEntry(book[i], c).entry.value];
            FileOk(Items(file)) ==> LoadBook(after) == after && LoadKeys(after) == LoadKeys(Items(file))
  {
    hide OnEntry, EntryOk;
    var items := Items(file);
    if FileOk(items) {
      LoadBookIsIdentity(items);
      AnswerOnEntry(file, c, i);
      OnEntryKeepsFields(items[i], c);
      AnswerKeepsFileOk(file, c);
      LoadBookIsIdentity(Items(Answer(file, c).file));
      LoadKeysIgnoresTheRest(Items(Answer(file, c).file), items);
    }
  }

  lemma OnEntryKeepsFields(e: Entry, c: Call)
    requires !c.RotateApiKey?
    ensures var r := OnEntry(e, c).entry; r.Some? ==> r.value.clientId == e.clientId && r.value.keyHash == e.keyHash
  {}

  /** Taking the old hash out and putting the new one in gives the index a reload would build. */
  lemma RotatedKeysAgree(file: File, id: string, newKey: string, i: nat)
    requires FileOk(Items(file)) && !KeyInUse(Items(file), newKey)
    requires Find(LoadBook(Items(file)), id) == Some(i)
    ensures var book := LoadBook(Items(file));
            var after := book[i := book[i].(keyHash := Sha(newKey))];
            && LoadBook(after) == after
            && LoadKeys(after) == (LoadKeys(Items(file)) - {book[i].keyHash})[Sha(newKey) := id]
  {
    hide LoadBook, LoadKeys, Answer, FileOk, KeyInUse;
    var items := Items(file);
    var c := Call.RotateApiKey(id, newKey);
    LoadBookIsIdentity(items);
    AnswerOnEntry(file, c, i);
    AnswerKeepsFileOk(file, c);
    var after := Items(Answer(file, c).file);
    LoadBookIsIdentity(after);
    RotatedIndexAgrees(items, after, i, newKey);
  }

  lemma RotatedIndexAgrees(items: seq<Entry>, after: seq<Entry>, i: nat, newKey: string)
    requires FileOk(items) && FileOk(after) && !KeyInUse(items, newKey) && i < |items|
    requires after == items[i := items[i].(keyHash := Sha(newKey))]
    ensures LoadKeys(after) == (LoadKeys(items) - {items[i].keyHash})[Sha(newKey) := items[i].clientId]
  {
    hide LoadKeys, FileOk, KeyInUse;
    var keys := (LoadKeys(items) - {items[i].keyHash})[Sha(newKey) := items[i].clientId];
    forall h ensures (h in LoadKeys(after) <==> h in keys) && (h in keys ==> LoadKeys(after)[h] == keys[h]) {
      RotatedKeyAgrees(items, after, i, newKey, h);
    }
  }

  lemma CreatedKeysAgree(file: File, c: Call)
    requires c.CreateClient? && FileOk(Items(file)) && FreshKey(Items(file), c)
    requires Answer(file, c).result.Created?
    ensures var book := LoadBook(Items(file));
            var after := book + [NewEntry(c)];
            LoadBook(after) == after && LoadKeys(after) == LoadKeys(Items(file))[Sha(c.newKey) := c.id]
  {
    hide EntryOk;
    LoadBookIsIdentity(Items(file));
    AnswerKeepsFileOk(file, c);
    LoadBookIsIdentity(Items(Answer(file, c).file));
    assert (Items(file) + [NewEntry(c)])[..|Items(file)|] == Items(file);
  }

  lemma RotatedKeyAgrees(items: seq<Entry>, after: seq<Entry>, i: nat, newKey: string, h: KeyHash)
    requires FileOk(items) && FileOk(after) && !KeyInUse(items, newKey) && i < |items|
    requires after == items[i := items[i].(keyHash := Sha(newKey))]
    ensures var keys := (LoadKeys(items) - {items[i].keyHash})[Sha(newKey) := items[i].clientId];
            (h in LoadKeys(after) <==> h in keys) && (h in keys ==> LoadKeys(after)[h] == keys[h])
  {
    hide EntryOk;
    KeysOf(items, h);
    KeysOf(after, h);
    if h == Sha(newKey) {
      assert after[i].keyHash == h;
    } else if h in LoadKeys(after) {
      var k :| 0 <= k < |after| && after[k].keyHash == h;
      assert items[k].keyHash == h && k != i;
    } else if h in LoadKeys(items) {
      var k :| 0 <= k < |items| && items[k].keyHash == h;
      assert after[k].keyHash == h || k == i;
    }
  }
}
