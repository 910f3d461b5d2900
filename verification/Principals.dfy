/** Who a request speaks for: client key first, then user token or fixed user. */
module Principals {
  import opened Base
  import opened Paths
  import opened Registry

  /** A bearer token as its parser sees it; `signedBy` is the public key its signature verifies under. */
  datatype UserToken =
    | Malformed
    | Jwt(kid: Option<string>, iss: string, sub: string, exp: int, iat: Option<int>, nbf: Option<int>,
          aud: Option<string>, signedBy: string)

  datatype Resolved = Ok(principal: Principal) | Refused | ParserError

  const BEARER := "Bearer "

  /** What Python's `str.strip()` takes for whitespace. */
  predicate IsSpace(c: char) {
    var n := c as int;
    || 0x9 <= n <= 0xD || 0x1C <= n <= 0x20 || n == 0x85 || n == 0xA0 || n == 0x1680 || 0x2000 <= n <= 0x200A
    || n == 0x2028 || n == 0x2029 || n == 0x202F || n == 0x205F || n == 0x3000
  }

  function StripLeft(s: string): string {
    if s != "" && IsSpace(s[0]) then StripLeft(s[1..]) else s
  }

  function StripRight(s: string): string {
    if s != "" && IsSpace(s[|s| - 1]) then StripRight(s[..|s| - 1]) else s
  }

  function RawKey(header: string): string
    requires BEARER <= header
  {
    StripRight(StripLeft(header[|BEARER|..]))
  }

  /** The time claims hold at second `now`, and the token is addressed to nobody in particular. */
  predicate ClaimsHold(token: UserToken, now: int)
    requires token.Jwt?
  {
    && token.exp > now
    && (token.iat.Some? ==> token.iat.value <= now)
    && (token.nbf.Some? ==> token.nbf.value <= now)
    && (token.aud.Some? ==> token.aud.value == "")
  }

  /** Signature under the registered key, claims in order, issued by the verified client. */
  predicate TokenVerifies(token: UserToken, key: SigningKey, clientId: string, now: int) {
    token.Jwt? && token.signedBy == key.publicKey && ClaimsHold(token, now) && token.iss == clientId
  }

  /** `token == None` stands for a missing or empty header. */
  function Resolve(file: File, authorization: Option<string>, token: Option<UserToken>, now: int): Resolved {
    if authorization.None? || !(BEARER <= authorization.value) then Refused
    else
      var verified := Answer(file, VerifyApiKey(RawKey(authorization.value))).result;
      if !verified.OneEntry? then Refused
      else
        var client := verified.entry;
        if token.Some? then WithToken(file, client, token.value, now)
        else if Truthy(client.fixedUserId) then Ok(Principal(client.fixedUserId.value, client.clientId))
        else Refused
  }

  function WithToken(file: File, client: Entry, token: UserToken, now: int): Resolved {
    if token.Malformed? then ParserError
    else if !Truthy(token.kid) then Refused
    else
      var found := Answer(file, ActiveSigningKey(client.clientId, token.kid.value)).result;
      if !found.Key? || found.key.None? then Refused
      else if TokenVerifies(token, found.key.value, client.clientId, now) then Ok(Principal(token.sub, token.iss))
      else Refused
  }

  /** The unrevoked client whose key this is. */
  ghost predicate KeyHolder(items: seq<Entry>, e: Entry, header: string) {
    BEARER <= header && e in items && !e.revoked && e.keyHash == Sha(RawKey(header))
  }

  /** An active key of this client, named by the token, under which the token verifies. */
  ghost predicate Vouches(e: Entry, key: SigningKey, token: UserToken, now: int) {
    && key in e.signingKeys && key.active && key.revokedAt.None?
    && token.Jwt? && Truthy(token.kid) && key.kid == token.kid.value
    && TokenVerifies(token, key, e.clientId, now)
  }

  /** What entitles a request to speak as `p`. */
  ghost predicate Entitled(items: seq<Entry>, header: string, token: Option<UserToken>, now: int, p: Principal) {
    exists e :: KeyHolder(items, e, header) && p.clientId == e.clientId &&
      if token.None? then Truthy(e.fixedUserId) && e.fixedUserId.value == p.userId
      else token.value.Jwt? && token.value.sub == p.userId && exists key :: Vouches(e, key, token.value, now)
  }

  lemma TokenResolvesExactly(file: File, e: Entry, token: UserToken, now: int, p: Principal)
    requires FileOk(Items(file)) && e in Items(file)
    ensures WithToken(file, e, token, now) == Ok(p) <==>
            token.Jwt? && token.sub == p.userId && p.clientId == e.clientId && exists key :: Vouches(e, key, token, now)
  {
    hide Answer, FirstActive, LoadBook;
    var i :| 0 <= i < |Items(file)| && Items(file)[i] == e;
    assert EntryOk(e);
    if token.Jwt? && Truthy(token.kid) {
      AnswerOnEntry(file, ActiveSigningKey(e.clientId, token.kid.value), i);
      FirstActiveIsActive(e.signingKeys, token.kid.value);
      var found := FirstActive(e.signingKeys, token.kid.value);
      forall key | Vouches(e, key, token, now) ensures found == Some(key) {
        FirstActiveFinds(e.signingKeys, key);
      }
      if found.Some? && TokenVerifies(token, found.value, e.clientId, now) {
        assert Vouches(e, found.value, token, now);
      }
    }
  }

  /** A principal is returned exactly to the requests entitled to it. */
  lemma ResolveIsExact(file: File, header: string, token: Option<UserToken>, now: int, p: Principal)
    requires FileOk(Items(file))
    ensures Resolve(file, Some(header), token, now) == Ok(p) <==> Entitled(Items(file), header, token, now, p)
  {
    hide Answer, WithToken, FileOk, Vouches;
    if BEARER <= header {
      var raw := RawKey(header);
      var r := Answer(file, VerifyApiKey(raw)).result;
      if r.OneEntry? {
        VerifyIsExact(file, raw, r.entry);
        if token.Some? { TokenResolvesExactly(file, r.entry, token.value, now, p); }
      }
      forall e | KeyHolder(Items(file), e, header) ensures r == OneEntry(e) {
        VerifyIsExact(file, raw, e);
      }
    }
  }

  // ---- The same in terms of header, token and registry entries -----------------------------------------

  predicate AllSpace(s: string) { forall c :: c in s ==> IsSpace(c) }

  /** The key of a header is what follows `Bearer ` without the whitespace around it. */
  lemma {:induction false} StripLeftIsExact(s: string) returns (spaces: string)
    ensures s == spaces + StripLeft(s) && AllSpace(spaces) && (StripLeft(s) != "" ==> !IsSpace(StripLeft(s)[0]))
  {
    hide IsSpace;
    if s != "" && IsSpace(s[0]) {
      var rest := StripLeftIsExact(s[1..]);
      spaces := [s[0]] + rest;
      assert s == [s[0]] + s[1..];
    } else {
      spaces := "";
    }
  }

  lemma {:induction false} StripRightIsExact(s: string) returns (spaces: string)
    ensures s == StripRight(s) + spaces && AllSpace(spaces)
    ensures StripRight(s) != "" ==> !IsSpace(StripRight(s)[|StripRight(s)| - 1])
  {
    hide IsSpace;
    if s != "" && IsSpace(s[|s| - 1]) {
      var rest := StripRightIsExact(s[..|s| - 1]);
      spaces := rest + [s[|s| - 1]];
      assert s == s[..|s| - 1] + [s[|s| - 1]];
    } else {
      spaces := "";
    }
  }

  /** The header carries this key: `Bearer `, the key, and nothing but whitespace around it. */
  ghost predicate Carries(header: string, raw: string) {
    && (raw != "" ==> !IsSpace(raw[0]) && !IsSpace(raw[|raw| - 1]))
    && exists a, b :: header == "Bearer " + a + raw + b && AllSpace(a) && AllSpace(b)
  }

  lemma RawKeyIsCarried(header: string)
    requires BEARER <= header
    ensures Carries(header, RawKey(header))
  {
    hide IsSpace, StripLeft, StripRight;
    var s := header[|BEARER|..];
    var a := StripLeftIsExact(s);
    var b := StripRightIsExact(StripLeft(s));
    var raw := RawKey(header);
    assert header == BEARER + s && header == "Bearer " + a + raw + b;
    if raw != "" { assert StripLeft(s)[0] == raw[0]; }
  }

  lemma {:induction false} StripLeftOf(a: string, rest: string)
    requires AllSpace(a) && (rest != "" ==> !IsSpace(rest[0]))
    ensures StripLeft(a + rest) == rest
  {
    hide IsSpace;
    if a == "" {
      assert a + rest == rest;
    } else {
      assert a[0] in a && (a + rest)[1..] == a[1..] + rest;
      assert forall c :: c in a[1..] ==> c in a;
      StripLeftOf(a[1..], rest);
    }
  }

  lemma {:induction false} StripRightOf(front: string, b: string)
    requires AllSpace(b) && (front != "" ==> !IsSpace(front[|front| - 1]))
    ensures StripRight(front + b) == front
  {
    hide IsSpace;
    if b == "" {
      assert front + b == front;
    } else {
      var s := front + b;
      assert b[|b| - 1] in b && s[|s| - 1] == b[|b| - 1] && s[..|s| - 1] == front + b[..|b| - 1];
      assert forall c :: c in b[..|b| - 1] ==> c in b;
      StripRightOf(front, b[..|b| - 1]);
    }
  }

  lemma {:induction false} AllSpaceIsNothing(b: string)
    requires AllSpace(b)
    ensures StripLeft(b) == ""
  {
    if b != "" {
      assert b[0] in b;
      assert forall c :: c in b[1..] ==> c in b;
      AllSpaceIsNothing(b[1..]);
    }
  }

  lemma CarriedIsRawKey(header: string, raw: string)
    requires Carries(header, raw)
    ensures BEARER <= header && RawKey(header) == raw
  {
    var a, b :| header == "Bearer " + a + raw + b && AllSpace(a) && AllSpace(b);
    assert header[|BEARER|..] == a + (raw + b);
    if raw == "" {
      assert a + (raw + b) == a + b;
      forall c | c in a + b ensures IsSpace(c) {}
      AllSpaceIsNothing(a + b);
    } else {
      StripLeftOf(a, raw + b);
      StripRightOf(raw, b);
    }
  }

  /**
   * A request with a token speaks as `p` exactly when its header carries the key of an unrevoked client of
   * p's id, and the token has p's user as subject, this client as issuer, a signature under the public key of
   * an active, unrevoked signing key of this client with the token's kid, a future expiry, no future issue or
   * activation time and no audience.
   */
  lemma TokenPrincipals(file: File, header: string, token: UserToken, now: int, p: Principal)
    requires FileOk(Items(file))
    ensures Resolve(file, Some(header), Some(token), now) == Ok(p) <==>
            exists raw, e, key ::
              && Carries(header, raw) && e in Items(file) && e.keyHash == Sha(raw) && !e.revoked
              && e.clientId == p.clientId
              && key in e.signingKeys && key.active && key.revokedAt == None && key.kid != ""
              && token.Jwt? && token.kid == Some(key.kid) && token.signedBy == key.publicKey
              && token.iss == e.clientId && token.sub == p.userId && token.exp > now
              && (token.iat == None || token.iat.value <= now) && (token.nbf == None || token.nbf.value <= now)
              && (token.aud == None || token.aud == Some(""))
  {
    hide Resolve, Carries, RawKey, FileOk;
    ResolveIsExact(file, header, Some(token), now, p);
    if Entitled(Items(file), header, Some(token), now, p) {
      var e :| KeyHolder(Items(file), e, header) && p.clientId == e.clientId && token.Jwt? && token.sub == p.userId
               && exists key :: Vouches(e, key, token, now);
      RawKeyIsCarried(header);
      var key :| Vouches(e, key, token, now);
      var raw := RawKey(header);
      assert Carries(header, raw) && e.keyHash == Sha(raw);
    }
    forall raw, e, key |
      && Carries(header, raw) && e in Items(file) && e.keyHash == Sha(raw) && !e.revoked && e.clientId == p.clientId
      && key in e.signingKeys && key.active && key.revokedAt == None && key.kid != ""
      && token.Jwt? && token.kid == Some(key.kid) && token.signedBy == key.publicKey
      && token.iss == e.clientId && token.sub == p.userId && token.exp > now
      && (token.iat == None || token.iat.value <= now) && (token.nbf == None || token.nbf.value <= now)
      && (token.aud == None || token.aud == Some(""))
      ensures Entitled(Items(file), header, Some(token), now, p)
    {
      CarriedIsRawKey(header, raw);
      assert KeyHolder(Items(file), e, header) && Vouches(e, key, token, now);
    }
  }

  /** Without a token it speaks as the fixed user of the unrevoked client whose key it carries, if that has one. */
  lemma FixedPrincipals(file: File, header: string, now: int, p: Principal)
    requires FileOk(Items(file))
    ensures Resolve(file, Some(header), None, now) == Ok(p) <==>
            p.userId != "" && exists raw, e ::
              && Carries(header, raw) && e in Items(file) && e.keyHash == Sha(raw) && !e.revoked
              && e.clientId == p.clientId && e.fixedUserId == Some(p.userId)
  {
    hide Resolve, Carries, RawKey, FileOk;
    ResolveIsExact(file, header, None, now, p);
    if Entitled(Items(file), header, None, now, p) {
      RawKeyIsCarried(header);
      var raw := RawKey(header);
      var e :| KeyHolder(Items(file), e, header) && p.clientId == e.clientId && Truthy(e.fixedUserId)
               && e.fixedUserId.value == p.userId;
      assert Carries(header, raw) && e.keyHash == Sha(raw);
    }
    forall raw, e | Carries(header, raw) && e in Items(file) && e.keyHash == Sha(raw) && !e.revoked
                    && e.clientId == p.clientId && e.fixedUserId == Some(p.userId) && p.userId != ""
      ensures Entitled(Items(file), header, None, now, p)
    {
      CarriedIsRawKey(header, raw);
      assert KeyHolder(Items(file), e, header);
    }
  }

  /**
   * Without a header nobody speaks. A header with the key of an unrevoked client and a token that is none raises in
   * the parser, and nothing else does.
   */
  lemma OtherReplies(file: File, header: string, token: Option<UserToken>, now: int)
    requires FileOk(Items(file))
    ensures Resolve(file, None, token, now) == Refused
    ensures Resolve(file, Some(header), token, now) == ParserError <==>
            token == Some(Malformed) &&
            exists raw, e :: Carries(header, raw) && e in Items(file) && e.keyHash == Sha(raw) && !e.revoked
  {
    hide FileOk, Answer, Carries, RawKey;
    if BEARER <= header {
      RawKeyIsCarried(header);
      var r := Answer(file, VerifyApiKey(RawKey(header))).result;
      if r.OneEntry? { VerifyIsExact(file, RawKey(header), r.entry); }
    }
    forall raw, e | Carries(header, raw) && e in Items(file) && e.keyHash == Sha(raw) && !e.revoked
      ensures BEARER <= header && Answer(file, VerifyApiKey(RawKey(header))).result == OneEntry(e)
    {
      CarriedIsRawKey(header, raw);
      VerifyIsExact(file, raw, e);
    }
  }

  /** The 29 characters that are whitespace, by code point. */
  lemma SpacesAre(c: char)
    ensures IsSpace(c) <==> (c as int) in [0x9, 0xA, 0xB, 0xC, 0xD, 0x1C, 0x1D, 0x1E, 0x1F, 0x20, 0x85, 0xA0, 0x1680,
                                           0x2000, 0x2001, 0x2002, 0x2003, 0x2004, 0x2005, 0x2006, 0x2007, 0x2008,
                                           0x2009, 0x200A, 0x2028, 0x2029, 0x202F, 0x205F, 0x3000]
  {}

  /** In every run of registry operations a returned principal is entitled by the registry as it is then. */
  lemma PrincipalsAreSound(file: File, calls: seq<Call>, header: Option<string>, token: Option<UserToken>, now: int)
    requires FileOk(Items(file)) && FreshRun(file, calls)
    ensures var r := Resolve(After(file, calls), header, token, now);
            r.Ok? ==> header.Some? && Entitled(Items(After(file, calls)), header.value, token, now, r.principal)
  {
    RunKeepsFileOk(file, calls);
    var r := Resolve(After(file, calls), header, token, now);
    if r.Ok? { ResolveIsExact(After(file, calls), header.value, token, now, r.principal); }
  }

  /** No request ever speaks through a client once it is revoked. */
  lemma RevokedClientsAreNobody(file: File, calls: seq<Call>, id: string, header: Option<string>,
                                token: Option<UserToken>, now: int)
    requires FileOk(Items(file)) && FreshRun(file, calls) && Revoked(Items(file), id)
    ensures var r := Resolve(After(file, calls), header, token, now); r.Ok? ==> r.principal.clientId != id
  {
    hide Resolve, Answer, Vouches;
    PrincipalsAreSound(file, calls, header, token, now);
    RunKeepsFileOk(file, calls);
    RevokedStaysRevoked(file, calls, id);
    var items := Items(After(file, calls));
    var r := Resolve(After(file, calls), header, token, now);
    if r.Ok? {
      var e :| KeyHolder(items, e, header.value) && r.principal.clientId == e.clientId;
      OneRevokedEntry(items, id, e);
    }
  }

  lemma OneRevokedEntry(items: seq<Entry>, id: string, e: Entry)
    requires FileOk(items) && Revoked(items, id) && e in items && !e.revoked
    ensures e.clientId != id
  {
    hide EntryOk;
    var i :| 0 <= i < |items| && items[i].clientId == id && items[i].revoked;
    var k :| 0 <= k < |items| && items[k] == e;
    assert i != k;
  }

  /** A token under a revoked key is refused for ever, even if its holder keeps signing. */
  lemma RevokedKidsVouchForNobody(file: File, calls: seq<Call>, id: string, kid: string, header: Option<string>,
                                  token: UserToken, now: int)
    requires FileOk(Items(file)) && FreshRun(file, calls) && KidDead(Items(file), id, kid)
    requires token.Jwt? && token.kid == Some(kid)
    ensures var r := Resolve(After(file, calls), header, Some(token), now); r.Ok? ==> r.principal.clientId != id
  {
    hide LoadBook, Find, FirstActive, After, FileOk, FreshRun, KidDead;
    KidRevocationIsPermanent(file, calls, id, kid);
    RunKeepsFileOk(file, calls);
    var now_ := After(file, calls);
    var r := Resolve(now_, header, Some(token), now);
    if r.Ok? {
      var client := Answer(now_, VerifyApiKey(RawKey(header.value))).result.entry;
      assert WithToken(now_, client, token, now) == r;
    }
  }
}
