/** The bridge's cache of signed user tokens, one per user. */
module Tokens {
  /** The claims of a token that matter here. */
  datatype Token = Token(iss: string, sub: string, iat: int, exp: int)

  datatype Cached = Cached(token: Token, expiresAt: real)

  type Cache = map<string, Cached>

  /** Who asks, and the clock at that moment. */
  datatype Request = Request(userId: string, now: real)

  /** Seconds a cached token must still have to be handed out. */
  const BUFFER := 60.0

  /** Python's `int(x)`: towards zero. */
  function Truncated(x: real): int {
    if x >= 0.0 then x.Floor else -(-x).Floor
  }

  function Min(a: real, b: real): real { if a < b then a else b }

  function Mint(clientId: string, ttl: int, r: Request): Cached {
    var now := Truncated(r.now);
    Cached(Token(clientId, r.userId, now, now + ttl), r.now + ttl as real)
  }

  predicate Reusable(c: Cached, now: real) { c.expiresAt - now > BUFFER }

  /** The cache after a request; the token handed out is the one it then holds for the user. */
  function Serve(clientId: string, ttl: int, cache: Cache, r: Request): (after: Cache)
    ensures r.userId in after
  {
    if r.userId in cache && Reusable(cache[r.userId], r.now) then cache
    else cache[r.userId := Mint(clientId, ttl, r)]
  }

  function ServeAll(clientId: string, ttl: int, requests: seq<Request>): Cache {
    if requests == [] then map[]
    else Serve(clientId, ttl, ServeAll(clientId, ttl, requests[..|requests| - 1]), requests[|requests| - 1])
  }

  /** The token the k-th request of a run gets. */
  function TokenOf(clientId: string, ttl: int, requests: seq<Request>, k: nat): Token
    requires k < |requests|
  {
    Serve(clientId, ttl, ServeAll(clientId, ttl, requests[..k]), requests[k])[requests[k].userId].token
  }

  ghost predicate Sound(cache: Cache, clientId: string) {
    forall u :: u in cache ==>
      cache[u].token.sub == u && cache[u].token.iss == clientId && cache[u].token.exp as real > cache[u].expiresAt - 1.0
  }

  lemma TruncationLosesLessThanASecond(x: real)
    ensures Truncated(x) as real > x - 1.0
  {}

  lemma ServeKeepsSound(clientId: string, ttl: int, cache: Cache, r: Request)
    requires Sound(cache, clientId)
    ensures Sound(Serve(clientId, ttl, cache, r), clientId)
  {
    TruncationLosesLessThanASecond(r.now);
  }

  lemma {:induction false} RunsKeepSound(clientId: string, ttl: int, requests: seq<Request>)
    ensures Sound(ServeAll(clientId, ttl, requests), clientId)
  {
    if requests != [] {
      RunsKeepSound(clientId, ttl, requests[..|requests| - 1]);
      ServeKeepsSound(clientId, ttl, ServeAll(clientId, ttl, requests[..|requests| - 1]), requests[|requests| - 1]);
    }
  }

  /** Whatever the requests and the clock, each token is the user's own and lives on for min(60, ttl) - 1 seconds. */
  lemma EveryTokenIsGoodLongEnough(clientId: string, ttl: int, requests: seq<Request>, k: nat)
    requires k < |requests|
    ensures var t := TokenOf(clientId, ttl, requests, k);
            && t.sub == requests[k].userId && t.iss == clientId
            && t.exp as real > requests[k].now + Min(BUFFER, ttl as real) - 1.0
  {
    RunsKeepSound(clientId, ttl, requests[..k]);
    ServeKeepsSound(clientId, ttl, ServeAll(clientId, ttl, requests[..k]), requests[k]);
  }

  /** A token keeps the full buffer whenever it is reused exactly when minting it lost no fraction of a second. */
  lemma BufferIsKeptIff(clientId: string, ttl: int, r: Request)
    ensures (forall t :: Reusable(Mint(clientId, ttl, r), t) ==> Mint(clientId, ttl, r).token.exp as real - t > BUFFER)
            <==> Truncated(r.now) as real >= r.now
  {
    var c := Mint(clientId, ttl, r);
    var lost := r.now - Truncated(r.now) as real;
    if lost > 0.0 {
      var t := c.expiresAt - BUFFER - lost / 2.0;
      assert Reusable(c, t) && c.token.exp as real - t <= BUFFER;
    }
  }

  /** Every token in the cache was made out of a request of its user. */
  ghost predicate Minted(cache: Cache, clientId: string, ttl: int, requests: seq<Request>) {
    forall u :: u in cache ==>
      exists j :: 0 <= j < |requests| && requests[j].userId == u && cache[u] == Mint(clientId, ttl, requests[j])
  }

  lemma {:induction false} RunsMint(clientId: string, ttl: int, requests: seq<Request>)
    ensures Minted(ServeAll(clientId, ttl, requests), clientId, ttl, requests)
  {
    if requests != [] {
      var front, last := requests[..|requests| - 1], requests[|requests| - 1];
      RunsMint(clientId, ttl, front);
      ServeMints(clientId, ttl, ServeAll(clientId, ttl, front), front, last);
      assert front + [last] == requests;
    }
  }

  lemma ServeMints(clientId: string, ttl: int, cache: Cache, requests: seq<Request>, r: Request)
    requires Minted(cache, clientId, ttl, requests)
    ensures Minted(Serve(clientId, ttl, cache, r), clientId, ttl, requests + [r])
  {
    hide Mint;
    var all, after := requests + [r], Serve(clientId, ttl, cache, r);
    assert all[|requests|] == r;
    forall u | u in after
      ensures exists j :: 0 <= j < |all| && all[j].userId == u && after[u] == Mint(clientId, ttl, all[j])
    {
      if u in cache && after[u] == cache[u] {
        var j :| 0 <= j < |requests| && requests[j].userId == u && cache[u] == Mint(clientId, ttl, requests[j]);
        assert all[j] == requests[j];
      }
    }
  }

  /**
   * Each token of a run carries the second of a request of its user up to then as its time of issue, and
   * expires exactly the configured time after it.
   */
  lemma TokensAreDated(clientId: string, ttl: int, requests: seq<Request>, k: nat) returns (j: nat)
    requires k < |requests|
    ensures j <= k && requests[j].userId == requests[k].userId
    ensures var t := TokenOf(clientId, ttl, requests, k);
            && t.iat == (if requests[j].now >= 0.0 then requests[j].now.Floor else -(-requests[j].now).Floor)
            && t.exp == t.iat + ttl
  {
    RunsMint(clientId, ttl, requests[..k]);
    ServeMints(clientId, ttl, ServeAll(clientId, ttl, requests[..k]), requests[..k], requests[k]);
    var all := requests[..k] + [requests[k]];
    var u := requests[k].userId;
    var cache := Serve(clientId, ttl, ServeAll(clientId, ttl, requests[..k]), requests[k]);
    j :| 0 <= j < |all| && all[j].userId == u && cache[u] == Mint(clientId, ttl, all[j]);
    assert all[j] == requests[j];
  }

  /** The token a request gets is the one the cache holds for its user after the run up to then. */
  lemma RunsHoldTheLastToken(clientId: string, ttl: int, requests: seq<Request>, k: nat)
    requires k < |requests|
    ensures var cache := ServeAll(clientId, ttl, requests[..k + 1]);
            requests[k].userId in cache && cache[requests[k].userId].token == TokenOf(clientId, ttl, requests, k)
  {
    assert requests[..k + 1][..k] == requests[..k];
  }

  /** A token just minted is issued by now and has not expired: it can be used in the second it is handed out. */
  lemma FreshTokensAreValid(clientId: string, ttl: int, cache: Cache, r: Request)
    requires 0 < ttl && r.now >= 0.0
    requires r.userId !in cache || cache[r.userId].expiresAt <= r.now + 60.0
    ensures var t := Serve(clientId, ttl, cache, r)[r.userId].token; t.iat <= r.now.Floor < t.exp
    ensures forall u :: u != r.userId ==>
              (u in Serve(clientId, ttl, cache, r) <==> u in cache) &&
              (u in cache ==> Serve(clientId, ttl, cache, r)[u] == cache[u])
  {}

  /**
   * On a clock that does not run backwards each token of a run, when it is handed out, was issued no later than this
   * second and expires after it, so that it meets the time claims its receiver checks.
   */
  lemma TokensMeetTheClaims(clientId: string, ttl: int, requests: seq<Request>, k: nat)
    requires k < |requests| && 0 < ttl
    requires forall i, j :: 0 <= i <= j < |requests| ==> 0.0 <= requests[i].now <= requests[j].now
    ensures var t := TokenOf(clientId, ttl, requests, k);
            && t.iss == clientId && t.sub == requests[k].userId
            && t.iat <= requests[k].now.Floor < t.exp
  {
    var before, r := requests[..k], requests[k];
    var cache := ServeAll(clientId, ttl, before);
    RunsMint(clientId, ttl, before);
    if r.userId in cache && Reusable(cache[r.userId], r.now) {
      var j :| 0 <= j < |before| && before[j].userId == r.userId && cache[r.userId] == Mint(clientId, ttl, before[j]);
      assert before[j] == requests[j] && 0.0 <= requests[j].now <= requests[k].now;
    }
  }

  /** A token with more than a minute to go is handed out again, and nothing is signed. */
  lemma LongLivedTokensAreReused(clientId: string, ttl: int, cache: Cache, r: Request)
    requires r.userId in cache && cache[r.userId].expiresAt > r.now + 60.0
    ensures Serve(clientId, ttl, cache, r) == cache
  {}

  class TokenCache {
    const clientId: string
    const ttl: int
    var tokens: Cache

    constructor (clientId: string, ttl: int)
      ensures this.clientId == clientId && this.ttl == ttl && tokens == map[] && Sound(tokens, clientId)
    {
      this.clientId, this.ttl, tokens := clientId, ttl, map[];
    }

    method Get(r: Request) returns (t: Token)
      modifies this`tokens
      ensures tokens == Serve(clientId, ttl, old(tokens), r) && t == tokens[r.userId].token
      ensures old(Sound(tokens, clientId)) ==>
                && Sound(tokens, clientId) && t.sub == r.userId && t.iss == clientId
                && t.exp as real > r.now + Min(BUFFER, ttl as real) - 1.0
    {
      if Sound(tokens, clientId) { ServeKeepsSound(clientId, ttl, tokens, r); }
      if r.userId in tokens && tokens[r.userId].expiresAt - r.now > BUFFER {
        return tokens[r.userId].token;
      }
      var now := Truncated(r.now);
      t := Token(clientId, r.userId, now, now + ttl);
      tokens := tokens[r.userId := Cached(t, r.now + ttl as real)];
    }
  }
}
