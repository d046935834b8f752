/** The issuer's routes (issuer/src/sign.ts, issuer/src/routes/issue.ts, issuer/src/routes/revoke.ts). */
module Issuer {
  import opened Wrappers
  import opened Claims
  import opened Database
  import opened RevocationCache
  import FixedWindow
  import Verifier

  datatype IssueBody = IssueBody(agentId: string, principal: string, scope: seq<string>, aud: string, ttl: int)

  /** The JSON schema of `POST /issue`. */
  predicate SchemaValid(b: IssueBody) {
    && NonBlank(b.agentId) && NonBlank(b.principal) && NonBlank(b.aud) && 1 <= b.ttl <= 3600
    && b.scope != [] && (forall s :: s in b.scope ==> NonBlank(s))
    && (forall i, j :: 0 <= i < j < |b.scope| ==> b.scope[i] != b.scope[j])
  }

  /** `signCredential`. */
  function ClaimsFor(issuer: string, b: IssueBody, nowMs: int, jti: string): CredentialClaims {
    var issuedAt := Verifier.FloorSeconds(nowMs);
    CredentialClaims(issuer, b.agentId, b.aud, issuedAt, issuedAt + b.ttl, jti, b.principal, b.scope, [])
  }

  /** The signed token; `text` is its compact serialization. */
  function SignedToken(claims: CredentialClaims, text: string): Verifier.Token {
    Verifier.Token(text, Some(Verifier.Signed(Some("JWT"), ToPayload(claims))))
  }

  /** One `POST /issue`: the body, the clock, what the JTI generator yields, and the fate of the insert. */
  datatype IssueRequest = IssueRequest(body: IssueBody, nowMs: int, jti: string, text: string, fate: CommandFate)

  datatype IssueReply = BadRequest | ServerError | Released(token: Verifier.Token)

  function ClaimsOf(issuer: string, r: IssueRequest): CredentialClaims {
    ClaimsFor(issuer, r.body, r.nowMs, r.jti)
  }

  function TablesAfterIssue(issuer: string, t: Tables, r: IssueRequest): Tables {
    if SchemaValid(r.body) && r.fate.Applied() && Insertable(t, ClaimsOf(issuer, r))
    then Inserted(t, ClaimsOf(issuer, r)) else t
  }

  function IssueReplyTo(issuer: string, t: Tables, r: IssueRequest): IssueReply {
    if !SchemaValid(r.body) then BadRequest
    else if r.fate.Acknowledged? && Insertable(t, ClaimsOf(issuer, r))
    then Released(SignedToken(ClaimsOf(issuer, r), r.text))
    else ServerError
  }

  method PostIssue(issuer: string, pool: Pool, r: IssueRequest) returns (reply: IssueReply)
    modifies pool
    ensures pool.tables == TablesAfterIssue(issuer, old(pool.tables), r)
    ensures reply == IssueReplyTo(issuer, old(pool.tables), r)
  {
    if !SchemaValid(r.body) {
      return BadRequest;
    }
    var claims := ClaimsFor(issuer, r.body, r.nowMs, r.jti);
    var token := SignedToken(claims, r.text);
    var ok := pool.CreateIssuance(claims, r.fate);
    if !ok {
      return ServerError;
    }
    reply := Released(token);
  }

  // ---- Every issuer run ----

  function TablesAfter(issuer: string, t: Tables, requests: seq<IssueRequest>, n: nat): Tables
    requires n <= |requests|
  {
    if n == 0 then t else TablesAfterIssue(issuer, TablesAfter(issuer, t, requests, n - 1), requests[n - 1])
  }

  predicate IsReleased(issuer: string, t: Tables, requests: seq<IssueRequest>, i: nat)
    requires i < |requests|
  {
    IssueReplyTo(issuer, TablesAfter(issuer, t, requests, i), requests[i]).Released?
  }

  lemma {:induction false} RowsStay(issuer: string, t: Tables, requests: seq<IssueRequest>, i: nat, n: nat, jti: string)
    requires i <= n <= |requests| && jti in TablesAfter(issuer, t, requests, i).issuances
    ensures jti in TablesAfter(issuer, t, requests, n).issuances
    ensures TablesAfter(issuer, t, requests, n).issuances[jti] == TablesAfter(issuer, t, requests, i).issuances[jti]
    decreases n
  {
    if i == n {
    } else {
      RowsStay(issuer, t, requests, i, n - 1, jti);
    }
  }

  /** Every released token has, and keeps, a row that is equal to its claims. */
  lemma {:induction false} ReleasedIsStored(issuer: string, t: Tables, requests: seq<IssueRequest>, i: nat, n: nat)
    requires i < n <= |requests| && IsReleased(issuer, t, requests, i)
    ensures var c, rows := ClaimsOf(issuer, requests[i]), TablesAfter(issuer, t, requests, n).issuances;
      && c.jti in rows
      && rows[c.jti] == Issuance(c.sub, c.principal, c.scope, c.aud, c.iat * 1000, c.exp * 1000, c.delegationChain)
      && rows[c.jti].expiresAt % 1000 == 0
  {
    var c := ClaimsOf(issuer, requests[i]);
    RowsStay(issuer, t, requests, i + 1, n, c.jti);
    assert RowOf(c).expiresAt == c.exp * 1000;
  }

  /** No two released tokens share a JTI, whatever the generator yields. */
  lemma {:induction false} ReleasedJtisDiffer(issuer: string, t: Tables, requests: seq<IssueRequest>, i: nat, j: nat)
    requires i < j < |requests| && IsReleased(issuer, t, requests, i) && IsReleased(issuer, t, requests, j)
    ensures requests[i].jti != requests[j].jti
  {
    ReleasedIsStored(issuer, t, requests, i, j);
  }

  /** 400, 200 with a token, or 500: beyond the schema, only the JTI and the database decide. The checks of
      the table never fire, since the schema already demands a scope and a positive ttl. */
  lemma IssueAnswers(issuer: string, t: Tables, r: IssueRequest)
    ensures IssueReplyTo(issuer, t, r)
         == if !SchemaValid(r.body) then BadRequest
            else if r.jti !in t.issuances && r.fate.Acknowledged?
            then Released(SignedToken(ClaimsOf(issuer, r), r.text))
            else ServerError
    ensures TablesAfterIssue(issuer, t, r)
         == if SchemaValid(r.body) && r.jti !in t.issuances && r.fate.Applied()
            then t.(issuances := t.issuances[r.jti := RowOf(ClaimsOf(issuer, r))]) else t
  {
  }

  /** What a 400 can mean: a blank text, a ttl outside one second to one hour, or a scope that is empty or
      repeats an entry. */
  lemma BadRequestIff(issuer: string, t: Tables, r: IssueRequest)
    ensures var b := r.body;
      IssueReplyTo(issuer, t, r) == BadRequest <==>
      || (exists s :: (s in [b.agentId, b.principal, b.aud] || s in b.scope) && !NonBlank(s))
      || b.ttl < 1 || b.ttl > 3600
      || |b.scope| == 0
      || exists s :: s in b.scope && multiset(b.scope)[s] > 1
  {
    assert (exists s :: s in r.body.scope && multiset(r.body.scope)[s] > 1) <==> Repeats(r.body.scope) by {
      RepeatsIff(r.body.scope);
    }
    assert forall s :: s in [r.body.agentId, r.body.principal, r.body.aud] <==>
      s == r.body.agentId || s == r.body.principal || s == r.body.aud;
    var b := r.body;
    assert b.agentId in [b.agentId, b.principal, b.aud] && b.principal in [b.agentId, b.principal, b.aud]
           && b.aud in [b.agentId, b.principal, b.aud];
  }

  predicate Repeats(scope: seq<string>) {
    exists i, j :: 0 <= i < j < |scope| && scope[i] == scope[j]
  }

  lemma {:induction false} CountAround(scope: seq<string>, i: nat)
    requires i < |scope|
    ensures multiset(scope)[scope[i]]
         == multiset(scope[..i])[scope[i]] + 1 + multiset(scope[i + 1..])[scope[i]]
  {
    assert scope == scope[..i] + ([scope[i]] + scope[i + 1..]);
  }

  lemma {:induction false} TwoPlaces(scope: seq<string>, i: nat, j: nat)
    requires i < j < |scope| && scope[i] == scope[j]
    ensures multiset(scope)[scope[j]] > 1
  {
    CountAround(scope, j);
    assert scope[..j][i] in multiset(scope[..j]);
  }

  lemma {:induction false} TwoCounts(scope: seq<string>, i: nat)
    requires i < |scope| && multiset(scope)[scope[i]] > 1
    ensures Repeats(scope)
  {
    CountAround(scope, i);
    if scope[i] in multiset(scope[..i]) {
      EarlierPlace(scope, i);
    } else {
      LaterPlace(scope, i);
    }
  }

  lemma {:induction false} EarlierPlace(scope: seq<string>, i: nat)
    requires i < |scope| && scope[i] in multiset(scope[..i])
    ensures Repeats(scope)
  {
    var j :| 0 <= j < i && scope[..i][j] == scope[i];
    assert scope[j] == scope[i];
  }

  lemma {:induction false} LaterPlace(scope: seq<string>, i: nat)
    requires i < |scope| && scope[i] in multiset(scope[i + 1..])
    ensures Repeats(scope)
  {
    var j :| 0 <= j < |scope| - i - 1 && scope[i + 1..][j] == scope[i];
    assert scope[i] == scope[i + 1 + j];
  }

  lemma {:induction false} RepeatsIff(scope: seq<string>)
    ensures (exists s :: s in scope && multiset(scope)[s] > 1) <==> Repeats(scope)
  {
    if Repeats(scope) {
      var i, j :| 0 <= i < j < |scope| && scope[i] == scope[j];
      TwoPlaces(scope, i, j);
    }
    if exists s :: s in scope && multiset(scope)[s] > 1 {
      var i :| 0 <= i < |scope| && multiset(scope)[scope[i]] > 1;
      TwoCounts(scope, i);
    }
  }

  /** The claims that the request stands for. */
  function Stated(issuer: string, b: IssueBody, issuedSeconds: int, jti: string): CredentialClaims {
    CredentialClaims(iss := issuer, sub := b.agentId, aud := b.aud, iat := issuedSeconds,
                     exp := issuedSeconds + b.ttl, jti := jti, principal := b.principal, scope := b.scope,
                     delegationChain := [])
  }

  /** The attempt presents the token of a schema-valid request that was signed in the second
      `issuedSeconds`, for its audience. */
  predicate Presents(issuer: string, b: IssueBody, issuedMs: int, issuedSeconds: int, jti: string,
                     a: Verifier.Attempt)
  {
    && SchemaValid(b) && NonBlank(issuer)
    && issuedSeconds * 1000 <= issuedMs < issuedSeconds * 1000 + 1000
    && a.token == SignedToken(ClaimsFor(issuer, b, issuedMs, jti), a.token.text)
    && a.audience == b.aud && Verifier.Complete(a)
  }

  /** Issue to verify: before exp, unrevoked and within budget, the token of a schema-valid body is allowed
      for each action of its scope, with the claims the body asked for, exactly when the generated JTI is
      not blank. */
  lemma IssuedTokenIsAllowed(issuer: string, b: IssueBody, issuedMs: int, issuedSeconds: int, jti: string,
                             store: FixedWindow.Store, a: Verifier.Attempt)
    requires Presents(issuer, b, issuedMs, issuedSeconds, jti, a) && a.requestedAction in b.scope
    requires a.nowMs < (issuedSeconds + b.ttl) * 1000
    requires a.revoked == Success(false)
    requires Verifier.LimiterAdmits(store, Stated(issuer, b, issuedSeconds, jti), a)
    ensures Verifier.Decide(issuer, store, a)
         == if NonBlank(jti) then Verifier.Allow(Stated(issuer, b, issuedSeconds, jti))
            else Verifier.Deny(Verifier.InvalidClaims)
  {
    var claims := Stated(issuer, b, issuedSeconds, jti);
    assert claims == ClaimsFor(issuer, b, issuedMs, jti);
    ClaimsRoundTrip(claims);
    assert WellFormed(claims) <==> NonBlank(jti);
    if NonBlank(jti) {
      Verifier.AllowIff(issuer, store, a, claims);
    }
  }

  /** From exp on it is denied as expired, whatever else holds. */
  lemma IssuedTokenExpires(issuer: string, b: IssueBody, issuedMs: int, issuedSeconds: int, jti: string,
                           store: FixedWindow.Store, a: Verifier.Attempt)
    requires Presents(issuer, b, issuedMs, issuedSeconds, jti, a)
    requires (issuedSeconds + b.ttl) * 1000 <= a.nowMs
    ensures Verifier.Decide(issuer, store, a) == Verifier.Deny(Verifier.Expired)
  {
    assert ClaimsFor(issuer, b, issuedMs, jti) == Stated(issuer, b, issuedSeconds, jti);
    Verifier.TokenDenialReasons(issuer, store, a);
  }

  // ---- Revocation ----

  datatype RevokeReply = NotFound | Propagated(revocation: Revocation) | Unpropagated

  function KeysAfterRevoke(keys: Keyspace, row: Option<Revocation>, publishAt: int, fate: CommandFate): Keyspace {
    match row
    case None => keys
    case Some(r) => Published(keys, r, publishAt, fate)
  }

  /** 404, 200 with the stored row, or 503. */
  function RevokeReplyTo(row: Option<Revocation>, publishAt: int, fate: CommandFate): RevokeReply {
    match row
    case None => NotFound
    case Some(r) =>
      if RevocationExpirySeconds(r.expiresAt, publishAt).None? || fate.Acknowledged? then Propagated(r)
      else Unpropagated
  }

  /** `POST /revoke`: commit, publish, reply. `fate` is that of the Redis write. */
  method PostRevoke(pool: Pool, redis: Redis, jti: string, reason: Option<string>,
                    commitAt: int, publishAt: int, fate: CommandFate) returns (reply: RevokeReply)
    modifies pool, redis
    ensures pool.tables == Revoked(old(pool.tables), jti, reason, commitAt)
    ensures var row := StoredRevocation(pool.tables, jti);
      && reply == RevokeReplyTo(row, publishAt, fate)
      && redis.keys == KeysAfterRevoke(old(redis.keys), row, publishAt, fate)
  {
    var revocation := pool.RevokeIssuance(jti, reason, commitAt);
    if revocation.None? {
      return NotFound;
    }
    var published := CacheRevocation(redis, revocation.value, publishAt, fate);
    if published.Failure? {
      return Unpropagated;
    }
    reply := Propagated(revocation.value);
  }

  /** 404 exactly for a JTI without an issuance; 503 exactly when a publish was due and failed, so that the
      caller retries; otherwise 200 with the first revocation. After a 200 a live credential is cached as
      revoked until it expires. */
  lemma RevokeAnswers(t: Tables, keys: Keyspace, jti: string, reason: Option<string>, commitAt: int, publishAt: int,
                      fate: CommandFate)
    requires t.Valid()
    ensures var row := StoredRevocation(Revoked(t, jti, reason, commitAt), jti);
      var reply, after := RevokeReplyTo(row, publishAt, fate), KeysAfterRevoke(keys, row, publishAt, fate);
      if jti !in t.issuances then reply == NotFound && after == keys
      else
        var exp := t.issuances[jti].expiresAt;
        var first := if jti in t.revocations then t.revocations[jti] else RevocationRow(commitAt, reason);
        && reply == (if publishAt < exp && !fate.Acknowledged? then Unpropagated
                     else Propagated(Revocation(jti, first.revokedAt, first.reason, exp)))
        && after == if publishAt < exp && fate.Applied() then keys[RevocationKey(jti) := Entry(Flag, exp)] else keys
  {
    FirstRevocationWins(t, jti, reason, commitAt, jti);
  }
}
