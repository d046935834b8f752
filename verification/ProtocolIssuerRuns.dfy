/** Runs whose credentials all come from `POST /issue`, and what its ttl ceiling means for revocations. */
module ProtocolIssuerRuns {
  import opened Claims
  import opened Database
  import opened Protocol
  import opened ProtocolInvariant
  import opened ProtocolSafety
  import opened ProtocolStaleness
  import Issuer

  const MAX_LIFETIME: int := 3600 * 1000

  /** The claims of a schema-valid request that was signed by `now`. */
  ghost predicate FromIssueRoute(claims: CredentialClaims, now: int) {
    exists issuer: string, r: Issuer.IssueRequest ::
      claims == Issuer.ClaimsOf(issuer, r) && Issuer.SchemaValid(r.body) && r.nowMs <= now
  }

  ghost predicate IssuerStep(s: State, e: Event) {
    e.Issue? ==> FromIssueRoute(e.claims, s.now)
  }

  ghost predicate IssuerRun(c: Config, s: State, events: seq<Event>)
    requires ValidRun(c, s, events)
    decreases |events|
  {
    events != [] ==> IssuerStep(s, events[0]) && IssuerRun(c, Next(c, s, events[0]), events[1..])
  }

  lemma RouteLifetime(claims: CredentialClaims, now: int)
    requires FromIssueRoute(claims, now)
    ensures claims.iat * 1000 <= now && 1 <= claims.exp - claims.iat <= 3600
  {
  }

  /** No credential, and no revoked credential from its revocation on, has more than the ceiling to live. */
  ghost predicate ShortLived(t: Tables, now: int) {
    && (forall jti :: jti in t.issuances ==> t.issuances[jti].expiresAt <= now + MAX_LIFETIME)
    && (forall jti :: jti in t.revocations && jti in t.issuances ==>
          t.issuances[jti].expiresAt <= t.revocations[jti].revokedAt + MAX_LIFETIME)
  }

  lemma ShortLivedStep(c: Config, s: State, e: Event)
    requires TablesSound(s.tables, s.now) && Enabled(s, e) && IssuerStep(s, e) && ShortLived(s.tables, s.now)
    ensures ShortLived(Next(c, s, e).tables, Next(c, s, e).now)
  {
    if e.Issue? {
      RouteLifetime(e.claims, s.now);
    }
    if !WritesTables(e) {
      TablesUntouched(c, s, e);
    }
  }

  lemma {:induction false} ShortLivedAlong(c: Config, s: State, events: seq<Event>)
    requires Invariant(s) && ValidRun(c, s, events) && IssuerRun(c, s, events) && ShortLived(s.tables, s.now)
    ensures ShortLived(Final(c, s, events).tables, Final(c, s, events).now)
    decreases |events|
  {
    if events == [] {
    } else {
      InvariantStep(c, s, events[0]);
      ShortLivedStep(c, s, events[0]);
      ShortLivedAlong(c, Next(c, s, events[0]), events[1..]);
    }
  }

  /** In every run of the issuer a revocation stops mattering within an hour of its commit. */
  lemma LiveRevocationsAreYoung(c: Config, start: int, events: seq<Event>, jti: string)
    requires ValidRun(c, Init(start), events) && IssuerRun(c, Init(start), events)
    requires LiveRevocation(Final(c, Init(start), events), jti)
    ensures var s := Final(c, Init(start), events); s.now < CommittedAt(s, jti) + MAX_LIFETIME
  {
    ShortLivedAlong(c, Init(start), events);
  }

  lemma LetterIsNonBlank()
    ensures NonBlank("r")
  {
    assert 'r' in "r" && !IsWhitespace('r');
  }

  /** A request that `/issue` grants for an hour, made at `now`. */
  lemma HourLongClaims(now: int) returns (claims: CredentialClaims)
    requires now % 1000 == 0
    ensures FromIssueRoute(claims, now) && claims.jti == "j" && claims.scope != []
    ensures claims.iat * 1000 == now && claims.exp * 1000 == now + MAX_LIFETIME
  {
    LetterIsNonBlank();
    var request := Issuer.IssueRequest(Issuer.IssueBody("r", "r", ["r"], "r", 3600), now, "j", "", Acknowledged);
    claims := Issuer.ClaimsOf("r", request);
    assert Issuer.SchemaValid(request.body);
  }
}
