/** The revocation protocol seen from `verifyCredential`. */
module EndToEnd {
  import opened Wrappers
  import opened Claims
  import opened Protocol
  import opened ProtocolInvariant
  import opened ProtocolSafety
  import opened ProtocolStaleness
  import FixedWindow
  import Verifier

  /** In every reachable state, "revoked" is the truth, and an answer of PostgreSQL is the whole truth. */
  lemma RevokedAnswersAreTrue(c: Config, start: int, events: seq<Event>, check: Event, jti: string, revoked: bool)
    requires ValidRun(c, Init(start), events) && Enabled(Final(c, Init(start), events), check)
    requires OutcomeOf(Final(c, Init(start), events), check) == Answered(jti, revoked)
    ensures revoked ==> jti in Final(c, Init(start), events).tables.revocations
    ensures check.CheckFallback? ==> (revoked <==> jti in Final(c, Init(start), events).tables.revocations)
  {
    InvariantAlong(c, Init(start), events);
    AnswerIsSound(Final(c, Init(start), events), check, jti, revoked);
  }

  lemma AnswerIsSound(s: State, check: Event, jti: string, revoked: bool)
    requires Invariant(s) && Enabled(s, check) && OutcomeOf(s, check) == Answered(jti, revoked)
    ensures revoked ==> jti in s.tables.revocations
    ensures check.CheckFallback? ==> (revoked <==> jti in s.tables.revocations)
  {
  }

  /** What `isRevoked` returns or throws to the verifier, once the check is over. */
  function StatusOf(outcome: Outcome): Option<Result<bool>> {
    match outcome
    case Answered(_, revoked) => Some(Success(revoked))
    case Unavailable(_) => Some(Failure)
    case _ => None
  }

  /** The attempt presents the credential that the check is about, and goes by the check's outcome. */
  predicate Relies(issuer: string, a: Verifier.Attempt, claims: CredentialClaims, outcome: Outcome) {
    && Verifier.Authentic(issuer, a, claims)
    && (outcome.Answered? || outcome.Unavailable?) && outcome.jti == claims.jti
    && StatusOf(outcome) == Some(a.revoked)
  }

  /** After `/revoke` has answered 200 for a JTI, `verifyCredential` denies every authentic token with
      that JTI whose revocation check ends from then on, from Redis before exp or from PostgreSQL at any
      time; and it consumes no capacity. */
  lemma AcknowledgedNeverAllowed(c: Config, start: int, before: seq<Event>, reply: Event, between: seq<Event>,
                                 check: Event, issuer: string, store: FixedWindow.Store, a: Verifier.Attempt,
                                 claims: CredentialClaims)
    requires ValidRun(c, Init(start), before) && Enabled(Final(c, Init(start), before), reply)
    requires var s := Final(c, Init(start), before);
      Reply(s, reply).Some? && Reply(s, reply).value.jti == claims.jti
      && ValidRun(c, Next(c, s, reply), between)
      && HarmlessWipes(c, Next(c, s, reply), between, claims.jti)
    requires var t := Final(c, Next(c, Final(c, Init(start), before), reply), between);
      Enabled(t, check) && Relies(issuer, a, claims, OutcomeOf(t, check))
      && (check.CheckRead? && claims.jti in t.tables.issuances ==> t.now < t.tables.issuances[claims.jti].expiresAt)
    ensures Verifier.Decide(issuer, store, a)
         == Verifier.Deny(if a.revoked.Success? then Verifier.Revoked else Verifier.VerificationUnavailable)
    ensures Verifier.StoreAfterAttempt(issuer, store, a) == store
  {
    var t := Final(c, Next(c, Final(c, Init(start), before), reply), between);
    if a.revoked.Success? {
      AcknowledgedNeverMissed(c, start, before, reply, between, check, claims.jti, a.revoked.value);
    }
    Verifier.AuthenticDenialReasons(issuer, store, a, claims);
    RevocationStopsEarly(issuer, store, a, claims);
  }

  /** A revocation written behind the issuer's back lets an authentic token through for less than
      3 intervals + d, whatever fails meanwhile. */
  lemma StaleAllowsEnd(c: Config, start: int, events: seq<Event>, check: Event, d: int,
                       issuer: string, store: FixedWindow.Store, a: Verifier.Attempt, claims: CredentialClaims)
    requires ValidRun(c, Init(start), events) && Timely(c, Init(start), events, d, claims.jti)
    ensures var t := Final(c, Init(start), events);
      Enabled(t, check) && Relies(issuer, a, claims, OutcomeOf(t, check)) && LiveRevocation(t, claims.jti)
      && Verifier.Decide(issuer, store, a).Allow?
      ==> check.CheckRead? && t.now < CommittedAt(t, claims.jti) + 3 * c.Interval() + d
  {
    var t := Final(c, Init(start), events);
    if Enabled(t, check) && Relies(issuer, a, claims, OutcomeOf(t, check)) && LiveRevocation(t, claims.jti)
       && Verifier.Decide(issuer, store, a).Allow?
    {
      Verifier.AuthenticDenialReasons(issuer, store, a, claims);
      assert a.revoked == Success(false);
      RevokedAnswersAreTrue(c, start, events, check, claims.jti, false);
      BoundedStaleness(c, start, events, check, claims.jti, d);
    }
  }

  lemma RevocationStopsEarly(issuer: string, store: FixedWindow.Store, a: Verifier.Attempt, claims: CredentialClaims)
    requires Verifier.Authentic(issuer, a, claims) && a.revoked != Success(false)
    ensures Verifier.StoreAfterAttempt(issuer, store, a) == store
  {
    if Verifier.StoreAfterAttempt(issuer, store, a) != store {
      Verifier.RefusedLeavesCounters(issuer, store, a);
    }
  }
}
