/** `verifyCredential`: the order of the checks and what consumes capacity (verifier-sdk/src/verify.ts). */
module Verifier {
  import opened Wrappers
  import opened Claims
  import FixedWindow
  import RateLimiter
  import RateLimitKey

  datatype DenialReason =
    | InvalidSignature | Expired | IssuerMismatch | AudMismatch | InvalidClaims
    | Revoked | ScopeExceeded | VerificationUnavailable

  datatype Decision =
    | Allow(claims: CredentialClaims)
    | Deny(reason: DenialReason)
    | RateLimited(retryAfterSeconds: int)

  /** A bearer token. The signature is ideal: `content` is present exactly when the text is an
      ES256 token of the configured key, and then it is what was signed. */
  datatype Token = Token(text: string, content: Option<Signed>)

  datatype Signed = Signed(typ: Option<string>, payload: JwtPayload)

  datatype JoseError = JWTExpired | ClaimValidationFailed(claim: string) | OtherJoseError

  datatype JoseResult = Verified(signed: Signed) | Threw(error: JoseError)

  function FloorSeconds(millis: int): int {
    millis / 1000
  }

  predicate HasAudience(aud: Json, audience: string) {
    aud == JString(audience) || (aud.JArray? && JString(audience) in aud.items)
  }

  /** `jwtVerify` with an issuer, an audience and no clock tolerance. */
  function JwtVerify(token: Token, issuer: string, audience: string, nowMs: int): JoseResult {
    match token.content
    case None => Threw(OtherJoseError)
    case Some(signed) =>
      var p := signed.payload;
      if p.iss.Absent? then Threw(ClaimValidationFailed("iss"))
      else if p.aud.Absent? then Threw(ClaimValidationFailed("aud"))
      else if p.iss != JString(issuer) then Threw(ClaimValidationFailed("iss"))
      else if !HasAudience(p.aud, audience) then Threw(ClaimValidationFailed("aud"))
      else if !p.iat.Absent? && !p.iat.JNumber? then Threw(ClaimValidationFailed("iat"))
      else if !p.exp.Absent? && !p.exp.JNumber? then Threw(ClaimValidationFailed("exp"))
      else if p.exp.JNumber? && p.exp.n <= FloorSeconds(nowMs) as real then Threw(JWTExpired)
      else Verified(signed)
  }

  function MapJoseError(error: JoseError): DenialReason {
    match error
    case JWTExpired => Expired
    case ClaimValidationFailed(claim) =>
      if claim == "aud" then AudMismatch else if claim == "iss" then IssuerMismatch else InvalidClaims
    case OtherJoseError => InvalidSignature
  }

  /** One call: what is asked, and what the clock, the stores and the network answer while it runs. */
  datatype Attempt = Attempt(
    token: Token, requestedAction: string, audience: string,
    nowMs: int, revoked: Result<bool>, limiter: Option<LimiterSide>)

  /** Present when the verifier is configured with `checkRateLimit`. */
  datatype LimiterSide = LimiterSide(
    policy: Result<Option<RateLimiter.RateLimitPolicy>>, redisNow: int, delivery: RateLimiter.Delivery)

  datatype Screening = Passed(claims: CredentialClaims) | Refused(reason: DenialReason)

  /** Everything that precedes the rate limiter. */
  function Screen(issuer: string, a: Attempt): Screening {
    if !NonBlank(a.token.text) || !NonBlank(a.requestedAction) || !NonBlank(a.audience) then Refused(InvalidClaims)
    else
      match JwtVerify(a.token, issuer, a.audience, a.nowMs)
      case Threw(error) => Refused(MapJoseError(error))
      case Verified(signed) =>
        match ToVerifiedClaims(signed.payload)
        case None => Refused(InvalidClaims)
        case Some(claims) =>
          if signed.typ != Some("JWT") then Refused(InvalidClaims)
          else if a.revoked.Failure? then Refused(VerificationUnavailable)
          else if a.revoked.value then Refused(Revoked)
          else if a.requestedAction !in claims.scope then Refused(ScopeExceeded)
          else Passed(claims)
  }

  function ContextOf(claims: CredentialClaims, a: Attempt): RateLimitKey.Context {
    RateLimitKey.Context(claims.principal, a.audience, a.requestedAction)
  }

  function LimiterDecision(claims: CredentialClaims, r: Result<RateLimiter.RateLimitResult>): Decision {
    match r
    case Failure => Deny(VerificationUnavailable)
    case Success(Limited(_, _, retryAfter)) => RateLimited(retryAfter)
    case Success(_) => Allow(claims)
  }

  /** The script call an attempt makes, if it makes one. It depends on no counter. */
  function ScriptOf(issuer: string, a: Attempt): Option<(RateLimitKey.Context, FixedWindow.PositiveCall)> {
    match Screen(issuer, a)
    case Refused(_) => None
    case Passed(claims) =>
      if a.limiter.Some? && RateLimiter.ScriptRuns(a.limiter.value.policy, a.limiter.value.delivery)
      then Some((ContextOf(claims, a),
                 RateLimiter.CallFor(a.limiter.value.policy.value.value, a.limiter.value.redisNow)))
      else None
  }

  function Decide(issuer: string, store: FixedWindow.Store, a: Attempt): Decision {
    match Screen(issuer, a)
    case Refused(reason) => Deny(reason)
    case Passed(claims) =>
      match a.limiter
      case None => Allow(claims)
      case Some(l) =>
        LimiterDecision(claims,
          RateLimiter.CheckResult(FixedWindow.Lookup(store, RateLimitKey.Of(ContextOf(claims, a))),
                                  l.policy, l.redisNow, l.delivery))
  }

  function StoreAfterAttempt(issuer: string, store: FixedWindow.Store, a: Attempt): FixedWindow.Store {
    match ScriptOf(issuer, a)
    case None => store
    case Some((context, call)) =>
      store[RateLimitKey.Of(context) :=
            FixedWindow.After(FixedWindow.Lookup(store, RateLimitKey.Of(context)), call)]
  }

  method VerifyCredential(issuer: string, redis: FixedWindow.CounterStore, a: Attempt) returns (d: Decision)
    modifies redis
    ensures d == Decide(issuer, old(redis.hashes), a)
    ensures redis.hashes == StoreAfterAttempt(issuer, old(redis.hashes), a)
  {
    if !NonBlank(a.token.text) || !NonBlank(a.requestedAction) || !NonBlank(a.audience) {
      return Deny(InvalidClaims);
    }
    var verified := JwtVerify(a.token, issuer, a.audience, a.nowMs);
    if verified.Threw? {
      return Deny(MapJoseError(verified.error));
    }
    var payload, typ := verified.signed.payload, verified.signed.typ;
    var claims := ToVerifiedClaims(payload);
    if typ != Some("JWT") || claims.None? {
      return Deny(InvalidClaims);
    }
    if a.revoked.Failure? {
      return Deny(VerificationUnavailable);
    }
    var revoked := a.revoked.value;
    if revoked {
      return Deny(Revoked);
    }
    if a.requestedAction !in claims.value.scope {
      return Deny(ScopeExceeded);
    }
    if a.limiter.Some? {
      var l := a.limiter.value;
      var rateLimit := RateLimiter.CheckRateLimit(redis, ContextOf(claims.value, a), l.policy, l.redisNow, l.delivery);
      if rateLimit.Failure? {
        return Deny(VerificationUnavailable);
      }
      if rateLimit.value.Limited? {
        return RateLimited(rateLimit.value.retryAfterSeconds);
      }
    }
    return Allow(claims.value);
  }

  /** The token is the trusted issuer's, for this audience, unexpired by section 4.1.4 of RFC 7519 and
      well formed, and `claims` is what it says. */
  predicate Authentic(issuer: string, a: Attempt, claims: CredentialClaims) {
    && NonBlank(a.token.text) && NonBlank(a.requestedAction)
    && a.token.content.Some? && a.token.content.value.typ == Some("JWT")
    && ToVerifiedClaims(a.token.content.value.payload) == Some(claims)
    && claims.iss == issuer && claims.aud == a.audience
    && a.nowMs < claims.exp * 1000
  }

  predicate InScope(a: Attempt, claims: CredentialClaims) {
    a.revoked == Success(false) && a.requestedAction in claims.scope
  }

  /** What the limiter answers; an absent limiter sets no limit. */
  function LimiterAnswer(store: FixedWindow.Store, claims: CredentialClaims, a: Attempt):
    Result<RateLimiter.RateLimitResult>
  {
    match a.limiter
    case None => Success(RateLimiter.NoPolicy)
    case Some(l) =>
      RateLimiter.CheckResult(FixedWindow.Lookup(store, RateLimitKey.Of(ContextOf(claims, a))),
                              l.policy, l.redisNow, l.delivery)
  }

  predicate LimiterAdmits(store: FixedWindow.Store, claims: CredentialClaims, a: Attempt) {
    LimiterAnswer(store, claims, a).Success? && !LimiterAnswer(store, claims, a).value.Limited?
  }

  lemma ScreenPasses(issuer: string, a: Attempt, claims: CredentialClaims)
    ensures Screen(issuer, a) == Passed(claims) <==> Authentic(issuer, a, claims) && InScope(a, claims)
  {
  }

  /** An attempt is allowed exactly when its token is authentic, known not to be revoked, in scope and
      within budget. */
  lemma AllowIff(issuer: string, store: FixedWindow.Store, a: Attempt, claims: CredentialClaims)
    ensures Decide(issuer, store, a) == Allow(claims) <==>
      Authentic(issuer, a, claims) && InScope(a, claims) && LimiterAdmits(store, claims, a)
  {
    ScreenPasses(issuer, a, claims);
    match Screen(issuer, a)
    case Refused(_) =>
    case Passed(other) => ScreenPasses(issuer, a, other);
  }

  /** Whoever is allowed is fully named: no claim of an allowed credential is blank, and its scope covers
      the action. */
  lemma AllowedClaimsAreComplete(issuer: string, store: FixedWindow.Store, a: Attempt, claims: CredentialClaims)
    requires Decide(issuer, store, a) == Allow(claims)
    ensures var texts := [claims.iss, claims.sub, claims.aud, claims.jti, claims.principal];
      forall s :: s in texts || s in claims.scope || s in claims.delegationChain ==> NonBlank(s)
    ensures a.requestedAction in claims.scope && claims.iat < claims.exp
  {
    AllowIff(issuer, store, a, claims);
    VerifiedClaimsIff(a.token.content.value.payload, claims);
  }

  /** Why an authentic token is denied: revocation comes before scope, and scope before the budget. */
  lemma AuthenticDenialReasons(issuer: string, store: FixedWindow.Store, a: Attempt, claims: CredentialClaims)
    requires Authentic(issuer, a, claims)
    ensures var d, limiter := Decide(issuer, store, a), LimiterAnswer(store, claims, a);
      && (d == Deny(Revoked) <==> a.revoked == Success(true))
      && (d == Deny(ScopeExceeded) <==> a.revoked == Success(false) && a.requestedAction !in claims.scope)
      && (d == Deny(VerificationUnavailable) <==> a.revoked.Failure? || (InScope(a, claims) && limiter.Failure?))
      && (d.RateLimited? <==> InScope(a, claims) && limiter.Success? && limiter.value.Limited?)
      && (d.RateLimited? ==> d.retryAfterSeconds == limiter.value.retryAfterSeconds)
  {
    ScreenPasses(issuer, a, claims);
  }

  /** A token that is not authentic is denied for the token, not for its status or its budget. */
  lemma OtherTokensAreRefused(issuer: string, store: FixedWindow.Store, a: Attempt)
    requires forall claims :: !Authentic(issuer, a, claims)
    ensures Decide(issuer, store, a).Deny?
    ensures Decide(issuer, store, a).reason in
      {InvalidSignature, Expired, IssuerMismatch, AudMismatch, InvalidClaims}
  {
    if Screen(issuer, a).Passed? {
      ScreenPasses(issuer, a, Screen(issuer, a).claims);
    } else if Screen(issuer, a).reason in {Revoked, ScopeExceeded, VerificationUnavailable} {
      var claims := ToVerifiedClaims(a.token.content.value.payload).value;
      assert Authentic(issuer, a, claims);
    }
  }

  /** A counter moves only for an authentic, unrevoked credential in scope: a denial for signature, expiry,
      issuer, audience, claims, revocation or scope consumes no capacity. */
  lemma RefusedLeavesCounters(issuer: string, store: FixedWindow.Store, a: Attempt)
    ensures StoreAfterAttempt(issuer, store, a) != store ==>
      exists claims :: Authentic(issuer, a, claims) && InScope(a, claims)
    ensures var d := Decide(issuer, store, a);
      d.Deny? && d.reason != VerificationUnavailable ==> StoreAfterAttempt(issuer, store, a) == store
  {
    match Screen(issuer, a)
    case Refused(_) =>
    case Passed(claims) => ScreenPasses(issuer, a, claims);
  }

  // ---- What the limiter adds ----

  /** An authentic attempt in scope that makes the script run, and the identity and action it runs for. */
  ghost predicate Spends(issuer: string, a: Attempt, identity: RateLimitKey.Context) {
    && (exists claims ::
          Authentic(issuer, a, claims) && InScope(a, claims)
          && identity == RateLimitKey.Context(claims.principal, a.audience, a.requestedAction))
    && AsksScript(a)
  }

  /** There is a valid policy row, and the call reaches Redis, whether or not its reply comes back. */
  predicate AsksScript(a: Attempt) {
    && a.limiter.Some? && a.limiter.value.policy.Success? && a.limiter.value.policy.value.Some?
    && a.limiter.value.policy.value.value.maxRequests > 0 && a.limiter.value.policy.value.value.windowSeconds > 0
    && (a.limiter.value.delivery.Delivered? || a.limiter.value.delivery.ReplyLost?)
  }

  function LimiterCall(a: Attempt): FixedWindow.PositiveCall
    requires AsksScript(a)
  {
    var policy := a.limiter.value.policy.value.value;
    FixedWindow.Call(a.limiter.value.redisNow, policy.windowSeconds, policy.maxRequests)
  }

  /** The script runs for the principal of the token, the audience and the action, whatever the JTI. */
  lemma ScriptOfSpender(issuer: string, a: Attempt, identity: RateLimitKey.Context)
    ensures Spends(issuer, a, identity) <==> ScriptOf(issuer, a).Some? && ScriptOf(issuer, a).value.0 == identity
    ensures Spends(issuer, a, identity) ==> ScriptOf(issuer, a).value.1 == LimiterCall(a)
  {
    if ScriptOf(issuer, a).Some? {
      ScreenPasses(issuer, a, Screen(issuer, a).claims);
    }
    if Spends(issuer, a, identity) {
      var claims :| Authentic(issuer, a, claims) && InScope(a, claims)
                    && identity == RateLimitKey.Context(claims.principal, a.audience, a.requestedAction);
      ScreenPasses(issuer, a, claims);
    }
  }

  /** The counter of a spender's identity takes its call, even if the reply is lost. No other attempt and no
      other counter moves. */
  lemma SpendersMoveCounters(issuer: string, store: FixedWindow.Store, a: Attempt, identity: RateLimitKey.Context)
    ensures var key := RateLimitKey.Of(identity);
      Spends(issuer, a, identity) ==>
        StoreAfterAttempt(issuer, store, a)
        == store[key := FixedWindow.After(FixedWindow.Lookup(store, key), LimiterCall(a))]
    ensures (forall x :: !Spends(issuer, a, x)) ==> StoreAfterAttempt(issuer, store, a) == store
  {
    ScriptOfSpender(issuer, a, identity);
    if ScriptOf(issuer, a).Some? {
      ScriptOfSpender(issuer, a, ScriptOf(issuer, a).value.0);
    }
  }

  /** Without a limiter, or without a policy row, an attempt that gets this far is allowed. If the policy
      cannot be read or the script not be asked or heard, it is denied: outages fail closed. */
  lemma LimiterOutagesFailClosed(issuer: string, store: FixedWindow.Store, a: Attempt, claims: CredentialClaims)
    requires Authentic(issuer, a, claims) && InScope(a, claims)
    ensures a.limiter.None? || a.limiter.value.policy == Success(None) ==> Decide(issuer, store, a) == Allow(claims)
    ensures a.limiter.Some?
      && (a.limiter.value.policy.Failure?
          || (a.limiter.value.policy.value.Some?
              && (!a.limiter.value.policy.value.value.Positive() || !a.limiter.value.delivery.Delivered?)))
      ==> Decide(issuer, store, a) == Deny(VerificationUnavailable)
  {
    ScreenPasses(issuer, a, claims);
  }

  /** A script that answers decides: admission by the counter of the principal, the audience and the
      action allows, and refusal denies until that counter's window resets. */
  lemma ScriptDecides(issuer: string, store: FixedWindow.Store, a: Attempt, claims: CredentialClaims)
    requires Authentic(issuer, a, claims) && InScope(a, claims)
    requires a.limiter.Some? && a.limiter.value.policy.Success? && a.limiter.value.policy.value.Some?
    requires a.limiter.value.policy.value.value.Positive() && a.limiter.value.delivery.Delivered?
    ensures
      var policy, now := a.limiter.value.policy.value.value, a.limiter.value.redisNow;
      var key := RateLimitKey.Of(RateLimitKey.Context(claims.principal, a.audience, a.requestedAction));
      var reply := FixedWindow.ReplyTo(FixedWindow.Lookup(store, key), RateLimiter.CallFor(policy, now));
      Decide(issuer, store, a)
      == if !RateLimiter.IsSafe(reply.count) || !RateLimiter.IsSafe(reply.resetAt) || !RateLimiter.IsSafe(now)
         then Deny(VerificationUnavailable)
         else if reply.allowed == 1 then Allow(claims) else RateLimited(reply.resetAt - now)
  {
    var key := RateLimitKey.Of(RateLimitKey.Context(claims.principal, a.audience, a.requestedAction));
    ScreenPasses(issuer, a, claims);
    RateLimiter.ScriptReplyAccepted(FixedWindow.Lookup(store, key), a.limiter.value.policy.value.value,
                                    a.limiter.value.redisNow);
  }

  // ---- Why other tokens are denied ----

  predicate Complete(a: Attempt) {
    NonBlank(a.token.text) && NonBlank(a.requestedAction) && NonBlank(a.audience)
  }

  predicate ForAudience(p: JwtPayload, audience: string) {
    p.aud == JString(audience) || (p.aud.JArray? && JString(audience) in p.aud.items)
  }

  /** Which reason each token gets that is not authentic. Where several apply, the order is: signature,
      missing issuer, missing audience, issuer, audience, then expiry. */
  lemma TokenDenialReasons(issuer: string, store: FixedWindow.Store, a: Attempt)
    requires Complete(a)
    ensures Decide(issuer, store, a) == Deny(InvalidSignature) <==> a.token.content.None?
    ensures a.token.content.Some? ==>
      var p, d := a.token.content.value.payload, Decide(issuer, store, a);
      && (d == Deny(IssuerMismatch) <==> p.iss.Absent? || (!p.aud.Absent? && p.iss != JString(issuer)))
      && (d == Deny(AudMismatch) <==>
            !p.iss.Absent? && (p.aud.Absent? || (p.iss == JString(issuer) && !ForAudience(p, a.audience))))
      && (d == Deny(Expired) <==>
            p.iss == JString(issuer) && ForAudience(p, a.audience) && (p.iat.Absent? || p.iat.JNumber?)
            && p.exp.JNumber? && p.exp.n <= (a.nowMs / 1000) as real)
  {
  }

  /** The same for a token that the issuer could have signed. */
  lemma ForeignOrExpired(issuer: string, store: FixedWindow.Store, a: Attempt, claims: CredentialClaims)
    requires Complete(a) && WellFormed(claims) && a.token.content == Some(Signed(Some("JWT"), ToPayload(claims)))
    ensures var d := Decide(issuer, store, a);
      if claims.iss != issuer then d == Deny(IssuerMismatch)
      else if claims.aud != a.audience then d == Deny(AudMismatch)
      else if claims.exp * 1000 <= a.nowMs then d == Deny(Expired)
      else Authentic(issuer, a, claims)
  {
    ClaimsRoundTrip(claims);
    TokenDenialReasons(issuer, store, a);
  }

  lemma IncompleteAttempts(issuer: string, store: FixedWindow.Store, a: Attempt)
    requires !Complete(a)
    ensures Decide(issuer, store, a) == Deny(InvalidClaims)
  {
  }
}
