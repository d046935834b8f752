/** `createRedisRateLimiter` and its policy lookup (verifier-sdk/src/rate-limiter.ts). */
module RateLimiter {
  import opened Wrappers
  import opened FixedWindow
  import FixedWindowCounts
  import RateLimitKey

  datatype RateLimitPolicy = RateLimitPolicy(maxRequests: int, windowSeconds: int) {
    predicate Positive() {
      maxRequests > 0 && windowSeconds > 0
    }
  }

  datatype RateLimitResult =
    | NoPolicy
    | Within(policy: RateLimitPolicy, remaining: int, resetAtSeconds: int)
    | Limited(policy: RateLimitPolicy, resetAtSeconds: int, retryAfterSeconds: int)

  /** A row of `rate_limit_policies` as the driver delivers it. */
  datatype PolicyRow = PolicyRow(maxRequests: real, windowSeconds: real) {
    predicate Valid() {
      IsPositiveInteger(maxRequests) && IsPositiveInteger(windowSeconds)
    }
  }

  predicate IsPositiveInteger(n: real) {
    n.Floor as real == n && n > 0.0
  }

  function GetPolicy(rows: map<RateLimitKey.Context, PolicyRow>, context: RateLimitKey.Context):
    (r: Result<Option<RateLimitPolicy>>)
    ensures r.Success? && r.value.None? <==> context !in rows
    ensures r.Failure? <==> context in rows && !rows[context].Valid()
    ensures r.Success? && r.value.Some? ==>
      var policy := r.value.value;
      policy.Positive()
      && policy.maxRequests as real == rows[context].maxRequests
      && policy.windowSeconds as real == rows[context].windowSeconds
  {
    if context !in rows then Success(None)
    else if !rows[context].Valid() then Failure
    else Success(Some(RateLimitPolicy(rows[context].maxRequests.Floor, rows[context].windowSeconds.Floor)))
  }

  // ---- Reading the script's reply ----

  /** An element of the reply; `numeric` is what JavaScript's `Number` makes of a string. */
  datatype RawValue = JsNumber(n: real) | JsString(text: string, numeric: Option<real>) | JsOther

  const MAX_SAFE_INTEGER: int := 0x1F_FFFF_FFFF_FFFF

  predicate IsSafe(n: int) {
    -MAX_SAFE_INTEGER <= n <= MAX_SAFE_INTEGER
  }

  function ParseInteger(v: RawValue): Option<int> {
    var parsed :=
      match v
      case JsNumber(n) => Some(n)
      case JsString(text, numeric) => if text == [] then None else numeric
      case JsOther => None;
    match parsed
    case None => None
    case Some(n) => if n.Floor as real == n && IsSafe(n.Floor) then Some(n.Floor) else None
  }

  function Max(a: int, b: int): int {
    if a >= b then a else b
  }

  /** `None` stands for a reply that is not an array. */
  function ReadReply(raw: Option<seq<RawValue>>, policy: RateLimitPolicy): Result<RateLimitResult> {
    if raw.None? || |raw.value| != 4 then Failure
    else
      match (ParseInteger(raw.value[0]), ParseInteger(raw.value[1]),
             ParseInteger(raw.value[2]), ParseInteger(raw.value[3]))
      case (Some(allowed), Some(count), Some(resetAt), Some(now)) =>
        if (allowed != 0 && allowed != 1) || count < 0 || resetAt <= now then Failure
        else if allowed == 0 then Success(Limited(policy, resetAt, Max(1, resetAt - now)))
        else Success(Within(policy, Max(0, policy.maxRequests - count), resetAt))
      case _ => Failure
  }

  /** The value is the safe integer `n`, as a number or as a string. */
  predicate Denotes(v: RawValue, n: int) {
    IsSafe(n) &&
    match v
    case JsNumber(x) => x == n as real
    case JsString(text, numeric) => text != [] && numeric == Some(n as real)
    case JsOther => false
  }

  lemma ParseIntegerIff(v: RawValue, n: int)
    ensures ParseInteger(v) == Some(n) <==> Denotes(v, n)
  {
    assert (n as real).Floor == n;
  }

  /** Which replies are accepted, and what they are read as: four integers, a verdict of 0 or 1, a count
      that is not negative, and a reset that lies ahead. */
  lemma ReadReplyIff(raw: seq<RawValue>, allowed: int, count: int, resetAt: int, now: int, policy: RateLimitPolicy)
    requires |raw| == 4 && Denotes(raw[0], allowed) && Denotes(raw[1], count)
    requires Denotes(raw[2], resetAt) && Denotes(raw[3], now)
    ensures ReadReply(Some(raw), policy)
         == if count < 0 || resetAt <= now then Failure
            else if allowed == 0 then Success(Limited(policy, resetAt, resetAt - now))
            else if allowed == 1
            then Success(Within(policy, if count <= policy.maxRequests then policy.maxRequests - count else 0, resetAt))
            else Failure
  {
    ParseIntegerIff(raw[0], allowed);
    ParseIntegerIff(raw[1], count);
    ParseIntegerIff(raw[2], resetAt);
    ParseIntegerIff(raw[3], now);
  }

  /** No array, the wrong length, or an element `i` that is no safe integer. */
  lemma OtherRepliesAreRefused(raw: Option<seq<RawValue>>, policy: RateLimitPolicy, i: nat)
    requires raw.None? || |raw.value| != 4 || (i < 4 && forall n :: !Denotes(raw.value[i], n))
    ensures ReadReply(raw, policy) == Failure
  {
    if raw.Some? && |raw.value| == 4 {
      if ParseInteger(raw.value[i]).Some? {
        ParseIntegerIff(raw.value[i], ParseInteger(raw.value[i]).value);
      }
    }
  }

  function RawReply(reply: Reply): Option<seq<RawValue>> {
    Some([JsNumber(reply.allowed as real), JsNumber(reply.count as real),
          JsNumber(reply.resetAt as real), JsNumber(reply.now as real)])
  }

  function CallFor(policy: RateLimitPolicy, now: int): PositiveCall
    requires policy.Positive()
  {
    Call(now, policy.windowSeconds, policy.maxRequests)
  }

  /** Every reply the script can give is accepted, provided its integers survive as JavaScript
      numbers, and neither clamp ever changes a value: Retry-After is the time to the reset. */
  lemma ScriptReplyAccepted(stored: Option<Counter>, policy: RateLimitPolicy, now: int)
    requires policy.Positive()
    ensures
      var call := CallFor(policy, now);
      var reply, r := ReplyTo(stored, call), ReadReply(RawReply(ReplyTo(stored, call)), policy);
      && (r.Success? <==> IsSafe(reply.count) && IsSafe(reply.resetAt) && IsSafe(now))
      && (r.Success? && reply.allowed == 0 ==>
            r.value == Limited(policy, reply.resetAt, reply.resetAt - now)
            && 1 <= r.value.retryAfterSeconds <= policy.windowSeconds)
      && (r.Success? && reply.allowed == 1 ==>
            r.value == Within(policy, policy.maxRequests - reply.count, reply.resetAt)
            && 0 <= r.value.remaining < policy.maxRequests)
  {
    FixedWindowCounts.Aligned(now, policy.windowSeconds);
    var reply := ReplyTo(stored, CallFor(policy, now));
    RealRoundTrip(reply.allowed);
    RealRoundTrip(reply.count);
    RealRoundTrip(reply.resetAt);
    RealRoundTrip(reply.now);
  }

  lemma RealRoundTrip(n: int)
    ensures ParseInteger(JsNumber(n as real)) == if IsSafe(n) then Some(n) else None
  {
  }

  // ---- One check ----

  /** What the network did to the script call. */
  datatype Delivery = Delivered | RequestLost | ReplyLost

  /** The script runs only under a valid policy and only if the request reaches Redis. */
  predicate ScriptRuns(policy: Result<Option<RateLimitPolicy>>, delivery: Delivery) {
    policy.Success? && policy.value.Some? && policy.value.value.Positive() && !delivery.RequestLost?
  }

  function CheckResult(stored: Option<Counter>, policy: Result<Option<RateLimitPolicy>>, now: int,
                       delivery: Delivery): Result<RateLimitResult>
  {
    match policy
    case Failure => Failure
    case Success(None) => Success(NoPolicy)
    case Success(Some(p)) =>
      if !p.Positive() || !delivery.Delivered? then Failure
      else ReadReply(RawReply(ReplyTo(stored, CallFor(p, now))), p)
  }

  method CheckRateLimit(redis: CounterStore, context: RateLimitKey.Context,
                        policy: Result<Option<RateLimitPolicy>>, now: int, delivery: Delivery)
    returns (r: Result<RateLimitResult>)
    modifies redis
    ensures var key, before := RateLimitKey.Of(context), old(redis.hashes);
      && r == CheckResult(Lookup(before, key), policy, now, delivery)
      && redis.hashes == if ScriptRuns(policy, delivery)
                         then before[key := After(Lookup(before, key), CallFor(policy.value.value, now))]
                         else before
  {
    if policy.Failure? {
      return Failure;
    }
    if policy.value.None? {
      return Success(NoPolicy);
    }
    var p := policy.value.value;
    if !p.Positive() || delivery.RequestLost? {
      return Failure;
    }
    var reply := redis.Eval(RateLimitKey.Of(context), CallFor(p, now));
    if delivery.ReplyLost? {
      return Failure;
    }
    r := ReadReply(RawReply(reply), p);
  }
}
