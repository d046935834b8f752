/** The cached side of revocation: keys, expiries and the checker (verifier-sdk/src/revocation-cache.ts,
    verifier-sdk/src/revocation.ts). Times are milliseconds; a key is live before its expiry instant. */
module RevocationCache {
  import opened Wrappers
  import opened Database
  import RateLimitKey

  const REVOCATION_CACHE_PREFIX: string := "agentcred:revocation:"
  const REVOCATION_FRESHNESS_KEY: string := "agentcred:revocations:fresh"

  /** The keys that issuer and verifiers use on their shared Redis server. */
  datatype RedisKey = RevocationKey(jti: string) | FreshnessKey | CounterKey(context: RateLimitKey.Context) {
    function Text(): string {
      match this
      case RevocationKey(jti) => RevocationCacheKey(jti)
      case FreshnessKey => REVOCATION_FRESHNESS_KEY
      case CounterKey(context) => RateLimitKey.Of(context)
    }
  }

  function RevocationCacheKey(jti: string): string {
    REVOCATION_CACHE_PREFIX + jti
  }

  lemma PrefixTexts(jti: string, context: RateLimitKey.Context)
    ensures |RevocationCacheKey(jti)| > 20 && RevocationCacheKey(jti)[20] == ':'
    ensures RevocationCacheKey(jti)[10..12] == "re" && REVOCATION_FRESHNESS_KEY[10..12] == "re"
    ensures RevocationCacheKey(jti)[|REVOCATION_CACHE_PREFIX|..] == jti
    ensures |RateLimitKey.Of(context)| > 12 && RateLimitKey.Of(context)[10..12] == "ra"
  {
    var text := RateLimitKey.Of(context);
    assert text[10] == 'r' && text[11] == 'a';
    var key := RevocationCacheKey(jti);
    assert key[10] == 'r' && key[11] == 'e';
  }

  /** No two keys share a text, within a family or across families, so the store may be read as a map
      from keys. */
  lemma KeysNeverCollide(a: RedisKey, b: RedisKey)
    ensures a.Text() == b.Text() <==> a == b
  {
    var someContext := RateLimitKey.Context("", "", "");
    var contextA := if a.CounterKey? then a.context else someContext;
    var contextB := if b.CounterKey? then b.context else someContext;
    PrefixTexts(if a.RevocationKey? then a.jti else "", contextA);
    PrefixTexts(if b.RevocationKey? then b.jti else "", contextB);
    RateLimitKey.Injective(contextA, contextB);
    assert REVOCATION_FRESHNESS_KEY[20] == 's';
  }

  /** Values found under the two kinds of key: "1", an ISO timestamp, or anything else. */
  datatype Text = Flag | Timestamp(at: int) | Garbled(parsesAsDate: bool)

  datatype Entry = Entry(value: Text, expiresAt: int)

  type Keyspace = map<RedisKey, Entry>

  function Read(keys: Keyspace, key: RedisKey, now: int): Option<Text> {
    if key in keys && now < keys[key].expiresAt then Some(keys[key].value) else None
  }

  /** `revocationExpirySeconds`; `/` rounds down, like `Math.floor`. */
  function RevocationExpirySeconds(expiresAt: int, now: int): (r: Option<int>)
    ensures r.Some? ==> r.value * 1000 <= expiresAt < r.value * 1000 + 1000 && now < r.value * 1000
    ensures r.None? ==> expiresAt - expiresAt % 1000 <= now
    ensures expiresAt % 1000 == 0 ==> (r.Some? <==> now < expiresAt)
    ensures r.Some? && expiresAt % 1000 == 0 ==> r.value * 1000 == expiresAt
  {
    if expiresAt / 1000 > now / 1000 then Some(expiresAt / 1000) else None
  }

  /** SET key "1" EXAT seconds. */
  function FlagSet(keys: Keyspace, jti: string, expirySeconds: int): Keyspace {
    keys[RevocationKey(jti) := Entry(Flag, expirySeconds * 1000)]
  }

  /** SET freshness startedAt EX ttl, applied at `now`. */
  function LeaseSet(keys: Keyspace, startedAt: int, ttlSeconds: int, now: int): Keyspace {
    keys[FreshnessKey := Entry(Timestamp(startedAt), now + ttlSeconds * 1000)]
  }

  /** The Redis server, as the issuer writes to it. */
  class Redis {
    var keys: Keyspace

    constructor ()
      ensures keys == map[]
    {
      keys := map[];
    }

    method SetFlag(jti: string, expirySeconds: int, fate: CommandFate) returns (ok: bool)
      modifies this
      ensures ok <==> fate.Acknowledged?
      ensures keys == if fate.Applied() then FlagSet(old(keys), jti, expirySeconds) else old(keys)
    {
      if !fate.Dropped? {
        keys := keys[RevocationKey(jti) := Entry(Flag, expirySeconds * 1000)];
      }
      ok := fate.Acknowledged?;
    }

    method SetLease(startedAt: int, ttlSeconds: int, now: int, fate: CommandFate) returns (ok: bool)
      modifies this
      ensures ok <==> fate.Acknowledged?
      ensures keys == if fate.Applied() then LeaseSet(old(keys), startedAt, ttlSeconds, now) else old(keys)
    {
      if !fate.Dropped? {
        keys := keys[FreshnessKey := Entry(Timestamp(startedAt), now + ttlSeconds * 1000)];
      }
      ok := fate.Acknowledged?;
    }

    /** MULTI ... EXEC: all of the batch, or none of it. */
    method Exec(batch: seq<(string, int)>, fate: CommandFate) returns (ok: bool)
      modifies this
      ensures ok <==> fate.Acknowledged?
      ensures keys == if fate.Applied() then BatchSet(old(keys), batch) else old(keys)
    {
      if !fate.Dropped? {
        for i := 0 to |batch|
          invariant keys == BatchSet(old(keys), batch[..i])
        {
          assert batch[..i + 1][..i] == batch[..i];
          keys := keys[RevocationKey(batch[i].0) := Entry(Flag, batch[i].1 * 1000)];
        }
        assert batch[..|batch|] == batch;
      }
      ok := fate.Acknowledged?;
    }
  }

  /** The keyspace after the (jti, EXAT) commands of a batch. */
  function BatchSet(keys: Keyspace, batch: seq<(string, int)>): Keyspace {
    if batch == [] then keys
    else
      var last := |batch| - 1;
      FlagSet(BatchSet(keys, batch[..last]), batch[last].0, batch[last].1)
  }

  /** The keyspace after one publish at `now`. */
  function Published(keys: Keyspace, revocation: Revocation, now: int, fate: CommandFate): Keyspace {
    match RevocationExpirySeconds(revocation.expiresAt, now)
    case None => keys
    case Some(seconds) => if fate.Applied() then FlagSet(keys, revocation.jti, seconds) else keys
  }

  /** `cacheRevocation`: false when the credential has already expired, and then nothing is written. */
  method CacheRevocation(redis: Redis, revocation: Revocation, now: int, fate: CommandFate)
    returns (r: Result<bool>)
    modifies redis
    ensures redis.keys == Published(old(redis.keys), revocation, now, fate)
    ensures r == if RevocationExpirySeconds(revocation.expiresAt, now).None? then Success(false)
                 else if fate.Acknowledged? then Success(true) else Failure
  {
    var expiry := RevocationExpirySeconds(revocation.expiresAt, now);
    if expiry.None? {
      return Success(false);
    }
    var ok := redis.SetFlag(revocation.jti, expiry.value, fate);
    r := if ok then Success(true) else Failure;
  }

  // ---- The checkers ----

  /** `createPostgresRevocationChecker`. */
  predicate InRevocations(t: Tables, jti: string) {
    jti in t.revocations
  }

  /** The reply of `mGet`; `None` stands for an exception. */
  type MGetReply = Option<seq<Option<Text>>>

  predicate ParsesAsDate(v: Text) {
    match v
    case Flag => true
    case Timestamp(_) => true
    case Garbled(parses) => parses
  }

  datatype CacheAnswer = Answer(revoked: bool) | Fallback

  function CacheDecision(reply: MGetReply): CacheAnswer {
    if reply.None? || |reply.value| != 2 then Fallback
    else
      var freshness, revoked := reply.value[0], reply.value[1];
      if freshness.None? || !ParsesAsDate(freshness.value) || (revoked.Some? && revoked.value != Flag) then Fallback
      else Answer(revoked == Some(Flag))
  }

  /** `createRedisRevocationChecker`, given what PostgreSQL would answer. */
  function IsRevoked(reply: MGetReply, fallback: Result<bool>): Result<bool> {
    match CacheDecision(reply)
    case Answer(revoked) => Success(revoked)
    case Fallback => fallback
  }

  /** When the cache is trusted, and with what: two values, of which the first is a date and the second is
      absent or the flag. Everything else goes to the fallback. */
  lemma CacheTrustedIff(reply: MGetReply, fallback: Result<bool>, revoked: bool)
    ensures CacheDecision(reply) == Answer(revoked) <==>
      && reply.Some? && |reply.value| == 2
      && reply.value[0].Some? && ParsesAsDate(reply.value[0].value)
      && reply.value[1] == if revoked then Some(Flag) else None
    ensures (forall b :: CacheDecision(reply) != Answer(b)) ==> IsRevoked(reply, fallback) == fallback
    ensures CacheDecision(reply) == Answer(revoked) ==> IsRevoked(reply, fallback) == Success(revoked)
  {
    assert CacheDecision(reply).Answer? ==> CacheDecision(reply) == Answer(CacheDecision(reply).revoked);
  }

  function MGet(keys: Keyspace, jti: string, now: int): MGetReply {
    Some([Read(keys, FreshnessKey, now), Read(keys, RevocationKey(jti), now)])
  }
}
