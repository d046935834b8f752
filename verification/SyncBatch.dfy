/** The batch that `syncOnce` builds from its snapshot (issuer/src/jobs/sync-revocations.ts). */
module SyncBatch {
  import opened Wrappers
  import opened Database
  import opened RevocationCache

  /** One (jti, EXAT) command for each row that has not expired. */
  function BatchOf(rows: seq<ActiveRevocation>, startedAt: int): seq<(string, int)> {
    if rows == [] then []
    else
      var last := |rows| - 1;
      var batch := BatchOf(rows[..last], startedAt);
      match RevocationExpirySeconds(rows[last].expiresAt, startedAt)
      case None => batch
      case Some(seconds) => batch + [(rows[last].jti, seconds)]
  }

  predicate InBatch(batch: seq<(string, int)>, jti: string) {
    exists i :: 0 <= i < |batch| && batch[i].0 == jti
  }

  /** Every command names a committed revocation and carries its issuance's expiry. */
  ghost predicate BatchSound(t: Tables, batch: seq<(string, int)>) {
    forall i :: 0 <= i < |batch| ==>
      batch[i].0 in t.revocations && batch[i].0 in t.issuances
      && batch[i].1 * 1000 == t.issuances[batch[i].0].expiresAt
  }

  lemma {:induction false} BatchRows(t: Tables, rows: seq<ActiveRevocation>, startedAt: int)
    requires forall i :: 0 <= i < |rows| ==>
      IsActive(t, rows[i].jti, startedAt) && rows[i].expiresAt == t.issuances[rows[i].jti].expiresAt
      && rows[i].expiresAt % 1000 == 0
    ensures var batch := BatchOf(rows, startedAt);
      BatchSound(t, batch) && |batch| == |rows| && forall i :: 0 <= i < |rows| ==> batch[i].0 == rows[i].jti
  {
    if rows == [] {
    } else {
      BatchRows(t, rows[..|rows| - 1], startedAt);
    }
  }

  /** The SQL filter and the whole-second test together drop no live row and add none. */
  lemma BatchIsActiveSet(t: Tables, rows: seq<ActiveRevocation>, startedAt: int)
    requires t.Valid() && IsActiveListing(t, startedAt, rows)
    ensures BatchSound(t, BatchOf(rows, startedAt))
    ensures forall jti :: InBatch(BatchOf(rows, startedAt), jti) <==> IsActive(t, jti, startedAt)
  {
    BatchRows(t, rows, startedAt);
    var batch := BatchOf(rows, startedAt);
    forall jti ensures InBatch(batch, jti) <==> IsActive(t, jti, startedAt) {
      if IsActive(t, jti, startedAt) {
        var i :| 0 <= i < |rows| && rows[i].jti == jti;
        assert batch[i].0 == jti;
      }
    }
  }

  /** A sound batch writes exactly its own keys, each with the expiry of its issuance. */
  lemma {:induction false} BatchSetEffect(t: Tables, keys: Keyspace, batch: seq<(string, int)>, jti: string)
    requires BatchSound(t, batch)
    ensures var key, after := RevocationKey(jti), BatchSet(keys, batch);
      if InBatch(batch, jti) then key in after && after[key] == Entry(Flag, t.issuances[jti].expiresAt)
      else (key in after <==> key in keys) && (key in keys ==> after[key] == keys[key])
    ensures var after := BatchSet(keys, batch);
      (FreshnessKey in after <==> FreshnessKey in keys)
      && (FreshnessKey in keys ==> after[FreshnessKey] == keys[FreshnessKey])
  {
    if batch == [] {
    } else {
      var last := |batch| - 1;
      var rest := batch[..last];
      BatchSetEffect(t, keys, rest, jti);
      if InBatch(batch, jti) && batch[last].0 != jti {
        var i :| 0 <= i < |batch| && batch[i].0 == jti;
        assert rest[i].0 == jti;
      }
      if InBatch(rest, jti) {
        var i :| 0 <= i < |rest| && rest[i].0 == jti;
        assert batch[i].0 == jti;
      }
    }
  }

  function FreshnessTtlSeconds(intervalSeconds: int): int {
    intervalSeconds * 3
  }

  /** The keyspace that a complete sync leaves. */
  function Synced(keys: Keyspace, rows: seq<ActiveRevocation>, startedAt: int, ttlSeconds: int,
                  leaseAt: int): Keyspace
  {
    LeaseSet(BatchSet(keys, BatchOf(rows, startedAt)), startedAt, ttlSeconds, leaseAt)
  }

  /** What a sync reports: the rows it wrote, or failure. */
  function SyncResult(rows: Result<seq<ActiveRevocation>>, execFate: CommandFate, leaseFate: CommandFate): Result<nat> {
    if rows.Failure? || (rows.value != [] && !execFate.Acknowledged?) || !leaseFate.Acknowledged? then Failure
    else Success(|rows.value|)
  }

  /** The keyspace that a sync leaves, whichever of its steps fails. The lease is written only over a
      batch that was acknowledged. */
  function AfterSync(keys: Keyspace, rows: Result<seq<ActiveRevocation>>, startedAt: int, execFate: CommandFate,
                     ttlSeconds: int, leaseAt: int, leaseFate: CommandFate): Keyspace
  {
    if rows.Failure? then keys
    else
      var written := if execFate.Applied() then BatchSet(keys, BatchOf(rows.value, startedAt)) else keys;
      if rows.value != [] && !execFate.Acknowledged? then written
      else if leaseFate.Applied() then Synced(keys, rows.value, startedAt, ttlSeconds, leaseAt)
      else BatchSet(keys, BatchOf(rows.value, startedAt))
  }

  /** A sync that reports success wrote its whole snapshot and its lease; a lease that changed speaks for
      a batch that is in place. */
  lemma SyncSpeaksForItsBatch(t: Tables, keys: Keyspace, rows: Result<seq<ActiveRevocation>>, startedAt: int,
                              execFate: CommandFate, ttlSeconds: int, leaseAt: int, leaseFate: CommandFate)
    requires t.Valid() && (rows.Success? ==> IsActiveListing(t, startedAt, rows.value))
    ensures var after := AfterSync(keys, rows, startedAt, execFate, ttlSeconds, leaseAt, leaseFate);
      && (SyncResult(rows, execFate, leaseFate).Success? ==>
            rows.Success? && after == Synced(keys, rows.value, startedAt, ttlSeconds, leaseAt))
      && (FreshnessKey in after && (FreshnessKey !in keys || after[FreshnessKey] != keys[FreshnessKey]) ==>
            forall jti :: IsActive(t, jti, startedAt) ==>
              RevocationKey(jti) in after && after[RevocationKey(jti)] == Entry(Flag, t.issuances[jti].expiresAt))
  {
    if rows.Success? {
      var batch := BatchOf(rows.value, startedAt);
      BatchIsActiveSet(t, rows.value, startedAt);
      BatchSetEffect(t, keys, batch, "");
      forall jti | IsActive(t, jti, startedAt)
        ensures RevocationKey(jti) in BatchSet(keys, batch)
        ensures BatchSet(keys, batch)[RevocationKey(jti)] == Entry(Flag, t.issuances[jti].expiresAt)
      {
        BatchSetEffect(t, keys, batch, jti);
      }
    }
  }

  function ActiveJtis(t: Tables, now: int): set<string> {
    set jti | jti in t.revocations && IsActive(t, jti, now)
  }

  lemma {:induction false} DistinctRows(rows: seq<ActiveRevocation>, n: nat)
    requires n <= |rows| && forall i, j :: 0 <= i < j < |rows| ==> rows[i].jti != rows[j].jti
    ensures |set i | 0 <= i < n :: rows[i].jti| == n
  {
    var listed := set i | 0 <= i < n :: rows[i].jti;
    if n == 0 {
    } else {
      DistinctRows(rows, n - 1);
      var earlier := set i | 0 <= i < n - 1 :: rows[i].jti;
      assert rows[n - 1].jti !in earlier;
      assert listed == earlier + {rows[n - 1].jti};
    }
  }

  /** The number that a sync reports is the number of active revocations at its start. After it each of them
      is cached with its expiry, and every other revocation key is as it was. */
  lemma ReportedCountIsActive(t: Tables, keys: Keyspace, rows: Result<seq<ActiveRevocation>>, startedAt: int,
                              execFate: CommandFate, ttlSeconds: int, leaseAt: int, leaseFate: CommandFate)
    requires t.Valid() && rows.Success? && IsActiveListing(t, startedAt, rows.value)
    requires SyncResult(rows, execFate, leaseFate).Success?
    ensures SyncResult(rows, execFate, leaseFate).value == |ActiveJtis(t, startedAt)|
    ensures var after := AfterSync(keys, rows, startedAt, execFate, ttlSeconds, leaseAt, leaseFate);
      forall jti ::
        if jti in ActiveJtis(t, startedAt) then
          RevocationKey(jti) in after && after[RevocationKey(jti)] == Entry(Flag, t.issuances[jti].expiresAt)
        else
          (RevocationKey(jti) in after <==> RevocationKey(jti) in keys)
          && (RevocationKey(jti) in keys ==> after[RevocationKey(jti)] == keys[RevocationKey(jti)])
  {
    var batch := BatchOf(rows.value, startedAt);
    DistinctRows(rows.value, |rows.value|);
    assert ActiveJtis(t, startedAt) == set i | 0 <= i < |rows.value| :: rows.value[i].jti;
    BatchIsActiveSet(t, rows.value, startedAt);
    forall jti
      ensures if InBatch(batch, jti) then
                RevocationKey(jti) in BatchSet(keys, batch)
                && BatchSet(keys, batch)[RevocationKey(jti)] == Entry(Flag, t.issuances[jti].expiresAt)
              else
                (RevocationKey(jti) in BatchSet(keys, batch) <==> RevocationKey(jti) in keys)
                && (RevocationKey(jti) in keys ==>
                      BatchSet(keys, batch)[RevocationKey(jti)] == keys[RevocationKey(jti)])
    {
      BatchSetEffect(t, keys, batch, jti);
    }
  }

  /** Each cached JTI has a committed revocation, and its key lives exactly as long as its credential. */
  ghost predicate CacheSound(t: Tables, keys: Keyspace) {
    forall jti :: RevocationKey(jti) in keys ==>
      jti in t.revocations && jti in t.issuances
      && keys[RevocationKey(jti)] == Entry(Flag, t.issuances[jti].expiresAt)
  }

  lemma ReadAfterLease(keys: Keyspace, startedAt: int, ttlSeconds: int, leaseAt: int, jti: string, now: int)
    requires now < leaseAt + ttlSeconds * 1000
    ensures var after := LeaseSet(keys, startedAt, ttlSeconds, leaseAt);
      && Read(after, FreshnessKey, now) == Some(Timestamp(startedAt))
      && Read(after, RevocationKey(jti), now) == Read(keys, RevocationKey(jti), now)
  {
  }

  /** After an undisturbed sync, and while its lease lasts, Redis answers for every live credential
      what PostgreSQL answers. */
  lemma SyncedCacheAgrees(t: Tables, keys: Keyspace, rows: seq<ActiveRevocation>, startedAt: int,
                          ttlSeconds: int, leaseAt: int, jti: string, now: int)
    requires t.Valid() && CacheSound(t, keys) && IsActiveListing(t, startedAt, rows)
    requires startedAt <= leaseAt <= now < leaseAt + ttlSeconds * 1000
    requires jti in t.issuances && now < t.issuances[jti].expiresAt
    ensures CacheDecision(MGet(Synced(keys, rows, startedAt, ttlSeconds, leaseAt), jti, now))
         == Answer(InRevocations(t, jti))
  {
    var batch := BatchOf(rows, startedAt);
    assert BatchSound(t, batch) && (InBatch(batch, jti) <==> jti in t.revocations) by {
      BatchIsActiveSet(t, rows, startedAt);
    }
    var written := BatchSet(keys, batch);
    ReadAfterBatch(t, keys, batch, jti, now);
    ReadAfterLease(written, startedAt, ttlSeconds, leaseAt, jti, now);
    DecisionFromReads(Synced(keys, rows, startedAt, ttlSeconds, leaseAt), jti, now, startedAt, jti in t.revocations);
  }

  lemma DecisionFromReads(keys: Keyspace, jti: string, now: int, startedAt: int, revoked: bool)
    requires Read(keys, FreshnessKey, now) == Some(Timestamp(startedAt))
    requires Read(keys, RevocationKey(jti), now) == if revoked then Some(Flag) else None
    ensures CacheDecision(MGet(keys, jti, now)) == Answer(revoked)
  {
  }

  lemma ReadAfterBatch(t: Tables, keys: Keyspace, batch: seq<(string, int)>, jti: string, now: int)
    requires BatchSound(t, batch) && CacheSound(t, keys)
    requires InBatch(batch, jti) <==> jti in t.revocations
    requires jti in t.issuances && now < t.issuances[jti].expiresAt
    ensures Read(BatchSet(keys, batch), RevocationKey(jti), now)
         == if jti in t.revocations then Some(Flag) else None
  {
    BatchSetEffect(t, keys, batch, jti);
  }
}
