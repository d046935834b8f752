/** What every step of the revocation protocol keeps. */
module ProtocolInvariant {
  import opened Wrappers
  import opened Claims
  import opened Database
  import opened RevocationCache
  import opened SyncBatch
  import opened Protocol

  /** Rows are only added. In particular a revocation, once written, never changes. */
  ghost predicate Grows(t: Tables, u: Tables) {
    && (forall jti :: jti in t.issuances ==> jti in u.issuances && u.issuances[jti] == t.issuances[jti])
    && (forall jti :: jti in t.revocations ==> jti in u.revocations && u.revocations[jti] == t.revocations[jti])
  }

  ghost predicate TablesSound(t: Tables, now: int) {
    t.Valid() && forall jti :: jti in t.revocations ==> t.revocations[jti].revokedAt <= now
  }

  ghost predicate SyncSound(t: Tables, now: int, y: Sync) {
    match y
    case Started(startedAt) => startedAt <= now
    case Snapped(startedAt, snapAt, batch) => startedAt <= snapAt <= now && batch != [] && BatchSound(t, batch)
    case Batched(startedAt, snapAt) => startedAt <= snapAt <= now
  }

  ghost predicate HandlerSound(t: Tables, r: Revoking) {
    && StoredRevocation(t, r.revocation.jti) == Some(r.revocation)
    && (r.Publishing? ==> r.expirySeconds * 1000 == r.revocation.expiresAt)
  }

  ghost predicate Invariant(s: State) {
    && TablesSound(s.tables, s.now)
    && KeysSound(s.tables, s.keys)
    && s.leaseSnapAt <= s.now
    && SyncsSound(s.tables, s.now, s.syncs)
    && HandlersSound(s.tables, s.revoking)
    && s.loop.running.Keys <= s.syncs.Keys
  }

  // ---- What a step leaves alone ----

  /** Steps that touch neither the loop nor the syncs nor the clock. */
  predicate Aside(e: Event) {
    e.Issue? || e.RevokeOutOfBand? || e.RevokeCommit? || e.RevokePublish? || e.RevokeSet? || e.RevokeAbandon?
    || e.CheckBegin? || e.CheckRead? || e.CheckFallback? || e.Wipe?
  }

  lemma AsideKeeps(c: Config, s: State, e: Event)
    requires Enabled(s, e) && Aside(e)
    ensures var t := Next(c, s, e);
      t.loop == s.loop && t.syncs == s.syncs && t.now == s.now && t.failures == s.failures
      && t.successAt == s.successAt && t.leaseSnapAt == s.leaseSnapAt
    ensures FreshnessKey in s.keys && !e.Wipe? ==>
      FreshnessKey in Next(c, s, e).keys && Next(c, s, e).keys[FreshnessKey] == s.keys[FreshnessKey]
  {
  }

  /** What a step makes of the keyspace. */
  function KeysAfter(c: Config, s: State, e: Event): Keyspace {
    match e
    case RevokeSet(h, fate) =>
      if h in s.revoking && s.revoking[h].Publishing? && fate.Applied()
      then FlagSet(s.keys, s.revoking[h].revocation.jti, s.revoking[h].expirySeconds) else s.keys
    case SyncExec(id, fate) =>
      if id in s.syncs && s.syncs[id].Snapped? && fate.Applied() then BatchSet(s.keys, s.syncs[id].batch) else s.keys
    case SyncLease(id, fate) =>
      if id in s.syncs && fate.Applied() then LeaseSet(s.keys, s.syncs[id].startedAt, c.TtlSeconds(), s.now) else s.keys
    case Wipe => map[]
    case _ => s.keys
  }

  lemma KeysMove(c: Config, s: State, e: Event)
    requires Enabled(s, e)
    ensures Next(c, s, e).keys == KeysAfter(c, s, e)
    ensures !e.SyncLease? ==> Next(c, s, e).leaseSnapAt == s.leaseSnapAt
  {
  }

  predicate WritesTables(e: Event) {
    e.Issue? || e.RevokeOutOfBand? || e.RevokeCommit?
  }

  lemma TablesUntouched(c: Config, s: State, e: Event)
    requires Enabled(s, e) && !WritesTables(e)
    ensures Next(c, s, e).tables == s.tables && s.now <= Next(c, s, e).now
  {
  }

  predicate MovesHandlers(e: Event) {
    e.RevokeCommit? || e.RevokePublish? || e.RevokeSet? || e.RevokeAbandon?
  }

  lemma HandlersUntouched(c: Config, s: State, e: Event)
    requires Enabled(s, e) && !MovesHandlers(e)
    ensures Next(c, s, e).revoking == s.revoking
  {
  }

  // ---- The invariant ----

  lemma InsertedSound(t: Tables, claims: CredentialClaims, now: int)
    requires TablesSound(t, now) && Insertable(t, claims)
    ensures TablesSound(Inserted(t, claims), now) && Grows(t, Inserted(t, claims))
  {
    assert RowOf(claims).expiresAt % 1000 == 0;
  }

  lemma RevokedSound(t: Tables, jti: string, reason: Option<string>, now: int)
    requires TablesSound(t, now)
    ensures TablesSound(Revoked(t, jti, reason, now), now) && Grows(t, Revoked(t, jti, reason, now))
  {
  }

  lemma TablesStep(c: Config, s: State, e: Event)
    requires TablesSound(s.tables, s.now) && Enabled(s, e)
    ensures Grows(s.tables, Next(c, s, e).tables)
    ensures TablesSound(Next(c, s, e).tables, Next(c, s, e).now)
    ensures s.now <= Next(c, s, e).now
  {
    match e
    case Issue(claims) => InsertedSound(s.tables, claims, s.now);
    case RevokeOutOfBand(jti, reason) => RevokedSound(s.tables, jti, reason, s.now);
    case RevokeCommit(_, jti, reason) => RevokedSound(s.tables, jti, reason, s.now);
    case _ => TablesUntouched(c, s, e);
  }

  lemma GrowthKeeps(t: Tables, u: Tables, keys: Keyspace)
    requires Grows(t, u)
    ensures CacheSound(t, keys) ==> CacheSound(u, keys)
  {
  }

  lemma FlagSetSound(t: Tables, keys: Keyspace, jti: string, expirySeconds: int)
    requires CacheSound(t, keys) && jti in t.revocations && jti in t.issuances
    requires expirySeconds * 1000 == t.issuances[jti].expiresAt
    ensures CacheSound(t, FlagSet(keys, jti, expirySeconds))
  {
    forall k | RevocationKey(k) in FlagSet(keys, jti, expirySeconds)
      ensures k in t.revocations && k in t.issuances
      ensures FlagSet(keys, jti, expirySeconds)[RevocationKey(k)] == Entry(Flag, t.issuances[k].expiresAt)
    {
    }
  }

  lemma BatchSetSound(t: Tables, keys: Keyspace, batch: seq<(string, int)>)
    requires CacheSound(t, keys) && BatchSound(t, batch)
    ensures CacheSound(t, BatchSet(keys, batch))
    ensures FreshnessKey in BatchSet(keys, batch) ==>
      FreshnessKey in keys
      && BatchSet(keys, batch)[FreshnessKey] == keys[FreshnessKey]
  {
    BatchSetEffect(t, keys, batch, "");
    forall k | RevocationKey(k) in BatchSet(keys, batch)
      ensures k in t.revocations && k in t.issuances
      ensures BatchSet(keys, batch)[RevocationKey(k)] == Entry(Flag, t.issuances[k].expiresAt)
    {
      BatchSetEffect(t, keys, batch, k);
      if InBatch(batch, k) {
        var i :| 0 <= i < |batch| && batch[i].0 == k;
      }
    }
  }

  lemma LeaseSetSound(t: Tables, keys: Keyspace, startedAt: int, ttl: int, now: int)
    requires CacheSound(t, keys)
    ensures CacheSound(t, LeaseSet(keys, startedAt, ttl, now))
    ensures FreshnessKey in LeaseSet(keys, startedAt, ttl, now)
    ensures LeaseSet(keys, startedAt, ttl, now)[FreshnessKey] == Entry(Timestamp(startedAt), now + ttl * 1000)
  {
  }

  ghost predicate KeysSound(t: Tables, keys: Keyspace) {
    CacheSound(t, keys) && (FreshnessKey in keys ==> keys[FreshnessKey].value.Timestamp?)
  }

  lemma KeysAfterSound(c: Config, s: State, e: Event)
    requires KeysSound(s.tables, s.keys) && SyncsSound(s.tables, s.now, s.syncs) && HandlersSound(s.tables, s.revoking)
    ensures KeysSound(s.tables, KeysAfter(c, s, e))
  {
    match e
    case RevokeSet(h, fate) =>
      if h in s.revoking && s.revoking[h].Publishing? {
        assert HandlerSound(s.tables, s.revoking[h]);
        FlagSetSound(s.tables, s.keys, s.revoking[h].revocation.jti, s.revoking[h].expirySeconds);
      }
    case SyncExec(id, fate) =>
      if id in s.syncs && s.syncs[id].Snapped? {
        assert SyncSound(s.tables, s.now, s.syncs[id]);
        BatchSetSound(s.tables, s.keys, s.syncs[id].batch);
      }
    case SyncLease(id, fate) =>
      if id in s.syncs {
        LeaseSetSound(s.tables, s.keys, s.syncs[id].startedAt, c.TtlSeconds(), s.now);
      }
    case _ =>
  }

  lemma RedisStep(c: Config, s: State, e: Event)
    requires Invariant(s) && Enabled(s, e)
    ensures KeysSound(Next(c, s, e).tables, Next(c, s, e).keys)
  {
    KeysMove(c, s, e);
    KeysAfterSound(c, s, e);
    TablesStep(c, s, e);
    GrowthKeeps(s.tables, Next(c, s, e).tables, KeysAfter(c, s, e));
  }

  ghost predicate SyncsSound(t: Tables, now: int, syncs: map<nat, Sync>) {
    forall id :: id in syncs ==> SyncSound(t, now, syncs[id])
  }

  lemma SnapshotSound(s: State, id: nat, rows: seq<ActiveRevocation>)
    requires s.tables.Valid() && SyncsSound(s.tables, s.now, s.syncs)
    requires id in s.syncs && s.syncs[id].Started? && IsActiveListing(s.tables, s.syncs[id].startedAt, rows)
    ensures SyncsSound(s.tables, s.now, Snapshot(s, id, rows).syncs)
  {
    BatchIsActiveSet(s.tables, rows, s.syncs[id].startedAt);
  }

  /** Where a sync of the next state comes from. */
  lemma SyncOrigin(c: Config, s: State, e: Event, id: nat)
    requires Enabled(s, e) && id in Next(c, s, e).syncs
    ensures var y := Next(c, s, e).syncs[id];
      || (id in s.syncs && y == s.syncs[id])
      || y == Started(s.now)
      || (e.SyncSnapshot? && e.sync == id && y == Snapshot(s, id, e.rows).syncs[id])
      || (e.SyncExec? && e.sync == id && e.fate.Acknowledged?
          && y == Batched(s.syncs[id].startedAt, s.syncs[id].snapAt))
  {
    if Aside(e) {
      AsideKeeps(c, s, e);
    }
  }

  lemma SyncsStep(c: Config, s: State, e: Event)
    requires TablesSound(s.tables, s.now) && SyncsSound(s.tables, s.now, s.syncs) && Enabled(s, e)
    ensures SyncsSound(Next(c, s, e).tables, Next(c, s, e).now, Next(c, s, e).syncs)
  {
    TablesStep(c, s, e);
    var t := Next(c, s, e);
    forall id | id in t.syncs ensures SyncSound(t.tables, t.now, t.syncs[id]) {
      SyncOrigin(c, s, e, id);
      if e.SyncSnapshot? && e.sync == id {
        SnapshotSound(s, id, e.rows);
      } else if id in s.syncs {
        GrowthKeepsSync(s.tables, t.tables, s.now, t.now, s.syncs[id]);
      }
    }
  }

  lemma GrowthKeepsSync(t: Tables, u: Tables, now: int, later: int, y: Sync)
    requires Grows(t, u) && now <= later && SyncSound(t, now, y)
    ensures SyncSound(u, later, y)
  {
  }

  lemma LeaseTimeStep(c: Config, s: State, e: Event)
    requires Invariant(s) && Enabled(s, e)
    ensures Next(c, s, e).leaseSnapAt <= Next(c, s, e).now
  {
    TablesStep(c, s, e);
    if e.SyncLease? {
      assert SyncSound(s.tables, s.now, s.syncs[e.sync]);
    } else {
      KeysMove(c, s, e);
    }
  }

  lemma EndRunning(c: Config, s: State, id: nat, success: bool)
    requires s.loop.running.Keys <= s.syncs.Keys
    ensures EndSync(c, s, id, success).loop.running.Keys <= EndSync(c, s, id, success).syncs.Keys
  {
  }

  lemma ExecRunning(c: Config, s: State, id: nat, fate: CommandFate)
    requires s.loop.running.Keys <= s.syncs.Keys && id in s.syncs && s.syncs[id].Snapped?
    ensures Exec(c, s, id, fate).loop.running.Keys <= Exec(c, s, id, fate).syncs.Keys
  {
    EndRunning(c, s.(keys := if fate.Applied() then BatchSet(s.keys, s.syncs[id].batch) else s.keys), id, false);
  }

  lemma LeaseRunning(c: Config, s: State, id: nat, fate: CommandFate)
    requires s.loop.running.Keys <= s.syncs.Keys && id in s.syncs && s.syncs[id].Batched?
    ensures Lease(c, s, id, fate).loop.running.Keys <= Lease(c, s, id, fate).syncs.Keys
  {
    var y := s.syncs[id];
    var t := if fate.Applied()
             then s.(keys := LeaseSet(s.keys, y.startedAt, c.TtlSeconds(), s.now), leaseSnapAt := y.snapAt)
             else s;
    EndRunning(c, t, id, fate.Acknowledged?);
  }

  lemma RunningStep(c: Config, s: State, e: Event)
    requires s.loop.running.Keys <= s.syncs.Keys && Enabled(s, e)
    ensures Next(c, s, e).loop.running.Keys <= Next(c, s, e).syncs.Keys
  {
    if Aside(e) {
      AsideKeeps(c, s, e);
    } else {
      match e
      case Tick(_) =>
      case SyncBegin(_) =>
      case LoopStart =>
      case LoopStop =>
      case TimerFires(_, _) =>
      case SyncSnapshot(id, rows) => assert Snapshot(s, id, rows).syncs.Keys == s.syncs.Keys;
      case SyncExec(id, fate) => ExecRunning(c, s, id, fate);
      case SyncLease(id, fate) => LeaseRunning(c, s, id, fate);
      case SyncFails(id) => EndRunning(c, s, id, false);
    }
  }

  ghost predicate HandlersSound(t: Tables, revoking: map<nat, Revoking>) {
    forall h :: h in revoking ==> HandlerSound(t, revoking[h])
  }

  lemma HandlersOutliveGrowth(t: Tables, u: Tables, revoking: map<nat, Revoking>)
    requires HandlersSound(t, revoking) && Grows(t, u)
    ensures HandlersSound(u, revoking)
  {
    forall h | h in revoking ensures HandlerSound(u, revoking[h]) {
      StoredIsPermanent(t, u, revoking[h].revocation.jti);
    }
  }

  lemma CommitSound(s: State, h: nat, jti: string, reason: Option<string>)
    requires TablesSound(s.tables, s.now) && HandlersSound(s.tables, s.revoking)
    ensures HandlersSound(Commit(s, h, jti, reason).tables, Commit(s, h, jti, reason).revoking)
  {
    RevokedSound(s.tables, jti, reason, s.now);
    HandlersOutliveGrowth(s.tables, Revoked(s.tables, jti, reason, s.now), s.revoking);
  }

  lemma PublishSound(s: State, h: nat)
    requires s.tables.Valid() && HandlersSound(s.tables, s.revoking) && h in s.revoking && s.revoking[h].Committed?
    ensures HandlersSound(s.tables, Publish(s, h).revoking)
  {
    assert HandlerSound(s.tables, s.revoking[h]);
  }

  lemma HandlersMoved(c: Config, s: State, e: Event)
    requires TablesSound(s.tables, s.now) && HandlersSound(s.tables, s.revoking) && Enabled(s, e) && MovesHandlers(e)
    ensures HandlersSound(Next(c, s, e).tables, Next(c, s, e).revoking)
  {
    match e
    case RevokeCommit(h, jti, reason) => CommitSound(s, h, jti, reason);
    case RevokePublish(h) => PublishSound(s, h);
    case RevokeSet(h, fate) => assert SetFlag(s, h, fate).revoking == s.revoking - {h};
    case RevokeAbandon(h) =>
  }

  lemma HandlersStep(c: Config, s: State, e: Event)
    requires TablesSound(s.tables, s.now) && HandlersSound(s.tables, s.revoking) && Enabled(s, e)
    ensures HandlersSound(Next(c, s, e).tables, Next(c, s, e).revoking)
  {
    if MovesHandlers(e) {
      HandlersMoved(c, s, e);
    } else {
      TablesStep(c, s, e);
      HandlersUntouched(c, s, e);
      HandlersOutliveGrowth(s.tables, Next(c, s, e).tables, s.revoking);
    }
  }

  /** Each reachable cache entry belongs to a committed revocation and lives exactly as long as its
      credential; each unfinished sync and handler carries the stored rows. */
  lemma InvariantStep(c: Config, s: State, e: Event)
    requires Invariant(s) && Enabled(s, e)
    ensures Invariant(Next(c, s, e)) && Grows(s.tables, Next(c, s, e).tables)
  {
    TablesStep(c, s, e);
    RedisStep(c, s, e);
    SyncsStep(c, s, e);
    LeaseTimeStep(c, s, e);
    RunningStep(c, s, e);
    HandlersStep(c, s, e);
  }

  lemma {:induction false} InvariantAlong(c: Config, s: State, events: seq<Event>)
    requires Invariant(s) && ValidRun(c, s, events)
    ensures Invariant(Final(c, s, events)) && Grows(s.tables, Final(c, s, events).tables)
    decreases |events|
  {
    if events == [] {
    } else {
      InvariantStep(c, s, events[0]);
      InvariantAlong(c, Next(c, s, events[0]), events[1..]);
    }
  }

  // ---- Cache soundness over whole runs ----

  /** In every reachable state: a cached JTI has a committed revocation row, and its key expires with
      its credential. */
  lemma CacheSoundInEveryRun(c: Config, start: int, events: seq<Event>, jti: string)
    requires ValidRun(c, Init(start), events)
    requires RevocationKey(jti) in Final(c, Init(start), events).keys
    ensures var s := Final(c, Init(start), events);
      jti in s.tables.revocations && jti in s.tables.issuances
      && s.keys[RevocationKey(jti)] == Entry(Flag, s.tables.issuances[jti].expiresAt)
  {
    InvariantAlong(c, Init(start), events);
  }

  /** A key once cached is never given another expiry: it only goes with the whole store. */
  lemma ExpiryNeverRewritten(c: Config, s: State, e: Event, jti: string)
    requires Invariant(s) && Enabled(s, e)
    requires RevocationKey(jti) in s.keys && RevocationKey(jti) in Next(c, s, e).keys
    ensures Next(c, s, e).keys[RevocationKey(jti)] == s.keys[RevocationKey(jti)]
  {
    InvariantStep(c, s, e);
  }

  // ---- Revocation is a write-once register ----

  lemma ReplyIsStored(s: State, e: Event)
    requires Invariant(s) && Enabled(s, e) && Reply(s, e).Some?
    ensures StoredRevocation(s.tables, Reply(s, e).value.jti) == Reply(s, e)
  {
  }

  lemma StoredIsPermanent(t: Tables, u: Tables, jti: string)
    requires Grows(t, u) && StoredRevocation(t, jti).Some?
    ensures StoredRevocation(u, jti) == StoredRevocation(t, jti)
  {
  }

  /** However revokes of a JTI interleave, repeat and are retried after a 503, every 200 carries the
      same timestamp, reason and expiry. */
  lemma RepliesAgree(c: Config, start: int, before: seq<Event>, first: Event, between: seq<Event>, second: Event)
    requires ValidRun(c, Init(start), before)
    requires var s := Final(c, Init(start), before);
      Enabled(s, first) && ValidRun(c, Next(c, s, first), between)
    requires var t := Final(c, Next(c, Final(c, Init(start), before), first), between); Enabled(t, second)
    requires var s := Final(c, Init(start), before);
      var t := Final(c, Next(c, s, first), between);
      Reply(s, first).Some? && Reply(t, second).Some?
      && Reply(s, first).value.jti == Reply(t, second).value.jti
    ensures var s := Final(c, Init(start), before);
      var t := Final(c, Next(c, s, first), between);
      Reply(s, first) == Reply(t, second)
  {
    var s := Final(c, Init(start), before);
    var t := Final(c, Next(c, s, first), between);
    InvariantAlong(c, Init(start), before);
    InvariantStep(c, s, first);
    InvariantAlong(c, Next(c, s, first), between);
    ReplyIsStored(s, first);
    ReplyIsStored(t, second);
    StoredIsPermanent(s.tables, Next(c, s, first).tables, Reply(s, first).value.jti);
    StoredIsPermanent(Next(c, s, first).tables, t.tables, Reply(s, first).value.jti);
  }

  /** Every publish sends the expiry of the issuance, so no retry shortens or lengthens it; the publish
      is skipped exactly when the credential has expired by section 4.1.4 of RFC 7519. */
  lemma PublishCarriesExpiry(c: Config, s: State, h: nat)
    requires Invariant(s) && Enabled(s, RevokePublish(h))
    ensures var r, t := s.revoking[h].revocation, Next(c, s, RevokePublish(h));
      && r.jti in s.tables.issuances
      && (h in t.revoking <==> s.now / 1000 < s.tables.issuances[r.jti].expiresAt / 1000)
      && (h in t.revoking ==>
            t.revoking[h].Publishing?
            && t.revoking[h].expirySeconds * 1000 == s.tables.issuances[r.jti].expiresAt)
      && (h !in t.revoking ==> Reply(s, RevokePublish(h)) == Some(r))
  {
  }
}
