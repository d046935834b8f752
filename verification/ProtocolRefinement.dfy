/** The interleaved protocol refines the code: run without interruption, its steps do what the methods of
    `Synchronizer`, `Issuer` and the checker of `RevocationCache` do. */
module ProtocolRefinement {
  import opened Wrappers
  import opened Database
  import opened RevocationCache
  import opened SyncBatch
  import opened Protocol
  import Issuer
  import SyncLoop

  /** A sync that fails before its snapshot is answered, or takes it and goes on to its writes. */
  ghost function SyncRun(c: Config, s: State, id: nat, rows: Result<seq<ActiveRevocation>>, execFate: CommandFate,
                         leaseAt: int, leaseFate: CommandFate): State
    requires id in s.syncs && (rows.Success? ==> Enabled(s, SyncSnapshot(id, rows.value))) && s.now <= leaseAt
  {
    match rows
    case Failure => Next(c, s, SyncFails(id))
    case Success(listing) =>
      WritesRun(c, Next(c, s, SyncSnapshot(id, listing)), id, execFate, leaseAt, leaseFate)
  }

  /** The batch if there is one to send, and the lease, with nothing in between but time. */
  ghost function WritesRun(c: Config, s: State, id: nat, execFate: CommandFate, leaseAt: int, leaseFate: CommandFate):
    State
    requires id in s.syncs && !s.syncs[id].Started? && s.now <= leaseAt
  {
    var written := if s.syncs[id].Snapped? then Next(c, s, SyncExec(id, execFate)) else s;
    if id !in written.syncs then written
    else Next(c, Next(c, written, Tick(leaseAt)), SyncLease(id, leaseFate))
  }

  /** The sync `id` is over. What the loop makes of it, if the loop began it: the timer is set again, and
      success, and only success, ends a series of failures. */
  predicate Settled(c: Config, s: State, t: State, id: nat, success: bool) {
    && id !in t.syncs
    && (id in s.loop.running ==>
          t.loop == SyncLoop.Settle(s.loop, id, t.now, c.Interval())
          && t.failures == if success then 0 else s.failures + 1)
  }

  lemma SnapshotEffect(c: Config, s: State, id: nat, rows: seq<ActiveRevocation>)
    requires Enabled(s, SyncSnapshot(id, rows))
    ensures var t, startedAt := Next(c, s, SyncSnapshot(id, rows)), s.syncs[id].startedAt;
      t == s.(syncs := t.syncs) && id in t.syncs
      && t.syncs[id] == if BatchOf(rows, startedAt) == [] then Batched(startedAt, s.now)
                        else Snapped(startedAt, s.now, BatchOf(rows, startedAt))
  {
  }

  lemma ExecEffect(c: Config, s: State, id: nat, fate: CommandFate)
    requires Enabled(s, SyncExec(id, fate))
    ensures var t, y := Next(c, s, SyncExec(id, fate)), s.syncs[id];
      t.keys == (if fate.Applied() then BatchSet(s.keys, y.batch) else s.keys) && t.now == s.now
      && if fate.Acknowledged? then
           id in t.syncs && t.syncs[id] == Batched(y.startedAt, y.snapAt)
           && t.loop == s.loop && t.failures == s.failures
         else Settled(c, s, t, id, false)
  {
    assert Next(c, s, SyncExec(id, fate)) == Exec(c, s, id, fate);
  }

  lemma LeaseEffect(c: Config, s: State, id: nat, at: int, fate: CommandFate)
    requires id in s.syncs && s.syncs[id].Batched? && s.now <= at
    ensures var t := Next(c, Next(c, s, Tick(at)), SyncLease(id, fate));
      t.keys == (if fate.Applied() then LeaseSet(s.keys, s.syncs[id].startedAt, c.TtlSeconds(), at) else s.keys)
      && t.now == at && Settled(c, s, t, id, fate.Acknowledged?)
  {
    var later := s.(now := at);
    assert Next(c, s, Tick(at)) == later;
    assert Next(c, later, SyncLease(id, fate)) == Lease(c, later, id, fate);
  }

  lemma WritesEffect(c: Config, s: State, id: nat, execFate: CommandFate, leaseAt: int, leaseFate: CommandFate,
                     batch: seq<(string, int)>)
    requires id in s.syncs && !s.syncs[id].Started? && s.now <= leaseAt
    requires batch == if s.syncs[id].Snapped? then s.syncs[id].batch else []
    requires s.syncs[id].Snapped? ==> batch != []
    ensures var t := WritesRun(c, s, id, execFate, leaseAt, leaseFate);
      var sent := if execFate.Applied() then BatchSet(s.keys, batch) else s.keys;
      if batch != [] && !execFate.Acknowledged? then t.keys == sent && Settled(c, s, t, id, false)
      else
        var written := BatchSet(s.keys, batch);
        t.keys == (if leaseFate.Applied() then LeaseSet(written, s.syncs[id].startedAt, c.TtlSeconds(), leaseAt)
                   else written)
        && Settled(c, s, t, id, leaseFate.Acknowledged?)
  {
    if s.syncs[id].Snapped? {
      ExecEffect(c, s, id, execFate);
      if execFate.Acknowledged? {
        LeaseEffect(c, Next(c, s, SyncExec(id, execFate)), id, leaseAt, leaseFate);
      }
    } else {
      LeaseEffect(c, s, id, leaseAt, leaseFate);
    }
  }

  /** The steps of a sync leave the keyspace that `SyncOnce` leaves, and settle as it does, whatever fails. */
  lemma SyncStepsAreSyncOnce(c: Config, s: State, id: nat, rows: Result<seq<ActiveRevocation>>, execFate: CommandFate,
                             leaseAt: int, leaseFate: CommandFate)
    requires id in s.syncs && (rows.Success? ==> Enabled(s, SyncSnapshot(id, rows.value))) && s.now <= leaseAt
    requires s.tables.Valid()
    ensures var t := SyncRun(c, s, id, rows, execFate, leaseAt, leaseFate);
      && t.keys == AfterSync(s.keys, rows, s.syncs[id].startedAt, execFate, c.TtlSeconds(), leaseAt, leaseFate)
      && Settled(c, s, t, id, SyncResult(rows, execFate, leaseFate).Success?)
  {
    match rows
    case Failure => assert Next(c, s, SyncFails(id)) == EndSync(c, s, id, false);
    case Success(listing) =>
      var startedAt := s.syncs[id].startedAt;
      BatchRows(s.tables, listing, startedAt);
      SnapshotEffect(c, s, id, listing);
      WritesEffect(c, Next(c, s, SyncSnapshot(id, listing)), id, execFate, leaseAt, leaseFate,
                   BatchOf(listing, startedAt));
  }

  /** Commit, publish and set, with nothing in between but time: the final state and the 200, if any. */
  ghost function RevokeOutcome(c: Config, s: State, h: nat, jti: string, reason: Option<string>, publishAt: int,
                               fate: CommandFate): (State, Option<Revocation>)
    requires Enabled(s, RevokeCommit(h, jti, reason)) && s.now <= publishAt
  {
    var committed := Next(c, s, RevokeCommit(h, jti, reason));
    if h !in committed.revoking then (committed, None)
    else
      var later := Next(c, committed, Tick(publishAt));
      var published := Next(c, later, RevokePublish(h));
      if h !in published.revoking then (published, Reply(later, RevokePublish(h)))
      else (Next(c, published, RevokeSet(h, fate)), Reply(published, RevokeSet(h, fate)))
  }

  lemma CommitEffect(c: Config, s: State, h: nat, jti: string, reason: Option<string>, publishAt: int)
    requires s.tables.Valid() && Enabled(s, RevokeCommit(h, jti, reason)) && s.now <= publishAt
    ensures var t := Next(c, s, RevokeCommit(h, jti, reason));
      var row := StoredRevocation(t.tables, jti);
      && t.tables == Revoked(s.tables, jti, reason, s.now) && t.keys == s.keys && t.now == s.now
      && (h in t.revoking <==> row.Some?)
      && (h in t.revoking ==> t.revoking[h] == Committed(row.value))
  {
  }

  lemma PublishEffect(c: Config, s: State, h: nat, fate: CommandFate)
    requires Enabled(s, RevokePublish(h))
    ensures var r, t := s.revoking[h].revocation, Next(c, s, RevokePublish(h));
      t.tables == s.tables &&
      match RevocationExpirySeconds(r.expiresAt, s.now)
      case None => h !in t.revoking && t.keys == s.keys && Reply(s, RevokePublish(h)) == Some(r)
      case Some(seconds) =>
        var u := Next(c, t, RevokeSet(h, fate));
        h in t.revoking && t.revoking[h] == Publishing(r, seconds)
        && u.tables == s.tables && u.keys == (if fate.Applied() then FlagSet(s.keys, r.jti, seconds) else s.keys)
        && Reply(t, RevokeSet(h, fate)) == (if fate.Acknowledged? then Some(r) else None)
  {
    var t := Next(c, s, RevokePublish(h));
    assert t == Publish(s, h);
    if h in t.revoking {
      assert Next(c, t, RevokeSet(h, fate)) == SetFlag(t, h, fate);
    }
  }

  /** The steps of a revoke handler do what `PostRevoke` does. */
  lemma RevokeStepsArePostRevoke(c: Config, s: State, h: nat, jti: string, reason: Option<string>, publishAt: int,
                                 fate: CommandFate)
    requires s.tables.Valid() && Enabled(s, RevokeCommit(h, jti, reason)) && s.now <= publishAt
    ensures var (t, sent) := RevokeOutcome(c, s, h, jti, reason, publishAt, fate);
      var row := StoredRevocation(t.tables, jti);
      && t.tables == Revoked(s.tables, jti, reason, s.now)
      && t.keys == Issuer.KeysAfterRevoke(s.keys, row, publishAt, fate)
      && (match sent
          case None => !Issuer.RevokeReplyTo(row, publishAt, fate).Propagated?
          case Some(r) => Issuer.RevokeReplyTo(row, publishAt, fate) == Issuer.Propagated(r))
  {
    CommitEffect(c, s, h, jti, reason, publishAt);
    var committed := Next(c, s, RevokeCommit(h, jti, reason));
    if h in committed.revoking {
      var later := committed.(now := publishAt);
      assert Next(c, committed, Tick(publishAt)) == later;
      PublishEffect(c, later, h, fate);
    }
  }

  /** What a check answers when its fallback, if it needs one, follows at once. */
  ghost function CheckOutcome(c: Config, s: State, id: nat, redisUp: bool, postgresUp: bool): Outcome
    requires Enabled(s, CheckRead(id, redisUp))
  {
    match OutcomeOf(s, CheckRead(id, redisUp))
    case Pending(_) => OutcomeOf(Next(c, s, CheckRead(id, redisUp)), CheckFallback(id, postgresUp))
    case answered => answered
  }

  /** The steps of a check give what the cached checker gives over the PostgreSQL one. */
  lemma CheckStepsAreIsRevoked(c: Config, s: State, id: nat, redisUp: bool, postgresUp: bool)
    requires Enabled(s, CheckRead(id, redisUp))
    ensures var jti := s.checks[id].jti;
      var fallback := if postgresUp then Success(InRevocations(s.tables, jti)) else Failure;
      CheckOutcome(c, s, id, redisUp, postgresUp)
      == match IsRevoked(if redisUp then MGet(s.keys, jti, s.now) else None, fallback)
         case Success(revoked) => Answered(jti, revoked)
         case Failure => Unavailable(jti)
  {
  }
}
