/** The revocation-cache protocol as a state machine: syncs, `POST /revoke` handlers, checks, the clock
    and failures interleave, one atomic step at a time. Awaited calls separate the steps. */
module Protocol {
  import opened Wrappers
  import opened Claims
  import opened Database
  import opened RevocationCache
  import opened SyncBatch
  import SyncLoop

  /** A sync in flight: before its snapshot, with its batch to write, with only the lease to write. */
  datatype Sync =
    | Started(startedAt: int)
    | Snapped(startedAt: int, snapAt: int, batch: seq<(string, int)>)
    | Batched(startedAt: int, snapAt: int)

  /** A revoke handler in flight: after its commit, and with its publish under way. */
  datatype Revoking =
    | Committed(revocation: Revocation)
    | Publishing(revocation: Revocation, expirySeconds: int)

  /** A revocation check in flight. */
  datatype Checking = Reading(jti: string) | FallingBack(jti: string)

  datatype Config = Config(intervalSeconds: int) {
    function Interval(): int {
      SyncLoop.IntervalMillis(intervalSeconds)
    }

    function TtlSeconds(): int {
      FreshnessTtlSeconds(intervalSeconds)
    }
  }

  /** The last three fields are history that no step reads: the snapshot time behind the current lease,
      the loop's consecutive failures, and the time of its last success. */
  datatype State = State(
    now: int, tables: Tables, keys: Keyspace,
    syncs: map<nat, Sync>, revoking: map<nat, Revoking>, checks: map<nat, Checking>, loop: SyncLoop.Loop,
    leaseSnapAt: int, failures: nat, successAt: int)

  datatype Event =
    | Tick(to: int)
    | Issue(claims: CredentialClaims)
    | RevokeOutOfBand(jti: string, reason: Option<string>)
    | RevokeCommit(handler: nat, jti: string, reason: Option<string>)
    | RevokePublish(handler: nat)
    | RevokeSet(handler: nat, fate: CommandFate)
    | RevokeAbandon(handler: nat)
    | SyncBegin(sync: nat)
    | LoopStart
    | LoopStop
    | TimerFires(handle: nat, sync: nat)
    | SyncSnapshot(sync: nat, rows: seq<ActiveRevocation>)
    | SyncExec(sync: nat, fate: CommandFate)
    | SyncLease(sync: nat, fate: CommandFate)
    | SyncFails(sync: nat)
    | CheckBegin(check: nat, jti: string)
    | CheckRead(check: nat, reachable: bool)
    | CheckFallback(check: nat, reachable: bool)
    | Wipe

  function Init(now: int): State {
    State(now, Tables(map[], map[]), map[], map[], map[], map[], SyncLoop.IDLE, now, 0, now)
  }

  ghost predicate Enabled(s: State, e: Event) {
    match e
    case Tick(to) => s.now <= to
    case Issue(claims) => Insertable(s.tables, claims)
    case RevokeOutOfBand(jti, _) => jti in s.tables.issuances
    case RevokeCommit(handler, _, _) => handler !in s.revoking
    case RevokePublish(handler) => handler in s.revoking && s.revoking[handler].Committed?
    case RevokeSet(handler, _) => handler in s.revoking && s.revoking[handler].Publishing?
    case RevokeAbandon(handler) => handler in s.revoking
    case SyncBegin(sync) => sync !in s.syncs && sync !in s.loop.running
    case LoopStart => true
    case LoopStop => true
    case TimerFires(handle, sync) =>
      sync !in s.syncs && SyncLoop.Enabled(s.loop, SyncLoop.LoopFire(handle, sync, s.now))
    case SyncSnapshot(sync, rows) =>
      sync in s.syncs && s.syncs[sync].Started? && IsActiveListing(s.tables, s.syncs[sync].startedAt, rows)
    case SyncExec(sync, _) => sync in s.syncs && s.syncs[sync].Snapped?
    case SyncLease(sync, _) => sync in s.syncs && s.syncs[sync].Batched?
    case SyncFails(sync) => sync in s.syncs
    case CheckBegin(check, jti) =>
      // The verifier refuses a token with exp <= floor(now) before it asks about revocation.
      check !in s.checks && jti in s.tables.issuances && s.now / 1000 < s.tables.issuances[jti].expiresAt / 1000
    case CheckRead(check, _) => check in s.checks && s.checks[check].Reading?
    case CheckFallback(check, _) => check in s.checks && s.checks[check].FallingBack?
    case Wipe => true
  }

  /** A sync settles; if the loop began it, `finally(schedule)` follows. */
  function EndSync(c: Config, s: State, sync: nat, success: bool): State {
    var t := s.(syncs := s.syncs - {sync});
    if sync !in s.loop.running then t
    else t.(loop := SyncLoop.Settle(s.loop, sync, s.now, c.Interval()),
            failures := if success then 0 else s.failures + 1,
            successAt := if success then s.now else s.successAt)
  }

  function Commit(s: State, handler: nat, jti: string, reason: Option<string>): State {
    var tables := Revoked(s.tables, jti, reason, s.now);
    match StoredRevocation(tables, jti)
    case None => s
    case Some(r) => s.(tables := tables, revoking := s.revoking[handler := Committed(r)])
  }

  function Publish(s: State, handler: nat): State
    requires handler in s.revoking && s.revoking[handler].Committed?
  {
    var r := s.revoking[handler].revocation;
    match RevocationExpirySeconds(r.expiresAt, s.now)
    case None => s.(revoking := s.revoking - {handler})
    case Some(seconds) => s.(revoking := s.revoking[handler := Publishing(r, seconds)])
  }

  function SetFlag(s: State, handler: nat, fate: CommandFate): State
    requires handler in s.revoking && s.revoking[handler].Publishing?
  {
    var jti := s.revoking[handler].revocation.jti;
    s.(keys := if fate.Applied() then FlagSet(s.keys, jti, s.revoking[handler].expirySeconds) else s.keys,
       revoking := s.revoking - {handler})
  }

  function Snapshot(s: State, sync: nat, rows: seq<ActiveRevocation>): State
    requires sync in s.syncs && s.syncs[sync].Started?
  {
    var startedAt := s.syncs[sync].startedAt;
    var batch := BatchOf(rows, startedAt);
    s.(syncs := s.syncs[sync := if batch == [] then Batched(startedAt, s.now) else Snapped(startedAt, s.now, batch)])
  }

  function Exec(c: Config, s: State, sync: nat, fate: CommandFate): State
    requires sync in s.syncs && s.syncs[sync].Snapped?
  {
    var y := s.syncs[sync];
    var t := s.(keys := if fate.Applied() then BatchSet(s.keys, y.batch) else s.keys);
    if fate.Acknowledged? then t.(syncs := s.syncs[sync := Batched(y.startedAt, y.snapAt)])
    else EndSync(c, t, sync, false)
  }

  function Lease(c: Config, s: State, sync: nat, fate: CommandFate): State
    requires sync in s.syncs && s.syncs[sync].Batched?
  {
    var y := s.syncs[sync];
    var t := if fate.Applied()
             then s.(keys := LeaseSet(s.keys, y.startedAt, c.TtlSeconds(), s.now), leaseSnapAt := y.snapAt)
             else s;
    EndSync(c, t, sync, fate.Acknowledged?)
  }

  function ReplyOf(s: State, jti: string, reachable: bool): MGetReply {
    if reachable then MGet(s.keys, jti, s.now) else None
  }

  function AfterRead(s: State, check: nat, reachable: bool): State
    requires check in s.checks && s.checks[check].Reading?
  {
    var jti := s.checks[check].jti;
    s.(checks := if CacheDecision(ReplyOf(s, jti, reachable)).Fallback? then s.checks[check := FallingBack(jti)]
                 else s.checks - {check})
  }

  ghost function Next(c: Config, s: State, e: Event): State
    requires Enabled(s, e)
  {
    match e
    case Tick(to) => s.(now := to)
    case Issue(claims) => s.(tables := Inserted(s.tables, claims))
    case RevokeOutOfBand(jti, reason) => s.(tables := Revoked(s.tables, jti, reason, s.now))
    case RevokeCommit(handler, jti, reason) => Commit(s, handler, jti, reason)
    case RevokePublish(handler) => Publish(s, handler)
    case RevokeSet(handler, fate) => SetFlag(s, handler, fate)
    case RevokeAbandon(handler) => s.(revoking := s.revoking - {handler})
    case SyncBegin(sync) => s.(syncs := s.syncs[sync := Started(s.now)])
    case LoopStart => s.(loop := SyncLoop.Start(s.loop, s.now, c.Interval()))
    case LoopStop => s.(loop := SyncLoop.Stop(s.loop))
    case TimerFires(handle, sync) =>
      s.(loop := SyncLoop.Fire(s.loop, handle, sync, s.now), syncs := s.syncs[sync := Started(s.now)])
    case SyncSnapshot(sync, rows) => Snapshot(s, sync, rows)
    case SyncExec(sync, fate) => Exec(c, s, sync, fate)
    case SyncLease(sync, fate) => Lease(c, s, sync, fate)
    case SyncFails(sync) => EndSync(c, s, sync, false)
    case CheckBegin(check, jti) => s.(checks := s.checks[check := Reading(jti)])
    case CheckRead(check, reachable) => AfterRead(s, check, reachable)
    case CheckFallback(check, _) => s.(checks := s.checks - {check})
    case Wipe => s.(keys := map[])
  }

  // ---- What the outside sees ----

  /** The body of the 200 that a step sends to a `POST /revoke`, if it sends one. */
  function Reply(s: State, e: Event): Option<Revocation> {
    match e
    case RevokePublish(h) =>
      if h in s.revoking && RevocationExpirySeconds(s.revoking[h].revocation.expiresAt, s.now).None?
      then Some(s.revoking[h].revocation) else None
    case RevokeSet(h, fate) =>
      if h in s.revoking && fate.Acknowledged? then Some(s.revoking[h].revocation) else None
    case _ => None
  }

  /** The check a step answers or leaves unanswered: its JTI, and the answer if there is one. */
  datatype Outcome = NoCheck | Pending(jti: string) | Unavailable(jti: string) | Answered(jti: string, revoked: bool)

  function OutcomeOf(s: State, e: Event): Outcome {
    match e
    case CheckRead(check, reachable) =>
      if check !in s.checks then NoCheck
      else
        var jti := s.checks[check].jti;
        (match CacheDecision(ReplyOf(s, jti, reachable))
         case Answer(revoked) => Answered(jti, revoked)
         case Fallback => Pending(jti))
    case CheckFallback(check, reachable) =>
      if check !in s.checks then NoCheck
      else if reachable then Answered(s.checks[check].jti, InRevocations(s.tables, s.checks[check].jti))
      else Unavailable(s.checks[check].jti)
    case _ => NoCheck
  }

  // ---- Runs ----

  ghost predicate ValidRun(c: Config, s: State, events: seq<Event>)
    decreases |events|
  {
    events != [] ==> Enabled(s, events[0]) && ValidRun(c, Next(c, s, events[0]), events[1..])
  }

  ghost function Final(c: Config, s: State, events: seq<Event>): State
    requires ValidRun(c, s, events)
    decreases |events|
  {
    if events == [] then s else Final(c, Next(c, s, events[0]), events[1..])
  }
}
