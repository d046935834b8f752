/** What checks may answer in any run: acknowledged revocations are never missed, and the others are
    missed for a bounded time only. */
module ProtocolSafety {
  import opened Wrappers
  import opened Database
  import opened RevocationCache
  import opened SyncBatch
  import opened Protocol
  import opened ProtocolInvariant

  /** Revoked, and its credential has not expired. */
  predicate LiveRevocation(s: State, jti: string) {
    jti in s.tables.revocations && jti in s.tables.issuances && s.now < s.tables.issuances[jti].expiresAt
  }

  predicate Cached(s: State, jti: string) {
    RevocationKey(jti) in s.keys
  }

  predicate LeaseLive(s: State) {
    FreshnessKey in s.keys && s.now < s.keys[FreshnessKey].expiresAt
  }

  /** A sync in flight will write `jti` before it can renew the lease. */
  predicate WillWrite(y: Sync, jti: string) {
    y.Started? || (y.Snapped? && InBatch(y.batch, jti))
  }

  predicate AllWillWrite(s: State, jti: string) {
    forall id :: id in s.syncs ==> WillWrite(s.syncs[id], jti)
  }

  /** No lease can vouch for a keyspace without `jti`, now or when any sync in flight finishes. */
  predicate Guarded(s: State, jti: string) {
    Cached(s, jti) || (!LeaseLive(s) && AllWillWrite(s, jti))
  }

  lemma LiveBefore(c: Config, s: State, e: Event, jti: string)
    requires Invariant(s) && Enabled(s, e) && jti in s.tables.revocations
    requires LiveRevocation(Next(c, s, e), jti)
    ensures LiveRevocation(s, jti)
  {
    TablesStep(c, s, e);
  }

  lemma KeyAfterKept(c: Config, s: State, e: Event, jti: string)
    requires Invariant(s) && !e.Wipe? && Cached(s, jti)
    ensures RevocationKey(jti) in KeysAfter(c, s, e)
  {
    if e.SyncExec? && e.sync in s.syncs && s.syncs[e.sync].Snapped? {
      assert SyncSound(s.tables, s.now, s.syncs[e.sync]);
      BatchSetEffect(s.tables, s.keys, s.syncs[e.sync].batch, jti);
    }
  }

  /** Only a wipe removes keys. */
  lemma KeysKept(c: Config, s: State, e: Event, jti: string)
    requires Invariant(s) && Enabled(s, e) && !e.Wipe? && Cached(s, jti)
    ensures Cached(Next(c, s, e), jti)
  {
    KeysMove(c, s, e);
    KeyAfterKept(c, s, e, jti);
  }

  lemma LeaseAfterOrigin(c: Config, s: State, e: Event)
    requires Invariant(s) && FreshnessKey in KeysAfter(c, s, e) && !(e.SyncLease? && e.fate.Applied())
    ensures FreshnessKey in s.keys && KeysAfter(c, s, e)[FreshnessKey] == s.keys[FreshnessKey]
  {
    if e.SyncExec? && e.sync in s.syncs && s.syncs[e.sync].Snapped? {
      assert SyncSound(s.tables, s.now, s.syncs[e.sync]);
      BatchSetEffect(s.tables, s.keys, s.syncs[e.sync].batch, "");
    }
  }

  /** Only a lease write starts a lease. */
  lemma LeaseOrigin(c: Config, s: State, e: Event)
    requires Invariant(s) && Enabled(s, e) && FreshnessKey in Next(c, s, e).keys
    requires !(e.SyncLease? && e.fate.Applied())
    ensures FreshnessKey in s.keys && Next(c, s, e).keys[FreshnessKey] == s.keys[FreshnessKey]
    ensures Next(c, s, e).leaseSnapAt == s.leaseSnapAt
    ensures LeaseLive(Next(c, s, e)) ==> LeaseLive(s)
  {
    KeysMove(c, s, e);
    LeaseAfterOrigin(c, s, e);
    TablesStep(c, s, e);
  }

  /** A snapshot taken after the commit carries every live revocation into its batch. */
  lemma SnapshotSees(s: State, id: nat, rows: seq<ActiveRevocation>, jti: string)
    requires Invariant(s) && Enabled(s, SyncSnapshot(id, rows)) && LiveRevocation(s, jti)
    ensures var y := Snapshot(s, id, rows).syncs[id]; y.Snapped? && InBatch(y.batch, jti)
  {
    BatchIsActiveSet(s.tables, rows, s.syncs[id].startedAt);
    assert InBatch(BatchOf(rows, s.syncs[id].startedAt), jti);
  }

  lemma ExecWrites(c: Config, s: State, id: nat, fate: CommandFate, jti: string)
    requires Invariant(s) && Enabled(s, SyncExec(id, fate)) && InBatch(s.syncs[id].batch, jti) && fate.Applied()
    ensures Cached(Next(c, s, SyncExec(id, fate)), jti)
  {
    BatchSetEffect(s.tables, s.keys, s.syncs[id].batch, jti);
  }

  lemma SyncsKeepWriting(c: Config, s: State, e: Event, jti: string)
    requires Invariant(s) && Enabled(s, e) && LiveRevocation(s, jti) && AllWillWrite(s, jti)
    ensures AllWillWrite(Next(c, s, e), jti) || Cached(Next(c, s, e), jti)
  {
    if e.SyncExec? && e.fate.Applied() {
      ExecWrites(c, s, e.sync, e.fate, jti);
    } else {
      forall id | id in Next(c, s, e).syncs ensures WillWrite(Next(c, s, e).syncs[id], jti) {
        SyncOrigin(c, s, e, id);
        if e.SyncSnapshot? && e.sync == id {
          SnapshotSees(s, id, e.rows, jti);
        }
      }
    }
  }

  /** Once guarded, a revocation stays guarded until its credential expires, through any interleaving of
      syncs with older snapshots, lapses, outages and harmless wipes. */
  lemma GuardedStep(c: Config, s: State, e: Event, jti: string)
    requires Invariant(s) && Enabled(s, e) && jti in s.tables.revocations && Guarded(s, jti)
    requires LiveRevocation(Next(c, s, e), jti)
    requires e.Wipe? ==> AllWillWrite(s, jti)
    ensures Guarded(Next(c, s, e), jti)
  {
    LiveBefore(c, s, e, jti);
    if e.Wipe? {
    } else if Cached(s, jti) {
      KeysKept(c, s, e, jti);
    } else {
      SyncsKeepWriting(c, s, e, jti);
      if LeaseLive(Next(c, s, e)) {
        assert !e.SyncLease?;
        LeaseOrigin(c, s, e);
      }
    }
  }

  /** A wipe is harmless for a live revocation when every sync in flight has still to write it. */
  ghost predicate HarmlessWipes(c: Config, s: State, events: seq<Event>, jti: string)
    requires ValidRun(c, s, events)
    decreases |events|
  {
    events != [] ==>
      (events[0].Wipe? && LiveRevocation(s, jti) ==> AllWillWrite(s, jti))
      && HarmlessWipes(c, Next(c, s, events[0]), events[1..], jti)
  }

  lemma {:induction false} GuardedAlong(c: Config, s: State, events: seq<Event>, jti: string)
    requires Invariant(s) && ValidRun(c, s, events) && HarmlessWipes(c, s, events, jti)
    requires jti in s.tables.revocations && (LiveRevocation(s, jti) ==> Guarded(s, jti))
    ensures LiveRevocation(Final(c, s, events), jti) ==> Guarded(Final(c, s, events), jti)
    decreases |events|
  {
    if events == [] {
    } else {
      var t := Next(c, s, events[0]);
      InvariantStep(c, s, events[0]);
      if LiveRevocation(t, jti) {
        LiveBefore(c, s, events[0], jti);
        GuardedStep(c, s, events[0], jti);
      }
      GuardedAlong(c, t, events[1..], jti);
    }
  }

  /** A guarded revocation is reported, or the check goes to PostgreSQL. */
  lemma GuardedIsReported(s: State, e: Event, jti: string, revoked: bool)
    requires Invariant(s) && Enabled(s, e) && OutcomeOf(s, e) == Answered(jti, revoked)
    requires jti in s.tables.revocations
    requires e.CheckRead? ==> LiveRevocation(s, jti) && Guarded(s, jti)
    ensures revoked
  {
  }

  /** A 200 leaves its revocation guarded. */
  lemma ReplyGuards(c: Config, s: State, e: Event)
    requires Invariant(s) && Enabled(s, e) && Reply(s, e).Some?
    ensures var jti, t := Reply(s, e).value.jti, Next(c, s, e);
      jti in t.tables.revocations && (LiveRevocation(t, jti) ==> Guarded(t, jti))
  {
    ReplyIsStored(s, e);
  }

  /** Acknowledged revocations are never missed: after `/revoke` has answered 200 for a JTI, a check that
      is answered from Redis before exp, or from PostgreSQL at any time, answers "revoked". */
  lemma AcknowledgedNeverMissed(c: Config, start: int, before: seq<Event>, reply: Event, between: seq<Event>,
                                check: Event, jti: string, revoked: bool)
    requires ValidRun(c, Init(start), before) && Enabled(Final(c, Init(start), before), reply)
    requires var s := Final(c, Init(start), before);
      Reply(s, reply).Some? && Reply(s, reply).value.jti == jti
      && ValidRun(c, Next(c, s, reply), between)
      && HarmlessWipes(c, Next(c, s, reply), between, jti)
    requires var t := Final(c, Next(c, Final(c, Init(start), before), reply), between);
      Enabled(t, check) && OutcomeOf(t, check) == Answered(jti, revoked)
      && (check.CheckRead? && jti in t.tables.issuances ==> t.now < t.tables.issuances[jti].expiresAt)
    ensures revoked
  {
    var s := Final(c, Init(start), before);
    var s' := Next(c, s, reply);
    InvariantAlong(c, Init(start), before);
    InvariantStep(c, s, reply);
    ReplyGuards(c, s, reply);
    GuardedAlong(c, s', between, jti);
    InvariantAlong(c, s', between);
    GuardedIsReported(Final(c, s', between), check, jti, revoked);
  }

  // ---- Exactly which wipes are harmless ----

  /** A continuation after which a check misses a live revocation. */
  ghost predicate Misses(c: Config, s: State, events: seq<Event>, check: Event, jti: string) {
    && ValidRun(c, s, events) && HarmlessWipes(c, s, events, jti)
    && var t := Final(c, s, events);
       Enabled(t, check) && LiveRevocation(t, jti) && OutcomeOf(t, check) == Answered(jti, false)
  }

  /** After a wipe, a sync that will not write `jti` renews the lease, and the next check misses it. */
  lemma HarmfulWipeMisses(c: Config, s: State, jti: string, id: nat)
    requires c.intervalSeconds >= 1 && Invariant(s) && LiveRevocation(s, jti)
    requires id in s.syncs && !WillWrite(s.syncs[id], jti)
    ensures exists events, check :: Misses(c, Next(c, s, Wipe), events, check, jti)
  {
    var w := s.(keys := map[]);
    assert Next(c, s, Wipe) == w;
    if s.syncs[id].Snapped? {
      assert SyncSound(s.tables, s.now, s.syncs[id]);
      BatchThenLeaseMisses(c, w, jti, id);
    } else {
      LeaseThenCheckMisses(c, w, jti, id);
    }
  }

  lemma BatchThenLeaseMisses(c: Config, s: State, jti: string, id: nat)
    requires c.intervalSeconds >= 1 && s.tables.Valid() && LiveRevocation(s, jti) && !Cached(s, jti)
    requires id in s.syncs && s.syncs[id].Snapped? && BatchSound(s.tables, s.syncs[id].batch)
    requires !InBatch(s.syncs[id].batch, jti)
    ensures exists events, check :: Misses(c, s, events, check, jti)
  {
    var e := SyncExec(id, Acknowledged);
    var t := Next(c, s, e);
    assert t == Exec(c, s, id, Acknowledged);
    BatchSetEffect(s.tables, s.keys, s.syncs[id].batch, jti);
    LeaseThenCheckMisses(c, t, jti, id);
    var events, check :| Misses(c, t, events, check, jti);
    MissesEarlier(c, s, e, events, check, jti);
  }

  lemma MissesEarlier(c: Config, s: State, e: Event, events: seq<Event>, check: Event, jti: string)
    requires Enabled(s, e) && !e.Wipe? && Misses(c, Next(c, s, e), events, check, jti)
    ensures Misses(c, s, [e] + events, check, jti)
  {
    assert ([e] + events)[1..] == events;
  }

  lemma LeaseThenCheckMisses(c: Config, s: State, jti: string, id: nat)
    requires c.intervalSeconds >= 1 && s.tables.Valid() && LiveRevocation(s, jti) && !Cached(s, jti)
    requires id in s.syncs && s.syncs[id].Batched?
    ensures exists events, check :: Misses(c, s, events, check, jti)
  {
    var e := SyncLease(id, Acknowledged);
    var t := Next(c, s, e);
    assert t.keys == LeaseSet(s.keys, s.syncs[id].startedAt, c.TtlSeconds(), s.now);
    var events, check := CheckMisses(t, c, jti);
    MissesEarlier(c, s, e, events, check, jti);
  }

  lemma CheckMisses(s: State, c: Config, jti: string) returns (events: seq<Event>, read: Event)
    requires s.tables.Valid() && LiveRevocation(s, jti) && !Cached(s, jti)
    requires LeaseLive(s) && s.keys[FreshnessKey].value.Timestamp?
    ensures Misses(c, s, events, read, jti)
  {
    var check := FreshId(s.checks);
    var begin := CheckBegin(check, jti);
    var t := Next(c, s, begin);
    read := CheckRead(check, true);
    assert Read(t.keys, RevocationKey(jti), t.now) == None;
    assert Misses(c, t, [], read, jti);
    events := [begin] + [];
    MissesEarlier(c, s, begin, [], read, jti);
  }

  ghost function FreshId(m: map<nat, Checking>): (id: nat)
    ensures id !in m
  {
    Unused(m.Keys);
    var id: nat :| id !in m.Keys; id
  }

  lemma {:induction false} Unused(s: set<nat>)
    ensures exists id: nat :: id !in s
  {
    var bound := Above(s);
    assert bound !in s;
  }

  /** A number greater than every member. */
  ghost function Above(s: set<nat>): (bound: nat)
    ensures forall x :: x in s ==> x < bound
    decreases |s|
  {
    if s == {} then 0
    else
      var x :| x in s;
      var rest := Above(s - {x});
      assert s == (s - {x}) + {x};
      if rest > x then rest else x + 1
  }

  /** A whole-Redis wipe endangers a guarded live revocation exactly when some sync in flight is past the
      point of writing it. */
  lemma WipeHarmlessIff(c: Config, s: State, jti: string)
    requires c.intervalSeconds >= 1 && Invariant(s) && LiveRevocation(s, jti)
    ensures AllWillWrite(s, jti) <==> !exists events, check :: Misses(c, Next(c, s, Wipe), events, check, jti)
  {
    var w := Next(c, s, Wipe);
    InvariantStep(c, s, Wipe);
    if AllWillWrite(s, jti) {
      forall events, check | Misses(c, w, events, check, jti) ensures false {
        GuardedAlong(c, w, events, jti);
        InvariantAlong(c, w, events);
        GuardedIsReported(Final(c, w, events), check, jti, false);
      }
    } else {
      var id :| id in s.syncs && !WillWrite(s.syncs[id], jti);
      HarmfulWipeMisses(c, s, jti, id);
    }
  }
}
