/** How long a revocation that was written behind the issuer's back can go unnoticed. */
module ProtocolStaleness {
  import opened RevocationCache
  import opened SyncBatch
  import opened Protocol
  import opened ProtocolInvariant
  import opened ProtocolSafety

  function CommittedAt(s: State, jti: string): int
    requires jti in s.tables.revocations
  {
    s.tables.revocations[jti].revokedAt
  }

  /** The sync's snapshot contains the revocation and the sync has still to write it, or the revocation
      was committed no earlier than the snapshot. */
  predicate WillWriteOrPredates(y: Sync, jti: string, committedAt: int) {
    WillWrite(y, jti) || committedAt >= y.snapAt
  }

  /** If `jti` is not cached, neither the lease nor any lease to come rests on a snapshot later than
      its commit. */
  predicate MissIsRecent(s: State, jti: string)
    requires jti in s.tables.revocations
  {
    Cached(s, jti) ||
    ((LeaseLive(s) ==> CommittedAt(s, jti) >= s.leaseSnapAt)
     && forall id :: id in s.syncs ==> WillWriteOrPredates(s.syncs[id], jti, CommittedAt(s, jti)))
  }

  /** The lease lasts three intervals from its write, which came within `d` of its snapshot. */
  predicate LeaseBounded(c: Config, s: State, d: int) {
    FreshnessKey in s.keys ==> s.keys[FreshnessKey].expiresAt <= s.leaseSnapAt + d + 3 * c.Interval()
  }

  /** Hypotheses on one step: lease writes come within `d` of their snapshot, and a wipe does not meet a
      sync that has written `jti` and has its lease still to write. */
  predicate StepIsTimely(s: State, e: Event, d: int, jti: string) {
    && (e.SyncLease? && e.sync in s.syncs && s.syncs[e.sync].Batched? && e.fate.Applied() ==>
          s.now - s.syncs[e.sync].snapAt <= d)
    && (e.Wipe? && LiveRevocation(s, jti) ==>
          forall id :: id in s.syncs && s.syncs[id].Batched? ==> CommittedAt(s, jti) >= s.syncs[id].snapAt)
  }

  ghost predicate Timely(c: Config, s: State, events: seq<Event>, d: int, jti: string)
    requires ValidRun(c, s, events)
    decreases |events|
  {
    events != [] ==>
      StepIsTimely(s, events[0], d, jti) && Timely(c, Next(c, s, events[0]), events[1..], d, jti)
  }

  lemma LeaseBoundedStep(c: Config, s: State, e: Event, d: int, jti: string)
    requires Invariant(s) && Enabled(s, e) && LeaseBounded(c, s, d) && StepIsTimely(s, e, d, jti)
    ensures LeaseBounded(c, Next(c, s, e), d)
  {
    if !(e.SyncLease? && e.fate.Applied()) && FreshnessKey in Next(c, s, e).keys {
      LeaseOrigin(c, s, e);
    }
  }

  /** A step that commits a revocation stamps it with the current time and moves no sync. */
  lemma CommitStep(c: Config, s: State, e: Event, jti: string)
    requires Enabled(s, e) && jti !in s.tables.revocations && jti in Next(c, s, e).tables.revocations
    ensures CommittedAt(Next(c, s, e), jti) == s.now
    ensures Next(c, s, e).syncs == s.syncs && Next(c, s, e).keys == s.keys
    ensures Next(c, s, e).leaseSnapAt == s.leaseSnapAt && Next(c, s, e).now == s.now
    ensures Next(c, s, e).loop == s.loop && Next(c, s, e).failures == s.failures
  {
    if WritesTables(e) {
      AsideKeeps(c, s, e);
      KeysMove(c, s, e);
    } else {
      TablesUntouched(c, s, e);
    }
  }

  lemma FreshCommitIsRecent(c: Config, s: State, e: Event, jti: string)
    requires Invariant(s) && Enabled(s, e)
    requires jti !in s.tables.revocations && jti in Next(c, s, e).tables.revocations
    ensures MissIsRecent(Next(c, s, e), jti)
  {
    CommitStep(c, s, e, jti);
    forall id | id in s.syncs ensures WillWriteOrPredates(s.syncs[id], jti, s.now) {
      assert SyncSound(s.tables, s.now, s.syncs[id]);
    }
  }

  lemma SyncsStayRecent(c: Config, s: State, e: Event, jti: string)
    requires Invariant(s) && Enabled(s, e) && LiveRevocation(s, jti) && !Cached(Next(c, s, e), jti)
    requires forall id :: id in s.syncs ==> WillWriteOrPredates(s.syncs[id], jti, CommittedAt(s, jti))
    ensures forall id :: id in Next(c, s, e).syncs ==>
      WillWriteOrPredates(Next(c, s, e).syncs[id], jti, CommittedAt(s, jti))
  {
    forall id | id in Next(c, s, e).syncs
      ensures WillWriteOrPredates(Next(c, s, e).syncs[id], jti, CommittedAt(s, jti))
    {
      SyncOrigin(c, s, e, id);
      if e.SyncSnapshot? && e.sync == id {
        SnapshotSees(s, id, e.rows, jti);
      } else if e.SyncExec? && e.sync == id && e.fate.Acknowledged? && InBatch(s.syncs[id].batch, jti) {
        ExecWrites(c, s, id, e.fate, jti);
      }
    }
  }

  lemma WipeKeepsSyncsRecent(s: State, jti: string, d: int)
    requires Invariant(s) && LiveRevocation(s, jti) && StepIsTimely(s, Wipe, d, jti)
    requires forall id :: id in s.syncs && s.syncs[id].Snapped? ==>
      WillWriteOrPredates(s.syncs[id], jti, CommittedAt(s, jti))
    ensures forall id :: id in s.syncs ==> WillWriteOrPredates(s.syncs[id], jti, CommittedAt(s, jti))
  {
  }

  /** Snapshots taken after the commit always carry the revocation, cached or not. */
  predicate SnapshotsTell(s: State, jti: string)
    requires jti in s.tables.revocations
  {
    forall id :: id in s.syncs && s.syncs[id].Snapped? ==>
      WillWriteOrPredates(s.syncs[id], jti, CommittedAt(s, jti))
  }

  lemma SnapshotsTellStep(c: Config, s: State, e: Event, jti: string)
    requires Invariant(s) && Enabled(s, e) && LiveRevocation(s, jti) && SnapshotsTell(s, jti)
    ensures jti in Next(c, s, e).tables.revocations && SnapshotsTell(Next(c, s, e), jti)
  {
    TablesStep(c, s, e);
    forall id | id in Next(c, s, e).syncs && Next(c, s, e).syncs[id].Snapped?
      ensures WillWriteOrPredates(Next(c, s, e).syncs[id], jti, CommittedAt(Next(c, s, e), jti))
    {
      SyncOrigin(c, s, e, id);
      if e.SyncSnapshot? && e.sync == id {
        SnapshotSees(s, id, e.rows, jti);
      }
    }
  }

  /** What the induction carries for one revocation. */
  ghost predicate Recent(s: State, jti: string) {
    LiveRevocation(s, jti) ==> MissIsRecent(s, jti) && SnapshotsTell(s, jti)
  }

  lemma RecentStep(c: Config, s: State, e: Event, d: int, jti: string)
    requires Invariant(s) && Enabled(s, e) && Recent(s, jti) && StepIsTimely(s, e, d, jti)
    ensures Recent(Next(c, s, e), jti)
  {
    var t := Next(c, s, e);
    if !LiveRevocation(t, jti) {
    } else if jti !in s.tables.revocations {
      FreshCommitIsRecent(c, s, e, jti);
      CommitStep(c, s, e, jti);
      assert SnapshotsTell(t, jti) by {
        forall id | id in t.syncs && t.syncs[id].Snapped?
          ensures WillWriteOrPredates(t.syncs[id], jti, CommittedAt(t, jti))
        {
          assert SyncSound(s.tables, s.now, s.syncs[id]);
        }
      }
    } else {
      LiveBefore(c, s, e, jti);
      TablesStep(c, s, e);
      SnapshotsTellStep(c, s, e, jti);
      MissStep(c, s, e, d, jti);
    }
  }

  lemma MissStep(c: Config, s: State, e: Event, d: int, jti: string)
    requires Invariant(s) && Enabled(s, e) && StepIsTimely(s, e, d, jti)
    requires LiveRevocation(s, jti) && MissIsRecent(s, jti) && SnapshotsTell(s, jti)
    ensures jti in Next(c, s, e).tables.revocations && MissIsRecent(Next(c, s, e), jti)
  {
    var t := Next(c, s, e);
    TablesStep(c, s, e);
    assert CommittedAt(t, jti) == CommittedAt(s, jti);
    if e.Wipe? {
      WipeKeepsSyncsRecent(s, jti, d);
    } else if Cached(s, jti) {
      KeysKept(c, s, e, jti);
    } else if !Cached(t, jti) {
      SyncsStayRecent(c, s, e, jti);
      if LeaseLive(t) && !(e.SyncLease? && e.fate.Applied()) {
        LeaseOrigin(c, s, e);
      }
    }
  }

  lemma {:induction false} RecentAlong(c: Config, s: State, events: seq<Event>, d: int, jti: string)
    requires Invariant(s) && ValidRun(c, s, events) && Timely(c, s, events, d, jti)
    requires Recent(s, jti) && LeaseBounded(c, s, d)
    ensures Recent(Final(c, s, events), jti) && LeaseBounded(c, Final(c, s, events), d)
    decreases |events|
  {
    if events == [] {
    } else {
      InvariantStep(c, s, events[0]);
      RecentStep(c, s, events[0], d, jti);
      LeaseBoundedStep(c, s, events[0], d, jti);
      RecentAlong(c, Next(c, s, events[0]), events[1..], d, jti);
    }
  }

  /** Bounded staleness, through failing syncs, outages, lapses and expiry: if a check is answered
      "not revoked" from Redis before exp, a revocation committed at c lies less than 3 intervals + d back. */
  lemma BoundedStaleness(c: Config, start: int, events: seq<Event>, check: Event, jti: string, d: int)
    requires ValidRun(c, Init(start), events) && Timely(c, Init(start), events, d, jti)
    requires var s := Final(c, Init(start), events);
      Enabled(s, check) && check.CheckRead? && OutcomeOf(s, check) == Answered(jti, false) && LiveRevocation(s, jti)
    ensures var s := Final(c, Init(start), events);
      CommittedAt(s, jti) <= s.now < CommittedAt(s, jti) + 3 * c.Interval() + d
  {
    InvariantAlong(c, Init(start), events);
    RecentAlong(c, Init(start), events, d, jti);
  }
}
