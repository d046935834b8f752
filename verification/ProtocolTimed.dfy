/** What the running loop guarantees: an out-of-band revocation is picked up in time, and the lease does
    not lapse while failures are few. */
module ProtocolTimed {
  import opened Wrappers
  import opened Database
  import opened RevocationCache
  import opened SyncBatch
  import opened Protocol
  import opened ProtocolInvariant
  import opened ProtocolSafety
  import opened ProtocolStaleness
  import SyncLoop

  /** A started loop has a timer set or a sync running; timers are due within an interval; syncs began in
      the past. Unlike the bound on how many there are, this survives overlapping starts. */
  ghost predicate LoopOk(l: SyncLoop.Loop, now: int, interval: int) {
    && (!l.stopped ==> l.pending != map[] || l.running != map[])
    && (forall h :: h in l.pending ==> l.pending[h] <= now + interval)
    && (forall id :: id in l.running ==> l.running[id] <= now)
  }

  ghost predicate LoopSound(c: Config, s: State) {
    LoopOk(s.loop, s.now, c.Interval())
  }

  lemma LoopOkStep(l: SyncLoop.Loop, e: SyncLoop.LoopEvent, now: int, interval: int)
    requires LoopOk(l, now, interval) && SyncLoop.Enabled(l, e)
    requires interval >= 0 && (e.LoopStop? || e.now == now)
    ensures LoopOk(SyncLoop.Next(l, e, interval), now, interval)
  {
    match e
    case LoopStart(_) => ScheduleNotEmpty(l.(stopped := false), now, interval);
    case LoopStop =>
    case LoopFire(h, sync, _) => assert sync in SyncLoop.Next(l, e, interval).running;
    case LoopSettle(sync, _) =>
      if !l.stopped {
        ScheduleNotEmpty(l.(running := l.running - {sync}), now, interval);
      }
  }

  lemma ScheduleNotEmpty(l: SyncLoop.Loop, now: int, delay: int)
    requires !l.stopped
    ensures SyncLoop.Schedule(l, now, delay).pending != map[]
  {
    assert l.nextHandle in SyncLoop.Schedule(l, now, delay).pending;
  }

  /** What a step does to the loop. */
  function LoopEventOf(s: State, e: Event): Option<SyncLoop.LoopEvent> {
    match e
    case LoopStart => Some(SyncLoop.LoopStart(s.now))
    case LoopStop => Some(SyncLoop.LoopStop)
    case TimerFires(h, id) => Some(SyncLoop.LoopFire(h, id, s.now))
    case SyncExec(id, fate) =>
      if id in s.loop.running && !fate.Acknowledged? then Some(SyncLoop.LoopSettle(id, s.now)) else None
    case SyncLease(id, _) => if id in s.loop.running then Some(SyncLoop.LoopSettle(id, s.now)) else None
    case SyncFails(id) => if id in s.loop.running then Some(SyncLoop.LoopSettle(id, s.now)) else None
    case _ => None
  }

  /** The protocol runs the loop of `SyncLoop`, step for step. */
  lemma LoopMove(c: Config, s: State, e: Event)
    requires Enabled(s, e)
    ensures match LoopEventOf(s, e)
      case None => Next(c, s, e).loop == s.loop
      case Some(le) =>
        SyncLoop.Enabled(s.loop, le) && Next(c, s, e).loop == SyncLoop.Next(s.loop, le, c.Interval())
        && Next(c, s, e).now == s.now
  {
  }

  lemma LoopSoundStep(c: Config, s: State, e: Event)
    requires c.intervalSeconds >= 1 && LoopSound(c, s) && Enabled(s, e)
    ensures LoopSound(c, Next(c, s, e))
  {
    LoopMove(c, s, e);
    match LoopEventOf(s, e)
    case Some(le) => LoopOkStep(s.loop, le, s.now, c.Interval());
    case None =>
      var later := Next(c, s, e).now;
      assert s.now <= later;
      assert LoopOk(s.loop, later, c.Interval());
  }

  lemma {:induction false} LoopSoundAlong(c: Config, s: State, events: seq<Event>)
    requires c.intervalSeconds >= 1 && LoopSound(c, s) && ValidRun(c, s, events)
    ensures LoopSound(c, Final(c, s, events))
    decreases |events|
  {
    if events == [] {
    } else {
      LoopSoundStep(c, s, events[0]);
      LoopSoundAlong(c, Next(c, s, events[0]), events[1..]);
    }
  }

  /** The host fires timers on time and loop syncs take at most `d`; the loop is left running. */
  predicate Prompt(s: State, e: Event, d: int) {
    && (e.Tick? ==>
          && (forall h :: h in s.loop.pending ==> e.to <= s.loop.pending[h])
          && (forall id :: id in s.loop.running ==> e.to <= s.loop.running[id] + d))
    && !e.LoopStop?
  }

  /** Loop syncs succeed. */
  predicate LoopSucceeds(s: State, e: Event) {
    match e
    case SyncExec(id, fate) => id in s.loop.running ==> fate.Acknowledged?
    case SyncLease(id, fate) => id in s.loop.running ==> fate.Acknowledged?
    case SyncFails(id) => id !in s.loop.running
    case _ => true
  }

  // ---- Convergence ----

  /** A loop sync that will write the revocation is under way or near, or one that missed it is about to
      end; in each case there is time left. */
  ghost predicate OnItsWay(c: Config, s: State, jti: string, d: int)
    requires jti in s.tables.revocations
  {
    Near(s.loop, s.syncs, jti, s.now, CommittedAt(s, jti), c.Interval(), d)
  }

  ghost predicate Near(l: SyncLoop.Loop, syncs: map<nat, Sync>, jti: string,
                       now: int, committed: int, interval: int, d: int)
  {
    && now <= committed + interval + 2 * d
    && (forall h :: h in l.pending ==> l.pending[h] <= committed + interval + d && now <= committed + interval + d)
    && (forall id :: id in l.running && id in syncs ==>
          SyncNear(syncs[id], jti, l.running[id], now, committed, interval, d))
  }

  predicate SyncNear(y: Sync, jti: string, began: int, now: int, committed: int, interval: int, d: int) {
    if WillWrite(y, jti) then began <= committed + interval + d else began <= committed && now <= committed + d
  }

  ghost predicate Converging(c: Config, s: State, jti: string, d: int) {
    LiveRevocation(s, jti) ==> Guarded(s, jti) || OnItsWay(c, s, jti, d)
  }

  lemma NearAtCommit(l: SyncLoop.Loop, syncs: map<nat, Sync>, jti: string, now: int, interval: int, d: int)
    requires LoopOk(l, now, interval) && interval >= 0 && d >= 0
    ensures Near(l, syncs, jti, now, now, interval, d)
  {
  }

  lemma CommitIsOnItsWay(c: Config, s: State, e: Event, jti: string, d: int)
    requires c.intervalSeconds >= 1 && d >= 0 && LoopSound(c, s) && Enabled(s, e)
    requires jti !in s.tables.revocations && jti in Next(c, s, e).tables.revocations
    ensures OnItsWay(c, Next(c, s, e), jti, d)
  {
    CommitStep(c, s, e, jti);
    NearAtCommit(s.loop, s.syncs, jti, s.now, c.Interval(), d);
  }

  /** Time passes only up to what the timer or the sync in flight allows. */
  lemma NearTick(l: SyncLoop.Loop, syncs: map<nat, Sync>, jti: string,
                 now: int, to: int, committed: int, interval: int, d: int)
    requires d >= 0 && interval >= 0 && LoopOk(l, now, interval) && !l.stopped && l.running.Keys <= syncs.Keys
    requires Near(l, syncs, jti, now, committed, interval, d)
    requires forall h :: h in l.pending ==> to <= l.pending[h]
    requires forall id :: id in l.running ==> to <= l.running[id] + d
    ensures Near(l, syncs, jti, to, committed, interval, d)
  {
    if l.pending != map[] {
      var h :| h in l.pending;
      assert to <= l.pending[h];
    } else {
      var id :| id in l.running;
      assert id in syncs && SyncNear(syncs[id], jti, l.running[id], now, committed, interval, d);
    }
    forall id | id in l.running && id in syncs
      ensures SyncNear(syncs[id], jti, l.running[id], to, committed, interval, d)
    {
      assert SyncNear(syncs[id], jti, l.running[id], now, committed, interval, d);
    }
  }

  lemma NearFire(l: SyncLoop.Loop, syncs: map<nat, Sync>, jti: string, h: nat, sync: nat,
                 now: int, committed: int, interval: int, d: int)
    requires h in l.pending && Near(l, syncs, jti, now, committed, interval, d)
    ensures Near(SyncLoop.Fire(l, h, sync, now), syncs[sync := Started(now)], jti, now, committed, interval, d)
  {
  }

  /** A loop sync ends only after its batch, so here it is one that missed the revocation. */
  lemma NearSettle(l: SyncLoop.Loop, syncs: map<nat, Sync>, jti: string, sync: nat,
                   now: int, committed: int, interval: int, d: int)
    requires d >= 0 && interval >= 0
    requires sync in l.running && sync in syncs && !WillWrite(syncs[sync], jti)
    requires Near(l, syncs, jti, now, committed, interval, d)
    ensures Near(SyncLoop.Settle(l, sync, now, interval), syncs - {sync}, jti, now, committed, interval, d)
  {
    assert SyncNear(syncs[sync], jti, l.running[sync], now, committed, interval, d);
  }

  /** A sync moves on without turning from one that will write the revocation into one that will not. */
  lemma NearMove(l: SyncLoop.Loop, syncs: map<nat, Sync>, jti: string, sync: nat, y: Sync,
                 now: int, committed: int, interval: int, d: int)
    requires Near(l, syncs, jti, now, committed, interval, d)
    requires sync !in l.running || (sync in syncs && WillWrite(syncs[sync], jti) == WillWrite(y, jti))
    ensures Near(l, syncs[sync := y], jti, now, committed, interval, d)
  {
  }

  lemma NearEnd(l: SyncLoop.Loop, syncs: map<nat, Sync>, jti: string, sync: nat,
                now: int, committed: int, interval: int, d: int)
    requires Near(l, syncs, jti, now, committed, interval, d) && sync !in l.running
    ensures Near(l, syncs - {sync}, jti, now, committed, interval, d)
  {
  }

  lemma OnItsWaySnapshot(c: Config, s: State, id: nat, rows: seq<ActiveRevocation>, jti: string, d: int)
    requires Enabled(s, SyncSnapshot(id, rows)) && Invariant(s) && LiveRevocation(s, jti) && OnItsWay(c, s, jti, d)
    ensures OnItsWay(c, Snapshot(s, id, rows), jti, d)
  {
    SnapshotSees(s, id, rows, jti);
    var y := Snapshot(s, id, rows).syncs[id];
    NearMove(s.loop, s.syncs, jti, id, y, s.now, CommittedAt(s, jti), c.Interval(), d);
  }

  lemma OnItsWayExec(c: Config, s: State, id: nat, fate: CommandFate, jti: string, d: int)
    requires Enabled(s, SyncExec(id, fate)) && LoopSucceeds(s, SyncExec(id, fate))
    requires Invariant(s) && LiveRevocation(s, jti) && OnItsWay(c, s, jti, d)
    requires !Cached(Exec(c, s, id, fate), jti)
    ensures OnItsWay(c, Exec(c, s, id, fate), jti, d)
  {
    if fate.Acknowledged? {
      if InBatch(s.syncs[id].batch, jti) {
        ExecWrites(c, s, id, fate, jti);
      }
      var y := Batched(s.syncs[id].startedAt, s.syncs[id].snapAt);
      NearMove(s.loop, s.syncs, jti, id, y, s.now, CommittedAt(s, jti), c.Interval(), d);
    } else {
      NearEnd(s.loop, s.syncs, jti, id, s.now, CommittedAt(s, jti), c.Interval(), d);
    }
  }

  lemma OnItsWayEnd(c: Config, s: State, id: nat, success: bool, jti: string, d: int)
    requires c.intervalSeconds >= 1 && d >= 0 && id in s.syncs
    requires id in s.loop.running ==> !WillWrite(s.syncs[id], jti)
    requires jti in s.tables.revocations && OnItsWay(c, s, jti, d)
    ensures OnItsWay(c, EndSync(c, s, id, success), jti, d)
  {
    if id in s.loop.running {
      NearSettle(s.loop, s.syncs, jti, id, s.now, CommittedAt(s, jti), c.Interval(), d);
    } else {
      NearEnd(s.loop, s.syncs, jti, id, s.now, CommittedAt(s, jti), c.Interval(), d);
    }
  }

  lemma OnItsWayLease(c: Config, s: State, id: nat, fate: CommandFate, jti: string, d: int)
    requires c.intervalSeconds >= 1 && d >= 0 && Enabled(s, SyncLease(id, fate))
    requires jti in s.tables.revocations && OnItsWay(c, s, jti, d)
    ensures OnItsWay(c, Lease(c, s, id, fate), jti, d)
  {
    var y := s.syncs[id];
    var t := s.(keys := LeaseSet(s.keys, y.startedAt, c.TtlSeconds(), s.now), leaseSnapAt := y.snapAt);
    OnItsWayEnd(c, if fate.Applied() then t else s, id, fate.Acknowledged?, jti, d);
  }

  lemma OnItsWayStep(c: Config, s: State, e: Event, jti: string, d: int)
    requires c.intervalSeconds >= 1 && d >= 0 && Enabled(s, e) && Prompt(s, e, d) && LoopSucceeds(s, e)
    requires Invariant(s) && LoopSound(c, s) && !s.loop.stopped && LiveRevocation(s, jti)
    requires OnItsWay(c, s, jti, d) && !Cached(Next(c, s, e), jti)
    ensures jti in Next(c, s, e).tables.revocations && OnItsWay(c, Next(c, s, e), jti, d)
  {
    TablesStep(c, s, e);
    if Aside(e) {
      AsideKeeps(c, s, e);
      assert CommittedAt(Next(c, s, e), jti) == CommittedAt(s, jti);
    } else if MayEnd(e) {
      OnItsWayEnding(c, s, e, jti, d);
    } else {
      OnItsWayMain(c, s, e, jti, d);
    }
  }

  /** Steps that end a sync or may end it. */
  predicate MayEnd(e: Event) {
    e.SyncExec? || e.SyncLease? || e.SyncFails?
  }

  lemma OnItsWayEnding(c: Config, s: State, e: Event, jti: string, d: int)
    requires c.intervalSeconds >= 1 && d >= 0 && Enabled(s, e) && LoopSucceeds(s, e) && MayEnd(e)
    requires Invariant(s) && LiveRevocation(s, jti) && OnItsWay(c, s, jti, d) && !Cached(Next(c, s, e), jti)
    ensures jti in Next(c, s, e).tables.revocations && OnItsWay(c, Next(c, s, e), jti, d)
  {
    match e
    case SyncExec(id, fate) => OnItsWayExec(c, s, id, fate, jti, d);
    case SyncLease(id, fate) => OnItsWayLease(c, s, id, fate, jti, d);
    case SyncFails(id) => OnItsWayEnd(c, s, id, false, jti, d);
  }

  lemma OnItsWayMain(c: Config, s: State, e: Event, jti: string, d: int)
    requires c.intervalSeconds >= 1 && d >= 0 && Enabled(s, e) && Prompt(s, e, d) && !Aside(e) && !MayEnd(e)
    requires Invariant(s) && LoopSound(c, s) && !s.loop.stopped && LiveRevocation(s, jti) && OnItsWay(c, s, jti, d)
    ensures jti in Next(c, s, e).tables.revocations && OnItsWay(c, Next(c, s, e), jti, d)
  {
    var committed := CommittedAt(s, jti);
    match e
    case Tick(to) => NearTick(s.loop, s.syncs, jti, s.now, to, committed, c.Interval(), d);
    case TimerFires(h, id) => NearFire(s.loop, s.syncs, jti, h, id, s.now, committed, c.Interval(), d);
    case LoopStart =>
    case SyncBegin(id) => NearMove(s.loop, s.syncs, jti, id, Started(s.now), s.now, committed, c.Interval(), d);
    case SyncSnapshot(id, rows) => OnItsWaySnapshot(c, s, id, rows, jti, d);
  }

  lemma StaysStarted(c: Config, s: State, e: Event)
    requires Enabled(s, e) && !e.LoopStop? && !s.loop.stopped
    ensures !Next(c, s, e).loop.stopped
  {
    LoopMove(c, s, e);
  }

  /** Healthy steps for one revocation: prompt, successful, and with harmless wipes only. */
  ghost predicate Healthy(c: Config, s: State, events: seq<Event>, jti: string, d: int)
    requires ValidRun(c, s, events)
    decreases |events|
  {
    events != [] ==>
      && Prompt(s, events[0], d) && LoopSucceeds(s, events[0])
      && (events[0].Wipe? && LiveRevocation(s, jti) ==> AllWillWrite(s, jti))
      && Healthy(c, Next(c, s, events[0]), events[1..], jti, d)
  }

  lemma ConvergingStep(c: Config, s: State, e: Event, jti: string, d: int)
    requires c.intervalSeconds >= 1 && d >= 0 && Enabled(s, e) && Prompt(s, e, d) && LoopSucceeds(s, e)
    requires Invariant(s) && LoopSound(c, s) && !s.loop.stopped && jti in s.tables.revocations
    requires e.Wipe? && LiveRevocation(s, jti) ==> AllWillWrite(s, jti)
    requires Converging(c, s, jti, d)
    ensures jti in Next(c, s, e).tables.revocations && Converging(c, Next(c, s, e), jti, d)
  {
    TablesStep(c, s, e);
    if LiveRevocation(Next(c, s, e), jti) && !Cached(Next(c, s, e), jti) {
      LiveBefore(c, s, e, jti);
      if Guarded(s, jti) {
        GuardedStep(c, s, e, jti);
      } else {
        OnItsWayStep(c, s, e, jti, d);
      }
    }
  }

  lemma {:induction false} ConvergingAlong(c: Config, s: State, events: seq<Event>, jti: string, d: int)
    requires c.intervalSeconds >= 1 && d >= 0 && ValidRun(c, s, events) && Healthy(c, s, events, jti, d)
    requires Invariant(s) && LoopSound(c, s) && !s.loop.stopped && jti in s.tables.revocations
    requires Converging(c, s, jti, d)
    ensures Converging(c, Final(c, s, events), jti, d)
    decreases |events|
  {
    if events == [] {
    } else {
      var e := events[0];
      InvariantStep(c, s, e);
      LoopSoundStep(c, s, e);
      StaysStarted(c, s, e);
      ConvergingStep(c, s, e, jti, d);
      ConvergingAlong(c, Next(c, s, e), events[1..], jti, d);
    }
  }

  /** Convergence when healthy: if loop syncs succeed and last at most `d`, a revocation committed at c,
      by whatever path, is reported by every check made after c + interval + 2d. */
  lemma ConvergesWhenHealthy(c: Config, start: int, before: seq<Event>, commit: Event, after: seq<Event>,
                             check: Event, jti: string, revoked: bool, d: int)
    requires c.intervalSeconds >= 1 && d >= 0
    requires ValidRun(c, Init(start), before)
    requires var s := Final(c, Init(start), before);
      Enabled(s, commit) && !s.loop.stopped
      && jti !in s.tables.revocations && jti in Next(c, s, commit).tables.revocations
      && ValidRun(c, Next(c, s, commit), after) && Healthy(c, Next(c, s, commit), after, jti, d)
    ensures var t := Final(c, Next(c, Final(c, Init(start), before), commit), after);
      && jti in t.tables.revocations && CommittedAt(t, jti) == Final(c, Init(start), before).now
      && (t.now > CommittedAt(t, jti) + c.Interval() + 2 * d && Enabled(t, check)
          && OutcomeOf(t, check) == Answered(jti, revoked) && (check.CheckRead? ==> LiveRevocation(t, jti))
          ==> revoked)
  {
    var s := Final(c, Init(start), before);
    var s' := Next(c, s, commit);
    InvariantAlong(c, Init(start), before);
    LoopSoundAlong(c, Init(start), before);
    CommitStep(c, s, commit, jti);
    CommitIsOnItsWay(c, s, commit, jti, d);
    InvariantStep(c, s, commit);
    assert LoopSound(c, s');
    InvariantAlong(c, s', after);
    LateAnswerIsTrue(c, s', after, check, jti, revoked, d);
  }

  lemma LateAnswerIsTrue(c: Config, s: State, events: seq<Event>, check: Event, jti: string, revoked: bool, d: int)
    requires c.intervalSeconds >= 1 && d >= 0 && ValidRun(c, s, events) && Healthy(c, s, events, jti, d)
    requires Invariant(s) && LoopSound(c, s) && !s.loop.stopped && jti in s.tables.revocations
    requires OnItsWay(c, s, jti, d)
    ensures var t := Final(c, s, events);
      && jti in t.tables.revocations && CommittedAt(t, jti) == CommittedAt(s, jti)
      && (t.now > CommittedAt(t, jti) + c.Interval() + 2 * d && Enabled(t, check)
          && OutcomeOf(t, check) == Answered(jti, revoked) && (check.CheckRead? ==> LiveRevocation(t, jti))
          ==> revoked)
  {
    var t := Final(c, s, events);
    ConvergingAlong(c, s, events, jti, d);
    InvariantAlong(c, s, events);
    if Enabled(t, check) && OutcomeOf(t, check) == Answered(jti, revoked)
       && t.now > CommittedAt(t, jti) + c.Interval() + 2 * d && (check.CheckRead? ==> LiveRevocation(t, jti))
    {
      GuardedIsReported(t, check, jti, revoked);
    }
  }

  // ---- Lease continuity ----

  /** Since the last success at `w` the loop has failed `f` times: when its timer is due at the latest. */
  function DueBy(w: int, f: int, interval: int, d: int): int {
    w + (f + 1) * interval + f * d
  }

  lemma DueByNext(w: int, f: int, interval: int, d: int)
    ensures DueBy(w, f + 1, interval, d) == DueBy(w, f, interval, d) + interval + d
    ensures DueBy(w, 0, interval, d) == w + interval
  {
    assert (f + 2) * interval == (f + 1) * interval + interval;
    assert (f + 1) * d == f * d + d;
  }

  lemma DueByWithin(w: int, f: int, k: int, interval: int, d: int)
    requires 0 <= f <= k && interval >= 0 && d >= 0 && (k + 1) * (interval + d) < 3 * interval
    ensures DueBy(w, f, interval, d) + d < w + 3 * interval
  {
    assert (f + 1) * (interval + d) == (f + 1) * interval + f * d + d;
    assert (f + 1) * (interval + d) <= (k + 1) * (interval + d);
  }

  /** The loop is on schedule: `bound` is `DueBy` for the failures so far. */
  ghost predicate OnSchedule(l: SyncLoop.Loop, now: int, bound: int, d: int) {
    && (forall h :: h in l.pending ==> l.pending[h] <= bound && now <= bound)
    && (forall id :: id in l.running ==> l.running[id] <= bound)
    && now <= bound + d
  }

  ghost predicate LeaseHeld(c: Config, s: State, d: int) {
    && s.successAt <= s.now
    && FreshnessKey in s.keys && s.keys[FreshnessKey].expiresAt >= s.successAt + 3 * c.Interval()
    && OnSchedule(s.loop, s.now, DueBy(s.successAt, s.failures, c.Interval(), d), d)
  }

  lemma ScheduleTick(l: SyncLoop.Loop, now: int, to: int, bound: int, d: int)
    requires d >= 0 && (l.pending != map[] || l.running != map[]) && OnSchedule(l, now, bound, d)
    requires forall h :: h in l.pending ==> to <= l.pending[h]
    requires forall id :: id in l.running ==> to <= l.running[id] + d
    ensures OnSchedule(l, to, bound, d)
  {
    if l.pending != map[] {
      var h :| h in l.pending;
      assert l.pending[h] <= bound;
    } else {
      var id :| id in l.running;
      assert l.running[id] <= bound;
    }
  }

  lemma ScheduleFire(l: SyncLoop.Loop, h: nat, sync: nat, now: int, bound: int, d: int)
    requires h in l.pending && OnSchedule(l, now, bound, d)
    ensures OnSchedule(SyncLoop.Fire(l, h, sync, now), now, bound, d)
  {
  }

  lemma ScheduleSettle(l: SyncLoop.Loop, sync: nat, now: int, bound: int, interval: int, d: int)
    requires d >= 0 && interval >= 0 && now + interval <= bound
    requires forall h :: h in l.pending ==> l.pending[h] <= bound
    requires forall id :: id in l.running ==> l.running[id] <= bound
    ensures OnSchedule(SyncLoop.Settle(l, sync, now, interval), now, bound, d)
  {
  }

  /** A sync ends: on success the count restarts from now, on failure the next timer is one round later. */
  lemma LeaseHeldEnd(c: Config, s: State, id: nat, success: bool, d: int)
    requires c.intervalSeconds >= 1 && d >= 0 && LoopSound(c, s) && LeaseHeld(c, s, d)
    requires success && id in s.loop.running ==> s.keys[FreshnessKey].expiresAt >= s.now + 3 * c.Interval()
    ensures LeaseHeld(c, EndSync(c, s, id, success), d)
  {
    if id in s.loop.running {
      DueByNext(s.successAt, s.failures, c.Interval(), d);
      DueByNext(s.now, 0, c.Interval(), d);
      var t := EndSync(c, s, id, success);
      ScheduleSettle(s.loop, id, s.now, DueBy(t.successAt, t.failures, c.Interval(), d), c.Interval(), d);
    }
  }

  lemma LeaseHeldExec(c: Config, s: State, id: nat, fate: CommandFate, d: int)
    requires c.intervalSeconds >= 1 && d >= 0 && Invariant(s) && LoopSound(c, s) && LeaseHeld(c, s, d)
    requires Enabled(s, SyncExec(id, fate))
    ensures LeaseHeld(c, Exec(c, s, id, fate), d)
  {
    BatchSetEffect(s.tables, s.keys, s.syncs[id].batch, "");
    if !fate.Acknowledged? {
      LeaseHeldEnd(c, s.(keys := if fate.Applied() then BatchSet(s.keys, s.syncs[id].batch) else s.keys), id, false, d);
    }
  }

  lemma LeaseHeldLease(c: Config, s: State, id: nat, fate: CommandFate, d: int)
    requires c.intervalSeconds >= 1 && d >= 0 && LoopSound(c, s) && LeaseHeld(c, s, d)
    requires Enabled(s, SyncLease(id, fate))
    ensures LeaseHeld(c, Lease(c, s, id, fate), d)
  {
    var y := s.syncs[id];
    var t := if fate.Applied()
             then s.(keys := LeaseSet(s.keys, y.startedAt, c.TtlSeconds(), s.now), leaseSnapAt := y.snapAt)
             else s;
    LeaseHeldEnd(c, t, id, fate.Acknowledged?, d);
  }

  lemma LeaseHeldStep(c: Config, s: State, e: Event, d: int)
    requires c.intervalSeconds >= 1 && d >= 0 && Enabled(s, e) && Prompt(s, e, d) && !e.Wipe?
    requires Invariant(s) && LoopSound(c, s) && !s.loop.stopped && LeaseHeld(c, s, d)
    ensures LeaseHeld(c, Next(c, s, e), d)
  {
    if Aside(e) {
      AsideKeeps(c, s, e);
    } else {
      LeaseHeldMain(c, s, e, d);
    }
  }

  lemma LeaseHeldMain(c: Config, s: State, e: Event, d: int)
    requires c.intervalSeconds >= 1 && d >= 0 && Enabled(s, e) && Prompt(s, e, d) && !Aside(e)
    requires Invariant(s) && LoopSound(c, s) && !s.loop.stopped && LeaseHeld(c, s, d)
    ensures LeaseHeld(c, Next(c, s, e), d)
  {
    var bound := DueBy(s.successAt, s.failures, c.Interval(), d);
    match e
    case Tick(to) => ScheduleTick(s.loop, s.now, to, bound, d);
    case TimerFires(h, id) => ScheduleFire(s.loop, h, id, s.now, bound, d);
    case SyncExec(id, fate) => LeaseHeldExec(c, s, id, fate, d);
    case SyncLease(id, fate) => LeaseHeldLease(c, s, id, fate, d);
    case SyncFails(id) => LeaseHeldEnd(c, s, id, false, d);
    case LoopStart =>
    case SyncBegin(_) =>
    case SyncSnapshot(_, _) =>
  }

  /** Prompt steps without a wipe and with at most `k` consecutive failures of the loop. */
  ghost predicate FewFailures(c: Config, s: State, events: seq<Event>, d: int, k: int)
    requires ValidRun(c, s, events)
    decreases |events|
  {
    && s.failures <= k
    && (events != [] ==>
          Prompt(s, events[0], d) && !events[0].Wipe?
          && FewFailures(c, Next(c, s, events[0]), events[1..], d, k))
  }

  lemma {:induction false} LeaseHeldAlong(c: Config, s: State, events: seq<Event>, d: int, k: int)
    requires c.intervalSeconds >= 1 && d >= 0 && ValidRun(c, s, events) && FewFailures(c, s, events, d, k)
    requires Invariant(s) && LoopSound(c, s) && !s.loop.stopped && LeaseHeld(c, s, d)
    ensures LeaseHeld(c, Final(c, s, events), d) && Final(c, s, events).failures <= k
    decreases |events|
  {
    if events == [] {
    } else {
      var e := events[0];
      InvariantStep(c, s, e);
      LoopSoundStep(c, s, e);
      StaysStarted(c, s, e);
      LeaseHeldStep(c, s, e, d);
      LeaseHeldAlong(c, Next(c, s, e), events[1..], d, k);
    }
  }

  lemma SuccessHoldsLease(c: Config, s: State, id: nat, d: int)
    requires c.intervalSeconds >= 1 && d >= 0 && LoopSound(c, s)
    requires Enabled(s, SyncLease(id, Acknowledged)) && id in s.loop.running
    ensures LeaseHeld(c, Next(c, s, SyncLease(id, Acknowledged)), d)
    ensures Next(c, s, SyncLease(id, Acknowledged)).failures == 0
  {
    DueByNext(s.now, 0, c.Interval(), d);
    ScheduleSettle(s.loop, id, s.now, DueBy(s.now, 0, c.Interval(), d), c.Interval(), d);
  }

  /** Lease continuity: after a success of the loop, while its syncs last at most `d` and at most `k` in a
      row fail with (k + 1) * (interval + d) < 3 * interval, the freshness key never lapses. */
  lemma LeaseNeverLapses(c: Config, start: int, before: seq<Event>, id: nat, after: seq<Event>, d: int, k: int)
    requires c.intervalSeconds >= 1 && d >= 0 && (k + 1) * (c.Interval() + d) < 3 * c.Interval()
    requires ValidRun(c, Init(start), before)
    requires var s, success := Final(c, Init(start), before), SyncLease(id, Acknowledged);
      Enabled(s, success) && id in s.loop.running && !s.loop.stopped
      && ValidRun(c, Next(c, s, success), after) && FewFailures(c, Next(c, s, success), after, d, k)
    ensures LeaseLive(Final(c, Next(c, Final(c, Init(start), before), SyncLease(id, Acknowledged)), after))
  {
    var s, success := Final(c, Init(start), before), SyncLease(id, Acknowledged);
    InvariantAlong(c, Init(start), before);
    LoopSoundAlong(c, Init(start), before);
    LeaseLastsFrom(c, s, id, after, d, k);
  }

  lemma LeaseLastsFrom(c: Config, s: State, id: nat, after: seq<Event>, d: int, k: int)
    requires c.intervalSeconds >= 1 && d >= 0 && (k + 1) * (c.Interval() + d) < 3 * c.Interval()
    requires Invariant(s) && LoopSound(c, s) && id in s.loop.running && !s.loop.stopped
    requires var success := SyncLease(id, Acknowledged);
      Enabled(s, success) && ValidRun(c, Next(c, s, success), after)
      && FewFailures(c, Next(c, s, success), after, d, k)
    ensures LeaseLive(Final(c, Next(c, s, SyncLease(id, Acknowledged)), after))
  {
    var success := SyncLease(id, Acknowledged);
    var next := Next(c, s, success);
    SuccessHoldsLease(c, s, id, d);
    InvariantStep(c, s, success);
    LoopSoundStep(c, s, success);
    StaysStarted(c, s, success);
    LeaseHeldAlong(c, next, after, d, k);
    HeldIsLive(c, Final(c, next, after), d, k);
  }

  lemma HeldIsLive(c: Config, s: State, d: int, k: int)
    requires c.intervalSeconds >= 1 && d >= 0 && (k + 1) * (c.Interval() + d) < 3 * c.Interval()
    requires LeaseHeld(c, s, d) && s.failures <= k
    ensures LeaseLive(s)
  {
    DueByWithin(s.successAt, s.failures, k, c.Interval(), d);
  }
}
