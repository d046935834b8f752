/** The convergence bound of `ProtocolTimed` cannot be improved for the issuer's runs. */
module ProtocolTimedBound {
  import opened Wrappers
  import opened Claims
  import opened Database
  import opened RevocationCache
  import opened Protocol
  import opened ProtocolSafety
  import opened ProtocolTimed
  import opened ProtocolIssuerRuns
  import ProtocolStalenessBound
  import SyncLoop

  /** A healthy run after which `check` misses a live revocation at the time `at`. */
  ghost predicate MissesAt(c: Config, s: State, events: seq<Event>, check: Event, jti: string, d: int, at: int) {
    && ValidRun(c, s, events) && IssuerRun(c, s, events) && Healthy(c, s, events, jti, d)
    && var t := Final(c, s, events);
       Enabled(t, check) && check.CheckRead? && OutcomeOf(t, check) == Answered(jti, false)
       && LiveRevocation(t, jti) && t.now == at
  }

  lemma MissEarlier(c: Config, s: State, e: Event, events: seq<Event>, check: Event, jti: string, d: int, at: int)
    requires Enabled(s, e) && Prompt(s, e, d) && LoopSucceeds(s, e) && !e.Wipe? && !e.Issue?
    requires MissesAt(c, Next(c, s, e), events, check, jti, d, at)
    ensures MissesAt(c, s, [e] + events, check, jti, d, at)
  {
    assert ([e] + events)[1..] == events;
  }

  lemma CheckNow(c: Config, s: State, jti: string, d: int) returns (events: seq<Event>, check: Event)
    requires s.tables.Valid() && LiveRevocation(s, jti) && !Cached(s, jti) && s.checks == map[]
    requires LeaseLive(s) && s.keys[FreshnessKey].value.Timestamp?
    ensures MissesAt(c, s, events, check, jti, d, s.now)
  {
    var begin := CheckBegin(0, jti);
    check := CheckRead(0, true);
    var t := Next(c, s, begin);
    assert Read(t.keys, RevocationKey(jti), t.now) == None;
    assert MissesAt(c, t, [], check, jti, d, s.now);
    MissEarlier(c, s, begin, [], check, jti, d, s.now);
    events := [begin] + [];
  }

  /** Time passes and a check is made. */
  lemma LaterCheckMisses(c: Config, s: State, jti: string, d: int, at: int) returns (events: seq<Event>, check: Event)
    requires s.tables.Valid() && jti in s.tables.revocations && jti in s.tables.issuances
    requires !Cached(s, jti) && s.checks == map[] && s.now <= at < s.tables.issuances[jti].expiresAt
    requires FreshnessKey in s.keys && s.keys[FreshnessKey].value.Timestamp? && at < s.keys[FreshnessKey].expiresAt
    requires Prompt(s, Tick(at), d)
    ensures MissesAt(c, s, events, check, jti, d, at)
  {
    var wait := Tick(at);
    var later := s.(now := at);
    assert Next(c, s, wait) == later;
    var rest, read := CheckNow(c, later, jti, d);
    MissEarlier(c, s, wait, rest, read, jti, d, at);
    events, check := [wait] + rest, read;
  }

  /** After the lease write: before the next sync is due, or while it has still to write the revocation. */
  lemma NextRoundMisses(c: Config, s: State, jti: string, d: int, at: int) returns (events: seq<Event>, check: Event)
    requires c.intervalSeconds >= 1 && d >= 0
    requires s.tables.Valid() && jti in s.tables.revocations && jti in s.tables.issuances
    requires !Cached(s, jti) && s.checks == map[] && s.syncs == map[]
    requires s.loop == SyncLoop.Loop(Some(1), false, map[1 := s.now + c.Interval()], map[], 2)
    requires FreshnessKey in s.keys && s.keys[FreshnessKey].value.Timestamp?
    requires s.keys[FreshnessKey].expiresAt == s.now + 3 * c.Interval()
    requires s.now <= at <= s.now + c.Interval() + d && at < s.now + 3 * c.Interval()
    requires at < s.tables.issuances[jti].expiresAt
    ensures MissesAt(c, s, events, check, jti, d, at)
  {
    var due := s.now + c.Interval();
    if at <= due {
      events, check := LaterCheckMisses(c, s, jti, d, at);
    } else {
      var wait, fire := Tick(due), TimerFires(1, 1);
      var t := s.(now := due);
      assert Next(c, s, wait) == t;
      var u := Next(c, t, fire);
      assert u.loop == SyncLoop.Loop(None, false, map[], map[1 := due], 2);
      var rest, read := LaterCheckMisses(c, u, jti, d, at);
      MissEarlier(c, t, fire, rest, read, jti, d, at);
      MissEarlier(c, s, wait, [fire] + rest, read, jti, d, at);
      events, check := [wait] + ([fire] + rest), read;
    }
  }

  /** This round: its sync took its snapshot just before the commit, and ends with its lease up to `d` later. */
  lemma ThisRoundMisses(c: Config, s: State, jti: string, d: int, age: int) returns (events: seq<Event>, check: Event)
    requires c.intervalSeconds >= 1 && d >= 0
    requires s.tables.Valid() && jti in s.tables.revocations && jti in s.tables.issuances
    requires s.keys == map[] && s.checks == map[]
    requires s.syncs == map[0 := Batched(s.now, s.now)]
    requires s.loop == SyncLoop.Loop(None, false, map[], map[0 := s.now], 1)
    requires 0 <= age <= c.Interval() + 2 * d && age < 3 * c.Interval() + d
    requires s.now + age < s.tables.issuances[jti].expiresAt
    ensures MissesAt(c, s, events, check, jti, d, s.now + age)
  {
    var wait, lease := Tick(s.now + ProtocolStalenessBound.Min(d, age)), SyncLease(0, Acknowledged);
    var t := Next(c, s, wait);
    var u := AfterLease(c, t);
    var rest, read := NextRoundMisses(c, u, jti, d, s.now + age);
    MissEarlier(c, t, lease, rest, read, jti, d, s.now + age);
    MissEarlier(c, s, wait, [lease] + rest, read, jti, d, s.now + age);
    events, check := [wait] + ([lease] + rest), read;
  }

  lemma AfterLease(c: Config, s: State) returns (t: State)
    requires s.keys == map[] && 0 in s.syncs && s.syncs == map[0 := s.syncs[0]] && s.syncs[0].Batched?
    requires 0 in s.loop.running && s.loop == SyncLoop.Loop(None, false, map[], map[0 := s.loop.running[0]], 1)
    ensures Enabled(s, SyncLease(0, Acknowledged)) && t == Next(c, s, SyncLease(0, Acknowledged))
    ensures t.keys == LeaseSet(map[], s.syncs[0].startedAt, c.TtlSeconds(), s.now)
    ensures t.tables == s.tables && t.now == s.now && t.checks == s.checks && t.syncs == map[]
    ensures t.loop == SyncLoop.Loop(Some(1), false, map[1 := s.now + c.Interval()], map[], 2)
  {
    t := Lease(c, s, 0, Acknowledged);
    assert t.syncs == map[];
    assert s.loop.running - {0} == map[];
  }

  lemma StepFirst(c: Config, s: State, e: Event, rest: seq<Event>, end: State)
    requires Enabled(s, e) && IssuerStep(s, e)
    requires ValidRun(c, Next(c, s, e), rest) && IssuerRun(c, Next(c, s, e), rest)
    requires end == Final(c, Next(c, s, e), rest)
    ensures ValidRun(c, s, [e] + rest) && IssuerRun(c, s, [e] + rest) && end == Final(c, s, [e] + rest)
  {
    assert ([e] + rest)[1..] == rest;
  }

  /** The loop is started, its first sync takes its snapshot, and a credential is issued. */
  lemma FirstRound(c: Config, claims: CredentialClaims) returns (before: seq<Event>, t: State)
    requires c.intervalSeconds >= 1 && FromIssueRoute(claims, c.Interval()) && claims.scope != []
    ensures ValidRun(c, Init(0), before) && IssuerRun(c, Init(0), before) && t == Final(c, Init(0), before)
    ensures t.tables == Inserted(Tables(map[], map[]), claims) && t.keys == map[] && t.checks == map[]
    ensures t.now == c.Interval() && t.syncs == map[0 := Batched(t.now, t.now)]
    ensures t.loop == SyncLoop.Loop(None, false, map[], map[0 := t.now], 1)
  {
    var e1, e2, e3, e4, e5 := LoopStart, Tick(c.Interval()), TimerFires(0, 0), SyncSnapshot(0, []), Issue(claims);
    var s1 := Next(c, Init(0), e1);
    assert s1.loop == SyncLoop.Loop(Some(0), false, map[0 := c.Interval()], map[], 1);
    var s2 := s1.(now := c.Interval());
    assert Next(c, s1, e2) == s2;
    var s3 := FirstFire(c, s2);
    var s4 := ProtocolStalenessBound.EmptySnapshot(c, s3);
    t := FirstIssue(c, s4, claims);
    StepFirst(c, s4, e5, [], t);
    StepFirst(c, s3, e4, [e5] + [], t);
    StepFirst(c, s2, e3, [e4] + ([e5] + []), t);
    StepFirst(c, s1, e2, [e3] + ([e4] + ([e5] + [])), t);
    StepFirst(c, Init(0), e1, [e2] + ([e3] + ([e4] + ([e5] + []))), t);
    before := [e1] + ([e2] + ([e3] + ([e4] + ([e5] + []))));
  }

  lemma FirstFire(c: Config, s: State) returns (t: State)
    requires s.syncs == map[] && s.loop == SyncLoop.Loop(Some(0), false, map[0 := s.now], map[], 1)
    ensures Enabled(s, TimerFires(0, 0)) && t == Next(c, s, TimerFires(0, 0))
    ensures t == s.(loop := SyncLoop.Loop(None, false, map[], map[0 := s.now], 1), syncs := map[0 := Started(s.now)])
  {
    t := Next(c, s, TimerFires(0, 0));
  }

  lemma FirstIssue(c: Config, s: State, claims: CredentialClaims) returns (t: State)
    requires FromIssueRoute(claims, s.now) && claims.scope != [] && claims.jti !in s.tables.issuances
    ensures Enabled(s, Issue(claims)) && IssuerStep(s, Issue(claims)) && t == Next(c, s, Issue(claims))
    ensures t == s.(tables := Inserted(s.tables, claims))
  {
    RouteLifetime(claims, s.now);
    t := Next(c, s, Issue(claims));
  }

  /** Every age up to interval + 2d occurs in a healthy run of the issuer, unless the lease or the
      credential ends first. So the strict inequality of `ConvergesWhenHealthy` is needed. */
  lemma ConvergenceBoundIsReached(c: Config, d: int, age: int)
    returns (before: seq<Event>, commit: Event, after: seq<Event>, check: Event, t: State)
    requires c.intervalSeconds >= 1 && d >= 0
    requires 0 <= age <= c.Interval() + 2 * d && age < ProtocolStalenessBound.AgeLimit(c, d)
    ensures ValidRun(c, Init(0), before) && IssuerRun(c, Init(0), before)
    ensures var s := Final(c, Init(0), before);
      Enabled(s, commit) && !commit.Issue? && !s.loop.stopped
      && "j" !in s.tables.revocations && "j" in Next(c, s, commit).tables.revocations
      && ValidRun(c, Next(c, s, commit), after) && IssuerRun(c, Next(c, s, commit), after)
      && Healthy(c, Next(c, s, commit), after, "j", d)
      && t == Final(c, Next(c, s, commit), after)
    ensures Enabled(t, check) && check.CheckRead? && OutcomeOf(t, check) == Answered("j", false)
    ensures LiveRevocation(t, "j") && t.now == Final(c, Init(0), before).now + age
  {
    assert c.Interval() % 1000 == 0;
    var claims := HourLongClaims(c.Interval());
    var s: State;
    before, s := FirstRound(c, claims);
    commit := RevokeOutOfBand("j", None);
    var s' := Next(c, s, commit);
    assert s'.tables.issuances["j"].expiresAt == c.Interval() + MAX_LIFETIME;
    after, check := ThisRoundMisses(c, s', "j", d, age);
    t := Final(c, s', after);
  }
}
