/** The staleness bound is exact for the issuer's runs, and what that means for the documented one. */
module ProtocolStalenessBound {
  import opened Wrappers
  import opened Database
  import opened RevocationCache
  import opened Protocol
  import opened ProtocolSafety
  import opened ProtocolStaleness
  import opened ProtocolIssuerRuns

  function Min(a: int, b: int): int {
    if a <= b then a else b
  }

  /** A run of the issuer that reaches a state in which `check` misses a live revocation that is `age` old. */
  ghost predicate MissesAtAge(c: Config, s: State, events: seq<Event>, check: Event, jti: string, d: int, age: int) {
    && ValidRun(c, s, events) && IssuerRun(c, s, events) && Timely(c, s, events, d, jti)
    && var t := Final(c, s, events);
       Enabled(t, check) && check.CheckRead? && OutcomeOf(t, check) == Answered(jti, false)
       && LiveRevocation(t, jti) && t.now == CommittedAt(t, jti) + age
  }

  /** The first age that no miss reaches: the lease has run out, or the credential has. */
  function AgeLimit(c: Config, d: int): int {
    Min(3 * c.Interval() + d, MAX_LIFETIME)
  }

  lemma MissesAreYoung(c: Config, start: int, events: seq<Event>, check: Event, jti: string, d: int, age: int)
    requires MissesAtAge(c, Init(start), events, check, jti, d, age)
    ensures 0 <= age < AgeLimit(c, d)
  {
    BoundedStaleness(c, start, events, check, jti, d);
    LiveRevocationsAreYoung(c, start, events, jti);
  }

  lemma AgeEarlier(c: Config, s: State, e: Event, events: seq<Event>, check: Event, jti: string, d: int, age: int)
    requires Enabled(s, e) && IssuerStep(s, e) && StepIsTimely(s, e, d, jti)
    requires MissesAtAge(c, Next(c, s, e), events, check, jti, d, age)
    ensures MissesAtAge(c, s, [e] + events, check, jti, d, age)
  {
    assert ([e] + events)[1..] == events;
  }

  /** A check that begins now and reads at `readAt`, while the lease lasts. */
  lemma LateReadMisses(c: Config, s: State, jti: string, d: int, readAt: int) returns (events: seq<Event>, check: Event)
    requires s.tables.Valid() && LiveRevocation(s, jti) && !Cached(s, jti) && s.checks == map[]
    requires FreshnessKey in s.keys && s.keys[FreshnessKey].value.Timestamp?
    requires s.now <= readAt < s.keys[FreshnessKey].expiresAt
    requires readAt < s.tables.issuances[jti].expiresAt
    ensures MissesAtAge(c, s, events, check, jti, d, readAt - CommittedAt(s, jti))
  {
    var age := readAt - CommittedAt(s, jti);
    var begin, wait := CheckBegin(0, jti), Tick(readAt);
    check := CheckRead(0, true);
    var t := Next(c, s, begin);
    var u := Next(c, t, wait);
    assert Read(u.keys, RevocationKey(jti), u.now) == None;
    assert MissesAtAge(c, u, [], check, jti, d, age);
    AgeEarlier(c, t, wait, [], check, jti, d, age);
    AgeEarlier(c, s, begin, [wait] + [], check, jti, d, age);
    events := [begin] + ([wait] + []);
  }

  /** A sync whose snapshot missed the commit writes its lease now, at most `d` after the snapshot. */
  lemma LateLeaseMisses(c: Config, s: State, jti: string, d: int, readAt: int)
    returns (events: seq<Event>, check: Event)
    requires s.tables.Valid() && LiveRevocation(s, jti) && !Cached(s, jti) && s.checks == map[]
    requires 0 in s.syncs && s.syncs[0].Batched? && s.now - s.syncs[0].snapAt <= d
    requires s.now <= readAt < s.now + 3 * c.Interval() && readAt < s.tables.issuances[jti].expiresAt
    ensures MissesAtAge(c, s, events, check, jti, d, readAt - CommittedAt(s, jti))
  {
    var lease := SyncLease(0, Acknowledged);
    var t := Next(c, s, lease);
    assert t.keys == LeaseSet(s.keys, s.syncs[0].startedAt, c.TtlSeconds(), s.now);
    var rest, read := LateReadMisses(c, t, jti, d, readAt);
    AgeEarlier(c, s, lease, rest, read, jti, d, readAt - CommittedAt(s, jti));
    events, check := [lease] + rest, read;
  }

  /** A revocation is committed just after a snapshot whose lease is still to come. */
  lemma CommitAfterSnapshotMisses(c: Config, s: State, jti: string, d: int, age: int)
    returns (events: seq<Event>, check: Event)
    requires c.intervalSeconds >= 1 && d >= 0 && s.tables.Valid()
    requires jti in s.tables.issuances && jti !in s.tables.revocations && !Cached(s, jti) && s.checks == map[]
    requires 0 in s.syncs && s.syncs[0].Batched? && s.syncs[0].snapAt == s.now
    requires 0 <= age < 3 * c.Interval() + d && s.now + age < s.tables.issuances[jti].expiresAt
    ensures MissesAtAge(c, s, events, check, jti, d, age)
  {
    var commit, wait := RevokeOutOfBand(jti, None), Tick(s.now + Min(d, age));
    var t := Next(c, s, commit);
    var u := Next(c, t, wait);
    var rest, read := LateLeaseMisses(c, u, jti, d, s.now + age);
    AgeEarlier(c, t, wait, rest, read, jti, d, age);
    AgeEarlier(c, s, commit, [wait] + rest, read, jti, d, age);
    events, check := [commit] + ([wait] + rest), read;
  }

  lemma EmptySnapshot(c: Config, s: State) returns (t: State)
    requires s.tables.revocations == map[] && 0 in s.syncs && s.syncs[0] == Started(s.now)
    ensures Enabled(s, SyncSnapshot(0, [])) && t == Next(c, s, SyncSnapshot(0, []))
    ensures t == s.(syncs := s.syncs[0 := Batched(s.now, s.now)])
  {
    assert IsActiveListing(s.tables, s.now, []);
    t := Snapshot(s, 0, []);
  }

  /** Every age below the limit occurs, for every interval and every `d`, in a run of the issuer. */
  lemma StalenessBoundIsReached(c: Config, d: int, age: int) returns (events: seq<Event>, check: Event)
    requires c.intervalSeconds >= 1 && d >= 0 && 0 <= age < AgeLimit(c, d)
    ensures MissesAtAge(c, Init(0), events, check, "j", d, age)
  {
    var claims := HourLongClaims(0);
    var issue, begin, snapshot := Issue(claims), SyncBegin(0), SyncSnapshot(0, []);
    var s := Init(0);
    var issued := Next(c, s, issue);
    var begun := Next(c, issued, begin);
    var snapped := EmptySnapshot(c, begun);
    assert snapped.tables.issuances["j"].expiresAt == MAX_LIFETIME;
    var rest, read := CommitAfterSnapshotMisses(c, snapped, "j", d, age);
    AgeEarlier(c, begun, snapshot, rest, read, "j", d, age);
    AgeEarlier(c, issued, begin, [snapshot] + rest, read, "j", d, age);
    AgeEarlier(c, s, issue, [begin] + ([snapshot] + rest), read, "j", d, age);
    events, check := [issue] + ([begin] + ([snapshot] + rest)), read;
  }

  /** No run of the issuer misses a revocation for longer than `bound`. */
  ghost predicate NeverMissedBeyond(c: Config, d: int, bound: int) {
    forall start: int, events, check, jti, age ::
      MissesAtAge(c, Init(start), events, check, jti, d, age) ==> age <= bound
  }

  /** Exactly the bounds that hold of the code. */
  lemma StalenessBoundIff(c: Config, d: int, bound: int)
    requires c.intervalSeconds >= 1 && d >= 0 && bound >= 0
    ensures NeverMissedBeyond(c, d, bound) <==> AgeLimit(c, d) <= bound + 1
  {
    if AgeLimit(c, d) <= bound + 1 {
      forall start: int, events, check, jti, age | MissesAtAge(c, Init(start), events, check, jti, d, age)
        ensures age <= bound
      {
        MissesAreYoung(c, start, events, check, jti, d, age);
      }
    } else {
      var events, check := StalenessBoundIsReached(c, d, bound + 1);
      assert MissesAtAge(c, Init(0), events, check, "j", d, bound + 1);
    }
  }

  /** The documented bound, one sync interval, holds exactly for intervals of an hour or more. */
  lemma DocumentedBoundIff(c: Config, d: int)
    requires c.intervalSeconds >= 1 && d >= 0
    ensures NeverMissedBeyond(c, d, c.Interval()) <==> c.intervalSeconds >= 3600
  {
    StalenessBoundIff(c, d, c.Interval());
  }
}
