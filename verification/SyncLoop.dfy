/** The self-rescheduling timer of the synchronizer (issuer/src/jobs/sync-revocations.ts), as values. */
module SyncLoop {
  import opened Wrappers

  /** `timer` and `stopped` are the closure's variables. The rest belongs to the host: the timers that
      are set and neither fired nor cleared, with the time each is due, and the syncs that a timer
      started and that have not settled, with the time each began. */
  datatype Loop = Loop(
    timer: Option<nat>, stopped: bool,
    pending: map<nat, int>, running: map<nat, int>, nextHandle: nat)
  {
    function Load(): nat {
      |pending| + |running|
    }
  }

  function IntervalMillis(intervalSeconds: int): int {
    intervalSeconds * 1000
  }

  const IDLE := Loop(None, true, map[], map[], 0)

  function Schedule(l: Loop, now: int, delay: int): Loop {
    if l.stopped then l
    else l.(timer := Some(l.nextHandle), pending := l.pending[l.nextHandle := now + delay],
            nextHandle := l.nextHandle + 1)
  }

  function Start(l: Loop, now: int, delay: int): Loop {
    if !l.stopped then l else Schedule(l.(stopped := false), now, delay)
  }

  function Stop(l: Loop): Loop {
    l.(stopped := true, timer := None,
       pending := if l.timer.Some? then l.pending - {l.timer.value} else l.pending)
  }

  /** The timer's callback: forget the handle, begin a sync. It does not look at `stopped`. */
  function Fire(l: Loop, handle: nat, sync: nat, now: int): Loop {
    l.(timer := None, pending := l.pending - {handle}, running := l.running[sync := now])
  }

  /** The sync settles, either way, and `finally(schedule)` runs. */
  function Settle(l: Loop, sync: nat, now: int, delay: int): Loop {
    Schedule(l.(running := l.running - {sync}), now, delay)
  }

  datatype LoopEvent =
    | LoopStart(now: int)
    | LoopStop
    | LoopFire(handle: nat, sync: nat, now: int)
    | LoopSettle(sync: nat, now: int)

  predicate Enabled(l: Loop, e: LoopEvent) {
    match e
    case LoopStart(_) => true
    case LoopStop => true
    case LoopFire(h, sync, now) => h in l.pending && l.pending[h] <= now && sync !in l.running
    case LoopSettle(sync, _) => sync in l.running
  }

  function Next(l: Loop, e: LoopEvent, delay: int): Loop {
    match e
    case LoopStart(now) => Start(l, now, delay)
    case LoopStop => Stop(l)
    case LoopFire(h, sync, now) => Fire(l, h, sync, now)
    case LoopSettle(sync, now) => Settle(l, sync, now, delay)
  }

  /** `start` called again while a sync that was left running at `stop` is in flight. */
  predicate OverlappingStart(l: Loop, e: LoopEvent) {
    e.LoopStart? && l.stopped && l.running != map[]
  }

  ghost predicate ValidRun(l: Loop, events: seq<LoopEvent>, delay: int)
    decreases |events|
  {
    events != [] ==> Enabled(l, events[0]) && ValidRun(Next(l, events[0], delay), events[1..], delay)
  }

  function Final(l: Loop, events: seq<LoopEvent>, delay: int): Loop
    decreases |events|
  {
    if events == [] then l else Final(Next(l, events[0], delay), events[1..], delay)
  }

  /** In every state of the run: at most one timer or sync, and exactly one while started.
      No sync begins while stopped. */
  ghost predicate NeverOverlaps(l: Loop, events: seq<LoopEvent>, delay: int)
    decreases |events|
  {
    && l.Load() <= 1
    && (!l.stopped ==> l.Load() == 1)
    && (events != [] ==>
          (events[0].LoopFire? ==> !l.stopped) && NeverOverlaps(Next(l, events[0], delay), events[1..], delay))
  }

  /** No event of the run is an overlapping start. */
  ghost predicate StartsCleanly(l: Loop, events: seq<LoopEvent>, delay: int)
    decreases |events|
  {
    events != [] ==>
      !OverlappingStart(l, events[0]) && StartsCleanly(Next(l, events[0], delay), events[1..], delay)
  }

  /** The single timer, when there is one, is the one the closure remembers. */
  ghost predicate Tidy(l: Loop) {
    && l.pending.Keys == (if l.timer.Some? then {l.timer.value} else {})
    && |l.running| <= 1
    && (l.stopped ==> l.timer == None)
    && (l.timer.Some? ==> l.running == map[] && l.timer.value < l.nextHandle)
    && (!l.stopped && l.timer.None? ==> |l.running| == 1)
  }

  lemma TidyLoad(l: Loop)
    requires Tidy(l)
    ensures l.Load() <= 1 && (!l.stopped ==> l.Load() == 1)
    ensures l.stopped ==> l.pending == map[]
  {
    assert |l.pending| == |l.pending.Keys|;
    assert l.pending.Keys == {} ==> l.pending == map[];
  }

  lemma Singleton(running: map<nat, int>, sync: nat)
    requires |running| <= 1 && sync in running
    ensures running - {sync} == map[]
  {
    var keys := running.Keys;
    assert |keys| == |running|;
    assert keys == {sync} by {
      if k :| k in keys && k != sync {
        assert |keys| >= |{k, sync}| by { SubsetSize({k, sync}, keys); }
        assert false;
      }
    }
  }

  lemma SubsetSize<T>(a: set<T>, b: set<T>)
    requires a <= b
    ensures |a| <= |b|
  {
    assert |b - a| + |a| == |b| by { assert (b - a) + a == b; }
  }

  lemma TidyStep(l: Loop, e: LoopEvent, delay: int)
    requires Tidy(l) && Enabled(l, e) && !OverlappingStart(l, e)
    ensures Tidy(Next(l, e, delay))
    ensures e.LoopFire? ==> !l.stopped
  {
    TidyLoad(l);
    match e
    case LoopStart(_) =>
    case LoopStop =>
    case LoopFire(h, sync, now) =>
      assert l.running == map[];
      assert Next(l, e, delay).running.Keys == {sync};
      assert |Next(l, e, delay).running| == |{sync}|;
    case LoopSettle(sync, now) =>
      Singleton(l.running, sync);
  }

  lemma OverlappingStartDoubles(l: Loop, e: LoopEvent, delay: int)
    requires Tidy(l) && OverlappingStart(l, e)
    ensures Next(l, e, delay).Load() == 2
  {
    TidyLoad(l);
    assert l.running.Keys != {};
    assert Next(l, e, delay).pending.Keys == {l.nextHandle};
    assert |Next(l, e, delay).pending| == |{l.nextHandle}|;
  }

  lemma {:induction false} NeverOverlapsFrom(l: Loop, events: seq<LoopEvent>, delay: int)
    requires Tidy(l) && ValidRun(l, events, delay)
    ensures NeverOverlaps(l, events, delay) <==> StartsCleanly(l, events, delay)
    decreases |events|
  {
    TidyLoad(l);
    if events == [] {
    } else {
      if OverlappingStart(l, events[0]) {
        OverlappingStartDoubles(l, events[0], delay);
      } else {
        TidyStep(l, events[0], delay);
        NeverOverlapsFrom(Next(l, events[0], delay), events[1..], delay);
      }
    }
  }

  /** The loop never overlaps itself exactly when `start` is never called over a sync left running. */
  lemma NeverOverlapsIff(events: seq<LoopEvent>, delay: int)
    requires ValidRun(IDLE, events, delay)
    ensures NeverOverlaps(IDLE, events, delay) <==> StartsCleanly(IDLE, events, delay)
  {
    NeverOverlapsFrom(IDLE, events, delay);
  }

  /** What an overlapping start can lead to, for every delay: a timer that `stop` no longer knows fires
      after it. */
  lemma OrphanTimerFiresAfterStop(delay: nat) returns (before: seq<LoopEvent>, l: Loop, fire: LoopEvent)
    ensures ValidRun(IDLE, before + [LoopStop], delay) && l == Final(IDLE, before + [LoopStop], delay)
    ensures l.stopped && l.running == map[] && fire.LoopFire? && Enabled(l, fire)
    ensures Next(l, fire, delay).stopped && Next(l, fire, delay).running != map[]
  {
    var due := 2 * delay;
    var e1, e2, e3, e4, e5 := LoopStart(0), LoopFire(0, 0, delay), LoopStop, LoopStart(delay), LoopSettle(0, delay);
    var l1 := Loop(Some(0), false, map[0 := delay], map[], 1);
    var l2 := Loop(None, false, map[], map[0 := delay], 1);
    var l3 := Loop(None, true, map[], map[0 := delay], 1);
    var l4 := Loop(Some(1), false, map[1 := due], map[0 := delay], 2);
    var l5 := Loop(Some(2), false, map[1 := due, 2 := due], map[], 3);
    l := Loop(None, true, map[1 := due], map[], 3);
    Unfold(IDLE, e1, [e2, e3, e4, e5, LoopStop], l1, delay);
    Unfold(l1, e2, [e3, e4, e5, LoopStop], l2, delay);
    Unfold(l2, e3, [e4, e5, LoopStop], l3, delay);
    Unfold(l3, e4, [e5, LoopStop], l4, delay);
    Unfold(l4, e5, [LoopStop], l5, delay);
    Unfold(l5, LoopStop, [], l, delay);
    before := [e1, e2, e3, e4, e5];
    assert before + [LoopStop] == [e1] + [e2, e3, e4, e5, LoopStop];
    assert [e2, e3, e4, e5, LoopStop] == [e2] + [e3, e4, e5, LoopStop];
    assert [e3, e4, e5, LoopStop] == [e3] + [e4, e5, LoopStop];
    assert [e4, e5, LoopStop] == [e4] + [e5, LoopStop];
    assert [e5, LoopStop] == [e5] + [LoopStop];
    assert [LoopStop] == [LoopStop] + [];
    fire := LoopFire(1, 1, due);
    assert 1 in l.pending && 1 in Next(l, fire, delay).running;
  }

  lemma Unfold(l: Loop, e: LoopEvent, rest: seq<LoopEvent>, next: Loop, delay: int)
    requires Enabled(l, e) && Next(l, e, delay) == next
    ensures ValidRun(l, [e] + rest, delay) <==> ValidRun(next, rest, delay)
    ensures Final(l, [e] + rest, delay) == Final(next, rest, delay)
  {
    assert ([e] + rest)[1..] == rest;
  }

  /** A step sets a timer exactly when it starts a stopped loop or settles a sync of a started one. The timer
      is remembered and due one delay ahead; the other timers stay as they were, or are gone. */
  lemma OneDelayAhead(l: Loop, e: LoopEvent, delay: int)
    ensures var n := Next(l, e, delay);
      if (e.LoopStart? && l.stopped) || (e.LoopSettle? && !l.stopped) then
        n.timer == Some(l.nextHandle) && !n.stopped && n.pending == l.pending[l.nextHandle := e.now + delay]
      else
        forall h :: h in n.pending ==> h in l.pending && n.pending[h] == l.pending[h]
  {
  }

  /** Every sync that the loop begins comes at least one delay after a start or the end of a sync, at a time
      in `origins` or earlier in the run. */
  ghost predicate Spaced(events: seq<LoopEvent>, delay: int, origins: set<int>)
    decreases |events|
  {
    events != [] ==>
      var e := events[0];
      && (e.LoopFire? ==> exists origin :: origin in origins && origin + delay <= e.now)
      && Spaced(events[1..], delay, if e.LoopStart? || e.LoopSettle? then origins + {e.now} else origins)
  }

  lemma {:induction false} SpacedFrom(l: Loop, events: seq<LoopEvent>, delay: int, origins: set<int>)
    requires ValidRun(l, events, delay)
    requires forall h :: h in l.pending ==> l.pending[h] - delay in origins
    ensures Spaced(events, delay, origins)
    decreases |events|
  {
    if events == [] {
    } else {
      var e := events[0];
      var later := if e.LoopStart? || e.LoopSettle? then origins + {e.now} else origins;
      OneDelayAhead(l, e, delay);
      if e.LoopFire? {
        assert l.pending[e.handle] - delay in origins;
      }
      assert forall h :: h in Next(l, e, delay).pending ==> Next(l, e, delay).pending[h] - delay in later;
      SpacedFrom(Next(l, e, delay), events[1..], delay, later);
    }
  }

  /** In every run, overlapping starts included, the loop waits a full delay before each sync. */
  lemma SyncsAreSpaced(events: seq<LoopEvent>, delay: int)
    requires ValidRun(IDLE, events, delay)
    ensures Spaced(events, delay, {})
  {
    SpacedFrom(IDLE, events, delay, {});
  }
}
