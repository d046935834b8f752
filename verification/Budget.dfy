/** Budgets hold for identities, not tokens: any sequence of `verifyCredential` calls by any replicas. */
module Budget {
  import opened Wrappers
  import opened Verifier
  import opened FixedWindow
  import FixedWindowCounts
  import FixedWindowStore
  import RateLimiter
  import RateLimitKey

  function StoreAfterAttempts(issuer: string, store: Store, attempts: seq<Attempt>, n: nat): Store
    requires n <= |attempts|
  {
    if n == 0 then store
    else StoreAfterAttempt(issuer, StoreAfterAttempts(issuer, store, attempts, n - 1), attempts[n - 1])
  }

  /** A run of the script, and whether the attempt that made it was allowed. */
  datatype Run = Run(context: RateLimitKey.Context, call: PositiveCall, allowed: bool)

  function Decisions(issuer: string, store: Store, attempts: seq<Attempt>): (r: seq<Decision>)
    ensures |r| == |attempts|
    ensures forall i {:trigger r[i]} :: 0 <= i < |r| ==>
      r[i] == Decide(issuer, StoreAfterAttempts(issuer, store, attempts, i), attempts[i])
  {
    seq(|attempts|, i requires 0 <= i < |attempts| =>
      Decide(issuer, StoreAfterAttempts(issuer, store, attempts, i), attempts[i]))
  }

  /** The log after one more attempt with its decision. */
  function Logged(issuer: string, earlier: seq<Run>, a: Attempt, d: Decision): seq<Run> {
    match ScriptOf(issuer, a)
    case None => earlier
    case Some((context, call)) => earlier + [Run(context, call, d.Allow?)]
  }

  /** The script runs of the first `n` attempts. */
  function Log(issuer: string, attempts: seq<Attempt>, decisions: seq<Decision>, n: nat): seq<Run>
    requires n <= |attempts| == |decisions|
  {
    if n == 0 then []
    else Logged(issuer, Log(issuer, attempts, decisions, n - 1), attempts[n - 1], decisions[n - 1])
  }

  function CallsIn(log: seq<Run>, context: RateLimitKey.Context): seq<PositiveCall> {
    if log == [] then []
    else
      var last := log[|log| - 1];
      var calls := CallsIn(log[..|log| - 1], context);
      if last.context == context then calls + [last.call] else calls
  }

  /** Allowed attempts for `context` whose script ran in the window that starts at `start`. */
  function AllowedIn(log: seq<Run>, context: RateLimitKey.Context, start: int): nat {
    if log == [] then 0
    else
      var last := log[|log| - 1];
      AllowedIn(log[..|log| - 1], context, start)
      + if last.context == context && last.call.Start() == start && last.allowed then 1 else 0
  }

  /** The counter of `context` after the runs of the log. */
  function CounterOf(stored: Option<Counter>, log: seq<Run>, context: RateLimitKey.Context): Option<Counter> {
    CounterAfter(stored, CallsIn(log, context), |CallsIn(log, context)|)
  }

  /** Every allowed attempt for `context` was admitted by the script. */
  ghost predicate AllowsAdmitted(stored: Option<Counter>, log: seq<Run>, context: RateLimitKey.Context) {
    log != [] ==>
      var earlier, last := log[..|log| - 1], log[|log| - 1];
      && AllowsAdmitted(stored, earlier, context)
      && (last.context == context && last.allowed ==>
            ReplyTo(CounterOf(stored, earlier, context), last.call).allowed == 1)
  }

  lemma UpdateOneKey(store: Store, updated: RateLimitKey.Context, asked: RateLimitKey.Context, c: Counter)
    ensures Lookup(store[RateLimitKey.Of(updated) := c], RateLimitKey.Of(asked))
         == if updated == asked then Some(c) else Lookup(store, RateLimitKey.Of(asked))
  {
    RateLimitKey.Injective(updated, asked);
  }

  lemma CounterOfAppend(stored: Option<Counter>, log: seq<Run>, run: Run, context: RateLimitKey.Context)
    ensures CounterOf(stored, log + [run], context)
         == if run.context == context then Some(After(CounterOf(stored, log, context), run.call))
            else CounterOf(stored, log, context)
  {
    assert (log + [run])[..|log|] == log;
    FixedWindowStore.CounterAppend(stored, CallsIn(log, context), run.call);
  }

  /** An allow whose script ran rests on an admission by the script. */
  lemma AllowNeedsAdmission(issuer: string, store: Store, a: Attempt, context: RateLimitKey.Context,
                            call: PositiveCall)
    requires ScriptOf(issuer, a) == Some((context, call)) && Decide(issuer, store, a).Allow?
    ensures ReplyTo(Lookup(store, RateLimitKey.Of(context)), call).allowed == 1
  {
    var l := a.limiter.value;
    RateLimiter.ScriptReplyAccepted(Lookup(store, RateLimitKey.Of(context)), l.policy.value.value, l.redisNow);
  }

  /** The log explains the counter of `context` and every allow for it. */
  ghost predicate Faithful(stored: Option<Counter>, store: Store, log: seq<Run>, context: RateLimitKey.Context) {
    && Lookup(store, RateLimitKey.Of(context)) == CounterOf(stored, log, context)
    && AllowsAdmitted(stored, log, context)
  }

  lemma RunKeepsFaith(stored: Option<Counter>, store: Store, log: seq<Run>, run: Run, context: RateLimitKey.Context)
    requires Faithful(stored, store, log, context)
    requires run.allowed ==> ReplyTo(Lookup(store, RateLimitKey.Of(run.context)), run.call).allowed == 1
    ensures var key := RateLimitKey.Of(run.context);
      Faithful(stored, store[key := After(Lookup(store, key), run.call)], log + [run], context)
  {
    UpdateOneKey(store, run.context, context, After(Lookup(store, RateLimitKey.Of(run.context)), run.call));
    CounterOfAppend(stored, log, run, context);
    assert (log + [run])[..|log|] == log;
  }

  /** If the attempt is allowed and runs the script, the script admits it. */
  predicate Admitted(issuer: string, store: Store, a: Attempt, d: Decision) {
    match ScriptOf(issuer, a)
    case None => true
    case Some((c, call)) => d.Allow? ==> ReplyTo(Lookup(store, RateLimitKey.Of(c)), call).allowed == 1
  }

  lemma DecisionIsAdmitted(issuer: string, store: Store, a: Attempt)
    ensures Admitted(issuer, store, a, Decide(issuer, store, a))
  {
    match ScriptOf(issuer, a)
    case None =>
    case Some((c, call)) =>
      if Decide(issuer, store, a).Allow? {
        AllowNeedsAdmission(issuer, store, a, c, call);
      }
  }

  lemma AttemptKeepsFaith(issuer: string, stored: Option<Counter>, store: Store, log: seq<Run>, a: Attempt,
                          d: Decision, context: RateLimitKey.Context)
    requires Faithful(stored, store, log, context) && Admitted(issuer, store, a, d)
    ensures Faithful(stored, StoreAfterAttempt(issuer, store, a), Logged(issuer, log, a, d), context)
  {
    match ScriptOf(issuer, a)
    case None =>
    case Some((c, call)) => RunKeepsFaith(stored, store, log, Run(c, call, d.Allow?), context);
  }

  lemma {:induction false} RunsAreFaithful(issuer: string, store: Store, attempts: seq<Attempt>,
                                          decisions: seq<Decision>, n: nat, context: RateLimitKey.Context)
    requires n <= |attempts| == |decisions|
    requires forall i {:trigger decisions[i]} :: 0 <= i < |attempts| ==>
      Admitted(issuer, StoreAfterAttempts(issuer, store, attempts, i), attempts[i], decisions[i])
    ensures Faithful(Lookup(store, RateLimitKey.Of(context)), StoreAfterAttempts(issuer, store, attempts, n),
                     Log(issuer, attempts, decisions, n), context)
  {
    if n == 0 {
    } else {
      RunsAreFaithful(issuer, store, attempts, decisions, n - 1, context);
      AttemptKeepsFaith(issuer, Lookup(store, RateLimitKey.Of(context)),
                        StoreAfterAttempts(issuer, store, attempts, n - 1),
                        Log(issuer, attempts, decisions, n - 1), attempts[n - 1], decisions[n - 1], context);
    }
  }

  /** Only its own calls reach a budget's counter, whatever tokens they came with; and every allow rests
      on an admission. */
  lemma LogIsFaithful(issuer: string, store: Store, attempts: seq<Attempt>, context: RateLimitKey.Context)
    ensures var stored, log := Lookup(store, RateLimitKey.Of(context)),
                               Log(issuer, attempts, Decisions(issuer, store, attempts), |attempts|);
      && Lookup(StoreAfterAttempts(issuer, store, attempts, |attempts|), RateLimitKey.Of(context))
         == CounterOf(stored, log, context)
      && AllowsAdmitted(stored, log, context)
  {
    forall i | 0 <= i < |attempts|
      ensures Admitted(issuer, StoreAfterAttempts(issuer, store, attempts, i), attempts[i],
                       Decisions(issuer, store, attempts)[i])
    {
      DecisionIsAdmitted(issuer, StoreAfterAttempts(issuer, store, attempts, i), attempts[i]);
    }
    RunsAreFaithful(issuer, store, attempts, Decisions(issuer, store, attempts), |attempts|, context);
  }

  lemma {:induction false} AllowsPrefix(stored: Option<Counter>, calls: seq<PositiveCall>, call: PositiveCall,
                                       n: nat, start: int)
    requires n <= |calls|
    ensures Allows(stored, calls + [call], n, start) == Allows(stored, calls, n, start)
  {
    if n == 0 {
    } else {
      AllowsPrefix(stored, calls, call, n - 1, start);
      FixedWindowStore.CounterPrefix(stored, calls, [call], n - 1);
    }
  }

  lemma AllowsAppend(stored: Option<Counter>, calls: seq<PositiveCall>, call: PositiveCall, start: int)
    ensures var admitted := ReplyTo(CounterAfter(stored, calls, |calls|), call).allowed == 1;
      Allows(stored, calls + [call], |calls| + 1, start)
      == Allows(stored, calls, |calls|, start) + if call.Start() == start && admitted then 1 else 0
  {
    AllowsPrefix(stored, calls, call, |calls|, start);
    FixedWindowStore.CounterPrefix(stored, calls, [call], |calls|);
  }

  lemma {:induction false} AllowedWithinAdmissions(stored: Option<Counter>, log: seq<Run>,
                                                  context: RateLimitKey.Context, start: int)
    requires AllowsAdmitted(stored, log, context)
    ensures AllowedIn(log, context, start)
         <= Allows(stored, CallsIn(log, context), |CallsIn(log, context)|, start)
  {
    if log == [] {
    } else {
      var earlier, last := log[..|log| - 1], log[|log| - 1];
      AllowedWithinAdmissions(stored, earlier, context, start);
      if last.context == context {
        AllowsAppend(stored, CallsIn(earlier, context), last.call, start);
      }
    }
  }

  lemma LogWithinBudget(issuer: string, store: Store, attempts: seq<Attempt>, decisions: seq<Decision>,
                        context: RateLimitKey.Context, start: int, window: int, maximum: int)
    requires maximum > 0 && decisions == Decisions(issuer, store, attempts)
    requires var calls := CallsIn(Log(issuer, attempts, decisions, |attempts|), context);
      FixedPolicy(calls, window, maximum) && ClockNeverGoesBack(calls)
      && NotAhead(Lookup(store, RateLimitKey.Of(context)), calls)
    ensures AllowedIn(Log(issuer, attempts, decisions, |attempts|), context, start) <= maximum
  {
    var stored := Lookup(store, RateLimitKey.Of(context));
    var log := Log(issuer, attempts, decisions, |attempts|);
    var calls := CallsIn(log, context);
    LogIsFaithful(issuer, store, attempts, context);
    AllowedWithinAdmissions(stored, log, context, start);
    FixedWindowCounts.ExactWindow(stored, calls, |calls|, start, window, maximum);
  }

  // ---- The budget, over the attempts themselves ----

  /** The first `n` decisions that allow an attempt which spends from `identity`'s budget in the window that
      starts at `start`. */
  ghost function Granted(issuer: string, attempts: seq<Attempt>, decisions: seq<Decision>, n: nat,
                         identity: RateLimitKey.Context, start: int, window: int): nat
    requires n <= |attempts| == |decisions| && window > 0
  {
    if n == 0 then 0
    else
      var a := attempts[n - 1];
      Granted(issuer, attempts, decisions, n - 1, identity, start, window)
      + if Spends(issuer, a, identity) && WindowStart(a.limiter.value.redisNow, window) == start
           && decisions[n - 1].Allow? then 1 else 0
  }

  /** One policy row for `identity`, and a Redis clock that never goes back and is not behind the counter. */
  ghost predicate SteadyBudget(issuer: string, stored: Option<Counter>, attempts: seq<Attempt>,
                               identity: RateLimitKey.Context, window: int, maximum: int)
  {
    && (forall i :: 0 <= i < |attempts| && Spends(issuer, attempts[i], identity) ==>
          attempts[i].limiter.value.policy.value.value == RateLimiter.RateLimitPolicy(maximum, window)
          && (stored.Some? ==> stored.value.windowStart <= attempts[i].limiter.value.redisNow))
    && (forall i, j ::
          0 <= i < j < |attempts| && Spends(issuer, attempts[i], identity) && Spends(issuer, attempts[j], identity) ==>
          attempts[i].limiter.value.redisNow <= attempts[j].limiter.value.redisNow)
  }

  /** What the first `n` calls of a steady budget have in common; `latest` is no earlier than any of them. */
  predicate SteadyCalls(calls: seq<PositiveCall>, stored: Option<Counter>, window: int, maximum: int, latest: int) {
    && FixedPolicy(calls, window, maximum) && ClockNeverGoesBack(calls)
    && (forall k :: 0 <= k < |calls| ==>
          calls[k].now <= latest && (stored.Some? ==> stored.value.windowStart <= calls[k].now))
  }

  /** The script calls that the first `n` attempts make from `identity`'s budget. */
  ghost function Spent(issuer: string, attempts: seq<Attempt>, n: nat, identity: RateLimitKey.Context):
    seq<PositiveCall>
    requires n <= |attempts|
  {
    if n == 0 then []
    else
      var a := attempts[n - 1];
      if Spends(issuer, a, identity) then Spent(issuer, attempts, n - 1, identity) + [LimiterCall(a)]
      else Spent(issuer, attempts, n - 1, identity)
  }

  lemma {:induction false} SpentIsCallsIn(issuer: string, attempts: seq<Attempt>, decisions: seq<Decision>, n: nat,
                                         identity: RateLimitKey.Context)
    requires n <= |attempts| == |decisions|
    ensures Spent(issuer, attempts, n, identity) == CallsIn(Log(issuer, attempts, decisions, n), identity)
  {
    if n == 0 {
    } else {
      var a, log := attempts[n - 1], Log(issuer, attempts, decisions, n - 1);
      SpentIsCallsIn(issuer, attempts, decisions, n - 1, identity);
      ScriptOfSpender(issuer, a, identity);
      match ScriptOf(issuer, a)
      case None =>
      case Some((context, call)) =>
        assert (log + [Run(context, call, decisions[n - 1].Allow?)])[..|log|] == log;
    }
  }

  lemma SteadyAppend(calls: seq<PositiveCall>, call: PositiveCall, stored: Option<Counter>, window: int, maximum: int)
    requires SteadyCalls(calls, stored, window, maximum, call.now)
    requires call.window == window && call.maximum == maximum
    requires stored.Some? ==> stored.value.windowStart <= call.now
    ensures SteadyCalls(calls + [call], stored, window, maximum, call.now)
  {
  }

  lemma SteadyLater(calls: seq<PositiveCall>, stored: Option<Counter>, window: int, maximum: int, now: int, later: int)
    requires SteadyCalls(calls, stored, window, maximum, now) && now <= later
    ensures SteadyCalls(calls, stored, window, maximum, later)
  {
  }

  lemma {:induction false} SpentIsSteady(issuer: string, stored: Option<Counter>, attempts: seq<Attempt>, n: nat,
                                        identity: RateLimitKey.Context, window: int, maximum: int, latest: int)
    requires n <= |attempts| && SteadyBudget(issuer, stored, attempts, identity, window, maximum)
    requires forall i :: 0 <= i < n && Spends(issuer, attempts[i], identity) ==>
      attempts[i].limiter.value.redisNow <= latest
    ensures SteadyCalls(Spent(issuer, attempts, n, identity), stored, window, maximum, latest)
  {
    if n == 0 {
    } else if Spends(issuer, attempts[n - 1], identity) {
      var call := LimiterCall(attempts[n - 1]);
      SpentIsSteady(issuer, stored, attempts, n - 1, identity, window, maximum, call.now);
      SteadyAppend(Spent(issuer, attempts, n - 1, identity), call, stored, window, maximum);
      SteadyLater(Spent(issuer, attempts, n, identity), stored, window, maximum, call.now, latest);
    } else {
      SpentIsSteady(issuer, stored, attempts, n - 1, identity, window, maximum, latest);
    }
  }

  lemma {:induction false} GrantedIsAllowedIn(issuer: string, stored: Option<Counter>, attempts: seq<Attempt>,
                                             decisions: seq<Decision>, n: nat, identity: RateLimitKey.Context,
                                             start: int, window: int, maximum: int)
    requires n <= |attempts| == |decisions| && window > 0
    requires SteadyBudget(issuer, stored, attempts, identity, window, maximum)
    ensures Granted(issuer, attempts, decisions, n, identity, start, window)
         == AllowedIn(Log(issuer, attempts, decisions, n), identity, start)
  {
    if n == 0 {
    } else {
      var a, log := attempts[n - 1], Log(issuer, attempts, decisions, n - 1);
      GrantedIsAllowedIn(issuer, stored, attempts, decisions, n - 1, identity, start, window, maximum);
      ScriptOfSpender(issuer, a, identity);
      match ScriptOf(issuer, a)
      case None =>
      case Some((context, call)) =>
        assert (log + [Run(context, call, decisions[n - 1].Allow?)])[..|log|] == log;
    }
  }

  ghost function Latest(attempts: seq<Attempt>, n: nat): (latest: int)
    requires n <= |attempts|
    ensures forall i :: 0 <= i < n && attempts[i].limiter.Some? ==> attempts[i].limiter.value.redisNow <= latest
  {
    if n == 0 then 0
    else
      var earlier := Latest(attempts, n - 1);
      match attempts[n - 1].limiter
      case None => earlier
      case Some(l) => if l.redisNow > earlier then l.redisNow else earlier
  }

  /** Token rotation cannot beat a budget: over any attempts, with any tokens and JTIs, on any replicas, one
      aligned window sees at most `maximum` allows for one principal, audience and action, as long as their
      policy row stays and Redis time does not go back. */
  lemma RotationCannotBeatBudget(issuer: string, store: Store, attempts: seq<Attempt>,
                                 identity: RateLimitKey.Context, start: int, window: int, maximum: int)
    requires window > 0 && maximum > 0
    requires SteadyBudget(issuer, Lookup(store, RateLimitKey.Of(identity)), attempts, identity, window, maximum)
    ensures Granted(issuer, attempts, Decisions(issuer, store, attempts), |attempts|, identity, start, window)
         <= maximum
  {
    var stored, decisions := Lookup(store, RateLimitKey.Of(identity)), Decisions(issuer, store, attempts);
    SpentIsSteady(issuer, stored, attempts, |attempts|, identity, window, maximum, Latest(attempts, |attempts|));
    SpentIsCallsIn(issuer, attempts, decisions, |attempts|, identity);
    GrantedIsAllowedIn(issuer, stored, attempts, decisions, |attempts|, identity, start, window, maximum);
    LogWithinBudget(issuer, store, attempts, decisions, identity, start, window, maximum);
  }

  // ---- The same on a store that expires its keys ----

  /** Redis time does not go back between attempts that make the script run, for whichever identities. */
  ghost predicate RedisClockNeverGoesBack(issuer: string, attempts: seq<Attempt>) {
    forall i, j, x, y :: 0 <= i < j < |attempts| && Spends(issuer, attempts[i], x) && Spends(issuer, attempts[j], y) ==>
      attempts[i].limiter.value.redisNow <= attempts[j].limiter.value.redisNow
  }

  /** The same for the calls themselves. */
  ghost predicate ScriptClockNeverGoesBack(issuer: string, attempts: seq<Attempt>) {
    forall i, j :: 0 <= i < j < |attempts| && ScriptOf(issuer, attempts[i]).Some? && ScriptOf(issuer, attempts[j]).Some?
      ==> ScriptOf(issuer, attempts[i]).value.1.now <= ScriptOf(issuer, attempts[j]).value.1.now
  }

  lemma ScriptClockFollows(issuer: string, attempts: seq<Attempt>)
    requires RedisClockNeverGoesBack(issuer, attempts)
    ensures ScriptClockNeverGoesBack(issuer, attempts)
  {
    forall i, j | 0 <= i < j < |attempts| && ScriptOf(issuer, attempts[i]).Some? && ScriptOf(issuer, attempts[j]).Some?
      ensures ScriptOf(issuer, attempts[i]).value.1.now <= ScriptOf(issuer, attempts[j]).value.1.now
    {
      ScriptOfSpender(issuer, attempts[i], ScriptOf(issuer, attempts[i]).value.0);
      ScriptOfSpender(issuer, attempts[j], ScriptOf(issuer, attempts[j]).value.0);
    }
  }

  /** What an attempt finds when Redis drops any due keys among `keys` before the script runs. A key that is
      dropped earlier, after the previous script, is due then too. */
  function Found(issuer: string, store: Store, keys: set<string>, a: Attempt): Store {
    match ScriptOf(issuer, a)
    case None => store
    case Some((_, call)) => FixedWindowStore.Purged(store, keys, call.now)
  }

  function ExpiringStore(issuer: string, store: Store, attempts: seq<Attempt>, purges: seq<set<string>>, n: nat): Store
    requires n <= |attempts| == |purges|
  {
    if n == 0 then store
    else
      var before := ExpiringStore(issuer, store, attempts, purges, n - 1);
      StoreAfterAttempt(issuer, Found(issuer, before, purges[n - 1], attempts[n - 1]), attempts[n - 1])
  }

  function ExpiringDecisions(issuer: string, store: Store, attempts: seq<Attempt>, purges: seq<set<string>>):
    (r: seq<Decision>)
    requires |attempts| == |purges|
    ensures |r| == |attempts|
    ensures forall i {:trigger r[i]} :: 0 <= i < |r| ==>
      var before := ExpiringStore(issuer, store, attempts, purges, i);
      r[i] == Decide(issuer, Found(issuer, before, purges[i], attempts[i]), attempts[i])
  {
    seq(|attempts|, i requires 0 <= i < |attempts| =>
      var before := ExpiringStore(issuer, store, attempts, purges, i);
      Decide(issuer, Found(issuer, before, purges[i], attempts[i]), attempts[i]))
  }

  lemma CheckRestsOnReply(stored: Option<Counter>, other: Option<Counter>, l: LimiterSide)
    requires RateLimiter.ScriptRuns(l.policy, l.delivery) ==>
      var call := RateLimiter.CallFor(l.policy.value.value, l.redisNow);
      ReplyTo(stored, call) == ReplyTo(other, call)
    ensures RateLimiter.CheckResult(stored, l.policy, l.redisNow, l.delivery)
         == RateLimiter.CheckResult(other, l.policy, l.redisNow, l.delivery)
  {
  }

  /** A decision depends on the reply to its script call and on nothing else in the store. */
  lemma DecisionRestsOnReply(issuer: string, store: Store, other: Store, a: Attempt)
    requires match ScriptOf(issuer, a)
      case None => true
      case Some((context, call)) =>
        var key := RateLimitKey.Of(context);
        ReplyTo(Lookup(store, key), call) == ReplyTo(Lookup(other, key), call)
    ensures Decide(issuer, store, a) == Decide(issuer, other, a)
  {
    match Screen(issuer, a)
    case Refused(_) =>
    case Passed(claims) =>
      if a.limiter.Some? {
        var key := RateLimitKey.Of(ContextOf(claims, a));
        CheckRestsOnReply(Lookup(store, key), Lookup(other, key), a.limiter.value);
      }
  }

  lemma ScriptHidesExpiry(issuer: string, expiring: Store, eternal: Store, keys: set<string>, a: Attempt,
                          context: RateLimitKey.Context, call: PositiveCall)
    requires ScriptOf(issuer, a) == Some((context, call)) && FixedWindowStore.LostOnlyDue(expiring, eternal, call.now)
    ensures var key, found := RateLimitKey.Of(context), Found(issuer, expiring, keys, a);
      && ReplyTo(Lookup(found, key), call) == ReplyTo(Lookup(eternal, key), call)
      && FixedWindowStore.LostOnlyDue(StoreAfterAttempt(issuer, found, a), StoreAfterAttempt(issuer, eternal, a),
                                      call.now)
  {
    FixedWindowStore.StepHidesExpiry(expiring, eternal, keys, Request(RateLimitKey.Of(context), call), call.now);
  }

  lemma StoreHidesExpiry(issuer: string, expiring: Store, eternal: Store, keys: set<string>, a: Attempt, now: int)
    requires FixedWindowStore.LostOnlyDue(expiring, eternal, now)
    requires ScriptOf(issuer, a).Some? ==> ScriptOf(issuer, a).value.1.now == now
    ensures FixedWindowStore.LostOnlyDue(StoreAfterAttempt(issuer, Found(issuer, expiring, keys, a), a),
                                         StoreAfterAttempt(issuer, eternal, a), now)
  {
    match ScriptOf(issuer, a)
    case None =>
    case Some((context, call)) => ScriptHidesExpiry(issuer, expiring, eternal, keys, a, context, call);
  }

  lemma DecisionHidesExpiry(issuer: string, expiring: Store, eternal: Store, keys: set<string>, a: Attempt)
    requires match ScriptOf(issuer, a)
      case None => true
      case Some((_, call)) => FixedWindowStore.LostOnlyDue(expiring, eternal, call.now)
    ensures Decide(issuer, Found(issuer, expiring, keys, a), a) == Decide(issuer, eternal, a)
  {
    match ScriptOf(issuer, a)
    case None =>
    case Some((context, call)) => ScriptHidesExpiry(issuer, expiring, eternal, keys, a, context, call);
    DecisionRestsOnReply(issuer, Found(issuer, expiring, keys, a), eternal, a);
  }

  lemma {:induction false} ExpiringStoreLags(issuer: string, store: Store, attempts: seq<Attempt>,
                                            purges: seq<set<string>>, n: nat, now: int)
    requires n <= |attempts| == |purges| && ScriptClockNeverGoesBack(issuer, attempts)
    requires forall k :: k in store ==> FixedWindowStore.Written(store[k])
    requires forall i :: 0 <= i < n && ScriptOf(issuer, attempts[i]).Some? ==>
      ScriptOf(issuer, attempts[i]).value.1.now <= now
    ensures FixedWindowStore.LostOnlyDue(ExpiringStore(issuer, store, attempts, purges, n),
                                         StoreAfterAttempts(issuer, store, attempts, n), now)
  {
    if n == 0 {
    } else {
      var a := attempts[n - 1];
      var at := if ScriptOf(issuer, a).Some? then ScriptOf(issuer, a).value.1.now else now;
      ExpiringStoreLags(issuer, store, attempts, purges, n - 1, at);
      StoreHidesExpiry(issuer, ExpiringStore(issuer, store, attempts, purges, n - 1),
                       StoreAfterAttempts(issuer, store, attempts, n - 1), purges[n - 1], a, at);
    }
  }

  /** Expiry changes no decision of `verifyCredential`, whatever the policies and whichever due keys go. */
  lemma DecisionsIgnoreExpiry(issuer: string, store: Store, attempts: seq<Attempt>, purges: seq<set<string>>)
    requires |attempts| == |purges| && RedisClockNeverGoesBack(issuer, attempts)
    requires forall k :: k in store ==> FixedWindowStore.Written(store[k])
    ensures ExpiringDecisions(issuer, store, attempts, purges) == Decisions(issuer, store, attempts)
  {
    ScriptClockFollows(issuer, attempts);
    forall i | 0 <= i < |attempts|
      ensures ExpiringDecisions(issuer, store, attempts, purges)[i] == Decisions(issuer, store, attempts)[i]
    {
      var a := attempts[i];
      if ScriptOf(issuer, a).Some? {
        ExpiringStoreLags(issuer, store, attempts, purges, i, ScriptOf(issuer, a).value.1.now);
      }
      DecisionHidesExpiry(issuer, ExpiringStore(issuer, store, attempts, purges, i),
                          StoreAfterAttempts(issuer, store, attempts, i), purges[i], a);
    }
  }

  /** The budget holds on the store as it is, with its keys expiring. */
  lemma RotationCannotBeatExpiringBudget(issuer: string, store: Store, attempts: seq<Attempt>,
                                         purges: seq<set<string>>, identity: RateLimitKey.Context,
                                         start: int, window: int, maximum: int)
    requires window > 0 && maximum > 0 && |attempts| == |purges| && RedisClockNeverGoesBack(issuer, attempts)
    requires forall k :: k in store ==> FixedWindowStore.Written(store[k])
    requires SteadyBudget(issuer, Lookup(store, RateLimitKey.Of(identity)), attempts, identity, window, maximum)
    ensures Granted(issuer, attempts, ExpiringDecisions(issuer, store, attempts, purges), |attempts|, identity,
                    start, window) <= maximum
  {
    DecisionsIgnoreExpiry(issuer, store, attempts, purges);
    RotationCannotBeatBudget(issuer, store, attempts, identity, start, window, maximum);
  }
}
