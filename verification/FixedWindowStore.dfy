/** The shared counter store: tenants do not see each other, and key expiry is not seen at all. */
module FixedWindowStore {
  import opened Wrappers
  import opened FixedWindow
  import FixedWindowCounts
  import RateLimitKey

  /** The calls made for one key among the first `n` requests, in order. */
  function CallsFor(requests: seq<Request>, n: nat, key: string): seq<PositiveCall>
    requires n <= |requests|
  {
    if n == 0 then []
    else if requests[n - 1].key == key then CallsFor(requests, n - 1, key) + [requests[n - 1].call]
    else CallsFor(requests, n - 1, key)
  }

  lemma {:induction false} CounterPrefix(stored: Option<Counter>, calls: seq<PositiveCall>,
                                        more: seq<PositiveCall>, n: nat)
    requires n <= |calls|
    ensures CounterAfter(stored, calls + more, n) == CounterAfter(stored, calls, n)
  {
    if n == 0 {
    } else {
      CounterPrefix(stored, calls, more, n - 1);
    }
  }

  lemma CounterAppend(stored: Option<Counter>, calls: seq<PositiveCall>, call: PositiveCall)
    ensures CounterAfter(stored, calls + [call], |calls| + 1)
         == Some(After(CounterAfter(stored, calls, |calls|), call))
  {
    CounterPrefix(stored, calls, [call], |calls|);
  }

  /** A key's counter in the shared store is the counter of a store all its own. */
  lemma {:induction false} PrivateCounter(store: Store, requests: seq<Request>, n: nat, key: string)
    requires n <= |requests|
    ensures var calls := CallsFor(requests, n, key);
      Lookup(StoreAfter(store, requests, n), key) == CounterAfter(Lookup(store, key), calls, |calls|)
  {
    if n == 0 {
    } else {
      var r, calls := requests[n - 1], CallsFor(requests, n - 1, key);
      PrivateCounter(store, requests, n - 1, key);
      if r.key == key {
        CounterAppend(Lookup(store, key), calls, r.call);
      }
    }
  }

  lemma {:induction false} CallsForPrefix(requests: seq<Request>, i: nat, n: nat, key: string)
    requires i <= n <= |requests|
    ensures CallsFor(requests, i, key) <= CallsFor(requests, n, key)
    decreases n
  {
    if i == n {
    } else {
      CallsForPrefix(requests, i, n - 1, key);
    }
  }

  lemma CounterFound(store: Store, requests: seq<Request>, i: nat, key: string)
    requires i < |requests| && requests[i].key == key
    ensures
      var calls, k := CallsFor(requests, |requests|, key), |CallsFor(requests, i, key)|;
      k < |calls| && calls[k] == requests[i].call
      && Lookup(StoreAfter(store, requests, i), key) == CounterAfter(Lookup(store, key), calls, k)
  {
    var calls, before := CallsFor(requests, |requests|, key), CallsFor(requests, i, key);
    CallsForPrefix(requests, i + 1, |requests|, key);
    assert before + [requests[i].call] <= calls;
    PrivateCounter(store, requests, i, key);
    var rest := calls[|before|..];
    assert calls == before + rest;
    CounterPrefix(Lookup(store, key), before, rest, |before|);
  }

  lemma {:induction false} KeyIsolation(store: Store, requests: seq<Request>, i: nat)
    requires i < |requests|
    ensures
      var key := requests[i].key;
      var calls, k := CallsFor(requests, |requests|, key), |CallsFor(requests, i, key)|;
      k < |calls| && calls[k] == requests[i].call
      && StoreReply(store, requests, i) == ReplyAt(Lookup(store, key), calls, k)
  {
    CounterFound(store, requests, i, requests[i].key);
  }

  // ---- Tenants ----

  /** A call for a (principal, audience, action); its key is the one the limiter builds. */
  datatype TenantCall = TenantCall(context: RateLimitKey.Context, call: PositiveCall)

  function Keyed(tenants: seq<TenantCall>): (requests: seq<Request>)
    ensures |requests| == |tenants|
    ensures forall i :: 0 <= i < |tenants| ==>
      requests[i] == Request(RateLimitKey.Of(tenants[i].context), tenants[i].call)
  {
    seq(|tenants|, i requires 0 <= i < |tenants| =>
      Request(RateLimitKey.Of(tenants[i].context), tenants[i].call))
  }

  function CallsOf(tenants: seq<TenantCall>, n: nat, context: RateLimitKey.Context): seq<PositiveCall>
    requires n <= |tenants|
  {
    if n == 0 then []
    else if tenants[n - 1].context == context then CallsOf(tenants, n - 1, context) + [tenants[n - 1].call]
    else CallsOf(tenants, n - 1, context)
  }

  ghost predicate KeyNames(requests: seq<Request>, key: string, tenants: seq<TenantCall>,
                           context: RateLimitKey.Context)
  {
    |requests| == |tenants| &&
    forall i :: 0 <= i < |tenants| ==>
      requests[i].call == tenants[i].call && (requests[i].key == key <==> tenants[i].context == context)
  }

  lemma KeyOfNames(tenants: seq<TenantCall>, context: RateLimitKey.Context)
    ensures KeyNames(Keyed(tenants), RateLimitKey.Of(context), tenants, context)
  {
    forall i | 0 <= i < |tenants|
      ensures Keyed(tenants)[i].key == RateLimitKey.Of(context) <==> tenants[i].context == context
    {
      RateLimitKey.Injective(tenants[i].context, context);
    }
  }

  /** Distinct tenants never meet on a key. */
  lemma {:induction false} KeysSeparateTenants(requests: seq<Request>, key: string, tenants: seq<TenantCall>,
                                              context: RateLimitKey.Context, n: nat)
    requires n <= |tenants| && KeyNames(requests, key, tenants, context)
    ensures CallsFor(requests, n, key) == CallsOf(tenants, n, context)
  {
    if n == 0 {
    } else {
      KeysSeparateTenants(requests, key, tenants, context, n - 1);
    }
  }

  /** Any interleaving of tenants gives each one the replies of its private counter. */
  lemma TenantIsolation(store: Store, tenants: seq<TenantCall>, i: nat)
    requires i < |tenants|
    ensures
      var context := tenants[i].context;
      var calls, k := CallsOf(tenants, |tenants|, context), |CallsOf(tenants, i, context)|;
      k < |calls| && calls[k] == tenants[i].call
      && StoreReply(store, Keyed(tenants), i) == ReplyAt(Lookup(store, RateLimitKey.Of(context)), calls, k)
  {
    var context, requests := tenants[i].context, Keyed(tenants);
    KeyOfNames(tenants, context);
    KeysSeparateTenants(requests, RateLimitKey.Of(context), tenants, context, i);
    KeysSeparateTenants(requests, RateLimitKey.Of(context), tenants, context, |tenants|);
    KeyIsolation(store, requests, i);
  }

  // ---- Expiry ----

  /** Redis may drop any of `keys` whose EXPIREAT has come, and nothing else. */
  function Purged(store: Store, keys: set<string>, now: int): Store {
    map k | k in store && !(k in keys && store[k].expireAt.Some? && store[k].expireAt.value <= now) :: store[k]
  }

  /** The same requests on a store that drops the keys `purges[i]` just before request `i`. */
  function ExpiringStore(store: Store, requests: seq<Request>, purges: seq<set<string>>, n: nat): Store
    requires n <= |requests| == |purges|
  {
    if n == 0 then store
    else
      var r := requests[n - 1];
      var before := Purged(ExpiringStore(store, requests, purges, n - 1), purges[n - 1], r.call.now);
      before[r.key := After(Lookup(before, r.key), r.call)]
  }

  function ExpiringReply(store: Store, requests: seq<Request>, purges: seq<set<string>>, i: nat): Reply
    requires i < |requests| == |purges|
  {
    var r := requests[i];
    ReplyTo(Lookup(Purged(ExpiringStore(store, requests, purges, i), purges[i], r.call.now), r.key), r.call)
  }

  /** What the script writes: the key outlives its window by one second. */
  predicate Written(c: Counter) {
    c.windowSeconds > 0 && c.expireAt == Some(c.windowStart + c.windowSeconds + 1)
  }

  predicate RequestClockNeverGoesBack(requests: seq<Request>) {
    forall i, j :: 0 <= i < j < |requests| ==> requests[i].call.now <= requests[j].call.now
  }

  /** `expiring` lost at most counters of `eternal` that were due at `now`. */
  ghost predicate LostOnlyDue(expiring: Store, eternal: Store, now: int) {
    && (forall k :: k in expiring ==> k in eternal && expiring[k] == eternal[k])
    && (forall k :: k in eternal ==> Written(eternal[k]))
    && (forall k :: k in eternal && k !in expiring ==> eternal[k].expireAt.value <= now)
  }

  lemma DueCounterIsForgotten(c: Counter, call: PositiveCall)
    requires Written(c) && c.expireAt.value <= call.now
    ensures Carried(Some(c), call.Start(), call.window) == 0
  {
    FixedWindowCounts.Aligned(call.now, call.window);
  }

  lemma StepHidesExpiry(expiring: Store, eternal: Store, keys: set<string>, r: Request, earlier: int)
    requires LostOnlyDue(expiring, eternal, earlier) && earlier <= r.call.now
    ensures
      var before := Purged(expiring, keys, r.call.now);
      && After(Lookup(before, r.key), r.call) == After(Lookup(eternal, r.key), r.call)
      && ReplyTo(Lookup(before, r.key), r.call) == ReplyTo(Lookup(eternal, r.key), r.call)
      && LostOnlyDue(before[r.key := After(Lookup(before, r.key), r.call)],
                     eternal[r.key := After(Lookup(eternal, r.key), r.call)], r.call.now)
  {
    var before := Purged(expiring, keys, r.call.now);
    if r.key in eternal && r.key !in before {
      DueCounterIsForgotten(eternal[r.key], r.call);
    }
  }

  lemma {:induction false} StoresStayRelated(store: Store, requests: seq<Request>, purges: seq<set<string>>,
                                            n: nat, now: int)
    requires n <= |requests| == |purges| && RequestClockNeverGoesBack(requests)
    requires forall k :: k in store ==> Written(store[k])
    requires n > 0 ==> requests[n - 1].call.now <= now
    ensures LostOnlyDue(ExpiringStore(store, requests, purges, n), StoreAfter(store, requests, n), now)
  {
    if n == 0 {
    } else {
      var r := requests[n - 1];
      StoresStayRelated(store, requests, purges, n - 1, r.call.now);
      StepHidesExpiry(ExpiringStore(store, requests, purges, n - 1), StoreAfter(store, requests, n - 1),
                      purges[n - 1], r, r.call.now);
    }
  }

  /** Expiring keys at reset + 1 changes no reply, whatever the policies and however late keys go. */
  lemma ExpiryInvisible(store: Store, requests: seq<Request>, purges: seq<set<string>>, i: nat)
    requires i < |requests| == |purges| && RequestClockNeverGoesBack(requests)
    requires forall k :: k in store ==> Written(store[k])
    ensures ExpiringReply(store, requests, purges, i) == StoreReply(store, requests, i)
  {
    var r := requests[i];
    StoresStayRelated(store, requests, purges, i, r.call.now);
    StepHidesExpiry(ExpiringStore(store, requests, purges, i), StoreAfter(store, requests, i),
                    purges[i], r, r.call.now);
  }
}
