/** The fixed-window Lua script of verifier-sdk/src/rate-limiter.ts and the store it updates.
    Time is Redis server time in whole seconds. */
module FixedWindow {
  import opened Wrappers

  /** The hash kept under one key, and the key's EXPIREAT. */
  datatype Counter = Counter(windowStart: int, windowSeconds: int, count: nat, expireAt: Option<int>)

  /** One run of the script: the server time and the two arguments. */
  datatype Call = Call(now: int, window: int, maximum: int) {
    predicate Positive() {
      window > 0 && maximum > 0
    }

    function Start(): int
      requires window > 0
    {
      WindowStart(now, window)
    }
  }

  datatype Reply = Reply(allowed: int, count: nat, resetAt: int, now: int)

  type PositiveCall = c: Call | c.Positive() witness Call(0, 1, 1)

  type Store = map<string, Counter>

  function WindowStart(now: int, window: int): int
    requires window > 0
  {
    now - now % window
  }

  function Lookup(store: Store, key: string): Option<Counter> {
    if key in store then Some(store[key]) else None
  }

  /** What an earlier counter contributes to the window [start, start + window). */
  function Carried(stored: Option<Counter>, start: int, window: int): nat {
    match stored
    case Some(c) => if c.windowStart == start && c.windowSeconds == window then c.count else 0
    case None => 0
  }

  function After(stored: Option<Counter>, call: PositiveCall): Counter {
    var count := Carried(stored, call.Start(), call.window);
    Counter(call.Start(), call.window, if count >= call.maximum then count else count + 1,
            Some(call.Start() + call.window + 1))
  }

  function ReplyTo(stored: Option<Counter>, call: PositiveCall): Reply {
    var count := Carried(stored, call.Start(), call.window);
    var resetAt := call.Start() + call.window;
    if count >= call.maximum then Reply(0, count, resetAt, call.now) else Reply(1, count + 1, resetAt, call.now)
  }

  /** The hashes of the Redis server that all verifier replicas share. */
  class CounterStore {
    var hashes: Store

    constructor ()
      ensures hashes == map[]
    {
      hashes := map[];
    }

    /** The script, command by command. */
    method Eval(key: string, call: PositiveCall) returns (reply: Reply)
      modifies this
      ensures hashes == old(hashes)[key := After(Lookup(old(hashes), key), call)]
      ensures reply == ReplyTo(Lookup(old(hashes), key), call)
    {
      var now, window, maximum := call.now, call.window, call.maximum;
      var windowStart := now - now % window;
      var resetAt := windowStart + window;
      var count: nat := 0;
      var newWindow := true;
      if key in hashes {
        count := hashes[key].count;
        newWindow := hashes[key].windowStart != windowStart || hashes[key].windowSeconds != window;
      }
      if newWindow {
        count := 0;
        var expireAt := if key in hashes then hashes[key].expireAt else None;
        hashes := hashes[key := Counter(windowStart, window, 0, expireAt)];
      }
      if count >= maximum {
        hashes := hashes[key := hashes[key].(expireAt := Some(resetAt + 1))];
        return Reply(0, count, resetAt, now);
      }
      count := count + 1;
      hashes := hashes[key := hashes[key].(count := count)];
      hashes := hashes[key := hashes[key].(expireAt := Some(resetAt + 1))];
      return Reply(1, count, resetAt, now);
    }
  }

  // ---- A sequence of calls on one counter ----

  function CounterAfter(stored: Option<Counter>, calls: seq<PositiveCall>, n: nat): Option<Counter>
    requires n <= |calls|
  {
    if n == 0 then stored else Some(After(CounterAfter(stored, calls, n - 1), calls[n - 1]))
  }

  function ReplyAt(stored: Option<Counter>, calls: seq<PositiveCall>, i: nat): Reply
    requires i < |calls|
  {
    ReplyTo(CounterAfter(stored, calls, i), calls[i])
  }

  predicate Allowed(stored: Option<Counter>, calls: seq<PositiveCall>, i: nat)
    requires i < |calls|
  {
    ReplyAt(stored, calls, i).allowed == 1
  }

  /** How many of the first `n` calls fall in the window that starts at `start`. */
  function Requests(calls: seq<PositiveCall>, n: nat, start: int): nat
    requires n <= |calls|
  {
    if n == 0 then 0
    else Requests(calls, n - 1, start) + if calls[n - 1].Start() == start then 1 else 0
  }

  /** How many of those were allowed. */
  function Allows(stored: Option<Counter>, calls: seq<PositiveCall>, n: nat, start: int): nat
    requires n <= |calls|
  {
    if n == 0 then 0
    else
      Allows(stored, calls, n - 1, start)
      + if calls[n - 1].Start() == start && Allowed(stored, calls, n - 1) then 1 else 0
  }

  predicate ClockNeverGoesBack(calls: seq<PositiveCall>) {
    forall i, j :: 0 <= i < j < |calls| ==> calls[i].now <= calls[j].now
  }

  predicate FixedPolicy(calls: seq<PositiveCall>, window: int, maximum: int) {
    forall i :: 0 <= i < |calls| ==> calls[i].window == window && calls[i].maximum == maximum
  }

  /** The stored counter was written no later than the first call. */
  predicate NotAhead(stored: Option<Counter>, calls: seq<PositiveCall>) {
    stored.Some? && calls != [] ==> stored.value.windowStart <= calls[0].now
  }

  function Min(a: int, b: int): int {
    if a <= b then a else b
  }

  // ---- Requests for many keys on one store ----

  datatype Request = Request(key: string, call: PositiveCall)

  function StoreAfter(store: Store, requests: seq<Request>, n: nat): Store
    requires n <= |requests|
  {
    if n == 0 then store
    else
      var before := StoreAfter(store, requests, n - 1);
      var r := requests[n - 1];
      before[r.key := After(Lookup(before, r.key), r.call)]
  }

  function StoreReply(store: Store, requests: seq<Request>, i: nat): Reply
    requires i < |requests|
  {
    ReplyTo(Lookup(StoreAfter(store, requests, i), requests[i].key), requests[i].call)
  }
}
