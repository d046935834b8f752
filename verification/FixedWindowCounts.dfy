/** What one counter admits: exact windows, bursts, changing maxima, denials. */
module FixedWindowCounts {
  import opened Wrappers
  import opened FixedWindow

  lemma Scale(a: int, b: int, window: int)
    requires window > 0
    ensures a <= b ==> a * window <= b * window
    ensures (a + 1) * window == a * window + window
  {
  }

  lemma Aligned(t: int, window: int)
    requires window > 0
    ensures WindowStart(t, window) == t / window * window
    ensures WindowStart(t, window) <= t < WindowStart(t, window) + window
  {
  }

  lemma DivideInside(q: int, t: int, window: int)
    requires window > 0 && q * window <= t < q * window + window
    ensures t / window == q
  {
    Aligned(t, window);
    Scale(t / window, q - 1, window);
    Scale(q, t / window - 1, window);
    Scale(t / window + 1, q, window);
    Scale(q + 1, t / window, window);
    Scale(q, t / window, window);
    Scale(t / window, q, window);
  }

  lemma WindowOrder(t: int, u: int, window: int)
    requires window > 0 && t <= u
    ensures WindowStart(t, window) <= t < WindowStart(t, window) + window
    ensures WindowStart(t, window) <= WindowStart(u, window)
    ensures WindowStart(t, window) < WindowStart(u, window) ==> t < WindowStart(u, window)
  {
    var p, q := t / window, u / window;
    Aligned(t, window);
    Aligned(u, window);
    Scale(q + 1, p, window);
    Scale(q, q, window);
    Scale(p, q, window);
    Scale(p + 1, q, window);
    Scale(p, p, window);
  }

  lemma SameWindow(t: int, u: int, window: int)
    requires window > 0 && t <= u < WindowStart(t, window) + window
    ensures WindowStart(u, window) == WindowStart(t, window)
  {
    Aligned(t, window);
    Aligned(u, window);
    DivideInside(t / window, u, window);
  }

  /** After `requests` calls in a window that began with `carried` on the counter. */
  function Tally(carried: nat, requests: nat, maximum: int): int {
    if carried >= maximum then carried else Min(maximum, carried + requests)
  }

  lemma {:induction false} NoRequestsYet(calls: seq<PositiveCall>, n: nat, start: int, window: int)
    requires n <= |calls|
    requires forall i :: 0 <= i < n ==> calls[i].window == window && calls[i].now < start
    ensures Requests(calls, n, start) == 0
  {
    if n == 0 {
    } else {
      NoRequestsYet(calls, n - 1, start, window);
      WindowOrder(calls[n - 1].now, calls[n - 1].now, window);
    }
  }

  /** The count a call finds is the tally of its own window, whatever came before. */
  lemma {:induction false} CountFound(stored: Option<Counter>, calls: seq<PositiveCall>, n: nat,
                                     window: int, maximum: int)
    requires n < |calls| && FixedPolicy(calls, window, maximum)
    requires ClockNeverGoesBack(calls) && NotAhead(stored, calls)
    ensures
      var start := calls[n].Start();
      Carried(CounterAfter(stored, calls, n), start, window)
      == Tally(Carried(stored, start, window), Requests(calls, n, start), maximum)
  {
    if n == 0 {
    } else {
      var start, previous := calls[n].Start(), calls[n - 1].Start();
      CountFound(stored, calls, n - 1, window, maximum);
      WindowOrder(calls[n - 1].now, calls[n].now, window);
      if previous < start {
        NoRequestsYet(calls, n, start, window);
        assert calls[0].now <= calls[n - 1].now;
      }
    }
  }

  /** A call is admitted exactly while its window still has capacity left. */
  lemma AllowedIff(stored: Option<Counter>, calls: seq<PositiveCall>, i: nat, window: int, maximum: int)
    requires i < |calls| && FixedPolicy(calls, window, maximum)
    requires ClockNeverGoesBack(calls) && NotAhead(stored, calls)
    ensures
      var start := calls[i].Start();
      Allowed(stored, calls, i) <==> Carried(stored, start, window) + Requests(calls, i, start) < maximum
  {
    CountFound(stored, calls, i, window, maximum);
  }

  /** Each aligned window admits as many of its requests as its capacity has room for. */
  lemma {:induction false} ExactWindow(stored: Option<Counter>, calls: seq<PositiveCall>, n: nat, start: int,
                                      window: int, maximum: int)
    requires n <= |calls| && FixedPolicy(calls, window, maximum) && maximum > 0
    requires ClockNeverGoesBack(calls) && NotAhead(stored, calls)
    ensures
      var carried := Carried(stored, start, window);
      Allows(stored, calls, n, start)
      == if carried >= maximum then 0 else Min(maximum - carried, Requests(calls, n, start))
  {
    if n == 0 {
    } else {
      ExactWindow(stored, calls, n - 1, start, window, maximum);
      AllowedIff(stored, calls, n - 1, window, maximum);
    }
  }

  /** The promise of the policy on a fresh key: min(M, requests) in each aligned window. */
  lemma ExactWindowFromEmpty(calls: seq<PositiveCall>, start: int, window: int, maximum: int)
    requires FixedPolicy(calls, window, maximum) && ClockNeverGoesBack(calls) && maximum > 0
    ensures Allows(None, calls, |calls|, start) == Min(maximum, Requests(calls, |calls|, start))
  {
    ExactWindow(None, calls, |calls|, start, window, maximum);
  }

  // ---- Bursts across window boundaries ----

  /** Calls among the first `n` that were admitted at a time in [from, until). */
  function AllowsBetween(stored: Option<Counter>, calls: seq<PositiveCall>, n: nat, from: int, until: int): nat
    requires n <= |calls|
  {
    if n == 0 then 0
    else
      AllowsBetween(stored, calls, n - 1, from, until)
      + if from <= calls[n - 1].now < until && Allowed(stored, calls, n - 1) then 1 else 0
  }

  lemma {:induction false} SplitInterval(stored: Option<Counter>, calls: seq<PositiveCall>, n: nat,
                                        from: int, middle: int, until: int)
    requires n <= |calls| && from <= middle <= until
    ensures AllowsBetween(stored, calls, n, from, until)
         == AllowsBetween(stored, calls, n, from, middle) + AllowsBetween(stored, calls, n, middle, until)
  {
    if n == 0 {
    } else {
      SplitInterval(stored, calls, n - 1, from, middle, until);
    }
  }

  lemma {:induction false} InsideOneWindow(stored: Option<Counter>, calls: seq<PositiveCall>, n: nat,
                                          from: int, until: int, window: int, maximum: int)
    requires n <= |calls| && FixedPolicy(calls, window, maximum) && window > 0
    requires until <= WindowStart(from, window) + window
    ensures AllowsBetween(stored, calls, n, from, until) <= Allows(stored, calls, n, WindowStart(from, window))
  {
    if n == 0 {
    } else {
      InsideOneWindow(stored, calls, n - 1, from, until, window, maximum);
      var t := calls[n - 1].now;
      if from <= t < until {
        SameWindow(from, t, window);
      }
    }
  }

  /** Calls in [from, until) are spread over `k` aligned windows, each with its own M. */
  lemma {:induction false} PerWindowBound(stored: Option<Counter>, calls: seq<PositiveCall>,
                                         from: int, until: int, k: nat, window: int, maximum: int)
    requires FixedPolicy(calls, window, maximum) && window > 0 && maximum > 0
    requires 0 < k && until <= WindowStart(from, window) + k * window
    requires ClockNeverGoesBack(calls) && NotAhead(stored, calls)
    ensures AllowsBetween(stored, calls, |calls|, from, until) <= k * maximum
    decreases k
  {
    var n, start := |calls|, WindowStart(from, window);
    var boundary := start + window;
    ExactWindow(stored, calls, n, start, window, maximum);
    Scale(k - 1, 0, window);
    Scale(k - 1, 0, maximum);
    Scale(1, k, maximum);
    if until <= boundary {
      InsideOneWindow(stored, calls, n, from, until, window, maximum);
    } else {
      NextStart(from, window);
      SplitInterval(stored, calls, n, from, boundary, until);
      InsideOneWindow(stored, calls, n, from, boundary, window, maximum);
      PerWindowBound(stored, calls, boundary, until, k - 1, window, maximum);
    }
  }

  lemma NextStart(t: int, window: int)
    requires window > 0
    ensures t < WindowStart(t, window) + window <= t + window
    ensures WindowStart(WindowStart(t, window) + window, window) == WindowStart(t, window) + window
  {
    Aligned(t, window);
    Scale(t / window, 0, window);
    DivideInside(t / window + 1, WindowStart(t, window) + window, window);
    Aligned(WindowStart(t, window) + window, window);
  }

  function CeilingDivide(a: int, b: int): int
    requires b > 0
  {
    (a + b - 1) / b
  }

  lemma CeilingCovers(a: nat, window: int)
    requires window > 0
    ensures 0 <= CeilingDivide(a, window) && a <= CeilingDivide(a, window) * window
  {
    Aligned(a + window - 1, window);
    Scale(CeilingDivide(a, window) + 1, 0, window);
  }

  /** Any `length` consecutive seconds admit at most M * (ceil((length - 1) / W) + 1) calls. */
  lemma BurstBound(stored: Option<Counter>, calls: seq<PositiveCall>,
                   from: int, length: int, window: int, maximum: int)
    requires FixedPolicy(calls, window, maximum) && window > 0 && maximum > 0 && length > 0
    requires ClockNeverGoesBack(calls) && NotAhead(stored, calls)
    ensures AllowsBetween(stored, calls, |calls|, from, from + length)
         <= (CeilingDivide(length - 1, window) + 1) * maximum
  {
    CeilingCovers(length - 1, window);
    Aligned(from, window);
    Scale(CeilingDivide(length - 1, window), 0, window);
    PerWindowBound(stored, calls, from, from + length, CeilingDivide(length - 1, window) + 1, window, maximum);
  }

  // ---- Retry-After ----

  /** After a denial, every later call of the same policy is denied until the window resets. */
  lemma DeniedUntilReset(stored: Option<Counter>, denied: PositiveCall, calls: seq<PositiveCall>, i: nat)
    requires ReplyTo(stored, denied).allowed == 0
    requires i < |calls| && FixedPolicy(calls, denied.window, denied.maximum) && ClockNeverGoesBack(calls)
    requires denied.now <= calls[0].now && calls[i].now < ReplyTo(stored, denied).resetAt
    ensures !Allowed(Some(After(stored, denied)), calls, i)
  {
    assert calls[0].now <= calls[i].now;
    WindowOrder(denied.now, calls[i].now, denied.window);
    WindowOrder(calls[i].now, calls[i].now, denied.window);
    SameWindow(denied.now, calls[i].now, denied.window);
    AllowedIff(Some(After(stored, denied)), calls, i, denied.window, denied.maximum);
  }

  /** A call made `retryAfter` seconds after a denial opens a new window: it is admitted
      exactly when fewer than M calls of that window came before it. */
  lemma AdmittedAfterRetry(stored: Option<Counter>, denied: PositiveCall, calls: seq<PositiveCall>, i: nat)
    requires ReplyTo(stored, denied).allowed == 0
    requires i < |calls| && FixedPolicy(calls, denied.window, denied.maximum) && ClockNeverGoesBack(calls)
    requires denied.now <= calls[0].now
    requires calls[i].now == denied.now + (ReplyTo(stored, denied).resetAt - denied.now)
    ensures 1 <= ReplyTo(stored, denied).resetAt - denied.now <= denied.window
    ensures Allowed(Some(After(stored, denied)), calls, i)
      <==> Requests(calls, i, ReplyTo(stored, denied).resetAt) < denied.maximum
  {
    NextStart(denied.now, denied.window);
    AllowedIff(Some(After(stored, denied)), calls, i, denied.window, denied.maximum);
  }

  // ---- Maxima that change from call to call ----

  predicate FixedLength(calls: seq<PositiveCall>, window: int) {
    forall i :: 0 <= i < |calls| ==> calls[i].window == window
  }

  lemma {:induction false} AllowsWithinRequests(stored: Option<Counter>, calls: seq<PositiveCall>, n: nat, start: int)
    requires n <= |calls|
    ensures Allows(stored, calls, n, start) <= Requests(calls, n, start)
  {
    if n == 0 {
    } else {
      AllowsWithinRequests(stored, calls, n - 1, start);
    }
  }

  /** The count a call finds is what its window began with and the admissions since, so neither a denial
      nor a change of the maximum alters it. */
  lemma {:induction false} CountIsAdmissions(stored: Option<Counter>, calls: seq<PositiveCall>, n: nat, window: int)
    requires n < |calls| && FixedLength(calls, window)
    requires ClockNeverGoesBack(calls) && NotAhead(stored, calls)
    ensures
      var start := calls[n].Start();
      Carried(CounterAfter(stored, calls, n), start, window)
      == Carried(stored, start, window) + Allows(stored, calls, n, start)
  {
    if n == 0 {
    } else {
      var start, previous := calls[n].Start(), calls[n - 1].Start();
      CountIsAdmissions(stored, calls, n - 1, window);
      WindowOrder(calls[n - 1].now, calls[n].now, window);
      if previous < start {
        NoRequestsYet(calls, n, start, window);
        AllowsWithinRequests(stored, calls, n, start);
        assert calls[0].now <= calls[n - 1].now;
      }
    }
  }

  /** The running total of every admission is within the maximum it was made under, and the reply
      carries that total. */
  lemma AdmissionWithinItsMaximum(stored: Option<Counter>, calls: seq<PositiveCall>, i: nat, window: int)
    requires i < |calls| && FixedLength(calls, window)
    requires ClockNeverGoesBack(calls) && NotAhead(stored, calls)
    ensures
      var reply, start := ReplyAt(stored, calls, i), calls[i].Start();
      var total := Carried(stored, start, window) + Allows(stored, calls, i + 1, start);
      reply.count == total && (reply.allowed == 1 ==> total <= calls[i].maximum)
      && (reply.allowed == 0 ==> calls[i].maximum <= total == reply.count)
  {
    CountIsAdmissions(stored, calls, i, window);
  }

  /** However the maximum changes, no window of a run ends with more than the largest maximum used in it. */
  lemma {:induction false} TotalWithinLargestMaximum(stored: Option<Counter>, calls: seq<PositiveCall>, n: nat,
                                                    start: int, window: int, largest: int)
    requires n <= |calls| && FixedLength(calls, window) && Carried(stored, start, window) <= largest
    requires ClockNeverGoesBack(calls) && NotAhead(stored, calls)
    requires forall i :: 0 <= i < n && calls[i].Start() == start ==> calls[i].maximum <= largest
    ensures Carried(stored, start, window) + Allows(stored, calls, n, start) <= largest
  {
    if n == 0 {
    } else {
      TotalWithinLargestMaximum(stored, calls, n - 1, start, window, largest);
      AdmissionWithinItsMaximum(stored, calls, n - 1, window);
    }
  }

  // ---- Window lengths that change from call to call ----

  /** A hash of another window, or of another length, counts for nothing: the call starts a new window. */
  lemma OtherWindowStartsOver(c: Counter, call: PositiveCall)
    requires c.windowStart != call.Start() || c.windowSeconds != call.window
    ensures ReplyTo(Some(c), call) == Reply(1, 1, call.Start() + call.window, call.now)
    ensures After(Some(c), call) == After(None, call)
    ensures ReplyTo(None, call) == ReplyTo(Some(c), call)
  {
  }

  /** A hash of the same window goes on: one more if there is room, and no change if there is none. */
  lemma SameWindowGoesOn(c: Counter, call: PositiveCall)
    requires c.windowStart == call.Start() && c.windowSeconds == call.window
    ensures ReplyTo(Some(c), call)
         == if c.count < call.maximum then Reply(1, c.count + 1, call.Start() + call.window, call.now)
            else Reply(0, c.count, call.Start() + call.window, call.now)
    ensures After(Some(c), call)
         == Counter(c.windowStart, c.windowSeconds, if c.count < call.maximum then c.count + 1 else c.count,
                    Some(c.windowStart + c.windowSeconds + 1))
  {
  }

  /** The admissions in the unbroken series of calls just before call `n` that fell in the window `start` of
      length `window`; the series reaches back to a stored hash of that window. */
  function Series(stored: Option<Counter>, calls: seq<PositiveCall>, n: nat, start: int, window: int): nat
    requires n <= |calls|
  {
    if n == 0 then
      match stored
      case None => 0
      case Some(c) => if c.windowStart == start && c.windowSeconds == window then c.count else 0
    else if calls[n - 1].Start() == start && calls[n - 1].window == window then
      Series(stored, calls, n - 1, start, window) + if Allowed(stored, calls, n - 1) then 1 else 0
    else 0
  }

  lemma {:induction false} CountIsSeries(stored: Option<Counter>, calls: seq<PositiveCall>, n: nat,
                                        start: int, window: int)
    requires n <= |calls|
    ensures Carried(CounterAfter(stored, calls, n), start, window) == Series(stored, calls, n, start, window)
  {
    if n == 0 {
    } else {
      CountIsSeries(stored, calls, n - 1, start, window);
    }
  }

  /** Over every run, whatever the policies and the clock do: a call is admitted exactly while the series
      of its own window and length has room, so a change of length starts a new count. */
  lemma AdmittedInSeries(stored: Option<Counter>, calls: seq<PositiveCall>, i: nat)
    requires i < |calls|
    ensures
      var call := calls[i];
      var before := Series(stored, calls, i, call.Start(), call.window);
      ReplyAt(stored, calls, i)
      == if before < call.maximum then Reply(1, before + 1, call.Start() + call.window, call.now)
         else Reply(0, before, call.Start() + call.window, call.now)
  {
    CountIsSeries(stored, calls, i, calls[i].Start(), calls[i].window);
  }
}
