/** The external API client: retries inside a call, and a circuit breaker across calls. */
module CircuitBreaker {
  import opened Text
  import Backoff

  datatype Settings = Settings(failureThreshold: int, recoveryTimeout: real)

  datatype Breaker = Breaker(failureCount: int, openedAt: Option<real>)

  datatype CircuitState = Closed | Open | HalfOpen

  const FRESH: Breaker := Breaker(0, None)

  // ---- The breaker ----

  function StateAt(s: Settings, b: Breaker, now: real): CircuitState {
    if b.openedAt.None? then Closed
    else if now - b.openedAt.value >= s.recoveryTimeout then HalfOpen
    else Open
  }

  function AfterSuccess(b: Breaker): Breaker { FRESH }

  function AfterFailure(s: Settings, b: Breaker, now: real): Breaker {
    if StateAt(s, b, now) == HalfOpen then Breaker(s.failureThreshold, Some(now))
    else if b.failureCount + 1 >= s.failureThreshold then Breaker(b.failureCount + 1, Some(now))
    else Breaker(b.failureCount + 1, b.openedAt)
  }

  // ---- One call ----

  /** What the transport does with one send: a response with its status code, or an exception. */
  datatype Reply = Response(status: int) | Raised

  /** Which method and codes may be retried, how often, and after what delays. */
  datatype Strategy = Strategy(maxAttempts: int, retryMethods: set<string>, retryCodes: set<int>, delay: int -> real)

  predicate Succeeds(r: Reply) { r.Response? && 200 <= r.status < 300 }

  /** Another attempt may follow reply `r`. */
  predicate Retries(st: Strategy, allowRetries: bool, r: Reply) {
    allowRetries && (r.Raised? || r.status in st.retryCodes)
  }

  function AttemptLimit(st: Strategy): nat { if st.maxAttempts < 1 then 1 else st.maxAttempts }

  /** The k-th send of a call is answered by `replies(k)`, counting from 1. */
  type Replies = nat -> Reply

  /** The last attempt of a call that has come to attempt `k`. */
  function LastAttempt(st: Strategy, allowRetries: bool, replies: Replies, k: nat): (n: nat)
    requires 1 <= k <= AttemptLimit(st)
    decreases AttemptLimit(st) - k
  {
    if Succeeds(replies(k)) || !Retries(st, allowRetries, replies(k)) || k == AttemptLimit(st) then k
    else LastAttempt(st, allowRetries, replies, k + 1)
  }

  datatype CallStatus = ShortCircuited | Succeeded | Failed

  datatype CallResult = CallResult(status: CallStatus, attempts: nat, circuitState: CircuitState)

  /** What one call meets: the clock at its start and when it settles, the replies, the clock at the end. */
  datatype Call = Call(verb: string, start: real, replies: Replies, settled: real, end: real)

  predicate MayRetry(s: Settings, st: Strategy, b: Breaker, c: Call) {
    StateAt(s, b, c.start) != HalfOpen && c.verb in st.retryMethods
  }

  function Perform(s: Settings, st: Strategy, b: Breaker, c: Call): (Breaker, CallResult) {
    if StateAt(s, b, c.start) == Open then (b, CallResult(ShortCircuited, 0, Open))
    else
      var n := LastAttempt(st, MayRetry(s, st, b, c), c.replies, 1);
      if Succeeds(c.replies(n)) then
        (AfterSuccess(b), CallResult(Succeeded, n, StateAt(s, AfterSuccess(b), c.end)))
      else
        var after := AfterFailure(s, b, c.settled);
        (after, CallResult(Failed, n, StateAt(s, after, c.end)))
  }

  /** The sleeps between the first `n` attempts. */
  function Sleeps(st: Strategy, n: nat): seq<real> {
    if n <= 1 then []
    else Sleeps(st, n - 1) + if st.delay(n) > 0.0 then [st.delay(n)] else []
  }

  class ResilientExternalApiClient {
    const settings: Settings
    const strategy: Strategy
    var failureCount: int
    var openedAt: Option<real>

    function State(): Breaker
      reads this
    {
      Breaker(failureCount, openedAt)
    }

    constructor (settings: Settings, strategy: Strategy)
      ensures this.settings == settings && this.strategy == strategy && State() == FRESH
    {
      this.settings, this.strategy := settings, strategy;
      failureCount, openedAt := 0, None;
    }

    method OnSuccess()
      modifies this
      ensures State() == AfterSuccess(old(State()))
    {
      failureCount := 0;
      openedAt := None;
    }

    method OnFailure(now: real)
      modifies this
      ensures State() == AfterFailure(settings, old(State()), now)
    {
      if StateAt(settings, State(), now) == HalfOpen {
        failureCount := settings.failureThreshold;
        openedAt := Some(now);
        return;
      }
      failureCount := failureCount + 1;
      if failureCount >= settings.failureThreshold {
        openedAt := Some(now);
      }
    }

    /** `call`; `slept` lists the delays it sleeps between its attempts. */
    method PerformCall(c: Call) returns (r: CallResult, slept: seq<real>)
      modifies this
      ensures (State(), r) == Perform(settings, strategy, old(State()), c)
      ensures slept == Sleeps(strategy, r.attempts)
    {
      slept := [];
      var state := StateAt(settings, State(), c.start);
      if state == Open {
        return CallResult(ShortCircuited, 0, state), [];
      }
      var maxAttempts := AttemptLimit(strategy);
      var allowRetries := state != HalfOpen && c.verb in strategy.retryMethods;
      var attempt := 1;
      while true
        invariant 1 <= attempt <= maxAttempts
        invariant State() == old(State()) && slept == Sleeps(strategy, attempt)
        invariant LastAttempt(strategy, allowRetries, c.replies, 1)
                    == LastAttempt(strategy, allowRetries, c.replies, attempt)
        decreases maxAttempts - attempt
      {
        var reply := c.replies(attempt);
        match reply {
          case Response(status) =>
            if 200 <= status < 300 {
              OnSuccess();
              return CallResult(Succeeded, attempt, StateAt(settings, State(), c.end)), slept;
            }
            if !(allowRetries && status in strategy.retryCodes) {
              break;
            }
          case Raised =>
            if !allowRetries {
              break;
            }
        }
        if attempt >= maxAttempts {
          break;
        }
        var delay := strategy.delay(attempt + 1);
        if delay > 0.0 {
          slept := slept + [delay];
        }
        attempt := attempt + 1;
      }
      OnFailure(c.settled);
      return CallResult(Failed, attempt, StateAt(settings, State(), c.end)), slept;
    }
  }

  /**
   * The number of attempts of a call: every attempt before the last one failed in a way that may be
   * retried, and the last one succeeded, may not be retried, or was the last allowed.
   */
  lemma {:induction false} AttemptsExactly(st: Strategy, allowRetries: bool, replies: Replies, k: nat)
    requires 1 <= k <= AttemptLimit(st)
    ensures var n := LastAttempt(st, allowRetries, replies, k);
            && k <= n <= AttemptLimit(st)
            && (forall j :: k <= j < n ==> !Succeeds(replies(j)) && Retries(st, allowRetries, replies(j)))
            && (Succeeds(replies(n)) || !Retries(st, allowRetries, replies(n)) || n == AttemptLimit(st))
    decreases AttemptLimit(st) - k
  {
    if !(Succeeds(replies(k)) || !Retries(st, allowRetries, replies(k)) || k == AttemptLimit(st)) {
      AttemptsExactly(st, allowRetries, replies, k + 1);
    }
  }

  function StrategyOf(p: Backoff.RetryStrategy, methods: set<string>, codes: set<int>): Strategy {
    Strategy(p.maxAttempts, methods, codes, (attempt: int) => Backoff.CallDelay(p, attempt))
  }

  /** With multiplier at least 1 and a base that is not negative, a call sleeps longer and longer, up to the cap. */
  lemma {:induction false} SleepsGrow(p: Backoff.RetryStrategy, methods: set<string>, codes: set<int>, n: nat)
    requires p.multiplier >= 1.0 && p.baseDelay >= 0.0
    ensures var sleeps := Sleeps(StrategyOf(p, methods, codes), n);
            && (forall i, j :: 0 <= i < j < |sleeps| ==> sleeps[i] <= sleeps[j])
            && (forall i :: 0 <= i < |sleeps| ==> 0.0 < sleeps[i] <= Backoff.CallDelay(p, n))
            && Backoff.CallDelay(p, n) <= Backoff.MaxReal(0.0, p.maxDelay)
  {
    var st := StrategyOf(p, methods, codes);
    assert st.delay(n) == Backoff.CallDelay(p, n);
    if n > 1 {
      SleepsGrow(p, methods, codes, n - 1);
      var sleeps := Sleeps(st, n);
      assert sleeps == Sleeps(st, n - 1) + if st.delay(n) > 0.0 then [st.delay(n)] else [];
      Backoff.CallDelaysGrow(p, n - 1, n);
    } else {
      Backoff.CallDelaysGrow(p, n, n);
    }
  }

  /** If every delay is positive, a call of `n` attempts sleeps before each attempt but the first, in order. */
  lemma {:induction false} SleepsExactly(st: Strategy, n: nat)
    requires forall i :: 2 <= i <= n ==> st.delay(i) > 0.0
    ensures |Sleeps(st, n)| == (if n == 0 then 0 else n - 1)
    ensures forall i :: 0 <= i < n - 1 ==> Sleeps(st, n)[i] == st.delay(i + 2)
  {
    if n > 1 {
      SleepsExactly(st, n - 1);
    }
  }

  // ---- Steps of many calls, in any order ----

  /** A settling call of some task: it succeeded, or it failed at a reading of the clock. */
  datatype Settling = Success | Failure(now: real)

  function Settle(s: Settings, b: Breaker, e: Settling): Breaker {
    match e
    case Success => AfterSuccess(b)
    case Failure(now) => AfterFailure(s, b, now)
  }

  function SettleAll(s: Settings, es: seq<Settling>): Breaker {
    if es == [] then FRESH else Settle(s, SettleAll(s, es[..|es| - 1]), es[|es| - 1])
  }

  /**
   * Whatever the order in which calls settle and whatever the clock reads, the breaker is open
   * exactly when the failure count has reached the threshold. This holds of every run if and only
   * if the threshold is at least 1.
   */
  lemma OpenIffThresholdReached(s: Settings)
    ensures s.failureThreshold >= 1 <==>
            forall es :: SettleAll(s, es).openedAt.None? <==> SettleAll(s, es).failureCount < s.failureThreshold
  {
    if s.failureThreshold >= 1 {
      forall es ensures SettleAll(s, es).openedAt.None? <==> SettleAll(s, es).failureCount < s.failureThreshold {
        RunOpensAtThreshold(s, es);
      }
    } else {
      assert SettleAll(s, []) == FRESH;
    }
  }

  lemma {:induction false} RunOpensAtThreshold(s: Settings, es: seq<Settling>)
    requires s.failureThreshold >= 1
    ensures var b := SettleAll(s, es);
            b.failureCount >= 0 && (b.openedAt.None? <==> b.failureCount < s.failureThreshold)
  {
    if es != [] {
      RunOpensAtThreshold(s, es[..|es| - 1]);
    }
  }

  // ---- Calls one after another ----

  /** Each call starts no earlier than the one before it settled, and settles no earlier than it starts. */
  predicate Sequential(calls: seq<Call>, from: real)
    decreases calls
  {
    calls == [] || (from <= calls[0].start <= calls[0].settled && Sequential(calls[1..], calls[0].settled))
  }

  /** No call of the run succeeds, starting from breaker `b`. */
  predicate NoneSucceeds(s: Settings, st: Strategy, b: Breaker, calls: seq<Call>)
    decreases calls
  {
    calls == [] ||
    var (after, r) := Perform(s, st, b, calls[0]);
    r.status != Succeeded && NoneSucceeds(s, st, after, calls[1..])
  }

  /** For every send to the transport, the start of the call that makes it; the send comes no earlier. */
  function SendTimes(s: Settings, st: Strategy, b: Breaker, calls: seq<Call>): seq<real>
    decreases calls
  {
    if calls == [] then []
    else
      var (after, r) := Perform(s, st, b, calls[0]);
      seq(r.attempts, _ => calls[0].start) + SendTimes(s, st, after, calls[1..])
  }

  /** `k * x`. */
  function Times(k: nat, x: real): real { if k == 0 then 0.0 else x + Times(k - 1, x) }

  /** The k-th of the times, counting from 1, is at least k intervals after `from`. */
  predicate Paced(times: seq<real>, from: real, interval: real) {
    forall k :: 0 <= k < |times| ==> times[k] >= from + Times(k + 1, interval)
  }

  lemma PacedCons(first: real, later: seq<real>, from: real, reopened: real, interval: real)
    requires first >= from + interval && reopened >= from + interval && Paced(later, reopened, interval)
    ensures Paced([first] + later, from, interval)
  {
    forall k | 0 <= k < |[first] + later| ensures ([first] + later)[k] >= from + Times(k + 1, interval) {
      TimesStep(k, interval);
      if k > 0 {
        assert later[k - 1] >= reopened + Times(k - 1 + 1, interval);
      } else {
        assert Times(0, interval) == 0.0;
      }
    }
  }

  lemma TimesStep(k: nat, x: real)
    ensures Times(k + 1, x) == x + Times(k, x)
  {
  }

  lemma ProbeSendsOnce(s: Settings, st: Strategy, b: Breaker, c: Call)
    requires StateAt(s, b, c.start) == HalfOpen
    ensures Perform(s, st, b, c).1.attempts == 1
  {
  }

  /**
   * While no call succeeds, calls made one after another reach the transport at most once per
   * recovery timeout: the k-th send after the breaker opened happens at least k timeouts later.
   */
  lemma {:induction false} OpenBreakerPacesSends(s: Settings, st: Strategy, b: Breaker, calls: seq<Call>, from: real)
    requires b.openedAt.Some? && b.openedAt.value <= from && Sequential(calls, from) && NoneSucceeds(s, st, b, calls)
    ensures Paced(SendTimes(s, st, b, calls), b.openedAt.value, s.recoveryTimeout)
    decreases calls
  {
    if calls != [] {
      var c, rest := calls[0], calls[1..];
      var (after, r) := Perform(s, st, b, c);
      if StateAt(s, b, c.start) == Open {
        StillSequential(rest, c.settled, from);
        OpenBreakerPacesSends(s, st, b, rest, from);
        assert SendTimes(s, st, b, calls) == SendTimes(s, st, b, rest);
      } else {
        ProbeSendsOnce(s, st, b, c);
        assert after.openedAt == Some(c.settled);
        OpenBreakerPacesSends(s, st, after, rest, c.settled);
        var later := SendTimes(s, st, after, rest);
        assert SendTimes(s, st, b, calls) == [c.start] + later;
        PacedCons(c.start, later, b.openedAt.value, c.settled, s.recoveryTimeout);
      }
    }
  }

  lemma StillSequential(calls: seq<Call>, later: real, earlier: real)
    requires Sequential(calls, later) && earlier <= later
    ensures Sequential(calls, earlier)
  {
  }

  // ---- The state after any run, and what a call reports ----

  /** The readings of the clock at the failures since the last success, the oldest first. */
  function FailuresSinceSuccess(es: seq<Settling>): seq<real> {
    if es == [] then []
    else match es[|es| - 1]
      case Success => []
      case Failure(now) => FailuresSinceSuccess(es[..|es| - 1]) + [now]
  }

  /** The count after `n` of the failures: one more for each, but back at the threshold for one after the timeout. */
  function CountOf(s: Settings, failures: seq<real>, n: nat): int
    requires n <= |failures|
  {
    if n == 0 then 0
    else if 1 < n && s.failureThreshold < n && failures[n - 1] >= failures[n - 2] + s.recoveryTimeout
    then s.failureThreshold
    else CountOf(s, failures, n - 1) + 1
  }

  /** What the failures since the last success say of the breaker. */
  predicate Tells(s: Settings, failures: seq<real>, b: Breaker) {
    && (b.openedAt.None? <==> failures == [] || |failures| < s.failureThreshold)
    && (b.openedAt.Some? ==> b.openedAt.value == failures[|failures| - 1] && b.failureCount >= s.failureThreshold)
    && (b.openedAt.None? ==> b.failureCount == |failures|)
    && b.failureCount == CountOf(s, failures, |failures|)
  }

  lemma {:induction false} CountKept(s: Settings, failures: seq<real>, now: real, n: nat)
    requires n <= |failures|
    ensures CountOf(s, failures + [now], n) == CountOf(s, failures, n)
  {
    if n > 0 {
      CountKept(s, failures, now, n - 1);
    }
  }

  lemma FailureTells(s: Settings, failures: seq<real>, b: Breaker, now: real)
    requires Tells(s, failures, b)
    ensures Tells(s, failures + [now], AfterFailure(s, b, now))
  {
    CountKept(s, failures, now, |failures|);
  }

  /** After every run the failures since the last success determine both fields of the breaker. */
  lemma {:induction false} FailuresTell(s: Settings, es: seq<Settling>)
    ensures Tells(s, FailuresSinceSuccess(es), SettleAll(s, es))
  {
    if es != [] {
      var before, e := es[..|es| - 1], es[|es| - 1];
      FailuresTell(s, before);
      if e.Failure? {
        FailureTells(s, FailuresSinceSuccess(before), SettleAll(s, before), e.now);
      }
    }
  }

  /**
   * In every order of settling and whatever the threshold, the circuit is closed while there were
   * fewer failures since the last success than the threshold, or none; otherwise it is open for the
   * recovery timeout after the last failure, and half-open from then on.
   */
  lemma StateExactly(s: Settings, es: seq<Settling>, now: real)
    ensures var failures, state := FailuresSinceSuccess(es), StateAt(s, SettleAll(s, es), now);
            && (state == Closed <==> failures == [] || |failures| < s.failureThreshold)
            && (state == Open ==> now < failures[|failures| - 1] + s.recoveryTimeout)
            && (state == HalfOpen ==> now >= failures[|failures| - 1] + s.recoveryTimeout)
  {
    FailuresTell(s, es);
  }

  /** The `k`-th reply of a call is a failure after which another attempt may follow. */
  predicate GoesOn(st: Strategy, b: Breaker, c: Call, k: nat) {
    && b.openedAt.None? && c.verb in st.retryMethods
    && match c.replies(k)
       case Raised => true
       case Response(status) => status in st.retryCodes && (status < 200 || status > 299)
  }

  /**
   * What a call reports. It is cut short exactly while the recovery timeout runs; otherwise every
   * attempt before the last is one that a retry may follow, and it succeeds exactly if the last one is
   * answered in the 200s. Its own settling is what it leaves to the breaker.
   */
  lemma CallExactly(s: Settings, st: Strategy, es: seq<Settling>, c: Call)
    ensures var b := SettleAll(s, es);
            var (after, r) := Perform(s, st, b, c);
            && (r.status == ShortCircuited <==> b.openedAt.Some? && c.start < b.openedAt.value + s.recoveryTimeout)
            && (r.status == ShortCircuited ==> r.attempts == 0 && r.circuitState == Open && after == SettleAll(s, es))
    ensures var b := SettleAll(s, es);
            var (after, r) := Perform(s, st, b, c);
            r.status != ShortCircuited ==>
            && 1 <= r.attempts && (r.attempts == 1 || r.attempts <= st.maxAttempts)
            && (forall k: nat :: 1 <= k < r.attempts ==> GoesOn(st, b, c, k))
            && (r.status == Succeeded <==>
                c.replies(r.attempts).Response? && 200 <= c.replies(r.attempts).status <= 299)
            && (r.status == Failed && GoesOn(st, b, c, r.attempts) ==> r.attempts >= st.maxAttempts)
            && after == SettleAll(s, es + [if r.status == Succeeded then Success else Failure(c.settled)])
            && r.circuitState == StateAt(s, after, c.end)
  {
    var b := SettleAll(s, es);
    var e := if Perform(s, st, b, c).1.status == Succeeded then Success else Failure(c.settled);
    assert (es + [e])[..|es|] == es;
    if StateAt(s, b, c.start) != Open {
      AttemptsExactly(st, MayRetry(s, st, b, c), c.replies, 1);
    }
  }
}
