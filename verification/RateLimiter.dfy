/** The sliding-window rate limiter: one bucket of admission times per key. */
module RateLimiter {
  import opened Text

  /** Times and windows are exact; `maxRequests` and `windowSeconds` come from the rule. */
  datatype Rule = Rule(maxRequests: int, windowSeconds: int)

  /** `Broken` is the `IndexError` of a rule that admits nothing, met with an empty bucket. */
  datatype Decision = Admitted | Refused(retryAfter: int) | Broken

  type Buckets = map<string, seq<real>>

  function BucketOf(buckets: Buckets, key: string): seq<real> {
    if key in buckets then buckets[key] else []
  }

  /** What is left when the leading times at or before `start` are dropped. */
  function Pruned(bucket: seq<real>, start: real): (r: seq<real>)
    ensures |r| <= |bucket|
  {
    if bucket != [] && bucket[0] <= start then Pruned(bucket[1..], start) else bucket
  }

  function Ceil(x: real): int { 0 - (0.0 - x).Floor }

  /** The moment up to which admissions no longer count at `now`. */
  function Cut(rule: Rule, now: real): real { now - rule.windowSeconds as real }

  /** The whole seconds until the admission at `time` is no longer in the window, and at least one. */
  function WaitFor(time: real, rule: Rule, now: real): int { Max(1, Ceil(time + rule.windowSeconds as real - now)) }

  function Decide(bucket: seq<real>, now: real, rule: Rule): Decision {
    var kept := Pruned(bucket, Cut(rule, now));
    if |kept| < rule.maxRequests then Admitted
    else if kept == [] then Broken
    else Refused(WaitFor(kept[0], rule, now))
  }

  function BucketAfter(bucket: seq<real>, now: real, rule: Rule): seq<real> {
    var kept := Pruned(bucket, Cut(rule, now));
    if Decide(bucket, now, rule).Admitted? then kept + [now] else kept
  }

  function Step(buckets: Buckets, key: string, now: real, rule: Rule): Buckets {
    buckets[key := BucketAfter(BucketOf(buckets, key), now, rule)]
  }

  class InMemoryRateLimiter {
    var requests: Buckets

    constructor ()
      ensures requests == map[]
    {
      requests := map[];
    }

    /** `allow`, with the reading of the clock as a parameter. */
    method Allow(key: string, rule: Rule, now: real) returns (d: Decision)
      modifies this
      ensures d == Decide(BucketOf(old(requests), key), now, rule)
      ensures requests == Step(old(requests), key, now, rule)
    {
      var windowStart := Cut(rule, now);
      var bucket := BucketOf(requests, key);
      ghost var kept := Pruned(bucket, windowStart);
      while bucket != [] && bucket[0] <= windowStart
        invariant Pruned(bucket, windowStart) == kept
        decreases |bucket|
      {
        bucket := bucket[1..];
      }
      requests := requests[key := bucket];
      if |bucket| >= rule.maxRequests {
        if bucket == [] {
          return Broken;
        }
        return Refused(Max(1, Ceil(bucket[0] + rule.windowSeconds as real - now)));
      }
      requests := requests[key := bucket + [now]];
      return Admitted;
    }
  }

  // ---- Whole runs ----

  datatype Call = Call(key: string, rule: Rule, now: real)

  /** A run of calls, each under a rule of its own, the last call outermost. */
  datatype History = Start | Then(before: History, call: Call)

  /** The clock never runs backwards. */
  predicate Timely(h: History) {
    h.Then? ==> Timely(h.before) && (h.before.Then? ==> h.before.call.now <= h.call.now)
  }

  function Run(h: History): Buckets {
    match h
    case Start => map[]
    case Then(before, call) => Step(Run(before), call.key, call.now, call.rule)
  }

  function LastDecision(h: History): Decision
    requires h.Then?
  {
    Decide(BucketOf(Run(h.before), h.call.key), h.call.now, h.call.rule)
  }

  /** The times at which calls for `key` were admitted, in order. */
  function AdmittedTimes(h: History, key: string): seq<real> {
    match h
    case Start => []
    case Then(before, call) =>
      if call.key == key && LastDecision(h).Admitted? then AdmittedTimes(before, key) + [call.now]
      else AdmittedTimes(before, key)
  }

  predicate WindowsAtLeast(h: History, key: string, window: int) {
    h.Then? ==>
      WindowsAtLeast(h.before, key, window) && (h.call.key == key ==> h.call.rule.windowSeconds >= window)
  }

  predicate MaximaAtMost(h: History, key: string, most: int) {
    h.Then? ==> MaximaAtMost(h.before, key, most) && (h.call.key == key ==> h.call.rule.maxRequests <= most)
  }

  /** No call for `key` so far has dropped an admitted time newer than `start`. */
  predicate NothingLost(h: History, key: string, start: real) {
    h.Then? ==>
      && NothingLost(h.before, key, start)
      && (h.call.key == key ==>
            forall t :: t in AdmittedTimes(h.before, key) ==> t <= start || t > Cut(h.call.rule, h.call.now))
  }

  /** No call for `key` looks back at an admitted time that a call before it, under a shorter window, has dropped. */
  predicate Covered(h: History, key: string) {
    h.Then? ==>
      && Covered(h.before, key)
      && (h.call.key == key ==> NothingLost(h.before, key, Cut(h.call.rule, h.call.now)))
  }

  /** No call for `key` has a longer window than one before it; all of them may have the same. */
  predicate WindowsNeverGrow(h: History, key: string) {
    h.Then? ==>
      && WindowsNeverGrow(h.before, key)
      && (h.call.key == key ==> WindowsAtLeast(h.before, key, h.call.rule.windowSeconds))
  }

  predicate Sorted(s: seq<real>) { forall i, j :: 0 <= i < j < |s| ==> s[i] <= s[j] }

  predicate AtMost(s: seq<real>, top: real) { forall i :: 0 <= i < |s| ==> s[i] <= top }

  /** How many of the times lie in the half-open interval `(from, upTo]`. */
  function CountIn(s: seq<real>, from: real, upTo: real): nat {
    if s == [] then 0 else (if from < s[0] <= upTo then 1 else 0) + CountIn(s[1..], from, upTo)
  }

  /** The times that are newer than `start`. */
  function Newer(s: seq<real>, start: real): (r: seq<real>)
    ensures |r| <= |s|
  {
    if s == [] then [] else (if s[0] > start then [s[0]] else []) + Newer(s[1..], start)
  }

  lemma {:induction false} NewerAreCounted(s: seq<real>, start: real, top: real)
    requires AtMost(s, top)
    ensures |Newer(s, start)| == CountIn(s, start, top)
  {
    if s != [] {
      NewerAreCounted(s[1..], start, top);
    }
  }

  lemma {:induction false} NewerOfAppend(s: seq<real>, x: real, start: real)
    ensures |Newer(s + [x], start)| == |Newer(s, start)| + if x > start then 1 else 0
  {
    if s == [] {
      assert s + [x] == [x] && [x][1..] == [];
    } else {
      assert (s + [x])[1..] == s[1..] + [x];
      NewerOfAppend(s[1..], x, start);
    }
  }

  /** Within one key the admitted times never decrease, and none is later than the last call. */
  lemma {:induction false} AdmittedSorted(h: History, key: string, now: real)
    requires Timely(h) && (h.Then? ==> h.call.now <= now)
    ensures Sorted(AdmittedTimes(h, key)) && AtMost(AdmittedTimes(h, key), now)
  {
    if h.Then? {
      AdmittedSorted(h.before, key, h.call.now);
    }
  }

  lemma AdmittedInOrder(h: History, key: string)
    requires Timely(h)
    ensures Sorted(AdmittedTimes(h, key))
  {
    if h.Then? {
      AdmittedSorted(h, key, h.call.now);
    }
  }

  // ---- What a bucket has of the admitted history ----

  /** The times `b` are the last ones of `a`. */
  predicate EndOf(b: seq<real>, a: seq<real>) {
    |b| <= |a| && forall i :: 0 <= i < |b| ==> b[i] == a[|a| - |b| + i]
  }

  lemma EndOfEnd(c: seq<real>, b: seq<real>, a: seq<real>)
    requires EndOf(c, b) && EndOf(b, a)
    ensures EndOf(c, a)
  {
  }

  lemma EndPlus(b: seq<real>, a: seq<real>, x: real)
    requires EndOf(b, a)
    ensures EndOf(b + [x], a + [x])
  {
  }

  lemma SameEnd(b: seq<real>, c: seq<real>, a: seq<real>)
    requires EndOf(b, a) && EndOf(c, a)
    ensures b == c <==> |b| == |c|
  {
  }

  lemma EndSorted(b: seq<real>, a: seq<real>)
    requires EndOf(b, a) && Sorted(a)
    ensures Sorted(b)
  {
  }

  lemma {:induction false} PrunedIsEnd(s: seq<real>, start: real)
    ensures EndOf(Pruned(s, start), s)
    ensures forall i :: 0 <= i < |s| - |Pruned(s, start)| ==> s[i] <= start
    ensures Pruned(s, start) != [] ==> Pruned(s, start)[0] > start
  {
    if s != [] && s[0] <= start {
      PrunedIsEnd(s[1..], start);
      EndOfTail(Pruned(s[1..], start), s);
      forall i | 0 <= i < |s| - |Pruned(s, start)| ensures s[i] <= start {
        assert i > 0 ==> s[i] == s[1..][i - 1];
      }
    }
  }

  lemma EndOfTail(b: seq<real>, a: seq<real>)
    requires a != [] && EndOf(b, a[1..])
    ensures EndOf(b, a)
  {
  }

  lemma {:induction false} NewerIsEnd(s: seq<real>, start: real)
    requires Sorted(s)
    ensures EndOf(Newer(s, start), s)
    ensures forall i :: 0 <= i < |s| ==> (s[i] > start <==> i >= |s| - |Newer(s, start)|)
  {
    if s != [] {
      NewerIsEnd(s[1..], start);
      if s[0] > start {
        AllNewer(s, start);
      } else {
        EndOfTail(Newer(s[1..], start), s);
        forall i | 0 <= i < |s| ensures s[i] > start <==> i >= |s| - |Newer(s, start)| {
          assert i > 0 ==> s[i] == s[1..][i - 1];
        }
      }
    }
  }

  lemma {:induction false} AllNewer(s: seq<real>, start: real)
    requires forall i :: 0 <= i < |s| ==> s[i] > start
    ensures Newer(s, start) == s
  {
    if s != [] {
      AllNewer(s[1..], start);
    }
  }

  /** A bucket is always the end of the admitted history. */
  lemma {:induction false} BucketIsEnd(h: History, key: string)
    ensures EndOf(BucketOf(Run(h), key), AdmittedTimes(h, key))
  {
    if h.Then? {
      BucketIsEnd(h.before, key);
      if h.call.key == key {
        var a, b := AdmittedTimes(h.before, key), BucketOf(Run(h.before), key);
        var kept := Pruned(b, Cut(h.call.rule, h.call.now));
        PrunedIsEnd(b, Cut(h.call.rule, h.call.now));
        EndOfEnd(kept, b, a);
        EndPlus(kept, a, h.call.now);
      }
    }
  }

  /** What pruning leaves of an end of sorted times: all that is newer, as far as the end has it. */
  lemma PrunedOfEnd(a: seq<real>, b: seq<real>, start: real)
    requires Sorted(a) && EndOf(b, a)
    ensures |Pruned(b, start)| == Min(|b|, |Newer(a, start)|)
    ensures Pruned(b, start) == Newer(a, start) <==> |b| >= |Newer(a, start)|
  {
    var n, p := Newer(a, start), Pruned(b, start);
    NewerIsEnd(a, start);
    PrunedIsEnd(b, start);
    EndOfEnd(p, b, a);
    SameEnd(p, n, a);
    if p != [] {
      assert a[|a| - |p|] > start;
    }
    if |p| < |b| {
      assert a[|a| - |p| - 1] == b[|b| - |p| - 1];
    }
  }

  /** Of two moments, the later one leaves as many newer times as the earlier exactly if none lies between. */
  lemma NewerThanBoth(a: seq<real>, start: real, cut: real)
    requires Sorted(a)
    ensures |Newer(a, cut)| >= |Newer(a, start)| <==> forall t :: t in a ==> t <= start || t > cut
  {
    NewerIsEnd(a, start);
    NewerIsEnd(a, cut);
    var n, m := |Newer(a, start)|, |Newer(a, cut)|;
    if m < n {
      assert a[|a| - n] in a && a[|a| - n] > start && a[|a| - n] <= cut;
    }
  }

  /** A bucket has every admitted time newer than `start` exactly if no call has dropped one. */
  lemma {:induction false} NothingLostExactly(h: History, key: string, start: real)
    requires Timely(h)
    ensures NothingLost(h, key, start) <==> |BucketOf(Run(h), key)| >= |Newer(AdmittedTimes(h, key), start)|
  {
    if h.Then? {
      NothingLostExactly(h.before, key, start);
      if h.call.key == key {
        var a, b := AdmittedTimes(h.before, key), BucketOf(Run(h.before), key);
        var cut := Cut(h.call.rule, h.call.now);
        AdmittedSorted(h.before, key, h.call.now);
        BucketIsEnd(h.before, key);
        LossStep(a, b, start, cut, h.call.now);
      }
    }
  }

  /** What one call does to a bucket and to the admitted times. */
  lemma LossStep(a: seq<real>, b: seq<real>, start: real, cut: real, now: real)
    requires Sorted(a) && AtMost(a, now) && EndOf(b, a)
    ensures var kept := Pruned(b, cut);
            var spared := forall t :: t in a ==> t <= start || t > cut;
            && (|kept| >= |Newer(a, start)| <==> |b| >= |Newer(a, start)| && spared)
            && (|kept + [now]| >= |Newer(a + [now], start)| <==> |b| >= |Newer(a, start)| && spared)
  {
    PrunedOfEnd(a, b, cut);
    NewerThanBoth(a, start, cut);
    NewerOfAppend(a, now, start);
    NewerIsEnd(a, start);
    assert a != [] ==> a[|a| - 1] <= now;
  }

  /**
   * The part of a bucket newer than `start` is never more than the admitted history newer than
   * `start`, and is all of it exactly if no call so far has dropped any of that.
   */
  lemma BucketIsRecentHistory(h: History, key: string, start: real)
    requires Timely(h)
    ensures |Pruned(BucketOf(Run(h), key), start)| <= |Newer(AdmittedTimes(h, key), start)|
    ensures Pruned(BucketOf(Run(h), key), start) == Newer(AdmittedTimes(h, key), start) <==> NothingLost(h, key, start)
  {
    AdmittedInOrder(h, key);
    BucketIsEnd(h, key);
    PrunedOfEnd(AdmittedTimes(h, key), BucketOf(Run(h), key), start);
    NothingLostExactly(h, key, start);
  }

  lemma {:induction false} LongerWindowsKept(h: History, key: string, window: int, now: real)
    requires Timely(h) && WindowsAtLeast(h, key, window) && (h.Then? ==> h.call.now <= now)
    ensures NothingLost(h, key, now - window as real)
  {
    if h.Then? {
      LongerWindowsKept(h.before, key, window, now);
    }
  }

  /** If windows never grow, and so under one rule, no call looks back at times that were dropped. */
  lemma {:induction false} WindowsNeverGrowCovered(h: History, key: string)
    requires Timely(h) && WindowsNeverGrow(h, key)
    ensures Covered(h, key)
  {
    if h.Then? {
      WindowsNeverGrowCovered(h.before, key);
      if h.call.key == key {
        LongerWindowsKept(h.before, key, h.call.rule.windowSeconds, h.call.now);
      }
    }
  }

  /** The decision on a call for `key` at `now`, after the run, under a rule with this window and maximum. */
  function DecisionAfter(h: History, key: string, now: real, window: int, most: int): Decision {
    Decide(BucketOf(Run(h), key), now, Rule(most, window))
  }

  /** The decision that the admitted history calls for. */
  ghost predicate Right(d: Decision, inWindow: nat, most: int) {
    && (d.Admitted? <==> inWindow < most)
    && (d.Broken? <==> most <= inWindow == 0)
  }

  /** As many kept times are newer than the start of a window as admitted ones lie in it. */
  lemma KeptAreCounted(h: History, key: string, now: real, start: real)
    requires Timely(h) && (h.Then? ==> h.call.now <= now) && NothingLost(h, key, start)
    ensures |Pruned(BucketOf(Run(h), key), start)| == CountIn(AdmittedTimes(h, key), start, now)
  {
    BucketIsRecentHistory(h, key, start);
    AdmittedSorted(h, key, now);
    NewerAreCounted(AdmittedTimes(h, key), start, now);
  }

  lemma DecidedRight(h: History, key: string, now: real, window: int, most: int)
    requires Timely(h) && (h.Then? ==> h.call.now <= now) && NothingLost(h, key, now - window as real)
    ensures Right(DecisionAfter(h, key, now, window, most),
                  CountIn(AdmittedTimes(h, key), now - window as real, now), most)
  {
    KeptAreCounted(h, key, now, now - window as real);
    RightByCount(BucketOf(Run(h), key), now, window, most);
  }

  lemma RightByCount(bucket: seq<real>, now: real, window: int, most: int)
    ensures Right(Decide(bucket, now, Rule(most, window)), |Pruned(bucket, now - window as real)|, most)
  {
  }

  lemma DecidedWrong(h: History, key: string, now: real, window: int)
    requires Timely(h) && (h.Then? ==> h.call.now <= now) && !NothingLost(h, key, now - window as real)
    ensures var inWindow := CountIn(AdmittedTimes(h, key), now - window as real, now);
            !Right(DecisionAfter(h, key, now, window, inWindow), inWindow, inWindow)
  {
    var a, b := AdmittedTimes(h, key), BucketOf(Run(h), key);
    AdmittedSorted(h, key, now);
    NewerAreCounted(a, now - window as real, now);
    NothingLostExactly(h, key, now - window as real);
    BucketIsEnd(h, key);
    PrunedOfEnd(a, b, now - window as real);
  }

  /**
   * When the limiter decides by the calls admitted within the window, and so keeps every limit: for
   * every maximum if no call so far has dropped any of them, and otherwise not for every maximum.
   */
  lemma DecidesRightlyExactly(h: History, key: string, now: real, window: int)
    requires Timely(h) && (h.Then? ==> h.call.now <= now)
    ensures NothingLost(h, key, now - window as real) <==>
            forall most: int ::
              Right(DecisionAfter(h, key, now, window, most),
                    CountIn(AdmittedTimes(h, key), now - window as real, now), most)
  {
    if NothingLost(h, key, now - window as real) {
      forall most: int
        ensures Right(DecisionAfter(h, key, now, window, most),
                      CountIn(AdmittedTimes(h, key), now - window as real, now), most)
      {
        DecidedRight(h, key, now, window, most);
      }
    } else {
      DecidedWrong(h, key, now, window);
    }
  }

  /**
   * A call that looks back at nothing dropped is admitted exactly when its window holds fewer
   * admitted calls than the rule's maximum.
   */
  lemma AdmittedExactly(h: History)
    requires Timely(h) && h.Then? && NothingLost(h.before, h.call.key, Cut(h.call.rule, h.call.now))
    ensures var inWindow := CountIn(AdmittedTimes(h.before, h.call.key), Cut(h.call.rule, h.call.now), h.call.now);
            && (LastDecision(h).Admitted? <==> inWindow < h.call.rule.maxRequests)
            && (LastDecision(h).Broken? <==> h.call.rule.maxRequests <= inWindow == 0)
  {
    DecidedRight(h.before, h.call.key, h.call.now, h.call.rule.windowSeconds, h.call.rule.maxRequests);
  }

  /** Times `m` admissions apart are a window apart. */
  predicate Spaced(s: seq<real>, m: nat, window: real) {
    forall i, j :: 0 <= i < |s| && j == i + m && j < |s| ==> s[j] - s[i] >= window
  }

  /** Of times that are too new from index `m` on, no more than `m` are counted. */
  lemma {:induction false} CountInHead(s: seq<real>, m: nat, from: real, upTo: real)
    requires forall i :: m <= i < |s| ==> s[i] > upTo
    ensures CountIn(s, from, upTo) <= m
  {
    if s != [] {
      CountInHead(s[1..], if m > 0 then m - 1 else 0, from, upTo);
    }
  }

  lemma {:induction false} SpacedBoundsCount(s: seq<real>, m: nat, window: real, upTo: real)
    requires Sorted(s) && m >= 1 && Spaced(s, m, window)
    ensures CountIn(s, upTo - window, upTo) <= m
  {
    if s != [] {
      if s[0] <= upTo - window {
        SpacedTail(s, m, window);
        SpacedBoundsCount(s[1..], m, window, upTo);
      } else {
        forall i | m <= i < |s| ensures s[i] > upTo {
          assert s[m] - s[0] >= window;
        }
        CountInHead(s, m, upTo - window, upTo);
      }
    }
  }

  lemma SpacedTail(s: seq<real>, m: nat, window: real)
    requires s != [] && Sorted(s) && Spaced(s, m, window)
    ensures Sorted(s[1..]) && Spaced(s[1..], m, window)
  {
    forall i, j | 0 <= i < |s| - 1 && j == i + m && j < |s| - 1 ensures s[1..][j] - s[1..][i] >= window {
      assert s[j + 1] - s[i + 1] >= window;
    }
  }

  lemma {:induction false} AllCounted(s: seq<real>, k: nat, from: real, upTo: real)
    requires k <= |s| && (forall i :: k <= i < |s| ==> from < s[i] <= upTo)
    ensures CountIn(s, from, upTo) >= |s| - k
  {
    if s != [] {
      AllCounted(s[1..], if k > 0 then k - 1 else 0, from, upTo);
    }
  }

  lemma FewCountedSpaces(s: seq<real>, from: real, upTo: real, m: nat)
    requires Sorted(s) && AtMost(s, upTo) && CountIn(s, from, upTo) < m <= |s|
    ensures s[|s| - m] <= from
  {
    if s[|s| - m] > from {
      AllCounted(s, |s| - m, from, upTo);
    }
  }

  lemma SpacedAppend(s: seq<real>, x: real, m: nat, window: real)
    requires m >= 1 && Spaced(s, m, window) && (|s| >= m ==> x - s[|s| - m] >= window)
    ensures Spaced(s + [x], m, window)
  {
  }

  lemma AdmissionIsAWindowLater(h: History, window: int, most: int)
    requires Timely(h) && h.Then? && LastDecision(h).Admitted? && most >= 1
    requires Covered(h, h.call.key) && WindowsAtLeast(h, h.call.key, window) && MaximaAtMost(h, h.call.key, most)
    ensures var a := AdmittedTimes(h.before, h.call.key);
            |a| >= most ==> h.call.now - a[|a| - most] >= window as real
  {
    var a := AdmittedTimes(h.before, h.call.key);
    if |a| >= most {
      AdmittedExactly(h);
      AdmittedSorted(h.before, h.call.key, h.call.now);
      FewCountedSpaces(a, Cut(h.call.rule, h.call.now), h.call.now, most);
    }
  }

  lemma {:induction false} AdmittedSpaced(h: History, key: string, window: int, most: int)
    requires Timely(h) && Covered(h, key) && WindowsAtLeast(h, key, window) && MaximaAtMost(h, key, most) && most >= 1
    ensures Spaced(AdmittedTimes(h, key), most, window as real)
  {
    if h.Then? {
      AdmittedSpaced(h.before, key, window, most);
      if h.call.key == key && LastDecision(h).Admitted? {
        AdmissionIsAWindowLater(h, window, most);
        SpacedAppend(AdmittedTimes(h.before, key), h.call.now, most, window as real);
      }
    }
  }

  lemma {:induction false} NothingAdmitted(h: History, key: string, most: int)
    requires most <= 0 && MaximaAtMost(h, key, most)
    ensures AdmittedTimes(h, key) == []
  {
    if h.Then? {
      NothingAdmitted(h.before, key, most);
    }
  }

  /**
   * The rate limit over whole runs: no window `(T - window, T]`, wherever it lies, holds more
   * admitted calls of one key than the maximum. Calls may come under different rules, as long as
   * none of them looks back at an admitted time that a call under a shorter window has dropped.
   */
  lemma NoWindowOverLimit(h: History, key: string, window: int, most: int, upTo: real)
    requires Timely(h) && Covered(h, key) && WindowsAtLeast(h, key, window) && MaximaAtMost(h, key, most)
    ensures CountIn(AdmittedTimes(h, key), upTo - window as real, upTo) <= Max(0, most)
  {
    if most >= 1 {
      AdmittedInOrder(h, key);
      AdmittedSpaced(h, key, window, most);
      SpacedBoundsCount(AdmittedTimes(h, key), most, window as real, upTo);
    } else {
      NothingAdmitted(h, key, most);
    }
  }

  /** Under one rule the limit needs no further condition. */
  lemma OneRuleKeepsLimit(h: History, key: string, rule: Rule, upTo: real)
    requires Timely(h) && OnlyRule(h, key, rule)
    ensures Covered(h, key)
    ensures CountIn(AdmittedTimes(h, key), Cut(rule, upTo), upTo) <= Max(0, rule.maxRequests)
  {
    OneRuleNeverGrows(h, key, rule);
    WindowsNeverGrowCovered(h, key);
    NoWindowOverLimit(h, key, rule.windowSeconds, rule.maxRequests, upTo);
  }

  predicate OnlyRule(h: History, key: string, rule: Rule) {
    h.Then? ==> OnlyRule(h.before, key, rule) && (h.call.key == key ==> h.call.rule == rule)
  }

  lemma {:induction false} OneRuleNeverGrows(h: History, key: string, rule: Rule)
    requires OnlyRule(h, key, rule)
    ensures WindowsNeverGrow(h, key)
    ensures WindowsAtLeast(h, key, rule.windowSeconds) && MaximaAtMost(h, key, rule.maxRequests)
  {
    if h.Then? {
      OneRuleNeverGrows(h.before, key, rule);
    }
  }

  /**
   * A shorter window empties the bucket that a longer one relies on: two calls fill a limit of two
   * in ten seconds, a call under a limit of one in one second drops both, and a third call under the
   * longer window is admitted although its window holds three.
   */
  lemma ShorterWindowForgets(key: string)
    ensures var (long, short) := (Rule(2, 10), Rule(1, 1));
            var filled := Then(Then(Start, Call(key, long, 0.0)), Call(key, long, 1.0));
            var h := Then(Then(filled, Call(key, short, 5.0)), Call(key, long, 6.0));
            && Timely(h) && LastDecision(h).Admitted? && !Covered(h, key)
            && CountIn(AdmittedTimes(h.before, key), Cut(long, 6.0), 6.0) == 3
  {
    var (long, short) := (Rule(2, 10), Rule(1, 1));
    var first := Then(Start, Call(key, long, 0.0));
    var second := Then(first, Call(key, long, 1.0));
    var third := Then(second, Call(key, short, 5.0));
    AdmitsNext(Start, Call(key, long, 0.0), [], []);
    AdmitsNext(first, Call(key, long, 1.0), [0.0], [0.0]);
    assert [0.0, 1.0][1..] == [1.0] && [1.0][1..] == [] && [0.0] + [1.0] == [0.0, 1.0];
    AdmitsNext(second, Call(key, short, 5.0), [0.0, 1.0], []);
    AdmitsNext(third, Call(key, long, 6.0), [5.0], [5.0]);
    assert [0.0, 1.0] + [5.0] == [0.0, 1.0, 5.0];
    CountThree(0.0, 1.0, 5.0, -4.0, 6.0);
    assert AdmittedTimes(second, key)[1] == 1.0 && 1.0 in AdmittedTimes(second, key);
    assert !NothingLost(third, key, Cut(long, 6.0));
    assert Timely(first) && Timely(second) && Timely(third);
  }

  /** A call that finds room in its bucket. */
  lemma AdmitsNext(h: History, call: Call, bucket: seq<real>, kept: seq<real>)
    requires BucketOf(Run(h), call.key) == bucket && Pruned(bucket, Cut(call.rule, call.now)) == kept
    requires |kept| < call.rule.maxRequests
    ensures LastDecision(Then(h, call)).Admitted?
    ensures BucketOf(Run(Then(h, call)), call.key) == kept + [call.now]
    ensures AdmittedTimes(Then(h, call), call.key) == AdmittedTimes(h, call.key) + [call.now]
  {
  }

  lemma CountThree(x: real, y: real, z: real, from: real, upTo: real)
    requires from < x <= upTo && from < y <= upTo && from < z <= upTo
    ensures CountIn([x, y, z], from, upTo) == 3
  {
    assert [x, y, z][1..] == [y, z] && [y, z][1..] == [z] && [z][1..] == [];
    assert CountIn([z], from, upTo) == 1 && CountIn([y, z], from, upTo) == 2;
  }

  lemma CeilExact(x: real, n: int)
    ensures x <= n as real <==> Ceil(x) <= n
  {
  }

  /** No bucket ever holds more than the greatest maximum its key was called with. */
  lemma {:induction false} BucketNeverOverfull(h: History, key: string, most: int)
    requires MaximaAtMost(h, key, most)
    ensures |BucketOf(Run(h), key)| <= Max(0, most)
  {
    if h.Then? {
      BucketNeverOverfull(h.before, key, most);
    }
  }

  /** Of sorted times fewer than `m` are left exactly when all but `m - 1` of them are dropped. */
  lemma PrunedCount(s: seq<real>, start: real, m: nat)
    requires Sorted(s) && 1 <= m <= |s|
    ensures |Pruned(s, start)| < m <==> s[|s| - m] <= start
  {
    var p := Pruned(s, start);
    PrunedIsEnd(s, start);
    if |p| >= m {
      assert p[0] == s[|s| - |p|] <= s[|s| - m];
    }
  }

  /** What is left of the bucket of the last call when that call is decided. */
  function KeptAtLast(h: History): seq<real>
    requires h.Then?
  {
    Pruned(BucketOf(Run(h.before), h.call.key), Cut(h.call.rule, h.call.now))
  }

  /** The whole seconds until so many kept times have left the window that the caller has room. */
  function TrueWait(h: History): int
    requires h.Then? && 1 <= h.call.rule.maxRequests <= |KeptAtLast(h)|
  {
    var kept := KeptAtLast(h);
    WaitFor(kept[|kept| - h.call.rule.maxRequests], h.call.rule, h.call.now)
  }

  /** The refused caller tries again `n` whole seconds later, and no other call for its key comes between. */
  predicate AdmittedLater(h: History, n: nat)
    requires h.Then?
  {
    LastDecision(Then(h, Call(h.call.key, h.call.rule, h.call.now + n as real))).Admitted?
  }

  lemma BucketSorted(h: History, key: string)
    requires Timely(h)
    ensures Sorted(BucketOf(Run(h), key))
  {
    BucketIsEnd(h, key);
    AdmittedInOrder(h, key);
    EndSorted(BucketOf(Run(h), key), AdmittedTimes(h, key));
  }

  /** Whether the caller has room later, by what its refusal left in the bucket. */
  lemma RoomLater(h: History, n: nat)
    requires h.Then? && LastDecision(h).Refused?
    ensures KeptAtLast(h) != [] && h.call.rule.maxRequests <= |KeptAtLast(h)|
    ensures AdmittedLater(h, n) <==>
            |Pruned(KeptAtLast(h), Cut(h.call.rule, h.call.now + n as real))| < h.call.rule.maxRequests
  {
    assert BucketOf(Run(h), h.call.key) == KeptAtLast(h);
  }

  lemma KeptSorted(h: History)
    requires Timely(h) && h.Then? && LastDecision(h).Refused?
    ensures Sorted(KeptAtLast(h))
  {
    BucketSorted(h, h.call.key);
    assert BucketOf(Run(h), h.call.key) == KeptAtLast(h);
  }

  /** When so many of the kept times have left the window that there is room again. */
  lemma RoomAfter(kept: seq<real>, rule: Rule, now: real, n: nat)
    requires Sorted(kept) && 1 <= rule.maxRequests <= |kept| && n >= 1
    ensures |Pruned(kept, Cut(rule, now + n as real))| < rule.maxRequests <==>
            n >= WaitFor(kept[|kept| - rule.maxRequests], rule, now)
  {
    PrunedCount(kept, Cut(rule, now + n as real), rule.maxRequests);
    CeilExact(kept[|kept| - rule.maxRequests] + rule.windowSeconds as real - now, n);
  }

  /** A refused caller is admitted later exactly when the true waiting time is over; never, if its rule admits none. */
  lemma WaitExact(h: History, n: nat)
    requires Timely(h) && h.Then? && LastDecision(h).Refused? && n >= 1
    ensures AdmittedLater(h, n) <==> h.call.rule.maxRequests >= 1 && n >= TrueWait(h)
  {
    RoomLater(h, n);
    if h.call.rule.maxRequests >= 1 {
      KeptSorted(h);
      RoomAfter(KeptAtLast(h), h.call.rule, h.call.now, n);
    }
  }

  /**
   * When the announced `retry_after` is right, that is, the caller is admitted after `n` seconds
   * exactly when `n` is at least that number: if the kept time that must leave the window does so
   * within the same second as the oldest one, from which the number is computed.
   */
  lemma RetryAfterExact(h: History)
    requires Timely(h) && h.Then? && LastDecision(h).Refused?
    ensures (forall n: nat :: n >= 1 ==> (AdmittedLater(h, n) <==> n >= LastDecision(h).retryAfter)) <==>
            h.call.rule.maxRequests >= 1 && TrueWait(h) == LastDecision(h).retryAfter
  {
    var told := LastDecision(h).retryAfter;
    forall n: nat | n >= 1
      ensures AdmittedLater(h, n) <==> h.call.rule.maxRequests >= 1 && n >= TrueWait(h)
    {
      WaitExact(h, n);
    }
    if h.call.rule.maxRequests < 1 {
      assert !AdmittedLater(h, told) && told >= 1;
    } else {
      assert AdmittedLater(h, TrueWait(h));
      assert told < TrueWait(h) ==> !AdmittedLater(h, told);
    }
  }

  /** That is so if no call for the key before came under a greater maximum, and so under one rule. */
  lemma SameMaximumToldRight(h: History)
    requires h.Then? && h.call.rule.maxRequests >= 1 && LastDecision(h).Refused?
    requires MaximaAtMost(h.before, h.call.key, h.call.rule.maxRequests)
    ensures TrueWait(h) == LastDecision(h).retryAfter
  {
    KeptIsFull(h);
    OldestDecides(KeptAtLast(h), h.call.rule, h.call.now);
  }

  lemma KeptIsFull(h: History)
    requires h.Then? && h.call.rule.maxRequests >= 1 && LastDecision(h).Refused?
    requires MaximaAtMost(h.before, h.call.key, h.call.rule.maxRequests)
    ensures |KeptAtLast(h)| == h.call.rule.maxRequests
    ensures LastDecision(h) == Refused(WaitFor(KeptAtLast(h)[0], h.call.rule, h.call.now))
  {
    BucketNeverOverfull(h.before, h.call.key, h.call.rule.maxRequests);
  }

  lemma OldestDecides(kept: seq<real>, rule: Rule, now: real)
    requires |kept| == rule.maxRequests >= 1
    ensures WaitFor(kept[|kept| - rule.maxRequests], rule, now) == WaitFor(kept[0], rule, now)
  {
  }

  /**
   * After calls under a greater maximum the number can be too small: two calls, at 0 and 4, leave
   * no room for one in ten seconds; at 5 the caller is told 5 seconds, but must wait 9.
   */
  lemma GreaterMaximumToldWrong(key: string)
    ensures var (two, one) := (Rule(2, 10), Rule(1, 10));
            var filled := Then(Then(Start, Call(key, two, 0.0)), Call(key, two, 4.0));
            var h := Then(filled, Call(key, one, 5.0));
            Timely(h) && LastDecision(h) == Refused(5) && !AdmittedLater(h, 5) && AdmittedLater(h, 9)
  {
    var (two, one) := (Rule(2, 10), Rule(1, 10));
    var first := Then(Start, Call(key, two, 0.0));
    var filled := Then(first, Call(key, two, 4.0));
    var h := Then(filled, Call(key, one, 5.0));
    AdmitsNext(Start, Call(key, two, 0.0), [], []);
    AdmitsNext(first, Call(key, two, 4.0), [0.0], [0.0]);
    assert Timely(first) && Timely(filled);
    assert KeptAtLast(h) == [0.0] + [4.0];
    assert Ceil(5.0) == 5 && Ceil(9.0) == 9;
    WaitExact(h, 5);
    WaitExact(h, 9);
  }
}
