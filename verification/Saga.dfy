/** The saga orchestrator of generated projects: steps in order, and compensation backwards after a failure. */
module Saga {
  import opened Text

  /** What a step does to the business state: the state it leaves, and the message of the exception if it raises. */
  datatype Effect<S> = Effect(state: S, raised: Option<string>)

  datatype Step<!S> = Step(name: string, execute: S -> Effect<S>, compensate: S -> Effect<S>)

  datatype Status = Succeeded | Failed | Compensated

  datatype Kind = Started | StepExecuted(step: string) | StepCompensated(step: string) | Finished(status: Status)

  /** An entry of the state store: the saga's name and id, and what happened. */
  datatype Event = Event(saga: string, id: string, kind: Kind)

  datatype SagaResult = SagaResult(status: Status, executed: seq<string>,
                                   compensated: seq<string>, error: Option<string>)

  // ---- The two passes as functions ----

  /** How far the steps from index `k` on get: the state, the index reached, and the error that stopped them. */
  function Execute<S>(steps: seq<Step<S>>, k: nat, s: S): (r: (S, nat, Option<string>))
    requires k <= |steps|
    ensures k <= r.1 <= |steps|
    decreases |steps| - k
  {
    if k == |steps| then (s, k, None)
    else
      var e := steps[k].execute(s);
      if e.raised.Some? then (e.state, k, e.raised) else Execute(steps, k + 1, e.state)
  }

  /** Offers compensation to steps `k-1` down to 0: the state, and the names of those that compensated, in order. */
  function CompensateDown<S>(steps: seq<Step<S>>, k: nat, s: S): (S, seq<string>)
    requires k <= |steps|
  {
    if k == 0 then (s, [])
    else
      var e := steps[k - 1].compensate(s);
      var (end, names) := CompensateDown(steps, k - 1, e.state);
      (end, (if e.raised.None? then [steps[k - 1].name] else []) + names)
  }

  function Names<S>(steps: seq<Step<S>>, n: nat): seq<string>
    requires n <= |steps|
  {
    if n == 0 then [] else Names(steps, n - 1) + [steps[n - 1].name]
  }

  function ExecutedKinds(names: seq<string>): seq<Kind> {
    if names == [] then [] else ExecutedKinds(names[..|names| - 1]) + [StepExecuted(names[|names| - 1])]
  }

  function CompensatedKinds(names: seq<string>): seq<Kind> {
    if names == [] then [] else CompensatedKinds(names[..|names| - 1]) + [StepCompensated(names[|names| - 1])]
  }

  lemma KindsAppend(names: seq<string>, name: string)
    ensures ExecutedKinds(names + [name]) == ExecutedKinds(names) + [StepExecuted(name)]
    ensures CompensatedKinds(names + [name]) == CompensatedKinds(names) + [StepCompensated(name)]
  {
    assert (names + [name])[..|names|] == names;
  }

  lemma Join<T>(a: seq<T>, b: seq<T>, c: seq<T>)
    ensures a + (b + c) == a + b + c
  {
  }

  function Stamp(saga: string, id: string, kinds: seq<Kind>): (es: seq<Event>)
    ensures |es| == |kinds|
  {
    if kinds == [] then [] else Stamp(saga, id, kinds[..|kinds| - 1]) + [Event(saga, id, kinds[|kinds| - 1])]
  }

  /** The result of a run, the business state it leaves, and what it logs. */
  function Outcome<S>(steps: seq<Step<S>>, s: S): (SagaResult, S, seq<Kind>) {
    var (reached, n, error) := Execute(steps, 0, s);
    var executed := Names(steps, n);
    if error.None? then
      (SagaResult(Succeeded, executed, [], None), reached, [Started] + ExecutedKinds(executed) + [Finished(Succeeded)])
    else
      var (end, compensated) := CompensateDown(steps, n, reached);
      var status := if compensated != [] then Compensated else Failed;
      (SagaResult(status, executed, compensated, error), end,
       [Started] + ExecutedKinds(executed) + CompensatedKinds(compensated) + [Finished(status)])
  }

  class SagaOrchestrator {
    /** The in-memory state store. */
    var events: seq<Event>

    constructor ()
      ensures events == []
    {
      events := [];
    }

    method Log(saga: string, id: string, kind: Kind, ghost kinds: seq<Kind>, ghost start: seq<Event>)
      requires events == start + Stamp(saga, id, kinds)
      modifies this
      ensures events == start + Stamp(saga, id, kinds + [kind])
    {
      assert (kinds + [kind])[..|kinds|] == kinds;
      events := events + [Event(saga, id, kind)];
    }

    method Run<S>(saga: string, id: string, steps: seq<Step<S>>, initial: S) returns (r: SagaResult, state: S)
      modifies this
      ensures (r, state, events) ==
              (Outcome(steps, initial).0, Outcome(steps, initial).1,
               old(events) + Stamp(saga, id, Outcome(steps, initial).2))
    {
      ghost var start := events;
      ghost var kinds: seq<Kind> := [];
      var executed: seq<string> := [];
      var error := None;
      state := initial;
      assert start + [] == start;
      Log(saga, id, Started, kinds, start);
      kinds := [Started];
      var n := 0;
      while n < |steps|
        invariant 0 <= n <= |steps|
        invariant Execute(steps, 0, initial) == Execute(steps, n, state)
        invariant executed == Names(steps, n)
        invariant kinds == [Started] + ExecutedKinds(executed)
        invariant events == start + Stamp(saga, id, kinds)
        invariant error == None
      {
        var e := steps[n].execute(state);
        state := e.state;
        if e.raised.Some? {
          error := e.raised;
          break;
        }
        Log(saga, id, StepExecuted(steps[n].name), kinds, start);
        KindsAppend(executed, steps[n].name);
        Join([Started], ExecutedKinds(executed), [StepExecuted(steps[n].name)]);
        kinds := kinds + [StepExecuted(steps[n].name)];
        executed := executed + [steps[n].name];
        n := n + 1;
      }
      if error.None? {
        Log(saga, id, Finished(Succeeded), kinds, start);
        return SagaResult(Succeeded, executed, [], None), state;
      }
      var compensated: seq<string>;
      state, compensated := Compensate(saga, id, steps, n, state, kinds, start);
      kinds := kinds + CompensatedKinds(compensated);
      var status := if compensated != [] then Compensated else Failed;
      Log(saga, id, Finished(status), kinds, start);
      return SagaResult(status, executed, compensated, error), state;
    }

    method LogCompensated(saga: string, id: string, name: string, ghost names: seq<string>,
                          ghost kinds: seq<Kind>, ghost start: seq<Event>)
      requires events == start + Stamp(saga, id, kinds + CompensatedKinds(names))
      modifies this
      ensures events == start + Stamp(saga, id, kinds + CompensatedKinds(names + [name]))
    {
      KindsAppend(names, name);
      Join(kinds, CompensatedKinds(names), [StepCompensated(name)]);
      Log(saga, id, StepCompensated(name), kinds + CompensatedKinds(names), start);
    }

    /** The loop over the executed steps, last first. */
    method Compensate<S>(saga: string, id: string, steps: seq<Step<S>>, n: nat, reached: S,
                         ghost kinds: seq<Kind>, ghost start: seq<Event>) returns (state: S, names: seq<string>)
      requires n <= |steps| && events == start + Stamp(saga, id, kinds)
      modifies this
      ensures (state, names) == CompensateDown(steps, n, reached)
      ensures events == start + Stamp(saga, id, kinds + CompensatedKinds(names))
    {
      state, names := reached, [];
      var k := n;
      ghost var whole := CompensateDown(steps, n, reached);
      assert [] + whole.1 == whole.1;
      assert kinds + CompensatedKinds(names) == kinds;
      while k > 0
        invariant 0 <= k <= n
        invariant whole == (CompensateDown(steps, k, state).0, names + CompensateDown(steps, k, state).1)
        invariant events == start + Stamp(saga, id, kinds + CompensatedKinds(names))
      {
        k := k - 1;
        var e := steps[k].compensate(state);
        ghost var rest := CompensateDown(steps, k, e.state).1;
        if e.raised.None? {
          var name := steps[k].name;
          Join(names, [name], rest);
          LogCompensated(saga, id, name, names, kinds, start);
          names := names + [name];
        } else {
          assert [] + rest == rest;
        }
        state := e.state;
      }
      assert names + [] == names;
    }
  }

  // ---- What a run means ----

  /** Step `n` is the first to raise: the steps before it succeed one after another. */
  lemma {:induction false} FailsAtFirst<S>(steps: seq<Step<S>>, k: nat, s: S)
    requires k <= |steps|
    ensures var (reached, n, error) := Execute(steps, k, s);
            && k <= n <= |steps|
            && (error.None? <==> n == |steps|)
            && StateBefore(steps, k, n, s).Some?
            && (error.Some? ==>
                 steps[n].execute(StateBefore(steps, k, n, s).value) == Effect(reached, error))
            && (error.None? ==> StateBefore(steps, k, n, s).value == reached)
    decreases |steps| - k
  {
    if k < |steps| {
      var e := steps[k].execute(s);
      if e.raised.None? {
        FailsAtFirst(steps, k + 1, e.state);
      }
    }
  }

  /** The state after steps `k` to `n-1`, if none of them raises. */
  function StateBefore<S>(steps: seq<Step<S>>, k: nat, n: nat, s: S): Option<S>
    requires k <= n <= |steps|
    decreases n - k
  {
    if k == n then Some(s)
    else
      var e := steps[k].execute(s);
      if e.raised.Some? then None else StateBefore(steps, k + 1, n, e.state)
  }

  /** Offered in state `s`, the compensations of steps `k-1` down to 0 all succeed. */
  predicate AllCompensate<S>(steps: seq<Step<S>>, k: nat, s: S)
    requires k <= |steps|
  {
    k == 0 || (steps[k - 1].compensate(s).raised.None? && AllCompensate(steps, k - 1, steps[k - 1].compensate(s).state))
  }

  function Reversed(s: seq<string>): seq<string> {
    if s == [] then [] else [s[|s| - 1]] + Reversed(s[..|s| - 1])
  }

  lemma {:induction false} CompensatedCount<S>(steps: seq<Step<S>>, k: nat, s: S)
    requires k <= |steps|
    ensures var names := CompensateDown(steps, k, s).1;
            && |names| <= k
            && (|names| == k <==> AllCompensate(steps, k, s))
            && (AllCompensate(steps, k, s) ==> names == Reversed(Names(steps, k)))
  {
    if k > 0 {
      CompensatedCount(steps, k - 1, steps[k - 1].compensate(s).state);
      assert Names(steps, k)[..k - 1] == Names(steps, k - 1) by { NamesLength(steps, k - 1); }
      NamesLength(steps, k);
    }
  }

  lemma {:induction false} NamesLength<S>(steps: seq<Step<S>>, n: nat)
    requires n <= |steps|
    ensures |Names(steps, n)| == n && forall i :: 0 <= i < n ==> Names(steps, n)[i] == steps[i].name
  {
    if n > 0 {
      NamesLength(steps, n - 1);
    }
  }

  lemma {:induction false} ReversedLength(s: seq<string>)
    ensures |Reversed(s)| == |s|
  {
    if s != [] {
      ReversedLength(s[..|s| - 1]);
    }
  }

  /**
   * The verdict of a run: success exactly when no step raises; otherwise the steps before the first
   * that does are offered compensation backwards, every one of them compensates exactly when the
   * result lists them all in reverse, and the status is `Compensated` as soon as one did.
   */
  lemma VerdictExactly<S>(steps: seq<Step<S>>, s: S)
    ensures var (r, _, kinds) := Outcome(steps, s);
            var (reached, n, error) := Execute(steps, 0, s);
            && (r.status == Succeeded <==> n == |steps|)
            && r.executed == Names(steps, n)
            && (n < |steps| ==>
                 && r.error == error && error.Some?
                 && (r.compensated == Reversed(r.executed) <==> AllCompensate(steps, n, reached))
                 && (r.status == Compensated <==> r.compensated != []))
            && kinds == [Started] + ExecutedKinds(r.executed) + CompensatedKinds(r.compensated) + [Finished(r.status)]
  {
    var (reached, n, error) := Execute(steps, 0, s);
    FailsAtFirst(steps, 0, s);
    CompensatedCount(steps, n, reached);
    NamesLength(steps, n);
    ReversedLength(Names(steps, n));
    if error.None? {
      assert CompensatedKinds([]) == [];
      assert [Started] + ExecutedKinds(Names(steps, n)) + [] == [Started] + ExecutedKinds(Names(steps, n));
    }
  }

  // ---- Every executed step is offered compensation ----

  /**
   * The states in which the steps `n-1` down to 0 are offered compensation, one after another, each
   * in what the one before left, whether that raised or not; and the state after the last.
   */
  predicate OfferedIn<S(==)>(steps: seq<Step<S>>, n: nat, states: seq<S>, reached: S, end: S)
    requires n <= |steps|
  {
    && |states| == n + 1 && states[0] == reached && states[n] == end
    && forall j :: 0 <= j < n ==> states[j + 1] == steps[n - 1 - j].compensate(states[j]).state
  }

  /** The names of those of the steps `n-1` down to 0 that do not raise in the state of their offer. */
  function NotRaising<S>(steps: seq<Step<S>>, n: nat, states: seq<S>): seq<string>
    requires n <= |steps| && |states| == n + 1
  {
    if n == 0 then []
    else
      (if steps[n - 1].compensate(states[0]).raised.None? then [steps[n - 1].name] else [])
      + NotRaising(steps, n - 1, states[1..])
  }

  lemma {:induction false} CompensationTrace<S>(steps: seq<Step<S>>, k: nat, s: S) returns (states: seq<S>)
    requires k <= |steps|
    ensures var (end, names) := CompensateDown(steps, k, s);
            OfferedIn(steps, k, states, s, end) && names == NotRaising(steps, k, states)
  {
    if k == 0 {
      states := [s];
    } else {
      var later := CompensationTrace(steps, k - 1, steps[k - 1].compensate(s).state);
      states := [s] + later;
      assert states[1..] == later;
      forall j | 0 <= j < k ensures states[j + 1] == steps[k - 1 - j].compensate(states[j]).state {
        assert states[j + 1] == later[j];
        assert j > 0 ==> states[j] == later[j - 1];
      }
    }
  }

  /**
   * After a failure every executed step is offered compensation, the last one first, in the state the
   * offers before it left; the run ends in the state after the last offer, and lists those that did
   * not raise.
   */
  lemma EveryStepOffered<S>(steps: seq<Step<S>>, s: S) returns (states: seq<S>)
    requires Outcome(steps, s).0.status != Succeeded
    ensures var ((r, end, _), (reached, n, _)) := (Outcome(steps, s), Execute(steps, 0, s));
            && n < |steps| && OfferedIn(steps, n, states, reached, end)
            && r.compensated == NotRaising(steps, n, states)
  {
    var (reached, n, _) := Execute(steps, 0, s);
    FailsAtFirst(steps, 0, s);
    states := CompensationTrace(steps, n, reached);
  }

  /** The start, the executed steps, those that compensated, and the end. */
  predicate LoggedAs(r: SagaResult, kinds: seq<Kind>) {
    var (n, m) := (|r.executed|, |r.compensated|);
    && |kinds| == n + m + 2
    && kinds[0] == Started && kinds[n + m + 1] == Finished(r.status)
    && (forall i :: 0 <= i < n ==> kinds[i + 1] == StepExecuted(r.executed[i]))
    && (forall j :: 0 <= j < m ==> kinds[n + 1 + j] == StepCompensated(r.compensated[j]))
  }

  /** The log, entry by entry. */
  lemma LoggedInOrder<S>(steps: seq<Step<S>>, s: S)
    ensures LoggedAs(Outcome(steps, s).0, Outcome(steps, s).2)
  {
    VerdictExactly(steps, s);
    LogOf(Outcome(steps, s).0, Outcome(steps, s).2);
  }

  lemma LogOf(r: SagaResult, kinds: seq<Kind>)
    requires kinds
          == [Started] + ExecutedKinds(r.executed) + CompensatedKinds(r.compensated) + [Finished(r.status)]
    ensures LoggedAs(r, kinds)
  {
    KindsOfNames(r.executed);
    KindsOfNames(r.compensated);
    Places(r, kinds, ExecutedKinds(r.executed), CompensatedKinds(r.compensated));
  }

  lemma Places(r: SagaResult, kinds: seq<Kind>, a: seq<Kind>, b: seq<Kind>)
    requires kinds == [Started] + a + b + [Finished(r.status)]
    requires |a| == |r.executed| && |b| == |r.compensated|
    requires forall i :: 0 <= i < |a| ==> a[i] == StepExecuted(r.executed[i])
    requires forall j :: 0 <= j < |b| ==> b[j] == StepCompensated(r.compensated[j])
    ensures LoggedAs(r, kinds)
  {
  }

  lemma {:induction false} KindsOfNames(names: seq<string>)
    ensures |ExecutedKinds(names)| == |names| == |CompensatedKinds(names)|
    ensures forall i :: 0 <= i < |names| ==> ExecutedKinds(names)[i] == StepExecuted(names[i])
    ensures forall i :: 0 <= i < |names| ==> CompensatedKinds(names)[i] == StepCompensated(names[i])
  {
    if names != [] {
      KindsOfNames(names[..|names| - 1]);
    }
  }

  /** Every entry carries the name and the id of its saga. */
  lemma {:induction false} StampedInOrder(saga: string, id: string, kinds: seq<Kind>)
    ensures forall i :: 0 <= i < |kinds| ==> Stamp(saga, id, kinds)[i] == Event(saga, id, kinds[i])
  {
    if kinds != [] {
      StampedInOrder(saga, id, kinds[..|kinds| - 1]);
    }
  }

  // ---- When a failed run restores the state ----

  /** In the run from `s`, the compensation of step `i` takes the state after the step back to the one before it. */
  predicate Undone<S(==)>(steps: seq<Step<S>>, i: nat, s: S)
    requires i < |steps|
  {
    var (before, after) := (StateBefore(steps, 0, i, s), StateBefore(steps, 0, i + 1, s));
    before.Some? && after.Some? && steps[i].compensate(after.value) == Effect(before.value, None)
  }

  lemma {:induction false} CompensationUnwinds<S>(steps: seq<Step<S>>, n: nat, s: S, before: S)
    requires n <= |steps| && StateBefore(steps, 0, n, s) == Some(before)
    requires forall i :: 0 <= i < n ==> Undone(steps, i, s)
    ensures CompensateDown(steps, n, before).0 == s && AllCompensate(steps, n, before)
  {
    if n > 0 {
      assert Undone(steps, n - 1, s);
      CompensationUnwinds(steps, n - 1, s, StateBefore(steps, 0, n - 1, s).value);
    }
  }

  /**
   * If in the states that the run reaches every executed step is undone by its compensation and the
   * failing step changes nothing, then a failed run leaves the business state as it was, and lists
   * every executed step as compensated.
   */
  lemma FailedSagaRestores<S>(steps: seq<Step<S>>, s: S)
    requires var (reached, n, error) := Execute(steps, 0, s);
             && (forall i :: 0 <= i < n ==> Undone(steps, i, s))
             && StateBefore(steps, 0, n, s) == Some(reached)
    ensures var (r, end, _) := Outcome(steps, s);
            r.status != Succeeded ==> end == s && r.compensated == Reversed(r.executed)
  {
    var (reached, n, error) := Execute(steps, 0, s);
    CompensationUnwinds(steps, n, s, reached);
    CompensatedCount(steps, n, reached);
  }

  /** A step on a counter. */
  function Adding(name: string, n: int, raised: Option<string>, undoRaised: Option<string>): Step<int> {
    Step(name, (x: int) => Effect(if raised.Some? then x else x + n, raised),
         (x: int) => Effect(if undoRaised.Some? then x else x - n, undoRaised))
  }

  /** The status can be `Compensated` with a step left as it is: here the first, whose compensation raises. */
  lemma CompensatedInPart()
    ensures var steps := [Adding("reserve", 1, None, Some("busy")), Adding("charge", 10, None, None),
                          Adding("ship", 100, Some("lost"), None)];
            var (r, end, _) := Outcome(steps, 0);
            && r == SagaResult(Compensated, ["reserve", "charge"], ["charge"], Some("lost"))
            && end == 1
  {
    var steps := [Adding("reserve", 1, None, Some("busy")), Adding("charge", 10, None, None),
                  Adding("ship", 100, Some("lost"), None)];
    assert Execute(steps, 2, 11) == (11, 2, Some("lost"));
    assert Execute(steps, 1, 1) == (11, 2, Some("lost"));
    assert Execute(steps, 0, 0) == (11, 2, Some("lost"));
    var none: seq<string> := [];
    assert none + none == none && ["charge"] + none == ["charge"];
    assert CompensateDown(steps, 0, 1) == (1, []);
    assert CompensateDown(steps, 1, 1) == (1, []);
    assert CompensateDown(steps, 2, 11) == (1, ["charge"]);
    assert Names(steps, 1) == ["reserve"] && Names(steps, 2) == ["reserve", "charge"];
  }

  /** A compensation that raises does not stop the others: here the first one offered does. */
  lemma CompensationGoesOn()
    ensures var steps := [Adding("reserve", 1, None, None), Adding("charge", 10, None, Some("busy")),
                          Adding("ship", 100, Some("lost"), None)];
            var (r, end, _) := Outcome(steps, 0);
            && r == SagaResult(Compensated, ["reserve", "charge"], ["reserve"], Some("lost"))
            && end == 10
  {
    var steps := [Adding("reserve", 1, None, None), Adding("charge", 10, None, Some("busy")),
                  Adding("ship", 100, Some("lost"), None)];
    assert Execute(steps, 2, 11) == (11, 2, Some("lost"));
    assert Execute(steps, 1, 1) == (11, 2, Some("lost"));
    assert Execute(steps, 0, 0) == (11, 2, Some("lost"));
    var none: seq<string> := [];
    assert none + ["reserve"] == ["reserve"] && ["reserve"] + none == ["reserve"];
    assert CompensateDown(steps, 0, 10) == (10, []);
    assert CompensateDown(steps, 1, 11) == (10, ["reserve"]);
    assert CompensateDown(steps, 2, 11) == (10, ["reserve"]);
    assert Names(steps, 1) == ["reserve"] && Names(steps, 2) == ["reserve", "charge"];
  }
}
