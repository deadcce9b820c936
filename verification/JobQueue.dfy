/** The in-memory background job queue: retries with backoff, and a dead-letter list. */
module JobQueue {
  import opened Text
  import Backoff

  /** What the queue asks of its retry policy. */
  datatype Policy = Policy(maxAttempts: int, delayForAttempt: int -> int)

  function PolicyOf(p: Backoff.RetryPolicy): Policy {
    Policy(p.maxAttempts, (attempt: int) => Backoff.JobDelay(p, attempt))
  }

  /** Job ids are the fresh uuids; payload and metadata play no part in scheduling. */
  datatype Envelope = Envelope(id: int, name: string, attempts: nat, availableAt: real)

  datatype Status = Succeeded | Retried | DeadLettered

  datatype JobResult = JobResult(jobId: int, name: string, status: Status, attempts: nat)

  datatype Queue = Queue(handlers: set<string>, pending: seq<Envelope>, deadLetter: seq<Envelope>)

  /** What one call of `run_next` meets: the clock, what the handler does, and the clock after it. */
  datatype Moment = Moment(now: real, handlerOk: bool, after: real)

  // ---- The operations on values ----

  function Enqueued(q: Queue, e: Envelope): Queue { q.(pending := q.pending + [e]) }

  function Requeued(policy: Policy, job: Envelope, after: real): Envelope {
    job.(attempts := job.attempts + 1, availableAt := after + policy.delayForAttempt(job.attempts + 2) as real)
  }

  predicate HeadReady(q: Queue, now: real) { q.pending != [] && q.pending[0].availableAt <= now }

  function Dispatch(policy: Policy, q: Queue, job: Envelope, m: Moment): (Queue, JobResult) {
    if job.name !in q.handlers then
      (q.(deadLetter := q.deadLetter + [job]), JobResult(job.id, job.name, DeadLettered, job.attempts))
    else
      var executing := job.(attempts := job.attempts + 1);
      if m.handlerOk then (q, JobResult(job.id, job.name, Succeeded, executing.attempts))
      else if executing.attempts >= policy.maxAttempts then
        (q.(deadLetter := q.deadLetter + [executing]), JobResult(job.id, job.name, DeadLettered, executing.attempts))
      else
        (q.(pending := q.pending + [Requeued(policy, job, m.after)]),
         JobResult(job.id, job.name, Retried, executing.attempts))
  }

  function RunNext(policy: Policy, q: Queue, m: Moment): (Queue, Option<JobResult>) {
    if !HeadReady(q, m.now) then (q, None)
    else
      var (after, result) := Dispatch(policy, q.(pending := q.pending[1..]), q.pending[0], m);
      (after, Some(result))
  }

  /** How often a handler may run. */
  function Limit(policy: Policy): int { if policy.maxAttempts < 1 then 1 else policy.maxAttempts }

  /** No pending job has used up its attempts. */
  predicate Bounded(policy: Policy, pending: seq<Envelope>) {
    forall e :: e in pending ==> e.attempts < Limit(policy)
  }

  /** The attempts that are left to the pending jobs. */
  function Work(policy: Policy, pending: seq<Envelope>): (w: nat)
    requires Bounded(policy, pending)
  {
    if pending == [] then 0
    else Limit(policy) - pending[0].attempts + Work(policy, pending[1..])
  }

  lemma {:induction false} WorkAppend(policy: Policy, pending: seq<Envelope>, e: Envelope)
    requires Bounded(policy, pending + [e])
    ensures Bounded(policy, pending)
    ensures Work(policy, pending + [e]) == Work(policy, pending) + Limit(policy) - e.attempts
  {
    assert forall x :: x in pending ==> x in pending + [e];
    if pending != [] {
      assert (pending + [e])[1..] == pending[1..] + [e];
      WorkAppend(policy, pending[1..], e);
    } else {
      assert pending + [e] == [e] && [e][1..] == [];
    }
  }

  /** Every call that runs a job leaves less work, whatever the handler does. */
  lemma RunNextWorks(policy: Policy, q: Queue, m: Moment)
    requires Bounded(policy, q.pending)
    ensures var (after, result) := RunNext(policy, q, m);
            && Bounded(policy, after.pending)
            && (result.Some? ==> Work(policy, after.pending) < Work(policy, q.pending))
  {
    if HeadReady(q, m.now) {
      var rest, job := q.pending[1..], q.pending[0];
      assert q.pending == [job] + rest;
      if RunNext(policy, q, m).1.value.status == Retried {
        WorkAppend(policy, rest, Requeued(policy, job, m.after));
      }
    }
  }

  /** What the calls of one drain meet, the k-th call at index k. */
  type Moments = nat -> Moment

  /** `run_all_available`: runs jobs until a call has none to run; `k` counts the calls made before. */
  function Drain(policy: Policy, q: Queue, ms: Moments, k: nat): (Queue, seq<JobResult>)
    requires Bounded(policy, q.pending)
    decreases Work(policy, q.pending)
  {
    RunNextWorks(policy, q, ms(k));
    var (after, result) := RunNext(policy, q, ms(k));
    match result
    case None => (q, [])
    case Some(r) =>
      var (end, more) := Drain(policy, after, ms, k + 1);
      (end, [r] + more)
  }

  /** One turn of draining: nothing to run, or a job and the draining of what it leaves. */
  lemma DrainTurn(policy: Policy, q: Queue, ms: Moments, k: nat)
    requires Bounded(policy, q.pending)
    ensures var (after, r) := RunNext(policy, q, ms(k));
            && Bounded(policy, after.pending)
            && (r.None? ==> Drain(policy, q, ms, k) == (q, []))
            && (r.Some? ==>
                 && Work(policy, after.pending) < Work(policy, q.pending)
                 && Drain(policy, q, ms, k)
                    == (Drain(policy, after, ms, k + 1).0, [r.value] + Drain(policy, after, ms, k + 1).1))
  {
    RunNextWorks(policy, q, ms(k));
  }

  /** What draining comes to, when `results` were collected before and `q` is left to drain. */
  ghost predicate LeftToDrain(policy: Policy, q: Queue, ms: Moments, results: seq<JobResult>,
                              whole: (Queue, seq<JobResult>))
    requires Bounded(policy, q.pending)
  {
    var (end, more) := Drain(policy, q, ms, |results|);
    whole == (end, results + more)
  }

  lemma DrainGoesOn(policy: Policy, q: Queue, ms: Moments, results: seq<JobResult>, whole: (Queue, seq<JobResult>))
    requires Bounded(policy, q.pending) && LeftToDrain(policy, q, ms, results, whole)
    ensures var (after, r) := RunNext(policy, q, ms(|results|));
            && Bounded(policy, after.pending)
            && (r.None? ==> whole == (q, results))
            && (r.Some? ==>
                 && Work(policy, after.pending) < Work(policy, q.pending)
                 && LeftToDrain(policy, after, ms, results + [r.value], whole))
  {
    var (after, r) := RunNext(policy, q, ms(|results|));
    DrainTurn(policy, q, ms, |results|);
    if r.Some? {
      var more := Drain(policy, after, ms, |results| + 1).1;
      assert results + ([r.value] + more) == results + [r.value] + more;
    } else {
      assert results + [] == results;
    }
  }

  /**
   * Draining ends for every clock and every handler outcome, after at most as many jobs as there
   * were attempts left, and exactly because the queue is empty or its head is still delayed.
   */
  lemma {:induction false} DrainEnds(policy: Policy, q: Queue, ms: Moments, k: nat)
    requires Bounded(policy, q.pending)
    ensures var (end, results) := Drain(policy, q, ms, k);
            && Bounded(policy, end.pending)
            && |results| + Work(policy, end.pending) <= Work(policy, q.pending)
            && (end.pending == [] || ms(k + |results|).now < end.pending[0].availableAt)
    decreases Work(policy, q.pending)
  {
    RunNextWorks(policy, q, ms(k));
    var (after, result) := RunNext(policy, q, ms(k));
    if result.Some? {
      DrainEnds(policy, after, ms, k + 1);
    }
  }

  // ---- The queue object ----

  class InMemoryBackgroundJobQueue {
    const policy: Policy
    var handlers: set<string>
    var pending: seq<Envelope>
    var deadLetter: seq<Envelope>

    function State(): Queue
      reads this
    {
      Queue(handlers, pending, deadLetter)
    }

    constructor (policy: Policy)
      ensures this.policy == policy && State() == Queue({}, [], [])
    {
      this.policy := policy;
      handlers, pending, deadLetter := {}, [], [];
    }

    method RegisterHandler(name: string)
      modifies this
      ensures State() == old(State()).(handlers := old(handlers) + {name})
    {
      handlers := handlers + {name};
    }

    /** `enqueue`, with the fresh id and the time of creation as parameters. */
    method Enqueue(id: int, name: string, createdAt: real) returns (e: Envelope)
      modifies this
      ensures e == Envelope(id, name, 0, createdAt)
      ensures State() == Enqueued(old(State()), e)
    {
      e := Envelope(id, name, 0, createdAt);
      pending := pending + [e];
    }

    method RunNextJob(m: Moment) returns (r: Option<JobResult>)
      modifies this
      ensures (State(), r) == RunNext(policy, old(State()), m)
    {
      if pending == [] {
        return None;
      }
      var job := pending[0];
      if job.availableAt > m.now {
        return None;
      }
      pending := pending[1..];
      var result := DispatchJob(job, m);
      return Some(result);
    }

    method DispatchJob(job: Envelope, m: Moment) returns (r: JobResult)
      modifies this
      ensures (State(), r) == Dispatch(policy, old(State()), job, m)
    {
      if job.name !in handlers {
        deadLetter := deadLetter + [job];
        return JobResult(job.id, job.name, DeadLettered, job.attempts);
      }
      var nextAttempt := job.attempts + 1;
      var executing := job.(attempts := nextAttempt);
      if m.handlerOk {
        return JobResult(executing.id, executing.name, Succeeded, nextAttempt);
      }
      if nextAttempt >= policy.maxAttempts {
        deadLetter := deadLetter + [executing];
        return JobResult(executing.id, executing.name, DeadLettered, nextAttempt);
      }
      var delay := policy.delayForAttempt(nextAttempt + 1);
      pending := pending + [executing.(availableAt := m.after + delay as real)];
      return JobResult(executing.id, executing.name, Retried, nextAttempt);
    }

    method RunAllAvailable(ms: Moments) returns (results: seq<JobResult>)
      requires Bounded(policy, pending)
      modifies this
      ensures (State(), results) == Drain(policy, old(State()), ms, 0)
    {
      results := [];
      ghost var whole := Drain(policy, State(), ms, 0);
      assert results + whole.1 == whole.1;
      while true
        invariant Bounded(policy, pending) && LeftToDrain(policy, State(), ms, results, whole)
        decreases Work(policy, pending)
      {
        DrainGoesOn(policy, State(), ms, results, whole);
        var result := RunNextJob(ms(|results|));
        if result.None? {
          break;
        }
        results := results + [result.value];
      }
    }
  }

  // ---- Whole runs ----

  datatype Event =
    | Register(name: string)
    | Enqueue(envelope: Envelope)
    | Run(moment: Moment)

  /** A run of the queue, the last event outermost. */
  datatype History = Start | Then(before: History, event: Event)

  function After(policy: Policy, h: History): Queue {
    match h
    case Start => Queue({}, [], [])
    case Then(before, event) =>
      var q := After(policy, before);
      match event
      case Register(name) => q.(handlers := q.handlers + {name})
      case Enqueue(e) => Enqueued(q, e)
      case Run(m) => RunNext(policy, q, m).0
  }

  /** The ids in the order in which the jobs were enqueued. */
  function Ids(h: History): seq<int> {
    match h
    case Start => []
    case Then(before, Enqueue(e)) => Ids(before) + [e.id]
    case Then(before, _) => Ids(before)
  }

  /** Every job is enqueued new, under an id of its own. */
  predicate FreshIds(h: History) {
    h.Then? ==>
      FreshIds(h.before)
      && (h.event.Enqueue? ==> h.event.envelope.attempts == 0 && h.event.envelope.id !in Ids(h.before))
  }

  /** The job that the last event hands to `_dispatch`, if it runs one. */
  function Dispatched(policy: Policy, h: History): Option<Envelope> {
    if h.Then? && h.event.Run? && HeadReady(After(policy, h.before), h.event.moment.now)
    then Some(After(policy, h.before).pending[0])
    else None
  }

  /** The job whose handler the last event calls, if it calls one. */
  function Handled(policy: Policy, h: History): Option<Envelope> {
    var job := Dispatched(policy, h);
    if job.Some? && job.value.name in After(policy, h.before).handlers then job else None
  }

  /** The ids of jobs dispatched for the first time, in order. */
  function FirstDispatches(policy: Policy, h: History): seq<int> {
    if h.Start? then []
    else match Dispatched(policy, h)
      case Some(job) =>
        FirstDispatches(policy, h.before) + if job.attempts == 0 then [job.id] else []
      case None => FirstDispatches(policy, h.before)
  }

  /** The ids of jobs that succeeded, each as often as it did. */
  function SucceededIds(policy: Policy, h: History): multiset<int> {
    if h.Start? then multiset{}
    else match Handled(policy, h)
      case Some(job) =>
        if h.event.moment.handlerOk then SucceededIds(policy, h.before) + multiset{job.id}
        else SucceededIds(policy, h.before)
      case None => SucceededIds(policy, h.before)
  }

  /** How often the handler of job `id` was called. */
  function HandlerRuns(policy: Policy, h: History, id: int): nat {
    if h.Start? then 0
    else match Handled(policy, h)
      case Some(job) => HandlerRuns(policy, h.before, id) + if job.id == id then 1 else 0
      case None => HandlerRuns(policy, h.before, id)
  }

  /** The clock reading after the last handler call of job `id`. */
  function LastRun(policy: Policy, h: History, id: int): Option<real> {
    if h.Start? then None
    else match Handled(policy, h)
      case Some(job) => if job.id == id then Some(h.event.moment.after) else LastRun(policy, h.before, id)
      case None => LastRun(policy, h.before, id)
  }

  function IdsOf(es: seq<Envelope>): multiset<int> {
    if es == [] then multiset{} else multiset{es[0].id} + IdsOf(es[1..])
  }

  function UntriedIds(es: seq<Envelope>): seq<int> {
    if es == [] then [] else IfUntried(es[0]) + UntriedIds(es[1..])
  }

  function IfUntried(e: Envelope): seq<int> { if e.attempts == 0 then [e.id] else [] }

  lemma {:induction false} IdsOfAppend(es: seq<Envelope>, e: Envelope)
    ensures IdsOf(es + [e]) == IdsOf(es) + multiset{e.id}
  {
    if es == [] {
      assert es + [e] == [e] && [e][1..] == [];
    } else {
      assert (es + [e])[1..] == es[1..] + [e];
      IdsOfAppend(es[1..], e);
    }
  }

  lemma {:induction false} UntriedIdsAppend(es: seq<Envelope>, e: Envelope)
    ensures UntriedIds(es + [e]) == UntriedIds(es) + IfUntried(e)
  {
    if es == [] {
      assert es + [e] == [e] && [e][1..] == [] && IfUntried(e) + [] == [] + IfUntried(e);
    } else {
      assert (es + [e])[1..] == es[1..] + [e];
      UntriedIdsAppend(es[1..], e);
      Regroup(IfUntried(es[0]), UntriedIds(es[1..]), IfUntried(e));
    }
  }

  lemma Regroup(a: seq<int>, b: seq<int>, c: seq<int>)
    ensures a + (b + c) == a + b + c
  {
  }

  /** The ids in the two lists of a queue, as a multiset. */
  function Held(q: Queue): multiset<int> { IdsOf(q.pending) + IdsOf(q.deadLetter) }

  lemma HeldGrows(q: Queue, e: Envelope)
    ensures Held(q.(pending := q.pending + [e])) == Held(q) + multiset{e.id}
    ensures Held(q.(deadLetter := q.deadLetter + [e])) == Held(q) + multiset{e.id}
  {
    IdsOfAppend(q.pending, e);
    IdsOfAppend(q.deadLetter, e);
  }

  lemma DispatchConserves(policy: Policy, q: Queue, job: Envelope, m: Moment)
    ensures var (after, result) := Dispatch(policy, q, job, m);
            && (result.status == Succeeded ==> after == q)
            && (result.status != Succeeded ==> Held(after) == Held(q) + multiset{job.id})
  {
    var kept := DispatchKeeps(policy, q, job, m);
    HeldGrows(q, kept);
  }

  /** A job that does not succeed goes to the end of one of the two lists, under its own id. */
  lemma DispatchKeeps(policy: Policy, q: Queue, job: Envelope, m: Moment) returns (kept: Envelope)
    ensures var (after, result) := Dispatch(policy, q, job, m);
            && kept.id == job.id
            && (result.status == Succeeded ==> after == q)
            && (result.status != Succeeded ==>
                 after == q.(pending := q.pending + [kept]) || after == q.(deadLetter := q.deadLetter + [kept]))
  {
    var (_, result) := Dispatch(policy, q, job, m);
    kept := if result.status == Retried then Requeued(policy, job, m.after)
            else if job.name in q.handlers then job.(attempts := job.attempts + 1)
            else job;
  }

  /** The ids that one more event reports as succeeded. */
  function NewlySucceeded(policy: Policy, h: History): multiset<int> {
    match Handled(policy, h)
    case Some(job) => if h.event.moment.handlerOk then multiset{job.id} else multiset{}
    case None => multiset{}
  }

  function NewIds(h: History): multiset<int> {
    if h.Then? && h.event.Enqueue? then multiset{h.event.envelope.id} else multiset{}
  }

  lemma RunConserves(policy: Policy, q: Queue, m: Moment)
    requires HeadReady(q, m.now)
    ensures var (after, r) := RunNext(policy, q, m);
            Held(q) == if r.value.status == Succeeded then Held(after) + multiset{q.pending[0].id} else Held(after)
  {
    var rest := q.(pending := q.pending[1..]);
    DispatchConserves(policy, rest, q.pending[0], m);
    assert Held(q) == Held(rest) + multiset{q.pending[0].id};
  }

  lemma {:induction false} EventConserves(policy: Policy, h: History)
    requires h.Then?
    ensures Held(After(policy, h.before)) + NewIds(h) == Held(After(policy, h)) + NewlySucceeded(policy, h)
  {
    var q := After(policy, h.before);
    match h.event
    case Register(_) =>
    case Enqueue(e) => HeldGrows(q, e);
    case Run(m) => RunEventConserves(policy, h, m);
  }

  lemma RunEventConserves(policy: Policy, h: History, m: Moment)
    requires h.Then? && h.event == Run(m)
    ensures Held(After(policy, h.before)) == Held(After(policy, h)) + NewlySucceeded(policy, h)
  {
    if HeadReady(After(policy, h.before), m.now) {
      RunConserves(policy, After(policy, h.before), m);
      SuccessReported(policy, h, m);
    }
  }

  lemma SuccessReported(policy: Policy, h: History, m: Moment)
    requires h.Then? && h.event == Run(m) && HeadReady(After(policy, h.before), m.now)
    ensures var q := After(policy, h.before);
            NewlySucceeded(policy, h) ==
            if RunNext(policy, q, m).1.value.status == Succeeded then multiset{q.pending[0].id} else multiset{}
  {
    assert Dispatched(policy, h) == Some(After(policy, h.before).pending[0]);
  }

  /** At every reachable state the enqueued jobs are divided up among pending, dead-lettered and succeeded. */
  lemma {:induction false} Conserved(policy: Policy, h: History)
    ensures multiset(Ids(h)) == Held(After(policy, h)) + SucceededIds(policy, h)
  {
    if h.Then? {
      Conserved(policy, h.before);
      EventConserves(policy, h);
      assert multiset(Ids(h)) == multiset(Ids(h.before)) + NewIds(h);
      assert SucceededIds(policy, h) == SucceededIds(policy, h.before) + NewlySucceeded(policy, h);
      Rebalance(Held(After(policy, h.before)), NewIds(h), Held(After(policy, h)), NewlySucceeded(policy, h),
                SucceededIds(policy, h.before));
    }
  }

  lemma Rebalance(a: multiset<int>, b: multiset<int>, c: multiset<int>, d: multiset<int>, s: multiset<int>)
    requires a + b == c + d
    ensures a + s + b == c + (s + d)
  {
    assert a + s + b == a + b + s;
    assert c + d + s == c + (s + d);
  }

  lemma {:induction false} IdsDistinct(h: History)
    requires FreshIds(h)
    ensures forall id :: id in Ids(h) ==> multiset(Ids(h))[id] == 1
  {
    if h.Then? {
      IdsDistinct(h.before);
    }
  }

  /** Each enqueued job is in exactly one of the three places. */
  lemma ExactlyOnePlace(policy: Policy, h: History, id: int)
    requires FreshIds(h) && id in Ids(h)
    ensures var q := After(policy, h);
            IdsOf(q.pending)[id] + IdsOf(q.deadLetter)[id] + SucceededIds(policy, h)[id] == 1
  {
    Conserved(policy, h);
    IdsDistinct(h);
  }

  /** First dispatches happen in the order of enqueueing:
      they are a prefix of it, and the rest still waits in that order. */
  lemma {:induction false} FirstDispatchesInOrder(policy: Policy, h: History)
    requires FreshIds(h)
    ensures FirstDispatches(policy, h) + UntriedIds(After(policy, h).pending) == Ids(h)
  {
    if h.Then? {
      FirstDispatchesInOrder(policy, h.before);
      var q := After(policy, h.before);
      if h.event.Enqueue? {
        UntriedIdsAppend(q.pending, h.event.envelope);
      } else if h.event.Run? && HeadReady(q, h.event.moment.now) {
        RunKeepsUntried(policy, q, h.event.moment);
      }
    }
  }

  lemma RunKeepsUntried(policy: Policy, q: Queue, m: Moment)
    requires HeadReady(q, m.now)
    ensures UntriedIds(q.pending)
         == (if q.pending[0].attempts == 0 then [q.pending[0].id] else []) + UntriedIds(RunNext(policy, q, m).0.pending)
  {
    UntriedIdsAppend(q.pending[1..], Requeued(policy, q.pending[0], m.after));
  }

  lemma {:induction false} IdsOfMembers(es: seq<Envelope>)
    ensures forall id :: id in IdsOf(es) <==> exists e :: e in es && e.id == id
  {
    if es != [] {
      IdsOfMembers(es[1..]);
      assert es == [es[0]] + es[1..];
    }
  }

  /** What holds of every pending job: its count of attempts, and when it may run again. */
  predicate Tracked(policy: Policy, h: History, e: Envelope) {
    && e.attempts == HandlerRuns(policy, h, e.id) < Limit(policy)
    && (e.attempts == 0 ==> LastRun(policy, h, e.id).None?)
    && (e.attempts > 0 ==>
          LastRun(policy, h, e.id) == Some(e.availableAt - policy.delayForAttempt(e.attempts + 1) as real))
  }

  /** Distinct jobs: no id stands at two places of the queue. */
  predicate DistinctIds(es: seq<Envelope>) { forall i, j :: 0 <= i < j < |es| ==> es[i].id != es[j].id }

  lemma {:induction false} CountsDistinct(es: seq<Envelope>)
    requires forall id :: IdsOf(es)[id] <= 1
    ensures DistinctIds(es)
  {
    if es != [] {
      var head, tail := es[0], es[1..];
      assert es == [head] + tail;
      assert IdsOf(es) == multiset{head.id} + IdsOf(tail);
      forall id ensures IdsOf(tail)[id] <= 1 {
        assert IdsOf(es)[id] <= 1;
      }
      CountsDistinct(tail);
      IdsOfMembers(tail);
      assert IdsOf(es)[head.id] <= 1;
      assert head.id !in IdsOf(tail);
      assert forall e :: e in tail ==> e.id in IdsOf(tail);
      forall i, j | 0 <= i < j < |es| ensures es[i].id != es[j].id {
        assert es[j] == tail[j - 1];
        assert i > 0 ==> es[i] == tail[i - 1];
      }
    }
  }

  lemma PartOfDistinct(whole: multiset<int>, part: multiset<int>, rest: multiset<int>)
    requires whole == part + rest && forall id :: id in whole ==> whole[id] == 1
    ensures forall id :: part[id] <= 1 && (id in part ==> id in whole)
  {
    forall id ensures part[id] <= 1 && (id in part ==> id in whole) {
      assert whole[id] == part[id] + rest[id];
    }
  }

  lemma PendingDistinct(policy: Policy, h: History)
    requires FreshIds(h)
    ensures DistinctIds(After(policy, h).pending)
    ensures forall e :: e in After(policy, h).pending ==> e.id in Ids(h)
  {
    Conserved(policy, h);
    IdsDistinct(h);
    var q := After(policy, h);
    PartOfDistinct(multiset(Ids(h)), IdsOf(q.pending),
                   IdsOf(q.deadLetter) + SucceededIds(policy, h));
    CountsDistinct(q.pending);
    IdsOfMembers(q.pending);
    forall e | e in q.pending ensures e.id in Ids(h) {
      assert e.id in IdsOf(q.pending);
    }
  }

  lemma {:induction false} NoRunsBeforeEnqueue(policy: Policy, h: History, id: int)
    requires FreshIds(h) && id !in Ids(h)
    ensures HandlerRuns(policy, h, id) == 0 && LastRun(policy, h, id).None?
  {
    if h.Then? {
      NoRunsBeforeEnqueue(policy, h.before, id);
      PendingDistinct(policy, h.before);
    }
  }

  lemma {:induction false} PendingTracked(policy: Policy, h: History)
    requires FreshIds(h)
    ensures forall e :: e in After(policy, h).pending ==> Tracked(policy, h, e)
  {
    if h.Then? {
      PendingTracked(policy, h.before);
      PendingDistinct(policy, h.before);
      forall e | e in After(policy, h).pending ensures Tracked(policy, h, e) {
        match h.event
        case Register(_) => assert e in After(policy, h.before).pending;
        case Enqueue(_) =>
          if e !in After(policy, h.before).pending {
            NoRunsBeforeEnqueue(policy, h.before, e.id);
          }
        case Run(m) => RunTracked(policy, h, m, e);
      }
    }
  }

  lemma RunTracked(policy: Policy, h: History, m: Moment, e: Envelope)
    requires h.Then? && h.event == Run(m) && e in After(policy, h).pending
    requires DistinctIds(After(policy, h.before).pending)
    requires forall x :: x in After(policy, h.before).pending ==> Tracked(policy, h.before, x)
    ensures Tracked(policy, h, e)
  {
    var q := After(policy, h.before);
    if HeadReady(q, m.now) {
      var job, rest := q.pending[0], q.pending[1..];
      assert q.pending == [job] + rest;
      assert job in q.pending && Tracked(policy, h.before, job);
      if e in rest {
        var i :| 0 <= i < |rest| && rest[i] == e;
        assert q.pending[i + 1].id != job.id;
        assert e in q.pending;
      } else {
        assert e == Requeued(policy, job, m.after);
      }
    } else {
      assert e in q.pending;
    }
  }

  lemma HandledTracked(policy: Policy, h: History)
    requires FreshIds(h)
    ensures Handled(policy, h).Some? ==> Tracked(policy, h.before, Handled(policy, h).value)
  {
    if Handled(policy, h).Some? {
      PendingTracked(policy, h.before);
      assert Handled(policy, h).value in After(policy, h.before).pending;
    }
  }

  /** No handler is ever called more often for one job than the policy allows, not even once if it allows none. */
  lemma {:induction false} HandlerRunsBounded(policy: Policy, h: History, id: int)
    requires FreshIds(h)
    ensures HandlerRuns(policy, h, id) <= Limit(policy)
  {
    if h.Then? {
      HandlerRunsBounded(policy, h.before, id);
      HandledTracked(policy, h);
    }
  }

  /** Between two handler calls of one job lies at least the policy's delay. */
  lemma RetriesWaitOutDelay(policy: Policy, h: History)
    requires FreshIds(h) && Handled(policy, h).Some? && Handled(policy, h).value.attempts > 0
    ensures var job := Handled(policy, h).value;
            var last := LastRun(policy, h.before, job.id);
            && last.Some?
            && h.event.moment.now >= last.value
                  + policy.delayForAttempt(HandlerRuns(policy, h.before, job.id) + 1) as real
  {
    HandledTracked(policy, h);
  }

  /** A dead-lettered job either had no handler when it was dispatched or has used up its attempts. */
  lemma DeadLettersExhausted(policy: Policy, h: History)
    requires FreshIds(h) && Handled(policy, h).Some?
    ensures var job := Handled(policy, h).value;
            |After(policy, h).deadLetter| > |After(policy, h.before).deadLetter| <==>
            !h.event.moment.handlerOk && HandlerRuns(policy, h, job.id) == Limit(policy)
  {
    HandledTracked(policy, h);
  }

  /** The same for the policy of the program: the waits between the calls of one job never get shorter. */
  lemma RetryWaitsGrow(p: Backoff.RetryPolicy, h: History)
    requires FreshIds(h) && Handled(PolicyOf(p), h).Some? && Handled(PolicyOf(p), h).value.attempts > 0
    requires p.multiplier >= 1.0 && p.baseDelay >= 0
    ensures var (policy, job) := (PolicyOf(p), Handled(PolicyOf(p), h).value);
            var wait := Backoff.JobDelay(p, job.attempts + 1);
            && LastRun(policy, h.before, job.id).Some?
            && h.event.moment.now >= LastRun(policy, h.before, job.id).value + wait as real
            && Backoff.JobDelay(p, job.attempts) <= wait <= Max(0, p.maxDelay)
  {
    RetriesWaitOutDelay(PolicyOf(p), h);
    HandledTracked(PolicyOf(p), h);
    var n := Handled(PolicyOf(p), h).value.attempts;
    Backoff.JobDelaysGrow(p, n, n + 1);
  }

  /** Every reachable queue can be drained. */
  lemma ReachableBounded(policy: Policy, h: History)
    requires FreshIds(h)
    ensures Bounded(policy, After(policy, h).pending)
  {
    PendingTracked(policy, h);
  }

  /** `run` is the last event of the run and what it returns. */
  predicate Returns(policy: Policy, h: History, r: JobResult) {
    h.Then? && h.event.Run? && RunNext(policy, After(policy, h.before), h.event.moment).1 == Some(r)
  }

  /**
   * A result tells the truth about the whole run: it is of the oldest pending job, which was due; the
   * attempts are the calls made of its handler so far; and it succeeded, waits at the end of the
   * queue or is dead-lettered as the result says, no other job being moved.
   */
  lemma ResultsTellTruth(policy: Policy, h: History, r: JobResult)
    requires FreshIds(h) && Returns(policy, h, r)
    ensures var (before, after) := (After(policy, h.before), After(policy, h));
            var rest := before.pending[1..];
            && r.jobId == before.pending[0].id && r.name == before.pending[0].name
            && before.pending[0].availableAt <= h.event.moment.now
            && r.attempts == HandlerRuns(policy, h, r.jobId)
            && HandlerRuns(policy, h, r.jobId)
               == HandlerRuns(policy, h.before, r.jobId) + (if r.name in before.handlers then 1 else 0)
            && (r.status == Succeeded <==> r.name in before.handlers && h.event.moment.handlerOk)
            && (r.status == Retried <==>
                r.name in before.handlers && !h.event.moment.handlerOk && r.attempts < policy.maxAttempts)
            && after.handlers == before.handlers
            && IsWith(rest, after.pending, r, r.status == Retried)
            && IsWith(before.deadLetter, after.deadLetter, r, r.status == DeadLettered)
  {
    var before := After(policy, h.before);
    PendingTracked(policy, h.before);
    assert before.pending[0] in before.pending && Tracked(policy, h.before, before.pending[0]);
  }

  /** `after` is `before`, followed by the job of result `r` if it was `added`. */
  predicate IsWith(before: seq<Envelope>, after: seq<Envelope>, r: JobResult, added: bool) {
    if !added then after == before
    else
      && |after| == |before| + 1 && after[..|before|] == before
      && after[|before|].id == r.jobId && after[|before|].name == r.name && after[|before|].attempts == r.attempts
  }

  /** A call that finds no job due changes nothing, and only such a call returns nothing. */
  lemma NothingDueExactly(policy: Policy, q: Queue, m: Moment)
    ensures var (after, r) := RunNext(policy, q, m);
            && (r.None? <==> q.pending == [] || m.now < q.pending[0].availableAt)
            && (r.None? ==> after == q)
  {
  }
}
