/** Signed requests: the timestamp window, and the nonce store that stops replays. */
module RequestSigning {
  import opened Text

  datatype Rule = Rule(allowedSkew: int, nonceTtl: int)

  /** The headers and parts of a request that its signature covers; an absent header is an empty text. */
  datatype Request = Request(verb: string, path: string, bodyHash: string,
                             keyId: string, timestamp: string, nonce: string, signature: string)

  /** The secret of a key id, and the keyed hash, which stays uninterpreted. */
  datatype Checker = Checker(secretOf: string -> Option<string>, mac: (string, string) -> string)

  datatype Verdict =
    | Accepted
    | MissingHeaders | InvalidTimestamp | StaleTimestamp | ReplayedNonce | UnknownKey | InvalidSignature

  // ---- The nonce store ----

  /** When each remembered nonce expires. */
  type Records = map<string, real>

  function Pruned(records: Records, now: real): Records { map k | k in records && records[k] > now :: records[k] }

  /** `mark`: drops what has expired, then remembers the nonce unless it is remembered already. */
  function Mark(records: Records, key: string, expiresAt: real, now: real): (Records, bool) {
    var kept := Pruned(records, now);
    if key in kept then (kept, false) else (kept[key := expiresAt], true)
  }

  class InMemoryRequestNonceStore {
    var records: Records

    constructor ()
      ensures records == map[]
    {
      records := map[];
    }

    method Prune(now: real)
      modifies this
      ensures records == Pruned(old(records), now)
    {
      var todo := records.Keys;
      while todo != {}
        invariant todo <= old(records).Keys
        invariant forall k :: k in records <==> k in old(records) && (k in todo || old(records)[k] > now)
        invariant forall k :: k in records ==> records[k] == old(records)[k]
        decreases todo
      {
        var key :| key in todo;
        if key in records && records[key] <= now {
          records := records - {key};
        }
        todo := todo - {key};
      }
    }

    method MarkNonce(key: string, expiresAt: real, now: real) returns (isNew: bool)
      modifies this
      ensures (records, isNew) == Mark(old(records), key, expiresAt, now)
    {
      Prune(now);
      if key in records {
        return false;
      }
      records := records[key := expiresAt];
      return true;
    }
  }

  // ---- The middleware ----

  function NonceKey(r: Request): string { (if r.keyId == "" then "default" else r.keyId) + ":" + r.nonce }

  function Canonical(r: Request): string {
    r.verb + "\n" + r.path + "\n" + r.timestamp + "\n" + r.nonce + "\n" + r.bodyHash
  }

  predicate HasHeaders(r: Request) { r.signature != "" && r.timestamp != "" && r.nonce != "" }

  function Abs(n: int): int { if n < 0 then -n else n }

  /** The timestamp `ts` passes the skew check when the clock shows `now`. */
  predicate Timestamped(rule: Rule, ts: int, now: real) { Abs(Truncate(now) - ts) <= rule.allowedSkew }

  /** The verdict on a request whose nonce was fresh. */
  function SignatureVerdict(c: Checker, r: Request): Verdict {
    match c.secretOf(r.keyId)
    case None => UnknownKey
    case Some(secret) =>
      if secret == "" then UnknownKey
      else if c.mac(Canonical(r), secret) != r.signature then InvalidSignature
      else Accepted
  }

  /** The clock is read for the skew check, and once more by the nonce store. */
  function Handle(rule: Rule, c: Checker, records: Records, r: Request, now: real, markedAt: real): (Records, Verdict) {
    if !HasHeaders(r) then (records, MissingHeaders)
    else match ParseInt(r.timestamp)
      case None => (records, InvalidTimestamp)
      case Some(ts) =>
        if !Timestamped(rule, ts, now) then (records, StaleTimestamp)
        else
          var (after, isNew) := Mark(records, NonceKey(r), now + rule.nonceTtl as real, markedAt);
          (after, if isNew then SignatureVerdict(c, r) else ReplayedNonce)
  }

  class RequestSigningMiddleware {
    const rule: Rule
    const checker: Checker
    const store: InMemoryRequestNonceStore

    constructor (rule: Rule, checker: Checker, store: InMemoryRequestNonceStore)
      ensures this.rule == rule && this.checker == checker && this.store == store
    {
      this.rule, this.checker, this.store := rule, checker, store;
    }

    method HandleRequest(r: Request, now: real, markedAt: real) returns (v: Verdict)
      modifies store
      ensures (store.records, v) == Handle(rule, checker, old(store.records), r, now, markedAt)
    {
      if r.signature == "" || r.timestamp == "" || r.nonce == "" {
        return MissingHeaders;
      }
      var requestTs := ParseInt(r.timestamp);
      if requestTs.None? {
        return InvalidTimestamp;
      }
      if Abs(Truncate(now) - requestTs.value) > rule.allowedSkew {
        return StaleTimestamp;
      }
      var isNew := store.MarkNonce(NonceKey(r), now + rule.nonceTtl as real, markedAt);
      if !isNew {
        return ReplayedNonce;
      }
      var secret := checker.secretOf(r.keyId);
      if secret.None? || secret.value == "" {
        return UnknownKey;
      }
      if checker.mac(Canonical(r), secret.value) != r.signature {
        return InvalidSignature;
      }
      return Accepted;
    }
  }

  // ---- Whole runs ----

  datatype Arrival = Arrival(request: Request, now: real, markedAt: real)

  /** A run of requests, the last one outermost. */
  datatype History = Start | Then(before: History, last: Arrival)

  function After(rule: Rule, c: Checker, h: History): Records {
    match h
    case Start => map[]
    case Then(before, a) => Handle(rule, c, After(rule, c, before), a.request, a.now, a.markedAt).0
  }

  function VerdictOn(rule: Rule, c: Checker, h: History): Verdict
    requires h.Then?
  {
    Handle(rule, c, After(rule, c, h.before), h.last.request, h.last.now, h.last.markedAt).1
  }

  /** The clock starts at or after zero, never runs back, and the store reads it at most `lag` later. */
  predicate Timely(h: History, lag: real) {
    h.Then? ==>
      && Timely(h.before, lag)
      && 0.0 <= h.last.now <= h.last.markedAt <= h.last.now + lag
      && (h.before.Then? ==> h.before.last.markedAt <= h.last.now)
  }

  /** The last request is accepted, with this key id, nonce and timestamp. */
  predicate Accepts(rule: Rule, c: Checker, h: History, key: string, ts: int) {
    && h.Then? && VerdictOn(rule, c, h) == Accepted
    && NonceKey(h.last.request) == key && ParseInt(h.last.request.timestamp) == Some(ts)
  }

  function Acceptances(rule: Rule, c: Checker, h: History, key: string, ts: int): nat {
    if h.Start? then 0
    else Acceptances(rule, c, h.before, key, ts) + if Accepts(rule, c, h, key, ts) then 1 else 0
  }

  /** The last request gets as far as remembering its nonce under `key`. */
  predicate Marks(rule: Rule, c: Checker, h: History, key: string) {
    && h.Then? && NonceKey(h.last.request) == key
    && VerdictOn(rule, c, h) in {Accepted, UnknownKey, InvalidSignature}
  }

  /** When the nonce of `key` was last remembered. */
  function LastMark(rule: Rule, c: Checker, h: History, key: string): Option<real> {
    if h.Start? then None
    else if Marks(rule, c, h, key) then Some(h.last.now)
    else LastMark(rule, c, h.before, key)
  }

  /**
   * A nonce is on record from when it is remembered until a store reading of the clock at or after
   * its expiry, and a recorded expiry is that of the last time it was remembered.
   */
  lemma {:induction false} RecordsLast(rule: Rule, c: Checker, h: History, lag: real, key: string)
    requires Timely(h, lag)
    ensures var (records, mark) := (After(rule, c, h), LastMark(rule, c, h, key));
            && (key in records ==> mark.Some? && records[key] == mark.value + rule.nonceTtl as real)
            && (mark.Some? && key !in records ==> h.Then? && h.last.markedAt >= mark.value + rule.nonceTtl as real)
  {
    if h.Then? {
      RecordsLast(rule, c, h.before, lag, key);
    }
  }

  /**
   * A request is refused as a replay exactly if its headers and timestamp pass and its nonce, once
   * remembered, has not expired; whether it is signed properly makes no difference, neither now nor
   * when the nonce was remembered.
   */
  lemma ReplayedExactly(rule: Rule, c: Checker, h: History, lag: real)
    requires Timely(h, lag) && h.Then?
    ensures var (r, mark) := (h.last.request, LastMark(rule, c, h.before, NonceKey(h.last.request)));
            VerdictOn(rule, c, h) == ReplayedNonce <==>
            && HasHeaders(r) && ParseInt(r.timestamp).Some?
            && Timestamped(rule, ParseInt(r.timestamp).value, h.last.now)
            && mark.Some? && h.last.markedAt < mark.value + rule.nonceTtl as real
  {
    RecordsLast(rule, c, h.before, lag, NonceKey(h.last.request));
  }

  // ---- When a request is accepted ----

  /** The nonce is on record, under the key id or `default`, when the store reads the clock at `markedAt`. */
  predicate OnRecord(rule: Rule, c: Checker, h: History, r: Request, markedAt: real) {
    var mark := LastMark(rule, c, h, (if r.keyId == "" then "default" else r.keyId) + ":" + r.nonce);
    mark.Some? && markedAt < mark.value + rule.nonceTtl as real
  }

  /** The signature is that of verb, path, timestamp, nonce and body hash, line by line, under the key's secret. */
  predicate ProperlySigned(c: Checker, r: Request) {
    var secret := c.secretOf(r.keyId);
    && secret.Some? && secret.value != ""
    && r.signature == c.mac(r.verb + "\n" + r.path + "\n" + r.timestamp + "\n" + r.nonce + "\n" + r.bodyHash,
                            secret.value)
  }

  /** In every run a request meets the checks in this order, and the first that fails decides. */
  lemma VerdictExactly(rule: Rule, c: Checker, h: History, lag: real)
    requires Timely(h, lag) && h.Then?
    ensures var (r, ts, secret) := (h.last.request, ParseInt(h.last.request.timestamp),
                                    c.secretOf(h.last.request.keyId));
            VerdictOn(rule, c, h) ==
            if r.signature == "" || r.timestamp == "" || r.nonce == "" then MissingHeaders
            else if ts.None? then InvalidTimestamp
            else if !(ts.value - rule.allowedSkew <= Truncate(h.last.now) <= ts.value + rule.allowedSkew)
            then StaleTimestamp
            else if OnRecord(rule, c, h.before, r, h.last.markedAt) then ReplayedNonce
            else if secret.None? || secret.value == "" then UnknownKey
            else if !ProperlySigned(c, r) then InvalidSignature
            else Accepted
  {
    RecordsLast(rule, c, h.before, lag, NonceKey(h.last.request));
  }

  /**
   * A request is accepted if and only if its headers are there, its timestamp is a number within the
   * skew, its nonce is not on record, and it is signed properly under a known secret.
   */
  lemma AcceptedExactly(rule: Rule, c: Checker, h: History, lag: real)
    requires Timely(h, lag) && h.Then?
    ensures var (r, ts) := (h.last.request, ParseInt(h.last.request.timestamp));
            VerdictOn(rule, c, h) == Accepted <==>
            && r.signature != "" && r.timestamp != "" && r.nonce != ""
            && ts.Some? && ts.value - rule.allowedSkew <= Truncate(h.last.now) <= ts.value + rule.allowedSkew
            && !OnRecord(rule, c, h.before, r, h.last.markedAt)
            && ProperlySigned(c, r)
  {
    VerdictExactly(rule, c, h, lag);
  }

  predicate OneLine(s: string) { '\n' !in s }

  lemma {:induction false} FirstLine(a: string, x: string, b: string, y: string)
    requires OneLine(a) && OneLine(b) && a + "\n" + x == b + "\n" + y
    ensures a == b && x == y
  {
    var (s, t) := (a + "\n" + x, b + "\n" + y);
    assert s[0] == (if a == "" then '\n' else a[0]) && t[0] == (if b == "" then '\n' else b[0]);
    assert s[1..] == (if a == "" then x else a[1..] + "\n" + x);
    assert t[1..] == (if b == "" then y else b[1..] + "\n" + y);
    if a != "" && b != "" {
      FirstLine(a[1..], x, b[1..], y);
      assert a == [a[0]] + a[1..] && b == [b[0]] + b[1..];
    }
  }

  predicate OneLineFields(r: Request) {
    OneLine(r.verb) && OneLine(r.path) && OneLine(r.timestamp) && OneLine(r.nonce)
  }

  lemma SameFields(r: Request, q: Request)
    requires OneLineFields(r) && OneLineFields(q) && Canonical(r) == Canonical(q)
    ensures r.verb == q.verb && r.path == q.path && r.timestamp == q.timestamp && r.nonce == q.nonce
    ensures r.bodyHash == q.bodyHash
  {
    var (r4, q4) := (r.nonce + "\n" + r.bodyHash, q.nonce + "\n" + q.bodyHash);
    var (r3, q3) := (r.timestamp + "\n" + r4, q.timestamp + "\n" + q4);
    var (r2, q2) := (r.path + "\n" + r3, q.path + "\n" + q3);
    Nested(r.verb, r.path, r.timestamp, r.nonce, r.bodyHash);
    Nested(q.verb, q.path, q.timestamp, q.nonce, q.bodyHash);
    FirstLine(r.verb, r2, q.verb, q2);
    FirstLine(r.path, r3, q.path, q3);
    FirstLine(r.timestamp, r4, q.timestamp, q4);
    FirstLine(r.nonce, r.bodyHash, q.nonce, q.bodyHash);
  }

  lemma Nested(a: string, b: string, c: string, d: string, e: string)
    ensures a + "\n" + b + "\n" + c + "\n" + d + "\n" + e
         == a + "\n" + (b + "\n" + (c + "\n" + (d + "\n" + e)))
  {
  }

  /**
   * What is signed cannot be changed: if no two texts have the same hash under one secret, two
   * requests accepted in whatever runs with the same secret and the same signature agree in every
   * field that the signature covers.
   */
  lemma TamperEvident(rule: Rule, c: Checker, h: History, g: History)
    requires h.Then? && VerdictOn(rule, c, h) == Accepted && g.Then? && VerdictOn(rule, c, g) == Accepted
    requires forall x, y, k :: c.mac(x, k) == c.mac(y, k) ==> x == y
    requires c.secretOf(h.last.request.keyId) == c.secretOf(g.last.request.keyId)
    requires h.last.request.signature == g.last.request.signature
    requires OneLineFields(h.last.request) && OneLineFields(g.last.request)
    ensures var (r, q) := (h.last.request, g.last.request);
            && r.verb == q.verb && r.path == q.path && r.timestamp == q.timestamp
            && r.nonce == q.nonce && r.bodyHash == q.bodyHash
  {
    var (r, q) := (h.last.request, g.last.request);
    var secret := c.secretOf(r.keyId).value;
    assert c.mac(Canonical(r), secret) == c.mac(Canonical(q), secret);
    SameFields(r, q);
  }

  // ---- The replay bound ----

  /** Whatever was accepted under `key` was remembered then or later. */
  lemma {:induction false} AcceptedWasMarked(rule: Rule, c: Checker, h: History, lag: real, key: string, ts: int)
    returns (at: real)
    requires Timely(h, lag) && Acceptances(rule, c, h, key, ts) > 0
    ensures Timestamped(rule, ts, at) && 0.0 <= at
    ensures LastMark(rule, c, h, key).Some? && at <= LastMark(rule, c, h, key).value <= h.last.now
  {
    if Accepts(rule, c, h, key, ts) {
      at := h.last.now;
    } else {
      at := AcceptedWasMarked(rule, c, h.before, lag, key, ts);
    }
  }

  /** The first moment of a clock that starts at zero at which the timestamp `ts` may pass. */
  function Opens(rule: Rule, ts: int): int { Max(0, ts - rule.allowedSkew) }

  /** How long the timestamp `ts` passes, if it does at all; twice the skew and a second unless cut off at zero. */
  function Span(rule: Rule, ts: int): int { ts + rule.allowedSkew + 1 - Opens(rule, ts) }

  lemma PassesWithinSpan(rule: Rule, ts: int, now: real)
    requires 0.0 <= now
    ensures Timestamped(rule, ts, now) <==> Opens(rule, ts) as real <= now < (Opens(rule, ts) + Span(rule, ts)) as real
    ensures ts >= rule.allowedSkew ==> Span(rule, ts) == 2 * rule.allowedSkew + 1
    ensures Span(rule, ts) <= 2 * rule.allowedSkew + 1
  {
    assert Truncate(now) as real <= now < (Truncate(now) + 1) as real;
  }

  /** An accepted request was not accepted before, if the nonce outlives every moment at which its timestamp passes. */
  lemma AcceptedIsFirst(rule: Rule, c: Checker, h: History, lag: real, key: string, ts: int)
    requires Timely(h, lag) && Accepts(rule, c, h, key, ts)
    requires rule.nonceTtl as real >= Span(rule, ts) as real + lag
    ensures Acceptances(rule, c, h.before, key, ts) == 0
  {
    if Acceptances(rule, c, h.before, key, ts) > 0 {
      var at := AcceptedWasMarked(rule, c, h.before, lag, key, ts);
      RecordsLast(rule, c, h.before, lag, key);
      PassesWithinSpan(rule, ts, at);
      PassesWithinSpan(rule, ts, h.last.now);
      assert false;
    }
  }

  lemma {:induction false} LongLifeAdmitsOne(rule: Rule, c: Checker, h: History, lag: real, key: string, ts: int)
    requires Timely(h, lag)
    requires rule.nonceTtl as real >= Span(rule, ts) as real + lag
    ensures Acceptances(rule, c, h, key, ts) <= 1
  {
    if h.Then? {
      LongLifeAdmitsOne(rule, c, h.before, lag, key, ts);
      if Accepts(rule, c, h, key, ts) {
        AcceptedIsFirst(rule, c, h, lag, key, ts);
      }
    }
  }

  /**
   * The replay bound: if the nonce lives at least twice the skew, a second and the lag between the
   * two readings of the clock, no request is accepted twice in any run.
   */
  lemma NoReplay(rule: Rule, c: Checker, h: History, lag: real, key: string, ts: int)
    requires Timely(h, lag)
    requires rule.nonceTtl as real >= (2 * rule.allowedSkew + 1) as real + lag
    ensures Acceptances(rule, c, h, key, ts) <= 1
  {
    PassesWithinSpan(rule, ts, 0.0);
    LongLifeAdmitsOne(rule, c, h, lag, key, ts);
  }

  /** Two arrivals of one request: as early as its timestamp allows, and once the nonce has expired. */
  function TwoArrivals(rule: Rule, r: Request, ts: int, lag: real): History {
    var first, ttl := Opens(rule, ts) as real, rule.nonceTtl as real;
    var again := first + if ttl > lag then ttl - lag else 0.0;
    Then(Then(Start, Arrival(r, first, first)), Arrival(r, again, if first + ttl > again then first + ttl else again))
  }

  /**
   * The bound is exact for every properly signed request whose timestamp can pass at all: the second
   * of the two arrivals is accepted as well if and only if the nonce lives any shorter than that.
   */
  lemma ShorterLifeAdmitsTwo(rule: Rule, c: Checker, r: Request, ts: int, lag: real)
    requires lag >= 0.0 && rule.allowedSkew >= 0 && ts + rule.allowedSkew >= 0
    requires HasHeaders(r) && SignatureVerdict(c, r) == Accepted && ParseInt(r.timestamp) == Some(ts)
    ensures var h := TwoArrivals(rule, r, ts, lag);
            && Timely(h, lag)
            && (rule.nonceTtl as real < Span(rule, ts) as real + lag <==>
                Acceptances(rule, c, h, NonceKey(r), ts) == 2)
  {
    var h := TwoArrivals(rule, r, ts, lag);
    var key, expiry := NonceKey(r), h.before.last.now + rule.nonceTtl as real;
    PassesWithinSpan(rule, ts, h.before.last.now);
    PassesWithinSpan(rule, ts, h.last.now);
    assert Accepts(rule, c, h.before, key, ts);
    assert Acceptances(rule, c, Start, key, ts) == 0;
    assert Acceptances(rule, c, h.before, key, ts) == 1;
    if rule.nonceTtl as real < Span(rule, ts) as real + lag {
      var records := After(rule, c, h.before);
      assert records == map[key := expiry];
      assert Pruned(records, h.last.markedAt) == map[];
    } else {
      LongLifeAdmitsOne(rule, c, h, lag, key, ts);
    }
  }

  lemma {:induction false} ImpossibleTimestamp(rule: Rule, c: Checker, h: History, lag: real, key: string, ts: int)
    requires Timely(h, lag) && (rule.allowedSkew < 0 || ts + rule.allowedSkew < 0)
    ensures Acceptances(rule, c, h, key, ts) == 0
  {
    if h.Then? {
      ImpossibleTimestamp(rule, c, h.before, lag, key, ts);
      PassesWithinSpan(rule, ts, h.last.now);
    }
  }

  /**
   * When a properly signed request can be accepted twice: exactly when its timestamp can pass at all
   * and the nonce may expire, up to the lag, before the timestamp does.
   */
  lemma ReplayableExactly(rule: Rule, c: Checker, r: Request, ts: int, lag: real)
    requires lag >= 0.0
    requires HasHeaders(r) && SignatureVerdict(c, r) == Accepted && ParseInt(r.timestamp) == Some(ts)
    ensures (exists h :: Timely(h, lag) && Acceptances(rule, c, h, NonceKey(r), ts) >= 2) <==>
            && rule.allowedSkew >= 0 && ts + rule.allowedSkew >= 0
            && rule.nonceTtl as real < Span(rule, ts) as real + lag
  {
    if exists h :: Timely(h, lag) && Acceptances(rule, c, h, NonceKey(r), ts) >= 2 {
      var h :| Timely(h, lag) && Acceptances(rule, c, h, NonceKey(r), ts) >= 2;
      if rule.allowedSkew < 0 || ts + rule.allowedSkew < 0 {
        ImpossibleTimestamp(rule, c, h, lag, NonceKey(r), ts);
      } else if rule.nonceTtl as real >= Span(rule, ts) as real + lag {
        LongLifeAdmitsOne(rule, c, h, lag, NonceKey(r), ts);
      }
    }
    if rule.allowedSkew >= 0 && ts + rule.allowedSkew >= 0 {
      ShorterLifeAdmitsTwo(rule, c, r, ts, lag);
    }
  }
}
