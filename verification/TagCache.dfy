/** A cache with expiry, and the wrapper that adds invalidation by tag and by prefix. */
module TagCache {
  import opened Text
  import opened TwoWayIndex

  datatype Entry<V> = Entry(value: V, expiresAt: Option<real>)

  predicate Expired<V>(e: Entry<V>, now: real) { e.expiresAt.Some? && e.expiresAt.value <= now }

  predicate Live<V>(entries: map<string, Entry<V>>, key: string, now: real) {
    key in entries && !Expired(entries[key], now)
  }

  function ExpiryOf(ttl: Option<real>, now: real): Option<real> {
    if ttl.Some? then Some(now + ttl.value) else None
  }

  /** `_entries.pop(key, None)`. */
  function Without<V>(m: map<string, V>, keys: set<string>): map<string, V> { m - keys }

  class MemoryCacheProvider<V(0)> {
    var entries: map<string, Entry<V>>

    constructor ()
      ensures entries == map[]
    {
      entries := map[];
    }

    method Get(key: string, now: real) returns (r: Option<V>)
      modifies this
      ensures r == if Live(old(entries), key, now) then Some(old(entries)[key].value) else None
      ensures entries == if key in old(entries) && Expired(old(entries)[key], now) then Without(old(entries), {key})
                         else old(entries)
    {
      if key !in entries {
        return None;
      }
      var entry := entries[key];
      if Expired(entry, now) {
        entries := entries - {key};
        return None;
      }
      return Some(entry.value);
    }

    method Set(key: string, value: V, ttl: Option<real>, now: real)
      modifies this
      ensures entries == old(entries)[key := Entry(value, ExpiryOf(ttl, now))]
    {
      var expiresAt := None;
      if ttl.Some? {
        expiresAt := Some(now + ttl.value);
      }
      entries := entries[key := Entry(value, expiresAt)];
    }

    method Delete(key: string) returns (deleted: bool)
      modifies this
      ensures deleted == (key in old(entries)) && entries == Without(old(entries), {key})
    {
      deleted := key in entries;
      entries := entries - {key};
    }
  }

  // ---- What the wrapper does, with one index only ----

  /** The stored entries, the keys the wrapper knows, and the tags recorded for each key. */
  datatype Cache<V> = Cache(entries: map<string, Entry<V>>, known: set<string>, tags: map<string, set<string>>)

  function NormalTag(tag: string): string { Lower(Strip(tag)) }

  function NormalTags(tags: seq<string>): set<string> {
    set t | t in tags && Strip(t) != "" :: NormalTag(t)
  }

  function TagsOf<V>(c: Cache<V>, key: string): set<string> { if key in c.tags then c.tags[key] else {} }

  function Written<V>(c: Cache<V>, key: string, value: V, tags: seq<string>, ttl: Option<real>, now: real): Cache<V> {
    var plain := Without(c.tags, {key});
    Cache(c.entries[key := Entry(value, ExpiryOf(ttl, now))], c.known + {key},
          if NormalTags(tags) == {} then plain else plain[key := NormalTags(tags)])
  }

  function Fetched<V>(c: Cache<V>, key: string, now: real): Cache<V> {
    if key in c.entries && Expired(c.entries[key], now) then c.(entries := Without(c.entries, {key})) else c
  }

  /** Only keys that are stored, expired or not, lose their index entries. */
  function Removed<V>(c: Cache<V>, keys: set<string>): Cache<V> {
    var stored := keys * c.entries.Keys;
    Cache(Without(c.entries, keys), c.known - stored, Without(c.tags, stored))
  }

  function KeysTagged<V>(c: Cache<V>, tag: string): set<string> { set k | k in c.tags && tag in c.tags[k] }

  function KeysPrefixed<V>(c: Cache<V>, prefix: string): set<string> { set k | k in c.known && prefix <= k }

  function TagInvalidated<V>(c: Cache<V>, tag: string): Cache<V> {
    if NormalTag(tag) == "" then c else Removed(c, KeysTagged(c, NormalTag(tag)))
  }

  function PrefixInvalidated<V>(c: Cache<V>, prefix: string): Cache<V> {
    if Strip(prefix) == "" then c else Removed(c, KeysPrefixed(c, Strip(prefix)))
  }

  function PrefixesInvalidated<V>(c: Cache<V>, prefixes: seq<string>): Cache<V> {
    if prefixes == [] then c
    else PrefixInvalidated(PrefixesInvalidated(c, prefixes[..|prefixes| - 1]), prefixes[|prefixes| - 1])
  }

  // ---- The wrapper object and its two indexes ----

  class AdvancedCacheProvider<V(0)> {
    const delegate: MemoryCacheProvider<V>
    var knownKeys: set<string>
    var tagsToKeys: map<string, set<string>>
    var keysToTags: map<string, set<string>>

    ghost predicate Valid()
      reads this
    {
      Mirror(tagsToKeys, keysToTags)
    }

    function State(): Cache<V>
      reads this, delegate
    {
      Cache(delegate.entries, knownKeys, keysToTags)
    }

    constructor (delegate: MemoryCacheProvider<V>)
      ensures Valid() && this.delegate == delegate && State() == Cache(delegate.entries, {}, map[])
    {
      this.delegate := delegate;
      knownKeys, tagsToKeys, keysToTags := {}, map[], map[];
    }

    method Get(key: string, now: real) returns (r: Option<V>)
      requires Valid()
      modifies delegate
      ensures Valid() && State() == Fetched(old(State()), key, now)
      ensures r == if Live(old(delegate.entries), key, now) then Some(old(delegate.entries)[key].value) else None
    {
      r := delegate.Get(key, now);
    }

    method DetachKeyFromTags(key: string)
      requires Valid()
      modifies this`tagsToKeys, this`keysToTags
      ensures Valid() && keysToTags == Without(old(keysToTags), {key})
    {
      var tags := if key in keysToTags then keysToTags[key] else {};
      keysToTags := keysToTags - {key};
      var todo := tags;
      while todo != {}
        invariant todo <= tags
        invariant keysToTags == Without(old(keysToTags), {key})
        invariant forall t, k :: Related(tagsToKeys, t, k) <==>
                                 Related(old(tagsToKeys), t, k) && !(k == key && t in tags - todo)
        invariant NoEmptySets(tagsToKeys)
        decreases todo
      {
        var tag :| tag in todo;
        DiscardRelates(tagsToKeys, tag, key);
        tagsToKeys := Discard(tagsToKeys, tag, key);
        todo := todo - {tag};
      }
      forall t, k ensures Related(tagsToKeys, t, k) <==> Related(keysToTags, k, t) {
        assert Related(old(tagsToKeys), t, k) <==> Related(old(keysToTags), k, t);
      }
    }

    method Set(key: string, value: V, ttl: Option<real>, now: real)
      requires Valid()
      modifies this, delegate
      ensures Valid() && State() == Written(old(State()), key, value, [], ttl, now)
    {
      knownKeys := knownKeys + {key};
      DetachKeyFromTags(key);
      delegate.Set(key, value, ttl, now);
    }

    method SetWithTags(key: string, value: V, tags: seq<string>, ttl: Option<real>, now: real)
      requires Valid()
      modifies this, delegate
      ensures Valid() && State() == Written(old(State()), key, value, tags, ttl, now)
    {
      var normalized := Normalize(tags);
      Set(key, value, ttl, now);
      if normalized != [] {
        AttachTags(key, normalized);
        assert normalized[0] in SetOf(normalized);
      } else {
        assert SetOf(normalized) == {};
      }
    }

    /** The loop of `set_with_tags` over normalised tags. */
    method AttachTags(key: string, tags: seq<string>)
      requires Valid() && key !in keysToTags && tags != []
      modifies this`tagsToKeys, this`keysToTags
      ensures Valid() && keysToTags == old(keysToTags)[key := SetOf(tags)]
    {
      keysToTags := keysToTags[key := {}];
      assert SetOf(tags[..0]) == {};
      for i := 0 to |tags|
        invariant keysToTags == old(keysToTags)[key := SetOf(tags[..i])]
        invariant forall t, k :: Related(tagsToKeys, t, k) <==>
                                 Related(old(tagsToKeys), t, k) || (k == key && t in SetOf(tags[..i]))
        invariant NoEmptySets(tagsToKeys)
      {
        assert tags[..i + 1] == tags[..i] + [tags[i]];
        assert SetOf(tags[..i + 1]) == SetOf(tags[..i]) + {tags[i]};
        InsertRelates(tagsToKeys, tags[i], key);
        tagsToKeys := Insert(tagsToKeys, tags[i], key);
        keysToTags := keysToTags[key := keysToTags[key] + {tags[i]}];
      }
      assert tags[..|tags|] == tags;
      assert tags[0] in SetOf(tags);
      forall t, k ensures Related(tagsToKeys, t, k) <==> Related(keysToTags, k, t) {
        assert Related(old(tagsToKeys), t, k) <==> Related(old(keysToTags), k, t);
      }
    }

    method Delete(key: string) returns (deleted: bool)
      requires Valid()
      modifies this, delegate
      ensures Valid() && State() == Removed(old(State()), {key}) && deleted == (key in old(delegate.entries))
    {
      deleted := delegate.Delete(key);
      if deleted {
        knownKeys := knownKeys - {key};
        DetachKeyFromTags(key);
        assert {key} * old(delegate.entries).Keys == {key};
      } else {
        assert {key} * old(delegate.entries).Keys == {};
      }
    }

    method InvalidateKeys(keys: set<string>) returns (deleted: nat)
      requires Valid()
      modifies this, delegate
      ensures Valid() && State() == Removed(old(State()), keys)
      ensures deleted == |keys * old(delegate.entries).Keys|
    {
      deleted := 0;
      var todo := keys;
      ghost var start, done: set<string> := State(), {};
      RemovedNone(start);
      while todo != {}
        invariant Valid() && done + todo == keys && done !! todo
        invariant State() == Removed(start, done)
        invariant deleted == |done * start.entries.Keys|
        decreases todo
      {
        var key :| key in todo;
        OneMoreDone(done, todo, key);
        var one := InvalidateKey(key, start, done);
        done, todo := done + {key}, todo - {key};
        deleted := deleted + if one then 1 else 0;
      }
      assert done == done + todo;
    }

    /** One turn of that loop, after the keys in `done`. */
    method InvalidateKey(key: string, ghost start: Cache<V>, ghost done: set<string>) returns (one: bool)
      requires Valid() && key !in done && State() == Removed(start, done)
      modifies this, delegate
      ensures Valid() && State() == Removed(start, done + {key})
      ensures |(done + {key}) * start.entries.Keys| == |done * start.entries.Keys| + if one then 1 else 0
    {
      RemovedTwice(start, done, {key});
      OneMoreStored(done, key, start.entries.Keys);
      StillStored(start, done, key);
      one := Delete(key);
    }

    method InvalidateTag(tag: string) returns (deleted: nat)
      requires Valid()
      modifies this, delegate
      ensures Valid() && State() == TagInvalidated(old(State()), tag)
      ensures deleted == if NormalTag(tag) == "" then 0
                         else |KeysTagged(old(State()), NormalTag(tag)) * old(delegate.entries).Keys|
    {
      var normalized := NormalTag(tag);
      if normalized == "" {
        return 0;
      }
      var keys := if normalized in tagsToKeys then tagsToKeys[normalized] else {};
      assert keys == KeysTagged(State(), normalized) by {
        forall k ensures k in keys <==> k in KeysTagged(State(), normalized) {
          assert Related(tagsToKeys, normalized, k) <==> Related(keysToTags, k, normalized);
        }
      }
      deleted := InvalidateKeys(keys);
    }

    method InvalidatePrefix(prefix: string) returns (deleted: nat)
      requires Valid()
      modifies this, delegate
      ensures Valid() && State() == PrefixInvalidated(old(State()), prefix)
      ensures deleted == if Strip(prefix) == "" then 0
                         else |KeysPrefixed(old(State()), Strip(prefix)) * old(delegate.entries).Keys|
    {
      var normalized := Strip(prefix);
      if normalized == "" {
        return 0;
      }
      deleted := InvalidateKeys(KeysPrefixed(State(), normalized));
    }

    method WriteThrough(key: string, value: V, tags: seq<string>, ttl: Option<real>, prefixes: seq<string>, now: real)
      requires Valid()
      modifies this, delegate
      ensures Valid()
      ensures State() == Written(PrefixesInvalidated(old(State()), prefixes), key, value, tags, ttl, now)
    {
      for i := 0 to |prefixes|
        invariant Valid() && State() == PrefixesInvalidated(old(State()), prefixes[..i])
      {
        var _ := InvalidatePrefix(prefixes[i]);
        assert prefixes[..i + 1][..i] == prefixes[..i];
      }
      assert prefixes[..|prefixes|] == prefixes;
      SetWithTags(key, value, tags, ttl, now);
    }
  }

  lemma StillStored<V>(c: Cache<V>, done: set<string>, key: string)
    requires key !in done
    ensures key in Removed(c, done).entries <==> key in c.entries.Keys
  {
  }

  lemma OneMoreDone(done: set<string>, todo: set<string>, key: string)
    requires key in todo && done !! todo
    ensures (done + {key}) + (todo - {key}) == done + todo && (done + {key}) !! (todo - {key}) && key !in done
  {
  }

  lemma OneMoreStored(done: set<string>, key: string, stored: set<string>)
    requires key !in done
    ensures |(done + {key}) * stored| == |done * stored| + if key in stored then 1 else 0
  {
    assert (done + {key}) * stored == done * stored + ({key} * stored);
    assert {key} * stored == if key in stored then {key} else {};
  }

  function SetOf(s: seq<string>): set<string> { set x | x in s }

  lemma NormalTagsAppend(tags: seq<string>, tag: string)
    ensures NormalTags(tags + [tag]) == NormalTags(tags) + if Strip(tag) != "" then {NormalTag(tag)} else {}
  {
    var all := NormalTags(tags + [tag]);
    forall t | t in NormalTags(tags) ensures t in all {
      var u :| u in tags && Strip(u) != "" && NormalTag(u) == t;
      assert u in tags + [tag];
    }
    assert tag in tags + [tag];
  }

  method Normalize(tags: seq<string>) returns (r: seq<string>)
    ensures SetOf(r) == NormalTags(tags)
  {
    r := [];
    for i := 0 to |tags|
      invariant SetOf(r) == NormalTags(tags[..i])
    {
      assert tags[..i + 1] == tags[..i] + [tags[i]];
      NormalTagsAppend(tags[..i], tags[i]);
      if Strip(tags[i]) != "" {
        r := r + [NormalTag(tags[i])];
      }
    }
    assert tags[..|tags|] == tags;
  }

  lemma RemovedNone<V>(c: Cache<V>)
    ensures Removed(c, {}) == c
  {
    var x := Removed(c, {});
    assert x.entries == c.entries;
    assert x.known == c.known;
    assert x.tags == c.tags;
  }

  lemma RemovedTwice<V>(c: Cache<V>, a: set<string>, b: set<string>)
    ensures Removed(Removed(c, a), b) == Removed(c, a + b)
  {
    var x, y := Removed(Removed(c, a), b), Removed(c, a + b);
    assert x.entries == y.entries;
    assert x.known == y.known;
    assert x.tags == y.tags;
  }

  // ---- Whole runs ----

  datatype Event<V> =
    | Fetch(key: string, now: real)
    | Write(key: string, value: V, tags: seq<string>, ttl: Option<real>, prefixes: seq<string>, now: real)
    | Remove(keys: set<string>)
    | ByTag(tag: string)
    | ByPrefix(prefix: string)

  /** A run of the wrapper, the last event outermost. A plain `set` writes no tags and invalidates no prefix. */
  datatype History<V> = Start | Then(before: History<V>, event: Event<V>)

  function After<V>(h: History<V>): Cache<V> {
    match h
    case Start => Cache(map[], {}, map[])
    case Then(before, event) =>
      var c := After(before);
      match event
      case Fetch(key, now) => Fetched(c, key, now)
      case Write(key, value, tags, ttl, prefixes, now) =>
        Written(PrefixesInvalidated(c, prefixes), key, value, tags, ttl, now)
      case Remove(keys) => Removed(c, keys)
      case ByTag(tag) => TagInvalidated(c, tag)
      case ByPrefix(prefix) => PrefixInvalidated(c, prefix)
  }

  /** The normalised tags that the most recent write of `key` carried. */
  function LastTags<V>(h: History<V>, key: string): set<string> {
    if h.Start? then {}
    else if h.event.Write? && h.event.key == key then NormalTags(h.event.tags)
    else LastTags(h.before, key)
  }

  lemma {:induction false} PrefixesKeep<V>(c: Cache<V>, prefixes: seq<string>, key: string)
    ensures var d := PrefixesInvalidated(c, prefixes);
            key in d.entries ==>
              && key in c.entries && d.entries[key] == c.entries[key]
              && TagsOf(d, key) == TagsOf(c, key)
              && (key in c.known ==> key in d.known)
  {
    if prefixes != [] {
      PrefixesKeep(c, prefixes[..|prefixes| - 1], key);
    }
  }

  /** Every stored key is known, and the index holds exactly the tags of its most recent write. */
  lemma {:induction false} IndexIsLastWrite<V>(h: History<V>, key: string)
    ensures var c := After(h);
            key in c.entries ==> key in c.known && TagsOf(c, key) == LastTags(h, key)
  {
    if h.Then? {
      IndexIsLastWrite(h.before, key);
      if h.event.Write? {
        PrefixesKeep(After(h.before), h.event.prefixes, key);
      }
    }
  }

  lemma {:induction false} LastTagsNotBlank<V>(h: History<V>, key: string)
    ensures "" !in LastTags(h, key)
  {
    if h.Then? {
      LastTagsNotBlank(h.before, key);
    }
  }

  /**
   * In every run, invalidating a tag removes exactly the keys whose most recent write carried it,
   * at whatever moment one looks, and leaves every other entry as it was.
   */
  lemma InvalidateTagExact<V>(h: History<V>, tag: string, key: string, now: real)
    ensures var c, d := After(h).entries, TagInvalidated(After(h), tag).entries;
            && (Live(d, key, now) <==> Live(c, key, now) && NormalTag(tag) !in LastTags(h, key))
            && (key in d ==> key in c && d[key] == c[key])
  {
    IndexIsLastWrite(h, key);
    LastTagsNotBlank(h, key);
  }

  /** The same for prefixes, which are stripped but keep their letter case. */
  lemma InvalidatePrefixExact<V>(h: History<V>, prefix: string, key: string, now: real)
    ensures var c, d := After(h).entries, PrefixInvalidated(After(h), prefix).entries;
            && (Live(d, key, now) <==> Live(c, key, now) && !(Strip(prefix) != "" && Strip(prefix) <= key))
            && (key in d ==> key in c && d[key] == c[key])
  {
    IndexIsLastWrite(h, key);
  }

  // ---- What is read back, by one key alone ----

  /** What a write leaves of a key: the value, and how long after which moment it is to be had. */
  datatype Standing<V> = Standing(value: V, ttl: Option<real>, since: real)

  /** At `now` the time to live, if there is one, is over. */
  predicate Over<V>(w: Standing<V>, now: real) { w.ttl.Some? && now >= w.since + w.ttl.value }

  /** A prefix that is not blank begins the key, surrounding whitespace aside. */
  predicate Begins(prefix: string, key: string) { Strip(prefix) != "" && Strip(prefix) <= key }

  /** The last write of `key` if nothing removed the key since, looking at no other key. */
  function Last<V>(h: History<V>, key: string): Option<Standing<V>> {
    match h
    case Start => None
    case Then(before, event) =>
      var w := Last(before, key);
      match event
      case Fetch(k, now) => if k == key && w.Some? && Over(w.value, now) then None else w
      case Write(k, value, _, ttl, prefixes, now) =>
        if k == key then Some(Standing(value, ttl, now))
        else if exists p :: p in prefixes && Begins(p, key) then None
        else w
      case Remove(keys) => if key in keys then None else w
      case ByTag(tag) => if Strip(tag) != "" && NormalTag(tag) in LastTags(before, key) then None else w
      case ByPrefix(prefix) => if Begins(prefix, key) then None else w
  }

  /** The entry under a key is what its last standing write put there. */
  ghost predicate Holds<V>(c: Cache<V>, key: string, w: Option<Standing<V>>) {
    && (key in c.entries <==> w.Some?)
    && (w.Some? ==> c.entries[key].value == w.value.value
                    && forall now :: Expired(c.entries[key], now) <==> Over(w.value, now))
  }

  lemma PrefixRemoves<V>(c: Cache<V>, prefix: string, key: string)
    requires key in c.entries ==> key in c.known
    ensures key in PrefixInvalidated(c, prefix).entries <==> key in c.entries && !Begins(prefix, key)
  {
  }

  lemma {:induction false} PrefixesRemove<V>(c: Cache<V>, prefixes: seq<string>, key: string)
    requires key in c.entries ==> key in c.known
    ensures key in PrefixesInvalidated(c, prefixes).entries <==>
            key in c.entries && !exists p :: p in prefixes && Begins(p, key)
  {
    if prefixes != [] {
      var front, last := prefixes[..|prefixes| - 1], prefixes[|prefixes| - 1];
      assert prefixes == front + [last];
      assert forall p :: p in prefixes <==> p in front || p == last;
      PrefixesRemove(c, front, key);
      PrefixesKeep(c, front, key);
      PrefixRemoves(PrefixesInvalidated(c, front), last, key);
      assert PrefixesInvalidated(c, prefixes) == PrefixInvalidated(PrefixesInvalidated(c, front), last);
    }
  }

  lemma {:induction false} EntryIsLast<V>(h: History<V>, key: string)
    ensures Holds(After(h), key, Last(h, key))
  {
    if h.Then? {
      EntryIsLast(h.before, key);
      IndexIsLastWrite(h.before, key);
      LastTagsNotBlank(h.before, key);
      if h.event.Write? {
        PrefixesRemove(After(h.before), h.event.prefixes, key);
        PrefixesKeep(After(h.before), h.event.prefixes, key);
      }
    }
  }

  /**
   * In every run, a key is live at `now` exactly when its last write was not removed since, by a
   * deletion, a tag of that write or a prefix of the key, and its time to live is not over; what is
   * read is the value of that write. Writing, reading or removing other keys has no influence.
   */
  lemma ReadsLastWrite<V>(h: History<V>, key: string, now: real)
    ensures var c, w := After(h).entries, Last(h, key);
            && (Live(c, key, now) <==> w.Some? && (w.value.ttl.None? || now < w.value.since + w.value.ttl.value))
            && (w.Some? ==> key in c && c[key].value == w.value.value)
  {
    EntryIsLast(h, key);
  }

  /** The same letter, perhaps in the other case. */
  predicate SameLetter(c: char, d: char) {
    || c == d
    || ('A' <= c <= 'Z' && d as int == c as int + 32)
    || ('A' <= d <= 'Z' && c as int == d as int + 32)
  }

  /** Two spellings name one tag exactly when they differ in letter case and surrounding whitespace only. */
  lemma SameTagExactly(tag: string, other: string)
    ensures var s, t := Strip(tag), Strip(other);
            NormalTag(tag) == NormalTag(other) <==>
            |s| == |t| && forall k :: 0 <= k < |s| ==> SameLetter(s[k], t[k])
  {
    SameByLetter(Strip(tag), Strip(other), Lower(Strip(tag)), Lower(Strip(other)));
  }

  lemma SameByLetter(s: string, t: string, lowS: string, lowT: string)
    requires |lowS| == |s| && forall k :: 0 <= k < |s| ==> lowS[k] == LowerChar(s[k])
    requires |lowT| == |t| && forall k :: 0 <= k < |t| ==> lowT[k] == LowerChar(t[k])
    ensures lowS == lowT <==> |s| == |t| && forall k :: 0 <= k < |s| ==> SameLetter(s[k], t[k])
  {
    if |s| == |t| {
      forall k | 0 <= k < |s| ensures lowS[k] == lowT[k] <==> SameLetter(s[k], t[k]) {
      }
    }
  }
}
