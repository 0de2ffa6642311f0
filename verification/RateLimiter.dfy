/** The in-process login limiter that stands in for Redis: a sliding window of allowed attempts per key, in a
    dictionary that drops its oldest keys once it is full.
 */
module RateLimiter {
  const MAX_KEYS := 10_000

  datatype Settings = Settings(limit: int, window: real)

  /** A dictionary with its keys in insertion order. */
  datatype Table = Table(order: seq<string>, attempts: map<string, seq<real>>)

  ghost predicate Valid(t: Table) {
    && (forall key :: key in t.order <==> key in t.attempts)
    && (forall i, j :: 0 <= i < j < |t.order| ==> t.order[i] != t.order[j])
  }

  function Entries(t: Table, key: string): seq<real> {
    if key in t.attempts then t.attempts[key] else []
  }

  /** Assigning to a key that is already there keeps its place. */
  function Put(t: Table, key: string, entries: seq<real>): Table {
    Table(if key in t.attempts then t.order else t.order + [key], t.attempts[key := entries])
  }

  function PopFirst(t: Table): Table
    requires t.order != []
  {
    Table(t.order[1..], t.attempts - {t.order[0]})
  }

  function Shrunk(t: Table): Table
    decreases |t.order|
  {
    if |t.order| > MAX_KEYS then Shrunk(PopFirst(t)) else t
  }

  /** The stamps after `start`. */
  function Recent(stamps: seq<real>, start: real): seq<real> {
    if stamps == [] then []
    else
      var last := stamps[|stamps| - 1];
      Recent(stamps[..|stamps| - 1], start) + if last > start then [last] else []
  }

  /** Of every stamp after `start` all occurrences stay, and none of any other. */
  lemma {:induction false} RecentIs(stamps: seq<real>, start: real, stamp: real)
    ensures multiset(Recent(stamps, start))[stamp] == if stamp > start then multiset(stamps)[stamp] else 0
    decreases |stamps|
  {
    if stamps != [] {
      var n := |stamps| - 1;
      assert stamps == stamps[..n] + [stamps[n]];
      RecentIs(stamps[..n], start, stamp);
    }
  }

  predicate Allows(s: Settings, t: Table, key: string, now: real) {
    |Recent(Entries(t, key), now - s.window)| < s.limit
  }

  /** The table after `_fallback_consume`. */
  function Consumed(s: Settings, t: Table, key: string, now: real): Table {
    var entries := Recent(Entries(t, key), now - s.window);
    if Allows(s, t, key, now) then Shrunk(Put(t, key, entries + [now])) else Put(t, key, entries)
  }

  class Limiter {
    const settings: Settings
    var table: Table

    constructor (settings: Settings)
      ensures this.settings == settings && table == Table([], map[])
    {
      this.settings := settings;
      table := Table([], map[]);
    }

    method FallbackConsume(key: string, now: real) returns (allowed: bool, remaining: int)
      modifies this
      ensures allowed == Allows(settings, old(table), key, now)
      ensures table == Consumed(settings, old(table), key, now)
      ensures !allowed ==> remaining == 0
      ensures allowed ==>
                remaining == settings.limit - |Recent(Entries(old(table), key), now - settings.window)| - 1
    {
      var windowStart := now - settings.window;
      var before := Entries(table, key);
      var entries := [];
      for i := 0 to |before|
        invariant entries == Recent(before[..i], windowStart)
      {
        assert before[..i + 1][..i] == before[..i];
        if before[i] > windowStart {
          entries := entries + [before[i]];
        }
      }
      assert before[..|before|] == before;
      if |entries| >= settings.limit {
        table := Put(table, key, entries);
        return false, 0;
      }
      entries := entries + [now];
      table := Put(table, key, entries);
      while |table.order| > MAX_KEYS
        invariant Shrunk(table) == Consumed(settings, old(table), key, now)
        decreases |table.order|
      {
        table := PopFirst(table);
      }
      return true, settings.limit - |entries|;
    }
  }

  // ---------------------------------------------------------------- histories

  datatype Call = Call(key: string, now: real)

  /** The table after a history of calls on an empty one. */
  function After(s: Settings, calls: seq<Call>): Table {
    if calls == [] then Table([], map[])
    else
      var last := calls[|calls| - 1];
      Consumed(s, After(s, calls[..|calls| - 1]), last.key, last.now)
  }

  /** The times of the allowed calls with one key, from the start or from the key's last eviction on. */
  function Allowed(s: Settings, calls: seq<Call>, key: string): seq<real> {
    if calls == [] then []
    else
      var earlier, last := calls[..|calls| - 1], calls[|calls| - 1];
      var before := Allowed(s, earlier, key);
      if Evicts(s, calls, key) then []
      else if last.key == key && Allows(s, After(s, earlier), key, last.now) then before + [last.now]
      else before
  }

  /** Does the last call of the history throw the key out? */
  predicate Evicts(s: Settings, calls: seq<Call>, key: string)
    requires calls != []
  {
    var earlier, last := calls[..|calls| - 1], calls[|calls| - 1];
    (key in After(s, earlier).attempts || key == last.key) && key !in After(s, calls).attempts
  }

  ghost predicate Monotone(calls: seq<Call>) {
    forall i, j :: 0 <= i < j < |calls| ==> calls[i].now <= calls[j].now
  }

  // ---------------------------------------------------------------- the table is a dictionary

  lemma {:induction false} ShrunkValid(t: Table)
    requires Valid(t)
    ensures Valid(Shrunk(t))
    ensures Shrunk(t).order == t.order[if |t.order| > MAX_KEYS then |t.order| - MAX_KEYS else 0..]
    ensures forall key <- Shrunk(t).attempts :: key in t.attempts && Shrunk(t).attempts[key] == t.attempts[key]
    decreases |t.order|
  {
    hide Valid;
    if |t.order| > MAX_KEYS {
      PopValid(t);
      ShrunkValid(PopFirst(t));
    }
  }

  lemma PopValid(t: Table)
    requires Valid(t) && t.order != []
    ensures Valid(PopFirst(t))
  {
    forall key
      ensures key in PopFirst(t).order <==> key in PopFirst(t).attempts
    {
      assert key in t.order <==> key == t.order[0] || key in t.order[1..];
    }
  }

  lemma PutValid(t: Table, key: string, entries: seq<real>)
    requires Valid(t)
    ensures Valid(Put(t, key, entries))
  {
  }

  lemma {:induction false} AfterValid(s: Settings, calls: seq<Call>)
    ensures Valid(After(s, calls))
  {
    hide Valid, Put, Shrunk, Recent, Allows;
    if calls == [] {
      EmptyValid();
    } else {
      var earlier, last := calls[..|calls| - 1], calls[|calls| - 1];
      AfterValid(s, earlier);
      var t, entries := After(s, earlier), Recent(Entries(After(s, earlier), last.key), last.now - s.window);
      PutValid(t, last.key, entries);
      PutValid(t, last.key, entries + [last.now]);
      ShrunkValid(Put(t, last.key, entries + [last.now]));
    }
  }

  lemma EmptyValid()
    ensures Valid(Table([], map[]))
  {
  }

  // ---------------------------------------------------------------- pruning forgets nothing that counts

  lemma {:induction false} RecentTwice(stamps: seq<real>, a: real, b: real)
    requires a <= b
    ensures Recent(Recent(stamps, a), b) == Recent(stamps, b)
  {
    if stamps != [] {
      var earlier, last := stamps[..|stamps| - 1], stamps[|stamps| - 1];
      RecentTwice(earlier, a, b);
      if last > a {
        RecentSnoc(Recent(earlier, a), last, b);
      } else {
        assert Recent(earlier, a) + [] == Recent(earlier, a);
      }
    }
  }

  lemma RecentSnoc(stamps: seq<real>, stamp: real, start: real)
    ensures Recent(stamps + [stamp], start) == Recent(stamps, start) + if stamp > start then [stamp] else []
  {
  }

  /** Which stamps a call leaves under a key that is not evicted. */
  lemma EntriesAfter(s: Settings, calls: seq<Call>, key: string)
    requires calls != [] && !Evicts(s, calls, key)
    ensures var earlier, last := calls[..|calls| - 1], calls[|calls| - 1];
            var before := Entries(After(s, earlier), key);
            Entries(After(s, calls), key) ==
              if last.key != key then before
              else Recent(before, last.now - s.window)
                   + if Allows(s, After(s, earlier), key, last.now) then [last.now] else []
  {
    hide Recent, Valid, Shrunk, Allows;
    var earlier, last := calls[..|calls| - 1], calls[|calls| - 1];
    var t := After(s, earlier);
    AfterValid(s, earlier);
    var entries := Recent(Entries(t, last.key), last.now - s.window);
    PutValid(t, last.key, entries + [last.now]);
    ShrunkValid(Put(t, last.key, entries + [last.now]));
  }

  lemma EntriesEvicted(s: Settings, calls: seq<Call>, key: string)
    requires calls != [] && Evicts(s, calls, key)
    ensures Entries(After(s, calls), key) == []
  {
  }

  /** For every window still to come, the pruned list counts like the full history. */
  lemma {:induction false} PrunedAgrees(s: Settings, calls: seq<Call>, key: string, start: real)
    requires Monotone(calls) && (calls != [] ==> calls[|calls| - 1].now - s.window <= start)
    ensures Recent(Entries(After(s, calls), key), start) == Recent(Allowed(s, calls, key), start)
  {
    hide Allows, Evicts, After, Recent, Entries;
    if calls == [] {
      NothingAtStart(s, key);
    } else if Evicts(s, calls, key) {
      EntriesEvicted(s, calls, key);
    } else {
      var earlier, last := calls[..|calls| - 1], calls[|calls| - 1];
      PrunedAgrees(s, earlier, key, start);
      EntriesAfter(s, calls, key);
      if last.key == key {
        var before := Entries(After(s, earlier), key);
        RecentTwice(before, last.now - s.window, start);
        assert Recent(before, last.now - s.window) + [] == Recent(before, last.now - s.window);
        RecentSnoc(Recent(before, last.now - s.window), last.now, start);
        RecentSnoc(Allowed(s, earlier, key), last.now, start);
      }
    }
  }

  lemma NothingAtStart(s: Settings, key: string)
    ensures Entries(After(s, []), key) == [] == Allowed(s, [], key)
  {
  }

  /** A call is refused exactly when `limit` allowed calls with its key already lie in the last window. */
  lemma RefusedIff(s: Settings, calls: seq<Call>, key: string, now: real)
    requires Monotone(calls + [Call(key, now)])
    ensures Allows(s, After(s, calls), key, now) <==> |Recent(Allowed(s, calls, key), now - s.window)| < s.limit
  {
    hide After, Allowed, Recent;
    assert (calls + [Call(key, now)])[|calls|].now == now;
    assert forall i :: 0 <= i < |calls| ==> (calls + [Call(key, now)])[i] == calls[i];
    PrunedAgrees(s, calls, key, now - s.window);
  }

  // ---------------------------------------------------------------- no window holds more than the limit

  /** How many stamps lie after `start` and not after `end`. */
  function CountIn(stamps: seq<real>, start: real, end: real): nat {
    if stamps == [] then 0
    else
      var last := stamps[|stamps| - 1];
      CountIn(stamps[..|stamps| - 1], start, end) + if start < last <= end then 1 else 0
  }

  lemma CountSnoc(stamps: seq<real>, stamp: real, start: real, end: real)
    ensures CountIn(stamps + [stamp], start, end) == CountIn(stamps, start, end) + if start < stamp <= end then 1 else 0
  {
  }

  lemma {:induction false} CountAtMostRecent(stamps: seq<real>, from: real, start: real, end: real)
    requires from <= start
    ensures CountIn(stamps, start, end) <= |Recent(stamps, from)|
  {
    if stamps != [] {
      CountAtMostRecent(stamps[..|stamps| - 1], from, start, end);
    }
  }

  /** While a key is not evicted, no window of the given length, wherever it starts, holds more allowed calls with
      the key than the limit. */
  lemma {:induction false} WindowNeverOverfull(s: Settings, calls: seq<Call>, key: string, start: real)
    requires Monotone(calls)
    ensures CountIn(Allowed(s, calls, key), start, start + s.window) <= if s.limit > 0 then s.limit else 0
  {
    hide After, Recent, Allows, Evicts, CountIn;
    if calls == [] || Evicts(s, calls, key) {
      CountOfNone(start, start + s.window);
    } else {
      var earlier, last := calls[..|calls| - 1], calls[|calls| - 1];
      WindowNeverOverfull(s, earlier, key, start);
      if last.key == key && Allows(s, After(s, earlier), key, last.now) {
        var before := Allowed(s, earlier, key);
        assert earlier + [Call(key, last.now)] == calls;
        RefusedIff(s, earlier, key, last.now);
        CountSnoc(before, last.now, start, start + s.window);
        if start < last.now <= start + s.window {
          CountAtMostRecent(before, last.now - s.window, start, start + s.window);
        }
      }
    }
  }

  lemma {:induction false} CountIsRecent(stamps: seq<real>, start: real, end: real)
    requires forall stamp <- stamps :: stamp <= end
    ensures CountIn(stamps, start, end) == |Recent(stamps, start)|
    decreases |stamps|
  {
    if stamps != [] {
      var n := |stamps| - 1;
      assert stamps[n] in stamps && forall stamp <- stamps[..n] :: stamp in stamps;
      CountIsRecent(stamps[..n], start, end);
    }
  }

  lemma {:induction false} AllowedBefore(s: Settings, calls: seq<Call>, key: string, now: real)
    requires forall c <- calls :: c.now <= now
    ensures forall stamp <- Allowed(s, calls, key) :: stamp <= now
    decreases |calls|
  {
    hide Allows, Evicts, After;
    if calls != [] {
      var n := |calls| - 1;
      assert calls[n] in calls && forall c <- calls[..n] :: c in calls;
      AllowedBefore(s, calls[..n], key, now);
    }
  }

  /** A call is allowed if and only if fewer than `limit` calls with its key were allowed in the window that ends with
      it, the key not having been evicted since. */
  lemma AllowedIff(s: Settings, calls: seq<Call>, key: string, now: real)
    requires Monotone(calls + [Call(key, now)])
    ensures Allows(s, After(s, calls), key, now)
       <==> CountIn(Allowed(s, calls, key), now - s.window, now) < s.limit
  {
    hide *;
    RefusedIff(s, calls, key, now);
    NoLaterCall(calls, Call(key, now));
    AllowedBefore(s, calls, key, now);
    CountIsRecent(Allowed(s, calls, key), now - s.window, now);
  }

  lemma NoLaterCall(calls: seq<Call>, last: Call)
    requires Monotone(calls + [last])
    ensures forall c <- calls :: c.now <= last.now
  {
    var all := calls + [last];
    forall c | c in calls
      ensures c.now <= last.now
    {
      var i :| 0 <= i < |calls| && calls[i] == c;
      assert all[i] == c && all[|calls|] == last;
    }
  }

  lemma CountOfNone(start: real, end: real)
    ensures CountIn([], start, end) == 0
  {
  }

  // ---------------------------------------------------------------- eviction

  lemma {:induction false} PositiveLimitBounds(s: Settings, calls: seq<Call>)
    requires s.limit > 0
    ensures |After(s, calls).order| <= MAX_KEYS
  {
    hide Valid, Consumed;
    if calls != [] {
      var earlier, last := calls[..|calls| - 1], calls[|calls| - 1];
      PositiveLimitBounds(s, earlier);
      AfterValid(s, earlier);
      ConsumedKeepsCap(s, After(s, earlier), last.key, last.now);
    }
  }

  lemma ConsumedKeepsCap(s: Settings, t: Table, key: string, now: real)
    requires Valid(t) && |t.order| <= MAX_KEYS && s.limit > 0
    ensures |Consumed(s, t, key, now).order| <= MAX_KEYS
  {
    hide Valid, Recent, Shrunk, Allows;
    var entries := Recent(Entries(t, key), now - s.window);
    PutValid(t, key, entries + [now]);
    ShrunkValid(Put(t, key, entries + [now]));
    if !Allows(s, t, key, now) {
      RefusedIsKnown(s, t, key, now);
    }
  }

  /** With a positive limit only a known key can be refused, so a refusal adds no key. */
  lemma RefusedIsKnown(s: Settings, t: Table, key: string, now: real)
    requires s.limit > 0 && !Allows(s, t, key, now)
    ensures key in t.attempts
  {
  }

  ghost predicate DistinctKeys(calls: seq<Call>) {
    forall i, j :: 0 <= i < j < |calls| ==> calls[i].key != calls[j].key
  }

  /** Without a positive limit every call is refused before the eviction, and a refusal stores its key: the table
      takes one more key with every new one, without end. */
  lemma {:induction false} RefusalsPileUp(s: Settings, calls: seq<Call>)
    requires s.limit <= 0 && DistinctKeys(calls)
    ensures |After(s, calls).order| == |calls|
    ensures forall key <- After(s, calls).attempts :: exists c <- calls :: c.key == key
  {
    hide Recent, Entries;
    if calls != [] {
      var earlier, last := calls[..|calls| - 1], calls[|calls| - 1];
      RefusalsPileUp(s, earlier);
      assert last.key !in After(s, earlier).attempts;
      assert last in calls;
      forall key | key in After(s, calls).attempts
        ensures exists c <- calls :: c.key == key
      {
        if key != last.key {
          var c :| c in earlier && c.key == key;
          assert c in calls;
        }
      }
    }
  }

  /** Calls with keys of different lengths. */
  lemma ManyKeys(n: nat) returns (calls: seq<Call>)
    ensures |calls| == n && DistinctKeys(calls)
  {
    calls := seq(n, i requires 0 <= i < n => Call(seq(i, _ => 'k'), 0.0));
    assert forall i :: 0 <= i < n ==> |calls[i].key| == i;
  }

  /** The table is bounded by its cap over all histories if and only if the limit is positive. */
  lemma AtMostMaxKeysIff(s: Settings)
    ensures (forall calls: seq<Call> :: |After(s, calls).order| <= 10_000) <==> s.limit > 0
  {
    hide After, DistinctKeys;
    if s.limit > 0 {
      forall calls: seq<Call>
        ensures |After(s, calls).order| <= MAX_KEYS
      {
        PositiveLimitBounds(s, calls);
      }
    } else {
      var calls := ManyKeys(MAX_KEYS + 1);
      RefusalsPileUp(s, calls);
      assert |After(s, calls).order| > MAX_KEYS;
    }
  }

  /** A call evicts a key exactly when it brings a new key to a full table and the evicted one was inserted first;
      without a positive limit nothing is ever evicted. */
  lemma EvictsIff(s: Settings, calls: seq<Call>, key: string)
    requires calls != []
    ensures var t := After(s, calls[..|calls| - 1]);
            var newcomer := calls[|calls| - 1].key;
            Evicts(s, calls, key)
            <==> s.limit > 0 && newcomer !in t.attempts && |t.order| == 10_000 && key == t.order[0]
  {
    hide Recent, Shrunk, Allows, After, Consumed, Valid;
    var earlier, last := calls[..|calls| - 1], calls[|calls| - 1];
    AfterStep(s, calls);
    AfterValid(s, earlier);
    if s.limit > 0 {
      PositiveLimitBounds(s, earlier);
      ConsumedDropsIff(s, After(s, earlier), last.key, last.now, key);
    } else {
      RefusedKeepsKeys(s, After(s, earlier), last.key, last.now, key);
    }
  }

  lemma RefusedKeepsKeys(s: Settings, t: Table, newcomer: string, now: real, key: string)
    requires s.limit <= 0
    ensures key in t.attempts || key == newcomer ==> key in Consumed(s, t, newcomer, now).attempts
  {
  }

  lemma AfterStep(s: Settings, calls: seq<Call>)
    requires calls != []
    ensures var last := calls[|calls| - 1];
            After(s, calls) == Consumed(s, After(s, calls[..|calls| - 1]), last.key, last.now)
  {
  }

  lemma ConsumedDropsIff(s: Settings, t: Table, newcomer: string, now: real, key: string)
    requires Valid(t) && |t.order| <= MAX_KEYS && s.limit > 0
    ensures (key in t.attempts || key == newcomer) && key !in Consumed(s, t, newcomer, now).attempts
       <==> newcomer !in t.attempts && |t.order| == MAX_KEYS && key == t.order[0]
  {
    assert t.order != [] ==> t.order[0] in t.order && t.order[0] in t.attempts;
    hide Recent, Shrunk, Allows, Valid, Put;
    if Allows(s, t, newcomer, now) {
      ShrunkPutKeys(t, newcomer, Recent(Entries(t, newcomer), now - s.window) + [now], key);
    } else {
      RefusedIsKnown(s, t, newcomer, now);
      PutKeys(t, newcomer, Recent(Entries(t, newcomer), now - s.window), key);
    }
  }

  lemma PutKeys(t: Table, newcomer: string, entries: seq<real>, key: string)
    ensures key in Put(t, newcomer, entries).attempts <==> key in t.attempts || key == newcomer
  {
  }

  lemma ShrunkPutKeys(t: Table, newcomer: string, entries: seq<real>, key: string)
    requires Valid(t) && |t.order| <= MAX_KEYS
    ensures var full := newcomer !in t.attempts && |t.order| == MAX_KEYS;
            key in Shrunk(Put(t, newcomer, entries)).attempts
            <==> (key in t.attempts || key == newcomer) && !(full && key == t.order[0])
  {
  }
}
