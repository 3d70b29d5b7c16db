/** The fixed-window request limiter and its background cleanup, on an explicit clock. */
module RateLimit {
  import opened GoText
  import opened Counting

  datatype RateInfo = RateInfo(count: int, windowEnd: int)

  type Requests = map<Text, RateInfo>

  /** Whether the request finds no entry it may count against. */
  predicate OpensWindow(requests: Requests, key: Text, now: int) {
    key !in requests || now > requests[key].windowEnd
  }

  predicate Admitted(limit: int, requests: Requests, key: Text, now: int) {
    OpensWindow(requests, key, now) || requests[key].count < limit
  }

  function AfterRequest(limit: int, window: int, requests: Requests, key: Text, now: int): Requests {
    if OpensWindow(requests, key, now) then requests[key := RateInfo(1, now + window)]
    else if requests[key].count >= limit then requests
    else requests[key := requests[key].(count := requests[key].count + 1)]
  }

  function AfterCleanup(requests: Requests, now: int): Requests {
    map key | key in requests && now <= requests[key].windowEnd :: requests[key]
  }

  class RateLimiter {
    const limit: int
    const window: int
    var requests: Requests

    constructor (limit: int, window: int)
      ensures this.limit == limit && this.window == window && requests == map[]
    {
      this.limit, this.window, requests := limit, window, map[];
    }

    /** The decision RateLimitMiddleware takes under the lock. */
    method Request(key: Text, now: int) returns (admitted: bool)
      modifies this
      ensures admitted == Admitted(limit, old(requests), key, now)
      ensures requests == AfterRequest(limit, window, old(requests), key, now)
      ensures admitted <==>
                key !in old(requests) || old(requests)[key].windowEnd < now || old(requests)[key].count < limit
      ensures forall k | k != key :: k in requests <==> k in old(requests)
      ensures forall k | k != key && k in requests :: requests[k] == old(requests)[k]
    {
      if key !in requests || now > requests[key].windowEnd {
        requests := requests[key := RateInfo(1, now + window)];
        return true;
      }
      if requests[key].count >= limit {
        return false;
      }
      requests := requests[key := requests[key].(count := requests[key].count + 1)];
      return true;
    }

    /** One tick of cleanupExpired: deletes while it iterates. */
    method Cleanup(now: int)
      modifies this
      ensures requests == AfterCleanup(old(requests), now)
      ensures forall k :: k in requests <==> k in old(requests) && now <= old(requests)[k].windowEnd
      ensures forall k | k in requests :: requests[k] == old(requests)[k]
    {
      var keys := requests.Keys;
      while keys != {}
        invariant keys <= requests.Keys <= old(requests).Keys
        invariant forall k | k in requests :: requests[k] == old(requests)[k]
        invariant forall k | k in old(requests) && k !in keys ::
          k in requests <==> now <= old(requests)[k].windowEnd
        decreases keys
      {
        var key :| key in keys;
        keys := keys - {key};
        if now > requests[key].windowEnd {
          requests := requests - {key};
        }
      }
    }
  }

  // ----- runs -----

  datatype Event = Request(key: Text, now: int) | Cleanup(now: int)

  /** The clock never goes back. */
  predicate Monotone(events: seq<Event>) {
    forall i, j | 0 <= i < j < |events| :: events[i].now <= events[j].now
  }

  function Step(limit: int, window: int, requests: Requests, e: Event): Requests {
    match e
    case Request(key, now) => AfterRequest(limit, window, requests, key, now)
    case Cleanup(now) => AfterCleanup(requests, now)
  }

  /** The answers to the requests of a run, in order. */
  function Answers(limit: int, window: int, requests: Requests, events: seq<Event>): seq<bool>
    decreases |events|
  {
    if events == [] then []
    else
      (if events[0].Request? then [Admitted(limit, requests, events[0].key, events[0].now)] else [])
      + Answers(limit, window, Step(limit, window, requests, events[0]), events[1..])
  }

  function WithoutCleanups(events: seq<Event>): seq<Event> {
    if events == [] then []
    else (if events[0].Request? then [events[0]] else []) + WithoutCleanups(events[1..])
  }

  /** The two tables differ only in entries that have expired. */
  predicate SameUnexpired(cleaned: Requests, full: Requests, now: int) {
    && cleaned.Keys <= full.Keys
    && (forall k | k in cleaned :: cleaned[k] == full[k])
    && (forall k | k in full && k !in cleaned :: full[k].windowEnd < now)
  }

  lemma {:induction false} CleanupNeverMattersFrom(limit: int, window: int, cleaned: Requests, full: Requests,
                                                  now: int, events: seq<Event>)
    requires Monotone(events) && (events != [] ==> now <= events[0].now) && SameUnexpired(cleaned, full, now)
    ensures Answers(limit, window, cleaned, events) == Answers(limit, window, full, WithoutCleanups(events))
    decreases |events|
  {
    if events != [] {
      var e, rest := events[0], events[1..];
      assert Monotone(rest) && (rest != [] ==> e.now <= rest[0].now);
      var cleaned' := Step(limit, window, cleaned, e);
      if e.Request? {
        var full' := Step(limit, window, full, e);
        CleanupNeverMattersFrom(limit, window, cleaned', full', e.now, rest);
        assert ([e] + WithoutCleanups(rest))[1..] == WithoutCleanups(rest);
      } else {
        CleanupNeverMattersFrom(limit, window, cleaned', full, e.now, rest);
        assert [] + WithoutCleanups(rest) == WithoutCleanups(rest);
      }
    }
  }

  /** Removing expired entries at any moments never changes any admit or deny decision. */
  lemma CleanupNeverMatters(limit: int, window: int, events: seq<Event>)
    requires Monotone(events)
    ensures Answers(limit, window, map[], events) == Answers(limit, window, map[], WithoutCleanups(events))
  {
    if events != [] {
      CleanupNeverMattersFrom(limit, window, map[], map[], events[0].now, events);
    }
  }

  // ----- counting -----

  /** The time of an event, if it admits a request of the key. */
  function AdmittedNow(limit: int, requests: Requests, e: Event, key: Text): seq<int> {
    if e.Request? && e.key == key && Admitted(limit, requests, key, e.now) then [e.now] else []
  }

  /** The times at which the run admits requests of one key. */
  function AdmittedTimes(limit: int, window: int, requests: Requests, events: seq<Event>, key: Text): seq<int>
    decreases |events|
  {
    if events == [] then []
    else
      AdmittedNow(limit, requests, events[0], key)
      + AdmittedTimes(limit, window, Step(limit, window, requests, events[0]), events[1..], key)
  }

  function Max(a: int, b: int): int { if a > b then a else b }

  /** What one window may admit: the first request always passes. */
  function Quota(limit: int): int { Max(limit, 1) }

  /** No closed interval of length window holds more than bound of the times. */
  ghost predicate Bounded(times: seq<int>, window: int, bound: int) {
    forall x, y | y == x + window :: CountIn(times, x, y) <= bound
  }

  /**
   The history of one key at time now, split at the start of its last window: older
   admissions, then those the entry counts, the first of them at the start.
   */
  ghost predicate History(limit: int, window: int, older: seq<int>, current: seq<int>, start: int, now: int) {
    && current != [] && current[0] == start && |current| <= Quota(limit)
    && (forall t | t in current :: start <= t <= now && t <= start + window)
    && (forall t | t in older :: t < start)
    && CountIn(older, start - window, start) <= Quota(limit) - 1
    && Bounded(older + current, window, 2 * Quota(limit) - 1)
  }

  /** Of the current window, an interval that starts after its start misses the first admission. */
  lemma CurrentAfterStart(current: seq<int>, start: int, from: int, to: int)
    requires current != [] && current[0] == start && from > start
    ensures CountIn(current, from, to) <= |current| - 1
  {
    assert current == [start] + current[1..];
    CountInConcat([start], current[1..], from, to);
    CountInNone([start], from, to);
    CountInBound(current[1..], from, to);
  }

  /** One more time keeps the bound when the intervals that hold it have room. */
  lemma BoundedSnoc(times: seq<int>, t: int, window: int, bound: int)
    requires Bounded(times, window, bound)
    requires forall x, y | y == x + window && x <= t <= y :: CountIn(times, x, y) <= bound - 1
    ensures Bounded(times + [t], window, bound)
  {
    forall x, y | y == x + window
      ensures CountIn(times + [t], x, y) <= bound
    {
      CountInSnoc(times, t, x, y);
    }
  }

  lemma NextWindow(limit: int, window: int, older: seq<int>, current: seq<int>, start: int, now: int, t: int)
    requires window >= 0 && History(limit, window, older, current, start, now) && t > start + window && t >= now
    ensures History(limit, window, older + current, [t], t, t)
  {
    var all := older + current;
    forall x, y | y >= t && x >= t - window
      ensures CountIn(all, x, y) <= Quota(limit) - 1
    {
      CountInConcat(older, current, x, y);
      CountInNone(older, x, y);
      CurrentAfterStart(current, start, x, y);
    }
    BoundedSnoc(all, t, window, 2 * Quota(limit) - 1);
  }

  lemma SameWindow(limit: int, window: int, older: seq<int>, current: seq<int>, start: int, now: int, t: int)
    requires window >= 0 && History(limit, window, older, current, start, now)
    requires now <= t <= start + window && |current| < limit
    ensures History(limit, window, older, current + [t], start, t)
  {
    var bound := 2 * Quota(limit) - 1;
    assert current[0] in current;
    forall x, y | y == x + window && x <= t <= y
      ensures CountIn(older + current, x, y) <= bound - 1
    {
      CountInConcat(older, current, x, y);
      CountInWider(older, x, y, start - window, start);
      CountInBound(current, x, y);
    }
    BoundedSnoc(older + current, t, window, bound);
    assert older + (current + [t]) == older + current + [t];
  }

  lemma FirstWindow(limit: int, window: int, t: int)
    requires window >= 0
    ensures History(limit, window, [], [t], t, t)
  {
    BoundedSnoc([], t, window, 2 * Quota(limit) - 1);
    assert [] + [t] == [t];
  }

  lemma HistoryLater(limit: int, window: int, older: seq<int>, current: seq<int>, start: int, now: int, later: int)
    requires History(limit, window, older, current, start, now) && now <= later
    ensures History(limit, window, older, current, start, later)
  {
  }

  /** The entry of a window, or none once the window is over and a cleanup may have come. */
  predicate EntryOf(requests: Requests, key: Text, count: int, end: int, now: int) {
    if key in requests then requests[key] == RateInfo(count, end) else end < now
  }

  /** The history agrees with the table and its last window is the one the entry is of. */
  ghost predicate Window(limit: int, window: int, requests: Requests, key: Text, times: seq<int>, now: int,
                         older: seq<int>, current: seq<int>, start: int) {
    && times == older + current && History(limit, window, older, current, start, now)
    && EntryOf(requests, key, |current|, start + window, now)
  }

  /** The table agrees with the history: no admission yet, or that of the last window. */
  ghost predicate Tracks(limit: int, window: int, requests: Requests, key: Text, times: seq<int>, now: int) {
    (key !in requests && times == []) ||
    (exists older, current, start :: Window(limit, window, requests, key, times, now, older, current, start))
  }

  lemma FirstTracks(limit: int, window: int, requests: Requests, key: Text, now: int, e: Event)
    requires window >= 0 && key !in requests && e.now >= now
    ensures Tracks(limit, window, Step(limit, window, requests, e), key,
                   [] + AdmittedNow(limit, requests, e, key), e.now)
  {
    if e.Request? && e.key == key {
      FirstWindow(limit, window, e.now);
      assert Window(limit, window, Step(limit, window, requests, e), key, [] + [e.now], e.now, [], [e.now], e.now);
    }
  }

  /** An event that admits nothing of the key leaves its history, and its entry unless that has expired. */
  lemma OtherTracks(limit: int, window: int, requests: Requests, key: Text, times: seq<int>, now: int,
                    older: seq<int>, current: seq<int>, start: int, e: Event)
    requires Window(limit, window, requests, key, times, now, older, current, start)
    requires e.now >= now && AdmittedNow(limit, requests, e, key) == []
    ensures Window(limit, window, Step(limit, window, requests, e), key, times, e.now, older, current, start)
  {
    hide History;
    HistoryLater(limit, window, older, current, start, now, e.now);
  }

  lemma AdmissionTracks(limit: int, window: int, requests: Requests, key: Text, times: seq<int>, now: int,
                        older: seq<int>, current: seq<int>, start: int, t: int)
    requires window >= 0 && Window(limit, window, requests, key, times, now, older, current, start)
    requires t >= now && Admitted(limit, requests, key, t)
    ensures Tracks(limit, window, AfterRequest(limit, window, requests, key, t), key, times + [t], t)
  {
    hide History;
    var requests' := AfterRequest(limit, window, requests, key, t);
    if OpensWindow(requests, key, t) {
      NextWindow(limit, window, older, current, start, now, t);
      assert Window(limit, window, requests', key, times + [t], t, older + current, [t], t);
    } else {
      SameWindow(limit, window, older, current, start, now, t);
      assert times + [t] == older + (current + [t]);
      assert Window(limit, window, requests', key, times + [t], t, older, current + [t], start);
    }
  }

  lemma StepTracks(limit: int, window: int, requests: Requests, key: Text, times: seq<int>, now: int, e: Event)
    requires window >= 0 && Tracks(limit, window, requests, key, times, now) && e.now >= now
    ensures Tracks(limit, window, Step(limit, window, requests, e), key,
                   times + AdmittedNow(limit, requests, e, key), e.now)
  {
    hide Window;
    if key !in requests && times == [] {
      FirstTracks(limit, window, requests, key, now, e);
    } else {
      var older, current, start :| Window(limit, window, requests, key, times, now, older, current, start);
      if AdmittedNow(limit, requests, e, key) == [] {
        OtherTracks(limit, window, requests, key, times, now, older, current, start, e);
        assert times + [] == times;
      } else {
        AdmissionTracks(limit, window, requests, key, times, now, older, current, start, e.now);
      }
    }
  }

  function Final(limit: int, window: int, requests: Requests, events: seq<Event>): Requests
    decreases |events|
  {
    if events == [] then requests else Final(limit, window, Step(limit, window, requests, events[0]), events[1..])
  }

  lemma NoEvents(limit: int, window: int, requests: Requests, key: Text)
    ensures Final(limit, window, requests, []) == requests
    ensures AdmittedTimes(limit, window, requests, [], key) == []
  {
  }

  lemma FirstEvent(limit: int, window: int, requests: Requests, key: Text, events: seq<Event>)
    requires events != []
    ensures Final(limit, window, requests, events)
         == Final(limit, window, Step(limit, window, requests, events[0]), events[1..])
    ensures AdmittedTimes(limit, window, requests, events, key)
         == AdmittedNow(limit, requests, events[0], key)
            + AdmittedTimes(limit, window, Step(limit, window, requests, events[0]), events[1..], key)
  {
  }

  lemma MonotoneTail(events: seq<Event>)
    requires Monotone(events) && events != []
    ensures Monotone(events[1..]) && (events[1..] != [] ==> events[0].now <= events[1..][0].now)
  {
  }

  lemma {:induction false} RunTracks(limit: int, window: int, requests: Requests, key: Text, times: seq<int>, now: int,
                                     events: seq<Event>)
    requires window >= 0 && Tracks(limit, window, requests, key, times, now)
    requires Monotone(events) && (events != [] ==> now <= events[0].now)
    ensures Tracks(limit, window, Final(limit, window, requests, events), key,
                   times + AdmittedTimes(limit, window, requests, events, key),
                   if events == [] then now else events[|events| - 1].now)
    decreases |events|
  {
    hide Tracks, Final, AdmittedTimes, AdmittedNow, Step, Monotone;
    if events == [] {
      NoEvents(limit, window, requests, key);
      assert times + [] == times;
    } else {
      var e, rest := events[0], events[1..];
      MonotoneTail(events);
      FirstEvent(limit, window, requests, key, events);
      StepTracks(limit, window, requests, key, times, now, e);
      var here := AdmittedNow(limit, requests, e, key);
      var next := Step(limit, window, requests, e);
      RunTracks(limit, window, next, key, times + here, e.now, rest);
      var later := AdmittedTimes(limit, window, next, rest, key);
      assert times + (here + later) == times + here + later;
    }
  }

  lemma RunFromEmpty(limit: int, window: int, events: seq<Event>, key: Text, start: int)
    requires window >= 0 && Monotone(events) && start == if events == [] then 0 else events[0].now
    ensures Tracks(limit, window, Final(limit, window, map[], events), key,
                   AdmittedTimes(limit, window, map[], events, key),
                   if events == [] then start else events[|events| - 1].now)
  {
    hide Final, AdmittedTimes, Window, Monotone;
    var times := AdmittedTimes(limit, window, map[], events, key);
    RunTracks(limit, window, map[], key, [], start, events);
    assert [] + times == times;
  }

  lemma TracksIsBounded(limit: int, window: int, requests: Requests, key: Text, times: seq<int>, now: int)
    requires window >= 0 && Tracks(limit, window, requests, key, times, now)
    ensures Bounded(times, window, 2 * Quota(limit) - 1)
    ensures key in requests ==> var info := requests[key];
              info.count == CountIn(times, info.windowEnd - window, info.windowEnd) <= Quota(limit)
  {
    if times != [] || key in requests {
      var older, current, start :| Window(limit, window, requests, key, times, now, older, current, start);
      CountInConcat(older, current, start, start + window);
      CountInNone(older, start, start + window);
      CountInAll(current, start, start + window);
    }
  }

  /**
   In every run, with cleanups anywhere, an entry counts exactly what its window admitted, and
   never more than max(limit, 1).
   */
  lemma EntryCountsItsWindow(limit: int, window: int, events: seq<Event>, key: Text)
    requires window >= 0 && Monotone(events)
    requires key in Final(limit, window, map[], events)
    ensures var info := Final(limit, window, map[], events)[key];
      info.count == CountIn(AdmittedTimes(limit, window, map[], events, key), info.windowEnd - window, info.windowEnd)
                 <= Quota(limit)
  {
    hide Tracks, Final, AdmittedTimes, CountIn, Monotone;
    var start := if events == [] then 0 else events[0].now;
    RunFromEmpty(limit, window, events, key, start);
    TracksIsBounded(limit, window, Final(limit, window, map[], events), key,
                    AdmittedTimes(limit, window, map[], events, key),
                    if events == [] then start else events[|events| - 1].now);
  }

  lemma FullWindow(limit: int, window: int, requests: Requests, key: Text, times: seq<int>, end: int, now: int)
    requires window >= 0 && Tracks(limit, window, requests, key, times, end) && end <= now
    requires !Admitted(limit, requests, key, now)
    ensures CountIn(times, now - window, now) >= Quota(limit)
  {
    var older, current, start :| Window(limit, window, requests, key, times, end, older, current, start);
    CountInConcat(older, current, now - window, now);
    CountInAll(current, now - window, now);
  }

  /** A request is denied only when its key was admitted max(limit, 1) times in the last window length. */
  lemma DeniedOnlyWhenFull(limit: int, window: int, events: seq<Event>, key: Text, now: int)
    requires window >= 0 && Monotone(events) && forall e | e in events :: e.now <= now
    requires !Admitted(limit, Final(limit, window, map[], events), key, now)
    ensures CountIn(AdmittedTimes(limit, window, map[], events, key), now - window, now) >= Quota(limit)
  {
    hide Tracks, AdmittedTimes, CountIn, Monotone;
    if events != [] {
      assert events[|events| - 1] in events;
      RunFromEmpty(limit, window, events, key, events[0].now);
      FullWindow(limit, window, Final(limit, window, map[], events), key,
                 AdmittedTimes(limit, window, map[], events, key), events[|events| - 1].now, now);
    }
  }

  /**
   In every run, with cleanups anywhere, no closed interval of length window holds more than
   2 * max(limit, 1) - 1 admitted requests of one key.
   */
  lemma AtMostTwiceTheLimit(limit: int, window: int, events: seq<Event>, key: Text)
    requires Monotone(events)
    ensures Bounded(AdmittedTimes(limit, window, map[], events, key), window, 2 * Quota(limit) - 1)
  {
    hide Tracks, Final, AdmittedTimes, Monotone;
    var times := AdmittedTimes(limit, window, map[], events, key);
    if window < 0 {
      forall x, y | y == x + window
        ensures CountIn(times, x, y) == 0
      {
        CountInNone(times, x, y);
      }
    } else {
      var start := if events == [] then 0 else events[0].now;
      RunFromEmpty(limit, window, events, key, start);
      TracksIsBounded(limit, window, Final(limit, window, map[], events), key, times,
                      if events == [] then start else events[|events| - 1].now);
    }
  }

  // ----- the bound is reached -----

  function Burst(key: Text, now: int, n: nat): seq<Event> {
    if n == 0 then [] else [Request(key, now)] + Burst(key, now, n - 1)
  }

  function Times(now: int, n: nat): seq<int> {
    if n == 0 then [] else [now] + Times(now, n - 1)
  }

  lemma {:induction false} CountInTimes(now: int, n: nat, from: int, to: int)
    ensures CountIn(Times(now, n), from, to) == if from <= now <= to then n else 0
  {
    if n > 0 {
      CountInConcat([now], Times(now, n - 1), from, to);
      CountInTimes(now, n - 1, from, to);
      CountInSnoc([], now, from, to);
      assert [] + [now] == [now];
    }
  }

  /** One request opens a window, its rest comes at the window's end, the next window right after. */
  function Peak(key: Text, window: int, quota: nat): seq<Event>
    requires quota > 0
  {
    var second := [Request(key, window + 1)] + Burst(key, window + 1, quota - 1);
    [Request(key, 0)] + (Burst(key, window, quota - 1) + second)
  }

  lemma AdmittedCons(limit: int, window: int, requests: Requests, key: Text, now: int, rest: seq<Event>)
    requires Admitted(limit, requests, key, now)
    ensures AdmittedTimes(limit, window, requests, [Request(key, now)] + rest, key)
         == [now] + AdmittedTimes(limit, window, AfterRequest(limit, window, requests, key, now), rest, key)
  {
    assert ([Request(key, now)] + rest)[1..] == rest;
  }

  /** A burst within the window and the limit is admitted whole. */
  lemma {:induction false} BurstAdmitted(limit: int, window: int, key: Text, info: RateInfo, now: int, n: nat,
                                         rest: seq<Event>)
    requires now <= info.windowEnd && (n > 0 ==> info.count + n <= limit)
    ensures AdmittedTimes(limit, window, map[key := info], Burst(key, now, n) + rest, key)
         == Times(now, n) + AdmittedTimes(limit, window, map[key := info.(count := info.count + n)], rest, key)
    decreases n
  {
    if n == 0 {
      assert [] + rest == rest;
    } else {
      hide AdmittedTimes;
      var more := Burst(key, now, n - 1) + rest;
      assert Burst(key, now, n) + rest == [Request(key, now)] + more;
      AdmittedCons(limit, window, map[key := info], key, now, more);
      var next := info.(count := info.count + 1);
      assert AfterRequest(limit, window, map[key := info], key, now) == map[key := next];
      hide AfterRequest, Admitted;
      BurstAdmitted(limit, window, key, next, now, n - 1, rest);
      var later := AdmittedTimes(limit, window, map[key := info.(count := info.count + n)], rest, key);
      assert [now] + (Times(now, n - 1) + later) == Times(now, n) + later;
    }
  }

  lemma PeakAdmitted(limit: int, window: int, key: Text, quota: nat)
    requires window > 0 && quota == Quota(limit)
    ensures AdmittedTimes(limit, window, map[], Peak(key, window, quota), key)
         == [0] + (Times(window, quota - 1) + ([window + 1] + Times(window + 1, quota - 1)))
  {
    hide AdmittedTimes;
    var q := quota - 1;
    var second := [Request(key, window + 1)] + Burst(key, window + 1, q);
    AdmittedCons(limit, window, map[], key, 0, Burst(key, window, q) + second);
    assert AfterRequest(limit, window, map[], key, 0) == map[key := RateInfo(1, window)];
    BurstAdmitted(limit, window, key, RateInfo(1, window), window, q, second);
    var full: Requests := map[key := RateInfo(quota, window)];
    AdmittedCons(limit, window, full, key, window + 1, Burst(key, window + 1, q));
    var next := RateInfo(1, window + 1 + window);
    assert AfterRequest(limit, window, full, key, window + 1) == map[key := next];
    assert Burst(key, window + 1, q) + [] == Burst(key, window + 1, q);
    BurstAdmitted(limit, window, key, next, window + 1, q, []);
    NoEvents(limit, window, map[key := next.(count := next.count + q)], key);
    assert Times(window + 1, q) + [] == Times(window + 1, q);
  }

  lemma {:induction false} BurstTimes(key: Text, now: int, n: nat)
    ensures forall e | e in Burst(key, now, n) :: e.now == now
  {
    if n > 0 {
      BurstTimes(key, now, n - 1);
    }
  }

  lemma MonotoneConcat(a: seq<Event>, b: seq<Event>, t: int)
    requires Monotone(a) && Monotone(b) && (forall e | e in a :: e.now <= t) && (forall e | e in b :: t <= e.now)
    ensures Monotone(a + b)
  {
    forall i, j | 0 <= i < j < |a + b|
      ensures (a + b)[i].now <= (a + b)[j].now
    {
      assert i < |a| ==> a[i] in a;
      assert j >= |a| ==> b[j - |a|] in b;
    }
  }

  lemma BurstMonotone(key: Text, now: int, n: nat)
    ensures Monotone(Burst(key, now, n))
  {
    BurstTimes(key, now, n);
    var burst := Burst(key, now, n);
    forall i, j | 0 <= i < j < |burst|
      ensures burst[i].now <= burst[j].now
    {
      assert burst[i] in burst && burst[j] in burst;
    }
  }

  lemma PeakMonotone(key: Text, window: int, quota: nat)
    requires window > 0 && quota > 0
    ensures Monotone(Peak(key, window, quota))
  {
    var a, b := Burst(key, window, quota - 1), Burst(key, window + 1, quota - 1);
    BurstTimes(key, window, quota - 1);
    BurstTimes(key, window + 1, quota - 1);
    BurstMonotone(key, window, quota - 1);
    BurstMonotone(key, window + 1, quota - 1);
    var second := [Request(key, window + 1)] + b;
    MonotoneConcat([Request(key, window + 1)], b, window + 1);
    MonotoneConcat(a, second, window);
    MonotoneConcat([Request(key, 0)], a + second, 0);
  }

  /** For every limit there is a run that reaches the bound within one window length. */
  lemma BoundIsReached(limit: int, window: int, key: Text)
    requires window > 0
    ensures Monotone(Peak(key, window, Quota(limit)))
    ensures CountIn(AdmittedTimes(limit, window, map[], Peak(key, window, Quota(limit)), key), 1, 1 + window)
         == 2 * Quota(limit) - 1
  {
    hide CountIn, AdmittedTimes;
    var q := Quota(limit) - 1;
    PeakMonotone(key, window, Quota(limit));
    PeakAdmitted(limit, window, key, Quota(limit));
    var second := [window + 1] + Times(window + 1, q);
    CountInConcat([0], Times(window, q) + second, 1, 1 + window);
    CountInConcat(Times(window, q), second, 1, 1 + window);
    CountInConcat([window + 1], Times(window + 1, q), 1, 1 + window);
    CountInTimes(window, q, 1, 1 + window);
    CountInTimes(window + 1, q, 1, 1 + window);
    CountInNone([0], 1, 1 + window);
    CountInAll([window + 1], 1, 1 + window);
  }
}
