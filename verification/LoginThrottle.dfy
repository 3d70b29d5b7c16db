/** The sliding-window login guard, on an explicit clock. */
module LoginThrottle {
  import opened Prelude
  import opened GoText
  import opened Counting

  /** The failures strictly after the cutoff, in order. */
  function After(times: seq<int>, cutoff: int): seq<int> {
    if times == [] then []
    else After(times[..|times| - 1], cutoff) + if times[|times| - 1] > cutoff then [times[|times| - 1]] else []
  }

  /** Failure times by address; an address without failures has no entry. */
  type Entries = map<Text, seq<int>>

  predicate Allowed(limit: int, window: int, entries: Entries, ip: Text, now: int) {
    ip !in entries || |After(entries[ip], now - window)| < limit
  }

  /** Only a refusal prunes the list. */
  function AfterAllow(limit: int, window: int, entries: Entries, ip: Text, now: int): Entries {
    if Allowed(limit, window, entries, ip, now) then entries
    else entries[ip := After(entries[ip], now - window)]
  }

  function AfterFailure(entries: Entries, ip: Text, now: int): Entries {
    entries[ip := (if ip in entries then entries[ip] else []) + [now]]
  }

  class Throttle {
    const limit: int
    const window: int
    var entries: Entries

    constructor (limit: int, window: int)
      ensures this.limit == limit && this.window == window && entries == map[]
    {
      this.limit, this.window, entries := limit, window, map[];
    }

    method Allow(ip: Text, now: int) returns (allowed: bool)
      modifies this
      ensures allowed == Allowed(limit, window, old(entries), ip, now)
      ensures entries == AfterAllow(limit, window, old(entries), ip, now)
    {
      if ip !in entries {
        return true;
      }
      var failedAt, cutoff := entries[ip], now - window;
      var valid := [];
      for i := 0 to |failedAt|
        invariant valid == After(failedAt[..i], cutoff)
      {
        assert failedAt[..i + 1][..i] == failedAt[..i];
        if failedAt[i] > cutoff {
          valid := valid + [failedAt[i]];
        }
      }
      assert failedAt[..|failedAt|] == failedAt;
      if |valid| >= limit {
        entries := entries[ip := valid];
        return false;
      }
      return true;
    }

    method RecordFailure(ip: Text, now: int)
      modifies this
      ensures entries == AfterFailure(old(entries), ip, now)
    {
      var failedAt := if ip in entries then entries[ip] else [];
      entries := entries[ip := failedAt + [now]];
    }
  }

  // ----- lazy pruning against the full history -----

  datatype Event = Allow(ip: Text, now: int) | Failure(ip: Text, now: int)

  predicate Monotone(events: seq<Event>) {
    forall i, j | 0 <= i < j < |events| :: events[i].now <= events[j].now
  }

  function Step(limit: int, window: int, entries: Entries, e: Event): Entries {
    match e
    case Allow(ip, now) => AfterAllow(limit, window, entries, ip, now)
    case Failure(ip, now) => AfterFailure(entries, ip, now)
  }

  function Final(limit: int, window: int, entries: Entries, events: seq<Event>): Entries
    decreases |events|
  {
    if events == [] then entries
    else Step(limit, window, Final(limit, window, entries, events[..|events| - 1]), events[|events| - 1])
  }

  /** Every failure ever recorded for an address. */
  function HistoryOf(events: seq<Event>, ip: Text): seq<int> {
    if events == [] then []
    else
      var last := events[|events| - 1];
      HistoryOf(events[..|events| - 1], ip) + if last.Failure? && last.ip == ip then [last.now] else []
  }

  lemma {:induction false} AfterSnoc(times: seq<int>, t: int, cutoff: int)
    ensures After(times + [t], cutoff) == After(times, cutoff) + if t > cutoff then [t] else []
  {
    assert (times + [t])[..|times|] == times;
  }

  /** Pruning at an earlier cutoff does not show at a later one. */
  lemma {:induction false} AfterAfter(times: seq<int>, early: int, late: int)
    requires early <= late
    ensures After(After(times, early), late) == After(times, late)
  {
    if times != [] {
      var last, rest := times[|times| - 1], times[..|times| - 1];
      AfterAfter(rest, early, late);
      if last > early {
        AfterSnoc(After(rest, early), last, late);
      } else {
        assert After(rest, early) + [] == After(rest, early) && After(rest, late) + [] == After(rest, late);
      }
    }
  }

  /** The list kept for an address and its full history agree from the window's cutoff on. */
  ghost predicate Agrees(window: int, entries: Entries, history: seq<int>, ip: Text, now: int) {
    && (ip in entries <==> history != [])
    && (ip in entries ==>
          forall cutoff | cutoff >= now - window :: After(entries[ip], cutoff) == After(history, cutoff))
  }

  lemma FailureAgrees(window: int, entries: Entries, history: seq<int>, ip: Text, now: int, t: int)
    requires Agrees(window, entries, history, ip, now) && now <= t
    ensures Agrees(window, AfterFailure(entries, ip, t), history + [t], ip, t)
  {
    hide After;
    var before := if ip in entries then entries[ip] else [];
    forall cutoff | cutoff >= t - window
      ensures After(before + [t], cutoff) == After(history + [t], cutoff)
    {
      AfterSnoc(before, t, cutoff);
      AfterSnoc(history, t, cutoff);
    }
  }

  lemma AllowAgrees(limit: int, window: int, entries: Entries, history: seq<int>, ip: Text, now: int, t: int)
    requires Agrees(window, entries, history, ip, now) && now <= t
    ensures Agrees(window, AfterAllow(limit, window, entries, ip, t), history, ip, t)
  {
    hide After;
    if !Allowed(limit, window, entries, ip, t) {
      forall cutoff | cutoff >= t - window
        ensures After(After(entries[ip], t - window), cutoff) == After(history, cutoff)
      {
        AfterAfter(entries[ip], t - window, cutoff);
      }
    }
  }

  lemma StepAgrees(limit: int, window: int, entries: Entries, history: seq<int>, ip: Text, now: int, e: Event)
    requires Agrees(window, entries, history, ip, now) && now <= e.now
    ensures Agrees(window, Step(limit, window, entries, e),
                   if e.Failure? && e.ip == ip then history + [e.now] else history, ip, e.now)
  {
    hide After;
    if e.ip != ip {
      AgreesLater(window, entries, history, ip, now, e.now);
    } else {
      match e {
        case Failure(_, t) => FailureAgrees(window, entries, history, ip, now, t);
        case Allow(_, t) => AllowAgrees(limit, window, entries, history, ip, now, t);
      }
    }
  }

  lemma AgreesLater(window: int, entries: Entries, history: seq<int>, ip: Text, now: int, later: int)
    requires Agrees(window, entries, history, ip, now) && now <= later
    ensures Agrees(window, entries, history, ip, later)
  {
  }

  lemma {:induction false} RunAgrees(limit: int, window: int, events: seq<Event>, ip: Text)
    requires Monotone(events) && events != []
    ensures Agrees(window, Final(limit, window, map[], events), HistoryOf(events, ip), ip, events[|events| - 1].now)
    decreases |events|
  {
    var n := |events| - 1;
    var before, last := events[..n], events[n];
    assert Monotone(before);
    if before == [] {
      assert Agrees(window, map[], [], ip, last.now);
      StepAgrees(limit, window, map[], [], ip, last.now, last);
    } else {
      RunAgrees(limit, window, before, ip);
      var entries := Final(limit, window, map[], before);
      StepAgrees(limit, window, entries, HistoryOf(before, ip), ip, before[n - 1].now, last);
      assert HistoryOf(before, ip) + [] == HistoryOf(before, ip);
    }
  }

  /**
   The pruned list answers as the full history would: an address is allowed when it has no
   failure at all, or fewer than limit strictly after now - window.
   */
  lemma AnswersAsFullHistory(limit: int, window: int, events: seq<Event>, ip: Text, now: int)
    requires Monotone(events) && (events != [] ==> events[|events| - 1].now <= now)
    ensures Allowed(limit, window, Final(limit, window, map[], events), ip, now) <==>
      HistoryOf(events, ip) == [] || |After(HistoryOf(events, ip), now - window)| < limit
    ensures limit >= 1 ==>
      (Allowed(limit, window, Final(limit, window, map[], events), ip, now) <==>
       |After(HistoryOf(events, ip), now - window)| < limit)
  {
    if events != [] {
      RunAgrees(limit, window, events, ip);
    }
  }

  // ----- how many failures get through -----

  /** One address: a checked attempt starts, and later fails or passes. */
  datatype Attempt = Start(now: int) | Fail(now: int) | Pass(now: int)

  /** The entries, the full history of the address, and its attempts in flight. */
  datatype Guard = Guard(entries: Entries, history: seq<int>, inFlight: int)

  /** None when the event cannot happen: nothing in flight, or already c attempts. */
  function Handle(limit: int, window: int, c: int, ip: Text, g: Guard, a: Attempt): Option<Guard> {
    match a
    case Start(now) =>
      var entries := AfterAllow(limit, window, g.entries, ip, now);
      if !Allowed(limit, window, g.entries, ip, now) then Some(g.(entries := entries))
      else if g.inFlight >= c then None
      else Some(Guard(entries, g.history, g.inFlight + 1))
    case Fail(now) =>
      if g.inFlight <= 0 then None
      else Some(Guard(AfterFailure(g.entries, ip, now), g.history + [now], g.inFlight - 1))
    case Pass(now) => if g.inFlight <= 0 then None else Some(g.(inFlight := g.inFlight - 1))
  }

  function Play(limit: int, window: int, c: int, ip: Text, g: Guard, attempts: seq<Attempt>): Option<Guard>
    decreases |attempts|
  {
    if attempts == [] then Some(g)
    else
      var next :- Handle(limit, window, c, ip, g, attempts[0]);
      Play(limit, window, c, ip, next, attempts[1..])
  }

  function Most(limit: int, c: int): int { (if limit > 1 then limit else 1) + c - 1 }

  predicate UpTo(times: seq<int>, now: int) {
    forall t | t in times :: t <= now
  }

  /**
   The half-open spans (s, s + window] that reach the present have room for every attempt in
   flight to fail; no span ever holds more than Most.
   */
  ghost predicate Room(limit: int, window: int, c: int, ip: Text, g: Guard, now: int) {
    && 0 <= g.inFlight <= c && UpTo(g.history, now)
    && Agrees(window, g.entries, g.history, ip, now)
    && (forall x, y | y == x + window - 1 && now <= y :: CountIn(g.history, x, y) + g.inFlight <= Most(limit, c))
    && (forall x, y | y == x + window - 1 :: CountIn(g.history, x, y) <= Most(limit, c))
  }

  lemma {:induction false} AfterCounts(times: seq<int>, cutoff: int, now: int)
    requires UpTo(times, now)
    ensures |After(times, cutoff)| == CountIn(times, cutoff + 1, now)
  {
    if times != [] {
      PrefixMembers(times, |times| - 1);
      assert times[|times| - 1] in times;
      AfterCounts(times[..|times| - 1], cutoff, now);
    }
  }

  lemma StartKeepsRoom(limit: int, window: int, c: int, ip: Text, g: Guard, now: int, t: int)
    requires Room(limit, window, c, ip, g, now) && now <= t && Handle(limit, window, c, ip, g, Start(t)).Some?
    ensures Room(limit, window, c, ip, Handle(limit, window, c, ip, g, Start(t)).value, t)
  {
    var g' := Handle(limit, window, c, ip, g, Start(t)).value;
    StepAgrees(limit, window, g.entries, g.history, ip, now, Allow(ip, t));
    if g'.inFlight > g.inFlight {
      AfterCounts(g.history, t - window, t);
      assert CountIn(g.history, t - window + 1, t) <= Most(limit, c) - c by {
        if g.history != [] {
          assert After(g.entries[ip], t - window) == After(g.history, t - window);
        }
      }
      forall x, y | y == x + window - 1 && t <= y
        ensures CountIn(g.history, x, y) <= Most(limit, c) - c
      {
        CountInWider(g.history, x, y, t - window + 1, t);
      }
    }
  }

  lemma FailKeepsRoom(limit: int, window: int, c: int, ip: Text, g: Guard, now: int, t: int)
    requires Room(limit, window, c, ip, g, now) && now <= t && Handle(limit, window, c, ip, g, Fail(t)).Some?
    ensures Room(limit, window, c, ip, Handle(limit, window, c, ip, g, Fail(t)).value, t)
  {
    StepAgrees(limit, window, g.entries, g.history, ip, now, Failure(ip, t));
    forall x, y | y == x + window - 1
      ensures CountIn(g.history + [t], x, y) == CountIn(g.history, x, y) + if x <= t <= y then 1 else 0
    {
      CountInSnoc(g.history, t, x, y);
    }
  }

  lemma {:induction false} PlayKeepsRoom(limit: int, window: int, c: int, ip: Text, g: Guard, now: int,
                                         attempts: seq<Attempt>)
    returns (end: int)
    requires Room(limit, window, c, ip, g, now) && Play(limit, window, c, ip, g, attempts).Some?
    requires attempts != [] ==> now <= attempts[0].now
    requires forall i, j | 0 <= i < j < |attempts| :: attempts[i].now <= attempts[j].now
    ensures Room(limit, window, c, ip, Play(limit, window, c, ip, g, attempts).value, end)
    decreases |attempts|
  {
    if attempts == [] {
      end := now;
    } else {
      var a := attempts[0];
      var next := Handle(limit, window, c, ip, g, a).value;
      match a {
        case Start(t) => StartKeepsRoom(limit, window, c, ip, g, now, t);
        case Fail(t) => FailKeepsRoom(limit, window, c, ip, g, now, t);
        case Pass(t) => AgreesLater(window, g.entries, g.history, ip, now, t);
      }
      end := PlayKeepsRoom(limit, window, c, ip, next, a.now, attempts[1..]);
    }
  }

  /**
   When every recorded failure follows its own admitted attempt and at most c attempts are
   in flight at once, no half-open span (s, s + window] holds more than limit + c - 1
   failures for limit >= 1; one at a time, no more than limit.
   */
  lemma FailuresPerSpan(limit: int, window: int, c: nat, ip: Text, attempts: seq<Attempt>, s: int)
    requires forall i, j | 0 <= i < j < |attempts| :: attempts[i].now <= attempts[j].now
    requires Play(limit, window, c, ip, Guard(map[], [], 0), attempts).Some?
    ensures CountIn(Play(limit, window, c, ip, Guard(map[], [], 0), attempts).value.history, s + 1, s + window)
         <= Most(limit, c)
    ensures limit >= 1 ==> Most(limit, c) == limit + c - 1 && Most(limit, 1) == limit
  {
    var start := if attempts == [] then 0 else attempts[0].now;
    var end := PlayKeepsRoom(limit, window, c, ip, Guard(map[], [], 0), start, attempts);
  }

  // ----- the bound is reached -----

  function Zeros(n: nat): seq<int> {
    if n == 0 then [] else Zeros(n - 1) + [0]
  }

  lemma {:induction false} ZerosAre(n: nat, cutoff: int)
    requires cutoff < 0
    ensures |Zeros(n)| == n && After(Zeros(n), cutoff) == Zeros(n)
    ensures forall x, y | x <= 0 <= y :: CountIn(Zeros(n), x, y) == n
    decreases n
  {
    if n > 0 {
      ZerosAre(n - 1, cutoff);
      assert Zeros(n)[..|Zeros(n)| - 1] == Zeros(n - 1);
    }
  }

  /** After n failures at time 0, with some attempts in flight. */
  function Spent(ip: Text, n: nat, inFlight: int): Guard {
    Guard(if n == 0 then map[] else map[ip := Zeros(n)], Zeros(n), inFlight)
  }

  lemma SpentStart(limit: int, window: int, c: int, ip: Text, n: nat, inFlight: int)
    requires window > 0 && n < limit && inFlight < c
    ensures Handle(limit, window, c, ip, Spent(ip, n, inFlight), Start(0)) == Some(Spent(ip, n, inFlight + 1))
  {
    hide After, Zeros;
    ZerosAre(n, 0 - window);
  }

  lemma FailedAt(limit: int, window: int, c: int, ip: Text, g: Guard)
    requires g.inFlight > 0
    ensures Handle(limit, window, c, ip, g, Fail(0))
         == Some(Guard(AfterFailure(g.entries, ip, 0), g.history + [0], g.inFlight - 1))
  {
  }

  lemma SpentFail(limit: int, window: int, c: int, ip: Text, n: nat, inFlight: int)
    requires inFlight > 0
    ensures Handle(limit, window, c, ip, Spent(ip, n, inFlight), Fail(0)) == Some(Spent(ip, n + 1, inFlight - 1))
  {
    hide Handle;
    FailedAt(limit, window, c, ip, Spent(ip, n, inFlight));
    assert Zeros(n + 1) == Zeros(n) + [0];
    assert n == 0 ==> [] + [0] == Zeros(1) && map[][ip := [0]] == map[ip := [0]];
    assert n > 0 ==> map[ip := Zeros(n)][ip := Zeros(n) + [0]] == map[ip := Zeros(n + 1)];
  }

  lemma PlayCons(limit: int, window: int, c: int, ip: Text, g: Guard, a: Attempt, next: Guard, rest: seq<Attempt>)
    requires Handle(limit, window, c, ip, g, a) == Some(next)
    ensures Play(limit, window, c, ip, g, [a] + rest) == Play(limit, window, c, ip, next, rest)
  {
    assert ([a] + rest)[1..] == rest;
  }

  /** One after another: n attempts fail, then c start together and fail together. */
  function Onslaught(n: nat, starts: nat, fails: nat): seq<Attempt> {
    if n > 0 then [Start(0)] + ([Fail(0)] + Onslaught(n - 1, starts, fails))
    else if starts > 0 then [Start(0)] + Onslaught(0, starts - 1, fails)
    else if fails > 0 then [Fail(0)] + Onslaught(0, 0, fails - 1)
    else []
  }

  lemma {:induction false} OnslaughtPlays(limit: int, window: int, c: int, ip: Text, done: nat, inFlight: nat,
                                          n: nat, starts: nat, fails: nat)
    requires window > 0 && c > 0 && (n + starts > 0 ==> done + n < limit)
    requires inFlight + starts <= c && inFlight + starts == fails && (n > 0 ==> inFlight == 0)
    ensures Play(limit, window, c, ip, Spent(ip, done, inFlight), Onslaught(n, starts, fails))
         == Some(Spent(ip, done + n + fails, 0))
    decreases n + starts + fails
  {
    hide Handle, Spent, Play;
    if n > 0 {
      SpentStart(limit, window, c, ip, done, 0);
      SpentFail(limit, window, c, ip, done, 1);
      var rest := Onslaught(n - 1, starts, fails);
      PlayCons(limit, window, c, ip, Spent(ip, done, 0), Start(0), Spent(ip, done, 1), [Fail(0)] + rest);
      PlayCons(limit, window, c, ip, Spent(ip, done, 1), Fail(0), Spent(ip, done + 1, 0), rest);
      OnslaughtPlays(limit, window, c, ip, done + 1, 0, n - 1, starts, fails);
    } else if starts > 0 {
      SpentStart(limit, window, c, ip, done, inFlight);
      PlayCons(limit, window, c, ip, Spent(ip, done, inFlight), Start(0), Spent(ip, done, inFlight + 1),
               Onslaught(0, starts - 1, fails));
      OnslaughtPlays(limit, window, c, ip, done, inFlight + 1, 0, starts - 1, fails);
    } else if fails > 0 {
      SpentFail(limit, window, c, ip, done, inFlight);
      PlayCons(limit, window, c, ip, Spent(ip, done, inFlight), Fail(0), Spent(ip, done + 1, inFlight - 1),
               Onslaught(0, 0, fails - 1));
      OnslaughtPlays(limit, window, c, ip, done + 1, inFlight - 1, 0, 0, fails - 1);
    } else {
      NothingPlayed(limit, window, c, ip, Spent(ip, done, 0));
    }
  }

  lemma NothingPlayed(limit: int, window: int, c: int, ip: Text, g: Guard)
    ensures Play(limit, window, c, ip, g, []) == Some(g)
  {
  }

  /** For every limit and every number of attempts in flight there is a run that reaches the bound. */
  lemma FailureBoundIsReached(limit: int, window: int, c: nat, ip: Text)
    requires limit >= 1 && window > 0 && c >= 1
    ensures var end := Play(limit, window, c, ip, Guard(map[], [], 0), Onslaught(limit - 1, c, c));
      end.Some? && CountIn(end.value.history, 0, window - 1) == limit + c - 1
  {
    hide Handle, Play, Onslaught, CountIn, After;
    OnslaughtPlays(limit, window, c, ip, 0, 0, limit - 1, c, c);
    ZerosAre(limit - 1 + c, -1);
  }
}
