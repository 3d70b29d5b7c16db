/**
 The due test that the reindexer, the vulnerability database updater, the backup scheduler
 and the rescanner share, in Go's 64-bit durations, and the scheduler loop around it.
 */
module Schedule {
  import opened Prelude
  import opened Counting
  import Rescan

  /** time.Hour, in nanoseconds. */
  const HOUR: int := 3600 * 1_000_000_000

  const MAX_INT64: int := 0x7FFF_FFFF_FFFF_FFFF
  const MIN_INT64: int := -0x8000_0000_0000_0000

  /** The largest interval whose product with HOUR fits. */
  const MAX_HOURS: int := 2562047

  /** What a 64-bit product keeps of an integer. */
  function Wrap(x: int): (w: int)
    ensures MIN_INT64 <= w <= MAX_INT64
  {
    (x - MIN_INT64) % 0x1_0000_0000_0000_0000 + MIN_INT64
  }

  /** time.Time.Sub clamps differences that do not fit a Duration. */
  function Saturate(x: int): int {
    if x > MAX_INT64 then MAX_INT64 else if x < MIN_INT64 then MIN_INT64 else x
  }

  /** reindexDue, updateDue, backupDue and artifactDue. */
  predicate Due(lastCheckedAt: Option<int>, intervalHours: int, now: int) {
    lastCheckedAt.None? || Saturate(now - lastCheckedAt.value) >= Wrap(intervalHours * HOUR)
  }

  /** The comparison on unbounded integers. */
  predicate DueExactly(lastCheckedAt: Option<int>, interval: int, now: int) {
    lastCheckedAt.None? || now - lastCheckedAt.value >= interval
  }

  lemma WrapIsIdentity(x: int)
    ensures Wrap(x) == x <==> MIN_INT64 <= x <= MAX_INT64
  {
  }

  /** Up to MAX_HOURS the 64-bit test is exact at all times, and from there on it is not. */
  lemma DueIsExactIff(intervalHours: int)
    requires intervalHours >= 0
    ensures (forall last, now ::
               Due(Some(last), intervalHours, now) <==> DueExactly(Some(last), intervalHours * HOUR, now))
       <==> intervalHours <= MAX_HOURS
  {
    var product := intervalHours * HOUR;
    WrapIsIdentity(product);
    if intervalHours > MAX_HOURS {
      assert product > MAX_INT64 >= Wrap(product);
      assert Due(Some(0), intervalHours, Wrap(product)) && !DueExactly(Some(0), product, Wrap(product));
    }
  }

  /** The artifact test of the rescan model is the 64-bit one for every interval in range. */
  lemma ArtifactDueIsExact(lastScan: Option<int>, intervalHours: int, now: int)
    requires 0 <= intervalHours <= MAX_HOURS
    ensures Due(lastScan, intervalHours, now) <==> Rescan.ArtifactDue(lastScan, intervalHours * HOUR, now)
  {
    WrapIsIdentity(intervalHours * HOUR);
  }

  // ----- the scheduler loop beside runs made by hand -----

  /**
   What can happen to one settings row. A run stamps the time it starts at and writes that
   stamp when it ends, if the write succeeds; runs made by hand come in handlers of their
   own, beside the scheduler's one loop. A restore writes whatever its backup held.
   */
  datatype Event =
    | ManualStart(startedAt: int)
    | ManualEnd(startedAt: int, recorded: bool)
    | Poll(now: int, enabled: bool, startedAt: int)
    | Finish(recorded: bool)
    | Restore(lastCheckedAt: Option<int>)

  /** The row, the runs in flight, the start times of the scheduler's runs, and the clock. */
  datatype Job = Job(last: Option<int>, manual: multiset<int>, running: Option<int>, runs: seq<int>, clock: int)

  predicate Starts(job: Job, intervalHours: int, e: Event) {
    e.Poll? && e.enabled && Due(job.last, intervalHours, e.now)
  }

  /** None when the event cannot happen: the clock would go back, or there is no such run. */
  function Step(job: Job, intervalHours: int, e: Event): Option<Job> {
    match e
    case ManualStart(startedAt) =>
      if startedAt < job.clock then None
      else Some(job.(manual := job.manual + multiset{startedAt}, clock := startedAt))
    case ManualEnd(startedAt, recorded) =>
      if startedAt !in job.manual then None
      else Some(job.(manual := job.manual - multiset{startedAt},
                     last := if recorded then Some(startedAt) else job.last))
    case Poll(now, _, startedAt) =>
      if job.running.Some? || now < job.clock || startedAt < now then None
      else if !Starts(job, intervalHours, e) then Some(job.(clock := now))
      else Some(job.(running := Some(startedAt), runs := job.runs + [startedAt], clock := startedAt))
    case Finish(recorded) =>
      if job.running.None? then None
      else Some(job.(running := None, last := if recorded then job.running else job.last))
    case Restore(last) => Some(job.(last := last))
  }

  function Play(job: Job, intervalHours: int, events: seq<Event>): Option<Job>
    decreases |events|
  {
    if events == [] then Some(job)
    else
      var next :- Step(job, intervalHours, events[0]);
      Play(next, intervalHours, events[1..])
  }

  /** The row a scheduler polls, and the writes to it, each one statement. */
  class Settings {
    var lastCheckedAt: Option<int>
    var lastSucceededAt: Option<int>
    /** Empty after a success. */
    var lastError: string
    ghost var manual: multiset<int>
    ghost var running: Option<int>
    ghost var runs: seq<int>
    ghost var clock: int

    /** Without an error the last check is the last success. */
    ghost predicate Valid()
      reads this
    {
      lastError == [] ==> lastSucceededAt == lastCheckedAt
    }

    ghost function Current(): Job
      reads this
    {
      Job(lastCheckedAt, manual, running, runs, clock)
    }

    constructor (ghost clock: int)
      ensures Valid() && Current() == Job(None, multiset{}, None, [], clock)
    {
      lastCheckedAt, lastSucceededAt, lastError := None, None, [];
      manual, running, runs, this.clock := multiset{}, None, [], clock;
    }

    /** RecordSearchIndexUpdateResult and its kin; error is None on success and never an empty text. */
    method Record(checkedAt: int, error: Option<string>, saved: bool)
      requires Valid() && (error.Some? ==> error.value != [])
      modifies this`lastCheckedAt, this`lastSucceededAt, this`lastError
      ensures Valid()
      ensures lastCheckedAt == if saved then Some(checkedAt) else old(lastCheckedAt)
      ensures saved ==> (lastError == [] <==> error.None?)
      ensures lastSucceededAt == if saved && error.None? then Some(checkedAt) else old(lastSucceededAt)
    {
      if !saved {
        return;
      }
      if error.None? {
        lastCheckedAt, lastSucceededAt, lastError := Some(checkedAt), Some(checkedAt), [];
      } else {
        lastCheckedAt, lastError := Some(checkedAt), error.value;
      }
    }

    /** One pass of the loop, up to the start of the run. */
    method Check(now: int, enabled: bool, intervalHours: int, startedAt: int) returns (started: bool)
      requires Valid() && Step(Current(), intervalHours, Poll(now, enabled, startedAt)).Some?
      modifies this
      ensures Valid()
      ensures started == Starts(old(Current()), intervalHours, Poll(now, enabled, startedAt))
      ensures started <==> enabled && Due(lastCheckedAt, intervalHours, now)
      ensures runs == if started then old(runs) + [startedAt] else old(runs)
      ensures lastCheckedAt == old(lastCheckedAt)
      ensures Step(old(Current()), intervalHours, Poll(now, enabled, startedAt)) == Some(Current())
    {
      clock := now;
      if !enabled || !Due(lastCheckedAt, intervalHours, now) {
        return false;
      }
      running, runs, clock := Some(startedAt), runs + [startedAt], startedAt;
      return true;
    }

    /** The end of the scheduler's run, whatever its outcome. */
    method EndRun(startedAt: int, error: Option<string>, saved: bool, ghost intervalHours: int)
      requires Valid() && running == Some(startedAt) && (error.Some? ==> error.value != [])
      modifies this
      ensures Valid() && Step(old(Current()), intervalHours, Finish(saved)) == Some(Current())
      ensures lastCheckedAt == (if saved then Some(startedAt) else old(lastCheckedAt)) && runs == old(runs)
    {
      Record(startedAt, error, saved);
      running := None;
    }

    /** The end of a run made by hand. */
    method EndManualRun(startedAt: int, error: Option<string>, saved: bool, ghost intervalHours: int)
      requires Valid() && startedAt in manual && (error.Some? ==> error.value != [])
      modifies this
      ensures Valid() && Step(old(Current()), intervalHours, ManualEnd(startedAt, saved)) == Some(Current())
      ensures lastCheckedAt == (if saved then Some(startedAt) else old(lastCheckedAt)) && runs == old(runs)
    {
      Record(startedAt, error, saved);
      manual := manual - multiset{startedAt};
    }
  }

  predicate Spaced(times: seq<int>, interval: int) {
    forall i, j | 0 <= i < j < |times| :: times[j] - times[i] >= interval
  }

  /** No run that started earlier is still in flight to overwrite the stamp of this one. */
  predicate NoneEarlier(job: Job, startedAt: int) {
    forall m | m in job.manual :: m >= startedAt
  }

  /** Polls that find the scheduler switched off start nothing, however overdue a run is. */
  lemma {:induction false} SwitchedOffNeverRuns(job: Job, intervalHours: int, events: seq<Event>)
    requires Play(job, intervalHours, events).Some? && forall e | e in events :: e.Poll? ==> !e.enabled
    ensures Play(job, intervalHours, events).value.runs == job.runs
    decreases |events|
  {
    if events != [] {
      assert events[0] in events && forall e | e in events[1..] :: e in events;
      SwitchedOffNeverRuns(Step(job, intervalHours, events[0]).value, intervalHours, events[1..]);
    }
  }

  /** The row is at least as new as the scheduler's last run. */
  predicate UpToDate(job: Job, last: Option<int>) {
    job.runs != [] ==> last.Some? && last.value >= job.runs[|job.runs| - 1]
  }

  /**
   What spacing asks of an event: a scheduled run starts with no earlier run in flight and
   is recorded when it ends, and no restore brings back an older check.
   */
  predicate Quiet(job: Job, intervalHours: int, e: Event) {
    match e
    case ManualStart(_) => true
    case ManualEnd(_, _) => true
    case Poll(_, _, startedAt) => Starts(job, intervalHours, e) ==> NoneEarlier(job, startedAt)
    case Finish(recorded) => recorded
    case Restore(last) => UpToDate(job, last)
  }

  predicate AllQuiet(job: Job, intervalHours: int, events: seq<Event>)
    decreases |events|
  {
    events == [] ||
    (Quiet(job, intervalHours, events[0]) && Step(job, intervalHours, events[0]).Some? &&
      AllQuiet(Step(job, intervalHours, events[0]).value, intervalHours, events[1..]))
  }

  /** Spaced so far, and every write still to come leaves the row up to date. */
  predicate Orderly(job: Job, interval: int) {
    && Spaced(job.runs, interval)
    && (forall m | m in job.manual :: m <= job.clock)
    && (job.runs != [] ==>
          var latest := job.runs[|job.runs| - 1];
          latest <= job.clock && NoneEarlier(job, latest) && (job.running.Some? ==> job.running.value == latest))
    && (job.running.None? ==> UpToDate(job, job.last))
    && (job.running.Some? ==> job.runs != [])
  }

  lemma SpacedSnoc(times: seq<int>, t: int, interval: int)
    requires interval >= 0 && Spaced(times, interval) && (times != [] ==> t - times[|times| - 1] >= interval)
    ensures Spaced(times + [t], interval)
  {
    forall i | 0 <= i < |times|
      ensures t - times[i] >= interval
    {
      assert i < |times| - 1 ==> times[|times| - 1] - times[i] >= interval;
    }
  }

  /** A poll that finds the row up to date starts its run an interval after the last one. */
  lemma PollIsSpaced(job: Job, intervalHours: int, e: Event)
    requires 0 <= intervalHours <= MAX_HOURS && Spaced(job.runs, intervalHours * HOUR) && UpToDate(job, job.last)
    requires Starts(job, intervalHours, e) && e.now <= e.startedAt
    ensures Spaced(job.runs + [e.startedAt], intervalHours * HOUR)
  {
    WrapIsIdentity(intervalHours * HOUR);
    SpacedSnoc(job.runs, e.startedAt, intervalHours * HOUR);
  }

  lemma StepKeepsOrder(job: Job, intervalHours: int, e: Event)
    requires 0 <= intervalHours <= MAX_HOURS && Orderly(job, intervalHours * HOUR)
    requires Quiet(job, intervalHours, e) && Step(job, intervalHours, e).Some?
    ensures Orderly(Step(job, intervalHours, e).value, intervalHours * HOUR)
  {
    hide Spaced, Due;
    if Starts(job, intervalHours, e) {
      PollIsSpaced(job, intervalHours, e);
    }
  }

  lemma {:induction false} PlayKeepsOrder(job: Job, intervalHours: int, events: seq<Event>)
    requires 0 <= intervalHours <= MAX_HOURS && Orderly(job, intervalHours * HOUR)
    requires AllQuiet(job, intervalHours, events)
    ensures Play(job, intervalHours, events).Some?
    ensures Orderly(Play(job, intervalHours, events).value, intervalHours * HOUR)
    decreases |events|
  {
    hide Orderly, Quiet, Step;
    if events != [] {
      StepKeepsOrder(job, intervalHours, events[0]);
      PlayKeepsOrder(Step(job, intervalHours, events[0]).value, intervalHours, events[1..]);
    }
  }

  function Idle(last: Option<int>, manual: multiset<int>, clock: int): Job {
    Job(last, manual, None, [], clock)
  }

  /**
   In every interleaving of polls, ends of runs, restores and runs made by hand in which each
   scheduled run starts with no earlier run in flight and is recorded, and no restore brings
   back an older check, scheduled runs are an interval apart.
   */
  lemma RunsAreSpaced(last: Option<int>, manual: multiset<int>, clock: int, intervalHours: int, events: seq<Event>)
    requires 0 <= intervalHours <= MAX_HOURS && forall m | m in manual :: m <= clock
    requires AllQuiet(Idle(last, manual, clock), intervalHours, events)
    ensures Play(Idle(last, manual, clock), intervalHours, events).Some?
    ensures Spaced(Play(Idle(last, manual, clock), intervalHours, events).value.runs, intervalHours * HOUR)
  {
    PlayKeepsOrder(Idle(last, manual, clock), intervalHours, events);
  }

  // ----- the condition is exact -----

  /** Whatever run the next poll starts, it comes an interval after the last. */
  ghost predicate NextIsSpaced(job: Job, intervalHours: int) {
    forall e: Event | e.Poll? && Step(job, intervalHours, e).Some? && Starts(job, intervalHours, e) ::
      Spaced(job.runs + [e.startedAt], intervalHours * HOUR)
  }

  /** At every idle moment that quiet events lead to, the next run is spaced. */
  ghost predicate StaysSpaced(job: Job, intervalHours: int) {
    forall events: seq<Event> | AllQuiet(job, intervalHours, events) && Play(job, intervalHours, events).Some? ::
      NextIsSpaced(Play(job, intervalHours, events).value, intervalHours)
  }

  /** The run that has just started, all runs so far being spaced. */
  predicate JustStarted(job: Job, interval: int) {
    && Spaced(job.runs, interval) && job.runs != []
    && job.running == Some(job.clock) && job.runs[|job.runs| - 1] == job.clock
    && forall m | m in job.manual :: m <= job.clock
  }

  lemma OrderlyIsSpacedNext(job: Job, intervalHours: int)
    requires 0 <= intervalHours <= MAX_HOURS && Orderly(job, intervalHours * HOUR)
    ensures NextIsSpaced(job, intervalHours)
  {
    forall e: Event | e.Poll? && Step(job, intervalHours, e).Some? && Starts(job, intervalHours, e)
      ensures Spaced(job.runs + [e.startedAt], intervalHours * HOUR)
    {
      PollIsSpaced(job, intervalHours, e);
    }
  }

  /** A row older than the last run lets a run start too early. */
  lemma OutdatedRowIsEarly(job: Job, intervalHours: int, now: int)
    requires 1 <= intervalHours <= MAX_HOURS && job.running.None? && job.runs != []
    requires job.last.Some? && job.last.value < job.runs[|job.runs| - 1] == job.clock
    requires now == job.last.value + intervalHours * HOUR || now == job.clock
    requires job.clock <= now && job.last.value + intervalHours * HOUR <= now
    ensures !NextIsSpaced(job, intervalHours)
  {
    WrapIsIdentity(intervalHours * HOUR);
    WrapBoundsDue(job.last.value, intervalHours, now);
    var e := Poll(now, true, now);
    var n := |job.runs|;
    var runs := job.runs + [now];
    assert runs[n] - runs[n - 1] < intervalHours * HOUR;
    assert Step(job, intervalHours, e).Some? && Starts(job, intervalHours, e);
  }

  lemma WrapBoundsDue(last: int, intervalHours: int, now: int)
    requires 0 <= intervalHours <= MAX_HOURS && now - last >= intervalHours * HOUR
    ensures Due(Some(last), intervalHours, now)
  {
    WrapIsIdentity(intervalHours * HOUR);
  }

  /** The earlier run ends after the scheduled one and sets the row back. */
  lemma EarlierRunSetsBack(job: Job, intervalHours: int, m: int)
    requires 1 <= intervalHours <= MAX_HOURS && JustStarted(job, intervalHours * HOUR)
    requires m in job.manual && m < job.clock
    ensures !StaysSpaced(job, intervalHours)
  {
    var done := Step(job, intervalHours, Finish(true)).value;
    var back := Step(done, intervalHours, ManualEnd(m, true)).value;
    var events := [Finish(true), ManualEnd(m, true)];
    PlayTwo(job, intervalHours, Finish(true), ManualEnd(m, true));
    var due := m + intervalHours * HOUR;
    OutdatedRowIsEarly(back, intervalHours, if due < job.clock then job.clock else due);
  }

  lemma PlayTwo(job: Job, intervalHours: int, e: Event, f: Event)
    requires Step(job, intervalHours, e).Some? && Quiet(job, intervalHours, e)
    requires Step(Step(job, intervalHours, e).value, intervalHours, f).Some?
    requires Quiet(Step(job, intervalHours, e).value, intervalHours, f)
    ensures AllQuiet(job, intervalHours, [e, f])
    ensures Play(job, intervalHours, [e, f]) == Step(Step(job, intervalHours, e).value, intervalHours, f)
  {
    hide Step, Quiet;
    assert [e, f][1..] == [f] && [f][1..] == [];
    var next := Step(job, intervalHours, e).value;
    var end := Step(next, intervalHours, f).value;
    assert AllQuiet(end, intervalHours, []) && Play(end, intervalHours, []) == Some(end);
    assert AllQuiet(next, intervalHours, [f]) && Play(next, intervalHours, [f]) == Some(end);
  }

  /**
   When a scheduled run starts, the runs after it stay spaced, whatever quiet events follow,
   if and only if no run that started earlier is still in flight.
   */
  lemma SpacedIffNoneEarlier(job: Job, intervalHours: int)
    requires 1 <= intervalHours <= MAX_HOURS && JustStarted(job, intervalHours * HOUR)
    ensures StaysSpaced(job, intervalHours) <==> NoneEarlier(job, job.clock)
  {
    if NoneEarlier(job, job.clock) {
      forall events: seq<Event> | AllQuiet(job, intervalHours, events) && Play(job, intervalHours, events).Some?
        ensures NextIsSpaced(Play(job, intervalHours, events).value, intervalHours)
      {
        PlayKeepsOrder(job, intervalHours, events);
        OrderlyIsSpacedNext(Play(job, intervalHours, events).value, intervalHours);
      }
    } else {
      var m :| m in job.manual && m < job.clock;
      EarlierRunSetsBack(job, intervalHours, m);
    }
  }

  /** One minute, in nanoseconds. */
  const MINUTE: int := 60 * 1_000_000_000

  /**
   A run made by hand at 0 that outlives the scheduled run of minute 1 sets the row back to
   0, and with an interval of one hour the next scheduled run comes at minute 60.
   */
  lemma OverlapBreaksSpacing(events: seq<Event>)
    requires events == [ManualStart(0)] + ([Poll(MINUTE, true, MINUTE)] + ([Finish(true)] +
                       ([ManualEnd(0, true)] + ([Poll(60 * MINUTE, true, 60 * MINUTE)] + []))))
    ensures var end := Play(Idle(None, multiset{}, 0), 1, events);
      end.Some? && end.value.runs == [MINUTE, 60 * MINUTE] && !Spaced(end.value.runs, HOUR)
      && CountIn(end.value.runs, MINUTE, 60 * MINUTE) == 2 > (60 * MINUTE - MINUTE) / HOUR + 1
  {
    hide CountIn, Step, Due, Play, Spaced;
    var late := Poll(60 * MINUTE, true, 60 * MINUTE);
    var j0, j1 := Idle(None, multiset{}, 0), Idle(None, multiset{0}, 0);
    var j2 := Job(None, multiset{0}, Some(MINUTE), [MINUTE], MINUTE);
    var j3 := Job(Some(MINUTE), multiset{0}, None, [MINUTE], MINUTE);
    var j4 := Job(Some(0), multiset{}, None, [MINUTE], MINUTE);
    var j5 := Job(Some(0), multiset{}, Some(60 * MINUTE), [MINUTE, 60 * MINUTE], 60 * MINUTE);
    OverlapStart(j0, j1, j2);
    OverlapEnd(j2, j3, j4);
    LatePoll(j4, j5);
    PlayNothing(j5, 1);
    PlayCons(j4, 1, late, [], j5);
    PlayCons(j3, 1, ManualEnd(0, true), [late] + [], j4);
    PlayCons(j2, 1, Finish(true), [ManualEnd(0, true)] + ([late] + []), j3);
    PlayCons(j1, 1, Poll(MINUTE, true, MINUTE), [Finish(true)] + ([ManualEnd(0, true)] + ([late] + [])), j2);
    PlayCons(j0, 1, ManualStart(0),
             [Poll(MINUTE, true, MINUTE)] + ([Finish(true)] + ([ManualEnd(0, true)] + ([late] + []))), j1);
    TwoRuns(j5.runs);
  }

  /** So does a restore that brings back a row without a check: the next poll starts a run at once. */
  lemma RestoreBreaksSpacing(events: seq<Event>)
    requires events == [Poll(MINUTE, true, MINUTE)] + ([Finish(true)] + ([Restore(None)] +
                       ([Poll(2 * MINUTE, true, 2 * MINUTE)] + [])))
    ensures var end := Play(Idle(None, multiset{}, 0), 1, events);
      end.Some? && end.value.runs == [MINUTE, 2 * MINUTE] && !Spaced(end.value.runs, HOUR)
  {
    hide Play, Spaced;
    var again := Poll(2 * MINUTE, true, 2 * MINUTE);
    var j0 := Idle(None, multiset{}, 0);
    var j1 := Job(None, multiset{}, Some(MINUTE), [MINUTE], MINUTE);
    var j2 := Job(Some(MINUTE), multiset{}, None, [MINUTE], MINUTE);
    var j3 := Job(None, multiset{}, None, [MINUTE], MINUTE);
    var j4 := Job(None, multiset{}, Some(2 * MINUTE), [MINUTE, 2 * MINUTE], 2 * MINUTE);
    assert [] + [MINUTE] == [MINUTE] && [MINUTE] + [2 * MINUTE] == [MINUTE, 2 * MINUTE];
    PlayNothing(j4, 1);
    PlayCons(j3, 1, again, [], j4);
    PlayCons(j2, 1, Restore(None), [again] + [], j3);
    PlayCons(j1, 1, Finish(true), [Restore(None)] + ([again] + []), j2);
    PlayCons(j0, 1, Poll(MINUTE, true, MINUTE), [Finish(true)] + ([Restore(None)] + ([again] + [])), j1);
    TooSoon(j4.runs);
  }

  lemma TooSoon(runs: seq<int>)
    requires runs == [MINUTE, 2 * MINUTE]
    ensures !Spaced(runs, HOUR)
  {
    assert runs[1] - runs[0] < HOUR;
  }

  lemma OverlapStart(j0: Job, j1: Job, j2: Job)
    requires j0 == Idle(None, multiset{}, 0) && j1 == Idle(None, multiset{0}, 0)
    requires j2 == Job(None, multiset{0}, Some(MINUTE), [MINUTE], MINUTE)
    ensures Step(j0, 1, ManualStart(0)) == Some(j1) && Step(j1, 1, Poll(MINUTE, true, MINUTE)) == Some(j2)
  {
    assert multiset{} + multiset{0} == multiset{0} && [] + [MINUTE] == [MINUTE];
  }

  lemma OverlapEnd(j2: Job, j3: Job, j4: Job)
    requires j2 == Job(None, multiset{0}, Some(MINUTE), [MINUTE], MINUTE)
    requires j3 == Job(Some(MINUTE), multiset{0}, None, [MINUTE], MINUTE)
    requires j4 == Job(Some(0), multiset{}, None, [MINUTE], MINUTE)
    ensures Step(j2, 1, Finish(true)) == Some(j3) && Step(j3, 1, ManualEnd(0, true)) == Some(j4)
  {
    assert multiset{0} - multiset{0} == multiset{};
  }

  lemma LatePoll(j4: Job, j5: Job)
    requires j4 == Job(Some(0), multiset{}, None, [MINUTE], MINUTE)
    requires j5 == Job(Some(0), multiset{}, Some(60 * MINUTE), [MINUTE, 60 * MINUTE], 60 * MINUTE)
    ensures Step(j4, 1, Poll(60 * MINUTE, true, 60 * MINUTE)) == Some(j5)
  {
    hide Due;
    WrapBoundsDue(0, 1, 60 * MINUTE);
    assert [MINUTE] + [60 * MINUTE] == [MINUTE, 60 * MINUTE];
  }

  lemma TwoRuns(runs: seq<int>)
    requires runs == [MINUTE, 60 * MINUTE]
    ensures !Spaced(runs, HOUR) && CountIn(runs, MINUTE, 60 * MINUTE) == 2 > (60 * MINUTE - MINUTE) / HOUR + 1
  {
    assert runs[1] - runs[0] < HOUR;
    CountInAll(runs, MINUTE, 60 * MINUTE);
  }

  lemma PlayNothing(job: Job, intervalHours: int)
    ensures Play(job, intervalHours, []) == Some(job)
  {
  }

  lemma PlayCons(job: Job, intervalHours: int, e: Event, rest: seq<Event>, next: Job)
    requires Step(job, intervalHours, e) == Some(next)
    ensures Play(job, intervalHours, [e] + rest) == Play(next, intervalHours, rest)
  {
    assert ([e] + rest)[1..] == rest;
  }

  // ----- how many runs fit -----

  /** c times, one interval apart each, fit between x and y. */
  predicate Fits(c: nat, interval: int, x: int, y: int) {
    c == 0 || (c - 1) * interval <= y - x
  }

  /** c spaced times in a span leave c - 1 gaps inside it. */
  lemma {:induction false} SpacedGaps(times: seq<int>, interval: int, x: int, y: int)
    requires interval > 0 && Spaced(times, interval)
    ensures Fits(CountIn(times, x, y), interval, x, y)
  {
    hide Fits;
    if times == [] {
      FitsNone(interval, x, y);
    } else {
      var n := |times| - 1;
      var last, rest := times[n], times[..n];
      LastIsFarther(times, rest, last, interval);
      if x <= last <= y {
        CountInWider(rest, x, y, x, last - interval);
        SpacedGaps(rest, interval, x, last - interval);
        FitsOneMore(CountIn(rest, x, y), CountIn(rest, x, last - interval), interval, x, last, y);
      } else {
        SpacedGaps(rest, interval, x, y);
      }
    }
  }

  lemma FitsNone(interval: int, x: int, y: int)
    ensures Fits(0, interval, x, y)
  {
  }

  lemma FitsOneMore(c: nat, d: nat, interval: int, x: int, last: int, y: int)
    requires interval > 0 && x <= last <= y && c <= d && Fits(d, interval, x, last - interval)
    ensures Fits(c + 1, interval, x, y)
  {
    if d > 0 {
      assert (d - 1) * interval + interval == d * interval;
      MulMonotone(c, d, interval);
    }
  }

  lemma LastIsFarther(times: seq<int>, rest: seq<int>, last: int, interval: int)
    requires times == rest + [last] && Spaced(times, interval)
    ensures Spaced(rest, interval)
    ensures forall t | t in rest :: t <= last - interval
  {
    forall i, j | 0 <= i < j < |rest|
      ensures rest[j] - rest[i] >= interval
    {
      assert times[j] - times[i] >= interval;
    }
    forall t | t in rest
      ensures t <= last - interval
    {
      var i :| 0 <= i < |rest| && rest[i] == t;
      assert times[|rest|] - times[i] >= interval;
    }
  }

  lemma MulMonotone(a: int, b: int, d: int)
    requires a <= b && d >= 0
    ensures a * d <= b * d
  {
  }

  lemma FitsQuotient(c: nat, interval: int, x: int, y: int)
    requires interval > 0 && x <= y && Fits(c, interval, x, y)
    ensures c <= (y - x) / interval + 1
  {
    var q := (y - x) / interval;
    assert y - x == q * interval + (y - x) % interval && (y - x) % interval < interval;
    assert (q + 1) * interval == q * interval + interval;
    if c > q + 1 {
      MulMonotone(q + 1, c - 1, interval);
    }
  }

  /**
   Under the same condition the scheduler starts at most span / interval + 1 runs in any
   closed span of time, however many runs somebody makes by hand.
   */
  lemma RunsPerSpan(last: Option<int>, manual: multiset<int>, clock: int, intervalHours: int, events: seq<Event>,
                    x: int, span: int)
    requires 1 <= intervalHours <= MAX_HOURS && (forall m | m in manual :: m <= clock) && span >= 0
    requires AllQuiet(Idle(last, manual, clock), intervalHours, events)
    ensures Play(Idle(last, manual, clock), intervalHours, events).Some?
    ensures CountIn(Play(Idle(last, manual, clock), intervalHours, events).value.runs, x, x + span)
         <= span / (intervalHours * HOUR) + 1
  {
    RunsAreSpaced(last, manual, clock, intervalHours, events);
    var interval, runs := intervalHours * HOUR, Play(Idle(last, manual, clock), intervalHours, events).value.runs;
    SpacedGaps(runs, interval, x, x + span);
    FitsQuotient(CountIn(runs, x, x + span), interval, x, x + span);
  }

  /** One hour past the range the product wraps below zero: a check just made is due again. */
  lemma WrappedIntervalIsAlwaysDue(now: int)
    ensures Due(Some(now), MAX_HOURS + 1, now) && !DueExactly(Some(now), (MAX_HOURS + 1) * HOUR, now)
  {
    assert Wrap((MAX_HOURS + 1) * HOUR) == (MAX_HOURS + 1) * HOUR - 0x1_0000_0000_0000_0000;
  }
}
